/** The converter object (markdown_to_word.py:12-16) and the per-file work of
    _process_markdown_file (markdown_to_word.py:38-120) as imperative code over a document
    object: the PDF loop, the title, and the line loop with `current_para` and the figure
    counter. Each method is proved to do what the functions of modules PdfLinks and Emitter
    describe, so the properties proved there hold of it. */
module Converter {
  import opened Text
  import opened Markup
  import opened PdfLinks
  import opened Emitter

  /** The python-docx document: its paragraphs in order. */
  class Document {
    var blocks: seq<Block>

    constructor ()
      ensures blocks == []
    {
      blocks := [];
    }

    /** doc.add_heading(text, level) */
    method AddHeading(text: string, level: nat)
      modifies this
      ensures blocks == old(blocks) + [Heading(level, text)]
    {
      blocks := blocks + [Heading(level, text)];
    }

    /** doc.add_paragraph(text), returning the new paragraph's position. */
    method AddParagraph(text: string) returns (p: nat)
      modifies this
      ensures p == |old(blocks)| && blocks == old(blocks) + [Para(text)]
    {
      p := |blocks|;
      blocks := blocks + [Para(text)];
    }

    /** paragraph.add_run(text) on the text paragraph at position p. */
    method AddRun(p: nat, text: string)
      requires p < |blocks| && blocks[p].Para?
      modifies this
      ensures blocks == old(blocks)[p := Para(old(blocks)[p].text + text)]
    {
      blocks := blocks[p := Para(blocks[p].text + text)];
    }

    /** doc.add_paragraph() centred, with one empty run. */
    method AddCentered() returns (p: nat)
      modifies this
      ensures p == |old(blocks)| && blocks == old(blocks) + [EmptyCentered]
    {
      p := |blocks|;
      blocks := blocks + [EmptyCentered];
    }

    /** run.add_picture(file) in the empty run of the centred paragraph at p. */
    method AddPicture(p: nat, file: string)
      requires p < |blocks| && blocks[p] == EmptyCentered
      modifies this
      ensures blocks == old(blocks)[p := Picture(file)]
    {
      blocks := blocks[p := Picture(file)];
    }

    /** The centred italic paragraph f"图{number}: {alt}". */
    method AddCaption(number: nat, alt: string)
      modifies this
      ensures blocks == old(blocks) + [Caption(number, alt)]
    {
      blocks := blocks + [Caption(number, alt)];
    }
  }

  class MarkdownToWordConverter {
    const inputFolder: string
    const outputFolder: string
    /** The next figure number; it is never reset, so numbering runs on across files. */
    var imageCounter: nat

    constructor (inputFolder: string, outputFolder: string)
      ensures this.inputFolder == inputFolder && this.outputFolder == outputFolder
      ensures imageCounter == 1
    {
      this.inputFolder := inputFolder;
      this.outputFolder := outputFolder;
      imageCounter := 1;
    }

    /** _insert_image: skip a web image and a missing file; otherwise add the centred
        paragraph, put the picture in it, and add a numbered caption when the alt text is
        not blank. A refused picture leaves the empty paragraph and no caption. */
    method InsertImage(doc: Document, alt: string, path: string, env: Env)
      modifies this, doc
      ensures doc.blocks == old(doc.blocks) + ImageBlocks(alt, path, old(imageCounter), env)
      ensures imageCounter == if Captioned(alt, path, env) then old(imageCounter) + 1 else old(imageCounter)
    {
      if IsUrl(path) {
        return;
      }
      var full := JoinPath(env.mdDir, path);
      if env.fileExists(env.mdDir, path) {
        var p := doc.AddCentered();
        if env.pictureOk(full) {
          doc.AddPicture(p, full);
          if alt != [] && Strip(alt) != [] {
            doc.AddCaption(imageCounter, alt);
            imageCounter := imageCounter + 1;
          }
        }
      }
    }

    /** The actions of the line loop's body for a line of kind `kind` (the branch tests,
        which only look at the line, are Classify): `current` is current_para. */
    method ProcessLine(doc: Document, kind: LineKind, current: Option<nat>, env: Env) returns (next: Option<nat>)
      requires Valid(EmitState(doc.blocks, current, imageCounter))
      modifies this, doc
      ensures EmitState(doc.blocks, next, imageCounter)
        == Step(EmitState(old(doc.blocks), current, old(imageCounter)), kind, env)
    {
      match kind
      case Blank =>
        next := None;
      case Info(info) =>
        if info != [] {
          var _ := doc.AddParagraph(info);
        }
        next := None;
      case Heading2(text) =>
        doc.AddHeading(text, 2);
        next := None;
      case Image(alt, path) =>
        InsertImage(doc, alt, path, env);
        next := current;
      case Plain(line) =>
        if current.None? {
          var p := doc.AddParagraph(line);
          next := Some(p);
        } else {
          doc.AddRun(current.value, "\n" + line);
          assert doc.blocks[current.value].text == old(doc.blocks)[current.value].text + "\n" + line;
          next := current;
        }
    }

    /** The loop `for line in lines` (markdown_to_word.py:67-109), with current_para
        starting unset. */
    method ProcessLines(doc: Document, lines: seq<string>, env: Env)
      modifies this, doc
      ensures doc.blocks == Run(EmitState(old(doc.blocks), None, old(imageCounter)), Kinds(lines), env).blocks
      ensures imageCounter == Run(EmitState(old(doc.blocks), None, old(imageCounter)), Kinds(lines), env).counter
    {
      ghost var start := EmitState(doc.blocks, None, imageCounter);
      var current: Option<nat> := None;
      var i := 0;
      while i < |lines|
        invariant i <= |lines|
        invariant EmitState(doc.blocks, current, imageCounter) == Run(start, Kinds(lines[..i]), env)
      {
        assert lines[..i + 1][..i] == lines[..i];
        current := ProcessLine(doc, Classify(lines[i]), current, env);
        i := i + 1;
      }
      assert lines[..i] == lines;
    }

    /** _process_markdown_file on a file whose text is `content`, read from the directory
        env.mdDir: first every PDF reference is downloaded or copied, in order; then the
        first line becomes the title and the other lines the body of a new document. */
    method ProcessMarkdownFile(content: string, env: Env, fetchOk: string -> bool, ids: nat -> HexId)
      returns (actions: seq<PdfAction>, doc: Document)
      modifies this
      ensures fresh(doc)
      ensures actions == DownloadAll(Pairs(Matches(content)), env.mdDir, env.fileExists, fetchOk, ids)
      ensures doc.blocks == Convert(SplitLines(content), old(imageCounter), env).blocks
      ensures imageCounter == Convert(SplitLines(content), old(imageCounter), env).counter
    {
      var pdfUrls := ExtractAllPdfLinks(content);
      actions := DownloadPdfs(pdfUrls, env, fetchOk, ids);
      doc := new Document();
      var lines := SplitLines(content);
      var body := AddTitle(doc, lines);
      assert doc.blocks == Title(lines);
      ProcessLines(doc, body, env);
    }
  }

  /** The first line as the document's title (markdown_to_word.py:59-63): a level-1 heading
      when it is not blank; the other lines are returned for the loop. */
  method AddTitle(doc: Document, lines: seq<string>) returns (body: seq<string>)
    modifies doc
    ensures doc.blocks == old(doc.blocks) + Title(lines)
    ensures body == Body(lines)
  {
    body := lines;
    if |lines| > 0 {
      var first := Strip(lines[0]);
      if first != [] {
        doc.AddHeading(first, 1);
      }
      body := lines[1..];
    }
  }

  /** The loop `for text, url in pdf_urls` (markdown_to_word.py:48-50): what _download_pdf
      does with each reference, the k-th one drawing the random id ids(k). */
  method DownloadPdfs(pdfUrls: seq<(string, string)>, env: Env, fetchOk: string -> bool, ids: nat -> HexId)
    returns (actions: seq<PdfAction>)
    ensures actions == DownloadAll(pdfUrls, env.mdDir, env.fileExists, fetchOk, ids)
  {
    actions := [];
    var k := 0;
    while k < |pdfUrls|
      invariant k <= |pdfUrls|
      invariant actions == DownloadAll(pdfUrls[..k], env.mdDir, env.fileExists, fetchOk, ids)
    {
      assert pdfUrls[..k + 1][..k] == pdfUrls[..k];
      actions := actions + [DownloadPdf(pdfUrls[k].1, env.mdDir, env.fileExists, fetchOk, ids(k))];
      k := k + 1;
    }
    assert pdfUrls[..k] == pdfUrls;
  }
}
