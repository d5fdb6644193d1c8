/** The body of _process_markdown_file (markdown_to_word.py:56-111) and _insert_image
    (markdown_to_word.py:190-217) as functions of the file's lines: every line is classified
    once, and each class adds blocks to the document or changes the paragraph that is still
    open. The imperative loop and the classes holding this state are in module Converter,
    which is proved to compute exactly `Convert`.

    Whether the picture file exists (Path.exists()) and whether python-docx accepts it
    (run.add_picture raising or not) are parameters of the environment. */
module Emitter {
  import opened Text
  import opened Markup
  import opened PdfLinks

  /** What the converter writes into the Word document, one paragraph each. */
  datatype Block =
    | Heading(level: nat, text: string)
    /** A paragraph of text; the runs added to it later are already appended to `text`. */
    | Para(text: string)
    /** A centred paragraph holding the picture read from `file`, five inches wide. */
    | Picture(file: string)
    /** The centred paragraph, with an empty run, left behind when add_picture raised. */
    | EmptyCentered
    /** The centred, italic caption `图<number>: <alt>`. */
    | Caption(number: nat, alt: string)

  /** The caption's text, f"图{n}: {alt}". */
  function CaptionText(n: nat, alt: string): string {
    "\U{56FE}" + Decimal(n) + ": " + alt
  }

  /** The file system and python-docx as the converter sees them. */
  datatype Env = Env(mdDir: string, fileExists: (string, string) -> bool, pictureOk: string -> bool)

  // ---------------------------------------------------------------------------
  // One line

  /** How the loop at markdown_to_word.py:67-109 treats a line. */
  datatype LineKind =
    | Blank
    | Info(content: string)
    | Heading2(text: string)
    | Image(alt: string, path: string)
    | Plain(text: string)

  /** The branches of the loop body after the blank test, tried in the source's order on the
      stripped line once its underline tags are removed. */
  function KindOf(u: string): (k: LineKind)
    requires u != []
    ensures !k.Blank?
    ensures k.Plain? ==> k.text == u
  {
    if StartsWith(u, ":::") then Info(InfoContent(u))
    else if StartsWith(u, "####") then Heading2(Strip(u[4..]))
    else if StartsWith(u, "**") && EndsWith(u, "**") then Heading2(Strip(BoldInner(u)))
    else match ExtractImage(u)
      case Some(ref) => Image(ref.alt, ref.path)
      case None => Plain(u)
  }

  /** How the loop body treats a line read from the file. */
  function Classify(raw: string): (k: LineKind)
    ensures k.Blank? <==> Strip(raw) == []
    ensures k.Plain? ==> k.text != []
  {
    var s := Strip(raw);
    if s == [] then Blank else KindOf(Underline(s))
  }

  /** A line is blank (it resets current_para and adds nothing) exactly when every one of
      its characters is whitespace, its newline included. */
  lemma ClassifyBlank(raw: string)
    ensures Classify(raw) == Blank <==> AllSpace(raw)
  {
    StripEmpty(raw);
  }

  // ---------------------------------------------------------------------------
  // _insert_image

  /** The condition `alt_text and alt_text.strip()` is reached and holds: a caption is added
      and the counter advances. */
  predicate Captioned(alt: string, path: string, env: Env) {
    !IsUrl(path) && env.fileExists(env.mdDir, path) && env.pictureOk(JoinPath(env.mdDir, path))
    && Strip(alt) != []
  }

  /** The numbers of the captions, in document order. */
  function Captions(b: seq<Block>): (r: seq<nat>)
    ensures |r| <= |b|
  {
    if b == [] then []
    else Captions(b[..|b| - 1]) + (if b[|b| - 1].Caption? then [b[|b| - 1].number] else [])
  }

  /** The paragraphs _insert_image adds when the counter stands at n. A web image and a
      missing file add nothing; a picture python-docx refuses leaves an empty centred
      paragraph and no caption. */
  function ImageBlocks(alt: string, path: string, n: nat, env: Env): (r: seq<Block>)
    ensures r == [] <==> IsUrl(path) || !env.fileExists(env.mdDir, path)
    ensures Captions(r) == if Captioned(alt, path, env) then [n] else []
    ensures forall k :: 0 <= k < |r| ==> !r[k].Para? && !r[k].Heading?
  {
    if IsUrl(path) || !env.fileExists(env.mdDir, path) then []
    else
      var file := JoinPath(env.mdDir, path);
      if !env.pictureOk(file) then [EmptyCentered]
      else if Strip(alt) != [] then
        assert Captions([Picture(file), Caption(n, alt)]) == Captions([Picture(file)]) + [n];
        [Picture(file), Caption(n, alt)]
      else [Picture(file)]
  }

  /** What a local image that exists adds: the picture read from md_dir / path, then its
      caption `图<n>: alt` when the alt text is not blank; a refused picture leaves only the
      empty centred paragraph. */
  lemma ImagePicture(alt: string, path: string, n: nat, env: Env)
    requires !IsUrl(path) && env.fileExists(env.mdDir, path)
    ensures var file := JoinPath(env.mdDir, path);
      var r := ImageBlocks(alt, path, n, env);
      (!env.pictureOk(file) ==> r == [EmptyCentered])
      && (env.pictureOk(file) && Strip(alt) == [] ==> r == [Picture(file)])
      && (Captioned(alt, path, env) ==> r == [Picture(file), Caption(n, alt)])
  {
  }

  // ---------------------------------------------------------------------------
  // The loop

  /** The document so far, `current_para` as the index of its block, and image_counter. */
  datatype EmitState = EmitState(blocks: seq<Block>, open: Option<nat>, counter: nat)

  /** current_para, when set, is a paragraph of the document. */
  predicate Valid(st: EmitState) {
    st.open.Some? ==> st.open.value < |st.blocks| && st.blocks[st.open.value].Para?
  }

  /** One pass of the loop body, on a line of kind `kind`. */
  function Step(st: EmitState, kind: LineKind, env: Env): (r: EmitState)
    requires Valid(st)
    ensures Valid(r)
    ensures |st.blocks| <= |r.blocks|
  {
    match kind
    case Blank => st.(open := None)
    case Info(c) => EmitState(if c == [] then st.blocks else st.blocks + [Para(c)], None, st.counter)
    case Heading2(t) => EmitState(st.blocks + [Heading(2, t)], None, st.counter)
    case Image(alt, path) =>
      EmitState(st.blocks + ImageBlocks(alt, path, st.counter, env), st.open,
                if Captioned(alt, path, env) then st.counter + 1 else st.counter)
    case Plain(t) =>
      match st.open
      case None => EmitState(st.blocks + [Para(t)], Some(|st.blocks|), st.counter)
      case Some(p) => st.(blocks := st.blocks[p := Para(st.blocks[p].text + "\n" + t)])
  }

  /** The kind of every line. */
  function Kinds(lines: seq<string>): (r: seq<LineKind>)
    ensures |r| == |lines|
    decreases |lines|
  {
    if lines == [] then [] else Kinds(lines[..|lines| - 1]) + [Classify(lines[|lines| - 1])]
  }

  /** Kinds classifies each line on its own. */
  lemma {:induction false} KindsAt(lines: seq<string>, k: nat)
    requires k < |lines|
    ensures Kinds(lines)[k] == Classify(lines[k])
    decreases |lines|
  {
    var n := |lines|;
    var init := lines[..n - 1];
    assert Kinds(lines) == Kinds(init) + [Classify(lines[n - 1])];
    if k < n - 1 {
      KindsAt(init, k);
      assert init[k] == lines[k];
    }
  }

  /** The loop over lines of the kinds `ks`, starting from st. */
  function Run(st: EmitState, ks: seq<LineKind>, env: Env): (r: EmitState)
    requires Valid(st)
    ensures Valid(r)
    ensures |st.blocks| <= |r.blocks|
    decreases |ks|
  {
    if ks == [] then st else Step(Run(st, ks[..|ks| - 1], env), ks[|ks| - 1], env)
  }

  /** The level-1 heading made of the first line, when it is not blank. */
  function Title(lines: seq<string>): (r: seq<Block>)
    ensures r != [] <==> lines != [] && !AllSpace(lines[0])
    ensures r != [] ==> r == [Heading(1, Strip(lines[0]))]
  {
    if lines == [] then []
    else
      StripEmpty(lines[0]);
      if Strip(lines[0]) != [] then [Heading(1, Strip(lines[0]))] else []
  }

  /** lines[1:] */
  function Body(lines: seq<string>): (r: seq<string>)
    ensures lines == [] ==> r == []
    ensures lines != [] ==> [lines[0]] + r == lines
  {
    if lines == [] then [] else lines[1..]
  }

  /** The document built from a file's lines, with the converter's counter at `counter`. */
  function Convert(lines: seq<string>, counter: nat, env: Env): (r: EmitState)
    ensures Valid(r)
  {
    Run(EmitState(Title(lines), None, counter), Kinds(Body(lines)), env)
  }

  /** An empty file gives an empty document and leaves the counter alone. */
  lemma EmptyFile(counter: nat, env: Env)
    ensures Convert([], counter, env) == EmitState([], None, counter)
  {
  }

  // ---------------------------------------------------------------------------
  // Properties

  lemma {:induction false} RunAppend(st: EmitState, x: seq<LineKind>, y: seq<LineKind>, env: Env)
    requires Valid(st)
    ensures Run(st, x + y, env) == Run(Run(st, x, env), y, env)
    decreases |y|
  {
    if y == [] {
      assert x + y == x;
    } else {
      var n := |y|;
      assert (x + y)[..|x + y| - 1] == x + y[..n - 1];
      assert (x + y)[|x + y| - 1] == y[n - 1];
      RunAppend(st, x, y[..n - 1], env);
    }
  }

  /** "\n".join([first] + rest): the text of a paragraph that received the runs of rest. */
  function JoinNewline(first: string, rest: seq<string>): string
    decreases |rest|
  {
    if rest == [] then first else JoinNewline(first, rest[..|rest| - 1]) + "\n" + rest[|rest| - 1]
  }

  lemma {:induction false} JoinNewlineAppend(first: string, a: seq<string>, b: seq<string>)
    ensures JoinNewline(first, a + b) == JoinNewline(JoinNewline(first, a), b)
    decreases |b|
  {
    if b == [] {
      assert a + b == a;
    } else {
      var n := |b|;
      assert (a + b)[..|a + b| - 1] == a + b[..n - 1];
      assert (a + b)[|a + b| - 1] == b[n - 1];
      JoinNewlineAppend(first, a, b[..n - 1]);
    }
  }

  /** Every line is ordinary text, the k-th one being texts[k]. */
  ghost predicate AllPlain(ks: seq<LineKind>, texts: seq<string>) {
    |ks| == |texts| && forall k :: 0 <= k < |ks| ==> ks[k] == Plain(texts[k])
  }

  /** Text lines while a paragraph is open become runs "\n" + line of that paragraph. */
  lemma {:induction false} PlainLinesContinue(st: EmitState, ks: seq<LineKind>, texts: seq<string>, env: Env)
    requires Valid(st) && st.open.Some? && AllPlain(ks, texts)
    ensures Run(st, ks, env)
      == st.(blocks := st.blocks[st.open.value := Para(JoinNewline(st.blocks[st.open.value].text, texts))])
    decreases |ks|
  {
    if ks != [] {
      var n := |ks|;
      assert AllPlain(ks[..n - 1], texts[..n - 1]);
      PlainLinesContinue(st, ks[..n - 1], texts[..n - 1], env);
      assert ks[n - 1] == Plain(texts[n - 1]);
    }
  }

  /** A run of text lines after a line that closes the paragraph becomes one new paragraph:
      the lines joined with newlines. */
  lemma PlainLinesJoin(st: EmitState, ks: seq<LineKind>, texts: seq<string>, env: Env)
    requires Valid(st) && st.open.None? && AllPlain(ks, texts) && |ks| >= 1
    ensures Run(st, ks, env)
      == EmitState(st.blocks + [Para(JoinNewline(texts[0], texts[1..]))], Some(|st.blocks|), st.counter)
  {
    assert ks == [ks[0]] + ks[1..];
    RunAppend(st, [ks[0]], ks[1..], env);
    assert ks[0] == Plain(texts[0]);
    RunSingle(st, ks[0], env);
    assert AllPlain(ks[1..], texts[1..]);
    PlainLinesContinue(Step(st, ks[0], env), ks[1..], texts[1..], env);
  }

  /** Two runs of text lines with a blank line between them become two paragraphs. */
  lemma BlankLineSeparates(st: EmitState, a: seq<LineKind>, ta: seq<string>,
                           b: seq<LineKind>, tb: seq<string>, env: Env)
    requires Valid(st) && st.open.None?
    requires AllPlain(a, ta) && |a| >= 1 && AllPlain(b, tb) && |b| >= 1
    ensures Run(st, a + [Blank] + b, env).blocks
      == st.blocks + [Para(JoinNewline(ta[0], ta[1..])), Para(JoinNewline(tb[0], tb[1..]))]
  {
    RunAppend(st, a + [Blank], b, env);
    RunAppend(st, a, [Blank], env);
    PlainLinesJoin(st, a, ta, env);
    var s1 := Run(st, a, env);
    RunSingle(s1, Blank, env);
    PlainLinesJoin(Step(s1, Blank, env), b, tb, env);
  }

  /** A line adds at most two blocks (a picture and its caption), and no block already in
      the document changes except the open paragraph, which only grows by a run. */
  lemma StepFrame(st: EmitState, kind: LineKind, env: Env)
    requires Valid(st)
    ensures |Step(st, kind, env).blocks| <= |st.blocks| + 2
    ensures forall j :: 0 <= j < |st.blocks| && st.open != Some(j) ==> Step(st, kind, env).blocks[j] == st.blocks[j]
    ensures st.open.Some? && kind.Plain? ==>
      Step(st, kind, env).blocks[st.open.value] == Para(st.blocks[st.open.value].text + "\n" + kind.text)
  {
  }

  /** A blank line, an info line or a heading closes the paragraph: the next text line opens
      a new one after everything written so far, whether or not the info text was empty. */
  lemma ClosingLine(st: EmitState, kind: LineKind, t: string, env: Env)
    requires Valid(st) && (kind.Blank? || kind.Info? || kind.Heading2?)
    ensures Step(st, kind, env).open.None?
    ensures Step(st, kind, env).blocks == st.blocks + (if kind.Blank? || kind == Info([]) then [] else [Step(st, kind, env).blocks[|st.blocks|]])
    ensures var mid := Step(st, kind, env);
      Step(mid, Plain(t), env) == EmitState(mid.blocks + [Para(t)], Some(|mid.blocks|), st.counter)
  {
  }

  /** An image line does not close the paragraph: text before and after it forms one
      paragraph, placed before the picture. */
  lemma ImageInsideParagraph(st: EmitState, a: seq<LineKind>, ta: seq<string>, alt: string, path: string,
                             b: seq<LineKind>, tb: seq<string>, env: Env)
    requires Valid(st) && st.open.None?
    requires AllPlain(a, ta) && |a| >= 1 && AllPlain(b, tb)
    ensures Run(st, a + [Image(alt, path)] + b, env).blocks
      == st.blocks + [Para(JoinNewline(ta[0], ta[1..] + tb))] + ImageBlocks(alt, path, st.counter, env)
  {
    var img := Image(alt, path);
    var ib := ImageBlocks(alt, path, st.counter, env);
    var first := Para(JoinNewline(ta[0], ta[1..]));
    PlainLinesJoin(st, a, ta, env);
    var s1 := Run(st, a, env);
    var s2 := Step(s1, img, env);
    assert s2.blocks == st.blocks + [first] + ib && s2.open == Some(|st.blocks|);
    RunSingle(s1, img, env);
    RunAppend(st, a, [img], env);
    RunAppend(st, a + [img], b, env);
    UpdateAfter(st.blocks, first, Para(JoinNewline(ta[0], ta[1..] + tb)), ib);
    PlainLinesContinue(s2, b, tb, env);
    JoinNewlineAppend(ta[0], ta[1..], tb);
  }

  lemma RunSingle(st: EmitState, kind: LineKind, env: Env)
    requires Valid(st)
    ensures Run(st, [kind], env) == Step(st, kind, env)
  {
    assert [kind][..0] == [];
  }

  lemma UpdateAfter(a: seq<Block>, x: Block, y: Block, c: seq<Block>)
    ensures (a + [x] + c)[|a|] == x
    ensures (a + [x] + c)[|a| := y] == a + [y] + c
  {
  }

  /** The state with `pre` in front of the document. */
  function Shifted(pre: seq<Block>, st: EmitState): (r: EmitState)
    requires Valid(st)
    ensures Valid(r)
  {
    EmitState(pre + st.blocks, match st.open case None => None case Some(p) => Some(|pre| + p), st.counter)
  }

  lemma AppendShift(pre: seq<Block>, b: seq<Block>, c: seq<Block>)
    ensures pre + b + c == pre + (b + c)
  {
  }

  lemma UpdateShift(pre: seq<Block>, b: seq<Block>, p: nat, x: Block)
    requires p < |b|
    ensures (pre + b)[|pre| + p] == b[p]
    ensures (pre + b)[|pre| + p := x] == pre + b[p := x]
  {
  }

  lemma StepShift(pre: seq<Block>, st: EmitState, kind: LineKind, env: Env)
    requires Valid(st)
    ensures Step(Shifted(pre, st), kind, env) == Shifted(pre, Step(st, kind, env))
  {
    var b := st.blocks;
    match kind
    case Plain(t) =>
      if st.open.Some? {
        var p := st.open.value;
        UpdateShift(pre, b, p, Para(b[p].text + "\n" + t));
      } else {
        AppendShift(pre, b, [Para(t)]);
      }
    case Image(alt, path) =>
      AppendShift(pre, b, ImageBlocks(alt, path, st.counter, env));
    case Info(c) =>
      AppendShift(pre, b, [Para(c)]);
    case Heading2(t) =>
      AppendShift(pre, b, [Heading(2, t)]);
    case Blank =>
  }

  /** What the loop does to a document does not depend on blocks standing before it. */
  lemma {:induction false} RunShift(pre: seq<Block>, st: EmitState, ks: seq<LineKind>, env: Env)
    requires Valid(st)
    ensures Run(Shifted(pre, st), ks, env) == Shifted(pre, Run(st, ks, env))
    decreases |ks|
  {
    if ks != [] {
      var n := |ks|;
      RunShift(pre, st, ks[..n - 1], env);
      StepShift(pre, Run(st, ks[..n - 1], env), ks[n - 1], env);
    }
  }

  /** The first line is the title and nothing else: the rest of the document is what the
      loop makes of lines[1:] alone, so a first line that is an image, a heading or an info
      block is never treated as one. */
  lemma TitleThenBody(lines: seq<string>, counter: nat, env: Env)
    ensures Convert(lines, counter, env)
      == Shifted(Title(lines), Run(EmitState([], None, counter), Kinds(Body(lines)), env))
  {
    var e := EmitState([], None, counter);
    RunShift(Title(lines), e, Kinds(Body(lines)), env);
    assert Shifted(Title(lines), e) == EmitState(Title(lines), None, counter);
  }

  /** The blocks before |b| keep their kind and, unless they are paragraphs, their content. */
  ghost predicate Grows(b: seq<Block>, c: seq<Block>) {
    |b| <= |c| && forall k :: 0 <= k < |b| ==> c[k] == b[k] || (b[k].Para? && c[k].Para?)
  }

  /** Every heading from position `from` on is a level-2 heading. */
  ghost predicate SubHeadings(b: seq<Block>, from: nat) {
    forall k :: from <= k < |b| && b[k].Heading? ==> b[k].level == 2
  }

  lemma StepGrows(st: EmitState, kind: LineKind, env: Env, from: nat)
    requires Valid(st) && from <= |st.blocks| && SubHeadings(st.blocks, from)
    ensures Grows(st.blocks, Step(st, kind, env).blocks)
    ensures SubHeadings(Step(st, kind, env).blocks, from)
  {
  }

  lemma {:induction false} RunGrows(st: EmitState, ks: seq<LineKind>, env: Env, from: nat)
    requires Valid(st) && from <= |st.blocks| && SubHeadings(st.blocks, from)
    ensures Grows(st.blocks, Run(st, ks, env).blocks)
    ensures SubHeadings(Run(st, ks, env).blocks, from)
    decreases |ks|
  {
    if ks != [] {
      var n := |ks|;
      var mid := Run(st, ks[..n - 1], env);
      RunGrows(st, ks[..n - 1], env, from);
      StepGrows(mid, ks[n - 1], env, from);
    }
  }

  /** The only level-1 heading is the title, block 0, made of the first line; every other
      heading is a level-2 heading. */
  lemma OnlyTitleIsTopLevel(lines: seq<string>, counter: nat, env: Env)
    ensures Title(lines) != [] ==> Convert(lines, counter, env).blocks[0] == Heading(1, Strip(lines[0]))
    ensures SubHeadings(Convert(lines, counter, env).blocks, |Title(lines)|)
  {
    var st := EmitState(Title(lines), None, counter);
    RunGrows(st, Kinds(Body(lines)), env, |Title(lines)|);
  }

  /** n, n + 1, ..., hi - 1 */
  function Numbers(n: nat, hi: nat): (r: seq<nat>)
    requires n <= hi
    ensures |r| == hi - n
    decreases hi - n
  {
    if n == hi then [] else Numbers(n, hi - 1) + [hi - 1]
  }

  /** The k-th number is n + k. */
  lemma {:induction false} NumbersAt(n: nat, hi: nat, k: nat)
    requires n <= hi && k < hi - n
    ensures Numbers(n, hi)[k] == n + k
    decreases hi - n
  {
    if k < hi - n - 1 {
      NumbersAt(n, hi - 1, k);
    }
  }

  lemma {:induction false} CaptionsAppend(b: seq<Block>, c: seq<Block>)
    ensures Captions(b + c) == Captions(b) + Captions(c)
    decreases |c|
  {
    if c == [] {
      assert b + c == b;
    } else {
      var n := |c|;
      assert (b + c)[..|b + c| - 1] == b + c[..n - 1];
      assert (b + c)[|b + c| - 1] == c[n - 1];
      CaptionsAppend(b, c[..n - 1]);
    }
  }

  /** Rewriting a paragraph changes no caption. */
  lemma {:induction false} CaptionsUpdatePara(b: seq<Block>, p: nat, x: string)
    requires p < |b| && b[p].Para?
    ensures Captions(b[p := Para(x)]) == Captions(b)
    decreases |b|
  {
    var n := |b|;
    if p < n - 1 {
      assert b[p := Para(x)][..n - 1] == b[..n - 1][p := Para(x)];
      CaptionsUpdatePara(b[..n - 1], p, x);
    } else {
      assert b[p := Para(x)][..n - 1] == b[..n - 1];
    }
  }

  lemma {:induction false} NumbersAppend(a: nat, b: nat, c: nat)
    requires a <= b <= c
    ensures Numbers(a, b) + Numbers(b, c) == Numbers(a, c)
    decreases c - b
  {
    if b == c {
      assert Numbers(a, b) + [] == Numbers(a, b);
    } else {
      NumbersAppend(a, b, c - 1);
      assert Numbers(a, b) + (Numbers(b, c - 1) + [c - 1]) == (Numbers(a, b) + Numbers(b, c - 1)) + [c - 1];
    }
  }

  /** A block that is not a caption adds no number. */
  lemma CaptionsAppendOther(b: seq<Block>, x: Block)
    requires !x.Caption?
    ensures Captions(b + [x]) == Captions(b)
  {
    assert (b + [x])[..|b|] == b;
  }

  /** Going from st to r, the counter does not go back and the captions added carry the
      numbers st.counter, ..., r.counter - 1, in order. */
  ghost predicate CaptionsFollow(st: EmitState, r: EmitState) {
    st.counter <= r.counter && Captions(r.blocks) == Captions(st.blocks) + Numbers(st.counter, r.counter)
  }

  lemma CaptionsKeep(st: EmitState, r: EmitState)
    requires r.counter == st.counter && Captions(r.blocks) == Captions(st.blocks)
    ensures CaptionsFollow(st, r)
  {
    assert Numbers(st.counter, st.counter) == [];
    assert Captions(st.blocks) + [] == Captions(st.blocks);
  }

  lemma StepCaptionsImage(st: EmitState, alt: string, path: string, env: Env)
    requires Valid(st)
    ensures CaptionsFollow(st, Step(st, Image(alt, path), env))
  {
    var n := st.counter;
    CaptionsAppend(st.blocks, ImageBlocks(alt, path, n, env));
    assert Numbers(n, n) == [];
    assert Numbers(n, n + 1) == [n];
    assert Captions(st.blocks) + [] == Captions(st.blocks);
  }

  lemma StepCaptions(st: EmitState, kind: LineKind, env: Env)
    requires Valid(st)
    ensures CaptionsFollow(st, Step(st, kind, env))
  {
    var b := st.blocks;
    var r := Step(st, kind, env);
    match kind
    case Blank =>
      CaptionsKeep(st, r);
    case Info(c) =>
      if c != [] {
        CaptionsAppendOther(b, Para(c));
      }
      CaptionsKeep(st, r);
    case Heading2(t) =>
      CaptionsAppendOther(b, Heading(2, t));
      CaptionsKeep(st, r);
    case Image(alt, path) =>
      StepCaptionsImage(st, alt, path, env);
    case Plain(t) =>
      if st.open.Some? {
        var p := st.open.value;
        CaptionsUpdatePara(b, p, b[p].text + "\n" + t);
      } else {
        CaptionsAppendOther(b, Para(t));
      }
      CaptionsKeep(st, r);
  }

  /** Figures are numbered consecutively from the counter's value at the start, and the
      counter ends one past the last number used: it advances exactly once per caption,
      never for a picture without caption, a failed picture or a skipped image. */
  lemma {:induction false} RunCaptions(st: EmitState, ks: seq<LineKind>, env: Env)
    requires Valid(st)
    ensures CaptionsFollow(st, Run(st, ks, env))
    decreases |ks|
  {
    if ks == [] {
      CaptionsKeep(st, st);
    } else {
      var n := |ks|;
      var mid := Run(st, ks[..n - 1], env);
      var r := Step(mid, ks[n - 1], env);
      RunCaptions(st, ks[..n - 1], env);
      StepCaptions(mid, ks[n - 1], env);
      NumbersAppend(st.counter, mid.counter, r.counter);
      assert Captions(r.blocks)
        == Captions(st.blocks) + Numbers(st.counter, mid.counter) + Numbers(mid.counter, r.counter);
    }
  }

  /** Within one file, and across files converted by the same converter, the captions carry
      the numbers counter, counter + 1, ... in document order. */
  lemma ConvertCaptions(lines: seq<string>, counter: nat, env: Env)
    ensures counter <= Convert(lines, counter, env).counter
    ensures Captions(Convert(lines, counter, env).blocks) == Numbers(counter, Convert(lines, counter, env).counter)
  {
    var st := EmitState(Title(lines), None, counter);
    RunCaptions(st, Kinds(Body(lines)), env);
    assert Captions(Title(lines)) == [] by {
      if Title(lines) != [] {
        assert Title(lines)[..0] == [];
      }
    }
  }

  /** The number of decimal digits s starts with. */
  function LeadingDigits(s: string): (n: nat)
    ensures n <= |s|
  {
    if s == [] || !IsDigit(s[0]) then 0 else 1 + LeadingDigits(s[1..])
  }

  lemma {:induction false} LeadingDigitsOf(d: string, t: string)
    requires forall k :: 0 <= k < |d| ==> IsDigit(d[k])
    requires t == [] || !IsDigit(t[0])
    ensures LeadingDigits(d + t) == |d|
    decreases |d|
  {
    if d == [] {
      assert d + t == t;
    } else {
      assert (d + t)[0] == d[0];
      assert (d + t)[1..] == d[1..] + t;
      LeadingDigitsOf(d[1..], t);
    }
  }

  /** Different figures get different caption texts: the number and the alt text can be
      read back from the caption. */
  lemma CaptionTextInjective(m: nat, a: string, n: nat, b: string)
    requires CaptionText(m, a) == CaptionText(n, b)
    ensures m == n && a == b
  {
    var dm, dn := Decimal(m), Decimal(n);
    var x, y := CaptionText(m, a), CaptionText(n, b);
    assert x[1..] == dm + (": " + a);
    assert y[1..] == dn + (": " + b);
    LeadingDigitsOf(dm, ": " + a);
    LeadingDigitsOf(dn, ": " + b);
    assert dm == x[1..1 + |dm|] == y[1..1 + |dn|] == dn;
    DecimalInjective(m, n);
    assert a == x[3 + |dm|..] == y[3 + |dn|..] == b;
  }

  // ---------------------------------------------------------------------------
  // Single lines

  /** A line with no '<' passes the underline step unchanged. */
  lemma UnderlineNoLt(s: string)
    requires '<' !in s
    ensures Underline(s) == s
  {
    NoOpenTagWithoutLt(s);
    UnderlineNoTag(s);
  }

  /** A line without surrounding whitespace and without '<' is classified as it stands. */
  lemma ClassifyAsIs(line: string)
    requires line != [] && Clean(line) && '<' !in line
    ensures Classify(line) == KindOf(line)
  {
    StripClean(line);
    UnderlineNoLt(line);
  }

  lemma KindOfInfo(u: string)
    requires u != [] && StartsWith(u, ":::")
    ensures KindOf(u) == Info(InfoContent(u))
  {
  }

  lemma KindOfBold(u: string)
    requires u != [] && !StartsWith(u, ":::") && !StartsWith(u, "####")
    requires StartsWith(u, "**") && EndsWith(u, "**")
    ensures KindOf(u) == Heading2(Strip(BoldInner(u)))
  {
  }

  lemma KindOfImage(u: string)
    requires u != [] && !StartsWith(u, ":::") && !StartsWith(u, "####") && !StartsWith(u, "**")
    requires ExtractImage(u).Some?
    ensures KindOf(u) == Image(ExtractImage(u).value.alt, ExtractImage(u).value.path)
  {
  }

  /** "**" and "***" are both bold markers: each becomes an empty level-2 heading. */
  lemma BareBoldMarkers(raw: string)
    requires Strip(raw) == "**" || Strip(raw) == "***"
    ensures Classify(raw) == Heading2([])
  {
    var s := Strip(raw);
    UnderlineNoLt(s);
    assert s[..2] == "**" && s[|s| - 2..] == "**";
    StripClean([]);
    HeadMismatch(s, ":::");
    HeadMismatch(s, "####");
    KindOfBold(s);
  }

  /** An unclosed ":::info" line keeps the word "info" in its paragraph. */
  lemma UnclosedInfo(x: string)
    requires '<' !in x && (x == [] || !IsSpace(x[|x| - 1])) && !EndsWith(":::info" + x, ":::")
    ensures Classify(":::info" + x) == Info(Strip("info" + x))
  {
    var line := ":::info" + x;
    assert Clean(line) by {
      if x != [] {
        assert line[|line| - 1] == x[|x| - 1];
      }
    }
    assert '<' !in line;
    ClassifyAsIs(line);
    assert line[..3] == ":::";
    KindOfInfo(line);
    InfoUnclosed(x);
  }

  /** A prefix whose first character differs is not a prefix. */
  lemma HeadMismatch(s: string, p: string)
    requires s != [] && p != [] && s[0] != p[0]
    ensures !StartsWith(s, p)
  {
    if |p| <= |s| {
      assert s[..|p|][0] == s[0];
    }
  }

  /** A line starting with "####" is a level-2 heading of the rest of the line, stripped. */
  lemma HashLine(x: string)
    requires '<' !in x && (x == [] || !IsSpace(x[|x| - 1]))
    ensures Classify("####" + x) == Heading2(Strip(x))
  {
    var line := "####" + x;
    assert Clean(line) by {
      if x != [] {
        assert line[|line| - 1] == x[|x| - 1];
      }
    }
    assert '<' !in line;
    ClassifyAsIs(line);
    HeadMismatch(line, ":::");
    assert line[..4] == "####" && line[4..] == x;
    KindOfHash(line);
  }

  /** "####", whitespace, then the text: the heading is the text without the whitespace. */
  lemma HashLinePadded(w: string, core: string)
    requires AllSpace(w) && Clean(core) && core != [] && '<' !in w + core
    ensures Classify("####" + w + core) == Heading2(core)
  {
    assert w + core == w + core + [];
    StripPadded(w, core, []);
    var x := w + core;
    assert x[|x| - 1] == core[|core| - 1];
    HashLine(x);
    assert "####" + w + core == "####" + x;
  }

  lemma KindOfHash(u: string)
    requires u != [] && !StartsWith(u, ":::") && StartsWith(u, "####")
    ensures KindOf(u) == Heading2(Strip(u[4..]))
  {
  }

  /** "**" without the closing "**" is no heading: such a line, without an image, is text. */
  lemma BoldUnclosed(x: string)
    requires '<' !in x && '!' !in x && (x == [] || !IsSpace(x[|x| - 1])) && !EndsWith("**" + x, "**")
    ensures Classify("**" + x) == Plain("**" + x)
  {
    var line := "**" + x;
    assert Clean(line) by {
      if x != [] {
        assert line[|line| - 1] == x[|x| - 1];
      }
    }
    assert '<' !in line && '!' !in line;
    ClassifyAsIs(line);
    HeadMismatch(line, ":::");
    HeadMismatch(line, "####");
    assert StartsWith(line, "**") by { assert line[..2] == "**"; }
    KindOfText(line);
  }

  lemma KindOfText(u: string)
    requires u != [] && !StartsWith(u, ":::") && !StartsWith(u, "####")
    requires !(StartsWith(u, "**") && EndsWith(u, "**"))
    requires forall j: nat :: ImageAt(u, j).None?
    ensures KindOf(u) == Plain(u)
  {
  }

  /** A line between "**" markers is a level-2 heading of the text between them. */
  lemma BoldLine(x: string)
    requires '<' !in x
    ensures Classify("**" + x + "**") == Heading2(Strip(x))
  {
    var line := "**" + x + "**";
    var n := |line|;
    assert line[0] == '*' && line[n - 1] == '*';
    assert line[..2] == "**" && line[n - 2..] == "**";
    assert '<' !in line;
    ClassifyAsIs(line);
    HeadMismatch(line, ":::");
    HeadMismatch(line, "####");
    KindOfBold(line);
    BoldInnerOf(x);
  }

  /** A line consisting of an image reference, possibly followed by more text, inserts that
      image. */
  lemma ImageLine(alt: string, path: string, post: string)
    requires ']' !in alt && '\n' !in alt && ')' !in path && '\n' !in path
    requires '<' !in alt + path + post && (post == [] || !IsSpace(post[|post| - 1]))
    ensures Classify("![" + alt + "](" + path + ")" + post) == Image(alt, path)
  {
    var line := "![" + alt + "](" + path + ")" + post;
    var n := |line|;
    assert line[0] == '!';
    assert Clean(line) by {
      if post != [] {
        assert line[n - 1] == post[|post| - 1];
      } else {
        assert line[n - 1] == ')';
      }
    }
    assert '<' !in line;
    ClassifyAsIs(line);
    HeadMismatch(line, ":::");
    HeadMismatch(line, "####");
    HeadMismatch(line, "**");
    var pre: string := [];
    assert pre + "![" == "![";
    ExtractImageWellFormed(pre, alt, path, post);
    KindOfImage(line);
  }
}
