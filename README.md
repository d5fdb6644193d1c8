# markdown_to_word — a verified model of the per-file conversion

`MarkdownToWordConverter` (markdown_to_word.py) turns a Markdown file into a Word
document:

- The first line becomes a level-1 heading.
- `:::info` blocks become plain paragraphs.
- `#### text` and `**text**` lines become level-2 headings.
- `![alt](path)` lines become a centred picture, followed by the caption `图<n>: alt`.
  The figure counter `n` runs on across files.
- Consecutive text lines are joined into one paragraph with line breaks.
- `<u>…</u>` tags are dropped.
- Before any of this, every `[text](….pdf)` reference in the file is downloaded (for a
  URL) or copied (for a local file).

The model has six modules:

- **Text**: Python's `str.strip()`, the `.lower().endswith('.pdf')` test, decimal rendering,
  `posixpath.basename`, pathlib's `.name` and `readlines()`.
- **Markup**: `_process_underline`, `_process_info_block`, the heading slices and
  `_extract_image`. Each regular expression is written out as a left-to-right scan with
  lazy groups, where `.` does not match a newline.
- **Finditer**: `re.finditer` over any pattern given as "the match at position j". The lemmas
  show the scan returns every match, leftmost first, with no overlaps and no missed
  positions.
- **PdfLinks**: `_extract_all_pdf_links` and `_download_pdf`. This covers the
  download-or-copy decision and the name the file is saved under, including `uuid4`'s
  `downloaded_<hex8>.pdf` and `urllib.parse.urlparse(url).path`.
- **Emitter**: the line loop and `_insert_image` as functions of the file's lines:
  - `Classify` gives the branch a line takes;
  - `Step` gives what that branch does to the document, `current_para` and
    `image_counter`;
  - `Run` and `Convert` are the loop and the whole file.
- **Converter**: the classes.
  - `Document` is the python-docx document, a sequence of blocks mutated in place.
  - `MarkdownToWordConverter` holds `image_counter` as a field.
  - Its methods `InsertImage`, `ProcessLine`, `ProcessLines` and `ProcessMarkdownFile`
    follow the source's code, with the module-level methods `AddTitle` and `DownloadPdfs`
    for the title and the PDF loop. Each is proved to compute exactly what the Emitter and
    PdfLinks functions describe.

The side effects are parameters or recorded results:

- The file system and python-docx are an environment `Env`:
  - `fileExists(dir, rel)` is `Path.exists()` on `dir / rel`;
  - `pictureOk(file)` says whether `run.add_picture` succeeds.
- The network: `fetchOk(url)` says whether `requests.get` returns without raising and
  `raise_for_status` does not raise.
- `uuid4().hex[:8]` for the k-th PDF reference is `ids(k)`.
- A PDF download or copy is recorded as a `PdfAction`, not performed.

## Model

| member | source | states |
|---|---|---|
| Text.Strip | markdown_to_word.py:68 | the result has no whitespace (str.isspace) at either end and is no longer than the input |
| Text.StripClean | markdown_to_word.py:68 | a line with no whitespace at its ends is left unchanged |
| Text.StripPadded | markdown_to_word.py:68 | stripping removes exactly the surrounding whitespace and keeps the non-blank core |
| Text.StripEmpty | markdown_to_word.py:68-69 | a line strips to nothing exactly when all its characters are whitespace |
| Text.StripIdempotent | markdown_to_word.py:87 | stripping an already stripped line changes nothing |
| Text.LeadingSpaces | markdown_to_word.py:68 | counts exactly the maximal whitespace prefix |
| Text.TrailingStart | markdown_to_word.py:68 | finds exactly where the maximal whitespace suffix starts |
| Text.LeadingSpacesPadded | markdown_to_word.py:68 | whitespace before a non-space character is counted exactly |
| Text.TrailingStartPadded | markdown_to_word.py:68 | whitespace after a non-space character is located exactly |
| Text.LowerAscii | markdown_to_word.py:131 | a character lower-cases to 'p', 'd' or 'f' exactly when it is that letter in either case, so `.lower().endswith('.pdf')` accepts exactly ".pdf" in any mix of cases |
| Text.EndsWithPdfAppend | markdown_to_word.py:146 | any text followed by a name ending in ".pdf" still ends in ".pdf" |
| Text.DigitChar | markdown_to_word.py:207 | a digit's character has that digit's value |
| Text.Decimal | markdown_to_word.py:207 | the rendering is non-empty, all digits, and has no leading zero |
| Text.DecimalRoundTrip | markdown_to_word.py:207 | reading the rendered figure number back gives the number |
| Text.DecimalInjective | markdown_to_word.py:207 | different figure numbers render differently |
| Text.LastIndexOf | markdown_to_word.py:145 | finds the last occurrence of a character, or reports that there is none |
| Text.LastIndexOfAppend | markdown_to_word.py:145 | the last occurrence in x + b lies in b when b has one, and is otherwise the last occurrence in x |
| Text.Basename | markdown_to_word.py:145 | the result is the suffix after the last '/' (so it contains no '/') |
| Text.PathName | markdown_to_word.py:158 | pathlib's .name contains no '/' and is never "." |
| Text.PathNameOfPdf | markdown_to_word.py:158-160 | for a path ending in ".pdf", pathlib's name equals the basename and still ends in ".pdf" |
| Text.JoinPath | markdown_to_word.py:196 | `md_dir / x`: an absolute x replaces the directory, otherwise the two are joined with '/' (properties in PdfLinks.JoinPathOf) |
| Text.IndexFrom | markdown_to_word.py:145 | finds the first occurrence at or after a position, or reports that there is none |
| Text.IndexFromSkip | markdown_to_word.py:145 | a search can skip over characters that do not match |
| Text.IndexFromShift | markdown_to_word.py:145 | a search inside a suffix finds the same position, shifted |
| Text.BeforeFirst | markdown_to_word.py:145 | the result is the longest prefix free of the separator |
| Text.BeforeFirstAppend | markdown_to_word.py:145 | a separator-free prefix is always kept |
| Text.BeforeFirstAtStart | markdown_to_word.py:145 | text that starts with the separator keeps nothing before it |
| Text.SplitLines | markdown_to_word.py:55-56 | every line holds at most one '\n', at its end, and every line but the last ends with one |
| Text.SplitLinesConcat | markdown_to_word.py:55-56 | concatenating the lines gives back the file's text |
| Markup.UnderlineCloseFrom | markdown_to_word.py:172 | the lazy group ends at the first "</u>" with a nonempty, newline-free group, or none exists |
| Markup.UnderlineClose | markdown_to_word.py:172 | the same, for a tag at the start of the text, with the "no match" case stated |
| Markup.Underline | markdown_to_word.py:166-172 | removing the tags empties only the empty line |
| Markup.UnderlineLength | markdown_to_word.py:172 | every replacement removes exactly the seven characters of "<u>" and "</u>" |
| Markup.UnderlineNoTag | markdown_to_word.py:172 | a line without "<u>" is unchanged, with no replacements |
| Markup.NoOpenTagWithoutLt | markdown_to_word.py:172 | without '<' there is no "<u>" |
| Markup.UnderlineTagged | markdown_to_word.py:172 | "<u>x</u>" becomes x, and the rest of the line is processed independently |
| Markup.UnderlinePrefix | markdown_to_word.py:172 | text without '<' before a tag is copied unchanged, and the rest of the line is processed as if on its own |
| Markup.UnderlineInside | markdown_to_word.py:172 | `<u>x</u>` anywhere in a line, after text without '<', becomes x where it stands |
| Markup.InfoMarkersLength | markdown_to_word.py:176-177 | a line that starts with ":::info" and ends with ":::" has at least 10 characters, so the source's slice [7:-3] is the text between the markers |
| Markup.InfoContent | markdown_to_word.py:174-180 | a result from a ":::" line has no whitespace at its ends; any other line is returned as it is |
| Markup.InfoClosed | markdown_to_word.py:176-177 | ":::info x :::" yields x stripped |
| Markup.InfoUnclosed | markdown_to_word.py:176-179 | an unclosed ":::info x" yields "info x" stripped, with the word "info" kept |
| Markup.InfoGeneric | markdown_to_word.py:178-179 | any other ":::" line yields everything after the three colons, stripped |
| Markup.BoldInner | markdown_to_word.py:94 | line[2:-2] is what lies between the two-character ends, and empty for lines under four characters |
| Markup.BoldInnerOf | markdown_to_word.py:93-94 | "**x**" yields x stripped |
| Markup.FirstLinkMid | markdown_to_word.py:184 | the lazy alt group ends at the first "](" on the same line, or none exists |
| Markup.FirstLinkMidAt | markdown_to_word.py:184 | the first "](" with no ']' or newline before it is the one chosen |
| Markup.FirstCloseParen | markdown_to_word.py:184 | the lazy path group ends at the first ')' on the same line, or none exists |
| Markup.FirstCloseParenAt | markdown_to_word.py:184 | the first ')' with no newline before it is the one chosen |
| Markup.ImageAt | markdown_to_word.py:184 | a match at i starts with "![" |
| Markup.ImageAtPositions | markdown_to_word.py:184 | a match at i has exactly the groups between "![", "](" and ")" |
| Markup.ImageSearch | markdown_to_word.py:185 | re.search's match lies at or after the start position |
| Markup.ImageSearchLeftmost | markdown_to_word.py:185 | the match found is at the leftmost position where the pattern matches, and "none" means no position matches |
| Markup.ImageSearchAt | markdown_to_word.py:185 | the first matching position is the one found |
| Markup.ImageSearchAtSlices | markdown_to_word.py:184-185 | a line shaped like "![alt](path)" with no earlier '!' is found with those groups |
| Markup.ImageSearchWellFormed | markdown_to_word.py:184-185 | pre + "![alt](path)" + post is matched at the end of pre with groups alt and path |
| Markup.ExtractImage | markdown_to_word.py:182-188 | there is no result exactly when no position matches, and a result is the leftmost match, as `re.search` returns |
| Markup.ExtractImageWellFormed | markdown_to_word.py:182-188 | pre + "![alt](path)" + post yields (alt, path) |
| Finditer.Scan | markdown_to_word.py:129 | every match found lies within the text, at or after the starting position |
| Finditer.ScanAreMatches | markdown_to_word.py:129-130 | every match found is the pattern's match at its starting position |
| Finditer.ScanFirst | markdown_to_word.py:129 | no match starts before the first one found |
| Finditer.ScanLast | markdown_to_word.py:129 | no match starts after the end of the last one found |
| Finditer.ScanGaps | markdown_to_word.py:129 | the matches found do not overlap, and no match starts in the gap between consecutive ones |
| Finditer.ScanSkip | markdown_to_word.py:129 | positions with no match can be skipped without changing the result |
| PdfLinks.PdfCloseScan | markdown_to_word.py:128 | the lazy group ends at a ')' preceded by ".pdf" in any case, with no newline before it |
| PdfLinks.PdfCloseScanFirst | markdown_to_word.py:128 | no earlier ')' on the line closes the group, and "none" means no ")" after ".pdf" on this line |
| PdfLinks.PdfCloseScanAt | markdown_to_word.py:128 | the first ".pdf)" on the line with no ')' before it is the one chosen |
| PdfLinks.FirstPdfClose | markdown_to_word.py:128 | the chosen ')' comes after ".pdf", at least four places after the group's start, on the same line |
| PdfLinks.LinkAt | markdown_to_word.py:128 | a match at i starts at i, ends within the text, and has a target ending in ".pdf" |
| PdfLinks.LinkAtShape | markdown_to_word.py:128 | the match text is "[" + text + "](" + target + ")", with no newline in either group |
| PdfLinks.LinkAtPositions | markdown_to_word.py:128 | a match at i has exactly the groups between "[", "](" and the closing ".pdf)" |
| PdfLinks.LinkAtWellFormed | markdown_to_word.py:128 | "[text](target.pdf)" inside a text is matched where it stands, with those groups |
| PdfLinks.FirstLinkWellFormed | markdown_to_word.py:128-129 | with no '[' before it, that reference is the first one found |
| PdfLinks.LinkPattern | markdown_to_word.py:128-129 | the pattern's match at each position advances through the text |
| PdfLinks.Matches | markdown_to_word.py:129 | every reference re.finditer returns is the pattern's match at its start, and they come in text order without overlap |
| PdfLinks.Pairs | markdown_to_word.py:130-132 | one (text, url) pair per match, in order |
| PdfLinks.PairsCons | markdown_to_word.py:130-132 | the pairs of m followed by the rest are m's pair followed by the rest's pairs |
| PdfLinks.MatchesAreLinks | markdown_to_word.py:128-132 | every reference found is a link match whose target ends in ".pdf", and the references are in order without overlap |
| PdfLinks.ExtractAllPdfLinks | markdown_to_word.py:122-134 | the list the loop builds is exactly the pairs of re.finditer's matches |
| PdfLinks.RemoveUnsafe | markdown_to_word.py:145 | urlparse's removal of tab, CR and LF leaves none of them, and never lengthens the URL |
| PdfLinks.RemoveUnsafeNoop | markdown_to_word.py:145 | a URL without those characters is unchanged |
| PdfLinks.RemoveUnsafeAppend | markdown_to_word.py:145 | the removal works on each part independently |
| PdfLinks.KeepsPrefix | markdown_to_word.py:145 | a prefix free of those characters survives |
| PdfLinks.RemoveUnsafeKeepsScheme | markdown_to_word.py:139-145 | an http(s) URL is still one afterwards |
| PdfLinks.SafeAppend | markdown_to_word.py:145 | joining two texts free of tab, CR and LF gives a text free of them |
| PdfLinks.NetlocEnd | markdown_to_word.py:145 | the netloc runs to the first '/', '?' or '#' (or to the end) |
| PdfLinks.ParamsCut | markdown_to_word.py:145 | the ";params" split keeps a prefix, and everything when there is no ';' |
| PdfLinks.PathAfterScheme | markdown_to_word.py:145 | the path urlparse keeps after the netloc contains no '#' or '?', and no tab, CR or LF when the URL had none |
| PdfLinks.UrlPath | markdown_to_word.py:145 | `urlparse(url).path` contains no '#', '?', tab, CR or LF |
| PdfLinks.IsUrl | markdown_to_word.py:139 | the case-sensitive test `startswith(('http://', 'https://'))`, also used at line 192 |
| PdfLinks.SynthName | markdown_to_word.py:147 | downloaded_<id>.pdf is 23 characters with the id at 11..19, ends in ".pdf", and has no '/' |
| PdfLinks.DownloadName | markdown_to_word.py:144-147 | the saved name is the URL path's basename when that ends in ".pdf" (any case) and downloaded_<id>.pdf otherwise; either way it ends in ".pdf" and has no '/' |
| PdfLinks.DownloadPdf | markdown_to_word.py:136-164 | a URL is fetched, and saved under DownloadName exactly when the fetch succeeds; any other target is md_dir / target, copied under its pathlib name exactly when it exists |
| PdfLinks.DownloadAll | markdown_to_word.py:50-51 | one action per reference, the k-th being _download_pdf on the k-th url |
| PdfLinks.BasenameAfterSlash | markdown_to_word.py:145 | the basename ignores everything up to a '/' |
| PdfLinks.JoinPathOf | markdown_to_word.py:156-158 | md_dir / rel ends with rel, starts with md_dir + "/" unless rel is absolute, and has rel's basename |
| PdfLinks.LocalCopyName | markdown_to_word.py:155-160 | an existing local "x/y.pdf" is copied under its basename, which ends in ".pdf" |
| PdfLinks.NetlocOf | markdown_to_word.py:145 | "//host" followed by a delimiter ends the netloc right after host |
| PdfLinks.SplitsKeepPath | markdown_to_word.py:145 | the fragment, query and params splits keep a plain path and drop what follows it |
| PdfLinks.AfterScheme | markdown_to_word.py:139 | "http://" and "https://" URLs are recognised, the http test not accepting https |
| PdfLinks.UrlPathAfterScheme | markdown_to_word.py:145 | the path of scheme + x is taken from "//" + x |
| PdfLinks.SafeParts | markdown_to_word.py:145 | a host, path and tail free of tab, CR and LF join into a text free of them |
| PdfLinks.PathStartsWithDelim | markdown_to_word.py:145 | a path and tail that start with '/', '?' or '#' start with a netloc delimiter |
| PdfLinks.PathAfterNetloc | markdown_to_word.py:145 | the path is what comes after the host, with the fragment, query and params removed |
| PdfLinks.UrlPathOf | markdown_to_word.py:145 | urlparse("http(s)://host/path?q#f").path is /path |
| PdfLinks.DownloadNameOf | markdown_to_word.py:144-147 | a download of "http(s)://host/dir/name.pdf?q" is saved as name.pdf, and any other path uses the random name |
| Emitter.KindOf | markdown_to_word.py:77-104 | a non-empty line is never blank, and text that matches no branch stays as it is |
| Emitter.Classify | markdown_to_word.py:68-104 | a line is blank exactly when it strips to nothing, and a text line is never empty |
| Emitter.ClassifyAsIs | markdown_to_word.py:68-74 | a stripped line without '<' reaches the branches unchanged |
| Emitter.ClassifyBlank | markdown_to_word.py:68-71 | a line is blank exactly when every character of it (its newline included) is whitespace |
| Emitter.UnderlineNoLt | markdown_to_word.py:74 | a line without '<' is unchanged by the underline step |
| Emitter.BareBoldMarkers | markdown_to_word.py:93-95 | a line of just "**" or "***" is an empty level-2 heading, because both tests share the same asterisks |
| Emitter.UnclosedInfo | markdown_to_word.py:77-79 | an unclosed ":::info x" adds the paragraph strip("info" + x), for x with leading whitespace too |
| Emitter.HashLine | markdown_to_word.py:86-88 | "####x" is the level-2 heading strip(x), leading whitespace included |
| Emitter.HashLinePadded | markdown_to_word.py:86-88 | "####", then whitespace, then a clean text such as " Section Title", is the level-2 heading of the text alone |
| Emitter.BoldUnclosed | markdown_to_word.py:93-109 | "**x" without closing stars, such as "** item", is ordinary text |
| Emitter.BoldLine | markdown_to_word.py:93-95 | "**x**" is the heading x, stripped |
| Emitter.ImageLine | markdown_to_word.py:100-103 | a line "![alt](path)…" is the image (alt, path), whatever text follows it |
| Emitter.CaptionText | markdown_to_word.py:207 | the caption text f"图{n}: {alt}" (Emitter.CaptionTextInjective shows it determines n and alt) |
| Emitter.Captioned | markdown_to_word.py:206 | the caption branch is reached and taken: a local, existing, accepted picture with non-blank alt text |
| Emitter.Captions | markdown_to_word.py:207 | a document has at most one caption number per block |
| Emitter.ImageBlocks | markdown_to_word.py:190-217 | nothing is added exactly for a web image or a missing file; one caption numbered n is added exactly when the picture goes in and the alt text is not blank; no text paragraph or heading is ever added |
| Emitter.ImagePicture | markdown_to_word.py:196-210 | for an existing local image: only an empty centred paragraph when the picture is refused; otherwise the picture read from md_dir / path, followed by the caption numbered n with the alt text exactly when the alt text is not blank |
| Emitter.Step | markdown_to_word.py:67-111 | current_para always points at a text paragraph of the document, and the document never shrinks |
| Emitter.StepFrame | markdown_to_word.py:67-111 | one line adds at most two blocks, changes no earlier block except the open paragraph, and a text line extends that paragraph by "\n" + line |
| Emitter.ClosingLine | markdown_to_word.py:69-97 | blank, info and heading lines close the paragraph, add nothing for a blank or empty info line and one block otherwise, and the next text line opens a new paragraph |
| Emitter.Kinds | markdown_to_word.py:67-74 | one class per line |
| Emitter.KindsAt | markdown_to_word.py:67-74 | the k-th class is the k-th line's |
| Emitter.Run | markdown_to_word.py:67-111 | the loop keeps current_para valid and never removes a block |
| Emitter.RunAppend | markdown_to_word.py:67 | the loop over x + y is the loop over y continuing from the loop over x |
| Emitter.JoinNewlineAppend | markdown_to_word.py:111 | runs added in two batches give the same paragraph as one batch |
| Emitter.PlainLinesContinue | markdown_to_word.py:107-111 | text lines while a paragraph is open extend it, joined with "\n", and change nothing else |
| Emitter.PlainLinesJoin | markdown_to_word.py:107-111 | text lines after a paragraph break become one new paragraph, still open |
| Emitter.BlankLineSeparates | markdown_to_word.py:67-111 | two groups of text lines separated by a blank line become two paragraphs |
| Emitter.ImageInsideParagraph | markdown_to_word.py:100-111 | an image does not break the paragraph: the text around it forms one paragraph, placed before the picture |
| Emitter.Convert | markdown_to_word.py:56-111 | the finished document's current_para is valid |
| Emitter.Title | markdown_to_word.py:59-62 | a title exists exactly when the file has a first line that is not all whitespace, and it is the level-1 heading of that line stripped |
| Emitter.Body | markdown_to_word.py:63 | the lines after the first one (none for an empty file) |
| Emitter.EmptyFile | markdown_to_word.py:59 | an empty file gives an empty document, no open paragraph and an unchanged counter |
| Emitter.Shifted | markdown_to_word.py:59-65 | prefixing the document keeps current_para valid |
| Emitter.StepShift | markdown_to_word.py:59-111 | one line does the same thing whatever blocks come before |
| Emitter.RunShift | markdown_to_word.py:59-111 | the loop does the same thing whatever blocks come before |
| Emitter.TitleThenBody | markdown_to_word.py:59-65 | the document is the title followed by what the loop makes of lines[1:] alone, so the first line is never treated as an image, heading or info block |
| Emitter.StepGrows | markdown_to_word.py:67-111 | one line keeps every earlier block except by growing a paragraph, and adds only level-2 headings |
| Emitter.RunGrows | markdown_to_word.py:67-111 | the same holds for the whole loop |
| Emitter.OnlyTitleIsTopLevel | markdown_to_word.py:59-95 | the stripped first line is block 0 when not blank, and every later heading is a level-2 heading |
| Emitter.Numbers | markdown_to_word.py:210 | counter values n to hi: hi - n of them |
| Emitter.NumbersAt | markdown_to_word.py:210 | the k-th of them is n + k |
| Emitter.NumbersAppend | markdown_to_word.py:210 | consecutive ranges join |
| Emitter.CaptionsAppend | markdown_to_word.py:207 | the captions of a document are the captions of its parts, in order |
| Emitter.CaptionsUpdatePara | markdown_to_word.py:111 | adding a run to a paragraph leaves the captions alone |
| Emitter.CaptionsAppendOther | markdown_to_word.py:77-109 | adding a block other than a caption leaves the captions alone |
| Emitter.CaptionsKeep | markdown_to_word.py:67-111 | a step that adds no caption and keeps the counter keeps the invariant |
| Emitter.StepCaptionsImage | markdown_to_word.py:205-210 | an image line adds exactly the caption numbers it takes from the counter |
| Emitter.StepCaptions | markdown_to_word.py:67-111 | each line adds exactly the caption numbers it consumes from the counter |
| Emitter.RunCaptions | markdown_to_word.py:67-111 | the loop adds exactly the caption numbers it consumes from the counter |
| Emitter.ConvertCaptions | markdown_to_word.py:205-210 | a file's captions are numbered consecutively from the counter's value on entry, with no gaps or repeats, and the counter ends one past the last |
| Emitter.LeadingDigits | markdown_to_word.py:207 | the digit prefix fits in the text |
| Emitter.LeadingDigitsOf | markdown_to_word.py:207 | digits followed by a non-digit are counted exactly |
| Emitter.CaptionTextInjective | markdown_to_word.py:207 | two captions read the same only when they have the same number and alt text |
| Converter.Document.constructor | markdown_to_word.py:54 | a new document is empty |
| Converter.Document.AddHeading | markdown_to_word.py:62 | appends the heading (the same call is made at lines 88 and 95) |
| Converter.Document.AddParagraph | markdown_to_word.py:109 | appends the paragraph and returns its position (the same call is made at line 80) |
| Converter.Document.AddRun | markdown_to_word.py:111 | extends that paragraph's text and nothing else |
| Converter.Document.AddCentered | markdown_to_word.py:200-202 | appends an empty centred paragraph and returns its position |
| Converter.Document.AddPicture | markdown_to_word.py:204 | puts the picture into that paragraph and changes nothing else |
| Converter.Document.AddCaption | markdown_to_word.py:207-209 | appends the caption |
| Converter.MarkdownToWordConverter.constructor | markdown_to_word.py:13-16 | the figure counter starts at 1 |
| Converter.MarkdownToWordConverter.InsertImage | markdown_to_word.py:190-217 | the document gains exactly ImageBlocks, and the counter advances by one exactly when a caption is written |
| Converter.MarkdownToWordConverter.ProcessLine | markdown_to_word.py:68-111 | the document, current_para and the counter after one pass are exactly what Step gives |
| Converter.MarkdownToWordConverter.ProcessLines | markdown_to_word.py:65-111 | the document and counter after the loop are exactly what Run gives, starting with no open paragraph |
| Converter.MarkdownToWordConverter.ProcessMarkdownFile | markdown_to_word.py:38-114 | the PDF actions are DownloadAll over exactly the references found, the new document is Convert of the file's lines, and the counter is Convert's |
| Converter.AddTitle | markdown_to_word.py:59-63 | the document gains exactly Title(lines), and the lines left for the loop are Body(lines) |
| Converter.DownloadPdfs | markdown_to_word.py:48-51 | one action per reference, in order, as DownloadAll gives |

## Left out

- convert_all_markdown_files (markdown_to_word.py:18-36) is not modelled: the `os.walk` traversal, the `.md` filter, the folder checks, `mkdir` and the success count are file-system iteration.
- The relative output directory (markdown_to_word.py:42-44) and `doc.save` (:114) are not modelled. They only decide where files land.
- Reading the file is not modelled: its text is the parameter `content`. `readlines()` splits after every '\n', and universal-newline translation is taken to have happened already.
- `requests.get`, `raise_for_status` and writing the response are not performed. Whether the fetch succeeds is the oracle `fetchOk`, and the outcome is recorded as a `PdfAction`.
- PdfLinks.DownloadPdf: `shutil.copy2` is not performed, and a copy that raises (markdown_to_word.py:159, caught and only printed at :163-164) is not modelled. A local target that exists is always recorded as `Copied`.
- A write of the downloaded bytes that raises (markdown_to_word.py:150-151) is not modelled either: a successful fetch is recorded as `Downloaded`.
- `uuid.uuid4()` is not modelled: its first eight hex digits for the k-th reference are `ids(k)`. Its value is used only when the synthesised name is chosen; since `ids` is unconstrained, giving every reference a value loses nothing.
- python-docx formatting is not modelled: the centring, italics, the five-inch width and the 'Normal' style are recorded only through the block kinds.
- The outer `try/except` (markdown_to_word.py:40, 118-120) is not modelled. An exception raised by `open`, `Document()` or `save` abandons the file. Only the two handled failures are modelled: a failed picture (`pictureOk`) and a failed fetch (`fetchOk`).
- `print` output is left out.
- Paths are POSIX: `md_dir / x` is `JoinPath`, where an absolute `x` replaces the directory as in pathlib. `Path.exists()` is the oracle `fileExists(dir, rel)`. Symlinks and `..` components are not resolved, and the doubled or trailing slashes that pathlib would normalise are kept.
- `re.IGNORECASE` and `.lower()` are modelled on ASCII letters only. The model takes it that no other character lower-cases or case-folds to 'p', 'd' or 'f'.
- Text.Strip and the other whitespace functions use Python's `str.isspace()` set. Characters added in later Unicode versions are not covered.
- The test `if line:` at markdown_to_word.py:107 always holds at that point, so the model has no branch for it. The `.pdf` test at :131 also always holds. PdfLinks.ExtractAllPdfLinks keeps it as a branch, and its contract shows that every match is kept.
- Emitter.Classify: the loop body's tests are this one function, and its actions are Converter.MarkdownToWordConverter.ProcessLine. The source interleaves the two. The split adds no step that the source lacks.
- The proof also splits _process_markdown_file into AddTitle, ProcessLines and DownloadPdfs. This is a proof structure only: the statements run in the same order.
