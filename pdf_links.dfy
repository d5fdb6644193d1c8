/** PDF references (markdown_to_word.py:122-164): the scan of a file's text for
    `[text](target.pdf)` links and, for each target, the choice between downloading a URL
    and copying a local file, with the name the copy is saved under. The network fetch, the
    copy itself and uuid4() are parameters: `fetchOk` says whether requests.get returns
    without raising and raise_for_status does not raise, `fileExists` is Path.exists() on (markdown directory, target), and the
    random file id is supplied by the caller. */
module PdfLinks {
  import opened Text
  import opened Markup
  import opened Finditer

  // ---------------------------------------------------------------------------
  // re.finditer(r'\[(.*?)\]\((.*?\.pdf)\)', content, re.IGNORECASE)

  /** ')' at position b closes `(.*?\.pdf)\)`: ".pdf" in any case stands right before it. */
  predicate PdfCloseAt(s: string, b: nat) {
    4 <= b < |s| && s[b] == ')' && PdfSuffixAt(s, b - 4)
  }

  /** The lazy `(.*?\.pdf)\)` whose group starts at `from`, examining characters from j on
      (s[from..j] is known to hold no newline). */
  function PdfCloseScan(s: string, from: nat, j: nat): (r: Option<nat>)
    requires from <= j && NoNewline(s, from, j)
    ensures r.Some? ==> j <= r.value && from + 4 <= r.value && PdfCloseAt(s, r.value)
                        && NoNewline(s, from, r.value)
    decreases |s| - j
  {
    if j >= |s| then None
    else if from + 4 <= j && PdfCloseAt(s, j) then Some(j)
    else if s[j] == '\n' then None
    else PdfCloseScan(s, from, j + 1)
  }

  /** The scan is lazy: it stops at the first ".pdf)" it reaches, and fails only when no
      ".pdf)" can be reached without crossing a newline. */
  lemma {:induction false} PdfCloseScanFirst(s: string, from: nat, j: nat)
    requires from <= j && NoNewline(s, from, j)
    ensures var r := PdfCloseScan(s, from, j);
      (r.Some? ==> forall b :: j <= b < r.value && from + 4 <= b ==> !PdfCloseAt(s, b))
      && (r.None? ==> forall b :: j <= b && from + 4 <= b ==> !(PdfCloseAt(s, b) && NoNewline(s, from, b)))
    decreases |s| - j
  {
    if j < |s| && !(from + 4 <= j && PdfCloseAt(s, j)) && s[j] != '\n' {
      PdfCloseScanFirst(s, from, j + 1);
    }
  }

  /** The first ')' after at least ".pdf" that the second group can reach. */
  function FirstPdfClose(s: string, from: nat): (r: Option<nat>)
    ensures r.Some? ==> from + 4 <= r.value && PdfCloseAt(s, r.value) && NoNewline(s, from, r.value)
  {
    PdfCloseScan(s, from, from)
  }

  /** The link pattern tried at position i. (As for images, a longer first group cannot help
      when the shortest one leaves no ".pdf)" for the second.) */
  function LinkAt(s: string, i: nat): (r: Option<LinkMatch>)
    ensures r.Some? ==> r.value.start == i && i < r.value.end <= |s| && EndsWithPdf(r.value.target)
  {
    if i < |s| && s[i] == '[' then
      match FirstLinkMid(s, i + 1)
      case None => None
      case Some(a) =>
        match FirstPdfClose(s, a + 2)
        case None => None
        case Some(b) =>
          var target := s[a + 2..b];
          assert EndsWithPdf(target) by {
            assert target[|target| - 4] == s[b - 4] && target[|target| - 3] == s[b - 3];
            assert target[|target| - 2] == s[b - 2] && target[|target| - 1] == s[b - 1];
          }
          Some(LinkMatch(i, s[i + 1..a], target, b + 1))
    else None
  }

  /** A slice read as its first character, a middle, two characters, a middle and a last
      character. */
  lemma SliceAsLink(s: string, i: nat, a: nat, b: nat)
    requires i < a && a + 2 <= b < |s|
    ensures s[i..b + 1] == [s[i]] + s[i + 1..a] + [s[a], s[a + 1]] + s[a + 2..b] + [s[b]]
  {
  }

  /** A match is the literal text `[text](target)` of the file, on one line. */
  lemma LinkAtShape(s: string, i: nat)
    requires LinkAt(s, i).Some?
    ensures var m := LinkAt(s, i).value;
      s[i..m.end] == "[" + m.text + "](" + m.target + ")" && '\n' !in m.text && '\n' !in m.target
  {
    var a := FirstLinkMid(s, i + 1).value;
    var b := FirstPdfClose(s, a + 2).value;
    var m := LinkAt(s, i).value;
    assert m.text == s[i + 1..a] && m.target == s[a + 2..b] && m.end == b + 1;
    SliceAsLink(s, i, a, b);
    assert [s[i]] == "[" && [s[a], s[a + 1]] == "](" && [s[b]] == ")";
    forall k | 0 <= k < |m.text| ensures m.text[k] != '\n' {
      assert m.text[k] == s[i + 1 + k];
    }
    forall k | 0 <= k < |m.target| ensures m.target[k] != '\n' {
      assert m.target[k] == s[a + 2 + k];
    }
  }

  // ---------------------------------------------------------------------------
  // The link pattern's matches

  /** The link pattern, position by position. */
  function LinkPattern(s: string): (at: nat -> Option<LinkMatch>)
    ensures Advancing(|s|, at)
    ensures forall j: nat :: at(j) == LinkAt(s, j)
  {
    (j: nat) => LinkAt(s, j)
  }

  /** re.finditer over the whole text. */
  function Matches(s: string): (r: seq<LinkMatch>)
    ensures forall m :: m in r ==> LinkAt(s, m.start) == Some(m)
    ensures forall k :: 0 <= k < |r| - 1 ==> r[k].end <= r[k + 1].start
  {
    ScanAreMatches(|s|, LinkPattern(s), 0);
    ScanGaps(|s|, LinkPattern(s), 0);
    Scan(|s|, LinkPattern(s), 0)
  }

  /** The (text, target) pairs of a sequence of matches. */
  function Pairs(ms: seq<LinkMatch>): (r: seq<(string, string)>)
    ensures |r| == |ms|
    ensures forall k :: 0 <= k < |ms| ==> r[k] == (ms[k].text, ms[k].target)
  {
    seq(|ms|, k requires 0 <= k < |ms| => (ms[k].text, ms[k].target))
  }

  lemma PairsCons(m: LinkMatch, rest: seq<LinkMatch>)
    ensures Pairs([m] + rest) == [(m.text, m.target)] + Pairs(rest)
  {
    assert forall k :: 0 < k < |rest| + 1 ==> ([m] + rest)[k] == rest[k - 1];
  }

  /** Every reference the scan returns is the literal text `[text](target)` of the file, on
      one line, with a target that ends in ".pdf" ignoring case; references come in text
      order and do not overlap. */
  lemma MatchesAreLinks(s: string)
    ensures forall m :: m in Matches(s) ==>
      m.start < m.end <= |s| && s[m.start..m.end] == "[" + m.text + "](" + m.target + ")"
      && EndsWithPdf(m.target) && '\n' !in m.text && '\n' !in m.target
    ensures forall k :: 0 <= k < |Matches(s)| - 1 ==> Matches(s)[k].end <= Matches(s)[k + 1].start
  {
    ScanAreMatches(|s|, LinkPattern(s), 0);
    ScanGaps(|s|, LinkPattern(s), 0);
    forall m | m in Matches(s)
      ensures m.start < m.end <= |s| && s[m.start..m.end] == "[" + m.text + "](" + m.target + ")"
      ensures EndsWithPdf(m.target) && '\n' !in m.text && '\n' !in m.target
    {
      assert LinkAt(s, m.start) == Some(m);
      LinkAtShape(s, m.start);
    }
  }

  /** _extract_all_pdf_links on the file's text: every match whose second group ends in
      ".pdf" is kept, so all of them are. */
  method ExtractAllPdfLinks(content: string) returns (pdfUrls: seq<(string, string)>)
    ensures pdfUrls == Pairs(Matches(content))
  {
    ghost var at := LinkPattern(content);
    pdfUrls := [];
    var i := 0;
    while i < |content|
      invariant i <= |content|
      invariant Pairs(Matches(content)) == pdfUrls + Pairs(Scan(|content|, at, i))
      decreases |content| - i
    {
      ScanStep(|content|, at, i);
      var found := LinkAt(content, i);
      match found {
        case Some(m) =>
          PairsCons(m, Scan(|content|, at, m.end));
          if EndsWithPdf(m.target) {
            pdfUrls := pdfUrls + [(m.text, m.target)];
          }
          i := m.end;
        case None =>
          i := i + 1;
      }
    }
  }

  /** The lazy search for ".pdf)" stops at the first ')' when ".pdf" precedes it. */
  lemma {:induction false} PdfCloseScanAt(s: string, from: nat, j: nat, b: nat)
    requires from <= j <= b && from + 4 <= b && PdfCloseAt(s, b) && NoNewline(s, from, j)
    requires forall k :: from <= k < b ==> s[k] != '\n' && s[k] != ')'
    ensures PdfCloseScan(s, from, j) == Some(b)
    decreases b - j
  {
    if j < b {
      PdfCloseScanAt(s, from, j + 1, b);
    }
  }

  /** The pattern matches at i when '[' stands there, the first "](" follows with neither
      ']' nor a newline between, and the first ')' after it closes ".pdf" with neither ')'
      nor a newline between. */
  lemma LinkAtPositions(s: string, i: nat, a: nat, b: nat)
    requires i < a && a + 6 <= b && PdfCloseAt(s, b) && s[i] == '[' && LinkMidAt(s, a)
    requires forall k :: i + 1 <= k < a ==> s[k] != '\n' && s[k] != ']'
    requires forall k :: a + 2 <= k < b ==> s[k] != '\n' && s[k] != ')'
    ensures LinkAt(s, i) == Some(LinkMatch(i, s[i + 1..a], s[a + 2..b], b + 1))
  {
    FirstLinkMidAt(s, i + 1, a);
    PdfCloseScanAt(s, a + 2, a + 2, b);
  }

  /** The pattern matches a well-formed link where it starts. */
  lemma LinkAtWellFormed(pre: string, text: string, target: string, post: string)
    requires ']' !in text && '\n' !in text
    requires ')' !in target && '\n' !in target && EndsWithPdf(target)
    ensures var s := pre + "[" + text + "](" + target + ")" + post;
      LinkAt(s, |pre|) == Some(LinkMatch(|pre|, text, target, |pre| + |text| + |target| + 4))
  {
    var s := pre + "[" + text + "](" + target + ")" + post;
    var i := |pre|;
    var a := i + 1 + |text|;
    var b := a + 2 + |target|;
    LinkShapeChars(pre, text, target, post);
    forall k | i + 1 <= k < a ensures s[k] != '\n' && s[k] != ']' {
      assert s[k] == s[i + 1..a][k - i - 1] == text[k - i - 1];
      assert text[k - i - 1] in text;
    }
    forall k | a + 2 <= k < b ensures s[k] != '\n' && s[k] != ')' {
      assert s[k] == s[a + 2..b][k - a - 2] == target[k - a - 2];
      assert target[k - a - 2] in target;
    }
    LinkAtPositions(s, i, a, b);
  }

  /** A well-formed link (text without ']', target without ')', neither with a newline, no
      '[' before it) whose target ends in ".pdf" in any case is the first reference found. */
  lemma FirstLinkWellFormed(pre: string, text: string, target: string, post: string)
    requires '[' !in pre
    requires ']' !in text && '\n' !in text
    requires ')' !in target && '\n' !in target && EndsWithPdf(target)
    ensures var s := pre + "[" + text + "](" + target + ")" + post;
      |Matches(s)| >= 1 && Pairs(Matches(s))[0] == (text, target)
  {
    var s := pre + "[" + text + "](" + target + ")" + post;
    var i := |pre|;
    LinkAtWellFormed(pre, text, target, post);
    LinkShapeChars(pre, text, target, post);
    var at := LinkPattern(s);
    assert NoMatchIn(at, 0, i) by {
      forall j | 0 <= j < i ensures at(j).None? {
        assert s[j] == s[..i][j] == pre[j];
        assert pre[j] in pre;
      }
    }
    ScanSkip(|s|, at, 0, i);
    var m := LinkAt(s, i).value;
    assert Matches(s) == [m] + Scan(|s|, at, m.end);
  }

  /** Where the pieces of `pre[text](target)post` sit. */
  lemma LinkShapeChars(pre: string, text: string, target: string, post: string)
    requires EndsWithPdf(target)
    ensures var s := pre + "[" + text + "](" + target + ")" + post;
      var i, a := |pre|, |pre| + 1 + |text|;
      var b := a + 2 + |target|;
      b < |s| && s[i] == '[' && LinkMidAt(s, a) && PdfCloseAt(s, b)
      && s[..i] == pre && s[i + 1..a] == text && s[a + 2..b] == target
  {
    var s := pre + "[" + text + "](" + target + ")" + post;
    var a := |pre| + 1 + |text|;
    var b := a + 2 + |target|;
    assert s == pre + ("[" + text + "](" + target + ")" + post);
    assert s[b - 4] == target[|target| - 4] && s[b - 3] == target[|target| - 3];
    assert s[b - 2] == target[|target| - 2] && s[b - 1] == target[|target| - 1];
  }

  // ---------------------------------------------------------------------------
  // _download_pdf: URL or local file, and the saved file name

  /** url.startswith(('http://', 'https://')), case-sensitive. */
  predicate IsUrl(s: string) {
    StartsWith(s, "http://") || StartsWith(s, "https://")
  }

  predicate IsHexDigit(c: char) {
    '0' <= c <= '9' || 'a' <= c <= 'f'
  }

  /** The first eight characters of uuid4().hex. */
  type HexId = s: string | |s| == 8 && forall k :: 0 <= k < |s| ==> IsHexDigit(s[k])
    witness "00000000"

  predicate IsUnsafe(c: char) {
    c == '\t' || c == '\r' || c == '\n'
  }

  predicate Safe(s: string) {
    forall k :: 0 <= k < |s| ==> !IsUnsafe(s[k])
  }

  /** urlsplit first deletes every tab, carriage return and newline from the URL. */
  function RemoveUnsafe(s: string): (r: string)
    ensures Safe(r)
    ensures |r| <= |s|
  {
    if s == [] then []
    else (if IsUnsafe(s[0]) then [] else [s[0]]) + RemoveUnsafe(s[1..])
  }

  /** Deleting the unsafe characters of a string that has none changes nothing. */
  lemma {:induction false} RemoveUnsafeNoop(s: string)
    requires Safe(s)
    ensures RemoveUnsafe(s) == s
  {
    if s != [] {
      assert !IsUnsafe(s[0]);
      assert Safe(s[1..]) by {
        forall k | 0 <= k < |s| - 1 ensures !IsUnsafe(s[1..][k]) {
          assert s[1..][k] == s[k + 1];
        }
      }
      RemoveUnsafeNoop(s[1..]);
    }
  }

  lemma {:induction false} RemoveUnsafeAppend(a: string, b: string)
    ensures RemoveUnsafe(a + b) == RemoveUnsafe(a) + RemoveUnsafe(b)
  {
    if a != [] {
      assert (a + b)[1..] == a[1..] + b;
      RemoveUnsafeAppend(a[1..], b);
    } else {
      assert a + b == b;
    }
  }

  lemma KeepsPrefix(p: string, rest: string)
    requires Safe(p)
    ensures StartsWith(RemoveUnsafe(p + rest), p)
  {
    RemoveUnsafeAppend(p, rest);
    RemoveUnsafeNoop(p);
    var r := RemoveUnsafe(p + rest);
    assert r == p + RemoveUnsafe(rest);
    assert r[..|p|] == p;
  }

  /** Deleting tabs and line breaks keeps the scheme, so the URL is still split as http(s). */
  lemma RemoveUnsafeKeepsScheme(url: string)
    requires IsUrl(url)
    ensures IsUrl(RemoveUnsafe(url))
  {
    if StartsWith(url, "http://") {
      var p: string := "http://";
      assert url == p + url[7..];
      KeepsPrefix(p, url[7..]);
    } else {
      var p: string := "https://";
      assert url == p + url[8..];
      KeepsPrefix(p, url[8..]);
    }
  }

  lemma SafeAppend(a: string, b: string)
    requires Safe(a) && Safe(b)
    ensures Safe(a + b)
  {
    assert forall k :: |a| <= k < |a + b| ==> (a + b)[k] == b[k - |a|];
  }

  /** The characters that end the netloc. */
  predicate NetlocDelim(c: char) {
    c == '/' || c == '?' || c == '#'
  }

  /** Index of the first '/', '?' or '#' at or after `from` (the end of the netloc), or |s|. */
  function NetlocEnd(s: string, from: nat): (r: nat)
    ensures r == |s| || (from <= r < |s| && NetlocDelim(s[r]))
    ensures forall k :: from <= k < r && k < |s| ==> !NetlocDelim(s[k])
    ensures from <= |s| ==> from <= r <= |s|
    decreases |s| - from
  {
    if from >= |s| then |s|
    else if NetlocDelim(s[from]) then from
    else NetlocEnd(s, from + 1)
  }

  /** urlparse's _splitparams: an http(s) path loses the ";params" of its last segment. */
  function ParamsCut(p: string): (r: string)
    ensures StartsWith(p, r)
    ensures ';' !in p ==> r == p
  {
    if ';' !in p then p
    else
      match LastIndexOf(p, '/')
      case Some(slash) =>
        (match IndexFrom(p, ';', slash)
         case None => p
         case Some(i) => p[..i])
      case None =>
        (match IndexFrom(p, ';', 0)
         case None => p
         case Some(i) => p[..i])
  }

  /** What urlparse keeps as the path of "//" + netloc + rest: the netloc runs to the first
      '/', '?' or '#'; the fragment and then the query are split off, and then the ";params". */
  function PathAfterScheme(rest: string): (r: string)
    ensures forall k :: 0 <= k < |r| ==> r[k] != '#' && r[k] != '?'
    ensures Safe(rest) ==> Safe(r)
  {
    var a := rest[NetlocEnd(rest, 2)..];
    var b := BeforeFirst(a, '#');
    var c := BeforeFirst(b, '?');
    var r := ParamsCut(c);
    assert forall k :: 0 <= k < |r| ==> r[k] == c[k] && c[k] == b[k] && b[k] == a[k];
    r
  }

  /** urllib.parse.urlparse(url).path for an http or https URL. */
  function UrlPath(url: string): (r: string)
    requires IsUrl(url)
    ensures forall k :: 0 <= k < |r| ==> r[k] != '#' && r[k] != '?' && !IsUnsafe(r[k])
  {
    RemoveUnsafeKeepsScheme(url);
    var u := RemoveUnsafe(url);
    var rest := if StartsWith(u, "http://") then u[5..] else u[6..];
    assert Safe(rest) by {
      assert forall k :: 0 <= k < |rest| ==> rest[k] == u[k + |u| - |rest|];
    }
    var r := PathAfterScheme(rest);
    assert Safe(r);
    r
  }

  /** The synthesized name downloaded_<id>.pdf. */
  function SynthName(id: HexId): (r: string)
    ensures EndsWithPdf(r)
    ensures forall k :: 0 <= k < |r| ==> r[k] != '/'
    ensures |r| == 23 && r[..11] == "downloaded_" && r[11..19] == id
  {
    var r := "downloaded_" + id + ".pdf";
    assert r[19..] == ".pdf";
    assert forall k :: 11 <= k < 19 ==> r[k] == id[k - 11];
    r
  }

  /** The name a downloaded PDF is saved under: the basename of the URL's path when that ends
      in ".pdf" (any case), otherwise downloaded_<id>.pdf. */
  function DownloadName(url: string, id: HexId): (r: string)
    requires IsUrl(url)
    ensures EndsWithPdf(r)
    ensures forall k :: 0 <= k < |r| ==> r[k] != '/'
    ensures EndsWithPdf(Basename(UrlPath(url))) ==> r == Basename(UrlPath(url))
    ensures !EndsWithPdf(Basename(UrlPath(url))) ==> r == SynthName(id)
  {
    var f := Basename(UrlPath(url));
    if EndsWithPdf(f) then f else SynthName(id)
  }

  /** What _download_pdf does with one target. */
  datatype PdfAction =
    | Downloaded(url: string, filename: string)
    | FetchFailed(url: string)
    | Copied(source: string, filename: string)
    | MissingLocal(source: string)

  /** _download_pdf: a URL is fetched and saved under DownloadName (a failed fetch raises,
      and the handler only reports it); any other target is joined to the markdown file's
      directory and, when that file exists, copied under its pathlib name. */
  function DownloadPdf(url: string, mdDir: string, fileExists: (string, string) -> bool,
                       fetchOk: string -> bool, id: HexId): (r: PdfAction)
    ensures r.Downloaded? || r.FetchFailed? <==> IsUrl(url)
    ensures r.Downloaded? <==> IsUrl(url) && fetchOk(url)
    ensures r.Copied? <==> !IsUrl(url) && fileExists(mdDir, url)
    ensures r.Downloaded? ==> r.url == url && EndsWithPdf(r.filename)
                              && forall k :: 0 <= k < |r.filename| ==> r.filename[k] != '/'
    ensures r.Copied? || r.MissingLocal? ==> r.source == JoinPath(mdDir, url)
    ensures r.Downloaded? ==> r.filename == DownloadName(url, id)
    ensures r.Copied? ==> r.filename == PathName(r.source)
  {
    if IsUrl(url) then
      if fetchOk(url) then Downloaded(url, DownloadName(url, id)) else FetchFailed(url)
    else
      var src := JoinPath(mdDir, url);
      if fileExists(mdDir, url) then Copied(src, PathName(src)) else MissingLocal(src)
  }

  /** The `for text, url in pdf_urls` loop: one action per reference, in order. */
  function DownloadAll(links: seq<(string, string)>, mdDir: string, fileExists: (string, string) -> bool,
                       fetchOk: string -> bool, ids: nat -> HexId): (r: seq<PdfAction>)
    ensures |r| == |links|
    ensures forall k :: 0 <= k < |links| ==> r[k] == DownloadPdf(links[k].1, mdDir, fileExists, fetchOk, ids(k))
    decreases |links|
  {
    if links == [] then []
    else
      var n := |links|;
      DownloadAll(links[..n - 1], mdDir, fileExists, fetchOk, ids)
        + [DownloadPdf(links[n - 1].1, mdDir, fileExists, fetchOk, ids(n - 1))]
  }

  // ---------------------------------------------------------------------------
  // Properties of the download decision

  /** The basename of dir/rel is the basename of rel. */
  lemma BasenameAfterSlash(a: string, b: string)
    ensures Basename(a + "/" + b) == Basename(b)
  {
    var x := a + "/";
    assert x[|x| - 1] == '/';
    assert LastIndexOf(x, '/') == Some(|a|);
    LastIndexOfAppend(x, b, '/');
    match LastIndexOf(b, '/')
    case None =>
      assert (x + b)[|a| + 1..] == b;
    case Some(i) =>
      assert (x + b)[|x| + i + 1..] == b[i + 1..];
  }

  /** md_dir / rel ends with rel, starts with md_dir unless rel is absolute, and has rel's
      last segment as its basename. */
  lemma JoinPathOf(dir: string, rel: string)
    ensures EndsWith(JoinPath(dir, rel), rel)
    ensures !StartsWith(rel, "/") ==> StartsWith(JoinPath(dir, rel), dir + "/")
    ensures Basename(JoinPath(dir, rel)) == Basename(rel)
  {
    if !StartsWith(rel, "/") {
      BasenameAfterSlash(dir, rel);
      var j := dir + "/" + rel;
      assert j[|j| - |rel|..] == rel;
      assert j[..|dir + "/"|] == dir + "/";
    }
  }

  /** A local target that exists is copied under its own file name, which ends in ".pdf". */
  lemma LocalCopyName(url: string, mdDir: string, fileExists: (string, string) -> bool,
                      fetchOk: string -> bool, id: HexId)
    requires !IsUrl(url) && EndsWithPdf(url) && fileExists(mdDir, url)
    ensures DownloadPdf(url, mdDir, fileExists, fetchOk, id) == Copied(JoinPath(mdDir, url), Basename(url))
    ensures EndsWithPdf(Basename(url))
  {
    var src := JoinPath(mdDir, url);
    if !StartsWith(url, "/") {
      assert src == (mdDir + "/") + url;
      EndsWithPdfAppend(mdDir + "/", url);
      BasenameAfterSlash(mdDir, url);
    }
    PathNameOfPdf(src);
    PathNameOfPdf(url);
  }

  /** The characters of a path that survive urlparse's later splits. */
  predicate PathChar(c: char) {
    c != '?' && c != '#' && c != ';' && !IsUnsafe(c)
  }

  /** The netloc of "//" + host + after, with no delimiter in host and after starting with
      one, is host. */
  lemma NetlocOf(host: string, after: string)
    requires forall k :: 0 <= k < |host| ==> !NetlocDelim(host[k])
    requires after == [] || NetlocDelim(after[0])
    ensures var rest := "//" + host + after;
      NetlocEnd(rest, 2) == 2 + |host| && rest[2 + |host|..] == after
  {
    var rest := "//" + host + after;
    assert forall k :: 0 <= k < |host| ==> rest[2 + k] == host[k];
    assert rest[2 + |host|..] == after;
    if after != [] {
      assert rest[2 + |host|] == after[0];
    }
  }

  /** The query and fragment split off a path without '?', '#' or ';' leave it whole. */
  lemma SplitsKeepPath(path: string, tail: string)
    requires forall k :: 0 <= k < |path| ==> PathChar(path[k])
    requires tail == [] || tail[0] == '?' || tail[0] == '#'
    ensures ParamsCut(BeforeFirst(BeforeFirst(path + tail, '#'), '?')) == path
  {
    assert '#' !in path && '?' !in path && ';' !in path by {
      forall k | 0 <= k < |path| ensures path[k] != '#' && path[k] != '?' && path[k] != ';' {
        assert PathChar(path[k]);
      }
    }
    BeforeFirstAppend(path, tail, '#');
    var h := BeforeFirst(tail, '#');
    assert h == [] || h[0] == '?' by {
      if tail != [] && tail[0] == '?' {
        assert h != [] ==> h[0] == tail[0];
      }
    }
    BeforeFirstAppend(path, h, '?');
    BeforeFirstAtStart(h, '?');
  }

  function Scheme(secure: bool): string {
    if secure then "https://" else "http://"
  }

  /** "http://" or "https://" followed by x: what is left once the scheme and ':' are gone. */
  lemma AfterScheme(x: string)
    ensures IsUrl("http://" + x) && StartsWith("http://" + x, "http://")
    ensures ("http://" + x)[5..] == "//" + x
    ensures IsUrl("https://" + x) && !StartsWith("https://" + x, "http://")
    ensures ("https://" + x)[6..] == "//" + x
  {
    var u, v := "http://" + x, "https://" + x;
    assert u[..7] == "http://";
    assert v[..8] == "https://";
    assert v[4] == 's';
  }

  /** A URL without tabs or line breaks is parsed after its scheme and ':'. */
  lemma UrlPathAfterScheme(secure: bool, x: string)
    requires Safe(x)
    ensures IsUrl(Scheme(secure) + x) && UrlPath(Scheme(secure) + x) == PathAfterScheme("//" + x)
  {
    var url := Scheme(secure) + x;
    AfterScheme(x);
    assert Safe(Scheme(secure));
    SafeAppend(Scheme(secure), x);
    RemoveUnsafeNoop(url);
  }

  /** urlparse's path of `scheme://host/path?query#fragment` is the path, when host holds no
      '/', '?' or '#', the path no '?', '#' or ';', and nothing holds a tab or line break. */
  lemma UrlPathOf(secure: bool, host: string, path: string, tail: string)
    requires forall k :: 0 <= k < |host| ==> !NetlocDelim(host[k]) && !IsUnsafe(host[k])
    requires forall k :: 0 <= k < |path| ==> PathChar(path[k])
    requires path == [] || path[0] == '/'
    requires tail == [] || tail[0] == '?' || tail[0] == '#'
    requires Safe(tail)
    ensures IsUrl(Scheme(secure) + (host + path + tail))
    ensures UrlPath(Scheme(secure) + (host + path + tail)) == path
  {
    var after := path + tail;
    assert host + path + tail == host + after;
    SafeParts(host, path, tail);
    UrlPathAfterScheme(secure, host + after);
    PathStartsWithDelim(path, tail);
    PathAfterNetloc(host, after);
    SplitsKeepPath(path, tail);
  }

  lemma SafeParts(host: string, path: string, tail: string)
    requires forall k :: 0 <= k < |host| ==> !IsUnsafe(host[k])
    requires forall k :: 0 <= k < |path| ==> PathChar(path[k])
    requires Safe(tail)
    ensures Safe(host + (path + tail))
  {
    assert Safe(host) && Safe(path);
    SafeAppend(path, tail);
    SafeAppend(host, path + tail);
  }

  lemma PathStartsWithDelim(path: string, tail: string)
    requires path == [] || path[0] == '/'
    requires tail == [] || tail[0] == '?' || tail[0] == '#'
    ensures path + tail == [] || NetlocDelim((path + tail)[0])
  {
    if path == [] {
      assert path + tail == tail;
    }
  }

  /** What follows the netloc of "//" + host + after is after. */
  lemma PathAfterNetloc(host: string, after: string)
    requires forall k :: 0 <= k < |host| ==> !NetlocDelim(host[k])
    requires after == [] || NetlocDelim(after[0])
    ensures PathAfterScheme("//" + (host + after)) == ParamsCut(BeforeFirst(BeforeFirst(after, '#'), '?'))
  {
    assert "//" + (host + after) == "//" + host + after;
    NetlocOf(host, after);
  }

  /** `https://host/dir/spec.pdf`-style URLs are saved under their last path segment; a URL
      whose path does not end in ".pdf" (a query or ";params" carrying the ".pdf") gets the
      synthesized name. */
  lemma DownloadNameOf(secure: bool, host: string, path: string, tail: string, id: HexId)
    requires forall k :: 0 <= k < |host| ==> !NetlocDelim(host[k]) && !IsUnsafe(host[k])
    requires forall k :: 0 <= k < |path| ==> PathChar(path[k])
    requires path == [] || path[0] == '/'
    requires tail == [] || tail[0] == '?' || tail[0] == '#'
    requires Safe(tail)
    ensures IsUrl(Scheme(secure) + (host + path + tail))
    ensures EndsWithPdf(Basename(path)) ==> DownloadName(Scheme(secure) + (host + path + tail), id) == Basename(path)
    ensures !EndsWithPdf(Basename(path)) ==> DownloadName(Scheme(secure) + (host + path + tail), id) == SynthName(id)
  {
    UrlPathOf(secure, host, path, tail);
  }
}
