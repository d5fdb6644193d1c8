/** The converter's pure line rewriters (markdown_to_word.py:166-188 and the heading slices
    at :87 and :94). Each regular expression is modelled by an explicit left-to-right scan:
    the match starts at the leftmost position where the pattern can match, every `.*?` / `.+?`
    group is lazy (it takes the shortest text that lets the rest match), and `.` does not
    match a newline. */
module Markup {
  import opened Text

  predicate NoNewline(s: string, from: nat, to: nat) {
    forall k :: from <= k < to && k < |s| ==> s[k] != '\n'
  }

  // ---------------------------------------------------------------------------
  // re.sub(r'<u>(.+?)</u>', r'\1', line)

  /** "<u>" starts at position i. */
  predicate OpenTagAt(s: string, i: nat) {
    i + 3 <= |s| && s[i] == '<' && s[i + 1] == 'u' && s[i + 2] == '>'
  }

  /** "</u>" starts at position i. */
  predicate CloseTagAt(s: string, i: nat) {
    i + 4 <= |s| && s[i] == '<' && s[i + 1] == '/' && s[i + 2] == 'u' && s[i + 3] == '>'
  }

  /** `<u>(.+?)</u>` matches at the start of s with the group ending at e: the group
      s[3..e] is nonempty, holds no newline, and "</u>" follows it. */
  predicate UnderlineEndsAt(s: string, e: nat) {
    OpenTagAt(s, 0) && 4 <= e && CloseTagAt(s, e) && NoNewline(s, 3, e)
  }

  /** Lazy search for the end of the group, trying e = from, from+1, ...
      (s[3..from-1] is known to hold no newline). */
  function UnderlineCloseFrom(s: string, from: nat): (r: Option<nat>)
    requires OpenTagAt(s, 0) && 4 <= from && NoNewline(s, 3, from - 1)
    ensures r.Some? ==> from <= r.value && UnderlineEndsAt(s, r.value)
                        && forall e :: from <= e < r.value ==> !UnderlineEndsAt(s, e)
    ensures r.None? ==> forall e :: from <= e ==> !UnderlineEndsAt(s, e)
    decreases |s| - from
  {
    if from > |s| || s[from - 1] == '\n' then None
    else if CloseTagAt(s, from) then Some(from)
    else UnderlineCloseFrom(s, from + 1)
  }

  /** Where the lazy group ends when `<u>(.+?)</u>` is tried at the start of s: the
      smallest admissible end, or None when the pattern does not match there. */
  function UnderlineClose(s: string): (r: Option<nat>)
    ensures r.Some? ==> UnderlineEndsAt(s, r.value)
                        && forall e: nat :: e < r.value ==> !UnderlineEndsAt(s, e)
    ensures r.None? ==> forall e: nat :: !UnderlineEndsAt(s, e)
  {
    if OpenTagAt(s, 0) then UnderlineCloseFrom(s, 4) else None
  }

  /** _process_underline: every `<u>X</u>` found by the left-to-right scan becomes X;
      scanning resumes after the "</u>" of each replacement. */
  function Underline(s: string): (r: string)
    ensures r == [] <==> s == []
    decreases |s|
  {
    if s == [] then []
    else match UnderlineClose(s)
      case Some(e) => s[3..e] + Underline(s[e + 4..])
      case None => [s[0]] + Underline(s[1..])
  }

  /** Number of replacements the scan performs. */
  function UnderlineCount(s: string): nat
    decreases |s|
  {
    if s == [] then 0
    else match UnderlineClose(s)
      case Some(e) => 1 + UnderlineCount(s[e + 4..])
      case None => UnderlineCount(s[1..])
  }

  /** Every replacement removes exactly the seven characters of "<u>" and "</u>". */
  lemma {:induction false} UnderlineLength(s: string)
    ensures |Underline(s)| == |s| - 7 * UnderlineCount(s)
    decreases |s|
  {
    if s != [] {
      match UnderlineClose(s)
      case Some(e) => UnderlineLength(s[e + 4..]);
      case None => UnderlineLength(s[1..]);
    }
  }

  /** A line in which "<u>" never occurs is returned unchanged. */
  lemma {:induction false} UnderlineNoTag(s: string)
    requires forall i: nat :: !OpenTagAt(s, i)
    ensures Underline(s) == s
    ensures UnderlineCount(s) == 0
    decreases |s|
  {
    if s != [] {
      assert !OpenTagAt(s, 0);
      forall i: nat ensures !OpenTagAt(s[1..], i) {
        assert !OpenTagAt(s, i + 1);
      }
      UnderlineNoTag(s[1..]);
    }
  }

  /** A line without '<' has no "<u>" in it. */
  lemma NoOpenTagWithoutLt(s: string)
    requires '<' !in s
    ensures forall i: nat :: !OpenTagAt(s, i)
  {
    forall i: nat ensures !OpenTagAt(s, i) {
      if i < |s| {
        assert s[i] in s;
      }
    }
  }

  /** Text without '<' before a tag is copied as it is, so `<u>X</u>` anywhere in a line
      is replaced where it stands (with UnderlineTagged). */
  lemma {:induction false} UnderlinePrefix(pre: string, s: string)
    requires '<' !in pre
    ensures Underline(pre + s) == pre + Underline(s)
    decreases |pre|
  {
    if pre == [] {
      assert pre + s == s;
    } else {
      var t := pre + s;
      assert t[0] == pre[0] && pre[0] in pre;
      assert !OpenTagAt(t, 0);
      assert t[1..] == pre[1..] + s;
      assert '<' !in pre[1..] by {
        forall k | 0 <= k < |pre[1..]| ensures pre[1..][k] != '<' {
          assert pre[1..][k] == pre[k + 1] && pre[k + 1] in pre;
        }
      }
      UnderlinePrefix(pre[1..], s);
      assert [pre[0]] + pre[1..] == pre;
    }
  }

  /** `<u>X</u>` at the start of a line becomes X (X nonempty, without newline and without
      "</u>"), and the scan continues with the rest of the line. */
  lemma UnderlineTagged(x: string, rest: string)
    requires x != [] && '\n' !in x
    requires forall i: nat :: !CloseTagAt(x, i)
    ensures Underline("<u>" + x + "</u>" + rest) == x + Underline(rest)
  {
    var s := "<u>" + x + "</u>" + rest;
    var e := 3 + |x|;
    assert s[3..e] == x;
    assert s[e + 4..] == rest;
    assert OpenTagAt(s, 0);
    assert CloseTagAt(s, e);
    assert NoNewline(s, 3, e) by {
      forall k | 3 <= k < e ensures s[k] != '\n' {
        assert s[k] == x[k - 3];
        assert x[k - 3] in x;
      }
    }
    assert UnderlineEndsAt(s, e);
    assert forall k :: 3 <= k < e ==> s[k] == x[k - 3];
    assert s[e] == '<' && s[e + 1] == '/' && s[e + 2] == 'u' && s[e + 3] == '>';
    forall e': nat | e' < e ensures !UnderlineEndsAt(s, e') {
      if 4 <= e' && e' + 4 <= e {
        assert !CloseTagAt(x, e' - 3);
      }
      // A later start would overlap the closing tag: "</u>" has no proper border.
    }
    assert UnderlineClose(s) == Some(e);
  }

  /** A tagged span anywhere in a line, after text without '<', becomes its text. */
  lemma UnderlineInside(pre: string, x: string, rest: string)
    requires '<' !in pre && x != [] && '\n' !in x
    requires forall i: nat :: !CloseTagAt(x, i)
    ensures Underline(pre + "<u>" + x + "</u>" + rest) == pre + x + Underline(rest)
  {
    assert pre + "<u>" + x + "</u>" + rest == pre + ("<u>" + x + "</u>" + rest);
    UnderlinePrefix(pre, "<u>" + x + "</u>" + rest);
    UnderlineTagged(x, rest);
  }

  // ---------------------------------------------------------------------------
  // _process_info_block

  /** A line that starts with ":::info" and ends with ":::" has at least ten characters, so
      the slice line[7:-3] is well defined. */
  lemma InfoMarkersLength(line: string)
    requires StartsWith(line, ":::info") && EndsWith(line, ":::")
    ensures |line| >= 10
  {
    assert line[..7] == ":::info";
    assert line[4] == 'n' && line[5] == 'f' && line[6] == 'o';
    var n := |line|;
    assert line[n - 3..] == ":::";
    assert line[n - 3] == ':' && line[n - 2] == ':' && line[n - 1] == ':';
  }

  /** _process_info_block: the text of an info line. */
  function InfoContent(line: string): (r: string)
    ensures Clean(r) || !StartsWith(line, ":::")
    ensures !StartsWith(line, ":::") ==> r == line
  {
    if StartsWith(line, ":::info") && EndsWith(line, ":::") then
      InfoMarkersLength(line);
      Strip(line[7..|line| - 3])
    else if StartsWith(line, ":::") then Strip(line[3..])
    else line
  }

  /** `:::info X:::` yields X stripped. */
  lemma InfoClosed(x: string)
    ensures InfoContent(":::info" + x + ":::") == Strip(x)
  {
    var line := ":::info" + x + ":::";
    assert line[..7] == ":::info";
    assert line[|line| - 3..] == ":::";
    assert line[7..|line| - 3] == x;
  }

  /** `:::info X` without the closing ":::" falls to the generic branch, which keeps "info". */
  lemma InfoUnclosed(x: string)
    requires !EndsWith(":::info" + x, ":::")
    ensures InfoContent(":::info" + x) == Strip("info" + x)
  {
    var line := ":::info" + x;
    assert line[..3] == ":::";
    assert line[3..] == "info" + x;
  }

  /** Any ":::" line not of the `:::info ... :::` form yields the text after ":::", stripped. */
  lemma InfoGeneric(x: string)
    requires !(StartsWith(":::" + x, ":::info") && EndsWith(":::" + x, ":::"))
    ensures InfoContent(":::" + x) == Strip(x)
  {
    var line := ":::" + x;
    assert line[..3] == ":::";
    assert line[3..] == x;
  }

  // ---------------------------------------------------------------------------
  // Heading slices

  /** line[2:-2] in Python: empty when the line is shorter than four characters. */
  function BoldInner(line: string): (r: string)
    ensures |line| >= 4 ==> line == line[..2] + r + line[|line| - 2..]
    ensures |line| < 4 ==> r == []
  {
    if |line| >= 4 then line[2..|line| - 2] else []
  }

  /** A bold heading's text is what stands between the two "**", stripped. */
  lemma BoldInnerOf(x: string)
    ensures Strip(BoldInner("**" + x + "**")) == Strip(x)
  {
    var line := "**" + x + "**";
    assert line[2..|line| - 2] == x;
  }

  // ---------------------------------------------------------------------------
  // re.search(r'!\[(.*?)\]\((.*?)\)', line)

  /** "](" starts at position a. */
  predicate LinkMidAt(s: string, a: nat) {
    a + 2 <= |s| && s[a] == ']' && s[a + 1] == '('
  }

  /** The lazy `(.*?)\]\(` from position `from`: the first "](" reached without crossing a
      newline. */
  function FirstLinkMid(s: string, from: nat): (r: Option<nat>)
    ensures r.Some? ==> from <= r.value && LinkMidAt(s, r.value) && NoNewline(s, from, r.value)
                        && forall a :: from <= a < r.value ==> !LinkMidAt(s, a)
    ensures r.None? ==> forall a :: from <= a ==> !(LinkMidAt(s, a) && NoNewline(s, from, a))
    decreases |s| - from
  {
    if from + 2 > |s| then None
    else if LinkMidAt(s, from) then Some(from)
    else if s[from] == '\n' then None
    else FirstLinkMid(s, from + 1)
  }

  /** The lazy search for "](" stops at the first ']' when "(" follows it. */
  lemma {:induction false} FirstLinkMidAt(s: string, from: nat, a: nat)
    requires from <= a && LinkMidAt(s, a)
    requires forall k :: from <= k < a ==> s[k] != '\n' && s[k] != ']'
    ensures FirstLinkMid(s, from) == Some(a)
    decreases a - from
  {
    if from < a {
      FirstLinkMidAt(s, from + 1, a);
    }
  }

  /** The lazy `(.*?)\)` from position `from`: the first ')' reached without crossing a
      newline. */
  function FirstCloseParen(s: string, from: nat): (r: Option<nat>)
    ensures r.Some? ==> from <= r.value < |s| && s[r.value] == ')' && NoNewline(s, from, r.value)
                        && forall b :: from <= b < r.value ==> s[b] != ')'
    ensures r.None? ==> forall b :: from <= b < |s| ==> !(s[b] == ')' && NoNewline(s, from, b))
    decreases |s| - from
  {
    if from >= |s| then None
    else if s[from] == ')' then Some(from)
    else if s[from] == '\n' then None
    else FirstCloseParen(s, from + 1)
  }

  datatype ImageRef = ImageRef(alt: string, path: string)

  /** The image pattern tried at position i. (For this pattern a longer first group never
      helps: when the shortest one leaves no ')' for the second group, no longer one does.) */
  function ImageAt(s: string, i: nat): (r: Option<ImageRef>)
    ensures r.Some? ==> i + 2 <= |s| && s[i] == '!' && s[i + 1] == '['
  {
    if i + 2 <= |s| && s[i] == '!' && s[i + 1] == '[' then
      match FirstLinkMid(s, i + 2)
      case None => None
      case Some(a) =>
        match FirstCloseParen(s, a + 2)
        case None => None
        case Some(b) =>
          Some(ImageRef(s[i + 2..a], s[a + 2..b]))
    else None
  }

  /** re.search: the leftmost position from `from` on where the pattern matches. */
  function ImageSearch(s: string, from: nat): (r: Option<(nat, ImageRef)>)
    ensures r.Some? ==> from <= r.value.0
    decreases |s| - from
  {
    if from >= |s| then None
    else match ImageAt(s, from)
      case Some(m) => Some((from, m))
      case None => ImageSearch(s, from + 1)
  }

  /** The search is leftmost: it returns the match at the first position where the pattern
      matches, and fails only when it matches nowhere. */
  lemma {:induction false} ImageSearchLeftmost(s: string, from: nat)
    ensures ImageSearch(s, from).Some? ==>
      ImageAt(s, ImageSearch(s, from).value.0) == Some(ImageSearch(s, from).value.1)
      && forall j :: from <= j < ImageSearch(s, from).value.0 ==> ImageAt(s, j).None?
    ensures ImageSearch(s, from).None? ==> forall j :: from <= j ==> ImageAt(s, j).None?
    decreases |s| - from
  {
    if from < |s| && ImageAt(s, from).None? {
      ImageSearchLeftmost(s, from + 1);
    }
  }

  /** _extract_image: the groups of the first `![alt](path)` in the line. */
  function ExtractImage(line: string): (r: Option<ImageRef>)
    ensures r.None? <==> forall j :: ImageAt(line, j).None?
    ensures r.Some? ==> exists j :: ImageAt(line, j) == r
    ensures r.Some? ==> exists j: nat :: ImageAt(line, j) == r && forall j': nat :: j' < j ==> ImageAt(line, j').None?
  {
    ImageSearchLeftmost(line, 0);
    match ImageSearch(line, 0)
    case None => None
    case Some((j, m)) => Some(m)
  }

  /** The lazy search for ')' stops at the first one. */
  lemma {:induction false} FirstCloseParenAt(s: string, from: nat, b: nat)
    requires from <= b < |s| && s[b] == ')'
    requires forall k :: from <= k < b ==> s[k] != '\n' && s[k] != ')'
    ensures FirstCloseParen(s, from) == Some(b)
    decreases b - from
  {
    if from < b {
      FirstCloseParenAt(s, from + 1, b);
    }
  }

  /** The image pattern matches at i when "![" stands there, the first "](" follows with
      neither ']' nor a newline between, and a ')' follows with neither ')' nor a newline
      between. */
  lemma ImageAtPositions(s: string, i: nat, a: nat, b: nat)
    requires i + 2 <= a && a + 2 <= b < |s| && s[i] == '!' && s[i + 1] == '[' && LinkMidAt(s, a) && s[b] == ')'
    requires forall k :: i + 2 <= k < a ==> s[k] != '\n' && s[k] != ']'
    requires forall k :: a + 2 <= k < b ==> s[k] != '\n' && s[k] != ')'
    ensures ImageAt(s, i) == Some(ImageRef(s[i + 2..a], s[a + 2..b]))
  {
    FirstLinkMidAt(s, i + 2, a);
    FirstCloseParenAt(s, a + 2, b);
  }

  /** The search finds the first position where the pattern matches. */
  lemma {:induction false} ImageSearchAt(s: string, from: nat, i: nat)
    requires from <= i && ImageAt(s, i).Some?
    requires forall j :: from <= j < i ==> ImageAt(s, j).None?
    ensures ImageSearch(s, from) == Some((i, ImageAt(s, i).value))
    decreases i - from
  {
    if from < i {
      ImageSearchAt(s, from + 1, i);
    }
  }

  /** Where the pieces of `pre![alt](path)post` sit. */
  lemma ImageShapeChars(pre: string, alt: string, path: string, post: string)
    ensures var s := pre + "![" + alt + "](" + path + ")" + post;
      var i, a := |pre|, |pre| + 2 + |alt|;
      var b := a + 2 + |path|;
      b < |s| && s[i] == '!' && s[i + 1] == '[' && LinkMidAt(s, a) && s[b] == ')'
      && s[..i] == pre && s[i + 2..a] == alt && s[a + 2..b] == path
  {
    var s := pre + "![" + alt + "](" + path + ")" + post;
    assert s == pre + ("![" + alt + "](" + path + ")" + post);
  }

  /** The characters of a slice with no c in it differ from c. */
  lemma SliceAvoids(s: string, from: nat, to: nat, c: char)
    requires from <= to <= |s| && c !in s[from..to]
    ensures forall k :: from <= k < to ==> s[k] != c
  {
    forall k | from <= k < to ensures s[k] != c {
      assert s[k] == s[from..to][k - from];
    }
  }

  /** The search finds an image reference at i when nothing before i is a '!' and the
      groups hold no newline, the first no ']' and the second no ')'. */
  lemma ImageSearchAtSlices(s: string, i: nat, a: nat, b: nat)
    requires i + 2 <= a && a + 2 <= b < |s| && s[i] == '!' && s[i + 1] == '[' && LinkMidAt(s, a) && s[b] == ')'
    requires '!' !in s[..i]
    requires ']' !in s[i + 2..a] && '\n' !in s[i + 2..a]
    requires ')' !in s[a + 2..b] && '\n' !in s[a + 2..b]
    ensures ImageSearch(s, 0) == Some((i, ImageRef(s[i + 2..a], s[a + 2..b])))
  {
    SliceAvoids(s, i + 2, a, '\n');
    SliceAvoids(s, i + 2, a, ']');
    SliceAvoids(s, a + 2, b, '\n');
    SliceAvoids(s, a + 2, b, ')');
    SliceAvoids(s, 0, i, '!');
    ImageAtPositions(s, i, a, b);
    ImageSearchAt(s, 0, i);
  }

  /** The search finds a well-formed image reference where it starts. */
  lemma ImageSearchWellFormed(pre: string, alt: string, path: string, post: string)
    requires '!' !in pre
    requires ']' !in alt && '\n' !in alt
    requires ')' !in path && '\n' !in path
    ensures ImageSearch(pre + "![" + alt + "](" + path + ")" + post, 0) == Some((|pre|, ImageRef(alt, path)))
  {
    var s := pre + "![" + alt + "](" + path + ")" + post;
    var i := |pre|;
    var a := i + 2 + |alt|;
    ImageShapeChars(pre, alt, path, post);
    ImageSearchAtSlices(s, i, a, a + 2 + |path|);
  }

  /** On a well-formed image reference (alt without ']', path without ')', neither with a
      newline, no '!' before it) the extractor returns exactly its alt text and path. */
  lemma ExtractImageWellFormed(pre: string, alt: string, path: string, post: string)
    requires '!' !in pre
    requires ']' !in alt && '\n' !in alt
    requires ')' !in path && '\n' !in path
    ensures ExtractImage(pre + "![" + alt + "](" + path + ")" + post) == Some(ImageRef(alt, path))
  {
    ImageSearchWellFormed(pre, alt, path, post);
  }
}
