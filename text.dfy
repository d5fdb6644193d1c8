/** String primitives the converter relies on: Python's str.strip(), startswith/endswith,
    the case-insensitive ".pdf" suffix test, decimal rendering of the figure counter,
    posixpath.basename, pathlib's .name and file.readlines(). */
module Text {

  datatype Option<T> = None | Some(value: T)

  /** Python's str.isspace() for one character (the characters str.strip() removes). */
  predicate IsSpace(c: char) {
    ('\t' <= c <= '\r') || ('\U{1C}' <= c <= '\U{1F}') || c == ' '
    || c == '\U{85}' || c == '\U{A0}' || c == '\U{1680}'
    || ('\U{2000}' <= c <= '\U{200A}') || c == '\U{2028}' || c == '\U{2029}'
    || c == '\U{202F}' || c == '\U{205F}' || c == '\U{3000}'
  }

  predicate StartsWith(s: string, p: string) {
    |p| <= |s| && s[..|p|] == p
  }

  predicate EndsWith(s: string, p: string) {
    |p| <= |s| && s[|s| - |p|..] == p
  }

  /** No whitespace at either end: what str.strip() returns. */
  predicate Clean(s: string) {
    s == [] || (!IsSpace(s[0]) && !IsSpace(s[|s| - 1]))
  }

  predicate AllSpace(s: string) {
    forall k :: 0 <= k < |s| ==> IsSpace(s[k])
  }

  /** Number of leading whitespace characters. */
  function LeadingSpaces(s: string): (n: nat)
    ensures n <= |s|
    ensures AllSpace(s[..n])
    ensures n < |s| ==> !IsSpace(s[n])
  {
    if |s| == 0 || !IsSpace(s[0]) then 0 else 1 + LeadingSpaces(s[1..])
  }

  /** Index at which the trailing whitespace starts. */
  function TrailingStart(s: string): (n: nat)
    ensures n <= |s|
    ensures AllSpace(s[n..])
    ensures n > 0 ==> !IsSpace(s[n - 1])
  {
    if |s| == 0 || !IsSpace(s[|s| - 1]) then |s| else TrailingStart(s[..|s| - 1])
  }

  /** Python's str.strip() with no argument. */
  function Strip(s: string): (r: string)
    ensures Clean(r)
    ensures |r| <= |s|
  {
    var t := s[LeadingSpaces(s)..];
    t[..TrailingStart(t)]
  }

  /** A string without whitespace at its ends is left alone by strip(). */
  lemma StripClean(s: string)
    requires Clean(s)
    ensures Strip(s) == s
  {
    if s != [] {
      assert LeadingSpaces(s) == 0;
      assert TrailingStart(s) == |s|;
    }
  }

  lemma LeadingSpacesPadded(w: string, s: string)
    requires AllSpace(w) && (s == [] || !IsSpace(s[0]))
    ensures LeadingSpaces(w + s) == |w|
    decreases |w|
  {
    if w != [] {
      assert (w + s)[1..] == w[1..] + s;
      LeadingSpacesPadded(w[1..], s);
    } else {
      assert w + s == s;
    }
  }

  lemma TrailingStartPadded(s: string, w: string)
    requires AllSpace(w) && (s == [] || !IsSpace(s[|s| - 1]))
    ensures TrailingStart(s + w) == |s|
    decreases |w|
  {
    if w != [] {
      assert (s + w)[..|s + w| - 1] == s + w[..|w| - 1];
      TrailingStartPadded(s, w[..|w| - 1]);
    } else {
      assert s + w == s;
    }
  }

  /** strip() removes exactly the surrounding whitespace: padding a stripped string with
      whitespace on both sides and stripping again gives it back. */
  lemma {:induction false} StripPadded(w1: string, core: string, w2: string)
    requires AllSpace(w1) && AllSpace(w2) && Clean(core) && core != []
    ensures Strip(w1 + core + w2) == core
  {
    var s := w1 + core + w2;
    assert s == w1 + (core + w2);
    LeadingSpacesPadded(w1, core + w2);
    var t := s[|w1|..];
    assert t == core + w2;
    TrailingStartPadded(core, w2);
    assert t[..|core|] == core;
  }

  /** A line strips to nothing exactly when it is all whitespace (the blank test). */
  lemma StripEmpty(s: string)
    ensures Strip(s) == [] <==> AllSpace(s)
  {
    var n := LeadingSpaces(s);
    var t := s[n..];
    if AllSpace(s) {
      assert s + [] == s;
      LeadingSpacesPadded(s, []);
    }
    if Strip(s) == [] {
      assert TrailingStart(t) == 0;
      assert t[0..] == t;
      assert n == |s|;
      assert s[..n] == s;
    }
  }

  /** strip() is idempotent. */
  lemma StripIdempotent(s: string)
    ensures Strip(Strip(s)) == Strip(s)
  {
    StripClean(Strip(s));
  }

  // ---------------------------------------------------------------------------
  // Case-insensitive ".pdf" suffix

  /** ASCII lower-casing; no character outside 'A'..'Z' lower-cases to 'p', 'd' or 'f'. */
  function LowerAscii(c: char): (l: char)
    ensures 'A' <= c <= 'Z' ==> l as int == c as int + 32
    ensures !('A' <= c <= 'Z') ==> l == c
    ensures l == 'p' <==> c == 'p' || c == 'P'
    ensures l == 'd' <==> c == 'd' || c == 'D'
    ensures l == 'f' <==> c == 'f' || c == 'F'
  {
    if 'A' <= c <= 'Z' then (c as int + 32) as char else c
  }

  /** s[i..i+4] is ".pdf" ignoring case. */
  predicate PdfSuffixAt(s: string, i: nat) {
    i + 4 <= |s| && s[i] == '.' && LowerAscii(s[i + 1]) == 'p'
    && LowerAscii(s[i + 2]) == 'd' && LowerAscii(s[i + 3]) == 'f'
  }

  /** s.lower().endswith('.pdf'). */
  predicate EndsWithPdf(s: string) {
    |s| >= 4 && PdfSuffixAt(s, |s| - 4)
  }

  lemma EndsWithPdfAppend(a: string, b: string)
    requires EndsWithPdf(b)
    ensures EndsWithPdf(a + b)
  {
    var s := a + b;
    assert s[|s| - 4..] == b[|b| - 4..];
    assert s[|s| - 4] == b[|b| - 4] && s[|s| - 3] == b[|b| - 3];
    assert s[|s| - 2] == b[|b| - 2] && s[|s| - 1] == b[|b| - 1];
  }

  // ---------------------------------------------------------------------------
  // Decimal rendering of a counter (f"{n}")

  function DigitChar(d: nat): (c: char)
    requires d < 10
    ensures '0' <= c <= '9' && c as int - '0' as int == d
  {
    ('0' as int + d) as char
  }

  predicate IsDigit(c: char) {
    '0' <= c <= '9'
  }

  /** Python's str(n) for a natural number. */
  function Decimal(n: nat): (r: string)
    ensures |r| >= 1
    ensures forall k :: 0 <= k < |r| ==> IsDigit(r[k])
    ensures |r| > 1 ==> r[0] != '0'
    decreases n
  {
    if n < 10 then [DigitChar(n)] else Decimal(n / 10) + [DigitChar(n % 10)]
  }

  /** The value a string of decimal digits denotes (int(s)). */
  function DecimalValue(s: string): nat
    requires forall k :: 0 <= k < |s| ==> IsDigit(s[k])
  {
    if s == [] then 0
    else
      assert IsDigit(s[|s| - 1]);
      10 * DecimalValue(s[..|s| - 1]) + (s[|s| - 1] as int - '0' as int)
  }

  /** int(str(n)) == n: the rendered figure number denotes the counter. */
  lemma {:induction false} DecimalRoundTrip(n: nat)
    ensures DecimalValue(Decimal(n)) == n
    decreases n
  {
    var r := Decimal(n);
    if n >= 10 {
      assert r[..|r| - 1] == Decimal(n / 10);
      DecimalRoundTrip(n / 10);
    }
  }

  /** Distinct counters render differently. */
  lemma DecimalInjective(m: nat, n: nat)
    requires Decimal(m) == Decimal(n)
    ensures m == n
  {
    DecimalRoundTrip(m);
    DecimalRoundTrip(n);
  }

  // ---------------------------------------------------------------------------
  // Paths

  /** Index of the last occurrence of c. */
  function LastIndexOf(s: string, c: char): (r: Option<nat>)
    ensures r.Some? ==> r.value < |s| && s[r.value] == c
                        && forall k :: r.value < k < |s| ==> s[k] != c
    ensures r.None? ==> forall k :: 0 <= k < |s| ==> s[k] != c
  {
    if s == [] then None
    else if s[|s| - 1] == c then Some(|s| - 1)
    else LastIndexOf(s[..|s| - 1], c)
  }

  /** The last c of x + b lies in b when b has one, and otherwise in x. */
  lemma {:induction false} LastIndexOfAppend(x: string, b: string, c: char)
    ensures LastIndexOf(x + b, c) == (match LastIndexOf(b, c)
                                      case None => LastIndexOf(x, c)
                                      case Some(i) => Some(|x| + i))
    decreases |b|
  {
    if b == [] {
      assert x + b == x;
    } else {
      var s := x + b;
      assert s[|s| - 1] == b[|b| - 1];
      if b[|b| - 1] != c {
        assert s[..|s| - 1] == x + b[..|b| - 1];
        LastIndexOfAppend(x, b[..|b| - 1], c);
      }
    }
  }

  /** posixpath.basename: what follows the last '/', i.e. the longest suffix without '/'. */
  function Basename(p: string): (r: string)
    ensures |r| <= |p| && r == p[|p| - |r|..]
    ensures forall k :: 0 <= k < |r| ==> r[k] != '/'
    ensures |r| < |p| ==> p[|p| - |r| - 1] == '/'
  {
    match LastIndexOf(p, '/')
    case None => p
    case Some(i) => p[i + 1..]
  }

  /** pathlib.PurePosixPath(p).name: the last component once empty and '.' components are
      dropped ("" when there is none). */
  function PathName(p: string): (r: string)
    ensures forall k :: 0 <= k < |r| ==> r[k] != '/'
    ensures r != "."
    decreases |p|
  {
    var b := Basename(p);
    if b != [] && b != "." then b
    else if |b| == |p| then []
    else PathName(p[..|p| - |b| - 1])
  }

  /** Path(dir) / rel: an absolute rel replaces dir. */
  function JoinPath(dir: string, rel: string): string {
    if StartsWith(rel, "/") then rel else dir + "/" + rel
  }

  /** A path whose text ends in ".pdf" has that last segment as its pathlib name. */
  lemma PathNameOfPdf(p: string)
    requires EndsWithPdf(p)
    ensures PathName(p) == Basename(p)
    ensures EndsWithPdf(Basename(p))
  {
    var b := Basename(p);
    assert b[|b| - 4..] == p[|p| - 4..];
    assert b[|b| - 4] == p[|p| - 4] && b[|b| - 3] == p[|p| - 3];
    assert b[|b| - 2] == p[|p| - 2] && b[|b| - 1] == p[|p| - 1];
    assert b != "." by { assert |b| >= 4; }
  }

  // ---------------------------------------------------------------------------
  // Search

  /** First index k >= from with s[k] == c. */
  function IndexFrom(s: string, c: char, from: nat): (r: Option<nat>)
    ensures r.Some? ==> from <= r.value < |s| && s[r.value] == c
                        && forall k :: from <= k < r.value ==> s[k] != c
    ensures r.None? ==> forall k :: from <= k < |s| ==> s[k] != c
    decreases |s| - from
  {
    if from >= |s| then None
    else if s[from] == c then Some(from)
    else IndexFrom(s, c, from + 1)
  }

  /** The part before the first c (str.split(c, 1)[0]). */
  function BeforeFirst(s: string, c: char): (r: string)
    ensures StartsWith(s, r)
    ensures forall k :: 0 <= k < |r| ==> r[k] != c
    ensures |r| < |s| ==> s[|r|] == c
  {
    match IndexFrom(s, c, 0)
    case None => s
    case Some(i) => s[..i]
  }

  /** Positions without c are skipped by the search. */
  lemma {:induction false} IndexFromSkip(s: string, c: char, i: nat, j: nat)
    requires i <= j && forall k :: i <= k < j && k < |s| ==> s[k] != c
    ensures IndexFrom(s, c, i) == IndexFrom(s, c, j)
    decreases j - i
  {
    if i < j && i < |s| {
      IndexFromSkip(s, c, i + 1, j);
    }
  }

  function Shift(o: Option<nat>, d: nat): Option<nat> {
    match o
    case None => None
    case Some(v) => Some(v + d)
  }

  /** Searching x + t past x is searching t. */
  lemma {:induction false} IndexFromShift(x: string, t: string, c: char, j: nat)
    ensures IndexFrom(x + t, c, |x| + j) == Shift(IndexFrom(t, c, j), |x|)
    decreases |t| - j
  {
    if j < |t| {
      assert (x + t)[|x| + j] == t[j];
      IndexFromShift(x, t, c, j + 1);
    }
  }

  /** split(c, 1)[0] of x + t, when x holds no c, keeps x and splits t. */
  lemma BeforeFirstAppend(x: string, t: string, c: char)
    requires c !in x
    ensures BeforeFirst(x + t, c) == x + BeforeFirst(t, c)
  {
    var s := x + t;
    forall k | 0 <= k < |x| ensures s[k] != c {
      assert s[k] == x[k] && x[k] in x;
    }
    IndexFromSkip(s, c, 0, |x|);
    IndexFromShift(x, t, c, 0);
    match IndexFrom(t, c, 0)
    case None =>
    case Some(v) =>
      assert s[..|x| + v] == x + t[..v];
  }

  /** A string starting with c (or empty) has nothing before its first c. */
  lemma BeforeFirstAtStart(t: string, c: char)
    requires t == [] || t[0] == c
    ensures BeforeFirst(t, c) == []
  {
  }

  // ---------------------------------------------------------------------------
  // file.readlines()

  function Concat(ls: seq<string>): string {
    if ls == [] then [] else ls[0] + Concat(ls[1..])
  }

  /** A readlines() element: nonempty, and '\n' can only be its last character. */
  predicate IsLine(l: string) {
    |l| > 0 && forall k :: 0 <= k < |l| - 1 ==> l[k] != '\n'
  }

  /** f.readlines() on text already read in text mode: split after every '\n'. */
  function SplitLines(t: string): (ls: seq<string>)
    ensures forall i :: 0 <= i < |ls| ==> IsLine(ls[i])
    ensures forall i :: 0 <= i < |ls| - 1 ==> |ls[i]| > 0 && ls[i][|ls[i]| - 1] == '\n'
    decreases |t|
  {
    match IndexFrom(t, '\n', 0)
    case None => if t == [] then [] else [t]
    case Some(j) => [t[..j + 1]] + SplitLines(t[j + 1..])
  }

  /** readlines() loses nothing: joining the lines gives the text back. */
  lemma {:induction false} SplitLinesConcat(t: string)
    ensures Concat(SplitLines(t)) == t
    decreases |t|
  {
    match IndexFrom(t, '\n', 0)
    case None =>
    case Some(j) =>
      var ls := SplitLines(t);
      assert ls[1..] == SplitLines(t[j + 1..]);
      SplitLinesConcat(t[j + 1..]);
      assert t == t[..j + 1] + t[j + 1..];
  }
}
