/** re.finditer for a pattern given as the match it makes at each position: the search
    tries each position from left to right and, after a match, resumes where it ended. */
module Finditer {
  import opened Text

  /** One match: where it starts, its two groups, and where it ends (exclusive). */
  datatype LinkMatch = LinkMatch(start: nat, text: string, target: string, end: nat)

  /** Every match the pattern makes at j ends after j and within the n characters. */
  ghost predicate Advancing(n: nat, at: nat -> Option<LinkMatch>) {
    forall j: nat :: at(j).Some? ==> at(j).value.start == j < at(j).value.end <= n
  }

  /** The pattern matches nowhere in [from, to). */
  ghost predicate NoMatchIn(at: nat -> Option<LinkMatch>, from: nat, to: nat) {
    forall j: nat :: from <= j < to ==> at(j).None?
  }

  /** finditer from position i: the search tries i, i+1, ... and resumes where a match
      ended. */
  function Scan(n: nat, at: nat -> Option<LinkMatch>, i: nat): (r: seq<LinkMatch>)
    requires Advancing(n, at)
    ensures forall k :: 0 <= k < |r| ==> i <= r[k].start < r[k].end <= n
    decreases n - i
  {
    if i >= n then []
    else match at(i)
      case Some(m) => [m] + Scan(n, at, m.end)
      case None => Scan(n, at, i + 1)
  }

  /** Each match found is what the pattern makes at its start. */
  lemma {:induction false} ScanAreMatches(n: nat, at: nat -> Option<LinkMatch>, i: nat)
    requires Advancing(n, at)
    ensures forall m :: m in Scan(n, at, i) ==> at(m.start) == Some(m)
    decreases n - i
  {
    var r := Scan(n, at, i);
    if i < n {
      match at(i)
      case Some(m) =>
        ScanAreMatches(n, at, m.end);
        var t := Scan(n, at, m.end);
        assert r == [m] + t;
        assert m.start == i;
      case None =>
        assert r == Scan(n, at, i + 1);
        ScanAreMatches(n, at, i + 1);
    }
  }

  /** Where the first match found from i starts (n when there is none). */
  function FirstStart(r: seq<LinkMatch>, n: nat): nat {
    if r == [] then n else r[0].start
  }

  lemma NoMatchInCons(at: nat -> Option<LinkMatch>, i: nat, to: nat)
    requires at(i).None? && NoMatchIn(at, i + 1, to)
    ensures NoMatchIn(at, i, to)
  {
  }

  /** Nothing matches between i and the first match found from i. */
  lemma {:induction false} ScanFirst(n: nat, at: nat -> Option<LinkMatch>, i: nat)
    requires Advancing(n, at)
    ensures NoMatchIn(at, i, FirstStart(Scan(n, at, i), n))
    decreases n - i
  {
    if i < n && at(i).None? {
      assert Scan(n, at, i) == Scan(n, at, i + 1);
      ScanFirst(n, at, i + 1);
      NoMatchInCons(at, i, FirstStart(Scan(n, at, i), n));
    }
  }

  /** Nothing matches after the last of the matches r (when there is one). */
  ghost predicate NothingAfter(at: nat -> Option<LinkMatch>, r: seq<LinkMatch>, n: nat) {
    r != [] ==> NoMatchIn(at, r[|r| - 1].end, n)
  }

  /** Nothing matches after the last match found. */
  lemma {:induction false} ScanLast(n: nat, at: nat -> Option<LinkMatch>, i: nat)
    requires Advancing(n, at)
    ensures NothingAfter(at, Scan(n, at, i), n)
    decreases n - i
  {
    var r := Scan(n, at, i);
    if i < n {
      match at(i)
      case Some(m) =>
        var t := Scan(n, at, m.end);
        assert r == [m] + t;
        if t == [] {
          assert r[|r| - 1] == m;
          ScanFirst(n, at, m.end);
        } else {
          assert r[|r| - 1] == t[|t| - 1];
          ScanLast(n, at, m.end);
        }
      case None =>
        assert r == Scan(n, at, i + 1);
        ScanLast(n, at, i + 1);
    }
  }

  /** Consecutive matches do not overlap and nothing matches between them. */
  ghost predicate Gapless(at: nat -> Option<LinkMatch>, r: seq<LinkMatch>) {
    forall k :: 0 <= k < |r| - 1 ==> r[k].end <= r[k + 1].start && NoMatchIn(at, r[k].end, r[k + 1].start)
  }

  lemma GaplessCons(at: nat -> Option<LinkMatch>, m: LinkMatch, t: seq<LinkMatch>)
    requires Gapless(at, t)
    requires t != [] ==> m.end <= t[0].start && NoMatchIn(at, m.end, t[0].start)
    ensures Gapless(at, [m] + t)
  {
    var r := [m] + t;
    forall k | 0 <= k < |r| - 1
      ensures r[k].end <= r[k + 1].start && NoMatchIn(at, r[k].end, r[k + 1].start)
    {
      if k == 0 {
        assert r[0] == m && r[1] == t[0];
      } else {
        assert r[k] == t[k - 1] && r[k + 1] == t[k];
      }
    }
  }

  /** The matches come in text order and nothing matches between two of them. */
  lemma {:induction false} ScanGaps(n: nat, at: nat -> Option<LinkMatch>, i: nat)
    requires Advancing(n, at)
    ensures Gapless(at, Scan(n, at, i))
    decreases n - i
  {
    if i < n {
      match at(i)
      case Some(m) =>
        var t := Scan(n, at, m.end);
        ScanGaps(n, at, m.end);
        ScanFirst(n, at, m.end);
        assert t != [] ==> FirstStart(t, n) == t[0].start;
        GaplessCons(at, m, t);
        assert Scan(n, at, i) == [m] + t;
      case None =>
        assert Scan(n, at, i) == Scan(n, at, i + 1);
        ScanGaps(n, at, i + 1);
    }
  }

  /** One step of the search: a match at i is taken and the search resumes at its end;
      otherwise the search moves on by one. */
  lemma ScanStep(n: nat, at: nat -> Option<LinkMatch>, i: nat)
    requires Advancing(n, at) && i < n
    ensures at(i).Some? ==> Scan(n, at, i) == [at(i).value] + Scan(n, at, at(i).value.end)
    ensures at(i).None? ==> Scan(n, at, i) == Scan(n, at, i + 1)
  {
  }

  /** Positions where nothing matches are skipped. */
  lemma {:induction false} ScanSkip(n: nat, at: nat -> Option<LinkMatch>, i: nat, j: nat)
    requires Advancing(n, at) && i <= j && NoMatchIn(at, i, j)
    ensures Scan(n, at, i) == Scan(n, at, j)
    decreases j - i
  {
    if i < j {
      ScanSkip(n, at, i + 1, j);
    }
  }

  // ---------------------------------------------------------------------------
}
