/**
 The ticket-id scanner: for one project prefix `P`, the list that Python's
 `re.findall(r'(P\-[0-9]+)', body, flags=re.IGNORECASE)` returns, and the
 concatenation of those lists over the configured prefixes.

 The prefix is treated as literal text and letters are compared with ASCII
 case folding only; see README for what that leaves out.
 */
module Scan {

  /** ASCII upper-case letters fold to lower case; every other character is its own fold. */
  function Fold(c: char): (f: char)
    ensures 'A' <= c <= 'Z' ==> 'a' <= f <= 'z' && f as int - c as int == 32
    ensures !('A' <= c <= 'Z') ==> f == c
  {
    if 'A' <= c <= 'Z' then (c as int + 32) as char else c
  }

  /** The character class `[0-9]`. */
  predicate IsDigit(c: char) {
    '0' <= c <= '9'
  }

  /** `body` holds `p` at position `i`, letters compared without regard to case. */
  predicate FoldedAt(body: string, p: string, i: int) {
    0 <= i && i + |p| <= |body| &&
    forall k :: 0 <= k < |p| ==> Fold(body[i + k]) == Fold(p[k])
  }

  /** A reference for prefix `p` starts at `i`: the prefix, a `-`, and at least one digit. */
  predicate HeadAt(body: string, p: string, i: int) {
    FoldedAt(body, p, i) && i + |p| + 1 < |body| &&
    body[i + |p|] == '-' && IsDigit(body[i + |p| + 1])
  }

  /** Some configured prefix heads a reference somewhere in `body`. */
  ghost predicate Mentions(body: string, prefixes: seq<string>) {
    exists k, j :: 0 <= k < |prefixes| && HeadAt(body, prefixes[k], j)
  }

  /** A match of the pattern: a head at `s.start`, then a digit run that is
      as long as it can be (the greedy `[0-9]+`). */
  ghost predicate IsMatch(body: string, p: string, s: Span) {
    && HeadAt(body, p, s.start)
    && s.start + |p| + 2 <= s.end <= |body|
    && (forall k :: s.start + |p| + 1 <= k < s.end ==> IsDigit(body[k]))
    && (s.end == |body| || !IsDigit(body[s.end]))
  }

  /** The shape of a ticket id for prefix `p`: the prefix up to case, `-`, digits. */
  ghost predicate IsTicketId(m: string, p: string) {
    && |m| >= |p| + 2
    && (forall k :: 0 <= k < |p| ==> Fold(m[k]) == Fold(p[k]))
    && m[|p|] == '-'
    && (forall k :: |p| < k < |m| ==> IsDigit(m[k]))
  }

  /** The length of the run of digits starting at `j`. */
  function DigitRun(body: string, j: nat): (n: nat)
    requires j <= |body|
    ensures j + n <= |body|
    ensures forall k :: j <= k < j + n ==> IsDigit(body[k])
    ensures j + n == |body| || !IsDigit(body[j + n])
    decreases |body| - j
  {
    if j < |body| && IsDigit(body[j]) then 1 + DigitRun(body, j + 1) else 0
  }

  /** A half-open range `[start, end)` of the message body. */
  datatype Span = Span(start: nat, end: nat)

  /** Where the match that starts at head `i` ends. */
  function MatchEnd(body: string, p: string, i: nat): (e: nat)
    requires HeadAt(body, p, i)
    ensures i + |p| + 2 <= e <= |body|
  {
    i + |p| + 1 + DigitRun(body, i + |p| + 1)
  }

  /** The match that starts at a head is maximal: after the prefix and the
      `-` comes the longest non-empty run of digits. */
  lemma MatchEndMaximal(body: string, p: string, i: nat)
    requires HeadAt(body, p, i)
    ensures IsMatch(body, p, Span(i, MatchEnd(body, p, i)))
  {
    var n := DigitRun(body, i + |p| + 1);
    assert n > 0 by {
      assert IsDigit(body[i + |p| + 1]);
    }
  }

  /** The spans `re.findall` reports scanning from position `i`: leftmost match
      first, the scan resuming where the previous match ended. */
  function Spans(body: string, p: string, i: nat): (r: seq<Span>)
    requires i <= |body|
    ensures forall k :: 0 <= k < |r| ==> i <= r[k].start < r[k].end <= |body|
    decreases |body| - i
  {
    if i == |body| then []
    else if HeadAt(body, p, i) then
      var e := MatchEnd(body, p, i);
      [Span(i, e)] + Spans(body, p, e)
    else
      Spans(body, p, i + 1)
  }

  /** Every span of `r` is a maximal match starting at or after `i`. */
  ghost predicate AllMatches(body: string, p: string, i: int, r: seq<Span>) {
    forall k :: 0 <= k < |r| ==> i <= r[k].start && IsMatch(body, p, r[k])
  }

  /** Every head at or after `i` lies inside a span of `r`. */
  ghost predicate CoversHeads(body: string, p: string, i: int, r: seq<Span>) {
    forall j {:trigger Covered(r, j)} :: i <= j && HeadAt(body, p, j) ==> Covered(r, j)
  }

  /** Every span `re.findall` reports from `i` is a maximal match of the
      pattern, case-insensitively, starting at or after `i`. */
  lemma {:induction false} SpansSound(body: string, p: string, i: nat)
    requires i <= |body|
    ensures AllMatches(body, p, i, Spans(body, p, i))
    decreases |body| - i
  {
    if i == |body| {
    } else if HeadAt(body, p, i) {
      var e := MatchEnd(body, p, i);
      MatchEndMaximal(body, p, i);
      SpansSound(body, p, e);
      assert Spans(body, p, i) == [Span(i, e)] + Spans(body, p, e);
      AllMatchesCons(body, p, i, Span(i, e), Spans(body, p, e));
    } else {
      SpansSound(body, p, i + 1);
      AllMatchesFrom(body, p, i, Spans(body, p, i + 1));
    }
  }

  /** Prepending a match at or after `i` that ends before the rest begins. */
  lemma AllMatchesCons(body: string, p: string, i: int, s: Span, rest: seq<Span>)
    requires i <= s.start && IsMatch(body, p, s) && AllMatches(body, p, s.end, rest)
    ensures AllMatches(body, p, i, [s] + rest)
  {
    assert forall k :: 1 <= k < |[s] + rest| ==> ([s] + rest)[k] == rest[k - 1];
  }

  /** Matches at or after `i + 1` are matches at or after `i`. */
  lemma AllMatchesFrom(body: string, p: string, i: int, r: seq<Span>)
    requires AllMatches(body, p, i + 1, r)
    ensures AllMatches(body, p, i, r)
  {
  }

  /** Spans that do not overlap and are listed in body order. */
  predicate Ordered(r: seq<Span>) {
    forall k, l :: 0 <= k < l < |r| ==> r[k].end <= r[l].start
  }

  /** Position `j` lies inside one of the spans. */
  predicate Covered(r: seq<Span>, j: int) {
    exists k :: 0 <= k < |r| && r[k].start <= j < r[k].end
  }

  /** Matches never overlap and come in the order they occur in the body. */
  lemma {:induction false} SpansOrdered(body: string, p: string, i: nat)
    requires i <= |body|
    ensures Ordered(Spans(body, p, i))
    decreases |body| - i
  {
    var r := Spans(body, p, i);
    if i == |body| {
    } else if HeadAt(body, p, i) {
      var e := MatchEnd(body, p, i);
      var rest := Spans(body, p, e);
      SpansOrdered(body, p, e);
      assert r == [Span(i, e)] + rest;
      forall k, l | 0 <= k < l < |r|
        ensures r[k].end <= r[l].start
      {
        assert r[l] == rest[l - 1];
        if k == 0 {
          assert r[0] == Span(i, e);
          assert e <= rest[l - 1].start;
        } else {
          assert r[k] == rest[k - 1];
        }
      }
    } else {
      SpansOrdered(body, p, i + 1);
    }
  }

  /** Prepending a span keeps every covered position covered. */
  lemma CoveredCons(s: Span, rest: seq<Span>, j: int)
    requires Covered(rest, j)
    ensures Covered([s] + rest, j)
  {
    var k :| 0 <= k < |rest| && rest[k].start <= j < rest[k].end;
    assert ([s] + rest)[k + 1] == rest[k];
  }

  /** No reference is missed: every head at or after `i` lies inside a match,
      either as its start or overlapped by an earlier match. */
  lemma {:induction false} SpansCover(body: string, p: string, i: nat, j: int)
    requires i <= |body|
    requires i <= j && HeadAt(body, p, j)
    ensures Covered(Spans(body, p, i), j)
    decreases |body| - i
  {
    assert i < |body|;
    if HeadAt(body, p, i) {
      var e := MatchEnd(body, p, i);
      if e <= j {
        SpansCover(body, p, e, j);
        assert Spans(body, p, i) == [Span(i, e)] + Spans(body, p, e);
        CoveredCons(Span(i, e), Spans(body, p, e), j);
      } else {
        assert Spans(body, p, i)[0] == Span(i, e);
      }
    } else {
      SpansCover(body, p, i + 1, j);
    }
  }

  /** The texts `re.findall` returns for prefix `p`, in body order; each keeps
      the casing it has in the body. */
  function FindAll(body: string, p: string): (ms: seq<string>)
    ensures forall k :: 0 <= k < |ms| ==> IsTicketId(ms[k], p)
  {
    SpansSound(body, p, 0);
    var r := Spans(body, p, 0);
    seq(|r|, k requires 0 <= k < |r| => body[r[k].start..r[k].end])
  }

  /** Every reported id is a substring of the body at a maximal match. */
  lemma FindAllOccurs(body: string, p: string, m: string)
    requires m in FindAll(body, p)
    ensures exists s :: IsMatch(body, p, s) && body[s.start..s.end] == m
  {
    SpansSound(body, p, 0);
    var r := Spans(body, p, 0);
    var k :| 0 <= k < |r| && FindAll(body, p)[k] == m;
    assert IsMatch(body, p, r[k]);
  }

  /** `re.findall` finds nothing exactly when no head occurs in the body. */
  lemma FindAllEmpty(body: string, p: string)
    ensures FindAll(body, p) == [] <==> forall j :: !HeadAt(body, p, j)
  {
    var r := Spans(body, p, 0);
    assert |FindAll(body, p)| == |r|;
    if j :| HeadAt(body, p, j) {
      SpansCover(body, p, 0, j);
    }
    if r != [] {
      SpansSound(body, p, 0);
      assert HeadAt(body, p, r[0].start);
    }
  }

  /** `matches` after the loop over the configured prefixes: the per-prefix
      results concatenated in configuration order. */
  function Matches(body: string, prefixes: seq<string>): (ms: seq<string>)
    ensures forall m :: m in ms ==> exists k :: 0 <= k < |prefixes| && IsTicketId(m, prefixes[k])
  {
    if prefixes == [] then []
    else
      var rest := Matches(body, prefixes[1..]);
      assert forall m :: m in rest ==> exists k :: 0 <= k < |prefixes| && IsTicketId(m, prefixes[k]) by {
        forall m | m in rest
          ensures exists k :: 0 <= k < |prefixes| && IsTicketId(m, prefixes[k])
        {
          var k :| 0 <= k < |prefixes[1..]| && IsTicketId(m, prefixes[1..][k]);
          assert prefixes[1..][k] == prefixes[k + 1];
        }
      }
      FindAll(body, prefixes[0]) + rest
  }

  /** An id is among the matches exactly when `re.findall` reports it for some
      configured prefix. */
  lemma {:induction false} MatchesMember(body: string, prefixes: seq<string>, m: string)
    ensures m in Matches(body, prefixes) <==>
      exists k :: 0 <= k < |prefixes| && m in FindAll(body, prefixes[k])
  {
    if prefixes != [] {
      MatchesMember(body, prefixes[1..], m);
      if k :| 1 <= k < |prefixes| && m in FindAll(body, prefixes[k]) {
        assert prefixes[1..][k - 1] == prefixes[k];
      }
      if k :| 0 <= k < |prefixes[1..]| && m in FindAll(body, prefixes[1..][k]) {
        assert prefixes[1..][k] == prefixes[k + 1];
      }
    }
  }

  /** There is nothing to look up exactly when no configured prefix, followed
      by `-` and a digit, occurs anywhere in the body. */
  lemma {:induction false} MatchesEmpty(body: string, prefixes: seq<string>)
    ensures Matches(body, prefixes) == [] <==> !Mentions(body, prefixes)
  {
    if prefixes != [] {
      MatchesEmpty(body, prefixes[1..]);
      FindAllEmpty(body, prefixes[0]);
      if Mentions(body, prefixes) {
        var k, j :| 0 <= k < |prefixes| && HeadAt(body, prefixes[k], j);
        assert k == 0 || prefixes[1..][k - 1] == prefixes[k];
      }
      if Mentions(body, prefixes[1..]) {
        var k, j :| 0 <= k < |prefixes[1..]| && HeadAt(body, prefixes[1..][k], j);
        assert prefixes[1..][k] == prefixes[k + 1];
      }
    }
  }

  /** A maximal run of digits starting at `j` is the one `DigitRun` measures. */
  lemma {:induction false} DigitRunUnique(body: string, j: nat, n: nat)
    requires j + n <= |body|
    requires forall k :: j <= k < j + n ==> IsDigit(body[k])
    requires j + n == |body| || !IsDigit(body[j + n])
    ensures n == DigitRun(body, j)
    decreases n
  {
    if n > 0 {
      assert IsDigit(body[j]);
      DigitRunUnique(body, j + 1, n - 1);
    }
  }

  /** A position covered by a span list, but not by its first span, is
      covered by the rest of the list. */
  lemma CoverTail(r: seq<Span>, j: int)
    requires Covered(r, j) && |r| > 0 && r[0].end <= j
    ensures Covered(r[1..], j)
  {
    var l :| 0 <= l < |r| && r[l].start <= j < r[l].end;
    assert r[1..][l - 1] == r[l];
  }

  /** In an ordered list of non-empty spans starting at or after `i`, a span
      covering `i` must be the first one, and it starts at `i`. */
  lemma FirstCovers(r: seq<Span>, i: int)
    requires Ordered(r) && Covered(r, i)
    requires forall k :: 0 <= k < |r| ==> i <= r[k].start < r[k].end
    ensures |r| > 0 && r[0].start == i
  {
    var k :| 0 <= k < |r| && r[k].start <= i < r[k].end;
    assert r[0].end > i;
  }

  /** After the first match of a list that satisfies the uniqueness premises
      from a head at `i`, the rest of the list satisfies them from where that
      match ends. */
  lemma TailPremises(body: string, p: string, i: nat, r: seq<Span>)
    requires i < |body| && HeadAt(body, p, i)
    requires AllMatches(body, p, i, r)
    requires Ordered(r)
    requires CoversHeads(body, p, i, r)
    ensures |r| > 0 && r[0] == Span(i, MatchEnd(body, p, i))
    ensures AllMatches(body, p, r[0].end, r[1..])
    ensures Ordered(r[1..])
    ensures CoversHeads(body, p, r[0].end, r[1..])
  {
    assert Covered(r, i);
    FirstCovers(r, i);
    DigitRunUnique(body, i + |p| + 1, r[0].end - (i + |p| + 1));
    var rest := r[1..];
    assert forall l :: 0 <= l < |rest| ==> rest[l] == r[l + 1];
    forall j | r[0].end <= j && HeadAt(body, p, j)
      ensures Covered(rest, j)
    {
      CoverTail(r, j);
    }
  }

  /** When no head sits at `i`, a list that satisfies the uniqueness premises
      from `i` satisfies them from `i + 1`. */
  lemma SkipPremises(body: string, p: string, i: nat, r: seq<Span>)
    requires i < |body| && !HeadAt(body, p, i)
    requires AllMatches(body, p, i, r)
    ensures AllMatches(body, p, i + 1, r)
  {
    forall k | 0 <= k < |r|
      ensures i + 1 <= r[k].start
    {
      assert HeadAt(body, p, r[k].start);
    }
  }

  /** The spans `re.findall` reports are the only list of maximal matches at
      or after `i` that is ordered and covers every head at or after `i`. */
  lemma {:induction false} SpansUnique(body: string, p: string, i: nat, r: seq<Span>)
    requires i <= |body|
    requires AllMatches(body, p, i, r)
    requires Ordered(r)
    requires CoversHeads(body, p, i, r)
    ensures r == Spans(body, p, i)
    decreases |body| - i
  {
    assert r == [] || i < r[0].start + |p| + 2 <= r[0].end;
    if i == |body| {
      assert r == [];
    } else if HeadAt(body, p, i) {
      TailPremises(body, p, i, r);
      SpansUnique(body, p, r[0].end, r[1..]);
      assert r == [r[0]] + r[1..];
    } else {
      SkipPremises(body, p, i, r);
      SpansUnique(body, p, i + 1, r);
    }
  }
}
