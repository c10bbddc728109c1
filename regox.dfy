/** The query API of a compiled expression (regox.go:3-47): `Match`,
    `Matches` and `MatchAll`. */
module Regox {
  import opened Matcher
  import opened Consumers

  /** A compiled expression: the pattern text (stored but never read) and
      the tree its consumer is built from. */
  datatype Regex = Regex(expression: string, tree: Node)

  /** `Match`: the tree's outcome on `s`, with `s` itself (not the coverage)
      put before the captures, on a failure as well as on a success. */
  function Match(regex: Regex, s: string): (r: RegResult)
    ensures |r.captures| >= 1 && r.captures[0] == s
    ensures r.success == Eval(regex.tree, s).success && r.coverage == Eval(regex.tree, s).coverage
    ensures r.captures[1..] == Eval(regex.tree, s).captures
    ensures r.success ==> r.coverage <= s
    ensures !r.success ==> r.captures == [s] && r.coverage == ""
  {
    var res := Eval(regex.tree, s);
    RegResult(res.success, [s] + res.captures, res.coverage)
  }

  /** `Matches`: whether the tree succeeds on `s`. */
  function Matches(regex: Regex, s: string): (b: bool)
    ensures b == Match(regex, s).success
  {
    Eval(regex.tree, s).success
  }

  /** A match recorded by `MatchAll`, with the offset it was found at. The
      source returns only the results; the offsets are derived data that
      state where each result comes from. */
  datatype Hit = Hit(start: nat, result: RegResult)

  /** How far `MatchAll` moves past a match: its coverage, or one character
      when it covers nothing (the source would stay where it is forever). */
  function Step(r: RegResult): nat
  {
    if r.coverage == "" then 1 else |r.coverage|
  }

  /** No outcome covers past the end of the text. */
  predicate Fits(os: seq<RegResult>)
  {
    forall j :: 0 <= j < |os| ==> |os[j].coverage| <= |os| - j
  }

  /** The outcome of the tree at every offset of `s`. */
  function Outcomes(n: Node, s: string): (os: seq<RegResult>)
    ensures |os| == |s| && Fits(os)
    ensures forall j :: 0 <= j < |s| ==> os[j] == Eval(n, s[j..])
  {
    seq(|s|, j requires 0 <= j < |s| => Eval(n, s[j..]))
  }

  /** The scan of `MatchAll` over the outcomes `os`, from offset `i` on: a
      success is recorded and skipped over, a failure moves on by one. */
  function Scan(os: seq<RegResult>, i: nat): (hits: seq<Hit>)
    requires Fits(os) && i <= |os|
    ensures forall k :: 0 <= k < |hits| ==>
      i <= hits[k].start < |os| && hits[k].result == os[hits[k].start] && hits[k].result.success
    decreases |os| - i
  {
    if i == |os| then []
    else if os[i].success then [Hit(i, os[i])] + Scan(os, i + Step(os[i]))
    else Scan(os, i + 1)
  }

  /** The outcomes of a list of hits, in order. */
  function Results(hits: seq<Hit>): (rs: seq<RegResult>)
    ensures |rs| == |hits|
    ensures forall k :: 0 <= k < |hits| ==> rs[k] == hits[k].result
  {
    seq(|hits|, k requires 0 <= k < |hits| => hits[k].result)
  }

  /** `MatchAll`: scans `s` left to right and returns the successes found. */
  method MatchAll(regex: Regex, s: string) returns (matches: seq<RegResult>)
    ensures matches == Results(Scan(Outcomes(regex.tree, s), 0))
  {
    ghost var os := Outcomes(regex.tree, s);
    matches := [];
    var i := 0;
    while i < |s|
      invariant Collected(os, matches, i)
      decreases |s| - i
    {
      var res := Consume(regex.tree, s[i..]);
      ghost var before, at := matches, i;
      if res.success {
        if res.coverage == "" {
          // the source would record this match at `i` forever
          i := i + 1;
        } else {
          i := i + |res.coverage|;
        }
        matches := matches + [res];
      } else {
        i := i + 1;
      }
      ScanRecord(os, at, res, before, matches, i);
    }
    assert Scan(os, i) == [];
  }

  /** The loop invariant of `MatchAll`: the matches so far, followed by the
      rest of the scan from offset `i`, are the whole scan. */
  predicate Collected(os: seq<RegResult>, matches: seq<RegResult>, i: int)
  {
    && Fits(os)
    && 0 <= i <= |os|
    && Results(Scan(os, 0)) == matches + Results(Scan(os, i))
  }

  /** The invariant of `MatchAll`'s loop survives one step: a success is
      recorded and skipped over, a failure moves on by one. */
  lemma ScanRecord(os: seq<RegResult>, at: nat, res: RegResult, before: seq<RegResult>,
                   matches: seq<RegResult>, i: int)
    requires Collected(os, before, at) && at < |os| && res == os[at]
    requires res.success ==> matches == before + [res] && i == at + Step(res)
    requires !res.success ==> matches == before && i == at + 1
    ensures Collected(os, matches, i)
  {
    if res.success {
      ScanHit(os, at);
      assert Results(Scan(os, at)) == [res] + Results(Scan(os, i));
      assert before + ([res] + Results(Scan(os, i))) == matches + Results(Scan(os, i));
    } else {
      assert Scan(os, at) == Scan(os, i);
    }
  }

  /** The scan at a success records it and goes on past its step. */
  lemma ScanHit(os: seq<RegResult>, at: nat)
    requires Fits(os) && at < |os| && os[at].success
    ensures at + Step(os[at]) <= |os|
    ensures Results(Scan(os, at)) == [os[at]] + Results(Scan(os, at + Step(os[at])))
  {
    var rest := Scan(os, at + Step(os[at]));
    assert ([Hit(at, os[at])] + rest)[1..] == rest;
  }

  /** A successful outcome found at offset `start` of `s`, covering the text there. */
  predicate FoundAt(n: Node, s: string, h: Hit)
  {
    && h.start < |s|
    && h.result == Eval(n, s[h.start..])
    && h.result.success
    && h.start + |h.result.coverage| <= |s|
    && h.result.coverage == s[h.start..h.start + |h.result.coverage|]
  }

  /** Every match `MatchAll` records is a success of the tree at its offset,
      and its coverage is the text found there. */
  lemma ScanFound(n: Node, s: string)
    ensures forall h :: h in Scan(Outcomes(n, s), 0) ==> FoundAt(n, s, h)
  {
    var hits := Scan(Outcomes(n, s), 0);
    forall h | h in hits
      ensures FoundAt(n, s, h)
    {
      assert h.result == Eval(n, s[h.start..]);
      assert s[h.start..][..|h.result.coverage|] == s[h.start..h.start + |h.result.coverage|];
    }
  }

  /** Each hit starts after the previous one's coverage ends. */
  predicate Ordered(hits: seq<Hit>)
  {
    forall k :: 0 <= k < |hits| - 1 ==> hits[k].start + Step(hits[k].result) <= hits[k + 1].start
  }

  /** The hits come in order and do not overlap. */
  lemma {:induction false} ScanOrdered(os: seq<RegResult>, i: nat)
    requires Fits(os) && i <= |os|
    ensures Ordered(Scan(os, i))
    decreases |os| - i
  {
    if i < |os| {
      if os[i].success {
        ScanOrdered(os, i + Step(os[i]));
        var more := Scan(os, i + Step(os[i]));
        var hits := [Hit(i, os[i])] + more;
        assert Scan(os, i) == hits;
        forall k | 0 <= k < |hits| - 1
          ensures hits[k].start + Step(hits[k].result) <= hits[k + 1].start
        {
          assert hits[k + 1] == more[k];
          if k > 0 {
            assert hits[k] == more[k - 1];
          }
        }
      } else {
        ScanOrdered(os, i + 1);
        var hits := Scan(os, i);
        var more := Scan(os, i + 1);
        assert hits == more;
        forall k | 0 <= k < |hits| - 1
          ensures hits[k].start + Step(hits[k].result) <= hits[k + 1].start
        {
          assert hits[k] == more[k] && hits[k + 1] == more[k + 1];
        }
      }
    }
  }

  /** Offset `j` lies within the span of one of the hits. */
  predicate Spans(hits: seq<Hit>, j: nat)
  {
    exists k :: 0 <= k < |hits| && hits[k].start <= j < hits[k].start + Step(hits[k].result)
  }

  /** No match is missed: every offset from `i` on with a successful
      outcome lies within the span of some recorded hit. */
  lemma {:induction false} ScanComplete(os: seq<RegResult>, i: nat, j: nat)
    requires Fits(os) && i <= j < |os| && os[j].success
    ensures Spans(Scan(os, i), j)
    decreases |os| - i
  {
    var hits := Scan(os, i);
    if os[i].success {
      assert hits == [Hit(i, os[i])] + Scan(os, i + Step(os[i]));
      if j < i + Step(os[i]) {
        assert hits[0] == Hit(i, os[i]);
      } else {
        ScanComplete(os, i + Step(os[i]), j);
        var more := Scan(os, i + Step(os[i]));
        var k :| 0 <= k < |more| && more[k].start <= j < more[k].start + Step(more[k].result);
        assert hits[k + 1] == more[k];
      }
    } else {
      assert i != j;
      ScanComplete(os, i + 1, j);
      var more := Scan(os, i + 1);
      assert hits == more;
      var k :| 0 <= k < |more| && more[k].start <= j < more[k].start + Step(more[k].result);
      assert hits[k] == more[k];
    }
  }
}
