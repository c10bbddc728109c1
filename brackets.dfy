/** Bracket matching over token lists (parser.go:150-169, 245-264, 286-301):
    finding the group a closing token ends (`deparens`, `separens`),
    asking whether a group holds a token at its own level (`parencontains`),
    and splitting alternatives at top-level bars (`splitUnion`). */
module Brackets {

  /** How one token moves the nesting depth: an opener deepens it, a closer
      (checked first, as `deparens` does) makes it shallower. */
  function Step(t: string, opener: string, closer: string): int
  {
    if t == closer then -1 else if t == opener then 1 else 0
  }

  /** The nesting depth at the end of `ts`: openers minus closers. */
  function Nesting(ts: seq<string>, opener: string, closer: string): int
  {
    if ts == [] then 0 else Nesting(ts[..|ts| - 1], opener, closer) + Step(ts[|ts| - 1], opener, closer)
  }

  lemma {:induction false} NestingAppend(a: seq<string>, b: seq<string>, opener: string, closer: string)
    ensures Nesting(a + b, opener, closer) == Nesting(a, opener, closer) + Nesting(b, opener, closer)
    decreases |b|
  {
    if b == [] {
      assert a + b == a;
    } else {
      assert (a + b)[..|a + b| - 1] == a + b[..|b| - 1];
      NestingAppend(a, b[..|b| - 1], opener, closer);
    }
  }

  /** The depth after one more token of a prefix. */
  lemma NestingNext(ts: seq<string>, i: nat, opener: string, closer: string)
    requires i < |ts|
    ensures Nesting(ts[..i + 1], opener, closer) == Nesting(ts[..i], opener, closer) + Step(ts[i], opener, closer)
  {
    assert ts[..i + 1][..i] == ts[..i];
  }

  /** The depth of a suffix one token longer. */
  lemma NestingFront(ts: seq<string>, i: nat, opener: string, closer: string)
    requires i < |ts|
    ensures Nesting(ts[i..], opener, closer) == Step(ts[i], opener, closer) + Nesting(ts[i + 1..], opener, closer)
  {
    assert ts[i..] == [ts[i]] + ts[i + 1..];
    NestingAppend([ts[i]], ts[i + 1..], opener, closer);
    assert [ts[i]][..0] == [];
  }

  /** The largest start `k <= i` of a suffix of `ts` whose depth is zero, or -1. */
  function BalancedFrom(ts: seq<string>, opener: string, closer: string, i: int): (k: int)
    requires -1 <= i < |ts|
    ensures -1 <= k <= i
    ensures k >= 0 ==> Nesting(ts[k..], opener, closer) == 0
    ensures forall j :: k < j <= i ==> Nesting(ts[j..], opener, closer) != 0
    decreases i + 1
  {
    if i < 0 then -1
    else if Nesting(ts[i..], opener, closer) == 0 then i
    else BalancedFrom(ts, opener, closer, i - 1)
  }

  /** The group that ends `ts`: its shortest non-empty suffix of depth zero,
      or all of `ts` when there is none. */
  function Group(ts: seq<string>, opener: string, closer: string): (g: seq<string>)
    ensures |g| <= |ts| && g == ts[|ts| - |g|..]
    ensures ts != [] ==> g != []
    ensures g == ts || Nesting(g, opener, closer) == 0
    ensures forall j :: |ts| - |g| < j < |ts| ==> Nesting(ts[j..], opener, closer) != 0
    ensures 2 <= |ts| && ts[|ts| - 1] == closer ==> 2 <= |g|
  {
    var k := BalancedFrom(ts, opener, closer, |ts| - 1);
    if k >= 0 then
      assert ts[|ts| - 1..] == [ts[|ts| - 1]];
      ts[k..]
    else ts
  }

  /** `deparens`: scans from the right, tracking the depth of the suffix
      read so far, and stops when it comes back to zero. */
  method Deparens(tokens: seq<string>, opener: string, closer: string) returns (parens: seq<string>)
    ensures parens == Group(tokens, opener, closer)
  {
    var level := 0;
    var i := |tokens| - 1;
    while i >= 0
      invariant -1 <= i < |tokens|
      invariant level == -Nesting(tokens[i + 1..], opener, closer)
      invariant BalancedFrom(tokens, opener, closer, |tokens| - 1) == BalancedFrom(tokens, opener, closer, i)
      decreases i + 1
    {
      if tokens[i] == closer {
        level := level + 1;
      } else if tokens[i] == opener {
        level := level - 1;
      }
      NestingFront(tokens, i, opener, closer);
      if level == 0 {
        return tokens[i..];
      }
      i := i - 1;
    }
    return tokens;
  }

  /** `separens`: the tokens before the closing group, and the group. */
  function Separens(tokens: seq<string>, opener: string, closer: string): (r: (seq<string>, seq<string>))
    ensures r.0 + r.1 == tokens
    ensures r.1 == Group(tokens, opener, closer)
    ensures tokens != [] ==> |r.0| < |tokens|
  {
    var parens := Group(tokens, opener, closer);
    (tokens[..|tokens| - |parens|], parens)
  }

  /** A group with no other opener or closer inside. */
  predicate FlatGroup(ts: seq<string>, opener: string, closer: string)
  {
    && 2 <= |ts| && opener != closer
    && ts[0] == opener && ts[|ts| - 1] == closer
    && forall k :: 0 < k < |ts| - 1 ==> ts[k] != opener && ts[k] != closer
  }

  /** Every proper suffix of a flat group is one closer short. */
  lemma {:induction false} FlatSuffix(ts: seq<string>, opener: string, closer: string, j: nat)
    requires FlatGroup(ts, opener, closer) && 1 <= j < |ts|
    ensures Nesting(ts[j..], opener, closer) == -1
    decreases |ts| - j
  {
    if j == |ts| - 1 {
      assert ts[j..] == [closer] && [closer][..0] == [];
    } else {
      NestingFront(ts, j, opener, closer);
      FlatSuffix(ts, opener, closer, j + 1);
    }
  }

  /** A flat group at the end of the tokens is exactly the group
      `separens` splits off, whatever comes before it. */
  lemma FlatSeparens(before: seq<string>, ts: seq<string>, opener: string, closer: string)
    requires FlatGroup(ts, opener, closer)
    ensures Separens(before + ts, opener, closer) == (before, ts)
  {
    var all := before + ts;
    forall j | |before| < j < |all|
      ensures Nesting(all[j..], opener, closer) == -1
    {
      assert all[j..] == ts[j - |before|..];
      FlatSuffix(ts, opener, closer, j - |before|);
    }
    assert Nesting(all[|before|..], opener, closer) == 0 by {
      assert all[|before|..] == ts;
      NestingFront(ts, 0, opener, closer);
      FlatSuffix(ts, opener, closer, 1);
    }
    assert all[..|before|] == before;
  }

  /** Token `i` is `elem`, at depth one, before the depth first returns to
      zero: `elem` sits directly inside the group that opens `ts`. */
  predicate Inside(ts: seq<string>, elem: string, i: int)
  {
    && 0 <= i < |ts|
    && ts[i] == elem
    && elem != "(" && elem != ")"
    && Nesting(ts[..i], "(", ")") == 1
    && forall j :: 0 < j <= i ==> Nesting(ts[..j], "(", ")") != 0
  }

  /** Whether the group that opens `ts` holds `elem` at its own level. */
  predicate ParenHas(ts: seq<string>, elem: string)
  {
    exists i :: 0 <= i < |ts| && Inside(ts, elem, i)
  }

  /** `parencontains`: scans from the left, tracking the depth, and gives
      up as soon as the depth is zero again. */
  method ParenContains(tokens: seq<string>, elem: string) returns (b: bool)
    ensures b == ParenHas(tokens, elem)
  {
    var level := 0;
    for i := 0 to |tokens|
      invariant level == Nesting(tokens[..i], "(", ")")
      invariant forall j :: 0 < j <= i ==> Nesting(tokens[..j], "(", ")") != 0
      invariant forall k :: 0 <= k < i ==> !Inside(tokens, elem, k)
    {
      var token := tokens[i];
      NestingNext(tokens, i, "(", ")");
      if token == "(" {
        level := level + 1;
      } else if token == ")" {
        level := level - 1;
      } else if level == 1 && token == elem {
        assert Inside(tokens, elem, i);
        return true;
      }
      if level == 0 {
        assert forall k :: i < k < |tokens| ==> !Inside(tokens, elem, k);
        return false;
      }
    }
    return false;
  }

  /** Token `j` is a bar at depth zero, where `splitUnion` cuts. */
  predicate TopBar(ts: seq<string>, j: int)
  {
    0 <= j < |ts| && ts[j] == "|" && Nesting(ts[..j], "(", ")") == 0
  }

  /** The last top-level bar at or before `i`, or -1. */
  function LastTopBar(ts: seq<string>, i: int): (j: int)
    requires -1 <= i < |ts|
    ensures -1 <= j <= i
    ensures j >= 0 ==> TopBar(ts, j)
    ensures forall k :: j < k <= i ==> !TopBar(ts, k)
    decreases i + 1
  {
    if i < 0 then -1 else if TopBar(ts, i) then i else LastTopBar(ts, i - 1)
  }

  /** The alternatives of `ts`: the runs of tokens between its top-level bars. */
  function Cut(ts: seq<string>): (ps: seq<seq<string>>)
    ensures ps != []
    ensures forall k :: 0 <= k < |ps| ==> |ps[k]| <= |ts| && forall t :: t in ps[k] ==> t in ts
    decreases |ts|
  {
    var j := LastTopBar(ts, |ts| - 1);
    if j < 0 then [ts]
    else
      var ps := Cut(ts[..j]) + [ts[j + 1..]];
      assert forall k :: 0 <= k < |ps| - 1 ==> ps[k] == Cut(ts[..j])[k];
      ps
  }

  /** The alternatives joined back with bars between them. */
  function Join(ps: seq<seq<string>>): seq<string>
    requires ps != []
  {
    if |ps| == 1 then ps[0] else Join(ps[..|ps| - 1]) + ["|"] + ps[|ps| - 1]
  }

  /** No alternative is lost: joining them with bars gives `ts` back. */
  lemma {:induction false} CutJoin(ts: seq<string>)
    ensures Join(Cut(ts)) == ts
    decreases |ts|
  {
    var j := LastTopBar(ts, |ts| - 1);
    if j >= 0 {
      var ps := Cut(ts);
      CutJoin(ts[..j]);
      assert ps[..|ps| - 1] == Cut(ts[..j]);
      assert ts[..j] + ["|"] + ts[j + 1..] == ts;
    }
  }

  /** No alternative holds a bar at its own top level. */
  lemma {:induction false} CutPiecesHaveNoTopBar(ts: seq<string>)
    ensures forall k, m :: 0 <= k < |Cut(ts)| && 0 <= m < |Cut(ts)[k]| ==> !TopBar(Cut(ts)[k], m)
    decreases |ts|
  {
    var j := LastTopBar(ts, |ts| - 1);
    var ps := Cut(ts);
    if j < 0 {
      assert forall m :: 0 <= m < |ts| ==> !TopBar(ts, m);
    } else {
      CutPiecesHaveNoTopBar(ts[..j]);
      var last := ts[j + 1..];
      forall m | 0 <= m < |last|
        ensures !TopBar(last, m)
      {
        NestingNext(ts, j, "(", ")");
        assert ts[..j + 1 + m] == ts[..j + 1] + last[..m];
        NestingAppend(ts[..j + 1], last[..m], "(", ")");
        assert Nesting(last[..m], "(", ")") == Nesting(ts[..j + 1 + m], "(", ")");
        assert last[m] == ts[j + 1 + m];
        assert !TopBar(ts, j + 1 + m);
      }
      forall k, m | 0 <= k < |ps| && 0 <= m < |ps[k]|
        ensures !TopBar(ps[k], m)
      {
        if k < |ps| - 1 {
          assert ps[k] == Cut(ts[..j])[k];
        }
      }
    }
  }

  /** Where the first `k + 1` alternatives of `ts` end once joined back. */
  function PiecesEnd(ts: seq<string>, k: int): nat
    requires 0 <= k < |Cut(ts)|
  {
    |Join(Cut(ts)[..k + 1])|
  }

  /** Every cut is at a top-level bar: the one just after the first `k + 1`
      alternatives joined back. */
  lemma {:induction false} CutAtTopBars(ts: seq<string>)
    ensures forall k :: 0 <= k < |Cut(ts)| - 1 ==> TopBar(ts, PiecesEnd(ts, k))
    decreases |ts|
  {
    var j := LastTopBar(ts, |ts| - 1);
    if j >= 0 {
      var front := ts[..j];
      var qs := Cut(front);
      var ps := Cut(ts);
      CutAt(ts, j);
      CutAtTopBars(front);
      forall k | 0 <= k < |ps| - 1
        ensures TopBar(ts, PiecesEnd(ts, k))
      {
        assert ps[..k + 1] == qs[..k + 1];
        if k == |qs| - 1 {
          assert qs[..k + 1] == qs;
          CutJoin(front);
        } else {
          var p := PiecesEnd(front, k);
          assert TopBar(front, p);
          assert front[..p] == ts[..p];
        }
      }
    }
  }

  /** The alternatives with `t` appended to the last one. */
  function Extend(ps: seq<seq<string>>, t: string): seq<seq<string>>
    requires ps != []
  {
    ps[..|ps| - 1] + [ps[|ps| - 1] + [t]]
  }

  /** Extending alternatives whose last one is `p` extends `p`. */
  lemma ExtendLast(ps: seq<seq<string>>, p: seq<string>, t: string)
    ensures Extend(ps + [p], t) == ps + [p + [t]]
  {
    assert (ps + [p])[..|ps|] == ps;
  }

  /** With a top-level bar at `j` and none after it, the last alternative
      is everything after `j`. */
  lemma CutAt(ts: seq<string>, j: int)
    requires 0 <= j && j == LastTopBar(ts, |ts| - 1)
    ensures Cut(ts) == Cut(ts[..j]) + [ts[j + 1..]]
  {
  }

  /** Pieces of sequences: replacing the last piece `a[j + 1..]` by
      `b[j + 1..]`, where `b` is `a` with `t` appended, extends it. */
  lemma ExtendAfter(pre: seq<seq<string>>, a: seq<string>, t: string, j: nat)
    requires j < |a|
    ensures pre + [(a + [t])[j + 1..]] == Extend(pre + [a[j + 1..]], t)
  {
    assert (a + [t])[j + 1..] == a[j + 1..] + [t];
    ExtendLast(pre, a[j + 1..], t);
  }

  /** Appending a token after the last top-level bar extends the last alternative. */
  lemma CutExtendAfter(a: seq<string>, t: string, j: int)
    requires 0 <= j && j == LastTopBar(a, |a| - 1) && j == LastTopBar(a + [t], |a|)
    ensures Cut(a + [t]) == Extend(Cut(a), t)
  {
    CutAt(a, j);
    CutAt(a + [t], j);
    assert (a + [t])[..j] == a[..j];
    ExtendAfter(Cut(a[..j]), a, t, j);
  }

  /** Reading one more token that is not a top-level bar extends the last alternative. */
  lemma CutExtend(ts: seq<string>, i: nat)
    requires i < |ts| && !TopBar(ts, i)
    ensures Cut(ts[..i + 1]) == Extend(Cut(ts[..i]), ts[i])
  {
    var a, b := ts[..i], ts[..i + 1];
    assert b == a + [ts[i]];
    assert LastTopBar(b, i) == LastTopBar(a, i - 1) by {
      assert b[..i] == a;
      assert !TopBar(b, i);
      SameTopBars(ts, i, i - 1);
    }
    if LastTopBar(a, i - 1) < 0 {
      assert Cut(a) == [] + [a];
      ExtendLast([], a, ts[i]);
    } else {
      CutExtendAfter(a, ts[i], LastTopBar(a, i - 1));
    }
  }

  /** Reading a top-level bar closes the last alternative and starts an empty one. */
  lemma CutAtBar(ts: seq<string>, i: nat)
    requires TopBar(ts, i)
    ensures Cut(ts[..i + 1]) == Cut(ts[..i]) + [[]]
  {
    var b := ts[..i + 1];
    assert b[..i] == ts[..i];
    assert TopBar(b, i);
  }

  /** A prefix and a longer prefix agree on the top-level bars they share. */
  lemma {:induction false} SameTopBars(ts: seq<string>, i: nat, k: int)
    requires i < |ts| && -1 <= k < i
    ensures LastTopBar(ts[..i + 1], k) == LastTopBar(ts[..i], k)
    decreases k + 1
  {
    var a, b := ts[..i], ts[..i + 1];
    if k >= 0 {
      assert b[..k] == a[..k];
      assert TopBar(b, k) == TopBar(a, k);
      SameTopBars(ts, i, k - 1);
    }
  }

  /** The state of `splitUnion`'s scan after `i` tokens: the depth so far,
      and the alternatives closed so far followed by the one being read. */
  predicate Splitting(inner: seq<string>, i: int, level: int, pieces: seq<seq<string>>, tokBuffer: seq<string>)
  {
    && 0 <= i <= |inner|
    && level == Nesting(inner[..i], "(", ")")
    && Cut(inner[..i]) == pieces + [tokBuffer]
  }

  /** A bar at depth zero closes the alternative being read. */
  lemma BarStep(inner: seq<string>, i: int, level: int, pieces: seq<seq<string>>, tokBuffer: seq<string>)
    requires Splitting(inner, i, level, pieces, tokBuffer) && i < |inner|
    requires level == 0 && inner[i] == "|"
    ensures Splitting(inner, i + 1, level, pieces + [tokBuffer], [])
  {
    NestingNext(inner, i, "(", ")");
    CutAtBar(inner, i);
  }

  /** Any other token joins the alternative being read. */
  lemma TokenStep(inner: seq<string>, i: int, level: int, next: int, pieces: seq<seq<string>>, tokBuffer: seq<string>)
    requires Splitting(inner, i, level, pieces, tokBuffer) && i < |inner|
    requires next == level + Step(inner[i], "(", ")") && !(next == 0 && inner[i] == "|")
    ensures Splitting(inner, i + 1, next, pieces, tokBuffer + [inner[i]])
  {
    NestingNext(inner, i, "(", ")");
    CutExtend(inner, i);
    ExtendLast(pieces, tokBuffer, inner[i]);
  }

  /** `splitUnion`'s scan of the tokens between the parentheses: the
      alternatives it hands to `splitConcatenation`, in order. */
  method SplitUnion(regex: seq<string>) returns (pieces: seq<seq<string>>)
    requires 2 <= |regex|
    ensures pieces == Cut(regex[1..|regex| - 1])
  {
    var inner := regex[1..|regex| - 1];
    var tokBuffer: seq<string> := [];
    pieces := [];
    var level := 0;
    assert inner[..0] == [];
    for i := 0 to |inner|
      invariant Splitting(inner, i, level, pieces, tokBuffer)
    {
      var token := inner[i];
      var before := level;
      if token == "(" {
        level := level + 1;
      } else if token == ")" {
        level := level - 1;
      }
      if level == 0 && token == "|" {
        BarStep(inner, i, level, pieces, tokBuffer);
        pieces := pieces + [tokBuffer];
        tokBuffer := [];
      } else {
        TokenStep(inner, i, before, level, pieces, tokBuffer);
        tokBuffer := tokBuffer + [token];
      }
    }
    assert inner[..|inner|] == inner;
    pieces := pieces + [tokBuffer];
  }
}
