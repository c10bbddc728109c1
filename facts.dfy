/** What each construct of regox.go promises, stated about `Matcher.Eval`
    and proved from its definition. */
module MatcherFacts {
  import opened Matcher

  /** `atom(s)` succeeds, covering `s` and capturing nothing, exactly when
      `s` is a prefix of the input; so `atom("")` succeeds everywhere. */
  lemma AtomIff(s: string, input: string)
    ensures Eval(Atom(s), input).success <==> s <= input
    ensures Eval(Atom(s), input).success ==> Eval(Atom(s), input) == Success([], s)
    ensures Eval(Atom(""), input) == Success([], "")
  {
    assert input[..0] == "";
  }

  /** The one-character classes. */
  predicate IsCharClass(n: Node)
  {
    n.Word? || n.Digit? || n.AnyChar? || n.Backslash? || n.Space? || n.Tab? || n.InRange?
  }

  /** The characters a one-character class accepts. */
  predicate Accepts(n: Node, c: char)
    requires IsCharClass(n)
  {
    match n
    case Word => 'A' <= c <= 'z'
    case Digit => '0' <= c <= '9'
    case AnyChar => true
    case Backslash => c == '\\'
    case Space => c == '\t' || c == '\r' || c == ' ' || c == '\n'
    case Tab => c == '\t'
    case InRange(lo, hi) => lo <= c <= hi
  }

  /** A one-character class fails on "" and otherwise consumes exactly the
      first character, capturing nothing, iff it accepts that character. */
  lemma CharClass(n: Node, input: string)
    requires IsCharClass(n)
    ensures Eval(n, input) ==
      if input != "" && Accepts(n, input[0]) then Success([], input[..1]) else Failure()
  {
  }

  /** `negate(c)` consumes one character iff the input is not empty and `c` fails on it. */
  lemma NegateIff(c: Node, input: string)
    ensures Eval(Negate(c), input).success <==> input != "" && !Eval(c, input).success
    ensures Eval(Negate(c), input).success ==> Eval(Negate(c), input) == Success([], input[..1])
  {
  }

  /** Some member of the set from index `i` on succeeds. */
  lemma {:induction false} AnyMemberIff(n: Node, i: nat, input: string)
    requires n.Set? && i <= |n.members|
    ensures AnyMember(n, i, input) <==> exists k :: i <= k < |n.members| && Eval(n.members[k], input).success
    decreases |n.members| - i
  {
    if i < |n.members| {
      AnyMemberIff(n, i + 1, input);
      if Eval(n.members[i], input).success {
        assert AnyMember(n, i, input);
      } else {
        forall k | i <= k < |n.members| && Eval(n.members[k], input).success
          ensures i + 1 <= k
        {
        }
      }
    }
  }

  /** `set(cs)` consumes one character iff the input is not empty and some
      member succeeds on it; the member's own coverage plays no part. */
  lemma SetIff(members: seq<Node>, input: string)
    ensures Eval(Set(members), input).success <==>
      input != "" && exists k :: 0 <= k < |members| && Eval(members[k], input).success
    ensures Eval(Set(members), input).success ==> Eval(Set(members), input) == Success([], input[..1])
  {
    AnyMemberIff(Set(members), 0, input);
  }

  /** `option(c)` never fails: it is `c`'s outcome when `c` succeeds and an
      empty success otherwise. */
  lemma OptionNeverFails(c: Node, input: string)
    ensures Eval(Optional(c), input).success
    ensures Eval(c, input).success ==> Eval(Optional(c), input) == Eval(c, input)
    ensures !Eval(c, input).success ==> Eval(Optional(c), input) == Success([], "")
  {
  }

  /** `capture(c)` fails iff `c` fails; otherwise it covers what `c` covers
      and puts that coverage before `c`'s own captures. */
  lemma CaptureShape(c: Node, input: string)
    ensures Eval(Capture(c), input).success == Eval(c, input).success
    ensures Eval(c, input).success ==>
      && Eval(Capture(c), input).coverage == Eval(c, input).coverage
      && Eval(Capture(c), input).captures == [Eval(c, input).coverage] + Eval(c, input).captures
  {
  }

  /** `b` more repetitions of the child of `n` on what the outcome `r` left, joined to `r`. */
  function TimesAfter(n: Node, input: string, r: RegResult, b: nat): RegResult
    requires n.Repeat? && WellShaped(r, input)
  {
    if r.success then After(r.captures, r.coverage, Times(n, input[|r.coverage|..], b)) else Failure()
  }

  /** `a + b` repetitions are `a` repetitions followed by `b` more on what
      the first `a` left. */
  lemma {:induction false} TimesAdd(n: Node, input: string, a: nat, b: nat)
    requires n.Repeat?
    ensures Times(n, input, a + b) == TimesAfter(n, input, Times(n, input, a), b)
    decreases a
  {
    if a == 0 {
      assert input[|""|..] == input;
      AfterNothing(Times(n, input, b));
    } else {
      var first := Eval(n.child, input);
      if first.success {
        var rest := input[|first.coverage|..];
        TimesAdd(n, rest, a - 1, b);
        var mid := Times(n, rest, a - 1);
        var whole := Times(n, rest, a - 1 + b);
        assert Times(n, input, a + b) == After(first.captures, first.coverage, whole);
        if mid.success {
          assert Times(n, input, a) == Success(first.captures + mid.captures, first.coverage + mid.coverage);
          var tail := Times(n, rest[|mid.coverage|..], b);
          assert whole == After(mid.captures, mid.coverage, tail);
          assert rest[|mid.coverage|..] == input[|first.coverage + mid.coverage|..];
          AfterAfter(first.captures, first.coverage, mid.captures, mid.coverage, tail);
        } else {
          assert Times(n, input, a) == Failure();
        }
      }
    }
  }

  /** Once `rangeRepeat`'s greedy loop stops short of its cap, the child
      fails on what is left: it never gives back a repetition. */
  lemma {:induction false} GreedyMaximal(n: Node, input: string, k: nat)
    requires n.RangeRepeat?
    ensures Greedy(n, input, k).count < k ==>
      !Eval(n.child, input[|Greedy(n, input, k).coverage|..]).success
    decreases k
  {
    if k > 0 {
      var first := Eval(n.child, input);
      if first.success {
        var rest := input[|first.coverage|..];
        GreedyMaximal(n, rest, k - 1);
        var t := Greedy(n, rest, k - 1);
        assert rest[|t.coverage|..] == input[|first.coverage + t.coverage|..];
      } else {
        assert input[|""|..] == input;
      }
    }
  }

  /** What `rangeRepeat`'s greedy loop gathers is exactly what `repeat` of
      the same child gathers, as many times as the loop ran. */
  lemma {:induction false} GreedyIsTimes(n: Node, m: Node, input: string, k: nat)
    requires n.RangeRepeat? && m.Repeat? && m.child == n.child
    ensures Times(m, input, Greedy(n, input, k).count) ==
      Success(Greedy(n, input, k).captures, Greedy(n, input, k).coverage)
    decreases k
  {
    var t := Greedy(n, input, k);
    if k == 0 || !Eval(n.child, input).success {
      assert t.count == 0;
    } else {
      var first := Eval(n.child, input);
      var rest := input[|first.coverage|..];
      GreedyIsTimes(n, m, rest, k - 1);
      var u := Greedy(n, rest, k - 1);
      assert t == Tally(u.count + 1, first.captures + u.captures, first.coverage + u.coverage);
      assert Times(m, input, u.count + 1) == After(first.captures, first.coverage, Times(m, rest, u.count));
    }
  }

  /** `repeat` is its child applied `reps` times. */
  lemma EvalRepeat(m: Node, input: string)
    requires m.Repeat?
    ensures Eval(m, input) == Times(m, input, Count(m.reps))
  {
  }

  /** `rangeRepeat` is its greedy loop judged against the bounds. */
  lemma EvalRangeRepeat(n: Node, input: string)
    requires n.RangeRepeat?
    ensures Eval(n, input) == WithinBounds(n, Greedy(n, input, RangeCap(n.maxReps, |input|)))
  {
  }

  /** `rangeRepeat` succeeds iff the greedy count lies within the bounds,
      and then it is `repeat` of the same child, count times. */
  lemma RangeRepeatIsRepeat(n: Node, input: string)
    requires n.RangeRepeat?
    ensures Eval(n, input).success <==>
      && Greedy(n, input, RangeCap(n.maxReps, |input|)).count >= n.minReps
      && (n.maxReps == -1 || Greedy(n, input, RangeCap(n.maxReps, |input|)).count <= n.maxReps)
    ensures Eval(n, input).success ==>
      Eval(n, input) == Eval(Repeat(n.child, Greedy(n, input, RangeCap(n.maxReps, |input|)).count), input)
  {
    var t := Greedy(n, input, RangeCap(n.maxReps, |input|));
    EvalRangeRepeat(n, input);
    var m := Repeat(n.child, t.count);
    GreedyIsTimes(n, m, input, RangeCap(n.maxReps, |input|));
    EvalRepeat(m, input);
  }

  /** `star` and `plus` run the same loop: it depends only on the child. */
  lemma {:induction false} RunChildOnly(n: Node, m: Node, rest: string)
    requires (n.Star? || n.Plus?) && (m.Star? || m.Plus?) && n.child == m.child
    ensures GreedyRun(n, rest) == GreedyRun(m, rest)
    decreases |rest|
  {
    if rest != "" {
      var first := Eval(n.child, rest);
      if first.success && first.coverage != "" {
        RunChildOnly(n, m, rest[|first.coverage|..]);
      }
    }
  }

  /** The run stops only at the end of the input, at a failure of the
      child, or after a success that covered nothing. */
  lemma {:induction false} RunMaximal(n: Node, rest: string)
    requires n.Star? || n.Plus?
    ensures |GreedyRun(n, rest).coverage| < |rest| ==>
      var next := Eval(n.child, rest[|GreedyRun(n, rest).coverage|..]);
      !next.success || next.coverage == ""
    decreases |rest|
  {
    if rest != "" {
      var first := Eval(n.child, rest);
      if first.success && first.coverage != "" {
        var more := rest[|first.coverage|..];
        RunMaximal(n, more);
        assert more[|GreedyRun(n, more).coverage|..] == rest[|first.coverage + GreedyRun(n, more).coverage|..];
      } else {
        assert rest[|""|..] == rest;
      }
    }
  }

  /** `star` never fails and never captures. */
  lemma StarShape(c: Node, input: string)
    ensures Eval(Star(c), input).success && Eval(Star(c), input).captures == []
    ensures Eval(Star(c), input).coverage == GreedyRun(Star(c), input).coverage
  {
  }

  /** `plus(c)` succeeds iff the input is not empty and `c` succeeds at its
      front, and then it covers what `star(c)` covers. */
  lemma PlusIff(c: Node, input: string)
    ensures Eval(Plus(c), input).success <==> input != "" && Eval(c, input).success
    ensures Eval(Plus(c), input).success ==> Eval(Plus(c), input).coverage == Eval(Star(c), input).coverage
  {
    RunChildOnly(Plus(c), Star(c), input);
  }

  /** `concat()` fails on every input, "" included. */
  lemma ConcatNothing(input: string)
    ensures Eval(Concat([]), input) == Failure()
  {
  }

  /** The parts of `Concat(ps)` from `i + 1` on are those of `Concat(ps[1..])` from `i` on. */
  lemma {:induction false} SequenceShift(ps: seq<Node>, i: nat, input: string)
    requires |ps| > 0 && i < |ps|
    ensures Sequence(Concat(ps), i + 1, input) == Sequence(Concat(ps[1..]), i, input)
    decreases |ps| - i
  {
    if i + 1 < |ps| {
      assert ps[i + 1] == ps[1..][i];
      var first := Eval(ps[i + 1], input);
      if first.success {
        SequenceShift(ps, i + 1, input[|first.coverage|..]);
      }
    }
  }

  /** A non-empty `concat` is its sequence of parts from the first on. */
  lemma EvalConcat(n: Node, input: string)
    requires n.Concat? && |n.parts| > 0
    ensures Eval(n, input) == Sequence(n, 0, input)
  {
  }

  /** `concat(a, rest...)` applies `a` first and aborts if it fails;
      otherwise the rest runs on what `a` left and the coverages and
      captures are joined in order. */
  lemma ConcatCons(a: Node, rest: seq<Node>, input: string)
    requires rest != []
    ensures var first := Eval(a, input);
      Eval(Concat([a] + rest), input) ==
        if first.success then After(first.captures, first.coverage, Eval(Concat(rest), input[|first.coverage|..]))
        else Failure()
  {
    var ps := [a] + rest;
    var n := Concat(ps);
    assert ps[1..] == rest && ps[0] == a;
    EvalConcat(n, input);
    var first := Eval(a, input);
    if first.success {
      var left := input[|first.coverage|..];
      SequenceShift(ps, 0, left);
      var r := Sequence(n, 1, left);
      EvalConcat(Concat(rest), left);
      assert Sequence(n, 0, input) == (if r.success then After(first.captures, first.coverage, r) else Failure());
    }
  }

  /** `concat(a)` is `a`. */
  lemma ConcatSingle(a: Node, input: string)
    ensures Eval(Concat([a]), input) == Eval(a, input)
  {
    var n := Concat([a]);
    assert n.parts[0] == a;
    assert Eval(n, input) == Sequence(n, 0, input);
    var first := Eval(a, input);
    if first.success {
      assert Sequence(n, 1, input[|first.coverage|..]) == Success([], "");
      assert first.captures + [] == first.captures;
      assert first.coverage + "" == first.coverage;
    }
  }

  /** An alternative of the union from index `i` on. */
  predicate WinsAt(n: Node, i: nat, k: nat, input: string)
    requires n.Union? && i <= k < |n.alternatives|
  {
    && Eval(n.alternatives[k], input).success
    && forall j :: i <= j < k ==> !Eval(n.alternatives[j], input).success
  }

  /** The union from index `i` on is decided by the first alternative that
      succeeds; its coverage becomes the last capture. */
  lemma {:induction false} FirstSuccessWins(n: Node, i: nat, input: string)
    requires n.Union? && i <= |n.alternatives|
    ensures FirstSuccess(n, i, input).success <==>
      exists k :: i <= k < |n.alternatives| && Eval(n.alternatives[k], input).success
    ensures forall k :: i <= k < |n.alternatives| && WinsAt(n, i, k, input) ==>
      var r := Eval(n.alternatives[k], input);
      FirstSuccess(n, i, input) == Success(r.captures + [r.coverage], r.coverage)
    decreases |n.alternatives| - i
  {
    if i < |n.alternatives| {
      FirstSuccessWins(n, i + 1, input);
      forall k | i <= k < |n.alternatives| && WinsAt(n, i, k, input)
        ensures FirstSuccess(n, i, input) ==
          Success(Eval(n.alternatives[k], input).captures + [Eval(n.alternatives[k], input).coverage],
                  Eval(n.alternatives[k], input).coverage)
      {
        if k > i {
          assert WinsAt(n, i + 1, k, input);
        }
      }
    }
  }

  /** `union` of `atom("gaben")` and `atom("heidi")` on "gabenheidi" covers "gaben". */
  lemma UnionExample()
    ensures Eval(Union([Atom("gaben"), Atom("heidi")]), "gabenheidi") == Success(["gaben"], "gaben")
  {
    var n := Union([Atom("gaben"), Atom("heidi")]);
    assert "gabenheidi"[..5] == "gaben";
    assert Eval(n.alternatives[0], "gabenheidi") == Success([], "gaben");
  }

  /** `rangeRepeat(atom("a"), ...)` on a run of 'a's takes as many as its cap allows. */
  lemma {:induction false} GreedyOverRun(n: Node, s: string, k: nat)
    requires n.RangeRepeat? && n.child == Atom("a")
    requires forall i :: 0 <= i < |s| ==> s[i] == 'a'
    ensures k <= |s| ==> Greedy(n, s, k) == Tally(k, [], s[..k])
    ensures k > |s| ==> Greedy(n, s, k) == Tally(|s|, [], s)
    decreases k
  {
    if k > 0 && s != "" {
      assert Eval(Atom("a"), s) == Success([], "a") by {
        assert s[..1] == "a";
      }
      GreedyOverRun(n, s[1..], k - 1);
      if k <= |s| {
        assert "a" + s[1..][..k - 1] == s[..k];
      } else {
        assert "a" + s[1..] == s;
      }
    }
  }

  /** `rangeRepeat(atom("a"), 2, 4)` on four or more 'a's covers four of them. */
  lemma RangeRepeatOverRun(n: Node, s: string)
    requires n == RangeRepeat(Atom("a"), 2, 4)
    requires |s| >= 4 && forall i :: 0 <= i < |s| ==> s[i] == 'a'
    ensures Eval(n, s) == Success([], s[..4])
  {
    GreedyOverRun(n, s, 4);
    EvalRangeRepeat(n, s);
  }

  /** `rangeRepeat(atom("a"), 2, 4)` on "aaaaa" stops after four and covers "aaaa". */
  lemma RangeRepeatExample(n: Node, s: string)
    requires n == RangeRepeat(Atom("a"), 2, 4) && s == "aaaaa"
    ensures Eval(n, s) == Success([], "aaaa")
  {
    RangeRepeatOverRun(n, s);
    assert s[..4] == "aaaa";
  }

}
