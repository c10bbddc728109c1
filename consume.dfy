/** The consumers of regox.go as they run: one method per node kind, with
    the source's loops over `coverage`, `captures` and a counter. Each is
    proved to return exactly what `Matcher.Eval` specifies. */
module Consumers {
  import opened Matcher

  /** Applies node `n` to `input` (calling the `consumer` closure). */
  method Consume(n: Node, input: string) returns (r: RegResult)
    ensures r == Eval(n, input)
    decreases n, 1
  {
    match n
    case Negate(_) =>
      r := ConsumeNegate(n, input);
    case Set(_) =>
      r := ConsumeSet(n, input);
    case Optional(_) =>
      r := ConsumeOptional(n, input);
    case Repeat(_, _) =>
      r := ConsumeRepeat(n, input);
    case RangeRepeat(_, _, _) =>
      r := ConsumeRangeRepeat(n, input);
    case Star(_) =>
      r := ConsumeStar(n, input);
    case Plus(_) =>
      r := ConsumePlus(n, input);
    case Concat(_) =>
      r := ConsumeConcat(n, input);
    case Union(_) =>
      r := ConsumeUnion(n, input);
    case Capture(_) =>
      r := ConsumeCapture(n, input);
    case _ =>
      // atom and the one-character classes are single expressions
      r := Eval(n, input);
  }

  /** `negate`: one character, when the child fails on the input. */
  method ConsumeNegate(n: Node, input: string) returns (r: RegResult)
    requires n.Negate?
    ensures r == Eval(n, input)
    decreases n, 0
  {
    if input == "" {
      return Failure();
    }
    var res := Consume(n.child, input);
    if !res.success {
      return Success([], input[..1]);
    }
    return Failure();
  }

  /** `option`: the child's outcome, or an empty success when it fails. */
  method ConsumeOptional(n: Node, input: string) returns (r: RegResult)
    requires n.Optional?
    ensures r == Eval(n, input)
    decreases n, 0
  {
    var res := Consume(n.child, input);
    if !res.success {
      return Success([], "");
    }
    return Success(res.captures, res.coverage);
  }

  /** `capture`: the child's outcome with its coverage put before its captures. */
  method ConsumeCapture(n: Node, input: string) returns (r: RegResult)
    requires n.Capture?
    ensures r == Eval(n, input)
    decreases n, 0
  {
    var res := Consume(n.child, input);
    if !res.success {
      return Failure();
    }
    return Success([res.coverage] + res.captures, res.coverage);
  }

  /** `set`: the first member that succeeds decides; its coverage is ignored. */
  method ConsumeSet(n: Node, input: string) returns (r: RegResult)
    requires n.Set?
    ensures r == Eval(n, input)
    decreases n, 0
  {
    if input == "" {
      return Failure();
    }
    for i := 0 to |n.members|
      invariant AnyMember(n, 0, input) == AnyMember(n, i, input)
    {
      var res := Consume(n.members[i], input);
      if res.success {
        return Success([], input[..1]);
      }
    }
    return Failure();
  }

  /** `repeat`: exactly `reps` applications, failing at the first failure. */
  method ConsumeRepeat(n: Node, input: string) returns (r: RegResult)
    requires n.Repeat?
    ensures r == Times(n, input, Count(n.reps))
    decreases n, 0
  {
    var coverage := "";
    var captures: seq<string> := [];
    var reps := n.reps;
    ghost var total := Times(n, input, Count(reps));
    AfterNothing(total);
    assert input[|coverage|..] == input;
    while reps > 0
      invariant coverage <= input
      invariant total == After(captures, coverage, Times(n, input[|coverage|..], Count(reps)))
    {
      var res := Consume(n.child, input[|coverage|..]);
      TimesStep(n, input[|coverage|..], Count(reps), res);
      if !res.success {
        return Failure();
      }
      AfterAfter(captures, coverage, res.captures, res.coverage, Times(n, input[|coverage|..][|res.coverage|..], Count(reps) - 1));
      Advance(coverage, res.coverage, input);
      coverage := coverage + res.coverage;
      captures := captures + res.captures;
      reps := reps - 1;
    }
    assert Times(n, input[|coverage|..], Count(reps)) == Success([], "");
    AfterNothing(Success(captures, coverage));
    return Success(captures, coverage);
  }

  /** Moving past `a` and then past `b` is moving past `a + b`. */
  lemma Advance(a: string, b: string, input: string)
    requires a <= input && b <= input[|a|..]
    ensures a + b <= input && input[|a|..][|b|..] == input[|a + b|..]
  {
    PrefixThen(a, b, input);
  }

  /** `rangeRepeat`: greedy applications up to the cap, stopping at the
      first failure; succeeds iff the count lies within the bounds. */
  method ConsumeRangeRepeat(n: Node, input: string) returns (r: RegResult)
    requires n.RangeRepeat?
    ensures r == WithinBounds(n, Greedy(n, input, RangeCap(n.maxReps, |input|)))
    decreases n, 0
  {
    var coverage := "";
    var captures: seq<string> := [];
    var repsComplete: nat := 0;
    var reps := n.maxReps;
    if reps == -1 {
      reps := |input|;
    }
    ghost var total := Greedy(n, input, RangeCap(n.maxReps, |input|));
    GreedyStart(n, input, reps, total);
    while reps > 0
      invariant |coverage| <= |input|
      invariant Gathering(n, input, total, Tally(repsComplete, captures, coverage), Count(reps))
      decreases reps
    {
      var res := Consume(n.child, input[|coverage|..]);
      ghost var done, left := Tally(repsComplete, captures, coverage), reps;
      if !res.success {
        GreedyStop(n, input, Count(reps), total, done, res);
        break;
      }
      coverage := coverage + res.coverage;
      repsComplete := repsComplete + 1;
      captures := captures + res.captures;
      reps := reps - 1;
      GreedyAdvance(n, input, left, total, done, res, Tally(repsComplete, captures, coverage), reps);
    }
    if reps <= 0 {
      GreedyStop(n, input, 0, total, Tally(repsComplete, captures, coverage), Failure());
    }
    assert total == Tally(repsComplete, captures, coverage);
    if repsComplete >= n.minReps && (n.maxReps == -1 || repsComplete <= n.maxReps) {
      return Success(captures, coverage);
    }
    return Failure();
  }

  /** The loop invariant of `rangeRepeat`: `done` has been gathered, and
      up to `k` more applications on what is left complete `total`. */
  predicate Gathering(n: Node, input: string, total: Tally, done: Tally, k: nat)
    requires n.RangeRepeat?
  {
    |done.coverage| <= |input| && total == Add(done, Greedy(n, input[|done.coverage|..], k))
  }

  /** Before its loop, `rangeRepeat` has gathered nothing and has its whole count ahead. */
  lemma GreedyStart(n: Node, input: string, reps: int, total: Tally)
    requires n.RangeRepeat? && reps == (if n.maxReps == -1 then |input| else n.maxReps)
    requires total == Greedy(n, input, RangeCap(n.maxReps, |input|))
    ensures Gathering(n, input, total, Tally(0, [], ""), Count(reps))
  {
    assert Count(reps) == RangeCap(n.maxReps, |input|);
    assert input[|""|..] == input;
    AddZero(total);
  }

  /** The greedy loop of `rangeRepeat` gathers nothing more once its count
      is spent or the child fails. */
  lemma GreedyStop(n: Node, input: string, k: nat, total: Tally, done: Tally, res: RegResult)
    requires n.RangeRepeat? && Gathering(n, input, total, done, k)
    requires k == 0 || (res == Eval(n.child, input[|done.coverage|..]) && !res.success)
    ensures total == done
  {
    AddEmpty(done);
  }

  /** The invariant of `rangeRepeat`'s loop survives one successful
      application, which leaves `next` gathered and `reps` to go. */
  lemma GreedyAdvance(n: Node, input: string, left: int, total: Tally, done: Tally, res: RegResult,
                      next: Tally, reps: int)
    requires n.RangeRepeat? && left > 0 && Gathering(n, input, total, done, Count(left))
    requires res == Eval(n.child, input[|done.coverage|..]) && res.success
    requires next == Tally(done.count + 1, done.captures + res.captures, done.coverage + res.coverage)
    requires reps == left - 1
    ensures Gathering(n, input, total, next, Count(reps))
  {
    var rest := input[|done.coverage|..];
    var k := Count(left);
    GreedyStep(n, rest, k, res);
    assert rest[|res.coverage|..] == input[|next.coverage|..];
    AddAssoc(done, Tally(1, res.captures, res.coverage), Greedy(n, rest[|res.coverage|..], k - 1));
  }

  /** Joins two tallies, the first gathered before the second. */
  function Add(a: Tally, b: Tally): Tally
  {
    Tally(a.count + b.count, a.captures + b.captures, a.coverage + b.coverage)
  }

  lemma AddAssoc(a: Tally, b: Tally, c: Tally)
    ensures Add(Add(a, b), c) == Add(a, Add(b, c))
  {
    assert (a.captures + b.captures) + c.captures == a.captures + (b.captures + c.captures);
    assert (a.coverage + b.coverage) + c.coverage == a.coverage + (b.coverage + c.coverage);
  }

  lemma AddZero(a: Tally)
    ensures Add(Tally(0, [], ""), a) == a
  {
  }

  lemma AddEmpty(a: Tally)
    ensures Add(a, Tally(0, [], "")) == a
  {
  }

  /** One step of the greedy loop of `rangeRepeat`. */
  lemma GreedyStep(n: Node, input: string, k: nat, first: RegResult)
    requires n.RangeRepeat? && k > 0 && first == Eval(n.child, input)
    ensures !first.success ==> Greedy(n, input, k) == Tally(0, [], "")
    ensures first.success ==> Greedy(n, input, k) == Add(Tally(1, first.captures, first.coverage), Greedy(n, input[|first.coverage|..], k - 1))
  {
  }

  /** One step of the loop shared by `star` and `plus`. */
  lemma RunStep(n: Node, rest: string, first: RegResult)
    requires (n.Star? || n.Plus?) && rest != "" && first == Eval(n.child, rest)
    ensures !first.success ==> GreedyRun(n, rest) == Tally(0, [], "")
    ensures first.success && first.coverage == "" ==> GreedyRun(n, rest) == Tally(1, first.captures, "")
    ensures first.success && first.coverage != "" ==>
      GreedyRun(n, rest) == Add(Tally(1, first.captures, first.coverage), GreedyRun(n, rest[|first.coverage|..]))
  {
  }

  /** `star`: the greedy run; its captures are dropped. */
  method ConsumeStar(n: Node, input: string) returns (r: RegResult)
    requires n.Star?
    ensures r == Success([], GreedyRun(n, input).coverage)
    decreases n, 0
  {
    var instances: nat := 0;
    var index := 0;
    var coverage := "";
    var captures: seq<string> := [];
    // what the applications captured; the source drops it
    ghost var dropped: seq<string> := [];
    ghost var total := GreedyRun(n, input);
    RunBegin(n, input, total);
    while index < |input|
      invariant Running(n, input, total, Tally(instances, dropped, coverage), index)
      decreases |input| - index
    {
      var res := Consume(n.child, input[index..]);
      ghost var done, at := Tally(instances, dropped, coverage), index;
      if !res.success {
        RunStop(n, input, index, total, done, res);
        break;
      }
      instances := instances + 1;
      coverage := coverage + res.coverage;
      dropped := dropped + res.captures;
      index := index + |res.coverage|;
      RunAdvance(n, input, at, total, done, res, Tally(instances, dropped, coverage), index);
      if res.coverage == "" {
        // the source would apply the child here forever
        break;
      }
    }
    if index == |input| {
      RunStop(n, input, index, total, Tally(instances, dropped, coverage), Failure());
    }
    return Success(captures, coverage);
  }

  /** `plus`: the same run, keeping every application's captures; fails
      when nothing was applied. */
  method ConsumePlus(n: Node, input: string) returns (r: RegResult)
    requires n.Plus?
    ensures r == AtLeastOnce(GreedyRun(n, input))
    decreases n, 0
  {
    var instances: nat := 0;
    var index := 0;
    var coverage := "";
    var captures: seq<string> := [];
    ghost var total := GreedyRun(n, input);
    RunBegin(n, input, total);
    while index < |input|
      invariant Running(n, input, total, Tally(instances, captures, coverage), index)
      decreases |input| - index
    {
      var res := Consume(n.child, input[index..]);
      ghost var done, at := Tally(instances, captures, coverage), index;
      if !res.success {
        RunStop(n, input, index, total, done, res);
        break;
      }
      instances := instances + 1;
      coverage := coverage + res.coverage;
      captures := captures + res.captures;
      index := index + |res.coverage|;
      RunAdvance(n, input, at, total, done, res, Tally(instances, captures, coverage), index);
      if res.coverage == "" {
        // the source would apply the child here forever
        break;
      }
    }
    if index == |input| {
      RunStop(n, input, index, total, Tally(instances, captures, coverage), Failure());
    }
    if instances > 0 {
      return Success(captures, coverage);
    }
    return Failure();
  }

  /** The loop invariant of `star` and `plus`: `done` has been gathered up
      to `index`, and the rest of the run from there completes `total`. */
  predicate Running(n: Node, input: string, total: Tally, done: Tally, index: int)
    requires n.Star? || n.Plus?
  {
    0 <= index == |done.coverage| <= |input| && total == Add(done, GreedyRun(n, input[index..]))
  }

  lemma RunBegin(n: Node, input: string, total: Tally)
    requires (n.Star? || n.Plus?) && total == GreedyRun(n, input)
    ensures Running(n, input, total, Tally(0, [], ""), 0)
  {
    assert input[0..] == input;
    AddZero(total);
  }

  lemma RunEnd(n: Node, rest: string)
    requires (n.Star? || n.Plus?) && rest == ""
    ensures GreedyRun(n, rest) == Tally(0, [], "")
  {
  }

  /** `star` and `plus` gather nothing more at the end of the input or after a failure. */
  lemma RunStop(n: Node, input: string, index: int, total: Tally, done: Tally, res: RegResult)
    requires (n.Star? || n.Plus?) && Running(n, input, total, done, index)
    requires index == |input| || (res == Eval(n.child, input[index..]) && !res.success)
    ensures total == done
  {
    if index == |input| {
      RunEnd(n, input[index..]);
    } else {
      RunStep(n, input[index..], res);
    }
    AddEmpty(done);
  }

  /** The invariant of the loop of `star` and `plus` survives one successful
      application, which leaves `next` gathered up to `index`; a success
      that covers nothing ends the run. */
  lemma RunAdvance(n: Node, input: string, at: int, total: Tally, done: Tally, res: RegResult,
                   next: Tally, index: int)
    requires (n.Star? || n.Plus?) && Running(n, input, total, done, at) && at < |input|
    requires res == Eval(n.child, input[at..]) && res.success
    requires next == Tally(done.count + 1, done.captures + res.captures, done.coverage + res.coverage)
    requires index == at + |res.coverage|
    ensures res.coverage != "" ==> Running(n, input, total, next, index)
    ensures res.coverage == "" ==> total == next
  {
    var rest := input[at..];
    RunStep(n, rest, res);
    assert rest[|res.coverage|..] == input[index..];
    if res.coverage != "" {
      AddAssoc(done, Tally(1, res.captures, res.coverage), GreedyRun(n, rest[|res.coverage|..]));
    } else {
      assert done.coverage + "" == done.coverage;
    }
  }

  /** One step of `concat`'s loop. */
  lemma SequenceStep(n: Node, i: nat, input: string, first: RegResult)
    requires n.Concat? && i < |n.parts| && first == Eval(n.parts[i], input)
    ensures !first.success ==> Sequence(n, i, input) == Failure()
    ensures first.success ==> Sequence(n, i, input) == After(first.captures, first.coverage, Sequence(n, i + 1, input[|first.coverage|..]))
  {
  }

  /** `concat`: the parts in order over the shrinking input, aborting at the
      first failure; no parts at all is a failure. */
  method ConsumeConcat(n: Node, input: string) returns (r: RegResult)
    requires n.Concat?
    ensures r == if |n.parts| == 0 then Failure() else Sequence(n, 0, input)
    decreases n, 0
  {
    var coverage := "";
    var captures: seq<string> := [];
    var bigstr := input;
    if |n.parts| == 0 {
      return Failure();
    }
    ghost var total := Sequence(n, 0, input);
    for i := 0 to |n.parts|
      invariant coverage <= input && bigstr == input[|coverage|..]
      invariant total == After(captures, coverage, Sequence(n, i, bigstr))
    {
      var res := Consume(n.parts[i], bigstr);
      SequenceStep(n, i, bigstr, res);
      // taken before the success test, as in the source: a failure covers nothing
      bigstr := bigstr[|res.coverage|..];
      if !res.success {
        return Failure();
      }
      AfterAfter(captures, coverage, res.captures, res.coverage, Sequence(n, i + 1, bigstr));
      Advance(coverage, res.coverage, input);
      coverage := coverage + res.coverage;
      captures := captures + res.captures;
    }
    return Success(captures, coverage);
  }

  /** `union`: the first alternative that succeeds wins, and its coverage is
      appended to its captures. */
  method ConsumeUnion(n: Node, input: string) returns (r: RegResult)
    requires n.Union?
    ensures r == FirstSuccess(n, 0, input)
    decreases n, 0
  {
    for i := 0 to |n.alternatives|
      invariant FirstSuccess(n, 0, input) == FirstSuccess(n, i, input)
    {
      var res := Consume(n.alternatives[i], input);
      if res.success {
        return Success(res.captures + [res.coverage], res.coverage);
      }
    }
    return Failure();
  }

  /** One step of `repeat`'s loop. */
  lemma TimesStep(n: Node, input: string, k: nat, first: RegResult)
    requires n.Repeat? && k > 0 && first == Eval(n.child, input)
    ensures !first.success ==> Times(n, input, k) == Failure()
    ensures first.success ==> Times(n, input, k) == After(first.captures, first.coverage, Times(n, input[|first.coverage|..], k - 1))
  {
  }
}
