/** The matcher nodes of the engine (the `consumer` closures of regox.go) as a
    closed datatype with one total evaluator, `Eval`.

    Every node takes the remaining input and returns a `RegResult`. The
    central fact, stated in the contract of `Eval`, is that a failure is
    always exactly `Failure()` and that a success always covers a prefix of
    the input it was given; that is what makes the source's slices
    `input[len(coverage):]` well defined. */
module Matcher {

  /** The outcome of one application of a node (RegResult). */
  datatype RegResult = RegResult(success: bool, captures: seq<string>, coverage: string)

  /** The single failing outcome (`failure()`): no captures, empty coverage. */
  function Failure(): RegResult
  {
    RegResult(false, [], "")
  }

  /** A successful outcome (`result(true, captures, coverage)`). */
  function Success(captures: seq<string>, coverage: string): RegResult
  {
    RegResult(true, captures, coverage)
  }

  /** One parsed construct. `Repeat.reps`, `RangeRepeat.minReps` and
      `RangeRepeat.maxReps` are the source's `int`s; a `maxReps` of -1 means
      "no upper bound". */
  datatype Node =
    | Atom(text: string)
    | Word
    | Digit
    | AnyChar
    | Backslash
    | Space
    | Tab
    | Negate(child: Node)
    | Set(members: seq<Node>)
    | InRange(lower: char, upper: char)
    | Optional(child: Node)
    | Repeat(child: Node, reps: int)
    | RangeRepeat(child: Node, minReps: int, maxReps: int)
    | Star(child: Node)
    | Plus(child: Node)
    | Concat(parts: seq<Node>)
    | Union(alternatives: seq<Node>)
    | Capture(child: Node)

  /** The shape every outcome has. */
  predicate WellShaped(r: RegResult, input: string)
  {
    && (!r.success ==> r == Failure())
    && (r.success ==> r.coverage <= input)
  }

  /** Prefixes the captures and coverage gathered so far to an outcome on the
      rest of the input; a failure stays a failure. */
  function After(captures: seq<string>, coverage: string, r: RegResult): RegResult
  {
    if r.success then Success(captures + r.captures, coverage + r.coverage) else Failure()
  }

  /** An outcome with nothing gathered before it is itself. */
  lemma AfterNothing(r: RegResult)
    requires !r.success ==> r == Failure()
    ensures After([], "", r) == r
  {
  }

  /** Gathering in two steps is gathering the two parts at once. */
  lemma AfterAfter(c1: seq<string>, v1: string, c2: seq<string>, v2: string, r: RegResult)
    ensures After(c1, v1, After(c2, v2, r)) == After(c1 + c2, v1 + v2, r)
  {
    assert c1 + (c2 + r.captures) == (c1 + c2) + r.captures;
    assert v1 + (v2 + r.coverage) == (v1 + v2) + r.coverage;
  }

  /** What a greedy repetition gathered: how many applications succeeded and
      what they captured and covered together. */
  datatype Tally = Tally(count: nat, captures: seq<string>, coverage: string)

  /** A prefix of the input, followed by a prefix of what remains, is a prefix of the input. */
  lemma PrefixThen(a: string, b: string, s: string)
    requires a <= s && b <= s[|a|..]
    ensures a + b <= s
  {
    assert s[..|a| + |b|] == s[..|a|] + s[|a|..][..|b|];
  }

  predicate IsSpaceChar(c: char)
  {
    c in "\t\r \n"
  }

  /** The outcome of applying node `n` to `input`. */
  function Eval(n: Node, input: string): (r: RegResult)
    ensures WellShaped(r, input)
    decreases n, 1
  {
    match n
    case Atom(s) =>
      if |input| < |s| then Failure()
      else if input[..|s|] == s then Success([], s)
      else Failure()
    case Word =>
      if |input| == 0 then Failure()
      else if 'A' <= input[0] <= 'z' then Success([], input[..1])
      else Failure()
    case Digit =>
      if |input| == 0 then Failure()
      else if '0' <= input[0] <= '9' then Success([], input[..1])
      else Failure()
    case AnyChar =>
      if |input| > 0 then Success([], input[..1]) else Failure()
    case Backslash =>
      if input == "" then Failure()
      else if input[0] == '\\' then Success([], input[..1])
      else Failure()
    case Space =>
      if input == "" then Failure()
      else if IsSpaceChar(input[0]) then Success([], input[..1])
      else Failure()
    case Tab =>
      // The source has no empty-input guard here and would index past the end.
      if input == "" then Failure()
      else if input[0] == '\t' then Success([], input[..1])
      else Failure()
    case Negate(c) =>
      if input == "" then Failure()
      else if !Eval(c, input).success then Success([], input[..1])
      else Failure()
    case Set(_) =>
      if input == "" then Failure()
      else if AnyMember(n, 0, input) then Success([], input[..1])
      else Failure()
    case InRange(lo, hi) =>
      if input == "" then Failure()
      else if lo <= input[0] <= hi then Success([], input[..1])
      else Failure()
    case Optional(c) =>
      var res := Eval(c, input);
      if !res.success then Success([], "") else Success(res.captures, res.coverage)
    case Repeat(_, reps) =>
      Times(n, input, Count(reps))
    case RangeRepeat(_, _, maxReps) =>
      WithinBounds(n, Greedy(n, input, RangeCap(maxReps, |input|)))
    case Star(_) =>
      Success([], GreedyRun(n, input).coverage)
    case Plus(_) =>
      AtLeastOnce(GreedyRun(n, input))
    case Concat(parts) =>
      if |parts| == 0 then Failure() else Sequence(n, 0, input)
    case Union(_) =>
      FirstSuccess(n, 0, input)
    case Capture(c) =>
      var res := Eval(c, input);
      if !res.success then Failure()
      else Success([res.coverage] + res.captures, res.coverage)
  }

  /** A repetition count as a loop bound: a count that is not positive runs no iteration. */
  function Count(reps: int): nat
  {
    if reps < 0 then 0 else reps
  }

  /** The outcome of `rangeRepeat` once its greedy loop has gathered `t`:
      success iff the count lies within the bounds (-1 meaning none above). */
  function WithinBounds(n: Node, t: Tally): RegResult
    requires n.RangeRepeat?
  {
    if t.count >= n.minReps && (n.maxReps == -1 || t.count <= n.maxReps)
    then Success(t.captures, t.coverage)
    else Failure()
  }

  /** The outcome of `plus` once its loop has gathered `t`: a failure when
      the child never succeeded. */
  function AtLeastOnce(t: Tally): RegResult
  {
    if t.count > 0 then Success(t.captures, t.coverage) else Failure()
  }

  /** How many applications `rangeRepeat` attempts: `maxReps`, or the input
      length when `maxReps` is -1 (none at all when the count is not positive). */
  function RangeCap(maxReps: int, inputLength: nat): nat
  {
    if maxReps == -1 then inputLength else if maxReps < 0 then 0 else maxReps
  }

  /** `k` applications of the child of `n`, each on what the previous ones left. */
  function Times(n: Node, input: string, k: nat): (r: RegResult)
    requires n.Repeat?
    ensures WellShaped(r, input)
    decreases n, 0, k
  {
    if k == 0 then Success([], "")
    else
      var first := Eval(n.child, input);
      if !first.success then Failure()
      else
        var rest := Times(n, input[|first.coverage|..], k - 1);
        if rest.success then PrefixThen(first.coverage, rest.coverage, input); After(first.captures, first.coverage, rest)
        else Failure()
  }

  /** Up to `k` applications of the child of `n`, stopping at the first failure. */
  function Greedy(n: Node, input: string, k: nat): (t: Tally)
    requires n.RangeRepeat?
    ensures t.coverage <= input && t.count <= k
    decreases n, 0, k
  {
    if k == 0 then Tally(0, [], "")
    else
      var first := Eval(n.child, input);
      if !first.success then Tally(0, [], "")
      else
        var rest := Greedy(n, input[|first.coverage|..], k - 1);
        PrefixThen(first.coverage, rest.coverage, input);
        Tally(rest.count + 1, first.captures + rest.captures, first.coverage + rest.coverage)
  }

  /** The loop shared by `star` and `plus`: apply the child while input
      remains and the child succeeds. A success that covers nothing is
      counted once and ends the run (the source would repeat it forever). */
  function GreedyRun(n: Node, rest: string): (t: Tally)
    requires n.Star? || n.Plus?
    ensures t.coverage <= rest
    decreases n, 0, |rest|
  {
    if rest == "" then Tally(0, [], "")
    else
      var first := Eval(n.child, rest);
      if !first.success then Tally(0, [], "")
      else if first.coverage == "" then Tally(1, first.captures, "")
      else
        var more := GreedyRun(n, rest[|first.coverage|..]);
        PrefixThen(first.coverage, more.coverage, rest);
        Tally(more.count + 1, first.captures + more.captures, first.coverage + more.coverage)
  }

  /** The parts of `n` from index `i` on, each applied to what the previous left. */
  function Sequence(n: Node, i: nat, input: string): (r: RegResult)
    requires n.Concat? && i <= |n.parts|
    ensures WellShaped(r, input)
    decreases n, 0, |n.parts| - i
  {
    if i == |n.parts| then Success([], "")
    else
      var first := Eval(n.parts[i], input);
      if !first.success then Failure()
      else
        var rest := Sequence(n, i + 1, input[|first.coverage|..]);
        if rest.success then PrefixThen(first.coverage, rest.coverage, input); After(first.captures, first.coverage, rest)
        else Failure()
  }

  /** The first alternative of `n` from index `i` on that succeeds, its
      coverage appended to its captures. */
  function FirstSuccess(n: Node, i: nat, input: string): (r: RegResult)
    requires n.Union? && i <= |n.alternatives|
    ensures WellShaped(r, input)
    decreases n, 0, |n.alternatives| - i
  {
    if i == |n.alternatives| then Failure()
    else
      var res := Eval(n.alternatives[i], input);
      if res.success then Success(res.captures + [res.coverage], res.coverage)
      else FirstSuccess(n, i + 1, input)
  }

  /** Whether some member of the set `n` from index `i` on succeeds on `input`. */
  predicate AnyMember(n: Node, i: nat, input: string)
    requires n.Set? && i <= |n.members|
    decreases n, 0, |n.members| - i
  {
    i < |n.members| && (Eval(n.members[i], input).success || AnyMember(n, i + 1, input))
  }
}
