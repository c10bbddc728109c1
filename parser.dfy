/** The recursive-descent parser of parser.go: token lists become `Node`
    trees by peeling the last complete unit off the end of the list.

    Where the source would panic (an index past the end of a slice or a
    string) the functions here return `None`; every other input gives the
    tree the source builds. */
module Parser {
  import opened Matcher
  import opened Lexer
  import opened Brackets
  import opened Regox
  import MatcherFacts

  datatype Option<T> = None | Some(value: T)

  /** A token `splitSingular` can read: not empty, and an escape has its
      second character. */
  predicate Singular(t: string)
  {
    t != "" && (t[0] == '\\' ==> |t| >= 2)
  }

  predicate Valid(ts: seq<string>)
  {
    forall t :: t in ts ==> Singular(t)
  }

  /** Every token the lexer produces can be read by `splitSingular`. */
  lemma LexValid(p: string)
    ensures Valid(Lex(p))
  {
    LexTokens(p);
    forall t | t in Lex(p)
      ensures Singular(t)
    {
      var k :| 0 <= k < |Lex(p)| && Lex(p)[k] == t;
      assert IsToken(t);
      if IsRun(t) {
        assert IsPlain(t[0]);
      }
    }
  }

  /** `splitSingular`: the node for one token that is not a quantifier or a
      bracket. Only `.` gives the wildcard; the nine class escapes give a
      character class (or its negation) and every other token a literal:
      the escaped character, or the token itself. */
  function SplitSingular(t: string): (n: Node)
    requires Singular(t)
    ensures n == AnyChar <==> t == "."
    ensures n.Atom? <==> t != "." && (t[0] != '\\' || t[1] !in "dDwWsStT\\")
    ensures n.Atom? ==> n.text == if t[0] == '\\' then [t[1]] else t
  {
    if t == "." then AnyChar
    else if t[0] == '\\' then
      var esc := t[1];
      if esc == 'd' then Digit
      else if esc == '\\' then Backslash
      else if esc == 's' then Space
      else if esc == 't' then Tab
      else if esc == 'D' then Negate(Digit)
      else if esc == 'T' then Negate(Tab)
      else if esc == 'S' then Negate(Space)
      else if esc == 'w' then Word
      else if esc == 'W' then Negate(Word)
      else Atom([esc])
    else Atom(t)
  }

  /** What the node of a single token accepts: `.` any character, a plain
      token its own text, and an escaped character without a class of its
      own that character. */
  lemma SingularMeaning(t: string, s: string)
    requires Singular(t)
    ensures t == "." ==> (Eval(SplitSingular(t), s).success <==> s != "")
    ensures t != "." && t[0] != '\\' ==> (Eval(SplitSingular(t), s).success <==> t <= s)
    ensures t[0] == '\\' && t[1] !in "dDwWsStT\\" ==> (Eval(SplitSingular(t), s).success <==> [t[1]] <= s)
  {
    if t == "." {
    } else if t[0] != '\\' {
      MatcherFacts.AtomIff(t, s);
    } else if t[1] !in "dDwWsStT\\" {
      MatcherFacts.AtomIff([t[1]], s);
    }
  }

  /** The digit and word escapes accept one character of their class, and
      their upper-case forms one character outside it. */
  lemma DigitWordMeaning(t: string, s: string)
    requires Singular(t) && t[0] == '\\'
    ensures t[1] == 'd' ==> (Eval(SplitSingular(t), s).success <==> s != "" && '0' <= s[0] <= '9')
    ensures t[1] == 'D' ==> (Eval(SplitSingular(t), s).success <==> s != "" && !('0' <= s[0] <= '9'))
    ensures t[1] == 'w' ==> (Eval(SplitSingular(t), s).success <==> s != "" && 'A' <= s[0] <= 'z')
    ensures t[1] == 'W' ==> (Eval(SplitSingular(t), s).success <==> s != "" && !('A' <= s[0] <= 'z'))
  {
    if t[1] == 'd' {
      assert SplitSingular(t) == Digit;
    } else if t[1] == 'D' {
      assert SplitSingular(t) == Negate(Digit);
      assert Eval(Digit, s).success <==> s != "" && '0' <= s[0] <= '9';
    } else if t[1] == 'w' {
      assert SplitSingular(t) == Word;
    } else if t[1] == 'W' {
      assert SplitSingular(t) == Negate(Word);
      assert Eval(Word, s).success <==> s != "" && 'A' <= s[0] <= 'z';
    }
  }

  /** The space, tab and backslash escapes accept one such character, and
      the upper-case forms one character that is not. */
  lemma SpaceTabMeaning(t: string, s: string)
    requires Singular(t) && t[0] == '\\'
    ensures t[1] == 's' ==> (Eval(SplitSingular(t), s).success <==> s != "" && s[0] in "\t\r \n")
    ensures t[1] == 'S' ==> (Eval(SplitSingular(t), s).success <==> s != "" && s[0] !in "\t\r \n")
    ensures t[1] == 't' ==> (Eval(SplitSingular(t), s).success <==> s != "" && s[0] == '\t')
    ensures t[1] == 'T' ==> (Eval(SplitSingular(t), s).success <==> s != "" && s[0] != '\t')
    ensures t[1] == '\\' ==> (Eval(SplitSingular(t), s).success <==> s != "" && s[0] == '\\')
  {
    if t[1] == 's' {
      assert SplitSingular(t) == Space;
    } else if t[1] == 'S' {
      assert SplitSingular(t) == Negate(Space);
    } else if t[1] == 't' {
      assert SplitSingular(t) == Tab;
    } else if t[1] == 'T' {
      assert SplitSingular(t) == Negate(Tab);
    } else if t[1] == '\\' {
      assert SplitSingular(t) == Backslash;
    }
  }

  /** A set member `splitSet` can read: a lone backslash is the only token
      it cannot. */
  predicate MemberOk(t: string)
  {
    t == "." || |t| >= 3 || Singular(t)
  }

  /** The node for one set token: `.` is literal inside a set, a token of
      three characters or more is a range between its first and third
      characters, and anything shorter is read as a single token. */
  function SetMember(t: string): Node
    requires MemberOk(t)
  {
    if t == "." then Atom(".")
    else if |t| < 3 then SplitSingular(t)
    else InRange(t[0], t[2])
  }

  /** The nodes of the set tokens, in order. */
  function Members(ts: seq<string>): (ns: seq<Node>)
    requires forall k :: 0 <= k < |ts| ==> MemberOk(ts[k])
  {
    seq(|ts|, k requires 0 <= k < |ts| => SetMember(ts[k]))
  }

  /** `splitSet`: one node per set token, in order. */
  method SplitSet(regex: seq<string>) returns (cons: seq<Node>)
    requires forall k :: 0 <= k < |regex| ==> MemberOk(regex[k])
    ensures cons == Members(regex)
  {
    cons := [];
    for i := 0 to |regex|
      invariant cons == Members(regex[..i])
    {
      var token := regex[i];
      var con;
      if token == "." {
        con := Atom(".");
      } else if |token| < 3 {
        con := SplitSingular(token);
      } else {
        con := InRange(token[0], token[2]);
      }
      cons := cons + [con];
    }
    assert regex[..|regex|] == regex;
  }

  /** A range member accepts exactly the characters between its ends, and
      a literal dot member only a dot. */
  lemma SetMemberMeaning(t: string, s: string)
    requires MemberOk(t) && s != ""
    ensures |t| >= 3 ==> (Eval(SetMember(t), s).success <==> t[0] <= s[0] <= t[2])
    ensures t == "." ==> (Eval(SetMember(t), s).success <==> s[0] == '.')
  {
    if t == "." {
      assert s[..1] == "." <==> s[0] == '.';
    }
  }

  function Digits(d: string): nat
    requires forall k :: 0 <= k < |d| ==> '0' <= d[k] <= '9'
  {
    if d == "" then 0 else Digits(d[..|d| - 1]) * 10 + (d[|d| - 1] as int - '0' as int)
  }

  predicate IsDecimal(d: string)
  {
    d != "" && forall k :: 0 <= k < |d| ==> '0' <= d[k] <= '9'
  }

  /** `strconv.Atoi` with its error ignored: the decimal value of a string of
      digits, and 0 for anything else. */
  function Atoi(d: string): (n: nat)
    ensures !IsDecimal(d) ==> n == 0
  {
    if IsDecimal(d) then Digits(d) else 0
  }

  /** Appending a digit multiplies by ten and adds it. */
  lemma AtoiNextDigit(d: string, c: char)
    requires IsDecimal(d) && '0' <= c <= '9'
    ensures Atoi(d + [c]) == 10 * Atoi(d) + (c as int - '0' as int)
  {
    assert (d + [c])[..|d|] == d;
  }

  /** A prefix of `ts` that is strictly shorter. */
  predicate ShorterPrefix(body: seq<string>, ts: seq<string>)
  {
    |body| < |ts| && body == ts[..|body|]
  }

  /** `splitRegex`: the tokens before the last complete unit, and the node of
      that unit. */
  function SplitRegex(ts: seq<string>): (r: Option<(seq<string>, Node)>)
    requires ts != [] && Valid(ts)
    ensures r.Some? ==> ShorterPrefix(r.value.0, ts)
    decreases |ts|, 1
  {
    var last := ts[|ts| - 1];
    if |ts| == 1 then Some(([], SplitSingular(ts[0])))
    else if last == ")" then GroupUnit(ts)
    else if last == "}" then BoundUnit(ts)
    else if last == "]" then SetUnit(ts)
    else if last == "*" || last == "+" || last == "?" then
      match SplitRegex(ts[..|ts| - 1])
      case None => None
      case Some((body, unit)) =>
        Some((body, if last == "*" then Star(unit) else if last == "+" then Plus(unit) else Optional(unit)))
    else Some((ts[..|ts| - 1], SplitSingular(last)))
  }

  /** The `)` case: a union of the top-level alternatives when the group has
      a bar at depth one, a capture of its contents otherwise. */
  function GroupUnit(ts: seq<string>): (r: Option<(seq<string>, Node)>)
    requires 2 <= |ts| && ts[|ts| - 1] == ")" && Valid(ts)
    ensures r.Some? ==> ShorterPrefix(r.value.0, ts)
    decreases |ts|, 0
  {
    var (body, tail) := Separens(ts, "(", ")");
    var inner := tail[1..|tail| - 1];
    assert forall t :: t in inner ==> t in ts;
    if ParenHas(tail, "|") then
      match Alternatives(Cut(inner), |ts|)
      case None => None
      case Some(alts) => Some((body, Union(alts)))
    else
      match ParseSeq(inner)
      case None => None
      case Some(n) => Some((body, Capture(n)))
  }

  /** The `}` case: the unit before the braces, repeated as the bound text
      says. An empty body is where the source indexes past the end. */
  function BoundUnit(ts: seq<string>): (r: Option<(seq<string>, Node)>)
    requires 2 <= |ts| && ts[|ts| - 1] == "}" && Valid(ts)
    ensures r.Some? ==> ShorterPrefix(r.value.0, ts)
    decreases |ts|, 0
  {
    var (body, tail) := Separens(ts, "{", "}");
    if body == [] then None
    else
      assert forall t :: t in body ==> t in ts;
      match SplitRegex(body)
      case None => None
      case Some((nbody, repeater)) =>
        Some((nbody, Bounded(repeater, tail[1])))
  }

  /** The node for a unit followed by `{bound}`: `{n}` is an exact count,
      `{n,m}` a range and `{n,}` a range without an upper end. */
  function Bounded(repeater: Node, bound: string): (n: Node)
    ensures ',' !in bound ==> n == Repeat(repeater, Atoi(bound))
    ensures ',' in bound ==>
      && n.RangeRepeat? && n.child == repeater
      && n.minReps == Atoi(SplitOnce(bound, ',').0)
      && (n.maxReps == -1 <==> SplitOnce(bound, ',').1 == "")
  {
    if ',' in bound then
      var (lower, upper) := SplitOnce(bound, ',');
      RangeRepeat(repeater, Atoi(lower), if upper == "" then -1 else Atoi(upper))
    else Repeat(repeater, Atoi(bound))
  }

  /** The `]` case: the set's text between the brackets, split into set
      tokens; a leading `^` negates the set (and stays in it as a member). */
  function SetUnit(ts: seq<string>): (r: Option<(seq<string>, Node)>)
    requires 2 <= |ts| && ts[|ts| - 1] == "]" && Valid(ts)
    ensures r.Some? ==> ShorterPrefix(r.value.0, ts)
  {
    var (body, tail) := Separens(ts, "[", "]");
    assert forall t :: t in tail ==> t in ts;
    FlattenLength(tail);
    var contents := Flatten(tail);
    var inner := contents[1..|contents| - 1];
    if inner == "" then None
    else
      var setTokens := SetLex(inner);
      if !(forall k :: 0 <= k < |setTokens| ==> MemberOk(setTokens[k])) then None
      else if setTokens[0] == "^" then Some((body, Negate(Set(Members(setTokens)))))
      else Some((body, Set(Members(setTokens))))
  }

  /** The parsed alternatives of a union, in order. */
  function Alternatives(ps: seq<seq<string>>, ghost bound: nat): (r: Option<seq<Node>>)
    requires forall k :: 0 <= k < |ps| ==> |ps[k]| < bound && Valid(ps[k])
    ensures r.Some? ==> |r.value| == |ps|
    decreases bound, 0, |ps|
  {
    if ps == [] then Some([])
    else
      match ParseSeq(ps[0])
      case None => None
      case Some(n) =>
        match Alternatives(ps[1..], bound)
        case None => None
        case Some(ns) => Some([n] + ns)
  }

  /** The units of `ts` from left to right, each peeled off the end by
      `SplitRegex`. */
  function Units(ts: seq<string>): (r: Option<seq<Node>>)
    requires Valid(ts)
    ensures r.Some? ==> |r.value| <= |ts| && (ts != [] ==> r.value != [])
    decreases |ts|, 2
  {
    if ts == [] then Some([])
    else
      match SplitRegex(ts)
      case None => None
      case Some((body, unit)) =>
        assert forall t :: t in body ==> t in ts;
        match Units(body)
        case None => None
        case Some(us) => Some(us + [unit])
  }

  /** `splitConcatenation` as a function: the empty list is `atom("")`, one
      unit is itself, and several are their concatenation. */
  function ParseSeq(ts: seq<string>): (r: Option<Node>)
    requires Valid(ts)
    ensures ts == [] ==> r == Some(Atom(""))
    decreases |ts|, 3
  {
    if ts == [] then Some(Atom(""))
    else
      match Units(ts)
      case None => None
      case Some(us) => if |us| == 1 then Some(us[0]) else Some(Concat(us))
  }

  /** Units already peeled, put in front of the ones still to come. */
  function Then(o: Option<seq<Node>>, parts: seq<Node>): Option<seq<Node>>
  {
    if o.None? then None else Some(o.value + parts)
  }

  /** Peeling the trailing unit off `str` leaves a valid token list whose
      units, followed by the peeled unit, are the units of `str`. */
  lemma PeelStep(str: seq<string>, body: seq<string>, cons: Node)
    requires str != [] && Valid(str) && SplitRegex(str) == Some((body, cons))
    ensures Valid(body) && |body| < |str|
    ensures Units(str) == Then(Units(body), [cons])
  {
    assert forall t :: t in body ==> t in str;
  }

  /** Appending in two steps is appending once: this keeps
      `splitConcatenation`'s invariant as units move from `str` to `parts`. */
  lemma ThenThen(o: Option<seq<Node>>, cons: Node, parts: seq<Node>)
    ensures Then(Then(o, [cons]), parts) == Then(o, [cons] + parts)
  {
    if o.Some? {
      assert (o.value + [cons]) + parts == o.value + ([cons] + parts);
    }
  }

  /** `splitConcatenation`: peels units off the end until no token is left,
      putting each in front of those already peeled. */
  method SplitConcatenation(regex: seq<string>) returns (r: Option<Node>)
    requires Valid(regex)
    ensures r == ParseSeq(regex)
  {
    if |regex| == 0 {
      return Some(Atom(""));
    }
    var str := regex;
    var parts: seq<Node> := [];
    assert Units(regex).Some? ==> Units(regex).value + [] == Units(regex).value;
    while |str| > 0
      invariant Valid(str)
      invariant Units(regex) == Then(Units(str), parts)
      decreases |str|
    {
      var step := SplitRegex(str);
      if step.None? {
        return None;
      }
      var (body, cons) := step.value;
      PeelStep(str, body, cons);
      ThenThen(Units(body), cons, parts);
      str, parts := body, [cons] + parts;
    }
    assert Units(regex) == Some(parts) by {
      assert [] + parts == parts;
    }
    if |parts| == 1 {
      return Some(parts[0]);
    }
    return Some(Concat(parts));
  }

  /** `Parse`: the expression and its tree, or `None` where the source panics. */
  function Parsed(p: string): (r: Option<Regex>)
    ensures r.Some? ==> r.value.expression == p
  {
    LexValid(p);
    match ParseSeq(Lex(p))
    case None => None
    case Some(tree) => Some(Regex(p, tree))
  }

  /** `Parse`, `cparse` and `tparse`: tokenize, then parse the tokens. */
  method Parse(regex: string) returns (r: Option<Regex>)
    ensures r == Parsed(regex)
  {
    var tokens := Tokenize(regex);
    LexValid(regex);
    var tree := SplitConcatenation(tokens);
    if tree.None? {
      return None;
    }
    return Some(Regex(regex, tree.value));
  }
}
