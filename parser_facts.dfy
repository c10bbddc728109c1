/** What the parser builds for the shapes of expression the engine
    documents: units in order, a quantifier on a whole plain run, bounds,
    sets and groups. */
module ParserFacts {
  import opened Matcher
  import opened Lexer
  import opened Brackets
  import opened Regox
  import opened Parser
  import MatcherFacts

  /** A token that is its own unit: not a quantifier and not a closing bracket. */
  predicate Simple(t: string)
  {
    Singular(t) && t != ")" && t != "}" && t != "]" && t != "*" && t != "+" && t != "?"
  }

  /** Units come out left to right: a list of simple tokens gives one unit
      per token, in the order of the tokens. */
  lemma {:induction false} UnitsInOrder(ts: seq<string>)
    requires Valid(ts) && forall k :: 0 <= k < |ts| ==> Simple(ts[k])
    ensures Units(ts).Some? && |Units(ts).value| == |ts|
    ensures forall k :: 0 <= k < |ts| ==> Units(ts).value[k] == SplitSingular(ts[k])
    decreases |ts|
  {
    if ts != [] {
      var front := ts[..|ts| - 1];
      assert forall t :: t in front ==> t in ts;
      UnitsInOrder(front);
      if |ts| > 1 {
        assert SplitRegex(ts) == Some((front, SplitSingular(ts[|ts| - 1])));
      }
    }
  }

  /** The empty expression is `atom("")`, which matches everything, the
      empty text included. */
  lemma ParseEmpty(s: string)
    ensures Parsed("") == Some(Regex("", Atom("")))
    ensures Matches(Parsed("").value, s)
  {
    MatcherFacts.AtomIff("", s);
  }

  /** The case `splitRegex` takes for a list that ends in a closing bracket. */
  lemma ClosingCase(ts: seq<string>)
    requires 2 <= |ts| && Valid(ts)
    ensures ts[|ts| - 1] == ")" ==> SplitRegex(ts) == GroupUnit(ts)
    ensures ts[|ts| - 1] == "}" ==> SplitRegex(ts) == BoundUnit(ts)
    ensures ts[|ts| - 1] == "]" ==> SplitRegex(ts) == SetUnit(ts)
  {
  }

  /** A list that is one unit parses to that unit. */
  lemma OneUnit(ts: seq<string>, n: Node)
    requires ts != [] && Valid(ts) && SplitRegex(ts) == Some(([], n))
    ensures ParseSeq(ts) == Some(n)
  {
    assert Units([]) == Some([]);
    assert [] + [n] == [n];
    assert Units(ts) == Some([n]);
  }

  /** Pieces joined from the left are the same pieces joined from the right. */
  lemma JoinRight<T>(a: seq<T>, b: seq<T>, c: seq<T>, d: seq<T>)
    ensures a + b + c + d == a + (b + (c + d))
  {
  }

  /** Five pieces joined from the left are the same pieces joined from the right. */
  lemma JoinRightFive<T>(a: seq<T>, b: seq<T>, c: seq<T>, d: seq<T>, e: seq<T>)
    ensures a + b + c + d + e == a + (b + (c + (d + e)))
  {
  }

  /** Tokens put in front one at a time form the list of them. */
  lemma ConsFour<T>(a: T, b: T, c: T, d: T)
    ensures [a] + ([b] + [c, d]) == [a, b, c, d]
  {
  }

  /** Tokens put in front one at a time form the list of them. */
  lemma ConsFive<T>(a: T, b: T, c: T, d: T, e: T)
    ensures [a] + ([b] + ([c] + [d, e])) == [a, b, c, d, e]
  {
  }

  /** A plain run followed by a structural character lexes to two tokens. */
  lemma RunThenStructural(w: string, c: char)
    requires IsRun(w) && IsStructural(c)
    ensures Lex(w + [c]) == [w, [c]]
  {
    LexStructuralThen(c, "");
    assert [c] + "" == [c];
    assert Lex("") == [];
    LexRunThen(w, [c]);
  }

  /** A single plain run is the atom of its text. */
  lemma RunUnit(w: string)
    requires IsRun(w)
    ensures Singular(w) && SplitSingular(w) == Atom(w)
    ensures Valid([w]) && SplitRegex([w]) == Some(([], Atom(w)))
  {
    assert IsPlain(w[0]);
  }

  /** The two tokens of a run and a quantifier parse to the quantified atom. */
  lemma QuantifierUnit(w: string, q: string, n: Node)
    requires IsRun(w) && (q == "*" || q == "+" || q == "?")
    requires n == (if q == "*" then Star(Atom(w)) else if q == "+" then Plus(Atom(w)) else Optional(Atom(w)))
    ensures Valid([w, q]) && ParseSeq([w, q]) == Some(n)
  {
    RunUnit(w);
    assert [w, q][..1] == [w];
    assert SplitRegex([w, q]) == Some(([], n));
    assert Units([]) == Some([]);
    assert [] + [n] == [n];
    assert Units([w, q]) == Some([n]);
  }

  /** A run of plain characters is one unit, so a quantifier after it
      applies to the whole run (`ab*` repeats `ab`). */
  lemma QuantifiedRun(w: string)
    requires IsRun(w)
    ensures Parsed(w + "*") == Some(Regex(w + "*", Star(Atom(w))))
    ensures Parsed(w + "+") == Some(Regex(w + "+", Plus(Atom(w))))
    ensures Parsed(w + "?") == Some(Regex(w + "?", Optional(Atom(w))))
  {
    RunThenStructural(w, '*');
    QuantifierUnit(w, "*", Star(Atom(w)));
    RunThenStructural(w, '+');
    QuantifierUnit(w, "+", Plus(Atom(w)));
    RunThenStructural(w, '?');
    QuantifierUnit(w, "?", Optional(Atom(w)));
  }

  /** A run, an opening brace, a run and a closing brace lex to four tokens. */
  lemma BoundTokens(w: string, b: string)
    requires IsRun(w) && IsRun(b)
    ensures Lex(w + "{" + b + "}") == [w, "{", b, "}"]
  {
    var r2 := b + "}";
    var r1 := "{" + r2;
    RunThenStructural(b, '}');
    LexStructuralThen('{', r2);
    LexRunThen(w, r1);
    JoinRight(w, "{", b, "}");
    ConsFour(w, "{", b, "}");
  }

  /** The braces that end `w{b}` are its last three tokens. */
  lemma BoundGroup(w: string, b: string)
    requires IsRun(w) && IsRun(b)
    ensures Separens([w, "{", b, "}"], "{", "}") == ([w], ["{", b, "}"])
  {
    assert IsPlain(b[0]);
    assert [w, "{", b, "}"] == [w] + ["{", b, "}"];
    FlatSeparens([w], ["{", b, "}"], "{", "}");
  }

  /** A plain run followed by `{bound}` with a plain bound is that run
      repeated as the bound says. */
  lemma BoundOnRun(w: string, b: string)
    requires IsRun(w) && IsRun(b)
    ensures Parsed(w + "{" + b + "}") == Some(Regex(w + "{" + b + "}", Bounded(Atom(w), b)))
  {
    var ts := [w, "{", b, "}"];
    BoundTokens(w, b);
    BoundGroup(w, b);
    RunUnit(w);
    assert IsPlain(b[0]);
    assert SplitRegex(ts) == Some(([], Bounded(Atom(w), b)));
    assert Units([]) == Some([]);
    assert [] + [Bounded(Atom(w), b)] == [Bounded(Atom(w), b)];
    assert Units(ts) == Some([Bounded(Atom(w), b)]);
  }

  /** `a{b}` read as the run `a` and the bound text `b`. */
  lemma OnA(p: string, b: string)
    requires |p| == |b| + 3 && p[..2] == "a{" && p[2..|p| - 1] == b && p[|p| - 1] == '}' && IsRun(b)
    ensures Parsed(p) == Some(Regex(p, Bounded(Atom("a"), b)))
  {
    var w := p[..1];
    assert w == "a" && IsRun(w);
    assert p == w + "{" + b + "}";
    BoundOnRun(w, b);
  }

  /** The bound texts of the examples below, split and read as numbers. */
  lemma BoundTexts()
    ensures Atoi("2") == 2 && Atoi("3") == 3 && Atoi("5") == 5 && Atoi("") == 0
    ensures SplitOnce("2,5", ',') == ("2", "5")
    ensures SplitOnce("2,", ',') == ("2", "")
    ensures SplitOnce(",3", ',') == ("", "3")
  {
    assert "2,5"[1] == ',' && "2,5"[1..][0] == ',';
    assert IndexOf("2,5", ',') == 1;
    assert "2,5"[..1] == "2" && "2,5"[2..] == "5";
    assert "2,"[1] == ',' && "2,"[1..][0] == ',';
    assert IndexOf("2,", ',') == 1;
    assert "2,"[..1] == "2" && "2,"[2..] == "";
  }

  /** `a{2}` is `repeat(atom("a"), 2)`. */
  lemma ExactBoundParse(p: string)
    requires p == "a{2}"
    ensures Parsed(p) == Some(Regex(p, Repeat(Atom("a"), 2)))
  {
    var b := p[2..3];
    assert b == "2" && IsRun(b);
    OnA(p, b);
    BoundTexts();
  }

  /** `a{2}` on a run of 'a's matches iff there are at least two. */
  lemma ExactBoundExample(p: string, s: string)
    requires p == "a{2}"
    requires forall i :: 0 <= i < |s| ==> s[i] == 'a'
    ensures Parsed(p).Some? && (Matches(Parsed(p).value, s) <==> |s| >= 2)
  {
    ExactBoundParse(p);
    var n := Repeat(Atom("a"), 2);
    MatcherFacts.EvalRepeat(n, s);
    if |s| >= 2 {
      assert s[..1] == "a" && s[1..][..1] == "a";
    } else if |s| == 1 {
      assert s[..1] == "a";
      assert s[1..] == "";
    }
  }

  /** Greedy repetition of `atom("a")` over a run of 'a's up to a cap of at
      least `lo` succeeds iff the run has at least `lo` characters. */
  lemma RangeOverRun(n: Node, s: string)
    requires n.RangeRepeat? && n.child == Atom("a") && n.minReps >= 0
    requires n.maxReps == -1 || n.maxReps >= n.minReps
    requires forall i :: 0 <= i < |s| ==> s[i] == 'a'
    ensures Eval(n, s).success <==> |s| >= n.minReps
  {
    var cap := RangeCap(n.maxReps, |s|);
    MatcherFacts.GreedyOverRun(n, s, cap);
    MatcherFacts.EvalRangeRepeat(n, s);
  }

  /** `a{2,5}` is `rangeRepeat(atom("a"), 2, 5)`. */
  lemma RangeBoundParse(p: string)
    requires p == "a{2,5}"
    ensures Parsed(p) == Some(Regex(p, RangeRepeat(Atom("a"), 2, 5)))
  {
    var b := p[2..5];
    assert b == "2,5" && IsRun(b);
    OnA(p, b);
    BoundTexts();
  }

  /** `a{2,5}` on a run of 'a's matches iff there are at least two (a
      longer run is matched by its first five). */
  lemma RangeBoundExample(p: string, s: string)
    requires p == "a{2,5}"
    requires forall i :: 0 <= i < |s| ==> s[i] == 'a'
    ensures Parsed(p).Some? && (Matches(Parsed(p).value, s) <==> |s| >= 2)
  {
    RangeBoundParse(p);
    RangeOverRun(RangeRepeat(Atom("a"), 2, 5), s);
  }

  /** `a{2,}` is `rangeRepeat(atom("a"), 2, -1)`, with no upper bound. */
  lemma OpenBoundParse(p: string)
    requires p == "a{2,}"
    ensures Parsed(p) == Some(Regex(p, RangeRepeat(Atom("a"), 2, -1)))
  {
    var b := p[2..4];
    assert b == "2," && IsRun(b);
    OnA(p, b);
    BoundTexts();
  }

  /** `a{2,}` on a run of 'a's matches iff there are at least two. */
  lemma OpenBoundExample(p: string, s: string)
    requires p == "a{2,}"
    requires forall i :: 0 <= i < |s| ==> s[i] == 'a'
    ensures Parsed(p).Some? && (Matches(Parsed(p).value, s) <==> |s| >= 2)
  {
    OpenBoundParse(p);
    RangeOverRun(RangeRepeat(Atom("a"), 2, -1), s);
  }

  /** `a{,3}`: a missing lower bound reads as 0. */
  lemma NoLowerBoundParse(p: string)
    requires p == "a{,3}"
    ensures Parsed(p) == Some(Regex(p, RangeRepeat(Atom("a"), 0, 3)))
  {
    var b := p[2..4];
    assert b == ",3" && IsRun(b);
    OnA(p, b);
    BoundTexts();
  }

  /** `a{,3}` matches every run of 'a's. */
  lemma NoLowerBoundExample(p: string, s: string)
    requires p == "a{,3}"
    requires forall i :: 0 <= i < |s| ==> s[i] == 'a'
    ensures Parsed(p).Some? && Matches(Parsed(p).value, s)
  {
    NoLowerBoundParse(p);
    RangeOverRun(RangeRepeat(Atom("a"), 0, 3), s);
  }

  /** A bracket, a plain run and a closing bracket lex to three tokens. */
  lemma SetTokens(c: string)
    requires IsRun(c)
    ensures Lex("[" + c + "]") == ["[", c, "]"]
  {
    assert "[" + c + "]" == "[" + (c + "]");
    RunThenStructural(c, ']');
    LexStructuralThen('[', c + "]");
  }

  /** The whole of `[c]` is the group its closing bracket ends, and its
      text between the brackets is `c`. */
  lemma SetGroup(c: string)
    requires IsRun(c)
    ensures Separens(["[", c, "]"], "[", "]") == ([], ["[", c, "]"])
    ensures |Flatten(["[", c, "]"])| >= 2 && Flatten(["[", c, "]"])[1..|Flatten(["[", c, "]"])| - 1] == c
  {
    var ts := ["[", c, "]"];
    assert IsPlain(c[0]);
    assert [] + ts == ts;
    FlatSeparens([], ts, "[", "]");
    assert ts[..2] == ["[", c] && ["[", c][..1] == ["["] && ["["][..0] == [];
    assert Flatten(["["]) == "[";
    assert Flatten(["[", c]) == "[" + c;
    var f := Flatten(ts);
    assert f == "[" + c + "]";
    assert f[1..|f| - 1] == c;
  }

  /** Bracket contents without a backslash split into tokens that are all
      valid set members. */
  lemma {:induction false} ChunksNoBackslash(s: string)
    requires forall k :: 0 <= k < |s| ==> s[k] != '\\'
    ensures forall k :: 0 <= k < |SetChunks(s)| ==> MemberOk(SetChunks(s)[k])
  {
    if s != "" {
      var n := ChunkLength(s);
      var rest := s[n..];
      assert forall k :: 0 <= k < |rest| ==> rest[k] == s[n + k];
      ChunksNoBackslash(rest);
      assert SetChunks(s) == [s[..n]] + SetChunks(rest);
      assert s[..n][0] == s[0];
    }
  }

  /** Every set token of a plain run is a valid set member. */
  lemma RunMembersOk(c: string)
    requires IsRun(c)
    ensures forall k :: 0 <= k < |SetLex(c)| ==> MemberOk(SetLex(c)[k])
  {
    if c[0] == '^' {
      var r := c[1..];
      assert forall k :: 0 <= k < |r| ==> IsPlain(r[k]);
      ChunksNoBackslash(r);
    } else {
      ChunksNoBackslash(c);
    }
  }

  /** The node a set written with plain characters only stands for. */
  function RunSet(c: string): Node
    requires IsRun(c)
  {
    RunMembersOk(c);
    if c[0] == '^' then Negate(Set(Members(SetLex(c)))) else Set(Members(SetLex(c)))
  }

  /** The `]` case on `[c]` gives the set of `c`'s tokens and no body. */
  lemma SetUnitOnRun(c: string)
    requires IsRun(c)
    ensures Valid(["[", c, "]"]) && SetUnit(["[", c, "]"]) == Some(([], RunSet(c)))
  {
    RunMembersOk(c);
    SetGroup(c);
    SetLexShape(c);
    assert IsPlain(c[0]);
  }

  /** A set written with plain characters only: its text is split into set
      tokens, and a leading `^` negates it. */
  lemma SetOnRun(c: string)
    requires IsRun(c)
    ensures forall k :: 0 <= k < |SetLex(c)| ==> MemberOk(SetLex(c)[k])
    ensures c[0] == '^' ==> Parsed("[" + c + "]") == Some(Regex("[" + c + "]", Negate(Set(Members(SetLex(c))))))
    ensures c[0] != '^' ==> Parsed("[" + c + "]") == Some(Regex("[" + c + "]", Set(Members(SetLex(c)))))
  {
    RunMembersOk(c);
    var ts := ["[", c, "]"];
    SetTokens(c);
    SetUnitOnRun(c);
    ClosingCase(ts);
    OneUnit(ts, RunSet(c));
  }

  /** The `^` of a negated set is also one of its members, so a negated set
      rejects an input that starts with `^`. */
  lemma NegatedSetRejectsCaret(c: string, s: string)
    requires IsRun(c) && c[0] == '^'
    requires s != "" && s[0] == '^'
    ensures Parsed("[" + c + "]").Some? && !Matches(Parsed("[" + c + "]").value, s)
  {
    SetOnRun(c);
    var ms := Members(SetLex(c));
    assert Eval(Set(ms), s).success by {
      assert ms[0] == Atom("^") by {
        SetLexShape(c);
      }
      assert Eval(ms[0], s).success by {
        assert s[..1] == "^";
      }
      MatcherFacts.SetIff(ms, s);
    }
  }

  /** The set tokens of `a-c`: one range. */
  lemma RangeMembers(c: string)
    requires c == "a-c"
    ensures IsRun(c) && SetLex(c) == [c]
    ensures (forall k :: 0 <= k < |SetLex(c)| ==> MemberOk(SetLex(c)[k])) && Members(SetLex(c)) == [InRange('a', 'c')]
  {
    assert ChunkLength(c) == 3 && c[..3] == c && c[3..] == "";
    assert SetChunks(c) == [c] + SetChunks("");
  }

  /** `[a-c]` is a set of one range, which fails on the empty input. */
  lemma RangeSetExample(p: string)
    requires p == "[a-c]"
    ensures Parsed(p) == Some(Regex(p, Set([InRange('a', 'c')])))
    ensures !Matches(Parsed(p).value, "")
  {
    var c := p[1..4];
    assert p == "[" + c + "]" && c == "a-c";
    RangeMembers(c);
    SetOnRun(c);
  }

  /** The set tokens of `^a-c`: the caret and one range. */
  lemma CaretRangeMembers(c: string)
    requires c == "^a-c"
    ensures IsRun(c) && c[0] == '^'
    ensures (forall k :: 0 <= k < |SetLex(c)| ==> MemberOk(SetLex(c)[k]))
    ensures Members(SetLex(c)) == [Atom("^"), InRange('a', 'c')]
  {
    var r := c[1..];
    assert r == "a-c";
    RangeMembers(r);
    assert SetLex(c) == ["^"] + SetChunks(r);
  }

  /** `[^a-c]` is the negation of the set `^`, `a-c`: it accepts "d" and
      rejects "c". */
  lemma NegatedRangeSetExample(p: string)
    requires p == "[^a-c]"
    ensures Parsed(p) == Some(Regex(p, Negate(Set([Atom("^"), InRange('a', 'c')]))))
    ensures Matches(Parsed(p).value, "d")
    ensures !Matches(Parsed(p).value, "c")
  {
    var c := p[1..5];
    assert p == "[" + c + "]" && c == "^a-c";
    CaretRangeMembers(c);
    SetOnRun(c);
    NegatedRange(Negate(Set([Atom("^"), InRange('a', 'c')])));
  }

  /** The tree of `[^a-c]` accepts "d" and rejects "c". */
  lemma NegatedRange(n: Node)
    requires n == Negate(Set([Atom("^"), InRange('a', 'c')]))
    ensures Eval(n, "d").success && !Eval(n, "c").success
  {
    var ms := [Atom("^"), InRange('a', 'c')];
    assert !Eval(Set(ms), "d").success by {
      MatcherFacts.SetIff(ms, "d");
      assert !Eval(Atom("^"), "d").success by {
        assert "d"[..1] == "d";
      }
    }
    assert Eval(Set(ms), "c").success by {
      MatcherFacts.SetIff(ms, "c");
      assert Eval(ms[1], "c").success;
    }
  }

  /** `(x|y)` with plain runs lexes to five tokens. */
  lemma UnionTokens(x: string, y: string)
    requires IsRun(x) && IsRun(y)
    ensures Lex("(" + x + "|" + y + ")") == ["(", x, "|", y, ")"]
  {
    var r3 := y + ")";
    var r2 := "|" + r3;
    var r1 := x + r2;
    RunThenStructural(y, ')');
    LexStructuralThen('|', r3);
    LexRunThen(x, r2);
    LexStructuralThen('(', r1);
    JoinRightFive("(", x, "|", y, ")");
    ConsFive("(", x, "|", y, ")");
  }

  /** The whole of `(x|y)` is the group its closing parenthesis ends. */
  lemma UnionSeparens(x: string, y: string)
    requires IsRun(x) && IsRun(y)
    ensures Separens(["(", x, "|", y, ")"], "(", ")") == ([], ["(", x, "|", y, ")"])
  {
    var ts := ["(", x, "|", y, ")"];
    assert IsPlain(x[0]) && IsPlain(y[0]);
    assert [] + ts == ts;
    FlatSeparens([], ts, "(", ")");
  }

  /** `(x|y)` has a bar at depth one. */
  lemma UnionHasBar(x: string, y: string)
    requires IsRun(x) && IsRun(y)
    ensures ParenHas(["(", x, "|", y, ")"], "|")
  {
    var ts := ["(", x, "|", y, ")"];
    assert IsPlain(x[0]);
    assert Nesting(ts[..1], "(", ")") == 1 by {
      NestingNext(ts, 0, "(", ")");
      assert ts[..0] == [];
    }
    assert Nesting(ts[..2], "(", ")") == 1 by {
      NestingNext(ts, 1, "(", ")");
    }
    assert Inside(ts, "|", 2);
  }

  /** The alternatives of `x|y` are `x` and `y`. */
  lemma UnionCut(x: string, y: string)
    requires IsRun(x) && IsRun(y)
    ensures Cut([x, "|", y]) == [[x], [y]]
  {
    var inner := [x, "|", y];
    assert IsPlain(x[0]) && IsPlain(y[0]);
    assert LastTopBar(inner, 2) == 1 by {
      assert inner[..1] == [x] && [x][..0] == [];
      assert !TopBar(inner, 2) && TopBar(inner, 1);
    }
    assert Cut([x]) == [[x]] by {
      assert LastTopBar([x], 0) == -1;
    }
    assert inner[..1] == [x] && inner[2..] == [y];
  }

  /** The two alternatives parse to their atoms. */
  lemma TwoAtoms(x: string, y: string)
    requires IsRun(x) && IsRun(y)
    ensures Valid([x]) && Valid([y])
    ensures Alternatives([[x], [y]], 5) == Some([Atom(x), Atom(y)])
  {
    RunUnit(x);
    RunUnit(y);
    OneUnit([x], Atom(x));
    OneUnit([y], Atom(y));
    assert Alternatives([[y]], 5) == Some([Atom(y)]) by {
      assert [[y]][1..] == [];
      assert Alternatives([], 5) == Some([]);
      assert [Atom(y)] + [] == [Atom(y)];
    }
    var ps := [[x], [y]];
    assert ps[0] == [x] && ps[1..] == [[y]];
    assert ParseSeq(ps[0]) == Some(Atom(x));
    assert Alternatives(ps[1..], 5) == Some([Atom(y)]);
    assert [Atom(x)] + [Atom(y)] == [Atom(x), Atom(y)];
  }

  /** The `)` case on `(x|y)` gives the union of the two atoms and no body. */
  lemma UnionUnit(x: string, y: string)
    requires IsRun(x) && IsRun(y)
    ensures Valid(["(", x, "|", y, ")"])
    ensures GroupUnit(["(", x, "|", y, ")"]) == Some(([], Union([Atom(x), Atom(y)])))
  {
    var ts := ["(", x, "|", y, ")"];
    assert IsPlain(x[0]) && IsPlain(y[0]);
    UnionSeparens(x, y);
    UnionHasBar(x, y);
    assert Alternatives(Cut(ts[1..4]), 5) == Some([Atom(x), Atom(y)]) by {
      assert ts[1..4] == [x, "|", y];
      UnionCut(x, y);
      TwoAtoms(x, y);
    }
  }

  /** `(x|y)` with plain runs is the union of the two atoms. */
  lemma ParenUnion(x: string, y: string)
    requires IsRun(x) && IsRun(y)
    ensures Parsed("(" + x + "|" + y + ")") == Some(Regex("(" + x + "|" + y + ")", Union([Atom(x), Atom(y)])))
  {
    var ts := ["(", x, "|", y, ")"];
    UnionTokens(x, y);
    UnionUnit(x, y);
    ClosingCase(ts);
    OneUnit(ts, Union([Atom(x), Atom(y)]));
  }

  /** A union reports the text its winning alternative covered as a
      capture: on an input where `x` fails and `y` matches, `(x|y)`
      captures `y`. */
  lemma UnionCaptures(x: string, y: string, s: string)
    requires IsRun(x) && IsRun(y) && !(x <= s) && y <= s
    ensures Parsed("(" + x + "|" + y + ")").Some?
    ensures Match(Parsed("(" + x + "|" + y + ")").value, s) == RegResult(true, [s, y], y)
  {
    ParenUnion(x, y);
    var n := Union([Atom(x), Atom(y)]);
    assert Eval(n, s) == Success([y], y) by {
      MatcherFacts.AtomIff(x, s);
      MatcherFacts.AtomIff(y, s);
      assert FirstSuccess(n, 1, s) == Success([] + [y], y);
    }
  }

  /** `(x)` with a plain run lexes to three tokens. */
  lemma CaptureTokens(x: string)
    requires IsRun(x)
    ensures Lex("(" + x + ")") == ["(", x, ")"]
  {
    var r1 := x + ")";
    assert Lex(r1) == [x, ")"] by {
      RunThenStructural(x, ')');
    }
    assert Lex("(" + r1) == ["(", x, ")"] by {
      LexStructuralThen('(', r1);
    }
    assert "(" + x + ")" == "(" + r1;
  }

  /** The whole of `(x)` is the group its closing parenthesis ends. */
  lemma CaptureSeparens(x: string)
    requires IsRun(x)
    ensures Separens(["(", x, ")"], "(", ")") == ([], ["(", x, ")"])
  {
    var ts := ["(", x, ")"];
    assert IsPlain(x[0]);
    assert [] + ts == ts;
    FlatSeparens([], ts, "(", ")");
  }

  /** `(x)` has no bar inside. */
  lemma CaptureNoBar(x: string)
    requires IsRun(x)
    ensures !ParenHas(["(", x, ")"], "|")
  {
    var ts := ["(", x, ")"];
    assert x != "|" by {
      assert IsPlain(x[0]);
    }
    forall i | 0 <= i < |ts|
      ensures ts[i] != "|"
    {
    }
  }

  /** The `)` case on `(x)` gives the capture of the atom and no body. */
  lemma CaptureUnit(x: string)
    requires IsRun(x)
    ensures Valid(["(", x, ")"])
    ensures GroupUnit(["(", x, ")"]) == Some(([], Capture(Atom(x))))
  {
    var ts := ["(", x, ")"];
    assert IsPlain(x[0]);
    CaptureSeparens(x);
    CaptureNoBar(x);
    RunUnit(x);
    OneUnit([x], Atom(x));
    assert ts[1..2] == [x];
  }

  /** `(x)` with a plain run is the capture of the atom `x`. */
  lemma ParenCapture(x: string)
    requires IsRun(x)
    ensures Parsed("(" + x + ")") == Some(Regex("(" + x + ")", Capture(Atom(x))))
  {
    var ts := ["(", x, ")"];
    CaptureTokens(x);
    CaptureUnit(x);
    ClosingCase(ts);
    OneUnit(ts, Capture(Atom(x)));
  }

  /** `(x)` with a plain run captures what `x` covers. */
  lemma CaptureCaptures(x: string, s: string)
    requires IsRun(x) && x <= s
    ensures Parsed("(" + x + ")").Some?
    ensures Match(Parsed("(" + x + ")").value, s) == RegResult(true, [s, x], x)
  {
    ParenCapture(x);
    assert Eval(Capture(Atom(x)), s) == Success([x], x) by {
      MatcherFacts.AtomIff(x, s);
    }
  }
}
