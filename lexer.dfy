/** The string side of parser.go: `tokenize`, `setTokenize`, `abbreviate`,
    `strcontains` and `strSplit`. Each loop of the source is a method proved
    equal to a recursive specification function, and the properties the
    parser relies on are proved about those functions. Characters stand for
    the source's runes and bytes alike (ASCII only). */
module Lexer {

  /** The characters `tokenize` emits as tokens of their own. */
  const Structural: string := "()[]{}|.+*?"

  predicate IsStructural(c: char)
  {
    c in Structural
  }

  /** A character that extends a plain run: neither structural nor a backslash. */
  predicate IsPlain(c: char)
  {
    c != '\\' && !IsStructural(c)
  }

  /** A non-empty run of plain characters. */
  predicate IsRun(t: string)
  {
    t != "" && forall k :: 0 <= k < |t| ==> IsPlain(t[k])
  }

  /** The three kinds of token `tokenize` produces. */
  predicate IsToken(t: string)
  {
    || IsRun(t)
    || (|t| == 1 && IsStructural(t[0]))
    || (|t| == 2 && t[0] == '\\')
  }

  /** The tokens joined back together (`abbreviate`). */
  function Flatten(ts: seq<string>): string
  {
    if ts == [] then "" else Flatten(ts[..|ts| - 1]) + ts[|ts| - 1]
  }

  lemma {:induction false} FlattenAppend(a: seq<string>, b: seq<string>)
    ensures Flatten(a + b) == Flatten(a) + Flatten(b)
    decreases |b|
  {
    if b == [] {
      assert a + b == a;
    } else {
      var b', x := b[..|b| - 1], b[|b| - 1];
      assert (a + b)[..|a + b| - 1] == a + b';
      assert Flatten(a + b) == Flatten(a + b') + x;
      FlattenAppend(a, b');
      assert Flatten(a) + Flatten(b') + x == Flatten(a) + (Flatten(b') + x);
    }
  }

  lemma FlattenCons(t: string, ts: seq<string>)
    ensures Flatten([t] + ts) == t + Flatten(ts)
  {
    FlattenAppend([t], ts);
    assert [t][..0] == [];
  }

  /** Joining non-empty tokens gives at least one character per token. */
  lemma {:induction false} FlattenLength(ts: seq<string>)
    requires forall t :: t in ts ==> t != ""
    ensures |Flatten(ts)| >= |ts|
    decreases |ts|
  {
    if ts != [] {
      var front := ts[..|ts| - 1];
      forall t | t in front
        ensures t != ""
      {
        var k :| 0 <= k < |front| && front[k] == t;
        assert ts[k] == t;
        assert t in ts;
      }
      FlattenLength(front);
      assert ts[|ts| - 1] in ts;
    }
  }

  /** `abbreviate`: the tokens concatenated in order. */
  method Abbreviate(tokens: seq<string>) returns (out: string)
    ensures out == Flatten(tokens)
  {
    out := "";
    for i := 0 to |tokens|
      invariant out == Flatten(tokens[..i])
    {
      assert tokens[..i + 1][..i] == tokens[..i];
      out := out + tokens[i];
    }
    assert tokens[..|tokens|] == tokens;
  }

  /** `strcontains`: whether `e` occurs in `s`. */
  method StrContains(s: string, e: char) returns (b: bool)
    ensures b <==> e in s
  {
    for i := 0 to |s|
      invariant e !in s[..i]
    {
      if s[i] == e {
        return true;
      }
      assert s[..i + 1] == s[..i] + [s[i]];
    }
    assert s[..|s|] == s;
    return false;
  }

  /** The length of the plain run at the front of `s`. */
  function RunLength(s: string): (k: nat)
    ensures k <= |s|
    ensures forall j :: 0 <= j < k ==> IsPlain(s[j])
    ensures k < |s| ==> !IsPlain(s[k])
  {
    if s == "" || !IsPlain(s[0]) then 0 else 1 + RunLength(s[1..])
  }

  /** A final unpaired backslash, which `tokenize` drops. */
  predicate Dangling(p: string)
  {
    |p| == 1 && p[0] == '\\'
  }

  /** The length of the token at the front of `p`: an escape takes two
      characters, a structural character one, a plain run all of itself. */
  function TokenLength(p: string): (k: nat)
    requires p != "" && !Dangling(p)
    ensures 0 < k <= |p|
  {
    if p[0] == '\\' then 2
    else if IsStructural(p[0]) then 1
    else RunLength(p)
  }

  /** The tokens of a pattern: a two-character escape, a structural
      character, or a maximal plain run, repeatedly from the left; a final
      unpaired backslash yields nothing. */
  function Lex(p: string): seq<string>
    decreases |p|
  {
    if p == "" || Dangling(p) then []
    else [p[..TokenLength(p)]] + Lex(p[TokenLength(p)..])
  }

  /** Every token `Lex` produces is an escape, a structural character or a plain run. */
  lemma {:induction false} LexTokens(p: string)
    ensures forall k :: 0 <= k < |Lex(p)| ==> IsToken(Lex(p)[k])
    decreases |p|
  {
    if p != "" && !Dangling(p) {
      var n := TokenLength(p);
      var rest := Lex(p[n..]);
      LexTokens(p[n..]);
      assert IsToken(p[..n]);
      forall k | 0 <= k < |Lex(p)|
        ensures IsToken(Lex(p)[k])
      {
        if k > 0 {
          assert Lex(p)[k] == rest[k - 1];
        }
      }
    }
  }

  /** A plain run from `j` to `i` that cannot be extended is one token. */
  lemma RunEnds(p: string, j: nat, i: nat)
    requires j < i <= |p|
    requires forall k :: j <= k < i ==> IsPlain(p[k])
    requires i < |p| ==> !IsPlain(p[i])
    ensures Lex(p[j..]) == [p[j..i]] + Lex(p[i..])
  {
    var s := p[j..];
    RunSpan(s, i - j);
    assert s[..i - j] == p[j..i];
    assert s[i - j..] == p[i..];
  }

  lemma {:induction false} RunSpan(s: string, m: nat)
    requires 0 < m <= |s|
    requires forall k :: 0 <= k < m ==> IsPlain(s[k])
    requires m < |s| ==> !IsPlain(s[m])
    ensures RunLength(s) == m
    decreases m
  {
    if m > 1 {
      RunSpan(s[1..], m - 1);
    }
  }

  /** The loop invariant of `tokenize` after `i` characters: the buffer is the
      plain run just read, and the tokens so far followed by the tokens of
      the rest (from the buffer's start, or from the pending backslash) are
      all the tokens of `p`, `target`. */
  predicate Lexing(target: seq<string>, p: string, tokens: seq<string>, buffer: string, isEscaping: bool, i: int)
  {
    && 0 <= i <= |p|
    && |buffer| <= i
    && buffer == p[i - |buffer|..i]
    && (forall k :: i - |buffer| <= k < i ==> IsPlain(p[k]))
    && (isEscaping ==> buffer == "" && 0 < i && p[i - 1] == '\\' && target == tokens + Lex(p[i - 1..]))
    && (!isEscaping ==> target == tokens + Lex(p[i - |buffer|..]))
  }

  lemma LexingStart(target: seq<string>, p: string)
    requires target == Lex(p)
    ensures Lexing(target, p, [], "", false, 0)
  {
    assert p[0..] == p;
  }

  /** A backslash and the character after it become one token. */
  lemma EscapeStep(target: seq<string>, p: string, tokens: seq<string>, i: nat)
    requires Lexing(target, p, tokens, "", true, i) && i < |p|
    ensures Lexing(target, p, tokens + ["\\" + [p[i]]], "", false, i + 1)
  {
    var s := p[i - 1..];
    assert TokenLength(s) == 2;
    assert s[..2] == "\\" + [p[i]];
    assert s[2..] == p[i + 1..];
  }

  /** A buffered run ends at a character that is not plain, or at the end. */
  lemma FlushRun(target: seq<string>, p: string, tokens: seq<string>, buffer: string, i: nat)
    requires Lexing(target, p, tokens, buffer, false, i) && buffer != ""
    requires i < |p| ==> !IsPlain(p[i])
    ensures Lexing(target, p, tokens + [buffer], "", false, i)
  {
    RunEnds(p, i - |buffer|, i);
  }

  /** A backslash starts an escape. */
  lemma BackslashStep(target: seq<string>, p: string, tokens: seq<string>, i: nat)
    requires Lexing(target, p, tokens, "", false, i) && i < |p| && p[i] == '\\'
    ensures Lexing(target, p, tokens, "", true, i + 1)
  {
  }

  /** A structural character is a token of its own. */
  lemma StructuralStep(target: seq<string>, p: string, tokens: seq<string>, i: nat)
    requires Lexing(target, p, tokens, "", false, i) && i < |p| && IsStructural(p[i])
    ensures Lexing(target, p, tokens + [[p[i]]], "", false, i + 1)
  {
    var s := p[i..];
    assert TokenLength(s) == 1;
    assert s[..1] == [p[i]];
    assert s[1..] == p[i + 1..];
  }

  /** A plain character extends the buffered run. */
  lemma PlainStep(target: seq<string>, p: string, tokens: seq<string>, buffer: string, i: nat)
    requires Lexing(target, p, tokens, buffer, false, i) && i < |p| && IsPlain(p[i])
    ensures Lexing(target, p, tokens, buffer + [p[i]], false, i + 1)
  {
    assert p[i + 1 - |buffer + [p[i]]|..i + 1] == buffer + [p[i]];
  }

  /** At the end, with nothing buffered, the tokens are all of them. */
  lemma LexingDone(target: seq<string>, p: string, tokens: seq<string>, isEscaping: bool)
    requires Lexing(target, p, tokens, "", isEscaping, |p|)
    ensures tokens == target
  {
    assert isEscaping ==> Dangling(p[|p| - 1..]);
  }

  /** `tokenize`: one pass over the pattern with a plain-run buffer and an
      escaping flag. */
  method Tokenize(p: string) returns (tokens: seq<string>)
    ensures tokens == Lex(p)
  {
    ghost var target := Lex(p);
    var buffer := "";
    var isEscaping := false;
    tokens := [];
    LexingStart(target, p);
    for i := 0 to |p|
      invariant Lexing(target, p, tokens, buffer, isEscaping, i)
    {
      var c := p[i];
      if isEscaping {
        EscapeStep(target, p, tokens, i);
        tokens := tokens + ["\\" + [c]];
        isEscaping := false;
        buffer := "";
      } else if c == '\\' {
        if |buffer| > 0 {
          FlushRun(target, p, tokens, buffer, i);
          tokens := tokens + [buffer];
          buffer := "";
        }
        BackslashStep(target, p, tokens, i);
        isEscaping := true;
      } else {
        var structural := StrContains(Structural, c);
        if structural {
          if |buffer| > 0 {
            FlushRun(target, p, tokens, buffer, i);
            tokens := tokens + [buffer];
            buffer := "";
          }
          StructuralStep(target, p, tokens, i);
          tokens := tokens + [[c]];
        } else {
          PlainStep(target, p, tokens, buffer, i);
          buffer := buffer + [c];
        }
      }
    }
    if |buffer| > 0 {
      FlushRun(target, p, tokens, buffer, |p|);
      tokens := tokens + [buffer];
      buffer := "";
    }
    LexingDone(target, p, tokens, isEscaping);
  }

  /** The number of backslashes that end `p`. */
  function Trailing(p: string): (n: nat)
    ensures n <= |p|
  {
    if p != "" && p[|p| - 1] == '\\' then 1 + Trailing(p[..|p| - 1]) else 0
  }

  /** `Trailing` counts the whole final run of backslashes: the last `n`
      characters are backslashes and the one before them is not. */
  lemma {:induction false} TrailingRun(p: string)
    ensures forall k :: |p| - Trailing(p) <= k < |p| ==> p[k] == '\\'
    ensures Trailing(p) < |p| ==> p[|p| - Trailing(p) - 1] != '\\'
    decreases |p|
  {
    if p != "" && p[|p| - 1] == '\\' {
      var q := p[..|p| - 1];
      TrailingRun(q);
      assert forall k :: 0 <= k < |q| ==> q[k] == p[k];
    }
  }

  /** The backslashes ending `a + b`: those of `b`, and those of `a` too
      when `b` is nothing but backslashes. */
  lemma {:induction false} TrailingAppend(a: string, b: string)
    ensures Trailing(a + b) == if Trailing(b) == |b| then Trailing(a) + |b| else Trailing(b)
    decreases |b|
  {
    if b == "" {
      assert a + b == a;
    } else {
      var b' := b[..|b| - 1];
      assert (a + b)[..|a + b| - 1] == a + b';
      TrailingAppend(a, b');
    }
  }

  /** No token ends in an odd number of backslashes: an escape ends in two
      or none, any other token in none. */
  lemma TokenTrailingEven(p: string)
    requires p != "" && !Dangling(p)
    ensures Trailing(p[..TokenLength(p)]) % 2 == 0
  {
    var t := p[..TokenLength(p)];
    if p[0] == '\\' {
      assert t[..1] == [p[0]] && [p[0]][..0] == "";
    } else {
      assert t[|t| - 1] != '\\';
    }
  }

  /** Splitting off the first token keeps the parity of the final backslashes. */
  lemma TrailingAfterToken(p: string)
    requires p != "" && !Dangling(p)
    ensures Trailing(p) % 2 == Trailing(p[TokenLength(p)..]) % 2
  {
    var t, rest := p[..TokenLength(p)], p[TokenLength(p)..];
    assert p == t + rest;
    TrailingAppend(t, rest);
    TokenTrailingEven(p);
    var a, b := Trailing(t), Trailing(rest);
    if b == |rest| {
      assert Trailing(p) == a + b;
    } else {
      assert Trailing(p) == b;
    }
  }

  /** What `tokenize` keeps of `p`: all of it, or all but the last
      character when `p` ends in an odd number of backslashes. */
  function Kept(p: string): string
  {
    if Trailing(p) % 2 == 1 then p[..|p| - 1] else p
  }

  /** What is kept of `p` is its first token followed by what is kept of the rest. */
  lemma KeptCons(p: string)
    requires p != "" && !Dangling(p)
    ensures Kept(p) == p[..TokenLength(p)] + Kept(p[TokenLength(p)..])
  {
    var t, rest := p[..TokenLength(p)], p[TokenLength(p)..];
    TrailingAfterToken(p);
    assert p == t + rest;
    if Trailing(rest) % 2 == 1 {
      assert p[..|p| - 1] == t + rest[..|rest| - 1];
    }
  }

  /** `abbreviate(tokenize(p))` gives `p` back, except that the last
      character is dropped exactly when `p` ends in an odd number of
      backslashes, the last of them unpaired. */
  lemma {:induction false} LexRoundTrip(p: string)
    ensures Flatten(Lex(p)) == Kept(p)
    decreases |p|
  {
    if p == "" {
    } else if Dangling(p) {
      assert p[..0] == "";
    } else {
      var t, rest := p[..TokenLength(p)], p[TokenLength(p)..];
      assert Flatten(Lex(p)) == t + Flatten(Lex(rest)) by {
        assert Lex(p) == [t] + Lex(rest);
        FlattenCons(t, Lex(rest));
      }
      LexRoundTrip(rest);
      KeptCons(p);
    }
  }

  /** After a plain run, an escaped backslash `\\` is kept whole. */
  lemma PairedBackslashKept(w: string)
    requires IsRun(w)
    ensures Flatten(Lex(w + "\\\\")) == w + "\\\\"
  {
    TrailingEnds(w, "\\\\");
    LexRoundTrip(w + "\\\\");
  }

  /** After a plain run, a lone final backslash is dropped. */
  lemma LoneBackslashDropped(w: string)
    requires IsRun(w)
    ensures Flatten(Lex(w + "\\")) == w
  {
    TrailingEnds(w, "\\");
    LexRoundTrip(w + "\\");
    assert (w + "\\")[..|w|] == w;
  }

  /** A run followed only by backslashes ends in exactly those backslashes. */
  lemma TrailingEnds(w: string, b: string)
    requires IsRun(w) && forall k :: 0 <= k < |b| ==> b[k] == '\\'
    ensures Trailing(w + b) == |b|
  {
    TrailingAll(b);
    TrailingAppend(w, b);
    assert !IsPlain('\\') && IsPlain(w[|w| - 1]);
  }

  /** A string of backslashes only ends in all of them. */
  lemma {:induction false} TrailingAll(b: string)
    requires forall k :: 0 <= k < |b| ==> b[k] == '\\'
    ensures Trailing(b) == |b|
    decreases |b|
  {
    if b != "" {
      TrailingAll(b[..|b| - 1]);
    }
  }

  /** Splitting text at `k` and joining it again, whole or without its last character. */
  lemma Rejoin(p: string, k: nat)
    requires k <= |p|
    ensures p[..k] + p[k..] == p
    ensures k < |p| ==> p[k..][|p[k..]| - 1] == p[|p| - 1]
    ensures k < |p| ==> p[..k] + p[k..][..|p[k..]| - 1] == p[..|p| - 1]
  {
  }

  /** A plain run followed by a character that is not plain is one token. */
  lemma LexRunThen(w: string, rest: string)
    requires IsRun(w) && (rest == "" || !IsPlain(rest[0]))
    ensures Lex(w + rest) == [w] + Lex(rest)
  {
    var p := w + rest;
    RunSpan(p, |w|);
    assert p[..|w|] == w && p[|w|..] == rest;
  }

  /** A structural character is a token of its own. */
  lemma LexStructuralThen(c: char, rest: string)
    requires IsStructural(c)
    ensures Lex([c] + rest) == [[c]] + Lex(rest)
  {
    var p := [c] + rest;
    assert p[..1] == [c] && p[1..] == rest;
  }

  /** Two plain runs are never next to each other: a run always ends at a
      character that is not plain. */
  predicate NoAdjacentRuns(ts: seq<string>)
  {
    forall k :: 0 <= k < |ts| - 1 ==> !(IsRun(ts[k]) && IsRun(ts[k + 1]))
  }

  lemma {:induction false} LexNoAdjacentRuns(p: string)
    ensures NoAdjacentRuns(Lex(p))
    decreases |p|
  {
    if p != "" && !Dangling(p) {
      var k := TokenLength(p);
      var rest := Lex(p[k..]);
      LexNoAdjacentRuns(p[k..]);
      if IsRun(p[..k]) && rest != [] {
        assert k == RunLength(p);
        assert !IsPlain(p[k..][0]);
        assert !IsRun(rest[0]);
      }
      forall j | 0 <= j < |Lex(p)| - 1
        ensures !(IsRun(Lex(p)[j]) && IsRun(Lex(p)[j + 1]))
      {
        if j > 0 {
          assert Lex(p)[j] == rest[j - 1] && Lex(p)[j + 1] == rest[j];
        }
      }
    }
  }

  /** The length of the chunk at the front of bracket contents: a backslash
      takes the next character, `x-y` is a range, a final `x-` stays
      together, and anything else is one character. */
  function ChunkLength(s: string): (k: nat)
    requires s != ""
    ensures 0 < k <= |s| && k <= 3
  {
    if |s| == 1 then 1
    else if s[0] == '\\' then 2
    else if s[1] != '-' then 1
    else if |s| == 2 then 2
    else 3
  }

  /** The chunks of bracket contents after an optional leading `^`. */
  function SetChunks(s: string): seq<string>
    decreases |s|
  {
    if s == "" then [] else [s[..ChunkLength(s)]] + SetChunks(s[ChunkLength(s)..])
  }

  /** The tokens of non-empty bracket contents; a leading `^` comes first, on its own. */
  function SetLex(s: string): (ts: seq<string>)
    requires s != ""
    ensures ts != []
  {
    if s[0] == '^' then ["^"] + SetChunks(s[1..]) else SetChunks(s)
  }

  /** The kinds of token bracket contents split into. */
  predicate IsSetToken(t: string)
  {
    || |t| == 1
    || (|t| == 2 && (t[0] == '\\' || t[1] == '-'))
    || (|t| == 3 && t[0] != '\\' && t[1] == '-')
  }

  /** `SetChunks` loses nothing, each chunk is of one of the set kinds, and
      a two-character `x-` chunk only ever comes last. */
  lemma {:induction false} SetChunksShape(s: string)
    ensures Flatten(SetChunks(s)) == s
    ensures forall k :: 0 <= k < |SetChunks(s)| ==> IsSetToken(SetChunks(s)[k])
    ensures forall k :: 0 <= k < |SetChunks(s)| - 1 ==> |SetChunks(s)[k]| != 2 || SetChunks(s)[k][0] == '\\'
    decreases |s|
  {
    if s != "" {
      var k := ChunkLength(s);
      var rest := SetChunks(s[k..]);
      SetChunksShape(s[k..]);
      FlattenCons(s[..k], rest);
      assert s[..k] + s[k..] == s;
      assert IsSetToken(s[..k]);
      assert k == 2 && s[0] != '\\' ==> rest == [];
      forall j | 0 <= j < |SetChunks(s)|
        ensures IsSetToken(SetChunks(s)[j])
        ensures j < |SetChunks(s)| - 1 ==> |SetChunks(s)[j]| != 2 || SetChunks(s)[j][0] == '\\'
      {
        if j > 0 {
          assert SetChunks(s)[j] == rest[j - 1];
        }
      }
    }
  }

  /** `setTokenize` loses nothing, and a leading `^` is the first token, alone. */
  lemma SetLexShape(s: string)
    requires s != ""
    ensures Flatten(SetLex(s)) == s
    ensures s[0] == '^' <==> SetLex(s)[0] == "^"
  {
    if s[0] == '^' {
      SetChunksShape(s[1..]);
      FlattenCons("^", SetChunks(s[1..]));
      assert "^" + s[1..] == s;
    } else {
      SetChunksShape(s);
      assert SetChunks(s)[0] == s[..ChunkLength(s)];
      assert SetChunks(s)[0][0] == s[0];
    }
  }

  /** The loop invariant of `setTokenize` after `i` characters of `s` (the
      contents without a leading `^`): the buffer holds what was read since
      the last token, and the tokens so far followed by the chunks from the
      buffer's start are all the tokens. */
  predicate Chunking(target: seq<string>, s: string, tokens: seq<string>, buffer: string, i: int)
  {
    && 0 <= i <= |s|
    && |buffer| <= 2
    && |buffer| <= i
    && buffer == s[i - |buffer|..i]
    && (|buffer| == 2 ==> buffer[0] != '\\' && buffer[1] == '-')
    && target == tokens + SetChunks(s[i - |buffer|..])
  }

  /** Before the loop: the optional `^` has been taken off and emitted. */
  lemma ChunkingStart(target: seq<string>, contents: string, s: string, tokens: seq<string>)
    requires contents != "" && target == SetLex(contents)
    requires contents[0] == '^' ==> s == contents[1..] && tokens == ["^"]
    requires contents[0] != '^' ==> s == contents && tokens == []
    ensures Chunking(target, s, tokens, "", 0)
  {
    assert s[0..] == s;
  }

  /** A character read with nothing buffered is buffered. */
  lemma BufferStep(target: seq<string>, s: string, tokens: seq<string>, buffer: string, i: nat)
    requires Chunking(target, s, tokens, buffer, i) && i < |s| && buffer == ""
    ensures Chunking(target, s, tokens, buffer + [s[i]], i + 1)
  {
    assert s[i..i + 1] == buffer + [s[i]];
  }

  /** A buffered backslash and the character after it are one token. */
  lemma PairStep(target: seq<string>, s: string, tokens: seq<string>, buffer: string, i: nat)
    requires Chunking(target, s, tokens, buffer, i) && i < |s|
    requires |buffer| == 1 && buffer[0] == '\\'
    ensures Chunking(target, s, tokens + [buffer + [s[i]]], "", i + 1)
  {
    var t := s[i - 1..];
    assert ChunkLength(t) == 2;
    assert t[..2] == buffer + [s[i]];
    assert t[2..] == s[i + 1..];
  }

  /** A buffered character not followed by `-` is one token. */
  lemma SingleStep(target: seq<string>, s: string, tokens: seq<string>, buffer: string, i: nat)
    requires Chunking(target, s, tokens, buffer, i) && i < |s|
    requires |buffer| == 1 && buffer[0] != '\\' && s[i] != '-'
    ensures Chunking(target, s, tokens + [buffer], [s[i]], i + 1)
  {
    var t := s[i - 1..];
    assert ChunkLength(t) == 1;
    assert t[..1] == buffer;
    assert t[1..] == s[i..];
    assert s[i..i + 1] == [s[i]];
  }

  /** A buffered character followed by `-` may start a range. */
  lemma DashStep(target: seq<string>, s: string, tokens: seq<string>, buffer: string, i: nat)
    requires Chunking(target, s, tokens, buffer, i) && i < |s|
    requires |buffer| == 1 && buffer[0] != '\\' && s[i] == '-'
    ensures Chunking(target, s, tokens, buffer + [s[i]], i + 1)
  {
    assert s[i - 1..i + 1] == buffer + [s[i]];
  }

  /** `x-` and the character after it are one range token. */
  lemma RangeStep(target: seq<string>, s: string, tokens: seq<string>, buffer: string, i: nat)
    requires Chunking(target, s, tokens, buffer, i) && i < |s|
    requires |buffer| == 2
    ensures Chunking(target, s, tokens + [buffer + [s[i]]], "", i + 1)
  {
    var t := s[i - 2..];
    assert t[1] == '-';
    assert ChunkLength(t) == 3;
    assert t[..3] == buffer + [s[i]];
    assert t[3..] == s[i + 1..];
  }

  /** What is left in the buffer at the end is the last token. */
  lemma ChunkingDone(target: seq<string>, s: string, tokens: seq<string>, buffer: string)
    requires Chunking(target, s, tokens, buffer, |s|)
    ensures target == if buffer == "" then tokens else tokens + [buffer]
  {
    var t := s[|s| - |buffer|..];
    if buffer != "" {
      assert t == buffer;
      assert ChunkLength(t) == |buffer|;
      assert t[..|buffer|] == buffer && t[|buffer|..] == "";
      assert SetChunks(t) == [buffer] + SetChunks("");
    }
  }

  /** `setTokenize`: one pass with a buffer of up to two characters. */
  method SetTokenize(contents: string) returns (tokens: seq<string>)
    requires contents != ""
    ensures tokens == SetLex(contents)
  {
    ghost var target := SetLex(contents);
    var s := contents;
    var buffer := "";
    tokens := [];
    if s[0] == '^' {
      tokens := tokens + ["^"];
      s := s[1..];
    }
    ChunkingStart(target, contents, s, tokens);
    for i := 0 to |s|
      invariant Chunking(target, s, tokens, buffer, i)
    {
      var c := s[i];
      if |buffer| == 0 {
        BufferStep(target, s, tokens, buffer, i);
        buffer := buffer + [c];
      } else if |buffer| == 1 {
        var first := buffer[0];
        if first == '\\' {
          PairStep(target, s, tokens, buffer, i);
          tokens := tokens + [buffer + [c]];
          buffer := "";
        } else if c != '-' {
          SingleStep(target, s, tokens, buffer, i);
          tokens := tokens + [buffer];
          buffer := [c];
        } else {
          DashStep(target, s, tokens, buffer, i);
          buffer := buffer + [c];
        }
      } else if |buffer| == 2 {
        RangeStep(target, s, tokens, buffer, i);
        tokens := tokens + [buffer + [c]];
        buffer := "";
      }
    }
    ChunkingDone(target, s, tokens, buffer);
    if |buffer| > 0 {
      tokens := tokens + [buffer];
    }
  }

  /** `t` is a whole chunk when followed by `rest`. */
  predicate WholeChunk(t: string, rest: string)
  {
    || (|t| == 1 && (rest == "" || (t[0] != '\\' && rest[0] != '-')))
    || (|t| == 2 && (t[0] == '\\' || (t[1] == '-' && rest == "")))
    || (|t| == 3 && t[0] != '\\' && t[1] == '-')
  }

  /** A whole chunk comes off the front. */
  lemma ChunkCons(t: string, rest: string)
    requires WholeChunk(t, rest)
    ensures SetChunks(t + rest) == [t] + SetChunks(rest)
  {
    assert ChunkLength(t + rest) == |t|;
    assert (t + rest)[..|t|] == t;
    assert (t + rest)[|t|..] == rest;
  }

  /** The example text below, chunk by chunk. */
  lemma ExampleText()
    ensures "a-z-A-Z\\\\asA-zdf\\d.\\.-" == "a-z" + ("-" + ("A-Z" + ("\\\\" + ("a" + ("s" + ("A-z" + ("d" + ("f" + ("\\d" + ("." + ("\\." + ("-" + ""))))))))))))
  {
  }

  /** The example tokens below, one by one. */
  lemma ExampleTokens()
    ensures ["a-z"] + (["-"] + (["A-Z"] + (["\\\\"] + (["a"] + (["s"] + (["A-z"] + (["d"] + (["f"] + (["\\d"] + (["."] + (["\\."] + (["-"] + [])))))))))))) == ["a-z", "-", "A-Z", "\\\\", "a", "s", "A-z", "d", "f", "\\d", ".", "\\.", "-"]
  {
  }

  /** The tokens `setTokenize` gives for `a-z-A-Z\\asA-zdf\d.\.-`. */
  lemma SetLexExample(s: string)
    requires s == "a-z-A-Z\\\\asA-zdf\\d.\\.-"
    ensures SetLex(s) == ["a-z", "-", "A-Z", "\\\\", "a", "s", "A-z", "d", "f", "\\d", ".", "\\.", "-"]
  {
    ExampleText();
    var r13 := "";
    var r12 := "-" + r13;
    ChunkCons("-", r13);
    var r11 := "\\." + r12;
    ChunkCons("\\.", r12);
    var r10 := "." + r11;
    ChunkCons(".", r11);
    var r9 := "\\d" + r10;
    ChunkCons("\\d", r10);
    var r8 := "f" + r9;
    ChunkCons("f", r9);
    var r7 := "d" + r8;
    ChunkCons("d", r8);
    var r6 := "A-z" + r7;
    ChunkCons("A-z", r7);
    var r5 := "s" + r6;
    ChunkCons("s", r6);
    var r4 := "a" + r5;
    ChunkCons("a", r5);
    var r3 := "\\\\" + r4;
    ChunkCons("\\\\", r4);
    var r2 := "A-Z" + r3;
    ChunkCons("A-Z", r3);
    var r1 := "-" + r2;
    ChunkCons("-", r2);
    var r0 := "a-z" + r1;
    ChunkCons("a-z", r1);
    ExampleTokens();
  }

  /** The index of the first `sep` in `s`. */
  function IndexOf(s: string, sep: char): (i: nat)
    requires sep in s
    ensures i < |s| && s[i] == sep && sep !in s[..i]
  {
    if s[0] == sep then 0 else IndexOf(s[1..], sep) + 1
  }

  /** `strSplit`: the text before and after the first `sep`, or the whole
      text and "" when there is none. */
  function SplitOnce(s: string, sep: char): (r: (string, string))
    ensures sep in s ==> r.0 + [sep] + r.1 == s && sep !in r.0
    ensures sep !in s ==> r == (s, "")
  {
    if sep in s then
      var i := IndexOf(s, sep);
      assert s[..i] + [sep] + s[i + 1..] == s;
      (s[..i], s[i + 1..])
    else (s, "")
  }

  /** `strSplit`: one pass that stops at the first `splitter`. */
  method StrSplit(s: string, splitter: char) returns (before: string, after: string)
    ensures (before, after) == SplitOnce(s, splitter)
  {
    var buffer := "";
    for i := 0 to |s|
      invariant buffer == s[..i] && splitter !in buffer
    {
      if s[i] == splitter {
        assert IndexOf(s, splitter) == i by {
          IndexOfFirst(s, splitter, i);
        }
        return s[..i], s[i + 1..];
      }
      buffer := buffer + [s[i]];
    }
    assert s[..|s|] == s;
    return buffer, "";
  }

  lemma {:induction false} IndexOfFirst(s: string, sep: char, i: nat)
    requires i < |s| && s[i] == sep && sep !in s[..i]
    ensures IndexOf(s, sep) == i
    decreases i
  {
    if i > 0 {
      assert s[0] in s[..i];
      assert s[1..][..i - 1] == s[1..i];
      assert forall c :: c in s[1..i] ==> c in s[..i];
      IndexOfFirst(s[1..], sep, i - 1);
    }
  }
}
