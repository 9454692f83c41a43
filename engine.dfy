/** The postfix stack machine and the matching driver of regex_engine.py.

    `BuildFrom` is `build_nfa` over the token list produced by the parser; it
    keeps the Python loop's index, because the `[` branch shrinks the very
    list being iterated. `BuildNfa` is the same loop run against an `Arena`.
    `Compile` chains the parser, the stack machine and the subset
    construction; `Walk` is the DFA walk of `match`. */
module RegexEngine {
  import opened Results
  import opened Parser
  import opened Nfa
  import opened Dfa

  /** The tokens `build_nfa` treats as operators (regex_engine.py:11). */
  const BuildOps: set<char> := {'|', '*', '+', '?', '^', '$', '.', '[', ']'}

  /** The `[` branch (regex_engine.py:63-67): pop tokens from the FRONT of the
      list into a label up to the first `]`, then drop that `]`. */
  function TakeBracket(tokens: seq<char>): (r: (string, seq<char>))
    ensures ']' !in r.0
    ensures ']' in tokens ==> tokens == r.0 + [']'] + r.1
    ensures ']' !in tokens ==> r.0 == tokens && r.1 == []
  {
    if tokens == [] then ([], [])
    else if tokens[0] == ']' then ([], tokens[1..])
    else
      var tail := TakeBracket(tokens[1..]);
      assert tokens == [tokens[0]] + tokens[1..];
      ([tokens[0]] + tail.0, tail.1)
  }

  /** The end anchor (regex_engine.py:53-59): a fresh final state, reached by
      epsilon from the demoted old accept, becomes the accept. */
  function Anchor(g: Graph, f: Frag): (r: Built)
    requires InRange(g, f)
    ensures |r.graph| == |g| + 1 && r.frag == Frag(f.start, |g|)
    ensures ValidGraph(g) ==> ValidGraph(r.graph)
  {
    var g1 := g + [NState(true, map[])];
    var g2 := Link(g1, f.accept, Eps, [|g|]);
    assert ValidGraph(g) ==> ValidGraph(g1) by {
      if ValidGraph(g) {
        forall i | 0 <= i < |g1| ensures TargetsBelow(g1[i], |g1|) {
          if i < |g| {
            assert g1[i] == g[i];
          }
        }
      }
    }
    LinkValid(g1, f.accept, Eps, [|g|]);
    DemoteValid(g2, f.accept);
    Built(Demote(g2, f.accept), Frag(f.start, |g|))
  }

  lemma AnchorShape(g: Graph, f: Frag)
    requires Fragment(g, f)
    ensures var r := Anchor(g, f);
      Fragment(r.graph, r.frag) && Keeps(g, r.graph, {f.accept}) &&
      r.graph[f.accept] == NState(false, map[Eps := [r.frag.accept]])
  {
  }

  ghost predicate AllInRange(g: Graph, stack: seq<Frag>)
  {
    forall k :: 0 <= k < |stack| ==> InRange(g, stack[k])
  }

  lemma AllInRangeGrow(g: Graph, r: Graph, stack: seq<Frag>)
    requires AllInRange(g, stack) && |g| <= |r|
    ensures AllInRange(r, stack)
  {
  }

  /** Popping down to `keep` fragments and pushing one of a grown arena keeps
      every fragment of the stack inside the arena. */
  lemma AllInRangePush(g: Graph, r: Graph, stack: seq<Frag>, keep: nat, f: Frag)
    requires AllInRange(g, stack) && keep <= |stack| && |g| <= |r| && InRange(r, f)
    ensures AllInRange(r, stack[..keep] + [f])
  {
    var s := stack[..keep] + [f];
    forall k | 0 <= k < |s| ensures InRange(r, s[k]) {
      if k < keep {
        assert s[k] == stack[k];
      }
    }
  }

  /** `build_nfa(tokens, alphabet)` (regex_engine.py:8-74) from loop index `i`
      with fragment stack `stack`; every failure is `Err`. */
  function BuildFrom(g: Graph, tokens: seq<char>, i: nat, stack: seq<Frag>, alphabet: seq<string>): (r: Result<Built>)
    requires ValidGraph(g) && AllInRange(g, stack)
    ensures r.Ok? ==> ValidGraph(r.value.graph) && InRange(r.value.graph, r.value.frag) && |g| <= |r.value.graph|
    decreases |tokens| - i
  {
    if |tokens| <= i then
      if stack == [] then Err else Ok(Built(g, stack[|stack| - 1]))
    else
      var c := tokens[i];
      var n := |stack|;
      if c !in BuildOps then
        var b := Basic(g, [c]);
        BuildFrom(b.graph, tokens, i + 1, stack + [b.frag], alphabet)
      else if c == '.' || c == '|' then
        if n < 2 then Err
        else
          var b := if c == '.' then Concat(g, stack[n - 2], stack[n - 1]) else Alternate(g, stack[n - 2], stack[n - 1]);
          BuildFrom(b.graph, tokens, i + 1, stack[..n - 2] + [b.frag], alphabet)
      else if c == '*' || c == '+' || c == '?' then
        if n < 1 then Err
        else
          var b := if c == '*' then Star(g, stack[n - 1]) else if c == '+' then Plus(g, stack[n - 1]) else Optional(g, stack[n - 1]);
          BuildFrom(b.graph, tokens, i + 1, stack[..n - 1] + [b.frag], alphabet)
      else if c == '^' then
        // An empty stack reaches `stack.pop()` at line 44 and fails.
        if n == 0 then Err
        else
          var b := Negate(g, stack[n - 1], alphabet);
          BuildFrom(b.graph, tokens, i + 1, stack[..n - 1] + [b.frag], alphabet)
      else if c == '$' then
        if n != 1 then Err
        else
          var b := Anchor(g, stack[0]);
          BuildFrom(b.graph, tokens, i + 1, [b.frag], alphabet)
      else if c == '[' then
        var bracket := TakeBracket(tokens);
        var b := Basic(g, bracket.0);
        BuildFrom(b.graph, bracket.1, i + 1, stack + [b.frag], alphabet)
      else
        // A stray `]` matches no branch and is skipped.
        BuildFrom(g, tokens, i + 1, stack, alphabet)
  }

  /** The arity errors of `build_nfa`: `.` and `|` need two fragments, `*`,
      `+`, `?` and `^` one, and `$` exactly one; a stray `]` changes nothing. */
  lemma BuildArity(g: Graph, tokens: seq<char>, i: nat, stack: seq<Frag>, alphabet: seq<string>)
    requires ValidGraph(g) && AllInRange(g, stack) && i < |tokens|
    ensures tokens[i] in {'.', '|'} && |stack| < 2 ==> BuildFrom(g, tokens, i, stack, alphabet) == Err
    ensures tokens[i] in {'*', '+', '?', '^'} && stack == [] ==> BuildFrom(g, tokens, i, stack, alphabet) == Err
    ensures tokens[i] == '$' && |stack| != 1 ==> BuildFrom(g, tokens, i, stack, alphabet) == Err
    ensures tokens[i] == ']' ==> BuildFrom(g, tokens, i, stack, alphabet) == BuildFrom(g, tokens, i + 1, stack, alphabet)
  {
  }

  /** Once the tokens are used up, `build_nfa` fails on an empty stack and
      otherwise returns the top fragment, whatever lies beneath it. */
  lemma BuildEnd(g: Graph, tokens: seq<char>, i: nat, stack: seq<Frag>, alphabet: seq<string>)
    requires ValidGraph(g) && AllInRange(g, stack) && |tokens| <= i
    ensures BuildFrom(g, tokens, i, stack, alphabet).Err? <==> stack == []
    ensures stack != [] ==> BuildFrom(g, tokens, i, stack, alphabet) == Ok(Built(g, stack[|stack| - 1]))
  {
  }

  /** A plain character pushes its basic fragment and moves on. */
  lemma BuildLiteralStep(g: Graph, tokens: seq<char>, i: nat, stack: seq<Frag>, alphabet: seq<string>)
    requires ValidGraph(g) && AllInRange(g, stack) && i < |tokens| && tokens[i] !in BuildOps
    ensures var b := Basic(g, [tokens[i]]);
      AllInRange(b.graph, stack + [b.frag]) &&
      BuildFrom(g, tokens, i, stack, alphabet) == BuildFrom(b.graph, tokens, i + 1, stack + [b.frag], alphabet)
  {
    AllInRangeGrow(g, Basic(g, [tokens[i]]).graph, stack);
  }

  /** A `[` pushes the basic fragment of the label taken from the front of the
      tokens and goes on over what is left of them. */
  lemma BuildBracketStep(g: Graph, tokens: seq<char>, i: nat, stack: seq<Frag>, alphabet: seq<string>)
    requires ValidGraph(g) && AllInRange(g, stack) && i < |tokens| && tokens[i] == '['
    ensures var b := Basic(g, TakeBracket(tokens).0);
      AllInRange(b.graph, stack + [b.frag]) &&
      BuildFrom(g, tokens, i, stack, alphabet) == BuildFrom(b.graph, TakeBracket(tokens).1, i + 1, stack + [b.frag], alphabet)
  {
    AllInRangeGrow(g, Basic(g, TakeBracket(tokens).0).graph, stack);
  }

  /** The loop at regex_engine.py:64-67, popping from the front of the list. */
  method TakeCharSet(tokens: seq<char>) returns (charSet: string, rest: seq<char>)
    ensures (charSet, rest) == TakeBracket(tokens)
  {
    rest := tokens;
    charSet := "";
    assert charSet + TakeBracket(rest).0 == TakeBracket(rest).0;
    while rest != [] && rest[0] != ']'
      invariant TakeBracket(tokens) == (charSet + TakeBracket(rest).0, TakeBracket(rest).1)
    {
      TakeBracketStep(charSet, rest);
      charSet := charSet + [rest[0]];
      rest := rest[1..];
    }
    assert charSet + TakeBracket(rest).0 == charSet;
    if rest != [] {
      rest := rest[1..];
    }
  }

  /** Popping one token other than `]` moves it from the front of the list to
      the end of the label. */
  lemma TakeBracketStep(front: string, rest: seq<char>)
    requires rest != [] && rest[0] != ']'
    ensures front + TakeBracket(rest).0 == (front + [rest[0]]) + TakeBracket(rest[1..]).0
    ensures TakeBracket(rest).1 == TakeBracket(rest[1..]).1
  {
    var tail := TakeBracket(rest[1..]);
    assert TakeBracket(rest) == ([rest[0]] + tail.0, tail.1);
    assert front + ([rest[0]] + tail.0) == (front + [rest[0]]) + tail.0 by {
      var x, y := front + ([rest[0]] + tail.0), (front + [rest[0]]) + tail.0;
      assert |x| == |y|;
      forall k | 0 <= k < |x| ensures x[k] == y[k] {
        if k < |front| {
        } else if k == |front| {
        } else {
        }
      }
    }
  }

  /** Every fragment on the stack has the single-entry/single-exit shape,
      and no two of them share an endpoint. */
  ghost predicate Shaped(g: Graph, stack: seq<Frag>)
  {
    (forall k :: 0 <= k < |stack| ==> Fragment(g, stack[k])) &&
    (forall k, l :: 0 <= k < l < |stack| ==> Apart(stack[k], stack[l]))
  }

  /** Replacing the top `|stack| - keep` fragments by `f` keeps the stack
      shaped, when the arena changed only at states that are no endpoint of
      a kept fragment and `f` shares no endpoint with them. */
  lemma ShapedPush(g: Graph, r: Graph, stack: seq<Frag>, keep: nat, f: Frag, changed: set<nat>)
    requires Shaped(g, stack) && keep <= |stack| && |g| <= |r| && Keeps(g, r, changed) && Fragment(r, f)
    requires forall k :: 0 <= k < keep ==>
      Apart(stack[k], f) && stack[k].start !in changed && stack[k].accept !in changed
    ensures Shaped(r, stack[..keep] + [f])
  {
    var s := stack[..keep] + [f];
    forall k | 0 <= k < |s| ensures Fragment(r, s[k]) {
      if k < keep {
        assert s[k] == stack[k] && Fragment(g, stack[k]);
      }
    }
    forall k, l | 0 <= k < l < |s| ensures Apart(s[k], s[l]) {
      assert s[k] == stack[k];
      if l < keep {
        assert s[l] == stack[l];
      }
    }
  }

  /** A fragment of two fresh states shares no endpoint with the stack. */
  lemma FreshApart(g: Graph, stack: seq<Frag>, keep: nat)
    requires AllInRange(g, stack) && keep <= |stack|
    ensures forall k :: 0 <= k < keep ==> Apart(stack[k], Frag(|g|, |g| + 1))
  {
  }

  /** The binary branch: the combined fragment is shaped and the rest of the
      stack stays so. */
  lemma BinaryShaped(g: Graph, stack: seq<Frag>, c: char)
    requires ValidGraph(g) && AllInRange(g, stack) && Shaped(g, stack) && |stack| >= 2 && (c == '.' || c == '|')
    ensures var n := |stack|;
      var b := if c == '.' then Concat(g, stack[n - 2], stack[n - 1]) else Alternate(g, stack[n - 2], stack[n - 1]);
      Shaped(b.graph, stack[..n - 2] + [b.frag])
  {
    var n := |stack|;
    var f1, f2 := stack[n - 2], stack[n - 1];
    assert Fragment(g, f1) && Fragment(g, f2) && Apart(f1, f2);
    if c == '.' {
      ConcatShape(g, f1, f2);
      ShapedPush(g, Concat(g, f1, f2).graph, stack, n - 2, Concat(g, f1, f2).frag, {f1.accept});
    } else {
      AlternateShape(g, f1, f2);
      ShapedPush(g, Alternate(g, f1, f2).graph, stack, n - 2, Alternate(g, f1, f2).frag, {f1.accept, f2.accept});
    }
  }

  /** The one-operand branches: the wrapped or negated fragment is shaped and
      the rest of the stack stays so. */
  lemma UnaryShaped(g: Graph, stack: seq<Frag>, c: char, alphabet: seq<string>)
    requires ValidGraph(g) && AllInRange(g, stack) && Shaped(g, stack) && |stack| >= 1 && c in {'*', '+', '?', '^'}
    ensures var n := |stack|;
      var b := if c == '*' then Star(g, stack[n - 1]) else if c == '+' then Plus(g, stack[n - 1])
        else if c == '?' then Optional(g, stack[n - 1]) else Negate(g, stack[n - 1], alphabet);
      Shaped(b.graph, stack[..n - 1] + [b.frag])
  {
    var n := |stack|;
    var f := stack[n - 1];
    assert Fragment(g, f);
    if c == '*' {
      StarShape(g, f);
      ShapedPush(g, Star(g, f).graph, stack, n - 1, Star(g, f).frag, {f.accept});
    } else if c == '+' {
      PlusShape(g, f);
      ShapedPush(g, Plus(g, f).graph, stack, n - 1, Plus(g, f).frag, {f.accept});
    } else if c == '?' {
      OptionalShape(g, f);
      ShapedPush(g, Optional(g, f).graph, stack, n - 1, Optional(g, f).frag, {f.accept});
    } else {
      NegateShape(g, f, alphabet);
      ShapedPush(g, Negate(g, f, alphabet).graph, stack, n - 1, Negate(g, f, alphabet).frag, {});
    }
  }

  /** The branches that push a basic fragment of fresh states. */
  lemma BasicShaped(g: Graph, stack: seq<Frag>, sym: string)
    requires AllInRange(g, stack) && Shaped(g, stack)
    ensures Shaped(Basic(g, sym).graph, stack + [Basic(g, sym).frag])
  {
    BasicShape(g, sym);
    FreshApart(g, stack, |stack|);
    ShapedPush(g, Basic(g, sym).graph, stack, |stack|, Basic(g, sym).frag, {});
    assert stack[..|stack|] == stack;
  }

  /** Every combinator `build_nfa` applies keeps the shape of the fragments
      on the stack, so a successful build returns a fragment with a non-final
      start and a final accept without transitions. */
  lemma {:induction false} BuildShape(g: Graph, tokens: seq<char>, i: nat, stack: seq<Frag>, alphabet: seq<string>)
    requires ValidGraph(g) && AllInRange(g, stack) && Shaped(g, stack)
    ensures var r := BuildFrom(g, tokens, i, stack, alphabet);
      r.Ok? ==> Fragment(r.value.graph, r.value.frag)
    decreases |tokens| - i
  {
    if |tokens| <= i {
      if stack != [] {
        assert Fragment(g, stack[|stack| - 1]);
      }
    } else {
      var c := tokens[i];
      var n := |stack|;
      if c !in BuildOps {
        var b := Basic(g, [c]);
        BuildLiteralStep(g, tokens, i, stack, alphabet);
        BasicShaped(g, stack, [c]);
        BuildShape(b.graph, tokens, i + 1, stack + [b.frag], alphabet);
      } else if c == '[' {
        var b := Basic(g, TakeBracket(tokens).0);
        BuildBracketStep(g, tokens, i, stack, alphabet);
        BasicShaped(g, stack, TakeBracket(tokens).0);
        BuildShape(b.graph, TakeBracket(tokens).1, i + 1, stack + [b.frag], alphabet);
      } else if (c == '.' || c == '|') && n >= 2 {
        var b := if c == '.' then Concat(g, stack[n - 2], stack[n - 1]) else Alternate(g, stack[n - 2], stack[n - 1]);
        BinaryShaped(g, stack, c);
        AllInRangePush(g, b.graph, stack, n - 2, b.frag);
        BuildShape(b.graph, tokens, i + 1, stack[..n - 2] + [b.frag], alphabet);
      } else if c in {'*', '+', '?', '^'} && n >= 1 {
        var b := if c == '*' then Star(g, stack[n - 1]) else if c == '+' then Plus(g, stack[n - 1])
          else if c == '?' then Optional(g, stack[n - 1]) else Negate(g, stack[n - 1], alphabet);
        UnaryShaped(g, stack, c, alphabet);
        AllInRangePush(g, b.graph, stack, n - 1, b.frag);
        BuildShape(b.graph, tokens, i + 1, stack[..n - 1] + [b.frag], alphabet);
      } else if c == '$' && n == 1 {
        var b := Anchor(g, stack[0]);
        AnchorShape(g, stack[0]);
        assert Shaped(b.graph, [b.frag]);
        BuildShape(b.graph, tokens, i + 1, [b.frag], alphabet);
      } else if c == ']' {
        BuildShape(g, tokens, i + 1, stack, alphabet);
      }
    }
  }

  /** `regex_to_nfa` returns a fragment of the single-entry/single-exit shape. */
  lemma NfaOfShape(pattern: string, alphabet: seq<string>)
    ensures NfaOf(pattern, alphabet).Ok? ==> Fragment(NfaOf(pattern, alphabet).value.graph, NfaOf(pattern, alphabet).value.frag)
  {
    if Parse(pattern).Ok? {
      BuildShape([], Parse(pattern).value, 0, [], alphabet);
    }
  }

  /** The `.` and `|` branch of `build_nfa` on its two popped operands. */
  method ApplyBinary(arena: Arena, c: char, f1: Frag, f2: Frag) returns (f: Frag)
    requires c == '.' || c == '|'
    requires InRange(arena.states, f1) && InRange(arena.states, f2)
    modifies arena
    ensures Built(arena.states, f) ==
      if c == '.' then Concat(old(arena.states), f1, f2) else Alternate(old(arena.states), f1, f2)
  {
    if c == '.' {
      f := arena.ConcatenateNfa(f1, f2);
    } else {
      f := arena.AlternateNfa(f1, f2);
    }
  }

  /** The `*`, `+` and `?` branch of `build_nfa` on its popped operand. */
  method ApplyQuantifier(arena: Arena, c: char, f0: Frag) returns (f: Frag)
    requires c == '*' || c == '+' || c == '?'
    requires InRange(arena.states, f0)
    modifies arena
    ensures Built(arena.states, f) ==
      if c == '*' then Star(old(arena.states), f0)
      else if c == '+' then Plus(old(arena.states), f0)
      else Optional(old(arena.states), f0)
  {
    if c == '*' {
      f := arena.KleeneStarNfa(f0);
    } else if c == '+' {
      f := arena.OneOrMoreNfa(f0);
    } else {
      f := arena.ZeroOrOneNfa(f0);
    }
  }

  /** The `$` branch of `build_nfa` (regex_engine.py:53-59), written inline
      there: a fresh final state becomes the accept of the only fragment. */
  method AnchorNfa(arena: Arena, f0: Frag) returns (f: Frag)
    requires InRange(arena.states, f0)
    modifies arena
    ensures Built(arena.states, f) == Anchor(old(arena.states), f0)
  {
    var a := arena.AddState(true);
    arena.SetTransitions(f0.accept, Eps, [a]);
    arena.ClearFinal(f0.accept);
    f := Frag(f0.start, a);
  }

  /** `build_nfa(tokens, alphabet)` run against the arena: the Python `for`
      is an index loop over a token list that the `[` branch shrinks. */
  method BuildNfa(arena: Arena, tokens: seq<char>, alphabet: seq<string>) returns (r: Result<Frag>)
    requires ValidGraph(arena.states)
    modifies arena
    ensures var spec := BuildFrom(old(arena.states), tokens, 0, [], alphabet);
      r.Ok? == spec.Ok? && (r.Ok? ==> Built(arena.states, r.value) == spec.value)
  {
    var toks := tokens;
    var stack: seq<Frag> := [];
    var i := 0;
    while i < |toks|
      invariant ValidGraph(arena.states) && AllInRange(arena.states, stack)
      invariant BuildFrom(arena.states, toks, i, stack, alphabet) == BuildFrom(old(arena.states), tokens, 0, [], alphabet)
      decreases |toks| - i
    {
      ghost var g, stack0 := arena.states, stack;
      var c := toks[i];
      var n := |stack|;
      if c !in BuildOps {
        var f := arena.CreateBasicNfa([c]);
        BuildLiteralStep(g, toks, i, stack, alphabet);
        AllInRangePush(g, arena.states, stack, n, f);
        stack := stack + [f];
      } else if c == '.' || c == '|' {
        if n < 2 {
          return Err;
        }
        var f2, f1 := stack[n - 1], stack[n - 2];
        stack := stack[..n - 2];
        var f := ApplyBinary(arena, c, f1, f2);
        AllInRangePush(g, arena.states, stack0, n - 2, f);
        stack := stack + [f];
      } else if c == '*' || c == '+' || c == '?' {
        if n < 1 {
          return Err;
        }
        var f0 := stack[n - 1];
        stack := stack[..n - 1];
        var f := ApplyQuantifier(arena, c, f0);
        AllInRangePush(g, arena.states, stack0, n - 1, f);
        stack := stack + [f];
      } else if c == '^' {
        if n == 0 {
          return Err;
        }
        var f0 := stack[n - 1];
        stack := stack[..n - 1];
        var f := arena.NegateNfa(f0, alphabet);
        AllInRangePush(g, arena.states, stack0, n - 1, f);
        stack := stack + [f];
      } else if c == '$' {
        if n != 1 {
          return Err;
        }
        var f := AnchorNfa(arena, stack[0]);
        stack := [f];
      } else if c == '[' {
        BuildBracketStep(g, toks, i, stack, alphabet);
        var charSet, rest := TakeCharSet(toks);
        toks := rest;
        var f := arena.CreateBasicNfa(charSet);
        AllInRangePush(g, arena.states, stack, n, f);
        stack := stack + [f];
      } else {
        BuildArity(g, toks, i, stack, alphabet);
      }
      i := i + 1;
    }
    if stack == [] {
      return Err;
    }
    r := Ok(stack[|stack| - 1]);
  }

  /** `regex_to_nfa(pattern, alphabet)` (regex_engine.py:76-78) on a fresh arena. */
  function NfaOf(pattern: string, alphabet: seq<string>): (r: Result<Built>)
    ensures r.Ok? ==> ValidGraph(r.value.graph) && InRange(r.value.graph, r.value.frag)
  {
    var tokens :- Parse(pattern);
    BuildFrom([], tokens, 0, [], alphabet)
  }

  method RegexToNfa(pattern: string, alphabet: seq<string>) returns (r: Result<Built>)
    ensures r == NfaOf(pattern, alphabet)
  {
    var parsed := ParseRegex(pattern);
    if parsed.Err? {
      return Err;
    }
    var arena := new Arena();
    var f := BuildNfa(arena, parsed.value, alphabet);
    if f.Err? {
      return Err;
    }
    r := Ok(Built(arena.states, f.value));
  }

  /** What `match` builds before walking: the DFA of the pattern's NFA. */
  function Compile(pattern: string, alphabet: seq<string>): (r: Result<Work>)
    ensures r.Ok? ==> Deterministic(r.value.states) && |r.value.states| > 0 && !r.value.states[0].isFinal
    ensures r.Ok? <==> NfaOf(pattern, alphabet).Ok?
  {
    var b :- NfaOf(pattern, alphabet);
    SubsetCorrect(b.graph, b.frag.start, alphabet);
    Ok(SubsetConstruction(b.graph, b.frag.start, alphabet))
  }

  /** The walk of `match` (regex_engine.py:84-91) from DFA state `k`: a
      character with no transition rejects at once. */
  function Walk(states: seq<NState>, k: nat, s: string): bool
    requires Deterministic(states) && k < |states|
    decreases |s|
  {
    if s == [] then states[k].isFinal
    else if [s[0]] in states[k].trans then Walk(states, states[k].trans[[s[0]]][0], s[1..])
    else false
  }

  /** `match(pattern, string, alphabet)`; a pattern that fails to parse or
      build gives `Err`. */
  function MatchSpec(pattern: string, s: string, alphabet: seq<string>): Result<bool>
  {
    var d :- Compile(pattern, alphabet);
    Ok(Walk(d.states, 0, s))
  }

  method Match(pattern: string, s: string, alphabet: seq<string>) returns (r: Result<bool>)
    ensures r == MatchSpec(pattern, s, alphabet)
  {
    var nfa := RegexToNfa(pattern, alphabet);
    if nfa.Err? {
      return Err;
    }
    var d := NfaToDfa(nfa.value.graph, nfa.value.frag.start, alphabet);
    var current: nat := 0;
    for i := 0 to |s|
      invariant Deterministic(d.states) && current < |d.states|
      invariant Walk(d.states, current, s[i..]) == Walk(d.states, 0, s)
    {
      var c := [s[i]];
      if c in d.states[current].trans {
        current := d.states[current].trans[c][0];
      } else {
        return Ok(false);
      }
    }
    assert s[|s|..] == [];
    r := Ok(d.states[current].isFinal);
  }

  // ---------------------------------------------------------------------------
  // What `match` accepts

  lemma ValidWordCons(alphabet: seq<string>, s: string)
    requires s != []
    ensures ValidWord(alphabet, s) <==> [s[0]] in alphabet && [s[0]] != Eps && ValidWord(alphabet, s[1..])
  {
    if [s[0]] in alphabet && [s[0]] != Eps && ValidWord(alphabet, s[1..]) {
      forall i | 0 <= i < |s| ensures [s[i]] in alphabet && [s[i]] != Eps {
        if i > 0 {
          assert s[i] == s[1..][i - 1];
        }
      }
    }
  }

  /** The DFA walk from the state of closure `keys[k]` accepts `s` exactly
      when every character is a non-epsilon alphabet symbol and subset
      simulation from that closure ends in a set holding a final NFA state,
      other than the closure of the start: the start state is never final. */
  lemma {:induction false} WalkSimulates(g: Graph, alphabet: seq<string>, d: Work, k: nat, s: string)
    requires Complete(g, alphabet, d) && k < |d.keys|
    ensures Walk(d.states, k, s) <==>
      ValidWord(alphabet, s) && Sim(g, d.keys[k], s) != d.keys[0] && AnyFinal(g, Sim(g, d.keys[k], s))
    decreases |s|
  {
    if s != [] {
      var c := [s[0]];
      PartialAt(g, alphabet, d, {}, |alphabet|, k);
      assert alphabet[..|alphabet|] == alphabet;
      ValidWordCons(alphabet, s);
      if c in d.states[k].trans {
        var j := d.states[k].trans[c][0];
        WalkSimulates(g, alphabet, d, j, s[1..]);
      } else if c in alphabet && c != Eps {
        SimEmpty(g, s[1..]);
      }
    }
  }

  /** `match` against subset simulation on the pattern's NFA, from the
      closure of its start state. */
  lemma MatchSimulates(pattern: string, s: string, alphabet: seq<string>)
    ensures NfaOf(pattern, alphabet).Err? ==> MatchSpec(pattern, s, alphabet) == Err
    ensures NfaOf(pattern, alphabet).Ok? ==>
      var b := NfaOf(pattern, alphabet).value;
      var init := Closure(b.graph, {b.frag.start});
      MatchSpec(pattern, s, alphabet) == Ok(ValidWord(alphabet, s) && Sim(b.graph, init, s) != init && AnyFinal(b.graph, Sim(b.graph, init, s)))
  {
    if NfaOf(pattern, alphabet).Ok? {
      var b := NfaOf(pattern, alphabet).value;
      SubsetCorrect(b.graph, b.frag.start, alphabet);
      WalkSimulates(b.graph, alphabet, SubsetConstruction(b.graph, b.frag.start, alphabet), 0, s);
    }
  }

  /** The empty string never matches: the DFA start state is created
      non-final (dfa.py:23) and never replaced. */
  lemma EmptyNeverMatches(pattern: string, alphabet: seq<string>)
    ensures MatchSpec(pattern, "", alphabet) != Ok(true)
  {
  }

  // ---------------------------------------------------------------------------
  // Patterns without operators

  /** A run of literal tokens pushes one basic fragment per token, and
      `build_nfa` returns the top one, the fragment of the LAST token: no
      concatenation is ever applied. */
  lemma {:induction false} BuildLiterals(g: Graph, tokens: seq<char>, i: nat, stack: seq<Frag>, alphabet: seq<string>)
    requires ValidGraph(g) && AllInRange(g, stack) && i < |tokens|
    requires forall k :: i <= k < |tokens| ==> tokens[k] !in BuildOps
    ensures var r := BuildFrom(g, tokens, i, stack, alphabet);
      r.Ok? && |r.value.graph| >= 2 &&
      r.value.frag == Frag(|r.value.graph| - 2, |r.value.graph| - 1) &&
      r.value.graph[|r.value.graph| - 2] == NState(false, map[[tokens[|tokens| - 1]] := [|r.value.graph| - 1]]) &&
      r.value.graph[|r.value.graph| - 1] == NState(true, map[])
    decreases |tokens| - i
  {
    var b := Basic(g, [tokens[i]]);
    AllInRangeGrow(g, b.graph, stack);
    if i + 1 < |tokens| {
      BuildLiterals(b.graph, tokens, i + 1, stack + [b.frag], alphabet);
    }
  }

  /** The closures reached from a start state `m` whose only transition is
      `sym` to an accept `a` with no transitions. */
  lemma SingleEdge(g: Graph, m: nat, a: nat, sym: string)
    requires ValidGraph(g) && m < |g| && a < |g| && m != a && sym != Eps
    requires g[m] == NState(false, map[sym := [a]]) && g[a] == NState(true, map[])
    ensures Closure(g, {m}) == {m}
    ensures forall x :: Target(g, {m}, x) == if x == sym then {a} else {}
    ensures forall x :: Target(g, {a}, x) == {}
  {
    assert Succ(g, m, Eps) == [] && Succ(g, a, Eps) == [];
    ClosedIsFixed(g, {m});
    ClosedIsFixed(g, {a});
    ClosureOfEmpty(g);
    forall x
      ensures Moved(g, {m}, x) == (if x == sym then {a} else {})
      ensures Moved(g, {a}, x) == {}
    {
      SingleMove(g, m, a, sym, x);
    }
  }

  lemma SingleMove(g: Graph, m: nat, a: nat, sym: string, x: string)
    requires ValidGraph(g) && m < |g| && a < |g| && m != a
    requires g[m] == NState(false, map[sym := [a]]) && g[a] == NState(true, map[])
    ensures Moved(g, {m}, x) == (if x == sym then {a} else {})
    ensures Moved(g, {a}, x) == {}
  {
    if x == sym {
      assert Succ(g, m, x) == [a];
      assert m in {m} && Succ(g, m, x)[0] == a;
      assert a in Moved(g, {m}, x);
    } else {
      assert Succ(g, m, x) == [];
    }
    assert Succ(g, a, x) == [];
  }

  /** Subset simulation from a start state `m` whose only transition is `sym`
      to an accept `a` with no transitions accepts exactly the word `sym`,
      when that is a single alphabet character. */
  lemma SingleEdgeSim(g: Graph, m: nat, a: nat, sym: string, alphabet: seq<string>, s: string)
    requires ValidGraph(g) && m < |g| && a < |g| && m != a && sym != Eps
    requires g[m] == NState(false, map[sym := [a]]) && g[a] == NState(true, map[])
    ensures Closure(g, {m}) == {m}
    ensures ValidWord(alphabet, s) && Sim(g, {m}, s) != {m} && AnyFinal(g, Sim(g, {m}, s)) <==>
      s == sym && |sym| == 1 && sym in alphabet
  {
    SingleEdge(g, m, a, sym);
    if s != [] {
      ValidWordCons(alphabet, s);
      if [s[0]] == sym {
        if s[1..] == [] {
          assert s == sym;
          assert a in Sim(g, {m}, s) && g[a].isFinal;
        } else {
          SimEmpty(g, s[1..][1..]);
        }
      } else {
        SimEmpty(g, s[1..]);
      }
    }
  }

  /** A start state `m` whose only transition is an epsilon edge to an accept
      `a` with no transitions: the start closure holds both, and no symbol
      leaves it, so subset simulation accepts nothing. */
  lemma EpsEdgeSim(g: Graph, m: nat, a: nat, alphabet: seq<string>, s: string)
    requires ValidGraph(g) && m < |g| && a < |g| && m != a
    requires g[m] == NState(false, map[Eps := [a]]) && g[a] == NState(true, map[])
    ensures var init := Closure(g, {m});
      !(ValidWord(alphabet, s) && Sim(g, init, s) != init && AnyFinal(g, Sim(g, init, s)))
  {
    var init := Closure(g, {m});
    SingleMove(g, m, a, Eps, Eps);
    assert EpsStep(g, {m}) == {m, a};
    assert Succ(g, a, Eps) == [];
    ClosedIsFixed(g, {m, a});
    assert init == {m, a};
    if s != [] && ValidWord(alphabet, s) {
      ValidWordCons(alphabet, s);
      var x := [s[0]];
      SingleMove(g, m, a, Eps, x);
      assert Moved(g, {m, a}, x) == {} by {
        assert forall t :: t in Moved(g, {m, a}, x) ==> t in Moved(g, {m}, x) || t in Moved(g, {a}, x);
      }
      ClosureOfEmpty(g);
      SimEmpty(g, s[1..]);
    }
  }

  /** A pattern of plain characters matches exactly the one-character string
      of its LAST character, and only when that character is an alphabet
      symbol other than epsilon: "ab" matches "b" and neither "ab" nor "a". */
  lemma LiteralPatternMatchesLastChar(pattern: string, s: string, alphabet: seq<string>)
    requires pattern != []
    requires forall k :: 0 <= k < |pattern| ==> pattern[k] !in Operators && pattern[k] !in BuildOps && pattern[k] != '\\'
    ensures var c := [pattern[|pattern| - 1]];
      MatchSpec(pattern, s, alphabet) == Ok(s == c && c in alphabet && c != Eps)
  {
    var c := [pattern[|pattern| - 1]];
    ParseLiterals(pattern);
    BuildLiterals([], pattern, 0, [], alphabet);
    var b := NfaOf(pattern, alphabet).value;
    if c == Eps {
      EpsEdgeSim(b.graph, |b.graph| - 2, |b.graph| - 1, alphabet, s);
    } else {
      SingleEdgeSim(b.graph, |b.graph| - 2, |b.graph| - 1, c, alphabet, s);
    }
    MatchSimulates(pattern, s, alphabet);
  }

  lemma ParseBracketExample()
    ensures Parse("[^a]") == Ok("[^a]")
  {
    BracketVerbatim(Initial, "^a", "");
    var scanned := Initial.(output := Initial.output + "[" + "^a" + "]", charSet := false);
    assert "[" + "^a" + "]" + "" == "[^a]";
    assert ScanFrom(scanned, "") == Ok(scanned);
    assert scanned.output + Reversed(scanned.stack) == "[^a]";
  }

  lemma BuildBracketExample(alphabet: seq<string>)
    ensures NfaOf("[^a]", alphabet) == Ok(Basic([], "[^a"))
  {
    ParseBracketExample();
    assert "]"[1..] == [];
    assert TakeBracket("]") == ([], []);
    assert "a]"[0] == 'a' && "a]"[1..] == "]" && ['a'] + [] == "a";
    assert TakeBracket("a]") == ("a", []);
    assert "^a]"[0] == '^' && "^a]"[1..] == "a]" && ['^'] + "a" == "^a";
    assert TakeBracket("^a]") == ("^a", []);
    assert "[^a]"[0] == '[' && "[^a]"[1..] == "^a]" && ['['] + "^a" == "[^a";
    assert TakeBracket("[^a]") == ("[^a", []);
    BuildBracketStep([], "[^a]", 0, [], alphabet);
    assert [] + [Basic([], "[^a").frag] == [Basic([], "[^a").frag];
    BuildEnd(Basic([], "[^a").graph, [], 1, [Basic([], "[^a").frag], alphabet);
  }

  /** "[^a]" is not a negated class: its tokens "[", "^", "a", "]" become a
      single basic fragment labelled "[^a", which no one-character step can
      follow, so it matches nothing. */
  lemma BracketPatternMatchesNothing(s: string, alphabet: seq<string>)
    ensures MatchSpec("[^a]", s, alphabet) == Ok(false)
  {
    BuildBracketExample(alphabet);
    var b := Basic([], "[^a");
    SingleEdgeSim(b.graph, 0, 1, "[^a", alphabet, s);
    MatchSimulates("[^a]", s, alphabet);
  }
}
