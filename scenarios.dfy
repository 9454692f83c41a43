/** Concrete behaviour of the engine on the patterns of src/main.py and on the
    patterns "a|", ")a" and "*a", derived from the model of the code as
    written. */
module Scenarios {
  import opened Results
  import opened Parser
  import opened Nfa
  import opened Dfa
  import opened RegexEngine
  import opened Scanning

  /** A leading `|` operand is missing: "a|" scans to `a |`, and `|` finds one
      fragment on the stack. A `)` with no open group makes the scan pop an
      empty stack. "*a", by contrast, scans to `a *` (the quantifier waits on
      the operator stack) and builds the star of the fragment of `a`. */
  lemma MalformedPatterns(alphabet: seq<string>)
    ensures Parse("a|") == Ok("a|") && NfaOf("a|", alphabet) == Err
    ensures Parse(")a") == Err && NfaOf(")a", alphabet) == Err
    ensures Parse("*a") == Ok("a*")
    ensures NfaOf("*a", alphabet) == Ok(Star(Basic([], "a").graph, Basic([], "a").frag))
  {
    TrailingBarFails(alphabet);
    StrayCloseFails(alphabet);
    LeadingStarBuilds(alphabet);
  }

  /** "a|" scans to `a |`, and `|` finds a single fragment on the stack. */
  lemma TrailingBarFails(alphabet: seq<string>)
    ensures Parse("a|") == Ok("a|") && NfaOf("a|", alphabet) == Err
  {
    var p := "a|";
    assert p[1..] == "|" && p[1..][1..] == [];
    assert 'a' !in Operators && '|' in Operators;
    assert Initial.output + ['a'] == "a";
    assert Step(Initial, 'a') == Ok(Scan("a", [], false, false));
    assert PopAtLeast("a", [], 1) == ("a", []);
    assert [] + ['|'] == "|";
    assert Step(Scan("a", [], false, false), '|') == Ok(Scan("a", "|", false, false));
    assert ScanFrom(Scan("a", "|", false, false), []) == Ok(Scan("a", "|", false, false));
    assert Reversed("|") == "|" by {
      assert "|"[..0] == [];
    }
    assert "a" + "|" == "a|";
    var b := Basic([], "a");
    assert p[0] !in BuildOps && [p[0]] == "a" && p[1] == '|' && [] + [b.frag] == [b.frag];
    BuildLiteralStep([], p, 0, [], alphabet);
    BuildArity(b.graph, p, 1, [b.frag], alphabet);
  }

  /** A `)` with no open group makes the scan pop an empty stack. */
  lemma StrayCloseFails(alphabet: seq<string>)
    ensures Parse(")a") == Err && NfaOf(")a", alphabet) == Err
  {
    assert PopToOpen([], []) == ([], []);
    assert Step(Initial, ')') == Err;
  }

  /** "*a" scans to `a *`: the quantifier waits on the operator stack, and the
      build wraps the basic fragment of `a` in a star. */
  lemma LeadingStarBuilds(alphabet: seq<string>)
    ensures Parse("*a") == Ok("a*")
    ensures NfaOf("*a", alphabet) == Ok(Star(Basic([], "a").graph, Basic([], "a").frag))
  {
    var r := "*a";
    assert r[1..] == "a" && r[1..][1..] == [];
    assert 'a' !in Operators && '*' in Operators;
    assert PopAtLeast([], [], 4) == ([], []);
    assert [] + ['*'] == "*" && Precedence('*') == 4;
    assert Step(Initial, '*') == Ok(Scan([], "*", false, false));
    assert [] + ['a'] == "a";
    assert Step(Scan([], "*", false, false), 'a') == Ok(Scan("a", "*", false, false));
    assert ScanFrom(Scan("a", "*", false, false), []) == Ok(Scan("a", "*", false, false));
    assert Reversed("*") == "*" by {
      assert "*"[..0] == [];
    }
    assert "a" + "*" == "a*";
    var toks := "a*";
    var b := Basic([], "a");
    assert toks[0] !in BuildOps && [toks[0]] == "a" && [] + [b.frag] == [b.frag];
    BuildLiteralStep([], toks, 0, [], alphabet);
    var st := Star(b.graph, b.frag);
    assert BuildFrom(b.graph, toks, 1, [b.frag], alphabet) == BuildFrom(st.graph, toks, 2, [] + [st.frag], alphabet);
    BuildEnd(st.graph, toks, 2, [] + [st.frag], alphabet);
  }

  lemma ParseBracketAfterLiteral()
    ensures Parse("a[b]") == Ok("a[b]")
  {
    var st := Scan("a", [], false, false);
    assert 'a' !in Operators && Initial.output + ['a'] == "a";
    assert Step(Initial, 'a') == Ok(st);
    assert ScanFrom(Initial, "a") == Ok(st) by {
      assert "a"[1..] == [];
    }
    BracketVerbatim(st, "b", "");
    var fin := Scan("a[b]", [], false, false);
    assert st.output + "[" + "b" + "]" == "a[b]";
    assert "[" + "b" + "]" + "" == "[b]";
    assert ScanFrom(st, "[b]") == Ok(fin);
    ScanAppend(Initial, "a", "[b]");
    assert "a" + "[b]" == "a[b]";
    assert fin.output + Reversed(fin.stack) == "a[b]";
  }

  lemma TakeBracketFromFront()
    ensures TakeBracket("a[b]") == ("a[b", [])
  {
    var toks := "a[b]";
    assert toks[0] == 'a' && toks[1..] == "[b]";
    assert "[b]"[0] == '[' && "[b]"[1..] == "b]";
    assert "b]"[0] == 'b' && "b]"[1..] == "]";
    assert "]"[1..] == [];
    assert TakeBracket("]") == ([], []);
    assert ['b'] + [] == "b";
    assert TakeBracket("b]") == ("b", []);
    assert ['['] + "b" == "[b";
    assert TakeBracket("[b]") == ("[b", []);
    assert ['a'] + "[b" == "a[b";
  }

  /** `build_nfa` on the tokens of "a[b]", from any arena. */
  lemma BuildBracketAfterLiteral(g: Graph, alphabet: seq<string>)
    requires ValidGraph(g)
    ensures BuildFrom(g, "a[b]", 0, [], alphabet) == Ok(Basic(Basic(g, "a").graph, "a[b"))
  {
    TakeBracketFromFront();
    var toks := "a[b]";
    var b1 := Basic(g, "a");
    assert toks[0] !in BuildOps && [toks[0]] == "a" && toks[1] == '[' && [] + [b1.frag] == [b1.frag];
    BuildLiteralStep(g, toks, 0, [], alphabet);
    BuildBracketStep(b1.graph, toks, 1, [b1.frag], alphabet);
    var b2 := Basic(b1.graph, "a[b");
    BuildEnd(b2.graph, [], 2, [b1.frag] + [b2.frag], alphabet);
  }

  /** In "a[b]" the `[` branch of `build_nfa` takes its label from the FRONT
      of the token list, so the literal before the bracket is swept into it:
      the result is a fragment labelled "a[b" built after the fragment of "a". */
  lemma BracketSweepsPrefix(alphabet: seq<string>)
    ensures NfaOf("a[b]", alphabet) == Ok(Basic(Basic([], "a").graph, "a[b"))
  {
    ParseBracketAfterLiteral();
    BuildBracketAfterLiteral([], alphabet);
  }

  /** A start index whose one-character substring is not accepted, when only
      one-character strings are, contributes no pair. */
  lemma {:induction false} RowOfSingles(accept: string -> bool, s: string, i: nat, j0: nat)
    requires i + 1 < j0
    requires forall x :: accept(x) ==> |x| == 1
    ensures RowPairs(accept, s, i, j0) == []
    decreases |s| + 1 - j0
  {
    if j0 <= |s| {
      assert |s[i..j0]| != 1;
      RowOfSingles(accept, s, i, j0 + 1);
    }
  }

  /** When exactly the one-character string `[c]` is accepted, the row of start
      `i` is the pair `(i, i + 1)` if `s[i] == c`, and nothing otherwise. */
  lemma RowOfChar(accept: string -> bool, s: string, i: nat, c: char)
    requires i < |s|
    requires forall x :: accept(x) <==> x == [c]
    ensures RowPairs(accept, s, i, i + 1) == if s[i] == c then [(i, i + 1)] else []
  {
    RowOfSingles(accept, s, i, i + 2);
    assert s[i..i + 1] == [s[i]];
    assert RowPairs(accept, s, i, i + 1) == (if accept(s[i..i + 1]) then [(i, i + 1)] else []) + RowPairs(accept, s, i, i + 2);
  }

  /** The pattern "a" matches exactly the string "a". */
  lemma PatternAAccepts(alphabet: seq<string>)
    requires "a" in alphabet
    ensures Compile("a", alphabet).Ok?
    ensures forall x :: Language(Compile("a", alphabet).value.states)(x) <==> x == "a"
  {
    forall x
      ensures MatchSpec("a", x, alphabet) == Ok(x == "a")
    {
      LiteralPatternMatchesLastChar("a", x, alphabet);
    }
    assert MatchSpec("a", "a", alphabet).Ok?;
    forall x
      ensures Language(Compile("a", alphabet).value.states)(x) <==> x == "a"
    {
      MatchIsWalk("a", x, alphabet);
    }
  }

  /** The pairs `findall` reports on "aaab" when exactly "a" is accepted. */
  lemma HitsOfA(accept: string -> bool)
    requires forall x :: accept(x) <==> x == "a"
    ensures HitPairs(accept, "aaab", 0) == [(0, 1), (1, 2), (2, 3)]
  {
    HitsOfAFrom1(accept);
    HitsStep(accept, "aaab", 0, 'a', [(0, 1), (1, 2), (2, 3)]);
  }

  /** The pairs from start index 1 on. */
  lemma HitsOfAFrom1(accept: string -> bool)
    requires forall x :: accept(x) <==> x == "a"
    ensures HitPairs(accept, "aaab", 1) == [(1, 2), (2, 3)]
  {
    HitsOfAFrom2(accept);
    HitsStep(accept, "aaab", 1, 'a', [(1, 2), (2, 3)]);
  }

  /** The pairs from start index 2 on. */
  lemma HitsOfAFrom2(accept: string -> bool)
    requires forall x :: accept(x) <==> x == "a"
    ensures HitPairs(accept, "aaab", 2) == [(2, 3)]
  {
    HitsStep(accept, "aaab", 3, 'a', []);
    HitsStep(accept, "aaab", 2, 'a', [(2, 3)]);
  }

  /** One start index of `HitPairs` when exactly `[c]` is accepted. */
  lemma HitsStep(accept: string -> bool, s: string, i: nat, c: char, r: seq<(nat, nat)>)
    requires i < |s|
    requires forall x :: accept(x) <==> x == [c]
    requires s[i] == c ==> |r| > 0 && r[0] == (i, i + 1)
    requires HitPairs(accept, s, i + 1) == if s[i] == c then r[1..] else r
    ensures HitPairs(accept, s, i) == r
  {
    RowOfChar(accept, s, i, c);
    if s[i] == c {
      assert [(i, i + 1)] + r[1..] == r;
    }
  }

  /** The pieces `split` cuts "aaab" into around three matches "a". */
  lemma SplitOfA()
    ensures SplitFrom(PyFind, "aaab", ["a", "a", "a"], 0) == ["", "", "", "b"]
  {
    SplitOfATail1();
    SplitStepOfA(0, ["a", "a"], ["a", "a", "a"], ["", "", "b"], ["", "", "", "b"]);
  }

  /** The pieces after the first match. */
  lemma SplitOfATail1()
    ensures SplitFrom(PyFind, "aaab", ["a", "a"], 1) == ["", "", "b"]
  {
    SplitOfATail2();
    SplitStepOfA(1, ["a"], ["a", "a"], ["", "b"], ["", "", "b"]);
  }

  /** The pieces after the second match. */
  lemma SplitOfATail2()
    ensures SplitFrom(PyFind, "aaab", ["a"], 2) == ["", "b"]
  {
    assert SplitFrom(PyFind, "aaab", [], 3) == ["b"] by {
      assert PySlice("aaab", 3, 4) == "b";
    }
    SplitStepOfA(2, [], ["a"], ["b"], ["", "b"]);
  }

  /** In "aaab", `find` meets "a" at `i` itself, so `split` cuts an empty piece there. */
  lemma SplitStepOfA(i: nat, ms: seq<string>, ms': seq<string>, tail: seq<string>, tail': seq<string>)
    requires i < 3 && ms' == ["a"] + ms && tail' == [""] + tail
    requires SplitFrom(PyFind, "aaab", ms, i + 1) == tail
    ensures SplitFrom(PyFind, "aaab", ms', i) == tail'
  {
    var s := "aaab";
    assert PyFind(s, "a", i) == i by {
      assert OccursAt(s, "a", i);
    }
    assert ms'[0] == "a" && ms'[1..] == ms;
    assert PySlice(s, i, i) == "";
  }

  lemma JoinOfA()
    ensures Join(["", "", "", "b"], "x") == "xxxb"
  {
    var parts := ["", "", "", "b"];
    assert parts[1..] == ["", "", "b"] && parts[1..][1..] == ["", "b"] && parts[1..][1..][1..] == ["b"];
    assert Join(["b"], "x") == "b";
    assert Join(["", "b"], "x") == "xb";
    assert Join(["", "", "b"], "x") == "xxb";
  }

  lemma TextsOfA()
    ensures Texts("aaab", [(0, 1), (1, 2), (2, 3)]) == ["a", "a", "a"]
  {
    var s := "aaab";
    var pairs: seq<(nat, nat)> := [(0, 1), (1, 2), (2, 3)];
    assert pairs[1..] == [(1, 2), (2, 3)] && pairs[1..][1..] == [(2, 3)] && |pairs[1..][1..][1..]| == 0;
    assert s[0..1] == "a" && s[1..2] == "a" && s[2..3] == "a";
  }

  /** `findall` and `search` for pattern "a" on "aaab". */
  lemma FindAllOfA(alphabet: seq<string>)
    requires "a" in alphabet
    ensures FindAllSpec("a", "aaab", alphabet) == Ok(["a", "a", "a"])
    ensures SearchSpec("a", "aaab", alphabet) == Ok(0)
  {
    PatternAAccepts(alphabet);
    var d := Compile("a", alphabet).value;
    HitsOfA(Language(d.states));
    TextsOfA();
  }

  /** The expected values printed by src/main.py:14-17 for pattern "a" on
      "aaab": every single "a" is found, the first at index 0; `split` leaves
      three empty pieces and the trailing "b", and `sub` replaces each "a". */
  lemma MainExamples(alphabet: seq<string>)
    requires "a" in alphabet
    ensures FindAllSpec("a", "aaab", alphabet) == Ok(["a", "a", "a"])
    ensures SearchSpec("a", "aaab", alphabet) == Ok(0)
    ensures SplitSpec("a", "aaab", alphabet) == Ok(["", "", "", "b"])
    ensures SubSpec("a", "x", "aaab", alphabet) == Ok("xxxb")
  {
    FindAllOfA(alphabet);
    SplitOfA();
    SubIsJoinedSplit(PyFind, "aaab", ["a", "a", "a"], "x", 0);
    JoinOfA();
  }
}
