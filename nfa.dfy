/** Thompson-style fragment combinators of nfa.py over an arena of states.

    A state is addressed by its index in the arena; a fragment is the pair of
    indices of its start and accept states. The functions `Basic`, `Concat`,
    `Alternate`, `Star`, `Plus`, `Optional` and `Negate` say what each
    combinator does to the whole arena; class `Arena` performs the same
    updates in place, one field write at a time, and is proved to agree with
    them. The `...Shape` lemmas state the single-entry/single-exit invariant
    that every combinator keeps. */
module Nfa {

  /** The label of a transition taken without reading input. */
  const Eps: string := "ε"

  /** A `State`: its `is_final` flag and its `transitions` dictionary. */
  datatype NState = NState(isFinal: bool, trans: map<string, seq<nat>>)

  type Graph = seq<NState>

  /** An `NFA` object: the pair of its start and accept states. */
  datatype Frag = Frag(start: nat, accept: nat)

  /** The arena after a combinator, together with the fragment it returns. */
  datatype Built = Built(graph: Graph, frag: Frag)

  ghost predicate TargetsBelow(s: NState, n: nat)
  {
    forall l, k :: l in s.trans && 0 <= k < |s.trans[l]| ==> s.trans[l][k] < n
  }

  /** Every transition of the arena leads to a state of the arena. */
  ghost predicate ValidGraph(g: Graph)
  {
    forall i :: 0 <= i < |g| ==> TargetsBelow(g[i], |g|)
  }

  predicate InRange(g: Graph, f: Frag)
  {
    f.start < |g| && f.accept < |g|
  }

  /** `state.transitions[label] = targets` */
  function Link(g: Graph, id: nat, sym: string, targets: seq<nat>): (r: Graph)
    requires id < |g|
    ensures |r| == |g|
  {
    g[id := g[id].(trans := g[id].trans[sym := targets])]
  }

  /** `state.is_final = False` */
  function Demote(g: Graph, id: nat): (r: Graph)
    requires id < |g|
    ensures |r| == |g|
  {
    g[id := g[id].(isFinal := false)]
  }

  /** Two fresh states `State()` and `State(is_final=True)`, appended in that order. */
  function FreshPair(g: Graph): (r: Graph)
    ensures |r| == |g| + 2
  {
    g + [NState(false, map[]), NState(true, map[])]
  }

  lemma LinkValid(g: Graph, id: nat, sym: string, targets: seq<nat>)
    requires id < |g|
    ensures ValidGraph(g) && (forall k :: 0 <= k < |targets| ==> targets[k] < |g|) ==>
      ValidGraph(Link(g, id, sym, targets))
  {
    if !ValidGraph(g) || !(forall k :: 0 <= k < |targets| ==> targets[k] < |g|) {
      return;
    }
    var r := Link(g, id, sym, targets);
    forall i | 0 <= i < |r|
      ensures TargetsBelow(r[i], |r|)
    {
      if i != id {
        assert r[i] == g[i];
      }
    }
  }

  lemma DemoteValid(g: Graph, id: nat)
    requires id < |g|
    ensures ValidGraph(g) ==> ValidGraph(Demote(g, id))
  {
    if !ValidGraph(g) {
      return;
    }
    var r := Demote(g, id);
    forall i | 0 <= i < |r|
      ensures TargetsBelow(r[i], |r|)
    {
      assert r[i].trans == g[i].trans;
    }
  }

  lemma FreshPairValid(g: Graph)
    ensures ValidGraph(g) ==> ValidGraph(FreshPair(g))
  {
    if !ValidGraph(g) {
      return;
    }
    var r := FreshPair(g);
    forall i | 0 <= i < |r|
      ensures TargetsBelow(r[i], |r|)
    {
      if i < |g| {
        assert r[i] == g[i];
      }
    }
  }

  /** `create_basic_nfa(label)` (nfa.py:9-13). */
  function Basic(g: Graph, sym: string): (r: Built)
    ensures |r.graph| == |g| + 2 && r.graph[..|g|] == g
    ensures r.frag == Frag(|g|, |g| + 1)
    ensures ValidGraph(g) ==> ValidGraph(r.graph)
  {
    var r := Built(Link(FreshPair(g), |g|, sym, [|g| + 1]), Frag(|g|, |g| + 1));
    assert r.graph[..|g|] == g;
    FreshPairValid(g);
    LinkValid(FreshPair(g), |g|, sym, [|g| + 1]);
    r
  }

  /** `concatenate_nfa(f1, f2)` (nfa.py:15-18). */
  function Concat(g: Graph, f1: Frag, f2: Frag): (r: Built)
    requires InRange(g, f1) && InRange(g, f2)
    ensures |r.graph| == |g| && InRange(r.graph, r.frag)
    ensures ValidGraph(g) ==> ValidGraph(r.graph)
  {
    var g1 := Demote(g, f1.accept);
    var r := Built(Link(g1, f1.accept, Eps, [f2.start]), Frag(f1.start, f2.accept));
    DemoteValid(g, f1.accept);
    LinkValid(g1, f1.accept, Eps, [f2.start]);
    r
  }

  /** `alternate_nfa(f1, f2)` (nfa.py:20-28). */
  function Alternate(g: Graph, f1: Frag, f2: Frag): (r: Built)
    requires InRange(g, f1) && InRange(g, f2)
    ensures |r.graph| == |g| + 2 && r.frag == Frag(|g|, |g| + 1)
    ensures ValidGraph(g) ==> ValidGraph(r.graph)
  {
    var s, a := |g|, |g| + 1;
    var g1 := Link(FreshPair(g), s, Eps, [f1.start, f2.start]);
    var g2 := Demote(Demote(g1, f1.accept), f2.accept);
    var g3 := Link(g2, f1.accept, Eps, [a]);
    var r := Built(Link(g3, f2.accept, Eps, [a]), Frag(s, a));
    FreshPairValid(g);
    LinkValid(FreshPair(g), s, Eps, [f1.start, f2.start]);
    DemoteValid(g1, f1.accept);
    DemoteValid(Demote(g1, f1.accept), f2.accept);
    LinkValid(g2, f1.accept, Eps, [a]);
    LinkValid(g3, f2.accept, Eps, [a]);
    r
  }

  /** The three one-operand combinators differ only in the epsilon lists they
      give the fresh start and the demoted old accept. */
  function Wrap(g: Graph, f: Frag, startEps: seq<nat>, acceptEps: seq<nat>): (r: Built)
    requires InRange(g, f)
    requires forall k :: 0 <= k < |startEps| ==> startEps[k] < |g| + 2
    requires forall k :: 0 <= k < |acceptEps| ==> acceptEps[k] < |g| + 2
    ensures |r.graph| == |g| + 2 && r.frag == Frag(|g|, |g| + 1)
    ensures ValidGraph(g) ==> ValidGraph(r.graph)
  {
    var g1 := Link(FreshPair(g), |g|, Eps, startEps);
    var g2 := Demote(g1, f.accept);
    var r := Built(Link(g2, f.accept, Eps, acceptEps), Frag(|g|, |g| + 1));
    FreshPairValid(g);
    LinkValid(FreshPair(g), |g|, Eps, startEps);
    DemoteValid(g1, f.accept);
    LinkValid(g2, f.accept, Eps, acceptEps);
    r
  }

  /** `kleene_star_nfa(f)` (nfa.py:30-36). */
  function Star(g: Graph, f: Frag): (r: Built)
    requires InRange(g, f)
    ensures |r.graph| == |g| + 2 && r.frag == Frag(|g|, |g| + 1)
    ensures ValidGraph(g) ==> ValidGraph(r.graph)
  {
    Wrap(g, f, [f.start, |g| + 1], [f.start, |g| + 1])
  }

  /** `one_or_more_nfa(f)` (nfa.py:38-44). */
  function Plus(g: Graph, f: Frag): (r: Built)
    requires InRange(g, f)
    ensures |r.graph| == |g| + 2 && r.frag == Frag(|g|, |g| + 1)
    ensures ValidGraph(g) ==> ValidGraph(r.graph)
  {
    Wrap(g, f, [f.start], [f.start, |g| + 1])
  }

  /** `zero_or_one_nfa(f)` (nfa.py:46-52). */
  function Optional(g: Graph, f: Frag): (r: Built)
    requires InRange(g, f)
    ensures |r.graph| == |g| + 2 && r.frag == Frag(|g|, |g| + 1)
    ensures ValidGraph(g) ==> ValidGraph(r.graph)
  {
    Wrap(g, f, [f.start, |g| + 1], [|g| + 1])
  }

  /** The transitions `negate_nfa` gives its fresh start: every symbol of
      `alphabet` that is not a key of `operand` leads to `accept`. */
  function Complement(operand: map<string, seq<nat>>, alphabet: seq<string>, accept: nat): map<string, seq<nat>>
  {
    map c | c in alphabet && c !in operand :: [accept]
  }

  /** `negate_nfa(f, alphabet)` (nfa.py:54-60). */
  function Negate(g: Graph, f: Frag, alphabet: seq<string>): (r: Built)
    requires InRange(g, f)
    ensures |r.graph| == |g| + 2 && r.graph[..|g|] == g
    ensures r.frag == Frag(|g|, |g| + 1)
    ensures ValidGraph(g) ==> ValidGraph(r.graph)
  {
    var r := Built(g + [NState(false, Complement(g[f.start].trans, alphabet, |g| + 1)), NState(true, map[])], Frag(|g|, |g| + 1));
    assert r.graph[..|g|] == g;
    assert forall i :: 0 <= i < |g| ==> r.graph[i] == g[i];
    r
  }

  // ---------------------------------------------------------------------------
  // The fragment shape every combinator keeps

  /** The single-entry/single-exit shape: a non-final start, and a final accept
      with no outgoing transitions. */
  ghost predicate Fragment(g: Graph, f: Frag)
  {
    InRange(g, f) && f.start != f.accept &&
    !g[f.start].isFinal && g[f.accept].isFinal && g[f.accept].trans == map[]
  }

  /** Two fragments share no endpoint. */
  predicate Apart(f1: Frag, f2: Frag)
  {
    f1.start != f2.start && f1.start != f2.accept &&
    f1.accept != f2.start && f1.accept != f2.accept
  }

  /** The states of the arena other than `changed` are left as they were. */
  ghost predicate Keeps(g: Graph, r: Graph, changed: set<nat>)
    requires |g| <= |r|
  {
    forall i :: 0 <= i < |g| && i !in changed ==> r[i] == g[i]
  }

  lemma BasicShape(g: Graph, sym: string)
    ensures var r := Basic(g, sym);
      Fragment(r.graph, r.frag) && Keeps(g, r.graph, {}) &&
      r.graph[r.frag.start].trans == map[sym := [r.frag.accept]]
  {
  }

  /** Concatenation allocates nothing: it demotes the first accept and points
      its epsilon list at the second start, and returns the outer endpoints. */
  lemma ConcatShape(g: Graph, f1: Frag, f2: Frag)
    requires Fragment(g, f1) && Fragment(g, f2) && Apart(f1, f2)
    ensures var r := Concat(g, f1, f2);
      Fragment(r.graph, r.frag) && r.frag == Frag(f1.start, f2.accept) &&
      Keeps(g, r.graph, {f1.accept}) &&
      !r.graph[f1.accept].isFinal && r.graph[f1.accept].trans == map[Eps := [f2.start]]
  {
  }

  /** Alternation: a fresh start whose epsilon list is the two starts, in that
      order; both old accepts demoted with the fresh accept as their only
      epsilon target. */
  lemma AlternateShape(g: Graph, f1: Frag, f2: Frag)
    requires Fragment(g, f1) && Fragment(g, f2) && Apart(f1, f2)
    ensures var r := Alternate(g, f1, f2);
      Fragment(r.graph, r.frag) && Keeps(g, r.graph, {f1.accept, f2.accept}) &&
      r.graph[r.frag.start].trans == map[Eps := [f1.start, f2.start]] &&
      r.graph[f1.accept] == NState(false, map[Eps := [r.frag.accept]]) &&
      r.graph[f2.accept] == NState(false, map[Eps := [r.frag.accept]])
  {
  }

  /** Star: the fresh start and the demoted old accept both lead by epsilon to
      the old start and to the fresh accept, so the fresh accept is one epsilon
      step from the fresh start. */
  lemma StarShape(g: Graph, f: Frag)
    requires Fragment(g, f)
    ensures var r := Star(g, f);
      Fragment(r.graph, r.frag) && Keeps(g, r.graph, {f.accept}) &&
      r.graph[r.frag.start].trans == map[Eps := [f.start, r.frag.accept]] &&
      r.graph[f.accept] == NState(false, map[Eps := [f.start, r.frag.accept]])
  {
  }

  /** Plus: as `Star`, except that the fresh start leads only to the old start. */
  lemma PlusShape(g: Graph, f: Frag)
    requires Fragment(g, f)
    ensures var r := Plus(g, f);
      Fragment(r.graph, r.frag) && Keeps(g, r.graph, {f.accept}) &&
      r.graph[r.frag.start].trans == map[Eps := [f.start]] &&
      r.graph[f.accept] == NState(false, map[Eps := [f.start, r.frag.accept]])
  {
  }

  /** Optional: the fresh start leads to the old start and the fresh accept;
      the demoted old accept only to the fresh accept. */
  lemma OptionalShape(g: Graph, f: Frag)
    requires Fragment(g, f)
    ensures var r := Optional(g, f);
      Fragment(r.graph, r.frag) && Keeps(g, r.graph, {f.accept}) &&
      r.graph[r.frag.start].trans == map[Eps := [f.start, r.frag.accept]] &&
      r.graph[f.accept] == NState(false, map[Eps := [r.frag.accept]])
  {
  }

  /** Negation leaves the operand untouched and builds a two-state fragment
      of its own: the fresh start moves to the fresh accept on exactly the
      alphabet symbols that are not keys of the operand start's transitions. */
  lemma NegateShape(g: Graph, f: Frag, alphabet: seq<string>)
    requires InRange(g, f)
    ensures var r := Negate(g, f, alphabet);
      Fragment(r.graph, r.frag) && Keeps(g, r.graph, {}) &&
      (forall c :: c in r.graph[r.frag.start].trans <==> c in alphabet && c !in g[f.start].trans) &&
      (forall c :: c in r.graph[r.frag.start].trans ==> r.graph[r.frag.start].trans[c] == [r.frag.accept])
  {
  }

  // ---------------------------------------------------------------------------
  // The arena, updated in place

  /** The heap of `State` objects that the combinators allocate and rewire. */
  class Arena {
    var states: Graph

    constructor ()
      ensures states == []
    {
      states := [];
    }

    /** `State(is_final=isFinal)` */
    method AddState(isFinal: bool) returns (id: nat)
      modifies this
      ensures id == |old(states)| && states == old(states) + [NState(isFinal, map[])]
    {
      id := |states|;
      states := states + [NState(isFinal, map[])];
    }

    /** `state.is_final = False` */
    method ClearFinal(id: nat)
      requires id < |states|
      modifies this
      ensures states == Demote(old(states), id)
    {
      states := states[id := states[id].(isFinal := false)];
    }

    /** `state.transitions[label] = targets` */
    method SetTransitions(id: nat, sym: string, targets: seq<nat>)
      requires id < |states|
      modifies this
      ensures states == Link(old(states), id, sym, targets)
    {
      states := states[id := states[id].(trans := states[id].trans[sym := targets])];
    }

    method CreateBasicNfa(sym: string) returns (f: Frag)
      modifies this
      ensures Built(states, f) == Basic(old(states), sym)
    {
      var s := AddState(false);
      var a := AddState(true);
      SetTransitions(s, sym, [a]);
      f := Frag(s, a);
    }

    method ConcatenateNfa(f1: Frag, f2: Frag) returns (f: Frag)
      requires InRange(states, f1) && InRange(states, f2)
      modifies this
      ensures Built(states, f) == Concat(old(states), f1, f2)
    {
      ClearFinal(f1.accept);
      SetTransitions(f1.accept, Eps, [f2.start]);
      f := Frag(f1.start, f2.accept);
    }

    method AlternateNfa(f1: Frag, f2: Frag) returns (f: Frag)
      requires InRange(states, f1) && InRange(states, f2)
      modifies this
      ensures Built(states, f) == Alternate(old(states), f1, f2)
    {
      var s := AddState(false);
      var a := AddState(true);
      assert states == FreshPair(old(states));
      SetTransitions(s, Eps, [f1.start, f2.start]);
      ClearFinal(f1.accept);
      ClearFinal(f2.accept);
      SetTransitions(f1.accept, Eps, [a]);
      SetTransitions(f2.accept, Eps, [a]);
      f := Frag(s, a);
    }

    method KleeneStarNfa(f0: Frag) returns (f: Frag)
      requires InRange(states, f0)
      modifies this
      ensures Built(states, f) == Star(old(states), f0)
    {
      var s := AddState(false);
      var a := AddState(true);
      SetTransitions(s, Eps, [f0.start, a]);
      ClearFinal(f0.accept);
      SetTransitions(f0.accept, Eps, [f0.start, a]);
      f := Frag(s, a);
    }

    method OneOrMoreNfa(f0: Frag) returns (f: Frag)
      requires InRange(states, f0)
      modifies this
      ensures Built(states, f) == Plus(old(states), f0)
    {
      var s := AddState(false);
      var a := AddState(true);
      SetTransitions(s, Eps, [f0.start]);
      ClearFinal(f0.accept);
      SetTransitions(f0.accept, Eps, [f0.start, a]);
      f := Frag(s, a);
    }

    method ZeroOrOneNfa(f0: Frag) returns (f: Frag)
      requires InRange(states, f0)
      modifies this
      ensures Built(states, f) == Optional(old(states), f0)
    {
      var s := AddState(false);
      var a := AddState(true);
      SetTransitions(s, Eps, [f0.start, a]);
      ClearFinal(f0.accept);
      SetTransitions(f0.accept, Eps, [a]);
      f := Frag(s, a);
    }

    /** The loop at nfa.py:57-59 fills the fresh start's transitions one
        alphabet symbol at a time. */
    method NegateNfa(f0: Frag, alphabet: seq<string>) returns (f: Frag)
      requires InRange(states, f0)
      modifies this
      ensures Built(states, f) == Negate(old(states), f0, alphabet)
    {
      var s := AddState(false);
      var a := AddState(true);
      ghost var operand := states[f0.start].trans;
      for i := 0 to |alphabet|
        invariant states == old(states) + [NState(false, Complement(operand, alphabet[..i], a)), NState(true, map[])]
      {
        if alphabet[i] !in states[f0.start].trans {
          SetTransitions(s, alphabet[i], [a]);
        }
        assert Complement(operand, alphabet[..i + 1], a) ==
          if alphabet[i] in operand then Complement(operand, alphabet[..i], a)
          else Complement(operand, alphabet[..i], a)[alphabet[i] := [a]];
      }
      assert alphabet[..|alphabet|] == alphabet;
      f := Frag(s, a);
    }
  }
}
