/** Epsilon closure, `move` and the subset construction of dfa.py.

    `Closure` is the least epsilon-closed superset of a state set (computed by
    iterating one round of epsilon steps until nothing new appears);
    `EpsilonClosure` is the worklist loop of dfa.py:4-13, proved to compute it.
    `Explore` and `Visit` are the worklist of `nfa_to_dfa` written as
    recursion; `NfaToDfa` is the nested loop itself, proved equal to it. */
module Dfa {
  import opened Nfa

  /** `state.transitions.get(sym, [])` for the state with index `s`. */
  function Succ(g: Graph, s: nat, sym: string): seq<nat>
  {
    if s < |g| && sym in g[s].trans then g[s].trans[sym] else []
  }

  /** The indices of an arena of `n` states. */
  function Ids(n: nat): (r: set<nat>)
    ensures forall i: nat :: i in r <==> i < n
  {
    if n == 0 then {} else Ids(n - 1) + {n - 1}
  }

  /** No epsilon transition leaves `C`. */
  ghost predicate EpsClosed(g: Graph, C: set<nat>)
  {
    forall s, k :: s in C && 0 <= k < |Succ(g, s, Eps)| ==> Succ(g, s, Eps)[k] in C
  }

  /** The union of the `sym` successor lists of the states of `S`. */
  function Moved(g: Graph, S: set<nat>, sym: string): set<nat>
  {
    set s, k | s in S && 0 <= k < |Succ(g, s, sym)| :: Succ(g, s, sym)[k]
  }

  /** `S` together with every state one epsilon step away from it. */
  function EpsStep(g: Graph, S: set<nat>): (r: set<nat>)
    ensures S <= r
  {
    S + Moved(g, S, Eps)
  }

  lemma MovedBelow(g: Graph, S: set<nat>, sym: string)
    requires ValidGraph(g)
    ensures Moved(g, S, sym) <= Ids(|g|)
  {
    forall t | t in Moved(g, S, sym)
      ensures t < |g|
    {
      var s, k :| s in S && 0 <= k < |Succ(g, s, sym)| && t == Succ(g, s, sym)[k];
      assert TargetsBelow(g[s], |g|);
    }
  }

  lemma CardStrict<T>(A: set<T>, B: set<T>, x: T)
    requires A <= B && x in B && x !in A
    ensures |A| < |B|
  {
    assert B == A + (B - A);
    assert A !! (B - A);
    assert x in B - A;
  }

  /** The epsilon closure: the least superset of `S` closed under epsilon
      transitions (`ClosureLeast`). */
  function Closure(g: Graph, S: set<nat>): (C: set<nat>)
    requires ValidGraph(g)
    ensures S <= C
    decreases |Ids(|g|) - S|
  {
    var next := EpsStep(g, S);
    if next <= S then S
    else
      MovedBelow(g, S, Eps);
      var t :| t in next && t !in S;
      CardStrict(Ids(|g|) - next, Ids(|g|) - S, t);
      Closure(g, next)
  }

  /** `Closure(g, S)` contains `S` and is closed under epsilon transitions. */
  lemma {:induction false} ClosureClosed(g: Graph, S: set<nat>)
    requires ValidGraph(g)
    ensures EpsClosed(g, Closure(g, S))
    decreases |Ids(|g|) - S|
  {
    var next := EpsStep(g, S);
    if next <= S {
      forall s, k | s in S && 0 <= k < |Succ(g, s, Eps)|
        ensures Succ(g, s, Eps)[k] in S
      {
        assert Succ(g, s, Eps)[k] in Moved(g, S, Eps);
      }
    } else {
      MovedBelow(g, S, Eps);
      var t :| t in next && t !in S;
      CardStrict(Ids(|g|) - next, Ids(|g|) - S, t);
      ClosureClosed(g, next);
    }
  }

  /** Every epsilon-closed superset of `S` contains `Closure(g, S)`: each member
      of the closure is reachable from `S` by epsilon transitions. */
  lemma {:induction false} ClosureLeast(g: Graph, S: set<nat>, D: set<nat>)
    requires ValidGraph(g) && S <= D && EpsClosed(g, D)
    ensures Closure(g, S) <= D
    decreases |Ids(|g|) - S|
  {
    var next := EpsStep(g, S);
    if !(next <= S) {
      MovedBelow(g, S, Eps);
      var t :| t in next && t !in S;
      CardStrict(Ids(|g|) - next, Ids(|g|) - S, t);
      assert next <= D;
      ClosureLeast(g, next, D);
    }
  }

  /** Closing a closed set changes nothing; in particular the closure is
      idempotent, which is why dfa.py:29 finds the key it needs at line 41. */
  lemma ClosedIsFixed(g: Graph, C: set<nat>)
    requires ValidGraph(g) && EpsClosed(g, C)
    ensures Closure(g, C) == C
  {
    assert EpsStep(g, C) <= C;
  }

  lemma ClosureIdempotent(g: Graph, S: set<nat>)
    requires ValidGraph(g)
    ensures Closure(g, Closure(g, S)) == Closure(g, S)
  {
    ClosureClosed(g, S);
    ClosedIsFixed(g, Closure(g, S));
  }

  /** The closure adds only states of the arena. */
  lemma ClosureBelow(g: Graph, S: set<nat>)
    requires ValidGraph(g)
    ensures Closure(g, S) <= S + Ids(|g|)
  {
    var D := S + Ids(|g|);
    forall s, k | s in D && 0 <= k < |Succ(g, s, Eps)|
      ensures Succ(g, s, Eps)[k] in D
    {
      assert TargetsBelow(g[s], |g|);
    }
    ClosureLeast(g, S, D);
  }

  lemma ClosureOfEmpty(g: Graph)
    requires ValidGraph(g)
    ensures Closure(g, {}) == {}
  {
    assert EpsStep(g, {}) == {};
  }

  /** `list(states)`: the members of a set, in some order. */
  method ListOf(S: set<nat>) returns (xs: seq<nat>)
    ensures forall x :: x in xs <==> x in S
  {
    xs := [];
    var rest := S;
    while rest != {}
      invariant rest <= S
      invariant forall x :: x in xs <==> x in S - rest
      decreases |rest|
    {
      var x :| x in rest;
      xs := xs + [x];
      rest := rest - {x};
    }
  }

  /** `epsilon_closure(states)` (dfa.py:4-13): the stack holds the members of
      the closure whose epsilon successors are not yet known to be in it. */
  method EpsilonClosure(g: Graph, S: set<nat>) returns (closure: set<nat>)
    requires ValidGraph(g)
    ensures closure == Closure(g, S)
  {
    var stack := ListOf(S);
    closure := S;
    ghost var whole := Closure(g, S);
    ClosureClosed(g, S);
    while stack != []
      invariant S <= closure <= whole
      invariant forall x :: x in stack ==> x in closure
      invariant forall s, k :: s in closure && s !in stack && 0 <= k < |Succ(g, s, Eps)| ==> Succ(g, s, Eps)[k] in closure
      decreases |whole - closure|, |stack|
    {
      var state := stack[|stack| - 1];
      stack := stack[..|stack| - 1];
      ghost var closure0, stack0 := closure, stack;
      var succ := Succ(g, state, Eps);
      for k := 0 to |succ|
        invariant closure0 <= closure <= whole
        invariant forall x :: x in stack ==> x in closure
        invariant forall x :: x in stack0 ==> x in stack
        invariant forall j :: 0 <= j < k ==> succ[j] in closure
        invariant forall s, j :: s in closure && s !in stack && s != state && 0 <= j < |Succ(g, s, Eps)| ==> Succ(g, s, Eps)[j] in closure
        invariant closure == closure0 ==> stack == stack0
      {
        var next := succ[k];
        assert next == Succ(g, state, Eps)[k];
        if next !in closure {
          closure := closure + {next};
          stack := stack + [next];
        }
      }
      if closure != closure0 {
        var t :| t in closure && t !in closure0;
        CardStrict(whole - closure, whole - closure0, t);
      }
    }
    ClosureLeast(g, S, closure);
  }

  /** `move(states, sym)` (dfa.py:15-19). */
  method Move(g: Graph, S: set<nat>, sym: string) returns (next: set<nat>)
    ensures next == Moved(g, S, sym)
    ensures forall t :: t in next <==> exists s :: s in S && t in Succ(g, s, sym)
  {
    next := {};
    var rest := S;
    while rest != {}
      invariant rest <= S
      invariant next == Moved(g, S - rest, sym)
      decreases |rest|
    {
      var s :| s in rest;
      ghost var done := S - rest;
      next := next + set k | 0 <= k < |Succ(g, s, sym)| :: Succ(g, s, sym)[k];
      rest := rest - {s};
      assert S - rest == done + {s};
    }
    assert S - rest == S;
    forall t | t in next
      ensures exists s :: s in S && t in Succ(g, s, sym)
    {
      var s, k :| s in S && 0 <= k < |Succ(g, s, sym)| && t == Succ(g, s, sym)[k];
    }
    forall t | exists s :: s in S && t in Succ(g, s, sym)
      ensures t in next
    {
      var s :| s in S && t in Succ(g, s, sym);
      var k :| 0 <= k < |Succ(g, s, sym)| && t == Succ(g, s, sym)[k];
    }
  }

  // ---------------------------------------------------------------------------
  // The subset construction (dfa.py:21-43)

  /** The successor of a closure on `sym`: `epsilon_closure(move(C, sym))`. */
  function Target(g: Graph, C: set<nat>, sym: string): set<nat>
    requires ValidGraph(g)
  {
    Closure(g, Moved(g, C, sym))
  }

  lemma TargetBelow(g: Graph, C: set<nat>, sym: string)
    requires ValidGraph(g)
    ensures Target(g, C, sym) <= Ids(|g|)
    ensures Closure(g, Target(g, C, sym)) == Target(g, C, sym)
  {
    MovedBelow(g, C, sym);
    ClosureBelow(g, Moved(g, C, sym));
    ClosureIdempotent(g, Moved(g, C, sym));
  }

  /** `any(state.is_final for state in C)` */
  predicate AnyFinal(g: Graph, C: set<nat>)
  {
    exists s | s in C :: s < |g| && g[s].isFinal
  }

  /** The state of the construction: `keys` are the keys of `dfa_states` in
      insertion order, `states[k]` is the DFA state stored under `keys[k]`
      (its transitions name DFA states by index), and `unmarked` is
      `unmarked_states`. */
  datatype Work = Work(keys: seq<set<nat>>, states: seq<NState>, unmarked: seq<set<nat>>)

  /** The index of the first occurrence of `x` in `xs` (the dictionary lookup
      `dfa_states[frozenset(x)]`). */
  function IndexOf(xs: seq<set<nat>>, x: set<nat>): (r: nat)
    ensures x in xs ==> r < |xs| && xs[r] == x
    ensures forall j :: 0 <= j < r && j < |xs| ==> xs[j] != x
  {
    if xs == [] || xs[0] == x then 0 else 1 + IndexOf(xs[1..], x)
  }

  /** Every DFA transition is a one-element list naming a DFA state. */
  ghost predicate Deterministic(states: seq<NState>)
  {
    forall k, c :: 0 <= k < |states| && c in states[k].trans ==>
      |states[k].trans[c]| == 1 && states[k].trans[c][0] < |states|
  }

  /** What the construction keeps true of its own data at every step. */
  ghost predicate Inv(g: Graph, w: Work)
  {
    ValidGraph(g) && |w.keys| == |w.states| > 0 &&
    (forall j :: 0 <= j < |w.keys| ==> w.keys[j] <= Ids(|g|)) &&
    (forall j :: 0 <= j < |w.unmarked| ==> Closure(g, w.unmarked[j]) in w.keys) &&
    Deterministic(w.states)
  }

  /** `r` extends the keys of `w` with closures not yet among them; when no
      key is added, the worklist is untouched. */
  ghost predicate Grows(w: Work, r: Work)
  {
    |w.keys| <= |r.keys| && r.keys[..|w.keys|] == w.keys &&
    (forall j :: |w.keys| <= j < |r.keys| ==> r.keys[j] !in w.keys) &&
    (|r.keys| == |w.keys| ==> r.unmarked == w.unmarked)
  }

  lemma GrowsTrans(w: Work, v: Work, r: Work)
    requires Grows(w, v) && Grows(v, r)
    ensures Grows(w, r)
  {
    assert r.keys[..|w.keys|] == r.keys[..|v.keys|][..|w.keys|];
    forall j | |w.keys| <= j < |r.keys|
      ensures r.keys[j] !in w.keys
    {
      if j < |v.keys| {
        assert r.keys[j] == v.keys[j];
      } else {
        assert forall x :: x in w.keys ==> x in v.keys by {
          forall x | x in w.keys ensures x in v.keys {
            var m :| 0 <= m < |w.keys| && w.keys[m] == x;
            assert v.keys[m] == x;
          }
        }
      }
    }
  }

  /** Lines 37-41 for one symbol whose successor closure `next` is non-empty:
      register `next` as a new DFA state (final iff it holds a final NFA
      state) and enqueue it if it is not a key yet, then point the `sym`
      transition of the state of `cur` at the state of `next`. */
  function AddEdge(g: Graph, w: Work, cur: set<nat>, sym: string, next: set<nat>): (r: Work)
    requires Inv(g, w) && cur in w.keys
    requires next <= Ids(|g|) && Closure(g, next) == next
    ensures Inv(g, r) && Grows(w, r) && cur in r.keys
  {
    var w1 := if next in w.keys then w
      else Work(w.keys + [next], w.states + [NState(AnyFinal(g, next), map[])], w.unmarked + [next]);
    assert Inv(g, w1) && Grows(w, w1) && cur in w1.keys && next in w1.keys by {
      assert w1.keys[..|w.keys|] == w.keys;
      if next !in w.keys {
        AddKeyInv(g, w, next);
        assert w1.keys[|w.keys|] == next;
        var j :| 0 <= j < |w.keys| && w.keys[j] == cur;
        assert w1.keys[j] == cur;
      }
    }
    var src, dst := IndexOf(w1.keys, cur), IndexOf(w1.keys, next);
    SetEdgeInv(g, w1, src, sym, dst);
    SetEdge(w1, src, sym, dst)
  }

  /** Setting one transition to name an existing state keeps the data of the
      construction consistent and leaves keys and worklist alone. */
  lemma SetEdgeInv(g: Graph, w: Work, src: nat, sym: string, dst: nat)
    requires Inv(g, w) && src < |w.states| && dst < |w.states|
    ensures var r := SetEdge(w, src, sym, dst); Inv(g, r) && r.keys == w.keys && r.unmarked == w.unmarked
  {
    SetEdgeDeterministic(w, src, sym, dst);
  }

  /** The `for char in alphabet` loop (lines 31-41) from position `i` on,
      for the closure `cur` being processed. */
  function Visit(g: Graph, alphabet: seq<string>, cur: set<nat>, i: nat, w: Work): (r: Work)
    requires Inv(g, w) && cur in w.keys && i <= |alphabet|
    ensures Inv(g, r) && Grows(w, r)
    decreases |alphabet| - i
  {
    if i == |alphabet| then
      assert w.keys[..|w.keys|] == w.keys;
      w
    else
      var sym := alphabet[i];
      var next := Target(g, cur, sym);
      if sym == Eps || next == {} then
        Visit(g, alphabet, cur, i + 1, w)
      else
        TargetBelow(g, cur, sym);
        var w1 := AddEdge(g, w, cur, sym, next);
        assert cur in w1.keys by {
          var m :| 0 <= m < |w.keys| && w.keys[m] == cur;
          assert w1.keys[m] == cur;
        }
        var r := Visit(g, alphabet, cur, i + 1, w1);
        GrowsTrans(w, w1, r);
        r
  }

  /** The members of a sequence of closures. */
  ghost function Elems(xs: seq<set<nat>>): set<set<nat>>
  {
    set j | 0 <= j < |xs| :: xs[j]
  }

  /** All subsets of `U`. */
  ghost function PowerSet(U: set<nat>): set<set<nat>>
    decreases |U|
  {
    if U == {} then {{}}
    else
      var x :| x in U;
      var P := PowerSet(U - {x});
      P + set S | S in P :: S + {x}
  }

  lemma {:induction false} InPowerSet(U: set<nat>, S: set<nat>)
    requires S <= U
    ensures S in PowerSet(U)
    decreases |U|
  {
    if U != {} {
      var x :| x in U && PowerSet(U) == PowerSet(U - {x}) + set T | T in PowerSet(U - {x}) :: T + {x};
      InPowerSet(U - {x}, S - {x});
      if x in S {
        assert S == (S - {x}) + {x};
      } else {
        assert S == S - {x};
      }
    }
  }

  /** The measure that bounds the worklist: the subsets of the NFA states
      not yet keys, then the length of the worklist. */
  lemma Progress(g: Graph, w: Work, w1: Work, r: Work)
    requires Inv(g, r) && w1.keys == w.keys && |w1.unmarked| < |w.unmarked| && Grows(w1, r)
    ensures |PowerSet(Ids(|g|)) - Elems(r.keys)| < |PowerSet(Ids(|g|)) - Elems(w.keys)| ||
      (|PowerSet(Ids(|g|)) - Elems(r.keys)| == |PowerSet(Ids(|g|)) - Elems(w.keys)| && |r.unmarked| < |w.unmarked|)
  {
    var P := PowerSet(Ids(|g|));
    assert Elems(w.keys) <= Elems(r.keys) by {
      forall x | x in Elems(w.keys) ensures x in Elems(r.keys) {
        var m :| 0 <= m < |w.keys| && w.keys[m] == x;
        assert r.keys[m] == x;
      }
    }
    if |r.keys| > |w.keys| {
      var x := r.keys[|w.keys|];
      InPowerSet(Ids(|g|), x);
      assert x !in Elems(w.keys);
      CardStrict(P - Elems(r.keys), P - Elems(w.keys), x);
    } else {
      assert r.keys == w.keys by {
        assert r.keys == r.keys[..|w.keys|];
      }
    }
  }

  /** The `while unmarked_states` loop (lines 27-41): pop the last pending
      closure, close it again (line 29) and record its transitions. */
  function Explore(g: Graph, alphabet: seq<string>, w: Work): (r: Work)
    requires Inv(g, w)
    ensures Inv(g, r) && r.unmarked == [] && |w.keys| <= |r.keys| && r.keys[..|w.keys|] == w.keys
    decreases |PowerSet(Ids(|g|)) - Elems(w.keys)|, |w.unmarked|
  {
    if w.unmarked == [] then
      assert w.keys[..|w.keys|] == w.keys;
      w
    else
      var cur := w.unmarked[|w.unmarked| - 1];
      var w1 := w.(unmarked := w.unmarked[..|w.unmarked| - 1]);
      var w2 := Visit(g, alphabet, Closure(g, cur), 0, w1);
      Progress(g, w, w1, w2);
      var r := Explore(g, alphabet, w2);
      assert r.keys[..|w.keys|] == r.keys[..|w2.keys|][..|w.keys|];
      r
  }

  /** The DFA of `nfa_to_dfa`: state 0 is the start state, stored under the
      closure of the NFA start. */
  function SubsetConstruction(g: Graph, start: nat, alphabet: seq<string>): (r: Work)
    requires ValidGraph(g) && start < |g|
    ensures Inv(g, r) && r.unmarked == [] && r.keys[0] == Closure(g, {start})
  {
    var init := Closure(g, {start});
    ClosureBelow(g, {start});
    ClosureIdempotent(g, {start});
    Explore(g, alphabet, Work([init], [NState(false, map[])], [init]))
  }

  /** The `for char in alphabet` loop of `nfa_to_dfa` (dfa.py:31-41) for the
      closure being processed, updating the dictionary and the worklist. */
  method RecordTransitions(g: Graph, alphabet: seq<string>, closure: set<nat>, w: Work) returns (r: Work)
    requires Inv(g, w) && closure in w.keys
    ensures r == Visit(g, alphabet, closure, 0, w)
  {
    var keys, states, unmarked := w.keys, w.states, w.unmarked;
    for i := 0 to |alphabet|
      invariant Inv(g, Work(keys, states, unmarked)) && closure in keys
      invariant Visit(g, alphabet, closure, 0, w) == Visit(g, alphabet, closure, i, Work(keys, states, unmarked))
    {
      ghost var before := Work(keys, states, unmarked);
      var sym := alphabet[i];
      if sym == Eps {
        continue;
      }
      var moved := Move(g, closure, sym);
      var next := EpsilonClosure(g, moved);
      if next == {} {
        continue;
      }
      TargetBelow(g, closure, sym);
      ghost var v := AddEdge(g, before, closure, sym, next);
      if next !in keys {
        keys, states, unmarked := keys + [next], states + [NState(AnyFinal(g, next), map[])], unmarked + [next];
      }
      var src, dst := IndexOf(keys, closure), IndexOf(keys, next);
      states := states[src := states[src].(trans := states[src].trans[sym := [dst]])];
      assert Work(keys, states, unmarked) == v;
    }
    r := Work(keys, states, unmarked);
  }

  /** `nfa_to_dfa(nfa, alphabet)` (dfa.py:21-43) with the dictionary
      `dfa_states` kept as its key and value sequences. */
  method NfaToDfa(g: Graph, start: nat, alphabet: seq<string>) returns (d: Work)
    requires ValidGraph(g) && start < |g|
    ensures d == SubsetConstruction(g, start, alphabet)
  {
    var init := EpsilonClosure(g, {start});
    d := Work([init], [NState(false, map[])], [init]);
    ClosureBelow(g, {start});
    ClosureIdempotent(g, {start});
    while d.unmarked != []
      invariant Inv(g, d)
      invariant Explore(g, alphabet, d) == SubsetConstruction(g, start, alphabet)
      decreases |PowerSet(Ids(|g|)) - Elems(d.keys)|, |d.unmarked|
    {
      ghost var w := d;
      var current := d.unmarked[|d.unmarked| - 1];
      d := d.(unmarked := d.unmarked[..|d.unmarked| - 1]);
      var closure := EpsilonClosure(g, current);
      ghost var w1 := d;
      d := RecordTransitions(g, alphabet, closure, d);
      Progress(g, w, w1, d);
    }
  }

  // ---------------------------------------------------------------------------
  // What the construction computes

  ghost predicate Distinct(xs: seq<set<nat>>)
  {
    forall i, j :: 0 <= i < j < |xs| ==> xs[i] != xs[j]
  }

  /** The DFA state `st`, stored under the closure `C`, has a transition on
      exactly those symbols of `syms` other than epsilon whose successor
      closure is non-empty, each a one-element list to the state of that
      closure. */
  ghost predicate Records(g: Graph, keys: seq<set<nat>>, st: NState, C: set<nat>, syms: seq<string>)
    requires ValidGraph(g)
  {
    (forall sym :: sym in st.trans <==> sym in syms && sym != Eps && Target(g, C, sym) != {}) &&
    (forall sym :: sym in st.trans ==>
      |st.trans[sym]| == 1 && st.trans[sym][0] < |keys| && keys[st.trans[sym][0]] == Target(g, C, sym))
  }

  /** The construction part-way: each key is a closure stored once; the
      start state is not final and every other state is final iff its
      closure holds a final NFA state; a pending closure has no transitions
      yet, the closure `cur` has those of the first `n` alphabet symbols and
      every other one has all of its transitions. */
  ghost predicate Partial(g: Graph, alphabet: seq<string>, w: Work, cur: set<nat>, n: nat)
    requires n <= |alphabet|
  {
    Inv(g, w) && Distinct(w.keys) && Distinct(w.unmarked) &&
    (forall k :: 0 <= k < |w.keys| ==> Closure(g, w.keys[k]) == w.keys[k]) &&
    (forall j :: 0 <= j < |w.unmarked| ==> w.unmarked[j] in w.keys) &&
    !w.states[0].isFinal &&
    (forall k :: 1 <= k < |w.keys| ==> w.states[k].isFinal == AnyFinal(g, w.keys[k])) &&
    Rows(g, alphabet, w, cur, n)
  }

  /** The transitions recorded so far: none for a pending closure, those of
      the first `n` alphabet symbols for `cur`, all of them for the others. */
  ghost predicate Rows(g: Graph, alphabet: seq<string>, w: Work, cur: set<nat>, n: nat)
    requires ValidGraph(g) && |w.keys| <= |w.states| && n <= |alphabet|
  {
    forall k :: 0 <= k < |w.keys| ==>
      if w.keys[k] in w.unmarked then w.states[k].trans == map[]
      else Records(g, w.keys, w.states[k], w.keys[k], alphabet[..if w.keys[k] == cur then n else |alphabet|])
  }

  /** The construction once every closure has been processed. */
  ghost predicate Complete(g: Graph, alphabet: seq<string>, w: Work)
  {
    Partial(g, alphabet, w, {}, |alphabet|) && w.unmarked == []
  }

  lemma RecordsGrow(g: Graph, keys: seq<set<nat>>, keys': seq<set<nat>>, st: NState, C: set<nat>, syms: seq<string>)
    requires ValidGraph(g) && |keys| <= |keys'| && keys'[..|keys|] == keys
    requires Records(g, keys, st, C, syms)
    ensures Records(g, keys', st, C, syms)
  {
    forall sym | sym in st.trans
      ensures keys'[st.trans[sym][0]] == keys[st.trans[sym][0]]
    {
      assert keys'[..|keys|][st.trans[sym][0]] == keys'[st.trans[sym][0]];
    }
  }

  lemma RecordsSkip(g: Graph, keys: seq<set<nat>>, st: NState, C: set<nat>, syms: seq<string>, sym: string)
    requires ValidGraph(g) && Records(g, keys, st, C, syms)
    requires sym == Eps || Target(g, C, sym) == {}
    ensures Records(g, keys, st, C, syms + [sym])
  {
  }

  lemma RecordsExtend(g: Graph, keys: seq<set<nat>>, st: NState, C: set<nat>, syms: seq<string>, sym: string, dst: nat)
    requires ValidGraph(g) && Records(g, keys, st, C, syms)
    requires sym != Eps && Target(g, C, sym) != {} && dst < |keys| && keys[dst] == Target(g, C, sym)
    ensures Records(g, keys, st.(trans := st.trans[sym := [dst]]), C, syms + [sym])
  {
    var t := st.trans[sym := [dst]];
    forall x
      ensures x in t <==> x in syms + [sym] && x != Eps && Target(g, C, x) != {}
    {
      if x != sym {
        assert x in t <==> x in st.trans;
        assert x in syms + [sym] <==> x in syms;
      }
    }
    forall x | x in t
      ensures |t[x]| == 1 && t[x][0] < |keys| && keys[t[x][0]] == Target(g, C, x)
    {
      if x != sym {
        assert t[x] == st.trans[x];
      }
    }
  }

  /** The closure whose state is complete does not matter. */
  lemma Rebase(g: Graph, alphabet: seq<string>, w: Work, cur: set<nat>, other: set<nat>)
    requires Partial(g, alphabet, w, cur, |alphabet|)
    ensures Partial(g, alphabet, w, other, |alphabet|)
  {
    assert alphabet[..|alphabet|] == alphabet;
  }

  /** A symbol skipped at line 33 or 36 records nothing and loses nothing. */
  lemma SkipCorrect(g: Graph, alphabet: seq<string>, w: Work, cur: set<nat>, i: nat)
    requires i < |alphabet| && Partial(g, alphabet, w, cur, i) && cur !in w.unmarked
    requires alphabet[i] == Eps || Target(g, cur, alphabet[i]) == {}
    ensures Partial(g, alphabet, w, cur, i + 1)
  {
    assert alphabet[..i + 1] == alphabet[..i] + [alphabet[i]];
    forall k | 0 <= k < |w.keys| && w.keys[k] == cur
      ensures Records(g, w.keys, w.states[k], cur, alphabet[..i + 1])
    {
      RecordsSkip(g, w.keys, w.states[k], cur, alphabet[..i], alphabet[i]);
    }
  }

  /** Lines 38-40: a new closure becomes a pending key whose state is final
      iff the closure holds a final NFA state. */
  lemma AddKeyCorrect(g: Graph, alphabet: seq<string>, w: Work, cur: set<nat>, i: nat, next: set<nat>)
    requires i <= |alphabet| && Partial(g, alphabet, w, cur, i) && cur in w.keys && cur !in w.unmarked
    requires next !in w.keys && next <= Ids(|g|) && Closure(g, next) == next
    ensures var w1 := Work(w.keys + [next], w.states + [NState(AnyFinal(g, next), map[])], w.unmarked + [next]);
      Partial(g, alphabet, w1, cur, i) && cur in w1.keys && cur !in w1.unmarked
  {
    var w1 := Work(w.keys + [next], w.states + [NState(AnyFinal(g, next), map[])], w.unmarked + [next]);
    AddKeyInv(g, w, next);
    AddKeyRows(g, alphabet, w, cur, i, next);
    AddKeyKeys(g, w, next);
    assert cur in w1.keys by {
      var j :| 0 <= j < |w.keys| && w.keys[j] == cur;
      assert w1.keys[j] == cur;
    }
  }

  /** Adding a new closure as a pending key keeps keys and worklist free of
      repeats, every key a closure and every other state's finality. */
  lemma AddKeyKeys(g: Graph, w: Work, next: set<nat>)
    requires ValidGraph(g) && Distinct(w.keys) && Distinct(w.unmarked) && |w.keys| == |w.states|
    requires forall k :: 0 <= k < |w.keys| ==> Closure(g, w.keys[k]) == w.keys[k]
    requires forall j :: 0 <= j < |w.unmarked| ==> w.unmarked[j] in w.keys
    requires forall k :: 1 <= k < |w.keys| ==> w.states[k].isFinal == AnyFinal(g, w.keys[k])
    requires next !in w.keys && Closure(g, next) == next
    ensures var w1 := Work(w.keys + [next], w.states + [NState(AnyFinal(g, next), map[])], w.unmarked + [next]);
      Distinct(w1.keys) && Distinct(w1.unmarked) &&
      (forall k :: 0 <= k < |w1.keys| ==> Closure(g, w1.keys[k]) == w1.keys[k]) &&
      (forall j :: 0 <= j < |w1.unmarked| ==> w1.unmarked[j] in w1.keys) &&
      (forall k :: 1 <= k < |w1.keys| ==> w1.states[k].isFinal == AnyFinal(g, w1.keys[k]))
  {
    var w1 := Work(w.keys + [next], w.states + [NState(AnyFinal(g, next), map[])], w.unmarked + [next]);
    DistinctSnoc(w.keys, next);
    assert next !in w.unmarked by {
      forall j | 0 <= j < |w.unmarked| ensures w.unmarked[j] != next {
        assert w.unmarked[j] in w.keys;
      }
    }
    DistinctSnoc(w.unmarked, next);
    forall k | 0 <= k < |w1.keys| ensures Closure(g, w1.keys[k]) == w1.keys[k] {
      if k < |w.keys| { assert w1.keys[k] == w.keys[k]; }
    }
    forall j | 0 <= j < |w1.unmarked| ensures w1.unmarked[j] in w1.keys {
      if j < |w.unmarked| { assert w1.unmarked[j] == w.unmarked[j] && w.unmarked[j] in w.keys; }
      else { assert w1.keys[|w.keys|] == next; }
    }
    forall k | 1 <= k < |w1.keys| ensures w1.states[k].isFinal == AnyFinal(g, w1.keys[k]) {
      if k < |w.keys| { assert w1.keys[k] == w.keys[k] && w1.states[k] == w.states[k]; }
    }
  }

  lemma DistinctSnoc(xs: seq<set<nat>>, x: set<nat>)
    requires Distinct(xs) && x !in xs
    ensures Distinct(xs + [x])
  {
    var ys := xs + [x];
    forall i, j | 0 <= i < j < |ys| ensures ys[i] != ys[j] {
      if j < |xs| { assert ys[i] == xs[i] && ys[j] == xs[j]; }
      else { assert ys[j] == x && ys[i] == xs[i]; }
    }
  }

  /** Adding a key and its state keeps the data of the construction consistent. */
  lemma AddKeyInv(g: Graph, w: Work, next: set<nat>)
    requires Inv(g, w) && next <= Ids(|g|) && Closure(g, next) == next
    ensures Inv(g, Work(w.keys + [next], w.states + [NState(AnyFinal(g, next), map[])], w.unmarked + [next]))
  {
    var w1 := Work(w.keys + [next], w.states + [NState(AnyFinal(g, next), map[])], w.unmarked + [next]);
    assert Deterministic(w1.states) by {
      forall k, c | 0 <= k < |w1.states| && c in w1.states[k].trans
        ensures |w1.states[k].trans[c]| == 1 && w1.states[k].trans[c][0] < |w1.states|
      {
        assert k < |w.states|;
      }
    }
  }

  /** Adding a pending key leaves every state's transitions as recorded. */
  lemma AddKeyRows(g: Graph, alphabet: seq<string>, w: Work, cur: set<nat>, i: nat, next: set<nat>)
    requires i <= |alphabet| && Partial(g, alphabet, w, cur, i) && next !in w.keys
    ensures var w1 := Work(w.keys + [next], w.states + [NState(AnyFinal(g, next), map[])], w.unmarked + [next]);
      Rows(g, alphabet, w1, cur, i)
  {
    var w1 := Work(w.keys + [next], w.states + [NState(AnyFinal(g, next), map[])], w.unmarked + [next]);
    assert w1.keys[..|w.keys|] == w.keys;
    forall k | 0 <= k < |w1.keys|
      ensures if w1.keys[k] in w1.unmarked then w1.states[k].trans == map[]
        else Records(g, w1.keys, w1.states[k], w1.keys[k], alphabet[..if w1.keys[k] == cur then i else |alphabet|])
    {
      if k < |w.keys| {
        assert w1.keys[k] == w.keys[k] && w1.states[k] == w.states[k];
        assert w.keys[k] in w1.unmarked <==> w.keys[k] in w.unmarked;
        if w.keys[k] !in w.unmarked {
          RecordsGrow(g, w.keys, w1.keys, w.states[k], w.keys[k], alphabet[..if w.keys[k] == cur then i else |alphabet|]);
        }
      } else {
        assert w1.keys[k] == next && w1.keys[k] in w1.unmarked;
      }
    }
  }

  lemma SliceSnoc(xs: seq<string>, i: nat)
    requires i < |xs|
    ensures xs[..i + 1] == xs[..i] + [xs[i]]
  {
  }

  lemma PartialAt(g: Graph, alphabet: seq<string>, w: Work, cur: set<nat>, n: nat, k: nat)
    requires n <= |alphabet| && Partial(g, alphabet, w, cur, n) && k < |w.keys|
    ensures ValidGraph(g) && k < |w.states|
    ensures if w.keys[k] in w.unmarked then w.states[k].trans == map[]
      else Records(g, w.keys, w.states[k], w.keys[k], alphabet[..if w.keys[k] == cur then n else |alphabet|])
  {
  }

  /** The DFA state `w.states[src]` with its `sym` transition set to `[dst]`. */
  function SetEdge(w: Work, src: nat, sym: string, dst: nat): Work
    requires src < |w.states|
  {
    w.(states := w.states[src := w.states[src].(trans := w.states[src].trans[sym := [dst]])])
  }

  lemma SetEdgeDeterministic(w: Work, src: nat, sym: string, dst: nat)
    requires src < |w.states| && dst < |w.states| && Deterministic(w.states)
    ensures Deterministic(SetEdge(w, src, sym, dst).states)
  {
    var r := SetEdge(w, src, sym, dst);
    forall k, c | 0 <= k < |r.states| && c in r.states[k].trans
      ensures |r.states[k].trans[c]| == 1 && r.states[k].trans[c][0] < |r.states|
    {
      if k != src || c != sym {
        assert r.states[k].trans[c] == w.states[k].trans[c];
      }
    }
  }

  /** Line 41: the transition on `alphabet[i]` of the closure being processed
      leads to the state of its successor closure. */
  lemma SetEdgeCorrect(g: Graph, alphabet: seq<string>, w: Work, cur: set<nat>, i: nat)
    requires i < |alphabet| && Partial(g, alphabet, w, cur, i) && cur in w.keys && cur !in w.unmarked
    requires alphabet[i] != Eps && Target(g, cur, alphabet[i]) != {} && Target(g, cur, alphabet[i]) in w.keys
    ensures var r := SetEdge(w, IndexOf(w.keys, cur), alphabet[i], IndexOf(w.keys, Target(g, cur, alphabet[i])));
      Partial(g, alphabet, r, cur, i + 1) && cur in r.keys && cur !in r.unmarked
  {
    var sym, next := alphabet[i], Target(g, cur, alphabet[i]);
    var src, dst := IndexOf(w.keys, cur), IndexOf(w.keys, next);
    var r := SetEdge(w, src, sym, dst);
    SetEdgeRows(g, alphabet, w, cur, i);
    SetEdgeKeeps(g, alphabet, w, cur, i, src, sym, dst);
  }

  /** Setting a transition changes neither the closures, the worklist nor
      which states are final. */
  lemma SetEdgeKeeps(g: Graph, alphabet: seq<string>, w: Work, cur: set<nat>, i: nat, src: nat, sym: string, dst: nat)
    requires i < |alphabet| && Partial(g, alphabet, w, cur, i) && src < |w.states| && dst < |w.states|
    ensures var r := SetEdge(w, src, sym, dst);
      Inv(g, r) && Distinct(r.keys) && Distinct(r.unmarked) &&
      (forall k :: 0 <= k < |r.keys| ==> Closure(g, r.keys[k]) == r.keys[k]) &&
      (forall j :: 0 <= j < |r.unmarked| ==> r.unmarked[j] in r.keys) &&
      !r.states[0].isFinal &&
      (forall k :: 1 <= k < |r.keys| ==> r.states[k].isFinal == AnyFinal(g, r.keys[k]))
  {
    var r := SetEdge(w, src, sym, dst);
    SetEdgeDeterministic(w, src, sym, dst);
    assert r.keys == w.keys && r.unmarked == w.unmarked;
    assert forall k :: 0 <= k < |r.keys| ==> r.states[k].isFinal == w.states[k].isFinal;
  }

  lemma SetEdgeRows(g: Graph, alphabet: seq<string>, w: Work, cur: set<nat>, i: nat)
    requires ValidGraph(g) && |w.keys| == |w.states| && Distinct(w.keys) && i < |alphabet| && Rows(g, alphabet, w, cur, i)
    requires cur in w.keys && cur !in w.unmarked
    requires alphabet[i] != Eps && Target(g, cur, alphabet[i]) != {} && Target(g, cur, alphabet[i]) in w.keys
    ensures var r := SetEdge(w, IndexOf(w.keys, cur), alphabet[i], IndexOf(w.keys, Target(g, cur, alphabet[i])));
      Rows(g, alphabet, r, cur, i + 1)
  {
    var sym, next := alphabet[i], Target(g, cur, alphabet[i]);
    var src, dst := IndexOf(w.keys, cur), IndexOf(w.keys, next);
    var r := SetEdge(w, src, sym, dst);
    SliceSnoc(alphabet, i);
    assert Records(g, w.keys, w.states[src], cur, alphabet[..i]);
    RecordsExtend(g, w.keys, w.states[src], cur, alphabet[..i], sym, dst);
    forall k | 0 <= k < |r.keys|
      ensures if r.keys[k] in r.unmarked then r.states[k].trans == map[]
        else Records(g, r.keys, r.states[k], r.keys[k], alphabet[..if r.keys[k] == cur then i + 1 else |alphabet|])
    {
      if k != src {
        assert r.states[k] == w.states[k];
        assert w.keys[k] != cur;
      }
    }
  }

  lemma AddEdgeCorrect(g: Graph, alphabet: seq<string>, w: Work, cur: set<nat>, i: nat)
    requires i < |alphabet| && Partial(g, alphabet, w, cur, i) && cur in w.keys && cur !in w.unmarked
    requires alphabet[i] != Eps && Target(g, cur, alphabet[i]) != {}
    requires Target(g, cur, alphabet[i]) <= Ids(|g|) && Closure(g, Target(g, cur, alphabet[i])) == Target(g, cur, alphabet[i])
    ensures var r := AddEdge(g, w, cur, alphabet[i], Target(g, cur, alphabet[i]));
      Partial(g, alphabet, r, cur, i + 1) && cur in r.keys && cur !in r.unmarked
  {
    var next := Target(g, cur, alphabet[i]);
    if next in w.keys {
      SetEdgeCorrect(g, alphabet, w, cur, i);
    } else {
      AddKeyCorrect(g, alphabet, w, cur, i, next);
      var w1 := Work(w.keys + [next], w.states + [NState(AnyFinal(g, next), map[])], w.unmarked + [next]);
      SetEdgeCorrect(g, alphabet, w1, cur, i);
    }
  }

  /** Processing a popped closure records all of its transitions. */
  lemma {:induction false} VisitCorrect(g: Graph, alphabet: seq<string>, cur: set<nat>, i: nat, w: Work)
    requires i <= |alphabet| && Partial(g, alphabet, w, cur, i) && cur in w.keys && cur !in w.unmarked
    ensures Partial(g, alphabet, Visit(g, alphabet, cur, i, w), cur, |alphabet|)
    decreases |alphabet| - i
  {
    if i < |alphabet| {
      var sym := alphabet[i];
      var next := Target(g, cur, sym);
      if sym == Eps || next == {} {
        SkipCorrect(g, alphabet, w, cur, i);
        VisitCorrect(g, alphabet, cur, i + 1, w);
      } else {
        TargetBelow(g, cur, sym);
        AddEdgeCorrect(g, alphabet, w, cur, i);
        VisitCorrect(g, alphabet, cur, i + 1, AddEdge(g, w, cur, sym, next));
      }
    }
  }

  /** Line 28: the popped closure is a key, no longer pending, with no
      transitions yet; line 29 closes it to itself. */
  lemma PopCorrect(g: Graph, alphabet: seq<string>, w: Work, other: set<nat>)
    requires Partial(g, alphabet, w, other, |alphabet|) && w.unmarked != []
    ensures var cur := w.unmarked[|w.unmarked| - 1];
      var w1 := w.(unmarked := w.unmarked[..|w.unmarked| - 1]);
      Closure(g, cur) == cur && Partial(g, alphabet, w1, cur, 0) && cur in w1.keys && cur !in w1.unmarked
  {
    var cur := w.unmarked[|w.unmarked| - 1];
    var w1 := w.(unmarked := w.unmarked[..|w.unmarked| - 1]);
    PopPending(g, w);
    assert alphabet[..|alphabet|] == alphabet;
    PopRecords(g, alphabet, w);
    assert cur in w.keys;
  }

  /** Dropping the last pending closure keeps the pending list a duplicate-free
      list of keys, and the dropped closure is no longer pending. */
  lemma PopPending(g: Graph, w: Work)
    requires Inv(g, w) && Distinct(w.unmarked) && w.unmarked != []
    requires forall j :: 0 <= j < |w.unmarked| ==> w.unmarked[j] in w.keys
    ensures var w1 := w.(unmarked := w.unmarked[..|w.unmarked| - 1]);
      Inv(g, w1) && Distinct(w1.unmarked) && w.unmarked[|w.unmarked| - 1] !in w1.unmarked &&
      (forall j :: 0 <= j < |w1.unmarked| ==> w1.unmarked[j] in w1.keys)
  {
  }

  /** After the pop, the popped closure has no transitions yet and every
      other closure keeps the ones it had. */
  lemma PopRecords(g: Graph, alphabet: seq<string>, w: Work)
    requires ValidGraph(g) && |w.keys| == |w.states| && Distinct(w.unmarked) && w.unmarked != []
    requires forall k :: 0 <= k < |w.keys| ==>
      if w.keys[k] in w.unmarked then w.states[k].trans == map[]
      else Records(g, w.keys, w.states[k], w.keys[k], alphabet)
    ensures var cur := w.unmarked[|w.unmarked| - 1];
      var w1 := w.(unmarked := w.unmarked[..|w.unmarked| - 1]);
      forall k :: 0 <= k < |w1.keys| ==>
        if w1.keys[k] in w1.unmarked then w1.states[k].trans == map[]
        else Records(g, w1.keys, w1.states[k], w1.keys[k], alphabet[..if w1.keys[k] == cur then 0 else |alphabet|])
  {
    var cur := w.unmarked[|w.unmarked| - 1];
    var w1 := w.(unmarked := w.unmarked[..|w.unmarked| - 1]);
    assert alphabet[..0] == [];
    forall k | 0 <= k < |w1.keys|
      ensures if w1.keys[k] in w1.unmarked then w1.states[k].trans == map[]
        else Records(g, w1.keys, w1.states[k], w1.keys[k], alphabet[..if w1.keys[k] == cur then 0 else |alphabet|])
    {
      if w.keys[k] == cur {
        assert cur in w.unmarked;
      } else {
        assert w.keys[k] in w1.unmarked <==> w.keys[k] in w.unmarked;
      }
    }
  }

  /** Once the worklist is empty every closure has all its transitions. */
  lemma {:induction false} ExploreCorrect(g: Graph, alphabet: seq<string>, w: Work, other: set<nat>)
    requires Partial(g, alphabet, w, other, |alphabet|)
    ensures Complete(g, alphabet, Explore(g, alphabet, w))
    decreases |PowerSet(Ids(|g|)) - Elems(w.keys)|, |w.unmarked|
  {
    if w.unmarked == [] {
      Rebase(g, alphabet, w, other, {});
    } else {
      var cur := w.unmarked[|w.unmarked| - 1];
      var w1 := w.(unmarked := w.unmarked[..|w.unmarked| - 1]);
      PopCorrect(g, alphabet, w, other);
      var w2 := Visit(g, alphabet, cur, 0, w1);
      VisitCorrect(g, alphabet, cur, 0, w1);
      Progress(g, w, w1, w2);
      ExploreCorrect(g, alphabet, w2, cur);
    }
  }

  /** The result of `nfa_to_dfa`: every DFA state has all its transitions,
      and its finality is as line 39 (or, for the start, line 23) made it. */
  lemma SubsetCorrect(g: Graph, start: nat, alphabet: seq<string>)
    requires ValidGraph(g) && start < |g|
    ensures Complete(g, alphabet, SubsetConstruction(g, start, alphabet))
  {
    var init := Closure(g, {start});
    ClosureBelow(g, {start});
    ClosureIdempotent(g, {start});
    ExploreCorrect(g, alphabet, Work([init], [NState(false, map[])], [init]), {});
  }

  // ---------------------------------------------------------------------------
  // Subset simulation on the NFA, the reference the DFA walk is measured by

  /** Every character of `s`, as a one-character symbol, is an alphabet
      symbol other than epsilon. */
  predicate ValidWord(alphabet: seq<string>, s: string)
  {
    forall i :: 0 <= i < |s| ==> [s[i]] in alphabet && [s[i]] != Eps
  }

  /** The set of NFA states reached from the closure `C` by reading `s`,
      one `epsilon_closure(move(., c))` per character. */
  function Sim(g: Graph, C: set<nat>, s: string): set<nat>
    requires ValidGraph(g)
    decreases |s|
  {
    if s == [] then C else Sim(g, Target(g, C, [s[0]]), s[1..])
  }

  lemma TargetOfEmpty(g: Graph, sym: string)
    requires ValidGraph(g)
    ensures Target(g, {}, sym) == {}
  {
    assert Moved(g, {}, sym) == {};
    ClosureOfEmpty(g);
  }

  /** Once no NFA state is left, none is ever reached again. */
  lemma {:induction false} SimEmpty(g: Graph, s: string)
    requires ValidGraph(g)
    ensures Sim(g, {}, s) == {}
  {
    if s != [] {
      TargetOfEmpty(g, [s[0]]);
      SimEmpty(g, s[1..]);
    }
  }
}
