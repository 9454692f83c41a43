/** `findall`, `search`, `split` and `sub` of src/regex_engine.py: the drivers
    that run `match` over every substring of a string, and the two Python
    string builtins `split` and `sub` rely on. */
module Scanning {
  import opened Results
  import opened Parser
  import opened Nfa
  import opened Dfa
  import opened RegexEngine

  /** Python's normalisation of a slice bound against a string of length `n`. */
  function Clamp(x: int, n: nat): (r: nat)
    ensures r <= n
    ensures 0 <= x <= n ==> r == x
  {
    if x < 0 then (if x + n < 0 then 0 else x + n) else if x > n then n else x
  }

  /** Python's `s[a:b]`. */
  function PySlice(s: string, a: int, b: int): string
  {
    var lo, hi := Clamp(a, |s|), Clamp(b, |s|);
    if lo < hi then s[lo..hi] else []
  }

  /** A slice within bounds is the substring; any slice is the substring
      between the normalised bounds, or empty when they cross. */
  lemma PySliceMeaning(s: string, a: int, b: int)
    ensures 0 <= a <= b <= |s| ==> PySlice(s, a, b) == s[a..b]
    ensures Clamp(a, |s|) <= Clamp(b, |s|) ==> PySlice(s, a, b) == s[Clamp(a, |s|)..Clamp(b, |s|)]
    ensures Clamp(a, |s|) >= Clamp(b, |s|) ==> PySlice(s, a, b) == []
  {
  }

  /** The pairs `(i, j)`, `j` from `j0` up to `|s|`, for which `accept` holds
      of `s[i:j]`, in the order the inner loop meets them. */
  function RowPairs(accept: string -> bool, s: string, i: nat, j0: nat): (r: seq<(nat, nat)>)
    requires i < j0
    decreases |s| + 1 - j0
  {
    if |s| < j0 then []
    else (if accept(s[i..j0]) then [(i, j0)] else []) + RowPairs(accept, s, i, j0 + 1)
  }

  /** The pairs for every start `i` from `i0` on, in loop order. */
  function HitPairs(accept: string -> bool, s: string, i0: nat): (r: seq<(nat, nat)>)
    decreases |s| - i0
  {
    if |s| <= i0 then []
    else RowPairs(accept, s, i0, i0 + 1) + HitPairs(accept, s, i0 + 1)
  }

  /** Every pair `(a, b)` has `i == a < b` and `j0 <= b <= |s|`. */
  predicate RowShape(s: string, pairs: seq<(nat, nat)>, i: nat, j0: nat)
  {
    forall k :: 0 <= k < |pairs| ==> pairs[k].0 == i < j0 <= pairs[k].1 <= |s|
  }

  /** Every pair `(a, b)` names a non-empty substring of `s` starting at `lo` or later. */
  predicate Spans(s: string, pairs: seq<(nat, nat)>, lo: nat)
  {
    forall k :: 0 <= k < |pairs| ==> lo <= pairs[k].0 < pairs[k].1 <= |s|
  }

  /** The substrings `s[i:j]` named by a list of pairs. */
  function Texts(s: string, pairs: seq<(nat, nat)>): (r: seq<string>)
    ensures |r| == |pairs|
  {
    if pairs == [] then [] else [PySlice(s, pairs[0].0, pairs[0].1)] + Texts(s, pairs[1..])
  }

  /** `(i, j)` names a non-empty substring that the DFA accepts. */
  predicate Accepting(accept: string -> bool, s: string, i: nat, j: nat)
  {
    i < j <= |s| && accept(s[i..j])
  }

  predicate LexLess(p: (nat, nat), q: (nat, nat))
  {
    p.0 < q.0 || (p.0 == q.0 && p.1 < q.1)
  }

  /** Every pair names an accepted non-empty substring. */
  predicate AllAccepting(accept: string -> bool, s: string, r: seq<(nat, nat)>)
  {
    forall k :: 0 <= k < |r| ==> Accepting(accept, s, r[k].0, r[k].1)
  }

  /** Strictly increasing by start and then by end, hence without repeats. */
  predicate Ordered(r: seq<(nat, nat)>)
  {
    forall k, l :: 0 <= k < l < |r| ==> LexLess(r[k], r[l])
  }

  lemma {:induction false} RowPairsSound(accept: string -> bool, s: string, i: nat, j0: nat)
    requires i < j0
    ensures AllAccepting(accept, s, RowPairs(accept, s, i, j0))
    ensures RowShape(s, RowPairs(accept, s, i, j0), i, j0)
    decreases |s| + 1 - j0
  {
    if j0 <= |s| {
      RowPairsSound(accept, s, i, j0 + 1);
      var head := if accept(s[i..j0]) then [(i, j0)] else [];
      var tail := RowPairs(accept, s, i, j0 + 1);
      var r := head + tail;
      assert RowPairs(accept, s, i, j0) == r;
      forall k | 0 <= k < |r|
        ensures Accepting(accept, s, r[k].0, r[k].1) && r[k].0 == i < j0 <= r[k].1 <= |s|
      {
        if k < |head| { assert r[k] == head[k]; } else { assert r[k] == tail[k - |head|]; }
      }
    }
  }

  lemma {:induction false} RowPairsComplete(accept: string -> bool, s: string, i: nat, j0: nat)
    requires i < j0
    ensures forall j: nat :: j0 <= j <= |s| && Accepting(accept, s, i, j) ==> (i, j) in RowPairs(accept, s, i, j0)
    decreases |s| + 1 - j0
  {
    if j0 <= |s| {
      RowPairsComplete(accept, s, i, j0 + 1);
      var head := if accept(s[i..j0]) then [(i, j0)] else [];
      var tail := RowPairs(accept, s, i, j0 + 1);
      assert RowPairs(accept, s, i, j0) == head + tail;
      forall j: nat | j0 <= j <= |s| && Accepting(accept, s, i, j)
        ensures (i, j) in head + tail
      {
        if j == j0 { assert (i, j) in head; } else { assert (i, j) in tail; }
      }
    }
  }

  lemma {:induction false} RowPairsOrdered(accept: string -> bool, s: string, i: nat, j0: nat)
    requires i < j0
    ensures Ordered(RowPairs(accept, s, i, j0))
    decreases |s| + 1 - j0
  {
    if j0 <= |s| {
      RowPairsOrdered(accept, s, i, j0 + 1);
      RowPairsSound(accept, s, i, j0 + 1);
      var head := if accept(s[i..j0]) then [(i, j0)] else [];
      var tail := RowPairs(accept, s, i, j0 + 1);
      var r := head + tail;
      assert RowPairs(accept, s, i, j0) == r;
      forall k, l | 0 <= k < l < |r|
        ensures LexLess(r[k], r[l])
      {
        if k >= |head| {
          assert r[k] == tail[k - |head|] && r[l] == tail[l - |head|];
        } else {
          assert r[k] == (i, j0) && r[l] == tail[l - |head|];
        }
      }
    }
  }

  /** Every pair `findall` reports names an accepted non-empty substring. */
  lemma {:induction false} HitPairsSound(accept: string -> bool, s: string, i0: nat)
    ensures AllAccepting(accept, s, HitPairs(accept, s, i0))
    ensures Spans(s, HitPairs(accept, s, i0), i0)
    decreases |s| - i0
  {
    if i0 < |s| {
      RowPairsSound(accept, s, i0, i0 + 1);
      HitPairsSound(accept, s, i0 + 1);
      var row := RowPairs(accept, s, i0, i0 + 1);
      var rest := HitPairs(accept, s, i0 + 1);
      var r := row + rest;
      assert HitPairs(accept, s, i0) == r;
      forall k | 0 <= k < |r|
        ensures Accepting(accept, s, r[k].0, r[k].1) && i0 <= r[k].0 < r[k].1 <= |s|
      {
        if k < |row| { assert r[k] == row[k]; } else { assert r[k] == rest[k - |row|]; }
      }
    }
  }

  /** Every accepted non-empty substring starting at `i0` or later is reported. */
  lemma {:induction false} HitPairsComplete(accept: string -> bool, s: string, i0: nat)
    ensures forall i: nat, j: nat :: i0 <= i && Accepting(accept, s, i, j) ==> (i, j) in HitPairs(accept, s, i0)
    decreases |s| - i0
  {
    if i0 < |s| {
      RowPairsComplete(accept, s, i0, i0 + 1);
      HitPairsComplete(accept, s, i0 + 1);
      var row := RowPairs(accept, s, i0, i0 + 1);
      var rest := HitPairs(accept, s, i0 + 1);
      assert HitPairs(accept, s, i0) == row + rest;
      forall i: nat, j: nat | i0 <= i && Accepting(accept, s, i, j)
        ensures (i, j) in row + rest
      {
        if i == i0 { assert (i, j) in row; } else { assert (i, j) in rest; }
      }
    }
  }

  /** The pairs come ordered by start and then by end, so none repeats. */
  lemma {:induction false} HitPairsOrdered(accept: string -> bool, s: string, i0: nat)
    ensures Ordered(HitPairs(accept, s, i0))
    decreases |s| - i0
  {
    if i0 < |s| {
      RowPairsOrdered(accept, s, i0, i0 + 1);
      HitPairsOrdered(accept, s, i0 + 1);
      RowPairsSound(accept, s, i0, i0 + 1);
      HitPairsSound(accept, s, i0 + 1);
      var row := RowPairs(accept, s, i0, i0 + 1);
      var rest := HitPairs(accept, s, i0 + 1);
      var r := row + rest;
      assert HitPairs(accept, s, i0) == r;
      forall k, l | 0 <= k < l < |r|
        ensures LexLess(r[k], r[l])
      {
        if l < |row| {
          assert r[k] == row[k] && r[l] == row[l];
        } else if k >= |row| {
          assert r[k] == rest[k - |row|] && r[l] == rest[l - |row|];
        } else {
          assert r[k] == row[k] && r[l] == rest[l - |row|];
          assert row[k].0 == i0 < rest[l - |row|].0;
        }
      }
    }
  }

  /** The strings the DFA with states `states` accepts from its start state. */
  ghost function Language(states: seq<NState>): string -> bool
  {
    x => Deterministic(states) && |states| > 0 && Walk(states, 0, x)
  }

  /** `findall(pattern, string, alphabet)`: an empty string never compiles
      the pattern, so it gives no error. */
  ghost function FindAllSpec(pattern: string, s: string, alphabet: seq<string>): Result<seq<string>>
  {
    if s == [] then Ok([])
    else
      var d :- Compile(pattern, alphabet);
      Ok(Texts(s, HitPairs(Language(d.states), s, 0)))
  }

  /** `search(pattern, string, alphabet)`: the start of the first pair, or -1. */
  ghost function SearchSpec(pattern: string, s: string, alphabet: seq<string>): Result<int>
  {
    if s == [] then Ok(-1)
    else
      var d :- Compile(pattern, alphabet);
      var pairs := HitPairs(Language(d.states), s, 0);
      Ok(if pairs == [] then -1 else pairs[0].0 as int)
  }

  /** An accepted pair of the compiled DFA is exactly a substring `match` accepts. */
  ghost predicate MatchPairs(pattern: string, s: string, alphabet: seq<string>, pairs: seq<(nat, nat)>)
  {
    (forall k :: 0 <= k < |pairs| ==> pairs[k].0 < pairs[k].1 <= |s|) &&
    Ordered(pairs) &&
    forall i: nat, j: nat :: (i, j) in pairs <==> i < j <= |s| && MatchSpec(pattern, s[i..j], alphabet) == Ok(true)
  }

  /** The first pair is accepted and has the least start of any accepted pair;
      there is no first pair exactly when nothing is accepted. */
  lemma FirstPairLeast(accept: string -> bool, s: string)
    ensures HitPairs(accept, s, 0) != [] ==>
      Accepting(accept, s, HitPairs(accept, s, 0)[0].0, HitPairs(accept, s, 0)[0].1) &&
      forall b: nat, e: nat :: Accepting(accept, s, b, e) ==> HitPairs(accept, s, 0)[0].0 <= b
    ensures HitPairs(accept, s, 0) == [] ==> forall b: nat, e: nat :: !Accepting(accept, s, b, e)
  {
    var pairs := HitPairs(accept, s, 0);
    HitPairsSound(accept, s, 0);
    HitPairsComplete(accept, s, 0);
    HitPairsOrdered(accept, s, 0);
    forall b: nat, e: nat | Accepting(accept, s, b, e)
      ensures pairs != [] && pairs[0].0 <= b
    {
      var k :| 0 <= k < |pairs| && pairs[k] == (b, e);
      if k > 0 {
        assert LexLess(pairs[0], pairs[k]);
      }
    }
  }

  /** On a compiled pattern, `match` accepts `s[b:e]` exactly when the pair is accepted. */
  lemma MatchAccepting(pattern: string, s: string, alphabet: seq<string>, b: nat, e: nat)
    requires Compile(pattern, alphabet).Ok?
    ensures (b < e <= |s| && MatchSpec(pattern, s[b..e], alphabet) == Ok(true)) <==>
      Accepting(Language(Compile(pattern, alphabet).value.states), s, b, e)
  {
  }

  /** `findall` fails exactly when the string is non-empty and the pattern does
      not compile; otherwise it lists every non-empty substring `match` accepts,
      once per position, ordered by start and then by end. */
  lemma FindAllMeaning(pattern: string, s: string, alphabet: seq<string>)
    ensures FindAllSpec(pattern, s, alphabet).Err? <==> s != [] && Compile(pattern, alphabet).Err?
    ensures FindAllSpec(pattern, s, alphabet).Ok? ==>
      exists pairs :: MatchPairs(pattern, s, alphabet, pairs) && FindAllSpec(pattern, s, alphabet).value == Texts(s, pairs)
  {
    if s == [] {
      assert MatchPairs(pattern, s, alphabet, []);
      assert FindAllSpec(pattern, s, alphabet).value == Texts(s, []);
    } else if Compile(pattern, alphabet).Ok? {
      var accept := Language(Compile(pattern, alphabet).value.states);
      var pairs := HitPairs(accept, s, 0);
      HitPairsSound(accept, s, 0);
      HitPairsComplete(accept, s, 0);
      HitPairsOrdered(accept, s, 0);
      forall i: nat, j: nat
        ensures (i, j) in pairs <==> i < j <= |s| && MatchSpec(pattern, s[i..j], alphabet) == Ok(true)
      {
        MatchAccepting(pattern, s, alphabet, i, j);
        if (i, j) in pairs {
          var k :| 0 <= k < |pairs| && pairs[k] == (i, j);
          assert Accepting(accept, s, pairs[k].0, pairs[k].1);
        }
      }
      assert MatchPairs(pattern, s, alphabet, pairs);
    }
  }

  /** `search` fails exactly when `findall` does; it gives -1 when `match`
      accepts no non-empty substring, and otherwise the least start of one. */
  lemma SearchMeaning(pattern: string, s: string, alphabet: seq<string>)
    ensures SearchSpec(pattern, s, alphabet).Err? <==> FindAllSpec(pattern, s, alphabet).Err?
    ensures SearchSpec(pattern, s, alphabet) == Ok(-1) ==>
      forall i: nat, j: nat :: i < j <= |s| ==> MatchSpec(pattern, s[i..j], alphabet) != Ok(true)
    ensures SearchSpec(pattern, s, alphabet).Ok? && SearchSpec(pattern, s, alphabet).value != -1 ==>
      var i := SearchSpec(pattern, s, alphabet).value;
      0 <= i < |s| &&
      (exists j: nat :: i < j <= |s| && MatchSpec(pattern, s[i..j], alphabet) == Ok(true)) &&
      forall b: nat, e: nat :: b < i && b < e <= |s| ==> MatchSpec(pattern, s[b..e], alphabet) != Ok(true)
  {
    if s != [] && Compile(pattern, alphabet).Ok? {
      var accept := Language(Compile(pattern, alphabet).value.states);
      var pairs := HitPairs(accept, s, 0);
      FirstPairLeast(accept, s);
      forall b: nat, e: nat
        ensures (b < e <= |s| && MatchSpec(pattern, s[b..e], alphabet) == Ok(true)) <==> Accepting(accept, s, b, e)
      {
        MatchAccepting(pattern, s, alphabet, b, e);
      }
      if pairs != [] {
        assert MatchSpec(pattern, s[pairs[0].0..pairs[0].1], alphabet) == Ok(true);
      }
    }
  }

  lemma {:induction false} TextsAppend(s: string, a: seq<(nat, nat)>, b: seq<(nat, nat)>)
    ensures Texts(s, a + b) == Texts(s, a) + Texts(s, b)
  {
    if a == [] {
      assert a + b == b;
    } else {
      var first := [PySlice(s, a[0].0, a[0].1)];
      assert Texts(s, a + b) == first + Texts(s, a[1..] + b) by {
        assert (a + b)[0] == a[0];
        assert (a + b)[1..] == a[1..] + b;
      }
      TextsAppend(s, a[1..], b);
      Assoc(first, Texts(s, a[1..]), Texts(s, b));
    }
  }

  /** The inner loop of `findall` from `j` on, appending to `acc`. */
  function RowScan(accept: string -> bool, s: string, i: nat, j: nat, acc: seq<string>): seq<string>
    requires i < j
    decreases |s| + 1 - j
  {
    if |s| < j then acc
    else RowScan(accept, s, i, j + 1, acc + (if accept(s[i..j]) then [s[i..j]] else []))
  }

  /** The inner loop appends the texts of its row of pairs. */
  lemma {:induction false} RowScanTexts(accept: string -> bool, s: string, i: nat, j: nat, acc: seq<string>)
    requires i < j
    ensures RowScan(accept, s, i, j, acc) == acc + Texts(s, RowPairs(accept, s, i, j))
    decreases |s| + 1 - j
  {
    if |s| < j {
      assert acc + [] == acc;
    } else {
      var kept := if accept(s[i..j]) then [s[i..j]] else [];
      RowScanTexts(accept, s, i, j + 1, acc + kept);
      RowTextsStep(accept, s, i, j);
      Assoc(acc, kept, Texts(s, RowPairs(accept, s, i, j + 1)));
    }
  }

  /** One step of the inner loop: the text of `(i, j)` when it is accepted,
      then the texts of the rest of the row. */
  lemma RowTextsStep(accept: string -> bool, s: string, i: nat, j: nat)
    requires i < j <= |s|
    ensures Texts(s, RowPairs(accept, s, i, j))
         == (if accept(s[i..j]) then [s[i..j]] else []) + Texts(s, RowPairs(accept, s, i, j + 1))
  {
    var head := if accept(s[i..j]) then [(i, j)] else [];
    TextsAppend(s, head, RowPairs(accept, s, i, j + 1));
    if head != [] {
      PySliceMeaning(s, i, j);
      assert Texts(s, head) == [s[i..j]] + Texts(s, head[1..]);
      assert head[1..] == [];
    }
  }

  /** One step of the inner loop of `search`: an accepted `s[i:j]` is a pair
      of the row, and a rejected one leaves the rest of the row as it was. */
  lemma RowStep(accept: string -> bool, s: string, i: nat, j: nat)
    requires i < j <= |s|
    ensures accept(s[i..j]) ==> RowPairs(accept, s, i, j) != []
    ensures !accept(s[i..j]) ==> RowPairs(accept, s, i, j) == RowPairs(accept, s, i, j + 1)
  {
    if !accept(s[i..j]) {
      assert [] + RowPairs(accept, s, i, j + 1) == RowPairs(accept, s, i, j + 1);
    }
  }

  /** One step of the inner loop of `findall`: an accepted `s[i:j]` is
      appended, a rejected one is not. */
  lemma RowScanStep(accept: string -> bool, s: string, i: nat, j: nat, acc: seq<string>)
    requires i < j <= |s|
    ensures accept(s[i..j]) ==> RowScan(accept, s, i, j, acc) == RowScan(accept, s, i, j + 1, acc + [s[i..j]])
    ensures !accept(s[i..j]) ==> RowScan(accept, s, i, j, acc) == RowScan(accept, s, i, j + 1, acc)
  {
    assert acc + [] == acc;
  }

  /** Entering the inner loop of `findall` at start `i`. */
  lemma HitAdvance(accept: string -> bool, s: string, i: nat, acc: seq<string>, target: seq<string>)
    requires i < |s|
    requires acc + Texts(s, HitPairs(accept, s, i)) == target
    ensures acc + Texts(s, RowPairs(accept, s, i, i + 1)) + Texts(s, HitPairs(accept, s, i + 1)) == target
  {
    TextsAppend(s, RowPairs(accept, s, i, i + 1), HitPairs(accept, s, i + 1));
  }

  /** The strings `match` accepts with `pattern`, when it compiles. */
  ghost function Accepted(pattern: string, alphabet: seq<string>): string -> bool
  {
    Language(if Compile(pattern, alphabet).Ok? then Compile(pattern, alphabet).value.states else [])
  }

  /** `RowStep` for the answer `b` of `match` on `s[i:j]`. */
  lemma MatchRowStep(pattern: string, s: string, i: nat, j: nat, alphabet: seq<string>, b: bool)
    requires i < j <= |s| && MatchSpec(pattern, s[i..j], alphabet) == Ok(b)
    ensures var accept := Accepted(pattern, alphabet);
      (b ==> RowPairs(accept, s, i, j) != []) &&
      (!b ==> RowPairs(accept, s, i, j) == RowPairs(accept, s, i, j + 1))
  {
    MatchIsWalk(pattern, s[i..j], alphabet);
    RowStep(Accepted(pattern, alphabet), s, i, j);
  }

  /** `RowScanStep` for the answer `b` of `match` on `s[i:j]`. */
  lemma MatchRowScanStep(pattern: string, s: string, i: nat, j: nat, alphabet: seq<string>, b: bool, acc: seq<string>)
    requires i < j <= |s| && MatchSpec(pattern, s[i..j], alphabet) == Ok(b)
    ensures var accept := Accepted(pattern, alphabet);
      RowScan(accept, s, i, j, acc) == RowScan(accept, s, i, j + 1, if b then acc + [s[i..j]] else acc)
  {
    MatchIsWalk(pattern, s[i..j], alphabet);
    RowScanStep(Accepted(pattern, alphabet), s, i, j, acc);
  }

  /** `match` on a compiled pattern is the walk of its DFA. */
  lemma MatchIsWalk(pattern: string, x: string, alphabet: seq<string>)
    requires Compile(pattern, alphabet).Ok?
    ensures MatchSpec(pattern, x, alphabet) == Ok(Language(Compile(pattern, alphabet).value.states)(x))
  {
  }

  /** The inner loop of `findall` at start `i`: the substrings `s[i:j]`,
      `j > i`, that `match` accepts. */
  method RowMatches(pattern: string, s: string, i: nat, alphabet: seq<string>) returns (r: Result<seq<string>>)
    requires i < |s|
    ensures Compile(pattern, alphabet).Err? ==> r == Err
    ensures Compile(pattern, alphabet).Ok? ==>
      r == Ok(Texts(s, RowPairs(Language(Compile(pattern, alphabet).value.states), s, i, i + 1)))
  {
    ghost var spec := Compile(pattern, alphabet);
    ghost var accept := Accepted(pattern, alphabet);
    var matches: seq<string> := [];
    for j := i + 1 to |s| + 1
      invariant spec.Err? ==> j == i + 1
      invariant RowScan(accept, s, i, j, matches) == RowScan(accept, s, i, i + 1, [])
    {
      var m := Match(pattern, s[i..j], alphabet);
      if m.Err? {
        return Err;
      }
      MatchRowScanStep(pattern, s, i, j, alphabet, m.value, matches);
      if m.value {
        matches := matches + [s[i..j]];
      }
    }
    RowScanTexts(accept, s, i, i + 1, []);
    assert [] + Texts(s, RowPairs(accept, s, i, i + 1)) == Texts(s, RowPairs(accept, s, i, i + 1));
    return Ok(matches);
  }

  /** `findall`: `match` on every substring `s[i:j]`, `j > i`, keeping those
      it accepts; the first failing `match` ends the search with its error. */
  method FindAll(pattern: string, s: string, alphabet: seq<string>) returns (r: Result<seq<string>>)
    ensures r == FindAllSpec(pattern, s, alphabet)
  {
    ghost var spec := Compile(pattern, alphabet);
    ghost var accept := Language(if spec.Ok? then spec.value.states else []);
    ghost var target := Texts(s, HitPairs(accept, s, 0));
    var matches: seq<string> := [];
    for i := 0 to |s|
      invariant spec.Err? ==> i == 0 && matches == []
      invariant spec.Ok? ==> matches + Texts(s, HitPairs(accept, s, i)) == target
    {
      var row := RowMatches(pattern, s, i, alphabet);
      if row.Err? {
        return Err;
      }
      HitAdvance(accept, s, i, matches, target);
      matches := matches + row.value;
    }
    if spec.Ok? {
      assert HitPairs(accept, s, |s|) == [];
      assert matches + Texts(s, []) == matches;
    }
    return Ok(matches);
  }

  /** The inner loop of `search` at start `i`: does `match` accept some `s[i:j]`? */
  method RowHit(pattern: string, s: string, i: nat, alphabet: seq<string>) returns (r: Result<bool>)
    requires i < |s|
    ensures Compile(pattern, alphabet).Err? ==> r == Err
    ensures Compile(pattern, alphabet).Ok? ==>
      r == Ok(RowPairs(Language(Compile(pattern, alphabet).value.states), s, i, i + 1) != [])
  {
    ghost var spec := Compile(pattern, alphabet);
    ghost var accept := Accepted(pattern, alphabet);
    for j := i + 1 to |s| + 1
      invariant spec.Err? ==> j == i + 1
      invariant RowPairs(accept, s, i, j) == RowPairs(accept, s, i, i + 1)
    {
      var m := Match(pattern, s[i..j], alphabet);
      if m.Err? {
        return Err;
      }
      MatchRowStep(pattern, s, i, j, alphabet, m.value);
      if m.value {
        return Ok(true);
      }
    }
    return Ok(false);
  }

  /** `search`: the start of the first substring `match` accepts, in the order
      `findall` visits them. */
  method Search(pattern: string, s: string, alphabet: seq<string>) returns (r: Result<int>)
    ensures r == SearchSpec(pattern, s, alphabet)
  {
    ghost var spec := Compile(pattern, alphabet);
    ghost var accept := Language(if spec.Ok? then spec.value.states else []);
    for i := 0 to |s|
      invariant spec.Err? ==> i == 0
      invariant spec.Ok? ==> HitPairs(accept, s, i) == HitPairs(accept, s, 0)
    {
      var hit := RowHit(pattern, s, i, alphabet);
      if hit.Err? {
        return Err;
      }
      if spec.Ok? {
        assert HitPairs(accept, s, i) == RowPairs(accept, s, i, i + 1) + HitPairs(accept, s, i + 1);
        RowPairsSound(accept, s, i, i + 1);
        if hit.value {
          assert RowPairs(accept, s, i, i + 1)[0].0 == i;
        }
      }
      if hit.value {
        return Ok(i);
      }
    }
    if spec.Ok? {
      assert HitPairs(accept, s, |s|) == [];
    }
    return Ok(-1);
  }

  // ---------------------------------------------------------------------------
  // split and sub (regex_engine.py:108-128), with the two string builtins they use

  /** `sub` occurs in `s` at position `m`, compared character by character. */
  predicate OccursAt(s: string, sub: string, m: nat)
    decreases |sub|
  {
    m + |sub| <= |s| && (sub == [] || (s[m] == sub[0] && OccursAt(s, sub[1..], m + 1)))
  }

  /** The character-by-character comparison is the slice comparison. */
  lemma {:induction false} OccursAtSlice(s: string, sub: string, m: nat)
    ensures OccursAt(s, sub, m) <==> m + |sub| <= |s| && s[m..m + |sub|] == sub
    decreases |sub|
  {
    if m + |sub| <= |s| && sub != [] {
      OccursAtSlice(s, sub[1..], m + 1);
      assert s[m..m + |sub|] == [s[m]] + s[m + 1..m + 1 + |sub[1..]|];
      assert sub == [sub[0]] + sub[1..];
    }
  }

  /** The first occurrence of `sub` in `s` at or after `k`, or -1; after a
      mismatch the search goes on as `find` from `k + 1`. */
  function FindFrom(s: string, sub: string, k: nat): (r: int)
    requires k <= |s|
    ensures r == -1 || (k <= r && OccursAt(s, sub, r))
    decreases |s| - k, 0
  {
    if k + |sub| > |s| then -1
    else if OccursAt(s, sub, k) then k
    else PyFind(s, sub, k + 1)
  }

  /** `FindFrom` finds the first occurrence, and -1 only when there is none. */
  lemma {:induction false} FindFromFirst(s: string, sub: string, k: nat)
    requires k <= |s|
    ensures FindFrom(s, sub, k) == -1 ==> forall m: nat :: k <= m ==> !OccursAt(s, sub, m)
    ensures FindFrom(s, sub, k) != -1 ==> forall m: nat :: k <= m < FindFrom(s, sub, k) ==> !OccursAt(s, sub, m)
    decreases |s| - k
  {
    if k + |sub| <= |s| && !OccursAt(s, sub, k) {
      assert FindFrom(s, sub, k) == FindFrom(s, sub, k + 1);
      FindFromFirst(s, sub, k + 1);
    }
  }

  /** Python's `s.find(sub, start)`: a start past the end finds nothing. */
  function PyFind(s: string, sub: string, start: int): (r: int)
    ensures r == -1 || Clamp(start, |s|) <= r <= |s| - |sub|
    decreases |s| - Clamp(start, |s|), 1
  {
    if start > |s| then -1 else FindFrom(s, sub, Clamp(start, |s|))
  }

  /** `find` returns the first occurrence at or after the (normalised) start,
      and -1 only when there is none. */
  lemma PyFindFirst(s: string, sub: string, start: int)
    ensures PyFind(s, sub, start) != -1 ==> OccursAt(s, sub, PyFind(s, sub, start))
    ensures PyFind(s, sub, start) != -1 ==>
      forall m: nat :: Clamp(start, |s|) <= m < PyFind(s, sub, start) ==> !OccursAt(s, sub, m)
    ensures PyFind(s, sub, start) == -1 && start <= |s| ==>
      forall m: nat :: Clamp(start, |s|) <= m ==> !OccursAt(s, sub, m)
  {
    if start <= |s| {
      FindFromFirst(s, sub, Clamp(start, |s|));
    }
  }

  /** A substring search with the signature of `str.find`; `split` and `sub`
      use `PyFind`, and the shape of their loops does not depend on which. */
  type Finder = (string, string, int) -> int

  /** The pieces `split` cuts out: the text before each match, found again
      with `find` from the end of the previous one, then the rest. */
  function SplitFrom(find: Finder, s: string, ms: seq<string>, lastEnd: int): (r: seq<string>)
    ensures |r| == |ms| + 1
  {
    if ms == [] then [PySlice(s, lastEnd, |s|)]
    else
      var start := find(s, ms[0], lastEnd);
      [PySlice(s, lastEnd, start)] + SplitFrom(find, s, ms[1..], start + |ms[0]|)
  }

  /** The text `sub` builds: each piece followed by the replacement. */
  function SubFrom(find: Finder, s: string, ms: seq<string>, repl: string, lastEnd: int): string
  {
    if ms == [] then PySlice(s, lastEnd, |s|)
    else
      var start := find(s, ms[0], lastEnd);
      PySlice(s, lastEnd, start) + repl + SubFrom(find, s, ms[1..], repl, start + |ms[0]|)
  }

  /** `sep.join(parts)`. */
  function Join(parts: seq<string>, sep: string): string
    requires parts != []
  {
    if |parts| == 1 then parts[0] else parts[0] + sep + Join(parts[1..], sep)
  }

  /** `pieces[0] + ms[0] + pieces[1] + ... + pieces[n]`. */
  function Interleave(pieces: seq<string>, ms: seq<string>): string
    requires |pieces| == |ms| + 1
  {
    if ms == [] then pieces[0] else pieces[0] + ms[0] + Interleave(pieces[1..], ms[1..])
  }

  /** `find` finds each match again from the end of the previous one. */
  predicate FindsEach(s: string, ms: seq<string>, lastEnd: int)
  {
    ms == [] ||
    var start := PyFind(s, ms[0], lastEnd);
    start != -1 && FindsEach(s, ms[1..], start + |ms[0]|)
  }

  /** Each match is where `find` reports it, at or after the end of the
      previous one. */
  predicate FoundInOrder(find: Finder, s: string, ms: seq<string>, lastEnd: int)
  {
    ms == [] ||
    var start := find(s, ms[0], lastEnd);
    0 <= lastEnd <= start && start + |ms[0]| <= |s| && s[start..start + |ms[0]|] == ms[0] &&
    FoundInOrder(find, s, ms[1..], start + |ms[0]|)
  }

  /** When `find` finds each match, it finds each where it occurs, in order. */
  lemma {:induction false} FindsEachInOrder(s: string, ms: seq<string>, lastEnd: int)
    requires 0 <= lastEnd <= |s| && FindsEach(s, ms, lastEnd)
    ensures FoundInOrder(PyFind, s, ms, lastEnd)
    decreases |ms|
  {
    if ms != [] {
      PyFindFound(s, ms[0], lastEnd);
      FindsEachInOrder(s, ms[1..], PyFind(s, ms[0], lastEnd) + |ms[0]|);
    }
  }

  /** A start within the string from which `find` succeeds gives a position
      at or after it where `sub` occurs. */
  lemma PyFindFound(s: string, sub: string, start: int)
    requires 0 <= start <= |s| && PyFind(s, sub, start) != -1
    ensures start <= PyFind(s, sub, start) && PyFind(s, sub, start) + |sub| <= |s|
    ensures s[PyFind(s, sub, start)..PyFind(s, sub, start) + |sub|] == sub
  {
    PyFindFirst(s, sub, start);
    OccursAtSlice(s, sub, PyFind(s, sub, start));
  }

  ghost function SplitSpec(pattern: string, s: string, alphabet: seq<string>): Result<seq<string>>
  {
    var ms :- FindAllSpec(pattern, s, alphabet);
    Ok(SplitFrom(PyFind, s, ms, 0))
  }

  ghost function SubSpec(pattern: string, repl: string, s: string, alphabet: seq<string>): Result<string>
  {
    var ms :- FindAllSpec(pattern, s, alphabet);
    Ok(SubFrom(PyFind, s, ms, repl, 0))
  }

  /** `sub` is `split` joined with the replacement. */
  lemma {:induction false} SubIsJoinedSplit(find: Finder, s: string, ms: seq<string>, repl: string, lastEnd: int)
    ensures SubFrom(find, s, ms, repl, lastEnd) == Join(SplitFrom(find, s, ms, lastEnd), repl)
    decreases |ms|
  {
    if ms != [] {
      var start := find(s, ms[0], lastEnd);
      var piece := PySlice(s, lastEnd, start);
      var rest := SplitFrom(find, s, ms[1..], start + |ms[0]|);
      SubIsJoinedSplit(find, s, ms[1..], repl, start + |ms[0]|);
      assert SubFrom(find, s, ms, repl, lastEnd) == piece + repl + SubFrom(find, s, ms[1..], repl, start + |ms[0]|);
      assert SplitFrom(find, s, ms, lastEnd) == [piece] + rest;
      JoinCons(piece, rest, repl);
    }
  }

  lemma JoinCons(piece: string, rest: seq<string>, sep: string)
    requires rest != []
    ensures Join([piece] + rest, sep) == piece + sep + Join(rest, sep)
  {
    assert ([piece] + rest)[0] == piece && ([piece] + rest)[1..] == rest;
  }

  /** When every match is found again in order, the pieces `split` returns put
      back together with the matches give the string from `lastEnd` on. */
  lemma {:induction false} SplitRebuilds(find: Finder, s: string, ms: seq<string>, lastEnd: int)
    requires 0 <= lastEnd <= |s| && FoundInOrder(find, s, ms, lastEnd)
    ensures Interleave(SplitFrom(find, s, ms, lastEnd), ms) == s[lastEnd..]
    decreases |ms|
  {
    if ms != [] {
      var start := find(s, ms[0], lastEnd);
      var next := start + |ms[0]|;
      var piece := PySlice(s, lastEnd, start);
      var tail := SplitFrom(find, s, ms[1..], next);
      assert SplitFrom(find, s, ms, lastEnd) == [piece] + tail;
      InterleaveCons(piece, tail, ms);
      SplitRebuilds(find, s, ms[1..], next);
      assert piece + ms[0] + s[next..] == s[lastEnd..] by {
        PySliceMeaning(s, lastEnd, start);
        SliceSplit(s, lastEnd, start, next);
      }
    }
  }

  lemma InterleaveCons(piece: string, tail: seq<string>, ms: seq<string>)
    requires ms != [] && |tail| == |ms|
    ensures Interleave([piece] + tail, ms) == piece + ms[0] + Interleave(tail, ms[1..])
  {
    assert ([piece] + tail)[0] == piece && ([piece] + tail)[1..] == tail;
  }

  lemma SliceSplit(s: string, a: nat, b: nat, c: nat)
    requires a <= b <= c <= |s|
    ensures s[a..] == s[a..b] + s[b..c] + s[c..]
  {
    assert s[a..] == s[a..b] + s[b..];
    assert s[b..] == s[b..c] + s[c..];
  }

  /** `sub` of a string whose matches `find` finds again in order is that
      string with each match replaced. */
  lemma SubReplaces(s: string, ms: seq<string>, repl: string)
    requires FindsEach(s, ms, 0)
    ensures Interleave(SplitFrom(PyFind, s, ms, 0), ms) == s
    ensures SubFrom(PyFind, s, ms, repl, 0) == Join(SplitFrom(PyFind, s, ms, 0), repl)
  {
    FindsEachInOrder(s, ms, 0);
    SplitRebuilds(PyFind, s, ms, 0);
    SubIsJoinedSplit(PyFind, s, ms, repl, 0);
  }

  /** The pieces `split` has collected so far (`acc`) followed by those still to come. */
  function SplitAcc(find: Finder, s: string, ms: seq<string>, lastEnd: int, acc: seq<string>): seq<string>
  {
    if ms == [] then acc + [PySlice(s, lastEnd, |s|)]
    else
      var start := find(s, ms[0], lastEnd);
      SplitAcc(find, s, ms[1..], start + |ms[0]|, acc + [PySlice(s, lastEnd, start)])
  }

  lemma {:induction false} SplitAccFrom(find: Finder, s: string, ms: seq<string>, lastEnd: int, acc: seq<string>)
    ensures SplitAcc(find, s, ms, lastEnd, acc) == acc + SplitFrom(find, s, ms, lastEnd)
    decreases |ms|
  {
    if ms != [] {
      var start := find(s, ms[0], lastEnd);
      var piece := PySlice(s, lastEnd, start);
      var tail := SplitFrom(find, s, ms[1..], start + |ms[0]|);
      SplitAccFrom(find, s, ms[1..], start + |ms[0]|, acc + [piece]);
      Assoc(acc, [piece], tail);
    }
  }

  /** The loop of `split` over the matches `findall` returned. */
  method SplitPieces(s: string, matches: seq<string>) returns (parts: seq<string>)
    ensures parts == SplitFrom(PyFind, s, matches, 0)
  {
    parts := [];
    var lastEnd: int := 0;
    var rest := matches;
    while rest != []
      invariant SplitAcc(PyFind, s, rest, lastEnd, parts) == SplitAcc(PyFind, s, matches, 0, [])
      decreases |rest|
    {
      var start := PyFind(s, rest[0], lastEnd);
      parts := parts + [PySlice(s, lastEnd, start)];
      lastEnd := start + |rest[0]|;
      rest := rest[1..];
    }
    parts := parts + [PySlice(s, lastEnd, |s|)];
    SplitAccFrom(PyFind, s, matches, 0, []);
  }

  /** The loop of `sub` over the matches `findall` returned. */
  method Replace(s: string, matches: seq<string>, repl: string) returns (result: string)
    ensures result == SubFrom(PyFind, s, matches, repl, 0)
  {
    result := "";
    var lastEnd: int := 0;
    var rest := matches;
    ghost var target := SubFrom(PyFind, s, matches, repl, 0);
    assert "" + target == target;
    ReachesSubFrom(PyFind, s, matches, repl, 0, "", target);
    while rest != []
      invariant Reaches(PyFind, s, rest, repl, lastEnd, result, target)
      decreases |rest|
    {
      var start := PyFind(s, rest[0], lastEnd);
      result := result + (PySlice(s, lastEnd, start) + repl);
      lastEnd := start + |rest[0]|;
      rest := rest[1..];
    }
    result := result + PySlice(s, lastEnd, |s|);
  }

  /** Running the rest of the loop of `sub` from the matches `rest`, the end
      `lastEnd` of the previous one and the text `built` so far ends with
      `target`. */
  predicate Reaches(find: Finder, s: string, rest: seq<string>, repl: string, lastEnd: int, built: string, target: string)
    decreases |rest|
  {
    if rest == [] then built + PySlice(s, lastEnd, |s|) == target
    else
      var start := find(s, rest[0], lastEnd);
      Reaches(find, s, rest[1..], repl, start + |rest[0]|, built + (PySlice(s, lastEnd, start) + repl), target)
  }

  /** From any state whose text built so far followed by what `SubFrom` still
      builds is `target`, the rest of the loop ends with `target`. */
  lemma {:induction false} ReachesSubFrom(find: Finder, s: string, ms: seq<string>, repl: string, lastEnd: int, built: string, target: string)
    requires built + SubFrom(find, s, ms, repl, lastEnd) == target
    ensures Reaches(find, s, ms, repl, lastEnd, built, target)
    decreases |ms|
  {
    if ms != [] {
      var start := find(s, ms[0], lastEnd);
      var piece := PySlice(s, lastEnd, start) + repl;
      Assoc(built, piece, SubFrom(find, s, ms[1..], repl, start + |ms[0]|));
      ReachesSubFrom(find, s, ms[1..], repl, start + |ms[0]|, built + piece, target);
    }
  }

  /** `split` and `sub` fail exactly when `findall` does; `split` returns one
      piece more than there are matches, and `sub` is those pieces joined
      with the replacement. */
  lemma SplitSubMeaning(pattern: string, repl: string, s: string, alphabet: seq<string>)
    ensures SplitSpec(pattern, s, alphabet).Err? <==> FindAllSpec(pattern, s, alphabet).Err?
    ensures SubSpec(pattern, repl, s, alphabet).Err? <==> FindAllSpec(pattern, s, alphabet).Err?
    ensures SplitSpec(pattern, s, alphabet).Ok? ==>
      |SplitSpec(pattern, s, alphabet).value| == |FindAllSpec(pattern, s, alphabet).value| + 1 &&
      SubSpec(pattern, repl, s, alphabet).value == Join(SplitSpec(pattern, s, alphabet).value, repl)
  {
    if FindAllSpec(pattern, s, alphabet).Ok? {
      SubIsJoinedSplit(PyFind, s, FindAllSpec(pattern, s, alphabet).value, repl, 0);
    }
  }

  /** `split`: the pieces of the string between the matches `findall` lists. */
  method Split(pattern: string, s: string, alphabet: seq<string>) returns (r: Result<seq<string>>)
    ensures r == SplitSpec(pattern, s, alphabet)
  {
    var found := FindAll(pattern, s, alphabet);
    if found.Err? {
      return Err;
    }
    var parts := SplitPieces(s, found.value);
    return Ok(parts);
  }

  /** `sub`: the string with every match `findall` lists replaced by `repl`. */
  method Sub(pattern: string, repl: string, s: string, alphabet: seq<string>) returns (r: Result<string>)
    ensures r == SubSpec(pattern, repl, s, alphabet)
  {
    var found := FindAll(pattern, s, alphabet);
    if found.Err? {
      return Err;
    }
    var result := Replace(s, found.value, repl);
    return Ok(result);
  }
}
