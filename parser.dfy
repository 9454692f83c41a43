/** The infix-to-postfix scanner of `parse_regex` and its precedence table.

    `Step`, `ScanFrom` and `Parse` are the specification: one left-to-right pass
    over the pattern, a state made of the output list, the operator stack and
    the two flags. `ParseRegex` is the imperative scan, proved equal to `Parse`. */
module Parser {
  import opened Results

  /** The characters `parse_regex` routes to its operator branch. */
  const Operators: set<char> := {'|', '*', '+', '?', '(', ')', '[', ']', '^', '$'}

  /** The characters that may sit on the operator stack. `[`, `]` and `)` are
      never pushed (see `ScanKeepsStackShape`). */
  const Stackable: set<char> := {'(', '|', '*', '+', '?', '^', '$'}

  /** Operators that are pushed after popping everything that binds at least
      as tightly. */
  const Infix: set<char> := {'|', '*', '+', '?', '^', '$'}

  /** Ranking of operators; anything unranked is 0. */
  function Precedence(op: char): (r: nat)
    ensures r <= 8
    ensures r == 0 <==> op !in {'|', '+', '?', '*', '^', '$', '.', '(', '['}
    ensures r == 8 <==> op == '(' || op == '['
  {
    match op
    case '|' => 1
    case '+' => 2
    case '?' => 3
    case '*' => 4
    case '^' => 5
    case '$' => 6
    case '.' => 7
    case '(' => 8
    case '[' => 8
    case _ => 0
  }

  /** The table orders the operators strictly, with the grouping delimiters on top. */
  lemma PrecedenceChain()
    ensures 0 < Precedence('|') < Precedence('+') < Precedence('?') < Precedence('*')
    ensures Precedence('*') < Precedence('^') < Precedence('$') < Precedence('.')
    ensures Precedence('.') < Precedence('(') == Precedence('[')
  {
  }

  /** The scanner's variables between two characters. */
  datatype Scan = Scan(output: seq<char>, stack: seq<char>, escaped: bool, charSet: bool)

  const Initial: Scan := Scan([], [], false, false)

  function Last(s: seq<char>): char
    requires s != []
  {
    s[|s| - 1]
  }

  function Reversed(s: seq<char>): (r: seq<char>)
    ensures |r| == |s|
  {
    if s == [] then [] else [Last(s)] + Reversed(s[..|s| - 1])
  }

  /** The loop at parser.py:35-36: move stack tops of precedence at least `p`
      to the output, one at a time. */
  function PopAtLeast(output: seq<char>, stack: seq<char>, p: nat): (seq<char>, seq<char>)
    decreases |stack|
  {
    if stack != [] && Precedence(Last(stack)) >= p then
      PopAtLeast(output + [Last(stack)], stack[..|stack| - 1], p)
    else
      (output, stack)
  }

  /** The loop at parser.py:27-28: move stack tops to the output until `(` is on top. */
  function PopToOpen(output: seq<char>, stack: seq<char>): (seq<char>, seq<char>)
    decreases |stack|
  {
    if stack != [] && Last(stack) != '(' then
      PopToOpen(output + [Last(stack)], stack[..|stack| - 1])
    else
      (output, stack)
  }

  /** One iteration of the `for` loop of `parse_regex`. The operator branches
      for `[` and `]` (parser.py:24,30-33) are not written: those characters
      are taken by the branches at parser.py:15-20 first. `Err` is the
      `IndexError` of popping an empty stack at parser.py:29. */
  function Step(st: Scan, c: char): Result<Scan>
  {
    if st.escaped then Ok(st.(output := st.output + [c], escaped := false))
    else if c == '\\' then Ok(st.(escaped := true))
    else if c == '[' then Ok(st.(output := st.output + [c], charSet := true))
    else if c == ']' then Ok(st.(output := st.output + [c], charSet := false))
    else if st.charSet then Ok(st.(output := st.output + [c]))
    else if c in Operators then
      if c == '(' then Ok(st.(stack := st.stack + [c]))
      else if c == ')' then
        var (out, stk) := PopToOpen(st.output, st.stack);
        if stk == [] then Err else Ok(st.(output := out, stack := stk[..|stk| - 1]))
      else
        var (out, stk) := PopAtLeast(st.output, st.stack, Precedence(c));
        Ok(st.(output := out, stack := stk + [c]))
    else Ok(st.(output := st.output + [c]))
  }

  /** The `for` loop over the rest `p` of the pattern, from state `st`. */
  function ScanFrom(st: Scan, p: string): Result<Scan>
    decreases |p|
  {
    if p == [] then Ok(st)
    else
      match Step(st, p[0])
      case Err => Err
      case Ok(next) => ScanFrom(next, p[1..])
  }

  /** `parse_regex`: the scan, then the operator stack drained top first. */
  function Parse(pattern: string): Result<seq<char>>
  {
    match ScanFrom(Initial, pattern)
    case Err => Err
    case Ok(st) => Ok(st.output + Reversed(st.stack))
  }

  /** The imperative scan of parser.py:2-44. */
  method ParseRegex(pattern: string) returns (r: Result<seq<char>>)
    ensures r == Parse(pattern)
  {
    var output: seq<char> := [];
    var stack: seq<char> := [];
    var escaped := false;
    var charSet := false;
    for i := 0 to |pattern|
      invariant ScanFrom(Initial, pattern) == ScanFrom(Scan(output, stack, escaped, charSet), pattern[i..])
    {
      ghost var before := Scan(output, stack, escaped, charSet);
      assert pattern[i..][1..] == pattern[i + 1..];
      var c := pattern[i];
      if escaped {
        output := output + [c];
        escaped := false;
      } else if c == '\\' {
        escaped := true;
      } else if c == '[' {
        charSet := true;
        output := output + [c];
      } else if c == ']' {
        charSet := false;
        output := output + [c];
      } else if charSet {
        output := output + [c];
      } else if c in Operators {
        if c == '(' {
          stack := stack + [c];
        } else if c == ')' {
          while stack != [] && stack[|stack| - 1] != '('
            invariant PopToOpen(output, stack) == PopToOpen(before.output, before.stack)
            decreases |stack|
          {
            output := output + [stack[|stack| - 1]];
            stack := stack[..|stack| - 1];
          }
          if stack == [] {
            return Err;
          }
          stack := stack[..|stack| - 1];
        } else {
          while stack != [] && Precedence(stack[|stack| - 1]) >= Precedence(c)
            invariant PopAtLeast(output, stack, Precedence(c)) == PopAtLeast(before.output, before.stack, Precedence(c))
            decreases |stack|
          {
            output := output + [stack[|stack| - 1]];
            stack := stack[..|stack| - 1];
          }
          stack := stack + [c];
        }
      } else {
        output := output + [c];
      }
      assert Step(before, c) == Ok(Scan(output, stack, escaped, charSet));
    }
    assert pattern[|pattern|..] == [];
    ghost var drained := output + Reversed(stack);
    while stack != []
      invariant output + Reversed(stack) == drained
      decreases |stack|
    {
      output := output + [stack[|stack| - 1]];
      stack := stack[..|stack| - 1];
    }
    assert output + Reversed(stack) == output;
    return Ok(output);
  }

  // ---------------------------------------------------------------------------
  // Properties of the scan

  /** Running the scan over `p + q` is running it over `p`, then over `q`. */
  lemma {:induction false} ScanAppend(st: Scan, p: string, q: string)
    ensures ScanFrom(st, p + q) ==
      match ScanFrom(st, p)
      case Err => Err
      case Ok(mid) => ScanFrom(mid, q)
    decreases |p|
  {
    if p == [] {
      assert p + q == q;
    } else {
      assert (p + q)[0] == p[0];
      assert (p + q)[1..] == p[1..] + q;
      match Step(st, p[0])
      case Err =>
      case Ok(next) => ScanAppend(next, p[1..], q);
    }
  }

  /** After a backslash, the next character is emitted as one token, whatever it
      is, and the backslash itself is dropped. */
  lemma EscapeEmitsVerbatim(st: Scan, c: char, rest: string)
    requires !st.escaped
    ensures ScanFrom(st, ['\\', c] + rest) == ScanFrom(st.(output := st.output + [c]), rest)
  {
    var p := ['\\', c] + rest;
    assert p[0] == '\\' && p[1..][0] == c && p[1..][1..] == rest;
  }

  /** A pattern with no operator and no backslash is emitted unchanged, one
      token per character, with no concatenation token between them. */
  lemma {:induction false} LiteralsPassThrough(st: Scan, p: string)
    requires !st.escaped && !st.charSet
    requires forall k :: 0 <= k < |p| ==> p[k] !in Operators && p[k] != '\\'
    ensures ScanFrom(st, p) == Ok(st.(output := st.output + p))
    decreases |p|
  {
    if p != [] {
      var next := st.(output := st.output + [p[0]]);
      assert Step(st, p[0]) == Ok(next);
      LiteralsPassThrough(next, p[1..]);
      assert st.output + [p[0]] + p[1..] == st.output + p;
    } else {
      assert st.output + p == st.output;
    }
  }

  lemma ParseLiterals(p: string)
    requires forall k :: 0 <= k < |p| ==> p[k] !in Operators && p[k] != '\\'
    ensures Parse(p) == Ok(p)
  {
    LiteralsPassThrough(Initial, p);
    assert [] + p == p + Reversed([]) == p;
  }

  /** Inside a bracket, every character other than `\` and `]` (operators
      included) is emitted in place and the stack is not touched. */
  lemma {:induction false} InsideBracketVerbatim(st: Scan, body: string)
    requires !st.escaped && st.charSet
    requires forall k :: 0 <= k < |body| ==> body[k] != '\\' && body[k] != ']'
    ensures ScanFrom(st, body) == Ok(st.(output := st.output + body))
    decreases |body|
  {
    if body != [] {
      var next := st.(output := st.output + [body[0]]);
      assert Step(st, body[0]) == Ok(next);
      InsideBracketVerbatim(next, body[1..]);
      assert st.output + [body[0]] + body[1..] == st.output + body;
    } else {
      assert st.output + body == st.output;
    }
  }

  /** A whole bracket expression `[body]` is emitted as its own characters, in
      order, `[` and `]` included; the operator stack is left as it was. */
  lemma BracketVerbatim(st: Scan, body: string, rest: string)
    requires !st.escaped
    requires forall k :: 0 <= k < |body| ==> body[k] != '\\' && body[k] != ']'
    ensures ScanFrom(st, "[" + body + "]" + rest)
         == ScanFrom(st.(output := st.output + "[" + body + "]", charSet := false), rest)
  {
    var inside := st.(output := st.output + "[", charSet := true);
    assert Step(st, '[') == Ok(inside);
    assert ScanFrom(st, "[") == Ok(inside) by {
      assert "["[1..] == [];
    }
    InsideBracketVerbatim(inside, body);
    var filled := inside.(output := inside.output + body);
    var closed := st.(output := st.output + "[" + body + "]", charSet := false);
    assert Step(filled, ']') == Ok(closed);
    assert ScanFrom(filled, "]") == Ok(closed) by {
      assert "]"[1..] == [];
    }
    ScanAppend(st, "[", body);
    ScanAppend(st, "[" + body, "]");
    ScanAppend(st, "[" + body + "]", rest);
  }

  /** Popping the top of `stack` onto `output` and then the entries of the
      rest above `n` emits the same text as popping `stack`'s entries above `n`. */
  lemma PopOneMore(output: seq<char>, stack: seq<char>, n: nat)
    requires n < |stack|
    ensures stack[..|stack| - 1][..n] == stack[..n]
    ensures output + [Last(stack)] + Reversed(stack[..|stack| - 1][n..]) == output + Reversed(stack[n..])
  {
    var init := stack[..|stack| - 1];
    assert stack[n..] == init[n..] + [Last(stack)];
    assert stack[n..][..|stack[n..]| - 1] == init[n..];
    assert Reversed(stack[n..]) == [Last(stack)] + Reversed(init[n..]);
  }

  /** The pop loop at parser.py:35-36 removes a suffix of the stack, each
      popped entry of precedence at least `p`, and emits it top first; it stops
      at an entry of lower precedence or at the bottom. */
  lemma {:induction false} PopAtLeastSplits(output: seq<char>, stack: seq<char>, p: nat) returns (n: nat)
    ensures n <= |stack|
    ensures PopAtLeast(output, stack, p) == (output + Reversed(stack[n..]), stack[..n])
    ensures forall k :: n <= k < |stack| ==> Precedence(stack[k]) >= p
    ensures n > 0 ==> Precedence(stack[n - 1]) < p
    decreases |stack|
  {
    if stack != [] && Precedence(Last(stack)) >= p {
      var init := stack[..|stack| - 1];
      n := PopAtLeastSplits(output + [Last(stack)], init, p);
      PopOneMore(output, stack, n);
    } else {
      n := |stack|;
      assert stack[n..] == [] && stack[..n] == stack;
      assert output + Reversed(stack[n..]) == output;
    }
  }

  /** The pop loop at parser.py:27-28 removes the entries above the topmost
      `(` (or all of them when there is none) and emits them top first. */
  lemma {:induction false} PopToOpenSplits(output: seq<char>, stack: seq<char>) returns (n: nat)
    ensures n <= |stack|
    ensures PopToOpen(output, stack) == (output + Reversed(stack[n..]), stack[..n])
    ensures forall k :: n <= k < |stack| ==> stack[k] != '('
    ensures n > 0 ==> stack[n - 1] == '('
    decreases |stack|
  {
    if stack != [] && Last(stack) != '(' {
      var init := stack[..|stack| - 1];
      n := PopToOpenSplits(output + [Last(stack)], init);
      PopOneMore(output, stack, n);
    } else {
      n := |stack|;
      assert stack[n..] == [] && stack[..n] == stack;
      assert output + Reversed(stack[n..]) == output;
    }
  }

  /** Pushing `|`, `*`, `+`, `?`, `^` or `$` first pops to the output, top
      first, every stack top whose precedence is at least its own; afterwards
      the entry beneath it, if any, has strictly lower precedence. */
  lemma PushInfix(st: Scan, c: char) returns (n: nat)
    requires !st.escaped && !st.charSet && c in Infix
    ensures n <= |st.stack|
    ensures Step(st, c) == Ok(st.(output := st.output + Reversed(st.stack[n..]), stack := st.stack[..n] + [c]))
    ensures forall k :: n <= k < |st.stack| ==> Precedence(st.stack[k]) >= Precedence(c)
    ensures n > 0 ==> Precedence(st.stack[n - 1]) < Precedence(c)
  {
    n := PopAtLeastSplits(st.output, st.stack, Precedence(c));
  }

  /** `)` pops operators to the output until `(` is on top and discards that
      `(`; the scan fails when no `(` is left on the stack. */
  lemma CloseGroup(st: Scan) returns (n: nat)
    requires !st.escaped && !st.charSet
    ensures Step(st, ')').Err? <==> '(' !in st.stack
    ensures Step(st, ')').Ok? ==>
      0 < n <= |st.stack| && st.stack[n - 1] == '(' && '(' !in st.stack[n..] &&
      Step(st, ')').value == st.(output := st.output + Reversed(st.stack[n..]), stack := st.stack[..n - 1])
  {
    n := PopToOpenSplits(st.output, st.stack);
    if n == 0 {
      assert forall k :: 0 <= k < |st.stack| ==> st.stack[k] != '(';
    } else {
      assert st.stack[n - 1] == '(';
    }
  }

  /** Only `(` and the infix operators ever reach the stack: `[`, `]` and `)`
      never do, so the stack branches for them are unreachable. */
  ghost predicate StackShape(st: Scan)
  {
    forall k :: 0 <= k < |st.stack| ==> st.stack[k] in Stackable
  }

  lemma StepKeepsStackShape(st: Scan, c: char)
    requires StackShape(st) && Step(st, c).Ok?
    ensures StackShape(Step(st, c).value)
  {
    if !st.escaped && c != '\\' && c != '[' && c != ']' && !st.charSet && c in Operators && c != '(' {
      if c == ')' {
        var n := PopToOpenSplits(st.output, st.stack);
      } else {
        var n := PopAtLeastSplits(st.output, st.stack, Precedence(c));
      }
    }
  }

  lemma {:induction false} ScanKeepsStackShape(st: Scan, p: string)
    requires StackShape(st) && ScanFrom(st, p).Ok?
    ensures StackShape(ScanFrom(st, p).value)
    decreases |p|
  {
    if p != [] {
      StepKeepsStackShape(st, p[0]);
      ScanKeepsStackShape(Step(st, p[0]).value, p[1..]);
    }
  }

  /** The `)` characters of `p` that the scan copies to the output as they
      are, starting from the two flags: a `)` right after a backslash, and a
      `)` inside brackets. Every other `)` closes a group. */
  ghost function VerbatimCloses(escaped: bool, charSet: bool, p: string): nat
    decreases |p|
  {
    if p == [] then 0
    else
      var c := p[0];
      var here := if c == ')' && (escaped || charSet) then 1 else 0;
      if escaped then here + VerbatimCloses(false, charSet, p[1..])
      else if c == '\\' then VerbatimCloses(true, charSet, p[1..])
      else if c == '[' then VerbatimCloses(false, true, p[1..])
      else if c == ']' then VerbatimCloses(false, false, p[1..])
      else here + VerbatimCloses(false, charSet, p[1..])
  }

  /** One character adds a `)` to the output exactly when it is a `)` copied
      as it is; the flags move as `VerbatimCloses` moves them. */
  lemma StepCloses(st: Scan, c: char)
    requires StackShape(st) && Step(st, c).Ok?
    ensures var next := Step(st, c).value;
      StackShape(next) &&
      multiset(next.output)[')'] == multiset(st.output)[')'] + (if c == ')' && (st.escaped || st.charSet) then 1 else 0) &&
      next.escaped == (!st.escaped && c == '\\') &&
      next.charSet == (if st.escaped || c == '\\' then st.charSet else if c == '[' then true else if c == ']' then false else st.charSet)
  {
    StepKeepsStackShape(st, c);
    if st.escaped || (c != '\\' && (c == '[' || c == ']' || st.charSet || c !in Operators)) {
      StepCopies(st, c);
    } else if c == '\\' || c == '(' {
      assert Step(st, c).value.output == st.output;
    } else {
      var popped := StepPops(st, c);
    }
  }

  /** The characters `parse_regex` appends as they are. */
  lemma StepCopies(st: Scan, c: char)
    requires st.escaped || (c != '\\' && (c == '[' || c == ']' || st.charSet || c !in Operators))
    ensures Step(st, c).Ok? && Step(st, c).value.output == st.output + [c]
  {
  }

  /** `)` and the infix operators append only entries popped from the stack. */
  lemma StepPops(st: Scan, c: char) returns (popped: seq<char>)
    requires StackShape(st) && Step(st, c).Ok?
    requires !st.escaped && !st.charSet && c in Operators - {'\\', '[', ']', '('}
    ensures Step(st, c).value.output == st.output + popped && ')' !in popped
    ensures forall k :: 0 <= k < |popped| ==> popped[k] in Stackable
  {
    var n;
    if c == ')' {
      n := CloseGroup(st);
    } else {
      n := PushInfix(st, c);
    }
    ReversedHolds(st.stack[n..]);
    popped := Reversed(st.stack[n..]);
  }

  /** Over a whole scan, the `)` characters added to the output are exactly
      the ones copied as they are; every other `)` is consumed by the group
      it closes, or the scan fails. */
  lemma {:induction false} NoCloseInOutputFrom(st: Scan, p: string)
    requires StackShape(st) && ScanFrom(st, p).Ok?
    ensures var fin := ScanFrom(st, p).value;
      StackShape(fin) &&
      multiset(fin.output)[')'] == multiset(st.output)[')'] + VerbatimCloses(st.escaped, st.charSet, p)
    decreases |p|
  {
    if p != [] {
      StepCloses(st, p[0]);
      NoCloseInOutputFrom(Step(st, p[0]).value, p[1..]);
    }
  }

  /** Without backslashes and brackets no `)` is copied as it is. */
  lemma {:induction false} PlainVerbatimCloses(p: string)
    requires '\\' !in p && '[' !in p
    ensures VerbatimCloses(false, false, p) == 0
    decreases |p|
  {
    if p != [] {
      assert p[0] in p;
      assert forall k :: 0 <= k < |p[1..]| ==> p[1..][k] == p[k + 1];
      PlainVerbatimCloses(p[1..]);
    }
  }

  lemma {:induction false} ReversedHolds(s: seq<char>)
    requires forall k :: 0 <= k < |s| ==> s[k] in Stackable
    ensures forall k :: 0 <= k < |Reversed(s)| ==> Reversed(s)[k] in Stackable
    decreases |s|
  {
    if s != [] {
      ReversedHolds(s[..|s| - 1]);
    }
  }

  /** A `)` reaches the output of `parse_regex` only when it was escaped or
      inside brackets, once for each such `)`; in particular a pattern with
      neither backslashes nor brackets never outputs `)`. */
  lemma NoCloseInOutput(p: string)
    requires Parse(p).Ok?
    ensures multiset(Parse(p).value)[')'] == VerbatimCloses(false, false, p)
    ensures '\\' !in p && '[' !in p ==> ')' !in Parse(p).value
  {
    NoCloseInOutputFrom(Initial, p);
    var fin := ScanFrom(Initial, p).value;
    ReversedHolds(fin.stack);
    assert ')' !in Reversed(fin.stack);
    assert Parse(p).value == fin.output + Reversed(fin.stack);
    if '\\' !in p && '[' !in p {
      PlainVerbatimCloses(p);
    }
  }

  /** The characters of `s` that `parse_regex` does not treat as operators,
      in order. */
  function Literals(s: seq<char>): (r: seq<char>)
    ensures |r| <= |s|
  {
    if s == [] then [] else (if s[0] in Operators then [] else [s[0]]) + Literals(s[1..])
  }

  /** The characters of `p` as the scan sees them: each backslash that starts
      an escape is dropped, and the character after it is kept. `escaped`
      says whether an escape is pending before `p`. */
  function Unescaped(escaped: bool, p: string): (r: string)
    ensures |r| <= |p|
    decreases |p|
  {
    if p == [] then []
    else if escaped || p[0] != '\\' then [p[0]] + Unescaped(false, p[1..])
    else Unescaped(true, p[1..])
  }

  lemma Assoc<T>(a: seq<T>, b: seq<T>, c: seq<T>)
    ensures (a + b) + c == a + (b + c)
  {
  }

  lemma {:induction false} LiteralsAppend(a: seq<char>, b: seq<char>)
    ensures Literals(a + b) == Literals(a) + Literals(b)
    decreases |a|
  {
    if a == [] {
      assert a + b == b;
    } else {
      assert (a + b)[0] == a[0] && (a + b)[1..] == a[1..] + b;
      LiteralsAppend(a[1..], b);
    }
  }

  lemma {:induction false} StackableLiterals(s: seq<char>)
    requires forall k :: 0 <= k < |s| ==> s[k] in Stackable
    ensures Literals(s) == []
    decreases |s|
  {
    if s != [] {
      StackableLiterals(s[1..]);
    }
  }

  /** One character adds to the non-operator characters of the output the
      character itself, unless it is a backslash that starts an escape. */
  lemma StepLiterals(st: Scan, c: char)
    requires StackShape(st) && Step(st, c).Ok?
    ensures Literals(Step(st, c).value.output) ==
      Literals(st.output) + (if st.escaped || c != '\\' then Literals([c]) else [])
  {
    if st.escaped || (c != '\\' && (c == '[' || c == ']' || st.charSet || c !in Operators)) {
      StepCopies(st, c);
      LiteralsAppend(st.output, [c]);
    } else if c == '\\' || c == '(' {
      assert Step(st, c).value.output == st.output;
    } else {
      var popped := StepPops(st, c);
      StackableLiterals(popped);
      LiteralsAppend(st.output, popped);
    }
  }

  /** A backslash starts an escape unless one is pending; any other
      character ends the pending one. */
  lemma StepEscapes(st: Scan, c: char)
    requires Step(st, c).Ok?
    ensures Step(st, c).value.escaped == (!st.escaped && c == '\\')
  {
  }

  /** Over a scan, the non-operator characters reach the output at once and
      in the order of the pattern, escapes resolved. */
  lemma {:induction false} LiteralsFrom(st: Scan, p: string)
    requires StackShape(st) && ScanFrom(st, p).Ok?
    ensures Literals(ScanFrom(st, p).value.output) == Literals(st.output) + Literals(Unescaped(st.escaped, p))
    decreases |p|
  {
    if p == [] {
      assert Literals(st.output) + Literals(Unescaped(st.escaped, p)) == Literals(st.output) + [];
    } else {
      var c := p[0];
      StepEscapes(st, c);
      StepKeepsStackShape(st, c);
      StepLiterals(st, c);
      var next := Step(st, c).value;
      assert ScanFrom(st, p) == ScanFrom(next, p[1..]);
      LiteralsFrom(next, p[1..]);
      var here := UnescapedCons(st.escaped, p);
      var done, rest := Literals(st.output), Literals(Unescaped(next.escaped, p[1..]));
      Assoc(done, here, rest);
    }
  }

  /** Unfolding `Unescaped` by one character: `here` is what that character
      contributes to the non-operator characters. */
  lemma UnescapedCons(escaped: bool, p: string) returns (here: seq<char>)
    requires p != []
    ensures here == if escaped || p[0] != '\\' then Literals([p[0]]) else []
    ensures Literals(Unescaped(escaped, p)) == here + Literals(Unescaped(!escaped && p[0] == '\\', p[1..]))
  {
    if escaped || p[0] != '\\' {
      here := Literals([p[0]]);
      LiteralsAppend([p[0]], Unescaped(false, p[1..]));
    } else {
      here := [];
      assert [] + Literals(Unescaped(true, p[1..])) == Literals(Unescaped(true, p[1..]));
    }
  }

  lemma {:induction false} UnescapedPlain(p: string)
    requires '\\' !in p
    ensures Unescaped(false, p) == p
    decreases |p|
  {
    if p != [] {
      assert p[0] in p;
      assert forall k :: 0 <= k < |p[1..]| ==> p[1..][k] == p[k + 1];
      UnescapedPlain(p[1..]);
      assert p == [p[0]] + p[1..];
    }
  }

  /** The non-operator characters of a successful parse are those of the
      pattern, in the pattern's order, escapes resolved; with no backslash
      they are exactly the pattern's own. Operators may only move. */
  lemma LiteralOrder(p: string)
    requires Parse(p).Ok?
    ensures Literals(Parse(p).value) == Literals(Unescaped(false, p))
    ensures '\\' !in p ==> Literals(Parse(p).value) == Literals(p)
  {
    LiteralsFrom(Initial, p);
    var fin := ScanFrom(Initial, p).value;
    ScanKeepsStackShape(Initial, p);
    ReversedHolds(fin.stack);
    StackableLiterals(Reversed(fin.stack));
    LiteralsAppend(fin.output, Reversed(fin.stack));
    assert Literals(Initial.output) == [];
    if '\\' !in p {
      UnescapedPlain(p);
    }
  }

  /** `(` ranks highest, so the `|` inside `(a|b)` pops it to the output and
      the closing `)` then finds no `(`: the pattern is rejected. */
  lemma GroupedAlternationFails()
    ensures Parse("(a|b)") == Err
  {
    var s1 := Scan([], "(", false, false);
    var s2 := Scan("a", "(", false, false);
    var s3 := Scan("a(", "|", false, false);
    var s4 := Scan("a(b", "|", false, false);
    GroupOpens();
    GroupAlternates();
    GroupCloseFails();
    var p := "(a|b)";
    assert p[1..] == "a|b)" && p[1..][1..] == "|b)" && p[1..][1..][1..] == "b)";
    assert p[1..][1..][1..][1..] == ")";
    assert ScanFrom(s4, ")") == Err;
    assert ScanFrom(s3, "b)") == Err;
    assert ScanFrom(s2, "|b)") == Err;
    assert ScanFrom(s1, "a|b)") == Err;
  }

  /** The scan of `(a|b)`: `(` is pushed and `a` emitted. */
  lemma GroupOpens()
    ensures Step(Initial, '(') == Ok(Scan([], "(", false, false))
    ensures Step(Scan([], "(", false, false), 'a') == Ok(Scan("a", "(", false, false))
  {
    assert '(' in Operators && [] + "(" == "(";
    assert 'a' !in Operators && [] + "a" == "a";
  }

  /** The scan of `(a|b)` goes on: `|` pops `(` to the output, `b` is emitted. */
  lemma GroupAlternates()
    ensures Step(Scan("a", "(", false, false), '|') == Ok(Scan("a(", "|", false, false))
    ensures Step(Scan("a(", "|", false, false), 'b') == Ok(Scan("a(b", "|", false, false))
  {
    assert '|' in Operators && Precedence('|') == 1 && Precedence('(') == 8;
    assert "a" + "(" == "a(" && "(" [..0] == [] && [] + "|" == "|";
    assert PopAtLeast("a", "(", 1) == ("a(", []);
    assert 'b' !in Operators && "a(" + "b" == "a(b";
  }

  /** The scan of `(a|b)` ends: `)` finds no `(` left on the stack. */
  lemma GroupCloseFails()
    ensures Step(Scan("a(b", "|", false, false), ')') == Err
  {
    assert ')' in Operators && "a(b" + "|" == "a(b|" && "|"[..0] == [];
    assert PopToOpen("a(b", "|") == ("a(b|", []);
  }
}
