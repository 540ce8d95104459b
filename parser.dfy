/** `parseRegex` and `processOperator`: a one-pass scan with an operand stack
    of NFA fragments and an operator stack holding only '(' and '|', then a
    flush of the remaining operators and a right-to-left fold of the
    operands by concatenation.

    The fragments are tracked alongside as regular-expression terms: the
    stack machine is first given as functions over term stacks (`Scan`,
    `ParseTerm`), and the method that pushes and pops NFA objects is proved
    to hold, at every step, exactly `Build` of the terms the functions
    compute. */
module Parser {
  import opened Wrappers
  import opened Automata
  import opened Thompson
  import opened ThompsonProps

  // ---------------------------------------------------------------------------
  // Terms and their Thompson automata

  datatype Term = Sym(c: char) | Cat(left: Term, right: Term) | Alt(left: Term, right: Term) | Star(body: Term)

  /** The automaton the primitives build for a term. */
  function Build(t: Term): NfaData {
    match t
    case Sym(c) => CharSpec(c)
    case Cat(l, r) => ConcatSpec(Build(l), Build(r))
    case Alt(l, r) => AltSpec(Build(l), Build(r))
    case Star(b) => StarSpec(Build(b))
  }

  /** The number of states Thompson's construction uses for a term. */
  function Size(t: Term): nat {
    match t
    case Sym(_) => 2
    case Cat(l, r) => Size(l) + Size(r)
    case Alt(l, r) => Size(l) + Size(r) + 2
    case Star(b) => Size(b) + 2
  }

  function Symbols(t: Term): set<char> {
    match t
    case Sym(c) => {c}
    case Cat(l, r) => Symbols(l) + Symbols(r)
    case Alt(l, r) => Symbols(l) + Symbols(r)
    case Star(b) => Symbols(b)
  }

  /** Every automaton built from a term starts at 0, has `Size(t)` states
      and accepts only its last state. */
  lemma {:induction false} BuildShape(t: Term)
    ensures |Build(t).states| == Size(t) && Size(t) >= 2
    ensures Build(t).startState == 0
    ensures Build(t).acceptStates == {Size(t) - 1}
  {
    match t
    case Sym(c) =>
      assert Build(t) == CharSpec(c);
    case Cat(l, r) =>
      BuildShape(l);
      BuildShape(r);
      ConcatSizes(Build(l), Build(r));
    case Alt(l, r) =>
      BuildShape(l);
      BuildShape(r);
      AltSizes(Build(l), Build(r));
    case Star(b) =>
      BuildShape(b);
      StarSizes(Build(b));
  }

  lemma AltSizes(a: NfaData, b: NfaData)
    ensures |AltSpec(a, b).states| == |a.states| + |b.states| + 2 && AltSpec(a, b).startState == 0
    ensures AltSpec(a, b).acceptStates == {|a.states| + |b.states| + 1}
  {
  }

  lemma StarSizes(a: NfaData)
    ensures |StarSpec(a).states| == |a.states| + 2 && StarSpec(a).startState == 0
    ensures StarSpec(a).acceptStates == {|a.states| + 1}
  {
  }

  lemma ConcatSizes(a: NfaData, b: NfaData)
    requires a.startState == 0 && |b.states| >= 2 && b.acceptStates == {|b.states| - 1}
    ensures |ConcatSpec(a, b).states| == |a.states| + |b.states| && ConcatSpec(a, b).startState == 0
    ensures ConcatSpec(a, b).acceptStates == {|a.states| + |b.states| - 1}
  {
    ConcatSingleAccept(a, b);
  }

  /** Every automaton built from a term is well formed, and its alphabet is
      the term's symbols without the epsilon marker. */
  lemma {:induction false} BuildWellFormed(t: Term)
    ensures WellFormed(Build(t))
    ensures Build(t).alphabet == Symbols(t) - {'\0'}
  {
    match t
    case Sym(c) =>
      CharWellFormed(c);
    case Cat(l, r) =>
      BuildWellFormed(l);
      BuildWellFormed(r);
      ConcatWellFormed(Build(l), Build(r));
    case Alt(l, r) =>
      BuildWellFormed(l);
      BuildWellFormed(r);
      AltWellFormed(Build(l), Build(r));
    case Star(b) =>
      BuildWellFormed(b);
      StarWellFormed(Build(b));
  }

  /** The symbols labelling the edges of a built automaton are exactly the
      term's symbols. */
  lemma {:induction false} BuildLabels(t: Term)
    ensures Labels(Build(t).states) == Symbols(t)
  {
    match t
    case Sym(c) =>
      var st := CharSpec(c).states;
      assert c in st[0].transitions && st[0].transitions[c] != {};
    case Cat(l, r) =>
      BuildLabels(l);
      BuildLabels(r);
      ConcatLabels(Build(l), Build(r));
    case Alt(l, r) =>
      BuildLabels(l);
      BuildLabels(r);
      AltLabels(Build(l), Build(r));
    case Star(b) =>
      BuildLabels(b);
      StarLabels(Build(b));
  }

  lemma ConcatSingleAccept(a: NfaData, b: NfaData)
    requires b.acceptStates == {|b.states| - 1} && |b.states| >= 1
    ensures ConcatSpec(a, b).acceptStates == {|a.states| + |b.states| - 1}
  {
    ShiftSetIn(b.acceptStates, |a.states|);
    var acc := ConcatSpec(a, b).acceptStates;
    forall q | q in acc ensures q == |a.states| + |b.states| - 1 { }
    assert |a.states| + |b.states| - 1 in acc;
  }

  // ---------------------------------------------------------------------------
  // The scanner's character classes

  /** `isalnum` in the "C" locale. */
  predicate IsAlnum(c: char) {
    ('a' <= c <= 'z') || ('A' <= c <= 'Z') || ('0' <= c <= '9')
  }

  /** The characters the scanner acts on; every other character is skipped. */
  predicate Recognized(c: char) {
    IsAlnum(c) || c == '(' || c == ')' || c == '|' || c == '*'
  }

  function AlnumChars(s: string): set<char> {
    set i | 0 <= i < |s| && IsAlnum(s[i]) :: s[i]
  }

  /** The string with every character the scanner skips removed. */
  function Filter(s: string): (r: string)
    ensures forall i :: 0 <= i < |r| ==> Recognized(r[i])
    ensures |r| <= |s|
  {
    if s == [] then []
    else Filter(s[..|s| - 1]) + (if Recognized(s[|s| - 1]) then [s[|s| - 1]] else [])
  }

  // ---------------------------------------------------------------------------
  // The stack machine on terms

  /** The two stacks; the top of each is its last element. */
  datatype Stacks = Stacks(operands: seq<Term>, operators: seq<char>)

  /** `processOperator(op, stack)` on terms. */
  function ProcessOp(op: char, ts: seq<Term>): seq<Term> {
    if op == '|' && |ts| >= 2 then ts[..|ts| - 2] + [Alt(ts[|ts| - 2], ts[|ts| - 1])] else ts
  }

  /** The pop-and-apply loop shared by ')' and '|': apply and pop operators
      until the operator stack is empty or its top is '('. */
  function Reduce(ts: seq<Term>, ops: seq<char>): (r: Stacks)
    ensures r.operators == [] || r.operators[|r.operators| - 1] == '('
    ensures r.operators <= ops
    decreases |ops|
  {
    if ops == [] || ops[|ops| - 1] == '(' then Stacks(ts, ops)
    else Reduce(ProcessOp(ops[|ops| - 1], ts), ops[..|ops| - 1])
  }

  /** One iteration of the scan loop. */
  function Step(st: Stacks, c: char): Stacks {
    if IsAlnum(c) then st.(operands := st.operands + [Sym(c)])
    else if c == '(' then st.(operators := st.operators + ['('])
    else if c == ')' then
      var r := Reduce(st.operands, st.operators);
      if r.operators != [] then r.(operators := r.operators[..|r.operators| - 1]) else r
    else if c == '|' then
      var r := Reduce(st.operands, st.operators);
      r.(operators := r.operators + ['|'])
    else if c == '*' then
      if st.operands != [] then
        st.(operands := st.operands[..|st.operands| - 1] + [Star(st.operands[|st.operands| - 1])])
      else st
    else st
  }

  /** The stacks after scanning all of `s`. */
  function Scan(s: string): Stacks
    decreases |s|
  {
    if s == [] then Stacks([], []) else Step(Scan(s[..|s| - 1]), s[|s| - 1])
  }

  /** The loop after the scan: apply and pop every remaining operator. */
  function FlushAll(ts: seq<Term>, ops: seq<char>): seq<Term>
    decreases |ops|
  {
    if ops == [] then ts else FlushAll(ProcessOp(ops[|ops| - 1], ts), ops[..|ops| - 1])
  }

  /** The final loop: concatenate the top two operands, earlier one on the
      left, until at most one is left. */
  function FoldConcat(ts: seq<Term>): seq<Term>
    decreases |ts|
  {
    if |ts| <= 1 then ts else FoldConcat(ts[..|ts| - 2] + [Cat(ts[|ts| - 2], ts[|ts| - 1])])
  }

  /** The term `parseRegex` builds, or None where the C++ code would take
      the top of an empty operand stack. */
  function ParseTerm(s: string): Option<Term> {
    var st := Scan(s);
    var ts := FoldConcat(FlushAll(st.operands, st.operators));
    if ts == [] then None else Some(ts[0])
  }

  // ---------------------------------------------------------------------------
  // Properties of the stack machine

  /** `processOperator` changes the stack only for '|' with two operands,
      then replaces exactly the top two by their alternation, the earlier
      one on the left. */
  lemma ProcessOpEffect(op: char, ts: seq<Term>)
    ensures op != '|' || |ts| < 2 ==> ProcessOp(op, ts) == ts
    ensures op == '|' && |ts| >= 2 ==>
              |ProcessOp(op, ts)| == |ts| - 1 &&
              ProcessOp(op, ts)[..|ts| - 2] == ts[..|ts| - 2] &&
              ProcessOp(op, ts)[|ts| - 2] == Alt(ts[|ts| - 2], ts[|ts| - 1])
  {
  }

  /** A right-nested concatenation, earlier terms on the left: the reference
      reading of the final fold. */
  function CatAll(ts: seq<Term>): Term
    requires ts != []
    decreases |ts|
  {
    if |ts| == 1 then ts[0] else Cat(ts[0], CatAll(ts[1..]))
  }

  lemma {:induction false} CatAllSnoc(ts: seq<Term>, x: Term, y: Term)
    ensures CatAll(ts + [Cat(x, y)]) == CatAll(ts + [x, y])
    decreases |ts|
  {
    if ts != [] {
      assert (ts + [Cat(x, y)])[1..] == ts[1..] + [Cat(x, y)];
      assert (ts + [x, y])[1..] == ts[1..] + [x, y];
      CatAllSnoc(ts[1..], x, y);
    }
  }

  /** The final fold leaves one operand, the right-nested concatenation of
      all of them in stack order. */
  lemma {:induction false} FoldConcatAll(ts: seq<Term>)
    requires ts != []
    ensures FoldConcat(ts) == [CatAll(ts)]
    decreases |ts|
  {
    if |ts| > 1 {
      var n := |ts|;
      var ts' := ts[..n - 2] + [Cat(ts[n - 2], ts[n - 1])];
      FoldConcatAll(ts');
      CatAllSnoc(ts[..n - 2], ts[n - 2], ts[n - 1]);
      assert ts[..n - 2] + [ts[n - 2], ts[n - 1]] == ts;
    }
  }

  lemma FoldConcatEmpty()
    ensures FoldConcat([]) == []
  {
  }

  /** The union of the symbols of a stack of terms. */
  function StackSymbols(ts: seq<Term>): set<char>
    decreases |ts|
  {
    if ts == [] then {} else StackSymbols(ts[..|ts| - 1]) + Symbols(ts[|ts| - 1])
  }

  lemma StackSymbolsSnoc(ts: seq<Term>, t: Term)
    ensures StackSymbols(ts + [t]) == StackSymbols(ts) + Symbols(t)
  {
    assert (ts + [t])[..|ts|] == ts;
  }

  lemma ProcessOpKeeps(op: char, ts: seq<Term>)
    ensures StackSymbols(ProcessOp(op, ts)) == StackSymbols(ts)
    ensures (|ProcessOp(op, ts)| == 0) == (|ts| == 0)
  {
    if op == '|' && |ts| >= 2 {
      var n := |ts|;
      StackSymbolsSnoc(ts[..n - 2], Alt(ts[n - 2], ts[n - 1]));
      assert ts[..n - 1][..n - 2] == ts[..n - 2];
    }
  }

  lemma {:induction false} ReduceKeeps(ts: seq<Term>, ops: seq<char>)
    ensures StackSymbols(Reduce(ts, ops).operands) == StackSymbols(ts)
    ensures (|Reduce(ts, ops).operands| == 0) == (|ts| == 0)
    decreases |ops|
  {
    if !(ops == [] || ops[|ops| - 1] == '(') {
      ProcessOpKeeps(ops[|ops| - 1], ts);
      ReduceKeeps(ProcessOp(ops[|ops| - 1], ts), ops[..|ops| - 1]);
    }
  }

  lemma {:induction false} FlushAllKeeps(ts: seq<Term>, ops: seq<char>)
    ensures StackSymbols(FlushAll(ts, ops)) == StackSymbols(ts)
    ensures (|FlushAll(ts, ops)| == 0) == (|ts| == 0)
    decreases |ops|
  {
    if ops != [] {
      ProcessOpKeeps(ops[|ops| - 1], ts);
      FlushAllKeeps(ProcessOp(ops[|ops| - 1], ts), ops[..|ops| - 1]);
    }
  }

  lemma CatAllSymbols(ts: seq<Term>)
    requires ts != []
    ensures Symbols(CatAll(ts)) == StackSymbols(ts)
    decreases |ts|
  {
    if |ts| > 1 {
      CatAllSymbols(ts[1..]);
      StackSymbolsCons(ts[0], ts[1..]);
      assert [ts[0]] + ts[1..] == ts;
    }
  }

  lemma StackSymbolsCons(t: Term, ts: seq<Term>)
    ensures StackSymbols([t] + ts) == Symbols(t) + StackSymbols(ts)
    decreases |ts|
  {
    if ts != [] {
      var n := |ts|;
      assert ([t] + ts)[..n] == [t] + ts[..n - 1];
      StackSymbolsCons(t, ts[..n - 1]);
    }
  }

  lemma AlnumCharsSnoc(s: string)
    requires s != []
    ensures AlnumChars(s) == AlnumChars(s[..|s| - 1]) + (if IsAlnum(s[|s| - 1]) then {s[|s| - 1]} else {})
  {
    var p := s[..|s| - 1];
    forall c | c in AlnumChars(s)
      ensures c in AlnumChars(p) + (if IsAlnum(s[|s| - 1]) then {s[|s| - 1]} else {})
    {
      var i :| 0 <= i < |s| && IsAlnum(s[i]) && s[i] == c;
      if i < |p| { assert p[i] == s[i]; }
    }
    forall c | c in AlnumChars(p) ensures c in AlnumChars(s) {
      var i :| 0 <= i < |p| && IsAlnum(p[i]) && p[i] == c;
      assert s[i] == p[i];
    }
  }

  /** One scan step adds the symbol it reads, if alphanumeric, and loses
      none of the operands' symbols. */
  lemma StepKeeps(st: Stacks, c: char)
    ensures StackSymbols(Step(st, c).operands) == StackSymbols(st.operands) + (if IsAlnum(c) then {c} else {})
    ensures (|Step(st, c).operands| == 0) == (|st.operands| == 0 && !IsAlnum(c))
  {
    if IsAlnum(c) {
      StackSymbolsSnoc(st.operands, Sym(c));
    } else if c == ')' || c == '|' {
      ReduceKeeps(st.operands, st.operators);
    } else if c == '*' && st.operands != [] {
      var n := |st.operands|;
      StackSymbolsSnoc(st.operands[..n - 1], Star(st.operands[n - 1]));
      assert st.operands[..n - 1] + [st.operands[n - 1]] == st.operands;
      StackSymbolsSnoc(st.operands[..n - 1], st.operands[n - 1]);
    }
  }

  /** The scan keeps every alphanumeric character read so far on the
      operand stack: the stack's symbols are exactly those characters, and
      it is empty exactly while none has been read. */
  lemma {:induction false} ScanKeeps(s: string)
    ensures StackSymbols(Scan(s).operands) == AlnumChars(s)
    ensures (|Scan(s).operands| == 0) == (AlnumChars(s) == {})
    decreases |s|
  {
    if s != [] {
      var p, c := s[..|s| - 1], s[|s| - 1];
      ScanKeeps(p);
      AlnumCharsSnoc(s);
      StepKeeps(Scan(p), c);
    }
  }

  /** `parseRegex` fails exactly on a regex without alphanumeric characters;
      otherwise its term mentions exactly the regex's alphanumeric
      characters. */
  lemma ParseTermSymbols(s: string)
    ensures ParseTerm(s).None? <==> AlnumChars(s) == {}
    ensures ParseTerm(s).Some? ==> Symbols(ParseTerm(s).value) == AlnumChars(s)
  {
    var st := Scan(s);
    ScanKeeps(s);
    var fl := FlushAll(st.operands, st.operators);
    FlushAllKeeps(st.operands, st.operators);
    if fl == [] {
      FoldConcatEmpty();
    } else {
      FoldConcatAll(fl);
      CatAllSymbols(fl);
    }
  }

  /** The automaton `parseRegex` builds is well formed, starts at 0,
      accepts only its last state, and its alphabet is exactly the set of
      alphanumeric characters of the regex. */
  lemma ParseAutomaton(s: string)
    requires ParseTerm(s).Some?
    ensures WellFormed(Build(ParseTerm(s).value))
    ensures Build(ParseTerm(s).value).startState == 0
    ensures Build(ParseTerm(s).value).acceptStates == {|Build(ParseTerm(s).value).states| - 1}
    ensures Build(ParseTerm(s).value).alphabet == AlnumChars(s)
  {
    ParseTermSymbols(s);
    BuildShape(ParseTerm(s).value);
    BuildWellFormed(ParseTerm(s).value);
    assert '\0' !in AlnumChars(s);
  }

  lemma FilterSnoc(s: string)
    requires s != []
    ensures Filter(s) == Filter(s[..|s| - 1]) + (if Recognized(s[|s| - 1]) then [s[|s| - 1]] else [])
  {
  }

  /** Skipped characters make no difference to the scan. */
  lemma {:induction false} ScanFilter(s: string)
    ensures Scan(Filter(s)) == Scan(s)
    decreases |s|
  {
    if s != [] {
      var p, c := s[..|s| - 1], s[|s| - 1];
      ScanFilter(p);
      var f := Filter(s);
      if Recognized(c) {
        assert f == Filter(p) + [c];
        assert f[..|f| - 1] == Filter(p);
      } else {
        assert f == Filter(p) + [];
        assert Filter(p) + [] == Filter(p);
        assert Step(Scan(p), c) == Scan(p);
      }
    }
  }

  /** `parseRegex` ignores every character that is not alphanumeric and
      not one of `(`, `)`, `|`, `*`. */
  lemma ParseIgnoresUnknown(s: string)
    ensures ParseTerm(Filter(s)) == ParseTerm(s)
  {
    ScanFilter(s);
  }

  /** `*` replaces only the top operand by its star and leaves the operator
      stack alone; with no operand it does nothing. */
  lemma StepStar(st: Stacks)
    ensures Step(st, '*').operators == st.operators
    ensures |st.operands| == 0 ==> Step(st, '*') == st
    ensures |st.operands| > 0 ==>
      var n := |st.operands|;
      |Step(st, '*').operands| == n &&
      Step(st, '*').operands[..n - 1] == st.operands[..n - 1] &&
      Step(st, '*').operands[n - 1] == Term.Star(st.operands[n - 1])
  {
  }

  /** The scan of a longer regex is one more step of the scan. */
  lemma ScanSnoc(s: string, c: char)
    ensures Scan(s + [c]) == Step(Scan(s), c)
  {
    assert (s + [c])[..|s|] == s;
  }

  lemma ScanOpenAlt()
    ensures Scan("(a|b") == Stacks([Sym('a'), Sym('b')], ['(', '|'])
  {
    ScanSnoc("", '('); assert "" + ['('] == "(";
    ScanSnoc("(", 'a'); assert "(" + ['a'] == "(a";
    ScanSnoc("(a", '|'); assert "(a" + ['|'] == "(a|";
    ScanSnoc("(a|", 'b'); assert "(a|" + ['b'] == "(a|b";
  }

  lemma ScanClosedAlt()
    ensures Scan("(a|b)") == Stacks([Alt(Sym('a'), Sym('b'))], [])
  {
    ScanOpenAlt();
    ScanSnoc("(a|b", ')'); assert "(a|b" + [')'] == "(a|b)";
  }

  lemma ScanGroup()
    ensures Scan("(a|b)*") == Stacks([Term.Star(Alt(Sym('a'), Sym('b')))], [])
  {
    ScanClosedAlt();
    ScanSnoc("(a|b)", '*'); assert "(a|b)" + ['*'] == "(a|b)*";
  }

  /** The demo regex `(a|b)*abb`: the starred group, then `a`, `b`, `b`,
      concatenated with the earlier fragment on the left. */
  lemma ParseGroupExample()
    ensures ParseTerm("(a|b)*abb") ==
      Some(Cat(Term.Star(Alt(Sym('a'), Sym('b'))), Cat(Sym('a'), Cat(Sym('b'), Sym('b')))))
  {
    ScanGroup();
    ScanSnoc("(a|b)*", 'a'); assert "(a|b)*" + ['a'] == "(a|b)*a";
    ScanSnoc("(a|b)*a", 'b'); assert "(a|b)*a" + ['b'] == "(a|b)*ab";
    ScanSnoc("(a|b)*ab", 'b'); assert "(a|b)*ab" + ['b'] == "(a|b)*abb";
    var g := Term.Star(Alt(Sym('a'), Sym('b')));
    assert Scan("(a|b)*abb") == Stacks([g, Sym('a'), Sym('b'), Sym('b')], []);
    FoldFour(g, Sym('a'), Sym('b'), Sym('b'));
  }

  lemma FoldFour(w: Term, x: Term, y: Term, z: Term)
    ensures FoldConcat([w, x, y, z]) == [Cat(w, Cat(x, Cat(y, z)))]
  {
    var s3, s2, s1 := [w, x, Cat(y, z)], [w, Cat(x, Cat(y, z))], [Cat(w, Cat(x, Cat(y, z)))];
    assert [w, x, y, z][..2] + [Cat(y, z)] == s3;
    assert s3[..1] + [Cat(x, Cat(y, z))] == s2;
    assert s2[..0] + [Cat(w, Cat(x, Cat(y, z)))] == s1;
    calc {
      FoldConcat([w, x, y, z]);
      FoldConcat(s3);
      FoldConcat(s2);
      FoldConcat(s1);
    }
  }

  /** Implicit concatenation is only applied at the end, so `ab|c` is read
      as `a(b|c)`: the `|` joins the two operands nearest to it. */
  lemma ParseConcatAltExample()
    ensures ParseTerm("ab|c") == Some(Cat(Sym('a'), Alt(Sym('b'), Sym('c'))))
  {
    ScanSnoc("", 'a'); assert "" + ['a'] == "a";
    ScanSnoc("a", 'b'); assert "a" + ['b'] == "ab";
    ScanSnoc("ab", '|'); assert "ab" + ['|'] == "ab|";
    ScanSnoc("ab|", 'c'); assert "ab|" + ['c'] == "ab|c";
    assert Scan("ab|c") == Stacks([Sym('a'), Sym('b'), Sym('c')], ['|']);
  }

  /** Alternation groups to the left. */
  lemma ParseAltChainExample()
    ensures ParseTerm("a|b|c") == Some(Alt(Alt(Sym('a'), Sym('b')), Sym('c')))
  {
    ScanSnoc("", 'a'); assert "" + ['a'] == "a";
    ScanSnoc("a", '|'); assert "a" + ['|'] == "a|";
    ScanSnoc("a|", 'b'); assert "a|" + ['b'] == "a|b";
    ScanSnoc("a|b", '|'); assert "a|b" + ['|'] == "a|b|";
    ScanSnoc("a|b|", 'c'); assert "a|b|" + ['c'] == "a|b|c";
    assert Scan("a|b|c") == Stacks([Alt(Sym('a'), Sym('b')), Sym('c')], ['|']);
  }

  /** A `)` without its `(` still applies the pending `|`, then pops
      nothing: `a|b)c` is read as `(a|b)c`. */
  lemma ParseStrayCloseExample()
    ensures ParseTerm("a|b)c") == Some(Cat(Alt(Sym('a'), Sym('b')), Sym('c')))
  {
    ScanSnoc("", 'a'); assert "" + ['a'] == "a";
    ScanSnoc("a", '|'); assert "a" + ['|'] == "a|";
    ScanSnoc("a|", 'b'); assert "a|" + ['b'] == "a|b";
    assert Scan("a|b") == Stacks([Sym('a'), Sym('b')], ['|']);
    assert ProcessOp('|', [Sym('a'), Sym('b')]) == [Alt(Sym('a'), Sym('b'))];
    ScanSnoc("a|b", ')'); assert "a|b" + [')'] == "a|b)";
    assert Scan("a|b)") == Stacks([Alt(Sym('a'), Sym('b'))], []);
    ScanSnoc("a|b)", 'c'); assert "a|b)" + ['c'] == "a|b)c";
    assert Scan("a|b)c") == Stacks([Alt(Sym('a'), Sym('b')), Sym('c')], []);
  }

  /** A `(` never closed is flushed with the other operators and ignored:
      `(a|b` is read as `a|b`. */
  lemma ParseOpenGroupExample()
    ensures ParseTerm("(a|b") == Some(Alt(Sym('a'), Sym('b')))
  {
    ScanOpenAlt();
    assert ProcessOp('|', [Sym('a'), Sym('b')]) == [Alt(Sym('a'), Sym('b'))];
    assert FlushAll([Alt(Sym('a'), Sym('b'))], ['(']) == [Alt(Sym('a'), Sym('b'))];
    assert FlushAll([Sym('a'), Sym('b')], ['(', '|']) == [Alt(Sym('a'), Sym('b'))];
  }

  // ---------------------------------------------------------------------------
  // The stack machine on NFA objects

  /** The operand stack holds, entry by entry, the automata of a term stack. */
  ghost predicate Holds(stack: seq<NFA>, ts: seq<Term>)
    reads stack
  {
    |stack| == |ts| && forall k :: 0 <= k < |stack| ==> stack[k].Data() == Build(ts[k])
  }

  /** What the primitives require of their operands holds for every built
      automaton. */
  lemma BuildAcceptInRange(t: Term)
    ensures InRange(Build(t).acceptStates, |Build(t).states|)
  {
    BuildShape(t);
  }

  /** `processOperator(op, nfaStack)`: only '|' with at least two operands
      changes the stack; it replaces the top two operands by a fresh
      alternation of them, the earlier one on the left. */
  method ProcessOperator(op: char, stack: seq<NFA>, ghost ts: seq<Term>) returns (r: seq<NFA>)
    requires Holds(stack, ts)
    ensures Holds(r, ProcessOp(op, ts))
    ensures !(op == '|' && |stack| >= 2) ==> r == stack
    ensures op == '|' && |stack| >= 2 ==>
              |r| == |stack| - 1 && r[..|r| - 1] == stack[..|stack| - 2] && fresh(r[|r| - 1])
  {
    if op == '|' && |stack| >= 2 {
      var nfa2 := stack[|stack| - 1];
      var nfa1 := stack[|stack| - 2];
      BuildAcceptInRange(ts[|ts| - 2]);
      BuildAcceptInRange(ts[|ts| - 1]);
      var alt := Alternate(nfa1, nfa2);
      r := stack[..|stack| - 2] + [alt];
    } else {
      r := stack;
    }
  }

  /** The pop-and-apply loop that both ')' and '|' run. */
  method ApplyPending(stack: seq<NFA>, ops: seq<char>, ghost ts: seq<Term>) returns (stack': seq<NFA>, ops': seq<char>)
    requires Holds(stack, ts)
    ensures Holds(stack', Reduce(ts, ops).operands) && ops' == Reduce(ts, ops).operators
  {
    stack', ops' := stack, ops;
    ghost var cur := ts;
    while ops' != [] && ops'[|ops'| - 1] != '('
      invariant Holds(stack', cur)
      invariant Reduce(cur, ops') == Reduce(ts, ops)
      decreases |ops'|
    {
      stack' := ProcessOperator(ops'[|ops'| - 1], stack', cur);
      cur := ProcessOp(ops'[|ops'| - 1], cur);
      ops' := ops'[..|ops'| - 1];
    }
  }

  /** One iteration of the scan loop of `parseRegex`, on character c. */
  method ScanChar(c: char, stack: seq<NFA>, ops: seq<char>, ghost ts: seq<Term>)
    returns (stack': seq<NFA>, ops': seq<char>)
    requires Holds(stack, ts)
    ensures Holds(stack', Step(Stacks(ts, ops), c).operands) && ops' == Step(Stacks(ts, ops), c).operators
  {
    stack', ops' := stack, ops;
    if IsAlnum(c) {
      var nfa := CharNFA(c);
      stack' := stack' + [nfa];
    } else if c == '(' {
      ops' := ops' + ['('];
    } else if c == ')' {
      stack', ops' := ApplyPending(stack', ops', ts);
      if ops' != [] {
        ops' := ops'[..|ops'| - 1];
      }
    } else if c == '|' {
      stack', ops' := ApplyPending(stack', ops', ts);
      ops' := ops' + ['|'];
    } else if c == '*' {
      if stack' != [] {
        var nfa := stack'[|stack'| - 1];
        BuildAcceptInRange(ts[|ts| - 1]);
        var st := Thompson.Star(nfa);
        stack' := stack'[..|stack'| - 1] + [st];
      }
    }
  }

  /** The loop after the scan: apply and pop every remaining operator. */
  method FlushOperators(stack: seq<NFA>, ops: seq<char>, ghost ts: seq<Term>) returns (stack': seq<NFA>)
    requires Holds(stack, ts)
    ensures Holds(stack', FlushAll(ts, ops))
  {
    stack' := stack;
    var ops' := ops;
    ghost var cur := ts;
    while ops' != []
      invariant Holds(stack', cur)
      invariant FlushAll(cur, ops') == FlushAll(ts, ops)
      decreases |ops'|
    {
      stack' := ProcessOperator(ops'[|ops'| - 1], stack', cur);
      cur := ProcessOp(ops'[|ops'| - 1], cur);
      ops' := ops'[..|ops'| - 1];
    }
  }

  /** The final loop: concatenate the top two operands, earlier one on the
      left, until at most one is left. */
  method FoldOperands(stack: seq<NFA>, ghost ts: seq<Term>) returns (stack': seq<NFA>)
    requires Holds(stack, ts)
    ensures Holds(stack', FoldConcat(ts))
  {
    stack' := stack;
    ghost var cur := ts;
    while |stack'| > 1
      invariant Holds(stack', cur)
      invariant FoldConcat(cur) == FoldConcat(ts)
      decreases |stack'|
    {
      var nfa2 := stack'[|stack'| - 1];
      var nfa1 := stack'[|stack'| - 2];
      BuildAcceptInRange(cur[|cur| - 2]);
      BuildAcceptInRange(cur[|cur| - 1]);
      var cat := Concatenate(nfa1, nfa2);
      stack' := stack'[..|stack'| - 2] + [cat];
      cur := cur[..|cur| - 2] + [Cat(cur[|cur| - 2], cur[|cur| - 1])];
    }
  }

  /** `parseRegex(regex)`, returning None where the C++ code would read the
      top of an empty operand stack. The result is exactly the Thompson
      automaton of `ParseTerm(regex)`. */
  method ParseRegex(regex: string) returns (r: Option<NFA>)
    ensures r.None? <==> ParseTerm(regex).None?
    ensures r.Some? ==> r.value.Data() == Build(ParseTerm(regex).value)
  {
    var nfaStack: seq<NFA> := [];
    var opStack: seq<char> := [];
    ghost var ts: seq<Term> := [];
    var i := 0;
    while i < |regex|
      invariant 0 <= i <= |regex|
      invariant Scan(regex[..i]) == Stacks(ts, opStack)
      invariant Holds(nfaStack, ts)
    {
      assert regex[..i + 1][..i] == regex[..i];
      ghost var next := Step(Stacks(ts, opStack), regex[i]);
      nfaStack, opStack := ScanChar(regex[i], nfaStack, opStack, ts);
      ts := next.operands;
      i := i + 1;
    }
    assert regex[..|regex|] == regex;
    nfaStack := FlushOperators(nfaStack, opStack, ts);
    nfaStack := FoldOperands(nfaStack, FlushAll(ts, opStack));
    if nfaStack == [] {
      r := None;
    } else {
      r := Some(nfaStack[0]);
    }
  }
}
