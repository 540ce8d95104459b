/** Thompson's construction: the four primitives `charNFA`, `concatenate`,
    `alternate` and `star`, each splicing sub-automata into one arena by
    shifting every state identity by an offset. */
module Thompson {
  import opened Automata

  // ---------------------------------------------------------------------------
  // Shifting identities

  function ShiftSet(s: set<nat>, k: nat): set<nat> {
    set x | x in s :: x + k
  }

  lemma ShiftSetIn(s: set<nat>, k: nat)
    ensures forall z: nat :: z in ShiftSet(s, k) <==> z >= k && z - k in s
  {
    forall z: nat ensures z in ShiftSet(s, k) <==> z >= k && z - k in s {
      if z >= k && z - k in s { var y: nat := z - k; assert z == y + k; }
    }
  }

  lemma ShiftSetAdd(s: set<nat>, x: nat, k: nat)
    ensures ShiftSet(s + {x}, k) == ShiftSet(s, k) + {x + k}
  {
    ShiftSetIn(s + {x}, k);
    ShiftSetIn(s, k);
  }

  /** The labelled edges as copied with an offset: a label whose target set is
      empty produces no `addTransition` call and therefore no entry. */
  function ShiftMap(m: map<char, set<nat>>, k: nat): map<char, set<nat>> {
    map c | c in m && m[c] != {} :: ShiftSet(m[c], k)
  }

  /** State `st` as copied into the fresh slot `id`, with targets shifted by k. */
  function Shifted(st: NFAState, id: nat, k: nat): NFAState {
    NFAState(id, ShiftMap(st.transitions, k), ShiftSet(st.epsilonTransitions, k), false)
  }

  /** All states of a sub-automaton, copied to slots k, k+1, ... */
  function ShiftStates(s: seq<NFAState>, k: nat): seq<NFAState> {
    seq(|s|, i requires 0 <= i < |s| => Shifted(s[i], i + k, k))
  }

  function WithEps(st: NFAState, extra: set<nat>): NFAState {
    st.(epsilonTransitions := st.epsilonTransitions + extra)
  }

  /** The labels of one state that have at least one destination. */
  function StateLabels(st: NFAState): set<char> {
    set c | c in st.transitions && st.transitions[c] != {}
  }

  lemma LabelsSnoc(s: seq<NFAState>, i: int)
    requires 0 <= i < |s|
    ensures Labels(s[..i+1]) == Labels(s[..i]) + StateLabels(s[i])
  {
    var p, q := s[..i+1], s[..i];
    forall c | c in Labels(p) ensures c in Labels(q) + StateLabels(s[i]) {
      var j :| 0 <= j < |p| && c in p[j].transitions && p[j].transitions[c] != {};
      if j < i { assert q[j] == p[j]; }
    }
    forall c | c in Labels(q) + StateLabels(s[i]) ensures c in Labels(p) {
      if c in Labels(q) {
        var j :| 0 <= j < |q| && c in q[j].transitions && q[j].transitions[c] != {};
        assert p[j] == q[j];
      } else {
        assert p[i] == s[i];
      }
    }
  }

  // ---------------------------------------------------------------------------
  // The offset-copy loops

  /** Copies the destinations `tos` of one label, shifted by `offset`, into
      the state `at`, which has no entry for that label yet. */
  method CopyTargets(result: NFA, at: nat, symbol: char, tos: set<nat>, offset: nat)
    requires 0 <= at < |result.states| && symbol !in result.states[at].transitions
    modifies result
    ensures result.states == old(result.states)[at := old(result.states[at]).(transitions :=
              if tos == {} then old(result.states[at].transitions)
              else old(result.states[at].transitions)[symbol := ShiftSet(tos, offset)])]
    ensures result.alphabet == if tos != {} && symbol != '\0' then old(result.alphabet) + {symbol}
                               else old(result.alphabet)
    ensures result.startState == old(result.startState)
    ensures result.acceptStates == old(result.acceptStates)
  {
    ghost var st := result.states[at];
    var todo := tos;
    while todo != {}
      invariant todo <= tos
      invariant result.states == old(result.states)[at := st.(transitions :=
                  if tos - todo == {} then st.transitions
                  else st.transitions[symbol := ShiftSet(tos - todo, offset)])]
      invariant result.alphabet == if tos - todo != {} && symbol != '\0' then old(result.alphabet) + {symbol}
                                   else old(result.alphabet)
      invariant result.startState == old(result.startState)
      invariant result.acceptStates == old(result.acceptStates)
    {
      Inhabited(todo);
      var to :| to in todo;
      ghost var done := tos - todo;
      ghost var before := result.states[at].transitions;
      result.AddTransition(at, symbol, to + offset);
      assert tos - (todo - {to}) == done + {to};
      ShiftSetAdd(done, to, offset);
      assert InsertTarget(before, symbol, to + offset) == st.transitions[symbol := ShiftSet(done + {to}, offset)] by {
        if done == {} {
          assert ShiftSet(done, offset) == {};
        }
      }
      todo := todo - {to};
    }
    assert tos - todo == tos;
  }

  /** The part of `ShiftMap(m, k)` for the labels in `done`. */
  function ShiftPart(m: map<char, set<nat>>, done: set<char>, k: nat): map<char, set<nat>> {
    map c | c in m && c in done && m[c] != {} :: ShiftSet(m[c], k)
  }

  function PartLabels(m: map<char, set<nat>>, done: set<char>): set<char> {
    set c | c in m && c in done && m[c] != {}
  }

  /** Copies the labelled edges `m`, shifted by `offset`, into state `at`,
      which has none yet (the loop over `trans` of each copy). */
  method CopyLabelled(result: NFA, at: nat, m: map<char, set<nat>>, offset: nat)
    requires at < |result.states| && result.states[at].transitions == map[]
    modifies result
    ensures result.states == old(result.states)[at := old(result.states[at]).(transitions := ShiftMap(m, offset))]
    ensures result.alphabet == old(result.alphabet) + (PartLabels(m, m.Keys) - {'\0'})
    ensures result.startState == old(result.startState)
    ensures result.acceptStates == old(result.acceptStates)
  {
    ghost var st := result.states[at];
    var keys := m.Keys;
    assert ShiftPart(m, m.Keys - keys, offset) == map[];
    assert PartLabels(m, m.Keys - keys) == {};
    while keys != {}
      invariant keys <= m.Keys
      invariant result.states == old(result.states)[at := st.(transitions := ShiftPart(m, m.Keys - keys, offset))]
      invariant result.alphabet == old(result.alphabet) + (PartLabels(m, m.Keys - keys) - {'\0'})
      invariant result.startState == old(result.startState)
      invariant result.acceptStates == old(result.acceptStates)
    {
      Inhabited(keys);
      var c :| c in keys;
      ghost var done := m.Keys - keys;
      CopyTargets(result, at, c, m[c], offset);
      assert m.Keys - (keys - {c}) == done + {c};
      assert ShiftPart(m, done + {c}, offset) ==
        if m[c] == {} then ShiftPart(m, done, offset) else ShiftPart(m, done, offset)[c := ShiftSet(m[c], offset)];
      assert PartLabels(m, done + {c}) ==
        if m[c] == {} then PartLabels(m, done) else PartLabels(m, done) + {c};
      keys := keys - {c};
    }
    assert ShiftPart(m, m.Keys - keys, offset) == ShiftMap(m, offset);
  }

  /** Copies the epsilon edges `eps`, shifted by `offset`, into state `at`,
      which has none yet. */
  method CopyEpsilon(result: NFA, at: nat, eps: set<nat>, offset: nat)
    requires at < |result.states| && result.states[at].epsilonTransitions == {}
    modifies result
    ensures result.states == old(result.states)[at := old(result.states[at]).(epsilonTransitions := ShiftSet(eps, offset))]
    ensures result.alphabet == old(result.alphabet)
    ensures result.startState == old(result.startState)
    ensures result.acceptStates == old(result.acceptStates)
  {
    ghost var st := result.states[at];
    var todo := eps;
    assert ShiftSet(eps - todo, offset) == {};
    while todo != {}
      invariant todo <= eps
      invariant result.states == old(result.states)[at := st.(epsilonTransitions := ShiftSet(eps - todo, offset))]
      invariant result.alphabet == old(result.alphabet)
      invariant result.startState == old(result.startState)
      invariant result.acceptStates == old(result.acceptStates)
    {
      Inhabited(todo);
      var e :| e in todo;
      result.AddEpsilonTransition(at, e + offset);
      assert eps - (todo - {e}) == (eps - todo) + {e};
      ShiftSetAdd(eps - todo, e, offset);
      todo := todo - {e};
    }
    assert eps - todo == eps;
  }

  /** Copies every edge of `st`, shifted by `offset`, into the fresh state `at`. */
  method CopyEdges(result: NFA, at: nat, st: NFAState, offset: nat)
    requires at < |result.states| && result.states[at] == FreshState(at)
    modifies result
    ensures result.states == old(result.states)[at := Shifted(st, at, offset)]
    ensures result.alphabet == old(result.alphabet) + (StateLabels(st) - {'\0'})
    ensures result.startState == old(result.startState)
    ensures result.acceptStates == old(result.acceptStates)
  {
    CopyLabelled(result, at, st.transitions, offset);
    CopyEpsilon(result, at, st.epsilonTransitions, offset);
    assert PartLabels(st.transitions, st.transitions.Keys) == StateLabels(st);
  }

  /** Appends `n` fresh states (`for (const auto& state : src.states) result.addState();`). */
  method AddFreshStates(result: NFA, n: nat)
    modifies result
    ensures result.states == old(result.states) + seq(n, j requires 0 <= j < n => FreshState(old(|result.states|) + j))
    ensures result.alphabet == old(result.alphabet)
    ensures result.startState == old(result.startState)
    ensures result.acceptStates == old(result.acceptStates)
  {
    var k := 0;
    while k < n
      invariant 0 <= k <= n
      invariant result.states == old(result.states) + seq(k, j requires 0 <= j < k => FreshState(old(|result.states|) + j))
      invariant result.alphabet == old(result.alphabet)
      invariant result.startState == old(result.startState)
      invariant result.acceptStates == old(result.acceptStates)
    {
      var _ := result.AddState();
      k := k + 1;
    }
  }

  /** Appends fresh copies of all states of `src` to `result`, then copies
      their edges shifted by the old size, which it returns as the offset
      (the add-states and copy loops that each primitive repeats). */
  method AppendShifted(result: NFA, src: NFA) returns (offset: nat)
    requires result != src
    modifies result
    ensures offset == old(|result.states|)
    ensures result.states == old(result.states) + ShiftStates(src.states, offset)
    ensures result.alphabet == old(result.alphabet) + (Labels(src.states) - {'\0'})
    ensures result.startState == old(result.startState)
    ensures result.acceptStates == old(result.acceptStates)
  {
    offset := |result.states|;
    var n := |src.states|;
    AddFreshStates(result, n);
    var i := 0;
    while i < n
      invariant 0 <= i <= n
      invariant |result.states| == offset + n
      invariant result.states[..offset] == old(result.states)
      invariant forall p :: offset <= p < offset + i ==> result.states[p] == Shifted(src.states[p - offset], p, offset)
      invariant forall p :: offset + i <= p < offset + n ==> result.states[p] == FreshState(p)
      invariant result.alphabet == old(result.alphabet) + (Labels(src.states[..i]) - {'\0'})
      invariant result.startState == old(result.startState)
      invariant result.acceptStates == old(result.acceptStates)
    {
      CopyEdges(result, offset + i, src.states[i], offset);
      LabelsSnoc(src.states, i);
      i := i + 1;
    }
    assert src.states[..n] == src.states;
    assert result.states == old(result.states) + ShiftStates(src.states, offset) by {
      forall p | 0 <= p < |result.states|
        ensures result.states[p] == (old(result.states) + ShiftStates(src.states, offset))[p]
      {
        if p < offset { assert result.states[p] == result.states[..offset][p]; }
      }
    }
  }

  /** For each accepting state `acc` of a copied sub-automaton (its states
      start at `offset`), adds the epsilon edge acc + offset --> target. */
  method LinkAccepting(result: NFA, accs: set<nat>, offset: nat, n: nat, target: nat)
    requires InRange(accs, n) && offset + n <= |result.states|
    modifies result
    ensures |result.states| == old(|result.states|)
    ensures forall p :: 0 <= p < |result.states| ==>
              result.states[p] == (if offset <= p && p - offset in accs then WithEps(old(result.states[p]), {target})
                                   else old(result.states[p]))
    ensures result.alphabet == old(result.alphabet)
    ensures result.startState == old(result.startState)
    ensures result.acceptStates == old(result.acceptStates)
  {
    var todo := accs;
    while todo != {}
      invariant todo <= accs
      invariant |result.states| == old(|result.states|)
      invariant forall p :: 0 <= p < |result.states| ==>
                  result.states[p] == (if offset <= p && p - offset in accs - todo then WithEps(old(result.states[p]), {target})
                                       else old(result.states[p]))
      invariant result.alphabet == old(result.alphabet)
      invariant result.startState == old(result.startState)
      invariant result.acceptStates == old(result.acceptStates)
    {
      Inhabited(todo);
      var acc :| acc in todo;
      result.AddEpsilonTransition(acc + offset, target);
      todo := todo - {acc};
    }
  }

  // ---------------------------------------------------------------------------
  // The four primitives: their results as values, and the methods that build them

  /** `charNFA(c)`: start 0 --c--> 1, and 1 is the sole accepting state. */
  function CharSpec(c: char): NfaData {
    NfaData([NFAState(0, map[c := {1}], {}, false), NFAState(1, map[], {}, true)], 0, {1},
            if c != '\0' then {c} else {})
  }

  /** State p of `concatenate(A, B)`: A's states as they are, except that
      each of A's accepting states stops accepting and gains an epsilon edge
      to B's shifted start; then B's states shifted by |A|, whose accepting
      states (shifted) are the only accepting ones left. */
  function ConcatState(a: NfaData, b: NfaData, p: nat): NFAState
    requires p < |a.states| + |b.states|
  {
    var k := |a.states|;
    if p < k then
      (if p in a.acceptStates then WithEps(a.states[p].(isAccepting := false), {b.startState + k})
       else a.states[p])
    else Shifted(b.states[p - k], p, k).(isAccepting := p - k in b.acceptStates)
  }

  function ConcatSpec(a: NfaData, b: NfaData): NfaData {
    var size := |a.states| + |b.states|;
    NfaData(seq(size, p requires 0 <= p < size => ConcatState(a, b, p)),
            a.startState,
            ShiftSet(b.acceptStates, |a.states|),
            a.alphabet + (Labels(b.states) - {'\0'}))
  }

  /** State p of `alternate(A, B)`: a new start 0 with epsilon edges to both
      shifted starts, A shifted by 1, B shifted by 1 + |A|, and a new end
      |A| + |B| + 1 reached by epsilon from every accepting state of A and
      B; the end is the only accepting state. */
  function AltState(a: NfaData, b: NfaData, p: nat): NFAState
    requires p < |a.states| + |b.states| + 2
  {
    var n1, end := |a.states|, |a.states| + |b.states| + 1;
    if p == 0 then NFAState(0, map[], {a.startState + 1, b.startState + 1 + n1}, false)
    else if p <= n1 then
      WithEps(Shifted(a.states[p - 1], p, 1), if p - 1 in a.acceptStates then {end} else {})
    else if p < end then
      WithEps(Shifted(b.states[p - 1 - n1], p, 1 + n1), if p - 1 - n1 in b.acceptStates then {end} else {})
    else NFAState(end, map[], {}, true)
  }

  function AltSpec(a: NfaData, b: NfaData): NfaData {
    var size := |a.states| + |b.states| + 2;
    NfaData(
      seq(size, p requires 0 <= p < size => AltState(a, b, p)),
      0, {size - 1},
      (Labels(a.states) - {'\0'}) + (Labels(b.states) - {'\0'}))
  }

  /** State p of `star(A)`: a new start 0 with epsilon edges to A's shifted
      start and to the new end |A| + 1; A shifted by 1, each accepting state
      of A gaining epsilon edges to the end and back to A's shifted start;
      the end is the only accepting state. */
  function StarState(a: NfaData, p: nat): NFAState
    requires p < |a.states| + 2
  {
    var n, end := |a.states|, |a.states| + 1;
    if p == 0 then NFAState(0, map[], {a.startState + 1, end}, false)
    else if p <= n then
      WithEps(Shifted(a.states[p - 1], p, 1), if p - 1 in a.acceptStates then {end, a.startState + 1} else {})
    else NFAState(end, map[], {}, true)
  }

  function StarSpec(a: NfaData): NfaData {
    var size := |a.states| + 2;
    NfaData(
      seq(size, p requires 0 <= p < size => StarState(a, p)),
      0, {size - 1},
      Labels(a.states) - {'\0'})
  }

  method CharNFA(c: char) returns (nfa: NFA)
    ensures fresh(nfa) && nfa.Data() == CharSpec(c)
  {
    nfa := new NFA();
    var start := nfa.AddState();
    var end := nfa.AddState();
    assert nfa.states == [FreshState(0), FreshState(1)];
    nfa.AddTransition(start, c, end);
    ghost var none: set<nat> := {};
    assert none + {1} == {1};
    assert InsertTarget(map[], c, 1) == map[c := {1}];
    assert nfa.states == [NFAState(0, map[c := {1}], {}, false), FreshState(1)];
    nfa.startState := start;
    nfa.SetAccepting(end);
  }

  /** The first loop after the copy in `concatenate`: every accepting state
      of the left operand stops accepting and gains an epsilon edge to
      `target`, B's shifted start. */
  method ConnectAccepting(result: NFA, accs: set<nat>, target: nat)
    requires InRange(accs, |result.states|)
    modifies result
    ensures |result.states| == old(|result.states|)
    ensures forall p :: 0 <= p < |result.states| ==>
              result.states[p] == (if p in accs then WithEps(old(result.states[p]).(isAccepting := false), {target})
                                   else old(result.states[p]))
    ensures result.alphabet == old(result.alphabet)
    ensures result.startState == old(result.startState)
    ensures result.acceptStates == old(result.acceptStates)
  {
    var todo := accs;
    while todo != {}
      invariant todo <= accs
      invariant |result.states| == old(|result.states|)
      invariant forall p :: 0 <= p < |result.states| ==>
                  result.states[p] == (if p in accs - todo then WithEps(old(result.states[p]).(isAccepting := false), {target})
                                       else old(result.states[p]))
      invariant result.alphabet == old(result.alphabet)
      invariant result.startState == old(result.startState)
      invariant result.acceptStates == old(result.acceptStates)
    {
      Inhabited(todo);
      var acc :| acc in todo;
      result.states := result.states[acc := result.states[acc].(isAccepting := false)];
      result.AddEpsilonTransition(acc, target);
      todo := todo - {acc};
    }
  }

  /** The last loop of `concatenate`: `setAccepting(acc + offset)` for each
      accepting state of the right operand, after the accept set was cleared. */
  method AcceptShifted(result: NFA, accs: set<nat>, offset: nat)
    requires forall t :: t in accs ==> t + offset < |result.states|
    requires result.acceptStates == {}
    modifies result
    ensures |result.states| == old(|result.states|)
    ensures forall p :: 0 <= p < |result.states| ==>
              result.states[p] == (if offset <= p && p - offset in accs then old(result.states[p]).(isAccepting := true)
                                   else old(result.states[p]))
    ensures result.acceptStates == ShiftSet(accs, offset)
    ensures result.alphabet == old(result.alphabet)
    ensures result.startState == old(result.startState)
  {
    var todo := accs;
    while todo != {}
      invariant todo <= accs
      invariant |result.states| == old(|result.states|)
      invariant forall p :: 0 <= p < |result.states| ==>
                  result.states[p] == (if offset <= p && p - offset in accs - todo then old(result.states[p]).(isAccepting := true)
                                       else old(result.states[p]))
      invariant result.acceptStates == ShiftSet(accs - todo, offset)
      invariant result.alphabet == old(result.alphabet)
      invariant result.startState == old(result.startState)
    {
      Inhabited(todo);
      var acc :| acc in todo;
      result.SetAccepting(acc + offset);
      ShiftSetAdd(accs - todo, acc, offset);
      assert accs - (todo - {acc}) == (accs - todo) + {acc};
      todo := todo - {acc};
    }
    assert accs - todo == accs;
  }

  /** The states `concatenate` ends with, from the copy `base` through the
      two accept loops, are those of `ConcatSpec`. */
  lemma ConcatStates(a: NfaData, b: NfaData, base: seq<NFAState>, mid: seq<NFAState>, fin: seq<NFAState>)
    requires InRange(a.acceptStates, |a.states|)
    requires base == a.states + ShiftStates(b.states, |a.states|)
    requires |mid| == |base| && forall p :: 0 <= p < |base| ==>
               mid[p] == (if p in a.acceptStates
                          then WithEps(base[p].(isAccepting := false), {b.startState + |a.states|})
                          else base[p])
    requires |fin| == |mid| && forall p :: 0 <= p < |mid| ==>
               fin[p] == (if |a.states| <= p && p - |a.states| in b.acceptStates
                          then mid[p].(isAccepting := true) else mid[p])
    ensures fin == ConcatSpec(a, b).states
  {
    var k := |a.states|;
    var spec := ConcatSpec(a, b).states;
    assert |spec| == |fin|;
    forall p | 0 <= p < |fin| ensures fin[p] == spec[p] {
      if p < k {
        assert base[p] == a.states[p];
      } else {
        assert p !in a.acceptStates;
        assert base[p] == ShiftStates(b.states, k)[p - k];
      }
    }
  }

  method Concatenate(nfa1: NFA, nfa2: NFA) returns (result: NFA)
    requires InRange(nfa1.acceptStates, |nfa1.states|) && InRange(nfa2.acceptStates, |nfa2.states|)
    ensures fresh(result) && result.Data() == ConcatSpec(nfa1.Data(), nfa2.Data())
  {
    result := new NFA.Copy(nfa1);
    var offset := AppendShifted(result, nfa2);
    ghost var base := result.states;
    ConnectAccepting(result, nfa1.acceptStates, nfa2.startState + offset);
    result.acceptStates := {};
    ghost var mid := result.states;
    AcceptShifted(result, nfa2.acceptStates, offset);
    ConcatStates(nfa1.Data(), nfa2.Data(), base, mid, result.states);
  }

  /** The states after the copies in `alternate`, by region. */
  lemma AltBaseAt(a: NfaData, b: NfaData, base: seq<NFAState>, p: nat)
    requires base == ([FreshState(0)] + ShiftStates(a.states, 1) + ShiftStates(b.states, 1 + |a.states|)
                      + [FreshState(|a.states| + |b.states| + 1)])
                     [0 := NFAState(0, map[], {a.startState + 1, b.startState + 1 + |a.states|}, false)]
    requires p < |base|
    ensures var n1, end := |a.states|, |a.states| + |b.states| + 1;
            base[p]
            == (if p == 0 then NFAState(0, map[], {a.startState + 1, b.startState + 1 + n1}, false)
                else if p <= n1 then Shifted(a.states[p - 1], p, 1)
                else if p < end then Shifted(b.states[p - 1 - n1], p, 1 + n1)
                else FreshState(end))
  {
  }

  /** The states `alternate` ends with, from the copies `base` through the
      two accept loops and the final `setAccepting(end)`, are those of
      `AltSpec`. */
  lemma AltStates(a: NfaData, b: NfaData, base: seq<NFAState>, mid1: seq<NFAState>, mid2: seq<NFAState>)
    requires InRange(a.acceptStates, |a.states|) && InRange(b.acceptStates, |b.states|)
    requires base == ([FreshState(0)] + ShiftStates(a.states, 1) + ShiftStates(b.states, 1 + |a.states|)
                      + [FreshState(|a.states| + |b.states| + 1)])
                     [0 := NFAState(0, map[], {a.startState + 1, b.startState + 1 + |a.states|}, false)]
    requires |mid1| == |base| && forall p :: 0 <= p < |base| ==>
               mid1[p] == (if 1 <= p && p - 1 in a.acceptStates
                           then WithEps(base[p], {|a.states| + |b.states| + 1}) else base[p])
    requires |mid2| == |mid1| && forall p :: 0 <= p < |mid1| ==>
               mid2[p] == (if 1 + |a.states| <= p && p - (1 + |a.states|) in b.acceptStates
                           then WithEps(mid1[p], {|a.states| + |b.states| + 1}) else mid1[p])
    ensures |mid2| == |a.states| + |b.states| + 2
    ensures mid2[|a.states| + |b.states| + 1 := mid2[|a.states| + |b.states| + 1].(isAccepting := true)]
            == AltSpec(a, b).states
  {
    var n1, n2 := |a.states|, |b.states|;
    var end := n1 + n2 + 1;
    var fin := mid2[end := mid2[end].(isAccepting := true)];
    var spec := AltSpec(a, b).states;
    assert |spec| == |fin|;
    forall p | 0 <= p < |fin| ensures fin[p] == spec[p] {
      AltBaseAt(a, b, base, p);
    }
  }

  /** The first half of `alternate`: the new start state, the two shifted
      copies, the new end and the two epsilon edges out of the start. */
  method AltCopies(nfa1: NFA, nfa2: NFA) returns (result: NFA, offset1: nat, offset2: nat, end: nat)
    ensures fresh(result)
    ensures offset1 == 1 && offset2 == 1 + |nfa1.states| && end == |nfa1.states| + |nfa2.states| + 1
    ensures result.states
            == ([FreshState(0)] + ShiftStates(nfa1.states, 1) + ShiftStates(nfa2.states, 1 + |nfa1.states|)
                + [FreshState(end)])
               [0 := NFAState(0, map[], {nfa1.startState + 1, nfa2.startState + 1 + |nfa1.states|}, false)]
    ensures result.startState == 0 && result.acceptStates == {}
    ensures result.alphabet == (Labels(nfa1.states) - {'\0'}) + (Labels(nfa2.states) - {'\0'})
  {
    result := new NFA();
    var start := result.AddState();
    result.startState := start;
    offset1 := AppendShifted(result, nfa1);
    offset2 := AppendShifted(result, nfa2);
    end := result.AddState();
    ghost var copies := result.states;
    result.AddEpsilonTransition(start, nfa1.startState + offset1);
    result.AddEpsilonTransition(start, nfa2.startState + offset2);
    ghost var none: set<nat> := {};
    assert none + {nfa1.startState + 1} + {nfa2.startState + offset2}
           == {nfa1.startState + 1, nfa2.startState + 1 + |nfa1.states|};
    assert result.states == copies[0 := NFAState(0, map[], {nfa1.startState + 1, nfa2.startState + 1 + |nfa1.states|}, false)];
  }

  method Alternate(nfa1: NFA, nfa2: NFA) returns (result: NFA)
    requires InRange(nfa1.acceptStates, |nfa1.states|) && InRange(nfa2.acceptStates, |nfa2.states|)
    ensures fresh(result) && result.Data() == AltSpec(nfa1.Data(), nfa2.Data())
  {
    var offset1, offset2, end;
    result, offset1, offset2, end := AltCopies(nfa1, nfa2);
    ghost var base := result.states;
    LinkAccepting(result, nfa1.acceptStates, offset1, |nfa1.states|, end);
    ghost var mid1 := result.states;
    LinkAccepting(result, nfa2.acceptStates, offset2, |nfa2.states|, end);
    AltStates(nfa1.Data(), nfa2.Data(), base, mid1, result.states);
    result.SetAccepting(end);
  }

  /** The last loop of `star`: each accepting state of the copied automaton
      (its states start at `offset`) gains epsilon edges to `end` and back
      to `back`, the copied start. */
  method LoopAccepting(result: NFA, accs: set<nat>, offset: nat, n: nat, end: nat, back: nat)
    requires InRange(accs, n) && offset + n <= |result.states|
    modifies result
    ensures |result.states| == old(|result.states|)
    ensures forall p :: 0 <= p < |result.states| ==>
              result.states[p] == (if offset <= p && p - offset in accs then WithEps(old(result.states[p]), {end, back})
                                   else old(result.states[p]))
    ensures result.alphabet == old(result.alphabet)
    ensures result.startState == old(result.startState)
    ensures result.acceptStates == old(result.acceptStates)
  {
    var todo := accs;
    while todo != {}
      invariant todo <= accs
      invariant |result.states| == old(|result.states|)
      invariant forall p :: 0 <= p < |result.states| ==>
                  result.states[p] == (if offset <= p && p - offset in accs - todo then WithEps(old(result.states[p]), {end, back})
                                       else old(result.states[p]))
      invariant result.alphabet == old(result.alphabet)
      invariant result.startState == old(result.startState)
      invariant result.acceptStates == old(result.acceptStates)
    {
      Inhabited(todo);
      var acc :| acc in todo;
      result.AddEpsilonTransition(acc + offset, end);
      result.AddEpsilonTransition(acc + offset, back);
      assert old(result.states[acc + offset]).epsilonTransitions + {end} + {back}
             == old(result.states[acc + offset]).epsilonTransitions + {end, back};
      todo := todo - {acc};
    }
  }

  /** The states `star` ends with are those of `StarSpec`. */
  lemma StarStates(a: NfaData, base: seq<NFAState>, mid: seq<NFAState>)
    requires InRange(a.acceptStates, |a.states|)
    requires base == ([FreshState(0)] + ShiftStates(a.states, 1) + [FreshState(|a.states| + 1)])
                     [0 := NFAState(0, map[], {a.startState + 1, |a.states| + 1}, false)]
    requires |mid| == |base| && forall p :: 0 <= p < |base| ==>
               mid[p] == (if 1 <= p && p - 1 in a.acceptStates
                          then WithEps(base[p], {|a.states| + 1, a.startState + 1}) else base[p])
    ensures |mid| == |a.states| + 2
    ensures mid[|a.states| + 1 := mid[|a.states| + 1].(isAccepting := true)] == StarSpec(a).states
  {
    var n := |a.states|;
    var end := n + 1;
    var fin := mid[end := mid[end].(isAccepting := true)];
    var spec := StarSpec(a).states;
    assert |spec| == |fin|;
    forall p | 0 <= p < |fin| ensures fin[p] == spec[p] {
      if 1 <= p <= n {
        assert base[p] == ShiftStates(a.states, 1)[p - 1];
        ghost var none: set<nat> := {};
        assert p - 1 !in a.acceptStates ==> base[p] == WithEps(base[p], none);
      }
    }
  }

  /** The first half of `star`: the new start state, the shifted copy, the
      new end and the two epsilon edges out of the start. */
  method StarCopies(nfa: NFA) returns (result: NFA, offset: nat, end: nat)
    ensures fresh(result)
    ensures offset == 1 && end == |nfa.states| + 1
    ensures result.states
            == ([FreshState(0)] + ShiftStates(nfa.states, 1) + [FreshState(end)])
               [0 := NFAState(0, map[], {nfa.startState + 1, end}, false)]
    ensures result.startState == 0 && result.acceptStates == {}
    ensures result.alphabet == Labels(nfa.states) - {'\0'}
  {
    result := new NFA();
    var start := result.AddState();
    result.startState := start;
    offset := AppendShifted(result, nfa);
    end := result.AddState();
    ghost var copies := result.states;
    result.AddEpsilonTransition(start, nfa.startState + offset);
    result.AddEpsilonTransition(start, end);
    ghost var none: set<nat> := {};
    assert none + {nfa.startState + 1} + {end} == {nfa.startState + 1, end};
    assert result.states == copies[0 := NFAState(0, map[], {nfa.startState + 1, end}, false)];
  }

  method Star(nfa: NFA) returns (result: NFA)
    requires InRange(nfa.acceptStates, |nfa.states|)
    ensures fresh(result) && result.Data() == StarSpec(nfa.Data())
  {
    var offset, end;
    result, offset, end := StarCopies(nfa);
    ghost var base := result.states;
    LoopAccepting(result, nfa.acceptStates, offset, |nfa.states|, end, nfa.startState + offset);
    StarStates(nfa.Data(), base, result.states);
    result.SetAccepting(end);
  }
}
