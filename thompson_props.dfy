/** What the four Thompson primitives guarantee: each turns well-formed
    operands into a well-formed automaton whose size, accept set and
    alphabet are determined by the operands'. */
module ThompsonProps {
  import opened Automata
  import opened Thompson

  // ---------------------------------------------------------------------------
  // Edges stay in range under shifting and extra epsilon edges

  lemma StateOkWider(st: NFAState, n: nat, m: nat)
    requires StateOk(st, n) && n <= m
    ensures StateOk(st, m)
  {
  }

  lemma ShiftedOk(st: NFAState, id: nat, k: nat, n: nat)
    requires StateOk(st, n)
    ensures StateOk(Shifted(st, id, k), n + k)
  {
    var sh := Shifted(st, id, k);
    ShiftSetIn(st.epsilonTransitions, k);
    forall c | c in sh.transitions
      ensures sh.transitions[c] != {} && InRange(sh.transitions[c], n + k)
    {
      var tos := st.transitions[c];
      ShiftSetIn(tos, k);
      Inhabited(tos);
      var x :| x in tos;
      assert x + k in sh.transitions[c];
    }
  }

  lemma WithEpsOk(st: NFAState, extra: set<nat>, n: nat)
    requires StateOk(st, n) && InRange(extra, n)
    ensures StateOk(WithEps(st, extra), n)
  {
  }

  // ---------------------------------------------------------------------------
  // Labels state by state

  lemma LabelsMember(s: seq<NFAState>)
    ensures forall c :: c in Labels(s) <==> exists i :: 0 <= i < |s| && c in StateLabels(s[i])
  {
    forall c ensures c in Labels(s) <==> exists i :: 0 <= i < |s| && c in StateLabels(s[i]) {
      if c in Labels(s) {
        var i :| 0 <= i < |s| && c in s[i].transitions && s[i].transitions[c] != {};
        assert c in StateLabels(s[i]);
      }
    }
  }

  lemma ShiftedLabels(st: NFAState, id: nat, k: nat)
    ensures StateLabels(Shifted(st, id, k)) == StateLabels(st)
  {
    var sh := Shifted(st, id, k);
    forall c | c in StateLabels(st) ensures c in StateLabels(sh) {
      var tos := st.transitions[c];
      ShiftSetIn(tos, k);
      Inhabited(tos);
      var x :| x in tos;
      assert x + k in sh.transitions[c];
    }
  }

  lemma SameTransitionsLabels(st: NFAState, other: NFAState)
    requires st.transitions == other.transitions
    ensures StateLabels(st) == StateLabels(other)
  {
  }

  // ---------------------------------------------------------------------------
  // charNFA

  /** `charNFA(c)` is well formed, has two states, accepts only its second
      state, and its alphabet is {c} unless c is the epsilon marker. */
  lemma CharWellFormed(c: char)
    ensures WellFormed(CharSpec(c))
    ensures |CharSpec(c).states| == 2 && CharSpec(c).startState == 0
    ensures CharSpec(c).acceptStates == {|CharSpec(c).states| - 1}
    ensures CharSpec(c).alphabet == {c} - {'\0'}
  {
    var a := CharSpec(c);
    assert StateLabels(a.states[0]) == {c};
    assert StateLabels(a.states[1]) == {};
    LabelsMember(a.states);
    assert Labels(a.states) == {c};
  }

  // ---------------------------------------------------------------------------
  // concatenate

  /** The labels of a sequence made of the states of u and then of v, each
      with the same labels as its original. */
  lemma JoinedLabels(t: seq<NFAState>, u: seq<NFAState>, v: seq<NFAState>)
    requires |t| == |u| + |v|
    requires forall i :: 0 <= i < |u| ==> StateLabels(t[i]) == StateLabels(u[i])
    requires forall i :: |u| <= i < |t| ==> StateLabels(t[i]) == StateLabels(v[i - |u|])
    ensures Labels(t) == Labels(u) + Labels(v)
  {
    LabelsMember(t);
    LabelsMember(u);
    LabelsMember(v);
    forall c | c in Labels(t) ensures c in Labels(u) + Labels(v) {
      var i :| 0 <= i < |t| && c in StateLabels(t[i]);
      if i < |u| {
        assert c in StateLabels(u[i]);
      } else {
        assert c in StateLabels(v[i - |u|]);
      }
    }
    forall c | c in Labels(u) + Labels(v) ensures c in Labels(t) {
      if c in Labels(u) {
        var i :| 0 <= i < |u| && c in StateLabels(u[i]);
        assert c in StateLabels(t[i]);
      } else {
        var j :| 0 <= j < |v| && c in StateLabels(v[j]);
        assert c in StateLabels(t[j + |u|]);
      }
    }
  }

  lemma ConcatLabels(a: NfaData, b: NfaData)
    ensures Labels(ConcatSpec(a, b).states) == Labels(a.states) + Labels(b.states)
  {
    ConcatLeftLabels(a, b);
    ConcatRightLabels(a, b);
    JoinedLabels(ConcatSpec(a, b).states, a.states, b.states);
  }

  lemma ConcatLeftLabels(a: NfaData, b: NfaData)
    ensures forall i :: 0 <= i < |a.states| ==> StateLabels(ConcatSpec(a, b).states[i]) == StateLabels(a.states[i])
  {
    forall i | 0 <= i < |a.states| ensures StateLabels(ConcatSpec(a, b).states[i]) == StateLabels(a.states[i]) {
      SameTransitionsLabels(ConcatSpec(a, b).states[i], a.states[i]);
    }
  }

  lemma ConcatRightLabels(a: NfaData, b: NfaData)
    ensures forall i :: |a.states| <= i < |ConcatSpec(a, b).states| ==>
              StateLabels(ConcatSpec(a, b).states[i]) == StateLabels(b.states[i - |a.states|])
  {
    var t, k := ConcatSpec(a, b).states, |a.states|;
    forall i | k <= i < |t| ensures StateLabels(t[i]) == StateLabels(b.states[i - k]) {
      SameTransitionsLabels(t[i], Shifted(b.states[i - k], i, k));
      ShiftedLabels(b.states[i - k], i, k);
    }
  }

  /** `concatenate(A, B)` has |A| + |B| states and keeps A's start; A's
      labelled edges are unchanged and its epsilon edges only grow, each
      accepting state of A gains an epsilon edge to B's shifted start, and
      the accept set is B's, shifted by |A|. */
  lemma ConcatShape(a: NfaData, b: NfaData)
    ensures |ConcatSpec(a, b).states| == |a.states| + |b.states|
    ensures ConcatSpec(a, b).startState == a.startState
    ensures forall p :: 0 <= p < |a.states| ==>
              ConcatSpec(a, b).states[p].transitions == a.states[p].transitions &&
              a.states[p].epsilonTransitions <= ConcatSpec(a, b).states[p].epsilonTransitions
    ensures forall q :: q in a.acceptStates && q < |a.states| ==>
              b.startState + |a.states| in ConcatSpec(a, b).states[q].epsilonTransitions
    ensures forall q :: q in ConcatSpec(a, b).acceptStates <==> q >= |a.states| && q - |a.states| in b.acceptStates
  {
    ShiftSetIn(b.acceptStates, |a.states|);
  }

  /** `concatenate(A, B)` of well-formed operands is well formed, and its
      alphabet is the union of the operands'. */
  lemma ConcatWellFormed(a: NfaData, b: NfaData)
    requires WellFormed(a) && WellFormed(b)
    ensures WellFormed(ConcatSpec(a, b))
    ensures ConcatSpec(a, b).alphabet == a.alphabet + b.alphabet
  {
    var r, k := ConcatSpec(a, b), |a.states|;
    var n := |r.states|;
    ShiftSetIn(b.acceptStates, k);
    forall p | 0 <= p < n ensures r.states[p].id == p && StateOk(r.states[p], n) {
      if p < k {
        StateOkWider(a.states[p], k, n);
        if p in a.acceptStates {
          WithEpsOk(a.states[p].(isAccepting := false), {b.startState + k}, n);
        }
      } else {
        ShiftedOk(b.states[p - k], p, k, |b.states|);
      }
    }
    forall p | 0 <= p < n ensures r.states[p].isAccepting <==> p in r.acceptStates {
      if p < k {
        assert p !in r.acceptStates;
      }
    }
    ConcatLabels(a, b);
  }

  // ---------------------------------------------------------------------------
  // alternate

  lemma AltStateLabels(a: NfaData, b: NfaData, i: nat)
    requires i < |a.states| + |b.states| + 2
    ensures StateLabels(AltState(a, b, i))
            == if i == 0 || i == |a.states| + |b.states| + 1 then {}
               else if i <= |a.states| then StateLabels(a.states[i - 1])
               else StateLabels(b.states[i - 1 - |a.states|])
  {
    var n1 := |a.states|;
    if 1 <= i <= n1 {
      SameTransitionsLabels(AltState(a, b, i), Shifted(a.states[i - 1], i, 1));
      ShiftedLabels(a.states[i - 1], i, 1);
    } else if n1 < i < n1 + |b.states| + 1 {
      SameTransitionsLabels(AltState(a, b, i), Shifted(b.states[i - 1 - n1], i, 1 + n1));
      ShiftedLabels(b.states[i - 1 - n1], i, 1 + n1);
    }
  }

  /** The labels of a sequence framed by two unlabelled states around the
      states of u and then of v, each with the same labels as its original. */
  lemma FramedLabels(t: seq<NFAState>, u: seq<NFAState>, v: seq<NFAState>)
    requires |t| == |u| + |v| + 2
    requires StateLabels(t[0]) == {} && StateLabels(t[|t| - 1]) == {}
    requires forall i :: 0 <= i < |u| ==> StateLabels(t[i + 1]) == StateLabels(u[i])
    requires forall j :: 0 <= j < |v| ==> StateLabels(t[j + 1 + |u|]) == StateLabels(v[j])
    ensures Labels(t) == Labels(u) + Labels(v)
  {
    LabelsMember(t);
    LabelsMember(u);
    LabelsMember(v);
    forall c | c in Labels(t) ensures c in Labels(u) + Labels(v) {
      var i :| 0 <= i < |t| && c in StateLabels(t[i]);
      if i <= |u| {
        assert c in StateLabels(u[i - 1]);
      } else {
        assert c in StateLabels(v[i - 1 - |u|]);
      }
    }
    forall c | c in Labels(u) + Labels(v) ensures c in Labels(t) {
      if c in Labels(u) {
        var i :| 0 <= i < |u| && c in StateLabels(u[i]);
        assert c in StateLabels(t[i + 1]);
      } else {
        var j :| 0 <= j < |v| && c in StateLabels(v[j]);
        assert c in StateLabels(t[j + 1 + |u|]);
      }
    }
  }

  lemma AltLabels(a: NfaData, b: NfaData)
    ensures Labels(AltSpec(a, b).states) == Labels(a.states) + Labels(b.states)
  {
    AltEndsUnlabelled(a, b);
    AltLeftLabels(a, b);
    AltRightLabels(a, b);
    FramedLabels(AltSpec(a, b).states, a.states, b.states);
  }

  lemma AltEndsUnlabelled(a: NfaData, b: NfaData)
    ensures StateLabels(AltSpec(a, b).states[0]) == {}
    ensures StateLabels(AltSpec(a, b).states[|a.states| + |b.states| + 1]) == {}
  {
    AltStateLabels(a, b, 0);
    AltStateLabels(a, b, |a.states| + |b.states| + 1);
  }

  lemma AltLeftLabels(a: NfaData, b: NfaData)
    ensures forall i :: 0 <= i < |a.states| ==> StateLabels(AltSpec(a, b).states[i + 1]) == StateLabels(a.states[i])
  {
    forall i | 0 <= i < |a.states| ensures StateLabels(AltSpec(a, b).states[i + 1]) == StateLabels(a.states[i]) {
      AltStateLabels(a, b, i + 1);
    }
  }

  lemma AltRightLabels(a: NfaData, b: NfaData)
    ensures forall j :: 0 <= j < |b.states| ==>
              StateLabels(AltSpec(a, b).states[j + 1 + |a.states|]) == StateLabels(b.states[j])
  {
    forall j | 0 <= j < |b.states| ensures StateLabels(AltSpec(a, b).states[j + 1 + |a.states|]) == StateLabels(b.states[j]) {
      AltStateLabels(a, b, j + 1 + |a.states|);
    }
  }

  lemma AltStateOk(a: NfaData, b: NfaData, p: nat)
    requires Arena(a.states) && Arena(b.states)
    requires a.startState < |a.states| && b.startState < |b.states|
    requires p < |a.states| + |b.states| + 2
    ensures AltState(a, b, p).id == p && StateOk(AltState(a, b, p), |a.states| + |b.states| + 2)
  {
    var n1, n := |a.states|, |a.states| + |b.states| + 2;
    if 1 <= p <= n1 {
      WrappedOk(a.states[p - 1], p, 1, n1, n, p - 1 in a.acceptStates);
    } else if n1 < p < n - 1 {
      WrappedOk(b.states[p - 1 - n1], p, 1 + n1, |b.states|, n, p - 1 - n1 in b.acceptStates);
    }
  }

  /** A state of an operand of size m, shifted by k into an automaton of n
      states, with an epsilon edge to the last state when `toEnd`. */
  lemma WrappedOk(st: NFAState, p: nat, k: nat, m: nat, n: nat, toEnd: bool)
    requires StateOk(st, m) && m + k < n
    ensures StateOk(WithEps(Shifted(st, p, k), if toEnd then {n - 1} else {}), n)
    ensures WithEps(Shifted(st, p, k), if toEnd then {n - 1} else {}).id == p
  {
    ShiftedOk(st, p, k, m);
    StateOkWider(Shifted(st, p, k), m + k, n);
    WithEpsOk(Shifted(st, p, k), if toEnd then {n - 1} else {}, n);
  }

  lemma AltArena(a: NfaData, b: NfaData)
    requires Arena(a.states) && Arena(b.states)
    requires a.startState < |a.states| && b.startState < |b.states|
    ensures Arena(AltSpec(a, b).states)
  {
    var r := AltSpec(a, b);
    forall p | 0 <= p < |r.states| ensures r.states[p].id == p && StateOk(r.states[p], |r.states|) {
      AltStateOk(a, b, p);
    }
  }

  /** `alternate(A, B)` has |A| + |B| + 2 states, starts at 0 and accepts
      only its last state; its start has exactly the two epsilon edges into
      the operands' shifted starts, every accepting state of A and of B
      (shifted) reaches the end by epsilon, and the end has no edges. */
  lemma AltShape(a: NfaData, b: NfaData)
    ensures |AltSpec(a, b).states| == |a.states| + |b.states| + 2
    ensures AltSpec(a, b).startState == 0
    ensures AltSpec(a, b).acceptStates == {|AltSpec(a, b).states| - 1}
    ensures AltSpec(a, b).states[0] == NFAState(0, map[], {a.startState + 1, b.startState + 1 + |a.states|}, false)
    ensures forall q :: q in a.acceptStates && q < |a.states| ==>
              |AltSpec(a, b).states| - 1 in AltSpec(a, b).states[q + 1].epsilonTransitions
    ensures forall q :: q in b.acceptStates && q < |b.states| ==>
              |AltSpec(a, b).states| - 1 in AltSpec(a, b).states[q + 1 + |a.states|].epsilonTransitions
    ensures AltSpec(a, b).states[|AltSpec(a, b).states| - 1] == NFAState(|AltSpec(a, b).states| - 1, map[], {}, true)
  {
    var r := AltSpec(a, b);
    forall q | q in a.acceptStates && q < |a.states|
      ensures |r.states| - 1 in r.states[q + 1].epsilonTransitions
    {
      assert r.states[q + 1] == AltState(a, b, q + 1);
    }
    forall q | q in b.acceptStates && q < |b.states|
      ensures |r.states| - 1 in r.states[q + 1 + |a.states|].epsilonTransitions
    {
      assert r.states[q + 1 + |a.states|] == AltState(a, b, q + 1 + |a.states|);
    }
  }

  /** `alternate(A, B)` of well-formed operands is well formed, and its
      alphabet is the union of the operands'. */
  lemma AltWellFormed(a: NfaData, b: NfaData)
    requires WellFormed(a) && WellFormed(b)
    ensures WellFormed(AltSpec(a, b))
    ensures AltSpec(a, b).alphabet == a.alphabet + b.alphabet
  {
    var r := AltSpec(a, b);
    AltArena(a, b);
    forall p | 0 <= p < |r.states| ensures r.states[p].isAccepting <==> p in r.acceptStates {
      assert r.states[p] == AltState(a, b, p);
    }
    AltLabels(a, b);
  }

  // ---------------------------------------------------------------------------
  // star

  lemma StarLabels(a: NfaData)
    ensures Labels(StarSpec(a).states) == Labels(a.states)
  {
    var t, n := StarSpec(a).states, |a.states|;
    LabelsMember(t);
    LabelsMember(a.states);
    forall i | 0 <= i < |t|
      ensures StateLabels(t[i]) == if i == 0 || i == n + 1 then {} else StateLabels(a.states[i - 1])
    {
      if 1 <= i <= n {
        SameTransitionsLabels(t[i], Shifted(a.states[i - 1], i, 1));
        ShiftedLabels(a.states[i - 1], i, 1);
      }
    }
    forall c | c in Labels(a.states) ensures c in Labels(t) {
      var i :| 0 <= i < n && c in StateLabels(a.states[i]);
      assert c in StateLabels(t[i + 1]);
    }
  }

  /** `star(A)` has |A| + 2 states, starts at 0 and accepts only its last
      state; the start reaches both A's shifted start and the end by
      epsilon, and every accepting state of A (shifted) reaches the end and
      loops back to A's shifted start. */
  lemma StarShape(a: NfaData)
    ensures |StarSpec(a).states| == |a.states| + 2
    ensures StarSpec(a).startState == 0
    ensures StarSpec(a).acceptStates == {|StarSpec(a).states| - 1}
    ensures StarSpec(a).states[0] == NFAState(0, map[], {a.startState + 1, |StarSpec(a).states| - 1}, false)
    ensures forall q :: q in a.acceptStates && q < |a.states| ==>
              a.startState + 1 in StarSpec(a).states[q + 1].epsilonTransitions &&
              |StarSpec(a).states| - 1 in StarSpec(a).states[q + 1].epsilonTransitions
    ensures StarSpec(a).states[|StarSpec(a).states| - 1] == NFAState(|StarSpec(a).states| - 1, map[], {}, true)
  {
  }

  /** `star(A)` of a well-formed operand is well formed, and its alphabet is
      A's. */
  lemma StarWellFormed(a: NfaData)
    requires WellFormed(a)
    ensures WellFormed(StarSpec(a))
    ensures StarSpec(a).alphabet == a.alphabet
  {
    var r, na := StarSpec(a), |a.states|;
    var n := |r.states|;
    forall p | 0 <= p < n ensures r.states[p].id == p && StateOk(r.states[p], n) {
      if 1 <= p <= na {
        ShiftedOk(a.states[p - 1], p, 1, na);
        StateOkWider(Shifted(a.states[p - 1], p, 1), na + 1, n);
      }
    }
    StarLabels(a);
  }
}
