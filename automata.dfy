/** The automaton model: NFA states and the NFA arena, the DFA container and
    its matcher (`NFAState`, `NFA`, `DFA` of flqn1.cpp and flqn2.cpp). */
module Automata {
  import opened Wrappers

  /** One NFA state: its identity, its labelled edges (a symbol may lead to
      several states), its epsilon edges and its accepting flag. */
  datatype NFAState = NFAState(id: nat, transitions: map<char, set<nat>>,
                               epsilonTransitions: set<nat>, isAccepting: bool)

  /** The state built by `NFAState(id)`: not accepting, no edges. */
  function FreshState(id: nat): NFAState {
    NFAState(id, map[], {}, false)
  }

  /** `transitions[symbol].insert(to)`: operator[] first creates an empty set. */
  function InsertTarget(m: map<char, set<nat>>, symbol: char, to: nat): map<char, set<nat>> {
    m[symbol := (if symbol in m then m[symbol] else {}) + {to}]
  }

  /** The value held by an `NFA` object. */
  datatype NfaData = NfaData(states: seq<NFAState>, startState: nat,
                             acceptStates: set<nat>, alphabet: set<char>)

  predicate InRange(s: set<nat>, n: nat) {
    forall t :: t in s ==> t < n
  }

  /** Every symbol that labels an edge with at least one destination. */
  function Labels(states: seq<NFAState>): set<char> {
    set i, c | 0 <= i < |states| && c in states[i].transitions && states[i].transitions[c] != {} :: c
  }

  /** Every edge of `st` leads into 0..n-1 and no label has an empty target set. */
  predicate StateOk(st: NFAState, n: nat) {
    && InRange(st.epsilonTransitions, n)
    && forall c :: c in st.transitions ==> st.transitions[c] != {} && InRange(st.transitions[c], n)
  }

  /** Identities are the indices, every edge target is a valid identity. */
  predicate Arena(states: seq<NFAState>) {
    forall i :: 0 <= i < |states| ==> states[i].id == i && StateOk(states[i], |states|)
  }

  /** The per-state flag and the global accept set agree. */
  predicate AcceptSynced(a: NfaData) {
    && InRange(a.acceptStates, |a.states|)
    && forall i :: 0 <= i < |a.states| ==> (a.states[i].isAccepting <==> i in a.acceptStates)
  }

  /** The alphabet is exactly the set of symbols in use, without the epsilon marker. */
  predicate AlphabetExact(a: NfaData) {
    a.alphabet == Labels(a.states) - {'\0'}
  }

  /** The invariant of every NFA the construction produces. */
  predicate WellFormed(a: NfaData) {
    && 0 <= a.startState < |a.states|
    && Arena(a.states)
    && AcceptSynced(a)
    && AlphabetExact(a)
  }

  /** A non-empty set has an element (used before each `:|` choice). */
  lemma Inhabited<T>(s: set<T>)
    requires s != {}
    ensures exists x :: x in s
  {
  }

  lemma LabelsAppendFresh(states: seq<NFAState>, id: nat)
    ensures Labels(states + [FreshState(id)]) == Labels(states)
  {
    var s := states + [FreshState(id)];
    forall c | c in Labels(s) ensures c in Labels(states) {
      var i :| 0 <= i < |s| && c in s[i].transitions && s[i].transitions[c] != {};
      assert i < |states|;
      assert states[i] == s[i];
    }
    forall c | c in Labels(states) ensures c in Labels(s) {
      var i :| 0 <= i < |states| && c in states[i].transitions && states[i].transitions[c] != {};
      assert s[i] == states[i];
    }
  }

  lemma LabelsInsert(states: seq<NFAState>, from: nat, symbol: char, to: nat)
    requires 0 <= from < |states|
    ensures Labels(states[from := states[from].(transitions := InsertTarget(states[from].transitions, symbol, to))])
            == Labels(states) + {symbol}
  {
    var s := states[from := states[from].(transitions := InsertTarget(states[from].transitions, symbol, to))];
    forall c | c in Labels(s) ensures c in Labels(states) + {symbol} {
      var i :| 0 <= i < |s| && c in s[i].transitions && s[i].transitions[c] != {};
      if i != from {
        assert s[i] == states[i];
      } else if c != symbol {
        assert states[i].transitions[c] == s[i].transitions[c];
      }
    }
    forall c | c in Labels(states) + {symbol} ensures c in Labels(s) {
      if c == symbol {
        assert to in s[from].transitions[c];
      } else {
        var i :| 0 <= i < |states| && c in states[i].transitions && states[i].transitions[c] != {};
        if i != from {
          assert s[i] == states[i];
        } else {
          assert s[i].transitions[c] == states[i].transitions[c];
        }
      }
    }
  }

  lemma LabelsOtherFields(states: seq<NFAState>, i: int, st: NFAState)
    requires 0 <= i < |states| && st.transitions == states[i].transitions
    ensures Labels(states[i := st]) == Labels(states)
  {
    var s := states[i := st];
    forall c | c in Labels(s) ensures c in Labels(states) {
      var j :| 0 <= j < |s| && c in s[j].transitions && s[j].transitions[c] != {};
      assert states[j].transitions == s[j].transitions;
    }
    forall c | c in Labels(states) ensures c in Labels(s) {
      var j :| 0 <= j < |states| && c in states[j].transitions && states[j].transitions[c] != {};
      assert states[j].transitions == s[j].transitions;
    }
  }

  /** The value after `addState()`: a fresh state whose identity is the old size. */
  function AddStateSpec(a: NfaData): NfaData {
    a.(states := a.states + [FreshState(|a.states|)])
  }

  /** The value after `addTransition(from, symbol, to)`; the symbol joins the
      alphabet unless it is the epsilon marker '\0'. */
  function AddTransitionSpec(a: NfaData, from: nat, symbol: char, to: nat): NfaData
    requires from < |a.states|
  {
    a.(states := a.states[from := a.states[from].(transitions := InsertTarget(a.states[from].transitions, symbol, to))],
       alphabet := if symbol != '\0' then a.alphabet + {symbol} else a.alphabet)
  }

  /** The value after `addEpsilonTransition(from, to)`. */
  function AddEpsilonSpec(a: NfaData, from: nat, to: nat): NfaData
    requires from < |a.states|
  {
    a.(states := a.states[from := a.states[from].(epsilonTransitions := a.states[from].epsilonTransitions + {to})])
  }

  /** The value after `setAccepting(state)`. */
  function SetAcceptingSpec(a: NfaData, state: nat): NfaData
    requires state < |a.states|
  {
    a.(states := a.states[state := a.states[state].(isAccepting := true)],
       acceptStates := a.acceptStates + {state})
  }

  /** `addState` keeps each part of the invariant, and the new state's
      identity is its index. */
  lemma AddStatePreserves(a: NfaData)
    ensures |AddStateSpec(a).states| == |a.states| + 1
    ensures AddStateSpec(a).states[|a.states|] == FreshState(|a.states|)
    ensures Arena(a.states) ==> Arena(AddStateSpec(a).states)
    ensures AcceptSynced(a) ==> AcceptSynced(AddStateSpec(a))
    ensures AlphabetExact(a) ==> AlphabetExact(AddStateSpec(a))
    ensures WellFormed(a) ==> WellFormed(AddStateSpec(a))
  {
    LabelsAppendFresh(a.states, |a.states|);
  }

  /** `addTransition` keeps the invariant when the target exists, and the
      symbol is then in use. */
  lemma AddTransitionPreserves(a: NfaData, from: nat, symbol: char, to: nat)
    requires from < |a.states|
    ensures to in AddTransitionSpec(a, from, symbol, to).states[from].transitions[symbol]
    ensures Arena(a.states) && to < |a.states| ==> Arena(AddTransitionSpec(a, from, symbol, to).states)
    ensures AcceptSynced(a) ==> AcceptSynced(AddTransitionSpec(a, from, symbol, to))
    ensures AlphabetExact(a) ==> AlphabetExact(AddTransitionSpec(a, from, symbol, to))
    ensures WellFormed(a) && to < |a.states| ==> WellFormed(AddTransitionSpec(a, from, symbol, to))
  {
    LabelsInsert(a.states, from, symbol, to);
  }

  /** `addEpsilonTransition` keeps the invariant when the target exists. */
  lemma AddEpsilonPreserves(a: NfaData, from: nat, to: nat)
    requires from < |a.states|
    ensures to in AddEpsilonSpec(a, from, to).states[from].epsilonTransitions
    ensures Arena(a.states) && to < |a.states| ==> Arena(AddEpsilonSpec(a, from, to).states)
    ensures AcceptSynced(a) ==> AcceptSynced(AddEpsilonSpec(a, from, to))
    ensures AlphabetExact(a) ==> AlphabetExact(AddEpsilonSpec(a, from, to))
    ensures WellFormed(a) && to < |a.states| ==> WellFormed(AddEpsilonSpec(a, from, to))
  {
    LabelsOtherFields(a.states, from, a.states[from].(epsilonTransitions := a.states[from].epsilonTransitions + {to}));
  }

  /** `setAccepting` keeps the invariant; flag and accept set agree on the
      marked state. */
  lemma SetAcceptingPreserves(a: NfaData, state: nat)
    requires state < |a.states|
    ensures SetAcceptingSpec(a, state).states[state].isAccepting && state in SetAcceptingSpec(a, state).acceptStates
    ensures Arena(a.states) ==> Arena(SetAcceptingSpec(a, state).states)
    ensures AcceptSynced(a) ==> AcceptSynced(SetAcceptingSpec(a, state))
    ensures AlphabetExact(a) ==> AlphabetExact(SetAcceptingSpec(a, state))
    ensures WellFormed(a) ==> WellFormed(SetAcceptingSpec(a, state))
  {
    LabelsOtherFields(a.states, state, a.states[state].(isAccepting := true));
  }

  /** An NFA under construction (class NFA). */
  class NFA {
    var states: seq<NFAState>
    var startState: nat
    var acceptStates: set<nat>
    var alphabet: set<char>

    function Data(): NfaData
      reads this
    {
      NfaData(states, startState, acceptStates, alphabet)
    }

    /** `NFA() : startState(0) {}`: no states, start 0, nothing accepting. */
    constructor ()
      ensures Data() == NfaData([], 0, {}, {})
    {
      states, startState, acceptStates, alphabet := [], 0, {}, {};
    }

    /** The copy made by `NFA result = nfa1;`. */
    constructor Copy(other: NFA)
      ensures Data() == other.Data()
    {
      states, startState, acceptStates, alphabet :=
        other.states, other.startState, other.acceptStates, other.alphabet;
    }

    /** Appends a fresh state and returns its identity, the old size. */
    method AddState() returns (id: nat)
      modifies this
      ensures id == old(|states|) && Data() == AddStateSpec(old(Data()))
      ensures states == old(states) + [FreshState(id)]
      ensures startState == old(startState) && acceptStates == old(acceptStates)
      ensures alphabet == old(alphabet)
    {
      id := |states|;
      states := states + [FreshState(id)];
    }

    /** Adds the edge from --symbol--> to; the symbol joins the alphabet unless
        it is the epsilon marker '\0'. */
    method AddTransition(from: nat, symbol: char, to: nat)
      requires 0 <= from < |states|
      modifies this
      ensures states == old(states)[from := old(states[from]).(transitions :=
                InsertTarget(old(states[from].transitions), symbol, to))]
      ensures alphabet == if symbol != '\0' then old(alphabet) + {symbol} else old(alphabet)
      ensures Data() == AddTransitionSpec(old(Data()), from, symbol, to)
      ensures startState == old(startState) && acceptStates == old(acceptStates)
    {
      states := states[from := states[from].(transitions := InsertTarget(states[from].transitions, symbol, to))];
      if symbol != '\0' {
        alphabet := alphabet + {symbol};
      }
    }

    /** Adds the epsilon edge from --> to and changes nothing else. */
    method AddEpsilonTransition(from: nat, to: nat)
      requires 0 <= from < |states|
      modifies this
      ensures states == old(states)[from := old(states[from]).(epsilonTransitions :=
                old(states[from].epsilonTransitions) + {to})]
      ensures Data() == AddEpsilonSpec(old(Data()), from, to)
      ensures startState == old(startState) && acceptStates == old(acceptStates)
      ensures alphabet == old(alphabet)
    {
      states := states[from := states[from].(epsilonTransitions := states[from].epsilonTransitions + {to})];
    }

    /** Marks `state` accepting in both the per-state flag and the accept set. */
    method SetAccepting(state: nat)
      requires 0 <= state < |states|
      modifies this
      ensures states == old(states)[state := old(states[state]).(isAccepting := true)]
      ensures acceptStates == old(acceptStates) + {state}
      ensures Data() == SetAcceptingSpec(old(Data()), state)
      ensures startState == old(startState) && alphabet == old(alphabet)
    {
      states := states[state := states[state].(isAccepting := true)];
      acceptStates := acceptStates + {state};
    }
  }

  /** The value held by a `DFA` object. */
  datatype DfaData = DfaData(stateMap: map<set<nat>, nat>, dfaStates: seq<set<nat>>,
                             transitions: map<nat, map<char, nat>>, startState: nat,
                             acceptStates: set<nat>, alphabet: set<char>)

  /** The (state, symbol) entry of the partial transition table, if recorded. */
  function Lookup(t: map<nat, map<char, nat>>, q: nat, c: char): Option<nat> {
    if q in t && c in t[q] then Some(t[q][c]) else None
  }

  /** Where the matcher stands after reading `w` from `q`; None when it gives
      up on a symbol outside the alphabet or on a missing transition. */
  function Run(d: DfaData, q: nat, w: string): Option<nat>
    decreases |w|
  {
    if w == [] then Some(q)
    else if w[0] !in d.alphabet then None
    else match Lookup(d.transitions, q, w[0])
      case None => None
      case Some(p) => Run(d, p, w[1..])
  }

  /** The verdict of `DFA::validate` on `w`. */
  predicate Matches(d: DfaData, w: string) {
    var r := Run(d, d.startState, w);
    r.Some? && r.value in d.acceptStates
  }

  /** The empty input is accepted exactly when the start state is accepting. */
  lemma MatchesEmpty(d: DfaData)
    ensures Matches(d, []) <==> d.startState in d.acceptStates
  {
  }

  /** A symbol outside the alphabet anywhere in the input means rejection. */
  lemma {:induction false} RunOutsideAlphabet(d: DfaData, q: nat, w: string, k: int)
    requires 0 <= k < |w| && w[k] !in d.alphabet
    ensures Run(d, q, w) == None
    decreases |w|
  {
    if k > 0 && w[0] in d.alphabet {
      match Lookup(d.transitions, q, w[0])
      case None =>
      case Some(p) => RunOutsideAlphabet(d, p, w[1..], k - 1);
    }
  }

  /** Reading u then v is reading u + v: the matcher keeps no other memory. */
  lemma {:induction false} RunAppend(d: DfaData, q: nat, u: string, v: string)
    ensures Run(d, q, u + v) == match Run(d, q, u) case None => None case Some(p) => Run(d, p, v)
    decreases |u|
  {
    if u != [] {
      assert (u + v)[0] == u[0] && (u + v)[1..] == u[1..] + v;
      if u[0] in d.alphabet {
        match Lookup(d.transitions, q, u[0])
        case None =>
        case Some(p) => RunAppend(d, p, u[1..], v);
      }
    } else {
      assert u + v == v;
    }
  }

  /** Runs depend on the table only through its (state, symbol) entries. */
  lemma {:induction false} SameLookupsRun(d: DfaData, e: DfaData, q: nat, w: string)
    requires d.alphabet == e.alphabet
    requires forall p, c :: Lookup(d.transitions, p, c) == Lookup(e.transitions, p, c)
    ensures Run(d, q, w) == Run(e, q, w)
    decreases |w|
  {
    if w != [] && w[0] in d.alphabet {
      match Lookup(d.transitions, q, w[0])
      case None =>
      case Some(p) => SameLookupsRun(d, e, p, w[1..]);
    }
  }

  /** Two DFAs with the same start, accepting set, alphabet and entries
      accept the same inputs. */
  lemma SameLookupsMatches(d: DfaData, e: DfaData)
    requires d.alphabet == e.alphabet && d.startState == e.startState
    requires d.acceptStates == e.acceptStates
    requires forall p, c :: Lookup(d.transitions, p, c) == Lookup(e.transitions, p, c)
    ensures forall w :: Matches(d, w) == Matches(e, w)
  {
    forall w ensures Matches(d, w) == Matches(e, w) {
      SameLookupsRun(d, e, d.startState, w);
    }
  }

  /** The DFA built by subset construction (class DFA). */
  class DFA {
    var stateMap: map<set<nat>, nat>
    var dfaStates: seq<set<nat>>
    var transitions: map<nat, map<char, nat>>
    var startState: nat
    var acceptStates: set<nat>
    var alphabet: set<char>

    function Data(): DfaData
      reads this
    {
      DfaData(stateMap, dfaStates, transitions, startState, acceptStates, alphabet)
    }

    /** The implicit default constructor: empty containers; `startState` is
        left indeterminate, as in the source, until the converter sets it. */
    constructor ()
      ensures stateMap == map[] && dfaStates == [] && transitions == map[]
      ensures acceptStates == {} && alphabet == {}
    {
      stateMap, dfaStates, transitions, acceptStates, alphabet := map[], [], map[], {}, {};
    }

    /** `DFA::validate`: runs the input from the start state. Each step's
        `transitions[currentState]` may insert an empty row, which changes
        no (state, symbol) entry. */
    method Validate(str: string) returns (ok: bool)
      modifies this
      ensures ok == Matches(old(Data()), str)
      ensures forall q, c :: Lookup(transitions, q, c) == Lookup(old(transitions), q, c)
      ensures old(transitions).Keys <= transitions.Keys
      ensures stateMap == old(stateMap) && dfaStates == old(dfaStates)
      ensures startState == old(startState) && acceptStates == old(acceptStates)
      ensures alphabet == old(alphabet)
      ensures forall w :: Matches(Data(), w) == Matches(old(Data()), w)
    {
      var currentState := startState;
      var i := 0;
      while i < |str|
        invariant 0 <= i <= |str|
        invariant Run(old(Data()), old(startState), str) == Run(old(Data()), currentState, str[i..])
        invariant forall q, c :: Lookup(transitions, q, c) == Lookup(old(transitions), q, c)
        invariant old(transitions).Keys <= transitions.Keys
        invariant stateMap == old(stateMap) && dfaStates == old(dfaStates)
        invariant startState == old(startState) && acceptStates == old(acceptStates)
        invariant alphabet == old(alphabet)
      {
        var c := str[i];
        if c !in alphabet {
          SameLookupsMatches(Data(), old(Data()));
          return false;
        }
        if currentState !in transitions {
          transitions := transitions[currentState := map[]];
        }
        if c in transitions[currentState] {
          currentState := transitions[currentState][c];
        } else {
          SameLookupsMatches(Data(), old(Data()));
          return false;
        }
        i := i + 1;
      }
      ok := currentState in acceptStates;
      SameLookupsMatches(Data(), old(Data()));
    }
  }
}
