/** Subset construction: `epsilonClosure`, `move` and `convert` of
    `RegexToDFA` (flqn1.cpp and flqn2.cpp), over the NFA value the parser
    returns. */
module Subset {
  import opened Wrappers
  import opened Automata

  // ---------------------------------------------------------------------------
  // Index sets and their subsets

  /** The state identities 0..n-1. */
  function Range(n: nat): (r: set<nat>)
    ensures forall i: nat :: i in r <==> i < n
    decreases n
  {
    if n == 0 then {} else var m: nat := n - 1; Range(m) + {m}
  }

  function Pow2(n: nat): nat {
    if n == 0 then 1 else 2 * Pow2(n - 1)
  }

  /** Each set of p with m added. */
  function AddEach(p: set<set<nat>>, m: nat): set<set<nat>> {
    set X | X in p :: X + {m}
  }

  /** Every set of identities below n. */
  function AllSubsets(n: nat): set<set<nat>>
    decreases n
  {
    if n == 0 then {{}} else AllSubsets(n - 1) + AddEach(AllSubsets(n - 1), n - 1)
  }

  lemma {:induction false} AllSubsetsSound(n: nat, X: set<nat>)
    requires X in AllSubsets(n)
    ensures InRange(X, n)
    decreases n
  {
    if n > 0 {
      var m: nat := n - 1;
      var p := AllSubsets(m);
      if X in p {
        AllSubsetsSound(m, X);
      } else {
        var Z :| Z in p && X == Z + {m};
        AllSubsetsSound(m, Z);
      }
    }
  }

  lemma {:induction false} AllSubsetsComplete(n: nat, X: set<nat>)
    requires InRange(X, n)
    ensures X in AllSubsets(n)
    decreases n
  {
    if n == 0 {
      assert forall t :: t !in X;
      assert X == {};
    } else {
      var m: nat := n - 1;
      var p := AllSubsets(m);
      var Y := X - {m};
      assert InRange(Y, m);
      AllSubsetsComplete(m, Y);
      if m in X {
        assert X == Y + {m};
        assert X in AddEach(p, m);
      } else {
        assert X == Y;
      }
    }
  }

  /** AllSubsets(n) holds exactly the sets of identities below n. */
  lemma AllSubsetsMember(n: nat, X: set<nat>)
    ensures X in AllSubsets(n) <==> InRange(X, n)
  {
    if X in AllSubsets(n) {
      AllSubsetsSound(n, X);
    }
    if InRange(X, n) {
      AllSubsetsComplete(n, X);
    }
  }

  lemma AddEachSplit(p: set<set<nat>>, m: nat, Y: set<nat>)
    requires Y in p
    ensures AddEach(p, m) == AddEach(p - {Y}, m) + {Y + {m}}
  {
    forall X | X in AddEach(p, m) ensures X in AddEach(p - {Y}, m) + {Y + {m}} {
      var Z :| Z in p && X == Z + {m};
      if Z != Y {
        assert Z in p - {Y};
      }
    }
  }

  lemma AddEachMiss(q: set<set<nat>>, m: nat, Y: set<nat>)
    requires Y !in q && m !in Y && forall X :: X in q ==> m !in X
    ensures Y + {m} !in AddEach(q, m)
  {
    forall Z | Z in q ensures Z + {m} != Y + {m} {
      assert (Z + {m}) - {m} == Z;
      assert (Y + {m}) - {m} == Y;
    }
  }

  /** Adding one fresh element to each set is one-to-one. */
  lemma {:induction false} AddEachCard(p: set<set<nat>>, m: nat)
    requires forall X :: X in p ==> m !in X
    ensures |AddEach(p, m)| == |p|
    decreases p
  {
    if p != {} {
      var Y :| Y in p;
      var q := p - {Y};
      AddEachCard(q, m);
      AddEachSplit(p, m, Y);
      AddEachMiss(q, m, Y);
    }
  }

  lemma AddEachDisjoint(p: set<set<nat>>, m: nat)
    requires forall X :: X in p ==> m !in X
    ensures p !! AddEach(p, m)
  {
    forall X | X in AddEach(p, m) ensures m in X {
      var Z :| Z in p && X == Z + {m};
    }
  }

  /** No set of identities below m holds m. */
  lemma BelowMissing(m: nat)
    ensures forall X :: X in AllSubsets(m) ==> m !in X
  {
    forall X | X in AllSubsets(m) ensures m !in X {
      AllSubsetsSound(m, X);
    }
  }

  /** There are 2^n sets of identities below n. */
  lemma {:induction false} AllSubsetsCard(n: nat)
    ensures |AllSubsets(n)| == Pow2(n)
  {
    if n == 0 {
      SingletonCard<set<nat>>({});
    } else {
      calc {
        |AllSubsets(n)|;
      == { DoublingStep(n); }
        2 * |AllSubsets(n - 1)|;
      == { AllSubsetsCard(n - 1); }
        2 * Pow2(n - 1);
      }
    }
  }

  lemma DoublingStep(n: nat)
    requires n > 0
    ensures |AllSubsets(n)| == 2 * |AllSubsets(n - 1)|
  {
    BelowMissing(n - 1);
    SplitCard(AllSubsets(n), AllSubsets(n - 1), n - 1);
  }

  lemma SplitCard(all: set<set<nat>>, p: set<set<nat>>, m: nat)
    requires forall X :: X in p ==> m !in X
    requires all == p + AddEach(p, m)
    ensures |all| == 2 * |p|
  {
    AddEachCard(p, m);
    AddEachDisjoint(p, m);
    DisjointUnionCard(p, AddEach(p, m));
  }

  lemma SingletonCard<T>(x: T)
    ensures |{x}| == 1
  {
  }

  lemma DisjointUnionCard<T>(a: set<T>, b: set<T>)
    requires a !! b
    ensures |a + b| == |a| + |b|
  {
  }

  /** The set of entries of a sequence without repetitions has its length. */
  lemma {:induction false} DistinctCard(s: seq<set<nat>>)
    requires forall i, j :: 0 <= i < j < |s| ==> s[i] != s[j]
    ensures |set i | 0 <= i < |s| :: s[i]| == |s|
  {
    if s != [] {
      var s' := s[..|s| - 1];
      DistinctCard(s');
      var e := set i | 0 <= i < |s| :: s[i];
      var e' := set i | 0 <= i < |s'| :: s'[i];
      assert e == e' + {s[|s| - 1]};
      assert s[|s| - 1] !in e';
    }
  }

  // ---------------------------------------------------------------------------
  // Epsilon closure, declaratively

  /** Every epsilon edge out of Z stays in Z. */
  predicate EpsClosed(a: NfaData, Z: set<nat>) {
    forall q, t :: q in Z && q < |a.states| && t in a.states[q].epsilonTransitions ==> t in Z
  }

  /** X together with the targets of one epsilon edge out of X. */
  function EpsStep(a: NfaData, X: set<nat>): set<nat>
    requires InRange(X, |a.states|)
  {
    X + set q, t | q in X && t in a.states[q].epsilonTransitions :: t
  }

  /** The epsilon closure of X: EpsStep repeated until nothing changes. */
  function Closure(a: NfaData, X: set<nat>): (r: set<nat>)
    requires Arena(a.states) && InRange(X, |a.states|)
    ensures InRange(r, |a.states|)
    decreases Range(|a.states|) - X
  {
    var Y := EpsStep(a, X);
    if Y == X then X
    else
      assert Range(|a.states|) - Y < Range(|a.states|) - X by {
        var t :| t in Y && t !in X;
        assert t in Range(|a.states|) - X;
      }
      Closure(a, Y)
  }

  /** The closure contains its seed. */
  lemma {:induction false} ClosureGrows(a: NfaData, X: set<nat>)
    requires Arena(a.states) && InRange(X, |a.states|)
    ensures X <= Closure(a, X)
    decreases Range(|a.states|) - X
  {
    var Y := EpsStep(a, X);
    if Y != X {
      var t :| t in Y && t !in X;
      assert t in Range(|a.states|) - X;
      ClosureGrows(a, Y);
    }
  }

  /** The closure is closed under epsilon edges. */
  lemma {:induction false} ClosureClosed(a: NfaData, X: set<nat>)
    requires Arena(a.states) && InRange(X, |a.states|)
    ensures EpsClosed(a, Closure(a, X))
    decreases Range(|a.states|) - X
  {
    var Y := EpsStep(a, X);
    if Y == X {
      forall q, t | q in X && q < |a.states| && t in a.states[q].epsilonTransitions ensures t in X {
        assert t in Y;
      }
    } else {
      var t :| t in Y && t !in X;
      assert t in Range(|a.states|) - X;
      ClosureClosed(a, Y);
    }
  }

  /** The closure is the least closed superset of its seed. */
  lemma {:induction false} ClosureLeast(a: NfaData, X: set<nat>, Z: set<nat>)
    requires Arena(a.states) && InRange(X, |a.states|)
    requires X <= Z && EpsClosed(a, Z)
    ensures Closure(a, X) <= Z
    decreases Range(|a.states|) - X
  {
    var Y := EpsStep(a, X);
    if Y != X {
      var t :| t in Y && t !in X;
      assert t in Range(|a.states|) - X;
      ClosureLeast(a, Y, Z);
    }
  }

  /** Closing twice is closing once. */
  lemma ClosureIdempotent(a: NfaData, X: set<nat>)
    requires Arena(a.states) && InRange(X, |a.states|)
    ensures Closure(a, Closure(a, X)) == Closure(a, X)
  {
    var c := Closure(a, X);
    ClosureGrows(a, c);
    ClosureClosed(a, X);
    ClosureLeast(a, c, c);
  }

  /** The closure of nothing is empty. */
  lemma ClosureEmpty(a: NfaData)
    requires Arena(a.states)
    ensures Closure(a, {}) == {}
  {
    assert EpsStep(a, {}) == {};
  }

  // ---------------------------------------------------------------------------
  // Epsilon paths

  /** A walk along epsilon edges. */
  predicate EpsPath(a: NfaData, p: seq<nat>) {
    && |p| >= 1
    && forall i :: 0 <= i < |p| - 1 ==> p[i] < |a.states| && p[i + 1] in a.states[p[i]].epsilonTransitions
  }

  /** t can be reached from some state of X by epsilon edges alone. */
  ghost predicate Reachable(a: NfaData, X: set<nat>, t: nat) {
    exists p :: EpsPath(a, p) && p[0] in X && p[|p| - 1] == t
  }

  lemma ReachableStep(a: NfaData, X: set<nat>, q: nat, t: nat)
    requires Reachable(a, X, q) && q < |a.states| && t in a.states[q].epsilonTransitions
    ensures Reachable(a, X, t)
  {
    var p :| EpsPath(a, p) && p[0] in X && p[|p| - 1] == q;
    var p' := p + [t];
    assert EpsPath(a, p');
  }

  lemma {:induction false} ClosureReachableFrom(a: NfaData, X0: set<nat>, X: set<nat>)
    requires Arena(a.states) && InRange(X, |a.states|)
    requires forall x :: x in X ==> Reachable(a, X0, x)
    ensures forall t :: t in Closure(a, X) ==> Reachable(a, X0, t)
    decreases Range(|a.states|) - X
  {
    var Y := EpsStep(a, X);
    if Y != X {
      forall t | t in Y ensures Reachable(a, X0, t) {
        if t !in X {
          var q :| q in X && t in a.states[q].epsilonTransitions;
          ReachableStep(a, X0, q, t);
        }
      }
      var t :| t in Y && t !in X;
      assert t in Range(|a.states|) - X;
      ClosureReachableFrom(a, X0, Y);
    }
  }

  lemma {:induction false} PathInClosed(a: NfaData, Z: set<nat>, p: seq<nat>)
    requires EpsPath(a, p) && p[0] in Z && EpsClosed(a, Z)
    ensures p[|p| - 1] in Z
    decreases |p|
  {
    if |p| > 1 {
      var p' := p[..|p| - 1];
      assert EpsPath(a, p');
      PathInClosed(a, Z, p');
    }
  }

  /** `epsilonClosure` is exactly the set of states reachable from the seed
      by epsilon edges. */
  lemma ClosureReachable(a: NfaData, X: set<nat>, t: nat)
    requires Arena(a.states) && InRange(X, |a.states|)
    ensures t in Closure(a, X) <==> Reachable(a, X, t)
  {
    forall x | x in X ensures Reachable(a, X, x) {
      assert EpsPath(a, [x]);
    }
    ClosureReachableFrom(a, X, X);
    if Reachable(a, X, t) {
      var p :| EpsPath(a, p) && p[0] in X && p[|p| - 1] == t;
      ClosureGrows(a, X);
      ClosureClosed(a, X);
      PathInClosed(a, Closure(a, X), p);
    }
  }

  // ---------------------------------------------------------------------------
  // epsilonClosure

  /** `epsilonClosure(states, nfa)`: a breadth-first search from the seed
      that inserts each newly seen epsilon target and queues it. */
  method EpsilonClosure(states: set<nat>, nfa: NfaData) returns (closure: set<nat>)
    requires Arena(nfa.states) && InRange(states, |nfa.states|)
    ensures closure == Closure(nfa, states)
  {
    ghost var target := Closure(nfa, states);
    ClosureGrows(nfa, states);
    ClosureClosed(nfa, states);
    closure := states;
    var q: seq<nat> := [];
    var rest := states;
    while rest != {}
      invariant rest <= states
      invariant forall x :: x in q ==> x in states
      invariant forall x :: x in states ==> x in q || x in rest
      decreases rest
    {
      var s :| s in rest;
      q := q + [s];
      rest := rest - {s};
    }
    while q != []
      invariant states <= closure <= target
      invariant forall x :: x in q ==> x in closure
      invariant forall x :: x in closure && x !in q ==> nfa.states[x].epsilonTransitions <= closure
      decreases Range(|nfa.states|) - closure, |q|
    {
      var state := q[0];
      assert state in target;
      q := q[1..];
      ghost var closure0, q0 := closure, q;
      var pending := nfa.states[state].epsilonTransitions;
      while pending != {}
        invariant pending <= nfa.states[state].epsilonTransitions
        invariant states <= closure0 <= closure <= target
        invariant closure == closure0 ==> q == q0
        invariant forall x :: x in q ==> x in closure
        invariant nfa.states[state].epsilonTransitions - pending <= closure
        invariant forall x :: x in closure && x !in q && x != state ==> nfa.states[x].epsilonTransitions <= closure
        decreases pending
      {
        var eps :| eps in pending;
        if eps !in closure {
          closure := closure + {eps};
          q := q + [eps];
        }
        pending := pending - {eps};
      }
      if closure != closure0 {
        var t :| t in closure && t !in closure0;
        assert t in Range(|nfa.states|) - closure0;
      }
    }
    ClosureLeast(nfa, states, closure);
  }

  // ---------------------------------------------------------------------------
  // move

  /** The union, over the states of X, of their `c`-labelled destinations. */
  function MoveSpec(a: NfaData, X: set<nat>, c: char): set<nat>
    requires InRange(X, |a.states|)
  {
    set s, t | s in X && c in a.states[s].transitions && t in a.states[s].transitions[c] :: t
  }

  lemma MoveAdd(a: NfaData, X: set<nat>, s: nat, c: char)
    requires InRange(X, |a.states|) && s < |a.states|
    ensures MoveSpec(a, X + {s}, c)
            == MoveSpec(a, X, c) + (if c in a.states[s].transitions then a.states[s].transitions[c] else {})
  {
  }

  /** `move` stays inside the arena; it is empty exactly when no state of X
      has a `c`-labelled edge. */
  lemma MoveFacts(a: NfaData, X: set<nat>, c: char)
    requires Arena(a.states) && InRange(X, |a.states|)
    ensures InRange(MoveSpec(a, X, c), |a.states|)
    ensures MoveSpec(a, X, c) == {} <==> forall s :: s in X ==> c !in a.states[s].transitions
  {
    if exists s :: s in X && c in a.states[s].transitions {
      var s :| s in X && c in a.states[s].transitions;
      var t :| t in a.states[s].transitions[c];
      assert t in MoveSpec(a, X, c);
    }
  }

  /** `move(states, symbol, nfa)`: collects the destinations state by state. */
  method Move(states: set<nat>, symbol: char, nfa: NfaData) returns (result: set<nat>)
    requires InRange(states, |nfa.states|)
    ensures result == MoveSpec(nfa, states, symbol)
  {
    result := {};
    var rest := states;
    while rest != {}
      invariant rest <= states
      invariant result == MoveSpec(nfa, states - rest, symbol)
      decreases rest
    {
      var s :| s in rest;
      if symbol in nfa.states[s].transitions {
        var pending := nfa.states[s].transitions[symbol];
        while pending != {}
          invariant pending <= nfa.states[s].transitions[symbol]
          invariant result == MoveSpec(nfa, states - rest, symbol) + (nfa.states[s].transitions[symbol] - pending)
          decreases pending
        {
          var next :| next in pending;
          result := result + {next};
          pending := pending - {next};
        }
      }
      MoveAdd(nfa, states - rest, s, symbol);
      assert states - (rest - {s}) == (states - rest) + {s};
      rest := rest - {s};
    }
  }

  /** The accept test of `convert`: scan a subset for an NFA accept state
      and stop at the first one. */
  method Meets(closure: set<nat>, accepts: set<nat>) returns (found: bool)
    ensures found <==> closure * accepts != {}
  {
    found := false;
    var rest := closure;
    while rest != {}
      invariant rest <= closure
      invariant (closure - rest) * accepts == {}
      decreases rest
    {
      var s :| s in rest;
      if s in accepts {
        assert s in closure * accepts;
        found := true;
        break;
      }
      rest := rest - {s};
    }
  }

  // ---------------------------------------------------------------------------
  // The DFA under construction

  /** Ids are dense: `dfaStates` lists the subsets in id order and
      `stateMap` is its inverse. */
  predicate Dense(d: DfaData) {
    && (forall i :: 0 <= i < |d.dfaStates| ==> d.dfaStates[i] in d.stateMap && d.stateMap[d.dfaStates[i]] == i)
    && (forall X :: X in d.stateMap ==> d.stateMap[X] < |d.dfaStates| && d.dfaStates[d.stateMap[X]] == X)
  }

  /** Every DFA state stands for a set of NFA states. */
  predicate OfArena(a: NfaData, d: DfaData) {
    forall i :: 0 <= i < |d.dfaStates| ==> InRange(d.dfaStates[i], |a.states|)
  }

  /** A DFA state is accepting exactly when its subset meets the NFA's
      accept set. */
  ghost predicate Marked(a: NfaData, d: DfaData) {
    forall i: nat :: i in d.acceptStates <==> i < |d.dfaStates| && d.dfaStates[i] * a.acceptStates != {}
  }

  /** The subset reached from X on c: the closure of the move. */
  function Next(a: NfaData, X: set<nat>, c: char): set<nat>
    requires Arena(a.states) && InRange(X, |a.states|)
  {
    MoveFacts(a, X, c);
    Closure(a, MoveSpec(a, X, c))
  }

  /** Entry (i, c) of the table is the one `convert` records: the id of
      `Next` when c is in the alphabet and `Next` is not empty, else none. */
  predicate RowEntry(a: NfaData, d: DfaData, i: nat, c: char)
    requires Arena(a.states) && i < |d.dfaStates| && InRange(d.dfaStates[i], |a.states|)
  {
    var N := Next(a, d.dfaStates[i], c);
    if c in a.alphabet && N != {} then N in d.stateMap && Lookup(d.transitions, i, c) == Some(d.stateMap[N])
    else Lookup(d.transitions, i, c) == None
  }

  /** The worklist invariant: rows below i are complete, row i holds the
      entries of the symbols in `done`, later rows are empty. */
  ghost predicate Table(a: NfaData, d: DfaData, i: nat, done: set<char>) {
    && Arena(a.states)
    && Dense(d)
    && OfArena(a, d)
    && Marked(a, d)
    && i <= |d.dfaStates|
    && (forall j: nat, c :: j < i ==> RowEntry(a, d, j, c))
    && (forall c :: c in done && i < |d.dfaStates| ==> RowEntry(a, d, i, c))
    && (forall c :: c !in done ==> Lookup(d.transitions, i, c) == None)
    && (forall j: nat, c :: j > i ==> Lookup(d.transitions, j, c) == None)
  }

  /** Registering a subset under the next id. */
  /** State k is the target of an entry in a row before its own. */
  ghost predicate EnteredEarlier(d: DfaData, k: nat) {
    exists j: nat, c :: j < k && Lookup(d.transitions, j, c) == Some(k)
  }

  /** Every state other than the start one was discovered as the successor
      of an earlier row: no id is registered without an entry leading to it. */
  ghost predicate Discovered(d: DfaData) {
    forall k: nat :: 0 < k < |d.dfaStates| ==> EnteredEarlier(d, k)
  }

  function RegisterSpec(a: NfaData, d: DfaData, N: set<nat>): DfaData {
    var id := |d.dfaStates|;
    d.(stateMap := d.stateMap[N := id], dfaStates := d.dfaStates + [N],
       acceptStates := if N * a.acceptStates != {} then d.acceptStates + {id} else d.acceptStates)
  }

  /** `transitions[q][c] = target`, creating row q when it is missing. */
  function RecordSpec(d: DfaData, q: nat, c: char, target: nat): DfaData {
    d.(transitions := d.transitions[q := (if q in d.transitions then d.transitions[q] else map[])[c := target]])
  }

  lemma LookupRecord(d: DfaData, q: nat, c: char, target: nat)
    ensures forall q', c' ::
              Lookup(RecordSpec(d, q, c, target).transitions, q', c') ==
              (if q' == q && c' == c then Some(target) else Lookup(d.transitions, q', c'))
  {
  }

  /** Registering a subset not yet seen keeps the invariant. */
  lemma RegisterKeeps(a: NfaData, d: DfaData, i: nat, done: set<char>, N: set<nat>)
    requires Table(a, d, i, done) && i < |d.dfaStates| && N !in d.stateMap && InRange(N, |a.states|)
    ensures Table(a, RegisterSpec(a, d, N), i, done)
  {
    var d' := RegisterSpec(a, d, N);
    forall j: nat, c | j < i ensures RowEntry(a, d', j, c) {
      assert RowEntry(a, d, j, c);
      assert d'.dfaStates[j] == d.dfaStates[j];
    }
    forall c | c in done ensures RowEntry(a, d', i, c) {
      assert RowEntry(a, d, i, c);
      assert d'.dfaStates[i] == d.dfaStates[i];
    }
  }

  /** Recording the entry of a symbol with a non-empty successor. */
  lemma RecordKeeps(a: NfaData, d: DfaData, i: nat, done: set<char>, c: char)
    requires Table(a, d, i, done) && i < |d.dfaStates| && c !in done && c in a.alphabet
    requires Next(a, d.dfaStates[i], c) != {} && Next(a, d.dfaStates[i], c) in d.stateMap
    ensures Table(a, RecordSpec(d, i, c, d.stateMap[Next(a, d.dfaStates[i], c)]), i, done + {c})
  {
    var d' := RecordSpec(d, i, c, d.stateMap[Next(a, d.dfaStates[i], c)]);
    LookupRecord(d, i, c, d.stateMap[Next(a, d.dfaStates[i], c)]);
    forall j: nat, c' | j < i ensures RowEntry(a, d', j, c') {
      assert RowEntry(a, d, j, c');
    }
    forall c' | c' in done ensures RowEntry(a, d', i, c') {
      assert RowEntry(a, d, i, c');
    }
  }

  /** A symbol with an empty successor gets no entry. */
  lemma SkipKeeps(a: NfaData, d: DfaData, i: nat, done: set<char>, c: char)
    requires Table(a, d, i, done) && i < |d.dfaStates|
    requires Next(a, d.dfaStates[i], c) == {}
    ensures Table(a, d, i, done + {c})
  {
    assert Lookup(d.transitions, i, c) == None;
  }

  /** Once every symbol of the alphabet is done, row i is complete. */
  lemma RowComplete(a: NfaData, d: DfaData, i: nat)
    requires Table(a, d, i, a.alphabet) && i < |d.dfaStates|
    ensures Table(a, d, i + 1, {})
  {
    forall j: nat, c | j < i + 1 ensures RowEntry(a, d, j, c) {
      if j == i && c !in a.alphabet {
        assert Lookup(d.transitions, i, c) == None;
      }
    }
  }

  /** Distinct subsets of 0..n-1: at most 2^n DFA states. */
  lemma DenseBound(a: NfaData, d: DfaData)
    requires Dense(d) && OfArena(a, d)
    ensures |d.dfaStates| <= Pow2(|a.states|)
  {
    var s := d.dfaStates;
    forall i, j | 0 <= i < j < |s| ensures s[i] != s[j] {
      assert d.stateMap[s[i]] == i && d.stateMap[s[j]] == j;
    }
    DistinctCard(s);
    var e := set i | 0 <= i < |s| :: s[i];
    forall X | X in e ensures X in AllSubsets(|a.states|) {
      AllSubsetsMember(|a.states|, X);
    }
    AllSubsetsCard(|a.states|);
    var all := AllSubsets(|a.states|);
    assert all == e + (all - e);
  }

  /** The table of a DFA holding only the start subset. */
  lemma StartTable(a: NfaData, d: DfaData)
    requires Arena(a.states) && a.startState < |a.states|
    requires d == RegisterSpec(a, DfaData(map[], [], map[], d.startState, {}, d.alphabet), Closure(a, {a.startState}))
    ensures Table(a, d, 0, {}) && Discovered(d)
  {
  }

  /** Symbols in strictly increasing order. */
  predicate Ascending(order: seq<char>) {
    forall i, j :: 0 <= i < j < |order| ==> order[i] < order[j]
  }

  /** A non-empty set of symbols has a least element (`std::set` order). */
  lemma {:induction false} HasLeast(s: set<char>)
    requires s != {}
    ensures exists m :: m in s && forall x :: x in s ==> m <= x
    decreases s
  {
    var y :| y in s;
    var r := s - {y};
    if r == {} {
      forall x | x in s ensures y <= x {
        assert x !in r;
      }
    } else {
      HasLeast(r);
      var m :| m in r && forall x :: x in r ==> m <= x;
      var least := if y as int < m as int then y else m;
      forall x | x in s ensures least <= x {
        if x != y {
          assert x in r;
          assert least as int <= m as int <= x as int;
        }
      }
      assert least in s;
    }
  }

  // ---------------------------------------------------------------------------
  // convert

  /** Registering a new subset: next id, `stateMap`, `dfaStates` and the
      accept test. */
  method AddSubset(dfa: DFA, nfa: NfaData, subset: set<nat>) returns (id: nat)
    modifies dfa
    ensures id == old(|dfa.dfaStates|)
    ensures dfa.Data() == RegisterSpec(nfa, old(dfa.Data()), subset)
  {
    id := |dfa.dfaStates|;
    dfa.stateMap := dfa.stateMap[subset := id];
    dfa.dfaStates := dfa.dfaStates + [subset];
    var accepting := Meets(subset, nfa.acceptStates);
    if accepting {
      dfa.acceptStates := dfa.acceptStates + {id};
    }
  }

  /** What one symbol of a worklist round does to the DFA: nothing when the
      closure of the move is empty; otherwise the closure is registered if
      unseen and entry (i, c) gets its id. */
  function SymbolSpec(a: NfaData, d: DfaData, i: nat, c: char): DfaData
    requires Arena(a.states) && i < |d.dfaStates| && InRange(d.dfaStates[i], |a.states|)
  {
    var N := Next(a, d.dfaStates[i], c);
    if N == {} then d
    else
      var d1 := if N in d.stateMap then d else RegisterSpec(a, d, N);
      RecordSpec(d1, i, c, d1.stateMap[N])
  }

  /** The invariant of a worklist round over row i, from the DFA `d0` it
      started with: the entries of the symbols outside `rest` are recorded,
      `dfaStates` has only grown. */
  ghost predicate RowInv(a: NfaData, d: DfaData, i: nat, current: set<nat>, rest: set<char>, d0: DfaData) {
    && rest <= a.alphabet
    && Table(a, d, i, a.alphabet - rest)
    && i < |d.dfaStates| && d.dfaStates[i] == current
    && d0.dfaStates <= d.dfaStates
    && d.alphabet == d0.alphabet && d.startState == d0.startState
  }

  /** One symbol keeps the invariant of the round. */
  lemma SymbolKeeps(a: NfaData, d: DfaData, i: nat, current: set<nat>, rest: set<char>, d0: DfaData, c: char)
    requires RowInv(a, d, i, current, rest, d0) && c in rest
    ensures RowInv(a, SymbolSpec(a, d, i, c), i, current, rest - {c}, d0)
  {
    var done := a.alphabet - rest;
    assert a.alphabet - (rest - {c}) == done + {c};
    var N := Next(a, d.dfaStates[i], c);
    if N == {} {
      SkipKeeps(a, d, i, done, c);
    } else if N in d.stateMap {
      RecordKeeps(a, d, i, done, c);
    } else {
      var d1 := RegisterSpec(a, d, N);
      RegisterKeeps(a, d, i, done, N);
      assert d1.dfaStates[i] == d.dfaStates[i];
      RecordKeeps(a, d1, i, done, c);
    }
  }

  /** One symbol keeps every state discovered: a new id gets the entry of
      (i, c), and the entry it fills was empty, so no other entry moves. */
  lemma SymbolDiscovers(a: NfaData, d: DfaData, i: nat, done: set<char>, c: char)
    requires Table(a, d, i, done) && i < |d.dfaStates| && c !in done && Discovered(d)
    ensures Discovered(SymbolSpec(a, d, i, c))
  {
    var N := Next(a, d.dfaStates[i], c);
    if N != {} {
      var d1 := if N in d.stateMap then d else RegisterSpec(a, d, N);
      var t := d1.stateMap[N];
      var d' := RecordSpec(d1, i, c, t);
      LookupRecord(d1, i, c, t);
      assert Lookup(d.transitions, i, c) == None;
      forall k: nat | 0 < k < |d'.dfaStates| ensures EnteredEarlier(d', k) {
        if k < |d.dfaStates| {
          assert EnteredEarlier(d, k);
          var j: nat, c' :| j < k && Lookup(d.transitions, j, c') == Some(k);
          assert Lookup(d'.transitions, j, c') == Some(k);
        } else {
          assert Lookup(d'.transitions, i, c) == Some(k);
        }
      }
    }
  }

  /** One symbol of a worklist round: its move, its closure, a new subset
      when that closure is unseen, and the entry when it is not empty. */
  method ExpandSymbol(dfa: DFA, nfa: NfaData, current: set<nat>, currentDFAState: nat, symbol: char,
                      unmarked: seq<set<nat>>)
    returns (unmarked': seq<set<nat>>)
    modifies dfa
    requires Arena(nfa.states) && currentDFAState < |dfa.dfaStates| && dfa.dfaStates[currentDFAState] == current
    requires InRange(current, |nfa.states|)
    ensures dfa.Data() == SymbolSpec(nfa, old(dfa.Data()), currentDFAState, symbol)
    ensures old(dfa.dfaStates) <= dfa.dfaStates
    ensures unmarked' == unmarked + dfa.dfaStates[old(|dfa.dfaStates|)..]
  {
    unmarked' := unmarked;
    var moveResult := Move(current, symbol, nfa);
    MoveFacts(nfa, current, symbol);
    var nextClosure := EpsilonClosure(moveResult, nfa);
    assert nextClosure == Next(nfa, current, symbol);
    if nextClosure != {} {
      if nextClosure !in dfa.stateMap {
        var newStateId := AddSubset(dfa, nfa, nextClosure);
        unmarked' := unmarked' + [nextClosure];
      }
      var row := if currentDFAState in dfa.transitions then dfa.transitions[currentDFAState] else map[];
      dfa.transitions := dfa.transitions[currentDFAState := row[symbol := dfa.stateMap[nextClosure]]];
    }
  }

  /** `order` lists the symbols of the alphabet outside `rest`, ascending,
      each below every symbol of `rest`. */
  predicate Visited(order: seq<char>, rest: set<char>, alphabet: set<char>) {
    && Ascending(order)
    && (forall c :: c in order <==> c in alphabet - rest)
    && (forall k :: 0 <= k < |order| ==> forall x :: x in rest ==> order[k] < x)
  }

  /** Taking the least remaining symbol keeps the visiting order ascending. */
  lemma OrderStep(order: seq<char>, rest: set<char>, symbol: char, alphabet: set<char>)
    requires rest <= alphabet && symbol in rest && forall x :: x in rest ==> symbol <= x
    requires Visited(order, rest, alphabet)
    ensures Visited(order + [symbol], rest - {symbol}, alphabet)
    ensures alphabet - (rest - {symbol}) == (alphabet - rest) + {symbol}
  {
    var o := order + [symbol];
    forall k | 0 <= k < |o| ensures forall x :: x in rest - {symbol} ==> o[k] < x {
      if k == |order| {
        forall x | x in rest - {symbol} ensures symbol < x {
          assert symbol <= x && symbol != x;
        }
      }
    }
  }

  lemma SuffixGrows(s: seq<set<nat>>, t: seq<set<nat>>, i: nat)
    requires s <= t && i <= |s|
    ensures s[i..] + t[|s|..] == t[i..]
  {
  }

  /** One pass of the symbol loop of a worklist round: the least symbol
      still to visit is expanded. */
  method ExpandLeast(dfa: DFA, nfa: NfaData, current: set<nat>, currentDFAState: nat, rest: set<char>,
                     unmarked: seq<set<nat>>, ghost order: seq<char>, ghost d0: DfaData)
    returns (rest': set<char>, unmarked': seq<set<nat>>, ghost order': seq<char>)
    modifies dfa
    requires rest != {}
    requires RowInv(nfa, dfa.Data(), currentDFAState, current, rest, d0)
    requires unmarked == dfa.dfaStates[currentDFAState + 1..]
    requires Visited(order, rest, nfa.alphabet) && Discovered(dfa.Data())
    ensures rest' < rest
    ensures RowInv(nfa, dfa.Data(), currentDFAState, current, rest', d0)
    ensures unmarked' == dfa.dfaStates[currentDFAState + 1..]
    ensures Visited(order', rest', nfa.alphabet) && Discovered(dfa.Data())
  {
    HasLeast(rest);
    var symbol :| symbol in rest && forall x :: x in rest ==> symbol <= x;
    OrderStep(order, rest, symbol, nfa.alphabet);
    SymbolKeeps(nfa, dfa.Data(), currentDFAState, current, rest, d0, symbol);
    SymbolDiscovers(nfa, dfa.Data(), currentDFAState, nfa.alphabet - rest, symbol);
    ghost var before := dfa.dfaStates;
    unmarked' := ExpandSymbol(dfa, nfa, current, currentDFAState, symbol, unmarked);
    SuffixGrows(before, dfa.dfaStates, currentDFAState + 1);
    order' := order + [symbol];
    rest' := rest - {symbol};
  }

  /** One round of the worklist: the symbols of the alphabet in ascending
      order. */
  method ExpandRow(dfa: DFA, nfa: NfaData, current: set<nat>, currentDFAState: nat, unmarked: seq<set<nat>>)
    returns (unmarked': seq<set<nat>>, ghost order: seq<char>)
    modifies dfa
    requires Table(nfa, dfa.Data(), currentDFAState, {}) && currentDFAState < |dfa.dfaStates|
    requires dfa.dfaStates[currentDFAState] == current
    requires unmarked == dfa.dfaStates[currentDFAState + 1..] && Discovered(dfa.Data())
    ensures Table(nfa, dfa.Data(), currentDFAState + 1, {}) && Discovered(dfa.Data())
    ensures unmarked' == dfa.dfaStates[currentDFAState + 1..]
    ensures old(dfa.dfaStates) <= dfa.dfaStates
    ensures dfa.alphabet == old(dfa.alphabet) && dfa.startState == old(dfa.startState)
    ensures Ascending(order) && forall c :: c in order <==> c in nfa.alphabet
  {
    unmarked' := unmarked;
    order := [];
    var rest := nfa.alphabet;
    ghost var d0 := dfa.Data();
    while rest != {}
      invariant RowInv(nfa, dfa.Data(), currentDFAState, current, rest, d0)
      invariant unmarked' == dfa.dfaStates[currentDFAState + 1..]
      invariant Visited(order, rest, nfa.alphabet) && Discovered(dfa.Data())
      decreases rest
    {
      rest, unmarked', order := ExpandLeast(dfa, nfa, current, currentDFAState, rest, unmarked', order, d0);
    }
    RowComplete(nfa, dfa.Data(), currentDFAState);
  }

  /** What `convert` guarantees of the DFA it returns for an NFA. */
  ghost predicate Complete(a: NfaData, d: DfaData) {
    && Arena(a.states) && a.startState < |a.states|
    && d.startState == 0 && d.alphabet == a.alphabet
    && |d.dfaStates| >= 1 && d.dfaStates[0] == Closure(a, {a.startState})
    && Table(a, d, |d.dfaStates|, {})
    && Discovered(d)
  }

  /** One round of the worklist: the oldest queued subset is dequeued and
      its row is filled in. */
  method ExpandNext(dfa: DFA, nfa: NfaData, unmarked: seq<set<nat>>, ghost processed: nat)
    returns (unmarked': seq<set<nat>>)
    modifies dfa
    requires Table(nfa, dfa.Data(), processed, {})
    requires unmarked == dfa.dfaStates[processed..] && unmarked != [] && Discovered(dfa.Data())
    ensures Table(nfa, dfa.Data(), processed + 1, {}) && Discovered(dfa.Data())
    ensures unmarked' == dfa.dfaStates[processed + 1..]
    ensures old(dfa.dfaStates) <= dfa.dfaStates
    ensures dfa.alphabet == old(dfa.alphabet) && dfa.startState == old(dfa.startState)
  {
    var current := unmarked[0];
    unmarked' := unmarked[1..];
    var currentDFAState := dfa.stateMap[current];
    ghost var order;
    unmarked', order := ExpandRow(dfa, nfa, current, currentDFAState, unmarked');
  }

  /** The subset construction of `convert`, after `parseRegex`: the start
      closure gets id 0, each queued subset gets its row, and unseen
      subsets are registered and queued as they appear. */
  method ConvertNfa(nfa: NfaData) returns (dfa: DFA)
    requires nfa.startState < |nfa.states| && Arena(nfa.states)
    ensures Complete(nfa, dfa.Data())
    ensures |dfa.dfaStates| <= Pow2(|nfa.states|)
  {
    dfa := new DFA();
    dfa.alphabet := nfa.alphabet;
    var startClosure := EpsilonClosure({nfa.startState}, nfa);
    var unmarked := [startClosure];
    var startId := AddSubset(dfa, nfa, startClosure);
    dfa.startState := 0;
    StartTable(nfa, dfa.Data());
    ghost var processed := 0;
    DenseBound(nfa, dfa.Data());
    while unmarked != []
      invariant Table(nfa, dfa.Data(), processed, {}) && Discovered(dfa.Data())
      invariant unmarked == dfa.dfaStates[processed..]
      invariant dfa.alphabet == nfa.alphabet && dfa.startState == 0
      invariant |dfa.dfaStates| >= 1 && dfa.dfaStates[0] == startClosure
      invariant |dfa.dfaStates| <= Pow2(|nfa.states|)
      decreases Pow2(|nfa.states|) - processed
    {
      unmarked := ExpandNext(dfa, nfa, unmarked, processed);
      processed := processed + 1;
      DenseBound(nfa, dfa.Data());
    }
    assert processed == |dfa.dfaStates|;
  }

  // ---------------------------------------------------------------------------
  // The language of the DFA

  /** The NFA states the subset simulation holds after reading w from X. */
  function NfaRun(a: NfaData, X: set<nat>, w: string): set<nat>
    requires Arena(a.states) && InRange(X, |a.states|)
    decreases |w|
  {
    if w == [] then X else NfaRun(a, Next(a, X, w[0]), w[1..])
  }

  /** The NFA accepts w when the simulation from the start closure ends in a
      set that holds an accept state. */
  predicate NfaAccepts(a: NfaData, w: string)
    requires Arena(a.states) && a.startState < |a.states|
  {
    NfaRun(a, Closure(a, {a.startState}), w) * a.acceptStates != {}
  }

  lemma {:induction false} NfaRunEmpty(a: NfaData, w: string)
    requires Arena(a.states)
    ensures NfaRun(a, {}, w) == {}
    decreases |w|
  {
    if w != [] {
      assert MoveSpec(a, {}, w[0]) == {};
      ClosureEmpty(a);
      NfaRunEmpty(a, w[1..]);
    }
  }

  /** A symbol that labels no edge leads nowhere. */
  lemma NextLabelled(a: NfaData, X: set<nat>, c: char)
    requires Arena(a.states) && InRange(X, |a.states|)
    ensures Next(a, X, c) != {} ==> c in Labels(a.states)
  {
    if MoveSpec(a, X, c) == {} {
      ClosureEmpty(a);
    } else {
      var t :| t in MoveSpec(a, X, c);
      var s :| s in X && c in a.states[s].transitions && t in a.states[s].transitions[c];
      assert a.states[s].transitions[c] != {};
    }
  }

  /** The table follows the simulation: from DFA state i, the matcher ends
      in the state of the simulation's subset, or gives up exactly when the
      simulation runs empty. */
  lemma {:induction false} RunTracks(a: NfaData, d: DfaData, i: nat, w: string)
    requires Complete(a, d) && Labels(a.states) <= a.alphabet && i < |d.dfaStates|
    ensures Run(d, i, w).None? ==> NfaRun(a, d.dfaStates[i], w) == {}
    ensures Run(d, i, w).Some? ==>
              Run(d, i, w).value < |d.dfaStates| && d.dfaStates[Run(d, i, w).value] == NfaRun(a, d.dfaStates[i], w)
    decreases |w|
  {
    if w != [] {
      var c := w[0];
      var N := Next(a, d.dfaStates[i], c);
      assert RowEntry(a, d, i, c);
      NextLabelled(a, d.dfaStates[i], c);
      if N == {} {
        NfaRunEmpty(a, w[1..]);
      } else {
        var p := d.stateMap[N];
        assert Lookup(d.transitions, i, c) == Some(p);
        RunTracks(a, d, p, w[1..]);
      }
    }
  }

  /** Language correctness: the DFA accepts exactly the strings the NFA
      accepts. */
  lemma ConvertLanguage(a: NfaData, d: DfaData, w: string)
    requires Complete(a, d) && Labels(a.states) <= a.alphabet
    ensures Matches(d, w) <==> NfaAccepts(a, w)
  {
    RunTracks(a, d, 0, w);
  }

  /** Some input leads the matcher from the start state to state k. */
  ghost predicate Reaches(d: DfaData, k: nat) {
    exists w :: Run(d, d.startState, w) == Some(k)
  }

  /** Every state of the converted DFA is reached from the start state:
      the construction registers only subsets it arrives at. */
  lemma {:induction false} StatesReached(a: NfaData, d: DfaData, k: nat)
    requires Complete(a, d) && k < |d.dfaStates|
    ensures Reaches(d, k)
    decreases k
  {
    if k == 0 {
      assert Run(d, 0, []) == Some(0);
    } else {
      assert EnteredEarlier(d, k);
      var j: nat, c :| j < k && Lookup(d.transitions, j, c) == Some(k);
      StatesReached(a, d, j);
      var w :| Run(d, 0, w) == Some(j);
      assert RowEntry(a, d, j, c);
      RunAppend(d, 0, w, [c]);
      assert Run(d, j, [c]) == Run(d, k, []);
      assert Run(d, 0, w + [c]) == Some(k);
    }
  }
}
