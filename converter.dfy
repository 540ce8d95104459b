/** `RegexToDFA::convert` (flqn1.cpp and flqn2.cpp): parse the regex into a
    Thompson NFA, then run the subset construction on it. */
module Converter {
  import opened Wrappers
  import opened Automata
  import opened Parser
  import opened Subset

  /** `convert(regex)`. None where `parseRegex` would read the top of an
      empty operand stack. Otherwise the DFA is the complete subset
      construction of the Thompson automaton of the parsed term, its
      alphabet is the regex's alphanumeric characters, it has at most
      2^|NFA states| states, it accepts exactly what that NFA accepts, and each
      of its states is reached from the start state by some input. */
  method Convert(regex: string) returns (r: Option<DFA>)
    ensures r.None? <==> AlnumChars(regex) == {}
    ensures r.Some? ==> ParseTerm(regex).Some?
    ensures r.Some? ==> Complete(Build(ParseTerm(regex).value), r.value.Data())
    ensures r.Some? ==> r.value.alphabet == AlnumChars(regex)
    ensures r.Some? ==> |r.value.dfaStates| <= Pow2(|Build(ParseTerm(regex).value).states|)
    ensures r.Some? ==> forall w :: Matches(r.value.Data(), w) <==> NfaAccepts(Build(ParseTerm(regex).value), w)
    ensures r.Some? ==> forall k: nat :: k < |r.value.dfaStates| ==> Reaches(r.value.Data(), k)
  {
    ParseTermSymbols(regex);
    var parsed := ParseRegex(regex);
    if parsed.None? {
      return None;
    }
    var t := ParseTerm(regex).value;
    ParseAutomaton(regex);
    BuildLabels(t);
    var nfa := parsed.value.Data();
    var dfa := ConvertNfa(nfa);
    forall w ensures Matches(dfa.Data(), w) <==> NfaAccepts(nfa, w) {
      ConvertLanguage(nfa, dfa.Data(), w);
    }
    forall k: nat | k < |dfa.dfaStates| ensures Reaches(dfa.Data(), k) {
      StatesReached(nfa, dfa.Data(), k);
    }
    r := Some(dfa);
  }
}
