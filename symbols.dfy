/** Grammar symbols are single characters, classified by their spelling:
    upper-case letters are nonterminals, '~' is the empty string, everything
    else but the string terminator is a terminal. */
module Symbols {

  /** The character FIRST and FOLLOW recognise as the empty string. */
  const EpsilonMark: char := '~'

  /** The end-of-input column of the table. */
  const EndMarker: char := '$'

  /** The literal the factoring and recursion rewrites write for an empty
      alternative. It is NOT the epsilon mark: its letters are nonterminals. */
  const EpsilonWord: string := "EPSILON"

  /** C's `char` is one byte. */
  predicate IsByte(c: char) {
    c as int < 256
  }

  predicate IsNonTerminal(c: char) {
    'A' <= c <= 'Z'
  }

  predicate IsTerminal(c: char) {
    !IsNonTerminal(c) && c != EpsilonMark && c != '\0'
  }

  /** The tagged view of a character. The source never builds it: it asks
      IsNonTerminal and IsTerminal of the raw character, and `$` is an
      ordinary terminal there. */
  datatype Symbol = Terminal(t: char) | NonTerminal(n: char) | Epsilon | Terminator

  function Classify(c: char): (s: Symbol)
    ensures s.NonTerminal? <==> IsNonTerminal(c)
    ensures s.Terminal? <==> IsTerminal(c)
    ensures s.Epsilon? <==> c == EpsilonMark
    ensures s.Terminator? <==> c == '\0'
    ensures (s.Terminal? ==> s.t == c) && (s.NonTerminal? ==> s.n == c)
  {
    if IsNonTerminal(c) then NonTerminal(c)
    else if c == EpsilonMark then Epsilon
    else if c == '\0' then Terminator
    else Terminal(c)
  }

  /** The rewrites' "EPSILON" is seven nonterminal references and never the
      epsilon symbol; the end marker is a plain terminal. */
  lemma EpsilonWordIsNonTerminals()
    ensures |EpsilonWord| == 7
    ensures forall k :: 0 <= k < |EpsilonWord| ==>
      Classify(EpsilonWord[k]) == NonTerminal(EpsilonWord[k]) && Classify(EpsilonWord[k]) != Epsilon
    ensures Classify(EpsilonMark) == Epsilon
    ensures Classify(EndMarker) == Terminal(EndMarker)
  {
  }
}
