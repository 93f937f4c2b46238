/** The grammar and the FIRST/FOLLOW table, as the global arrays `grammar`
    and `setsTable` hold them: rows in insertion order, row 0 is the start
    symbol, each production a string of one-character symbols. */
module Grammars {
  import opened Symbols
  import opened CharSets

  datatype Option<T> = None | Some(value: T)

  /** One `GrammarRule`: a head and its alternatives, in order. */
  datatype Rule = Rule(head: char, prods: seq<seq<char>>)

  type Grammar = seq<Rule>

  /** One row of `setsTable`. */
  datatype SetsEntry = SetsEntry(nonTerm: char, first: seq<char>, follow: seq<char>)

  type SetsTable = seq<SetsEntry>

  /** `MAX_NONTERMS`: the number of rows the `grammar` array has room for. */
  const MaxNonTerms: nat := 20

  function HeadSet(g: Grammar): set<char> {
    set i | 0 <= i < |g| :: g[i].head
  }

  /** The first row at or after `k` whose head is `c`, or -1. */
  function HeadFrom(g: Grammar, c: char, k: nat): (r: int)
    requires k <= |g|
    ensures -1 <= r < |g|
    ensures r >= 0 ==> k <= r && g[r].head == c && forall j {:trigger g[j].head} :: k <= j < r ==> g[j].head != c
    ensures r == -1 <==> forall j {:trigger g[j].head} :: k <= j < |g| ==> g[j].head != c
    decreases |g| - k
  {
    if k == |g| then -1 else if g[k].head == c then k else HeadFrom(g, c, k + 1)
  }

  /** `findNonTermIndex`: the first row whose head is `c`, or -1. */
  function FindNonTermIndex(g: Grammar, c: char): (r: int)
    ensures -1 <= r < |g|
    ensures r >= 0 ==> g[r].head == c && forall j {:trigger g[j].head} :: 0 <= j < r ==> g[j].head != c
    ensures r == -1 <==> c !in HeadSet(g)
  {
    var r := HeadFrom(g, c, 0);
    assert r == -1 ==> c !in HeadSet(g);
    r
  }

  /** The first row at or after `k` of the sets table whose nonterminal is
      `c`, or -1. */
  function SetsFrom(s: SetsTable, c: char, k: nat): (r: int)
    requires k <= |s|
    ensures -1 <= r < |s|
    ensures r >= 0 ==> k <= r && s[r].nonTerm == c && forall j {:trigger s[j].nonTerm} :: k <= j < r ==> s[j].nonTerm != c
    ensures r == -1 <==> forall j {:trigger s[j].nonTerm} :: k <= j < |s| ==> s[j].nonTerm != c
    decreases |s| - k
  {
    if k == |s| then -1 else if s[k].nonTerm == c then k else SetsFrom(s, c, k + 1)
  }

  /** The lookup `computeFollowSets` and `buildLL1Table` make in `setsTable`:
      the first row whose nonterminal is `c`, or -1. */
  function FindSetsIndex(s: SetsTable, c: char): (r: int)
    ensures -1 <= r < |s|
    ensures r >= 0 ==> s[r].nonTerm == c && forall j {:trigger s[j].nonTerm} :: 0 <= j < r ==> s[j].nonTerm != c
    ensures r == -1 <==> forall j {:trigger s[j].nonTerm} :: 0 <= j < |s| ==> s[j].nonTerm != c
  {
    SetsFrom(s, c, 0)
  }

  /** Every nonterminal heads exactly one row. */
  predicate DistinctHeads(g: Grammar) {
    forall i, j :: 0 <= i < j < |g| ==> g[i].head != g[j].head
  }

  /** Every character of every production fits in a C `char`. */
  predicate ByteGrammar(g: Grammar) {
    forall i, p, k :: 0 <= i < |g| && 0 <= p < |g[i].prods| && 0 <= k < |g[i].prods[p]| ==>
      IsByte(g[i].prods[p][k])
  }

  /** The characters a C `char` can hold. */
  function ByteChars(): set<char> {
    set c: char | IsByte(c)
  }

  /** `setsTable` as `initSetsTable` leaves it: one empty row per nonterminal. */
  function InitialSets(g: Grammar): (s: SetsTable)
    ensures |s| == |g|
    ensures forall i :: 0 <= i < |g| ==> s[i] == SetsEntry(g[i].head, [], [])
  {
    seq(|g|, i requires 0 <= i < |g| => SetsEntry(g[i].head, [], []))
  }

  /** Row `i` of the sets table belongs to row `i` of the grammar. */
  predicate Aligned(g: Grammar, s: SetsTable) {
    |s| == |g| && forall i {:trigger s[i].nonTerm} :: 0 <= i < |g| ==> s[i].nonTerm == g[i].head
  }

  /** With aligned tables the two lookups agree. */
  lemma {:induction false} AlignedLookup(g: Grammar, s: SetsTable, c: char)
    requires Aligned(g, s)
    ensures FindSetsIndex(s, c) == FindNonTermIndex(g, c)
  {
    var r := FindSetsIndex(s, c);
    var q := FindNonTermIndex(g, c);
    if q >= 0 {
      assert s[q].nonTerm == c;
    }
    if r >= 0 {
      assert g[r].head == c;
      assert q >= 0 && q <= r;
      assert s[q].nonTerm == c;
    }
  }
}
