/** The program's global state and the procedures that update it in place:
    the `grammar` array with `grammarCount`, `setsTable`, the `terminals`
    buffer and `LL1Table`. Each procedure is a method whose loops follow
    the source's loops and whose result is proved equal to the function
    that specifies it in the modules it imports. */
module Pipeline {
  import opened Symbols
  import opened CharSets
  import opened Grammars
  import opened LeftFactoring
  import opened LeftRecursion
  import opened FirstSets
  import opened FollowSets
  import opened LL1Tables

  /** The copying loop of `computeFirst` and of the `q` loop of
      `computeFollowSets`: each character of `xs` other than '~' is added to
      `buf`; `grew` tells whether anything was added. */
  method AddNonEpsilon(buf: seq<char>, xs: seq<char>) returns (r: seq<char>, grew: bool)
    ensures r == AddAll(buf, Without(xs, EpsilonMark))
    ensures grew ==> |buf| < |r|
    ensures !grew ==> r == buf
  {
    r, grew := buf, false;
    var z := 0;
    while z < |xs|
      invariant z <= |xs|
      invariant r == AddAll(buf, Without(xs[..z], EpsilonMark))
      invariant grew ==> |buf| < |r|
      invariant !grew ==> r == buf
    {
      AddAllWithoutStep(buf, xs, z, EpsilonMark);
      if xs[z] != EpsilonMark && !ContainsSymbol(r, xs[z]) {
        r := AddToSet(r, xs[z]);
        grew := true;
      }
      z := z + 1;
    }
    assert xs[..z] == xs;
  }

  /** The copying loop of FOLLOW(A) into FOLLOW(B) in `computeFollowSets`. */
  method AddMembers(buf: seq<char>, xs: seq<char>) returns (r: seq<char>, grew: bool)
    ensures r == AddAll(buf, xs)
    ensures grew ==> |buf| < |r|
    ensures !grew ==> r == buf
  {
    r, grew := buf, false;
    var z := 0;
    while z < |xs|
      invariant z <= |xs|
      invariant r == AddAll(buf, xs[..z])
      invariant grew ==> |buf| < |r|
      invariant !grew ==> r == buf
    {
      AddAllStep(buf, xs, z);
      if !ContainsSymbol(r, xs[z]) {
        r := AddToSet(r, xs[z]);
        grew := true;
      }
      z := z + 1;
    }
    assert xs[..z] == xs;
  }

  /** `commonPrefix`: copies characters while both strings have one and
      they agree. */
  method CommonPrefixOf(s1: seq<char>, s2: seq<char>) returns (prefix: seq<char>)
    ensures prefix == CommonPrefix(s1, s2)
  {
    prefix := [];
    var i := 0;
    while i < |s1| && i < |s2| && s1[i] == s2[i]
      invariant i <= |s1| && i <= |s2| && prefix == s1[..i]
      invariant forall j :: 0 <= j < i ==> s1[j] == s2[j]
    {
      prefix := prefix + [s1[i]];
      i := i + 1;
    }
    CommonPrefixIsRun(s1, s2, i);
  }

  /** The `b` and `a` loops: each string followed by `c`. */
  method WithTail(xs: seq<seq<char>>, c: char) returns (r: seq<seq<char>>)
    ensures r == WithSuffix(xs, c)
  {
    r := [];
    var b := 0;
    while b < |xs|
      invariant b <= |xs| && |r| == b
      invariant forall k :: 0 <= k < b ==> r[k] == xs[k] + [c]
    {
      r := r + [xs[b] + [c]];
      b := b + 1;
    }
  }

  /** The `j` loop of `gatherTerminals` over the productions of one row. */
  method GatherRow(t0: seq<char>, prods: seq<seq<char>>) returns (t: seq<char>)
    ensures t == ScanProds(t0, prods, 0)
  {
    t := t0;
    var j := 0;
    while j < |prods|
      invariant j <= |prods|
      invariant ScanProds(t, prods, j) == ScanProds(t0, prods, 0)
    {
      t := GatherProduction(t, prods[j]);
      j := j + 1;
    }
  }

  /** The `k` loop of `gatherTerminals` over one production. */
  method GatherProduction(t0: seq<char>, prod: seq<char>) returns (t: seq<char>)
    ensures t == ScanSymbols(t0, prod, 0)
  {
    t := t0;
    var k := 0;
    ghost var goal := ScanSymbols(t0, prod, 0);
    while k < |prod|
      invariant k <= |prod|
      invariant ScanSymbols(t, prod, k) == goal
    {
      var c := prod[k];
      ScanSymbolsStep(t, prod, k);
      if IsTerminal(c) && c != EpsilonMark {
        if !ContainsSymbol(t, c) {
          t := t + [c];
        }
      }
      k := k + 1;
    }
  }

  /** `getTerminalIndex`: the column of `c` among the gathered terminals. */
  method GetTerminalIndex(terms: seq<char>, c: char) returns (col: int)
    ensures col == TerminalIndex(terms, c)
    ensures 0 <= col < |terms| ==> terms[col] == c
    ensures col == -1 <==> c != '\0' && c !in terms
  {
    col := 0;
    while col < |terms| && terms[col] != c
      invariant col <= |terms|
      invariant forall j :: 0 <= j < col ==> terms[j] != c
    {
      col := col + 1;
    }
    if col == |terms| && c != '\0' {
      col := -1;
    }
  }

  /** `computeFirst(x, result)`: the buffer it leaves, or None where the
      recursion would nest more than `fuel` expansions deep. None means
      `fuel` was too small; the source diverges exactly where the answer is
      None for every `fuel`. */
  method ComputeFirst(g: Grammar, x: char, result: seq<char>, fuel: nat) returns (r: Option<seq<char>>)
    ensures r == FirstInto(g, x, result, fuel)
    decreases fuel, 0
  {
    if IsTerminal(x) || x == EpsilonMark {
      FirstIntoCases(g, x, result, fuel);
      return Some(AddToSet(result, x));
    }
    var idx := FindNonTermIndex(g, x);
    if idx == -1 {
      FirstIntoCases(g, x, result, fuel);
      return Some(result);
    }
    if fuel == 0 {
      FirstIntoCases(g, x, result, fuel);
      return None;
    }
    FirstIntoCases(g, x, result, fuel);
    r := ExpandProductions(g, g[idx].prods, result, fuel - 1);
  }

  /** The loop of `computeFirst` over the productions of the expanded
      nonterminal (main.c:305-329). */
  method ExpandProductions(g: Grammar, prods: seq<seq<char>>, result: seq<char>, fuel: nat) returns (r: Option<seq<char>>)
    ensures r == Into(result, ProductionsEmitted(g, prods, 0, fuel))
    decreases fuel, 2
  {
    ghost var goal := Into(result, ProductionsEmitted(g, prods, 0, fuel));
    var acc := result;
    var p := 0;
    while p < |prods|
      invariant p <= |prods|
      invariant Into(acc, ProductionsEmitted(g, prods, p, fuel)) == goal
    {
      ProductionsInto(g, prods, p, fuel, acc);
      var walked := WalkProduction(g, prods[p], acc, fuel);
      if walked.None? {
        return None;
      }
      acc := walked.value;
      p := p + 1;
    }
    return Some(acc);
  }

  /** The walk of `computeFirst` along one production (main.c:308-328):
      the non-'~' FIRST of each symbol, up to the first symbol whose FIRST
      lacks '~', and '~' itself when the walk reaches the end. */
  method WalkProduction(g: Grammar, prod: seq<char>, result: seq<char>, fuel: nat) returns (r: Option<seq<char>>)
    ensures r == Into(result, WalkEmitted(g, prod, 0, fuel))
    decreases fuel, 1
  {
    ghost var goal := Into(result, WalkEmitted(g, prod, 0, fuel));
    var acc := result;
    var k := 0;
    while k < |prod|
      invariant k <= |prod|
      invariant Into(acc, WalkEmitted(g, prod, k, fuel)) == goal
    {
      var sub := ComputeFirst(g, prod[k], [], fuel);
      if sub.None? {
        return None;
      }
      WalkInto(g, prod, k, fuel, acc);
      ghost var e := Emitted(g, prod[k], fuel).value;
      AddAllDedup(acc, e, EpsilonMark);
      var grew;
      acc, grew := AddNonEpsilon(acc, sub.value);
      if !ContainsSymbol(sub.value, EpsilonMark) {
        return Some(acc);
      }
      k := k + 1;
    }
    WalkEndInto(g, prod, fuel, acc);
    return Some(AddToSet(acc, EpsilonMark));
  }

  /** One round of the `while(changed)` loop of `computeFollowSets`
      (main.c:339-400): every position of every production of every row,
      in order. `changed` tells whether any buffer grew. */
  method FollowRound(g: Grammar, s: SetsTable, f: Follows, fuel: nat) returns (r: Follows, changed: bool)
    requires AllTerminate(g, fuel)
    requires Aligned(g, s) && |f| == |g|
    ensures r == Round(g, f, fuel)
    ensures changed ==> TotalFollow(f, 0) < TotalFollow(r, 0)
    ensures !changed ==> r == f
  {
    r, changed := f, false;
    var i := 0;
    while i < |g|
      invariant i <= |g| && |r| == |g|
      invariant SweepRows(g, r, i, fuel) == Round(g, f, fuel)
      invariant changed ==> TotalFollow(f, 0) < TotalFollow(r, 0)
      invariant !changed ==> r == f
    {
      var ia := FindSetsIndex(s, g[i].head);
      AlignedLookup(g, s, g[i].head);
      var next, grew := FollowRow(g, s, r, i, ia, fuel);
      if grew {
        assert TotalFollow(f, 0) <= TotalFollow(r, 0) < TotalFollow(next, 0);
      }
      r, changed := next, changed || grew;
      i := i + 1;
    }
  }

  /** The `p` loop of one round over the productions of row `i`, with
      `ia` the row of FOLLOW of its head. */
  method FollowRow(g: Grammar, s: SetsTable, f: Follows, i: nat, ia: int, fuel: nat) returns (r: Follows, grew: bool)
    requires AllTerminate(g, fuel)
    requires Aligned(g, s) && |f| == |g| && i < |g|
    requires ia == FindNonTermIndex(g, g[i].head)
    ensures r == SweepProductions(g, f, i, 0, fuel)
    ensures grew ==> TotalFollow(f, 0) < TotalFollow(r, 0)
    ensures !grew ==> r == f
  {
    r, grew := f, false;
    var p := 0;
    while p < |g[i].prods|
      invariant p <= |g[i].prods| && |r| == |g|
      invariant SweepProductions(g, r, i, p, fuel) == SweepProductions(g, f, i, 0, fuel)
      invariant grew ==> TotalFollow(f, 0) < TotalFollow(r, 0)
      invariant !grew ==> r == f
    {
      ProductionsStep(g, r, i, p, fuel);
      var next, added := FollowProduction(g, s, r, i, p, ia, fuel);
      if added {
        assert TotalFollow(f, 0) <= TotalFollow(r, 0) < TotalFollow(next, 0);
      }
      r, grew := next, grew || added;
      p := p + 1;
    }
  }

  /** The `pos` loop of one round over production `p` of row `i`. */
  method FollowProduction(g: Grammar, s: SetsTable, f: Follows, i: nat, p: nat, ia: int, fuel: nat) returns (r: Follows, grew: bool)
    requires AllTerminate(g, fuel)
    requires Aligned(g, s) && |f| == |g|
    requires i < |g| && p < |g[i].prods|
    requires ia == FindNonTermIndex(g, g[i].head)
    ensures r == SweepPositions(g, f, i, p, 0, fuel)
    ensures grew ==> TotalFollow(f, 0) < TotalFollow(r, 0)
    ensures !grew ==> r == f
  {
    r, grew := f, false;
    var pos := 0;
    while pos < |g[i].prods[p]|
      invariant pos <= |g[i].prods[p]| && |r| == |g|
      invariant SweepPositions(g, r, i, p, pos, fuel) == SweepPositions(g, f, i, p, 0, fuel)
      invariant grew ==> TotalFollow(f, 0) < TotalFollow(r, 0)
      invariant !grew ==> r == f
    {
      PositionsStep(g, r, i, p, pos, fuel);
      var next, added := FollowOccurrence(g, s, r, i, p, pos, ia, fuel);
      if added {
        assert TotalFollow(f, 0) <= TotalFollow(r, 0) < TotalFollow(next, 0);
      }
      r, grew := next, grew || added;
      pos := pos + 1;
    }
  }

  /** The body of the `pos` loop for symbol `pos` of production `p` of
      row `i` (main.c:355-397), with `ia` the row of FOLLOW of the head.
      Only FOLLOW of the symbol's row changes; `grew` tells whether it did. */
  method FollowOccurrence(g: Grammar, s: SetsTable, f: Follows, i: nat, p: nat, pos: nat, ia: int, fuel: nat) returns (r: Follows, grew: bool)
    requires AllTerminate(g, fuel)
    requires Aligned(g, s) && |f| == |g|
    requires IsOccurrence(g, i, p, pos)
    requires ia == FindNonTermIndex(g, g[i].head)
    ensures r == Occurrence(g, f, i, p, pos, fuel)
    ensures grew ==> TotalFollow(f, 0) < TotalFollow(r, 0)
    ensures !grew ==> r == f
  {
    var prod := g[i].prods[p];
    var b := prod[pos];
    if !IsNonTerminal(b) {
      return f, false;
    }
    var ib := FindSetsIndex(s, b);
    AlignedLookup(g, s, b);
    if ib < 0 {
      return f, false;
    }
    HeadRow(g, i);
    r, grew := FollowBeta(g, f, prod, pos + 1, ib, ia, fuel);
    if grew {
      TotalFollowAt(f, r, ib, 0);
    }
  }

  /** The `q` loop for an occurrence whose FOLLOW is row `ib`, from `q0`
      on (main.c:366-397): FIRST of each later symbol without '~' goes
      into row `ib` while the symbols before it have '~' in their FIRST;
      when every later symbol has, row `ia` (FOLLOW of the head) is copied
      in as well. */
  method FollowBeta(g: Grammar, f: Follows, prod: seq<char>, q0: nat, ib: nat, ia: nat, fuel: nat) returns (r: Follows, grew: bool)
    requires AllTerminate(g, fuel)
    requires q0 <= |prod| && ib < |f| && ia < |f|
    ensures r == Beta(g, f, prod, q0, ib, ia, fuel)
    ensures |r| == |f| && forall j :: 0 <= j < |f| && j != ib ==> r[j] == f[j]
    ensures grew ==> |f[ib]| < |r[ib]|
    ensures !grew ==> r == f
  {
    ghost var goal := Beta(g, f, prod, q0, ib, ia, fuel);
    r, grew := f, false;
    var q := q0;
    while q < |prod|
      invariant q0 <= q <= |prod|
      invariant |r| == |f|
      invariant forall j :: 0 <= j < |f| && j != ib ==> r[j] == f[j]
      invariant grew ==> |f[ib]| < |r[ib]|
      invariant !grew ==> r[ib] == f[ib]
      invariant Beta(g, r, prod, q, ib, ia, fuel) == goal
    {
      var t, goOn, added := BetaPass(g, r, prod, q, ib, ia, fuel);
      r, grew := t, grew || added;
      if !goOn {
        DifferOnlyAt(f, r, ib);
        return;
      }
      q := q + 1;
    }
    BetaEnd(g, r, prod, ib, ia, fuel);
    var nb, added := AddMembers(r[ib], r[ia]);
    r := r[ib := nb];
    grew := grew || added;
    DifferOnlyAt(f, r, ib);
  }

  /** One pass of the `q` loop (main.c:370-386): FIRST of `prod[q]` into
      a scratch buffer, its non-'~' members copied into row `ib`, and
      `goOn` when the scratch buffer has '~'. */
  method BetaPass(g: Grammar, f: Follows, prod: seq<char>, q: nat, ib: nat, ia: nat, fuel: nat) returns (r: Follows, goOn: bool, added: bool)
    requires AllTerminate(g, fuel)
    requires q < |prod| && ib < |f| && ia < |f|
    ensures |r| == |f| && forall j :: 0 <= j < |f| && j != ib ==> r[j] == f[j]
    ensures added ==> |f[ib]| < |r[ib]|
    ensures !added ==> r[ib] == f[ib]
    ensures Beta(g, f, prod, q, ib, ia, fuel) ==
      if goOn then Beta(g, r, prod, q + 1, ib, ia, fuel) else r
  {
    var sub := ComputeFirst(g, prod[q], [], fuel);
    BetaScratchStep(g, f, prod, q, ib, ia, fuel);
    var nb;
    nb, added := AddNonEpsilon(f[ib], sub.value);
    r := f[ib := nb];
    goOn := ContainsSymbol(sub.value, EpsilonMark);
  }

  /** The `firstP` block of `buildLL1Table`: the same walk along the
      production as in `computeFirst`, into an empty buffer. */
  method ProductionFirst(g: Grammar, prod: seq<char>, fuel: nat) returns (firstP: seq<char>)
    requires AllTerminate(g, fuel)
    ensures firstP == FirstOfProduction(g, prod, fuel)
  {
    WalkTerminates(g, prod, 0, fuel);
    var r := WalkProduction(g, prod, [], fuel);
    firstP := r.value;
  }

  /** The `p` loop of `buildLL1Table` over row `i`. */
  method FillRow(g: Grammar, s: SetsTable, terms: seq<char>, i: nat, fuel: nat, row0: seq<string>) returns (row: seq<string>)
    requires AllTerminate(g, fuel)
    requires i < |g|
    ensures row == RowCells(g, s, terms, fuel, i, 0, row0)
  {
    ghost var goal := RowCells(g, s, terms, fuel, i, 0, row0);
    row := row0;
    var p := 0;
    while p < |g[i].prods|
      invariant p <= |g[i].prods|
      invariant RowCells(g, s, terms, fuel, i, p, row) == goal
    {
      row := ProductionIntoRow(g, s, terms, i, p, fuel, row);
      p := p + 1;
    }
  }

  /** One pass of the `p` loop: `firstP`, the production's text, its
      writes for the members of `firstP` and, when `firstP` has '~', for
      the members of FOLLOW of the head. */
  method ProductionIntoRow(g: Grammar, s: SetsTable, terms: seq<char>, i: nat, p: nat, fuel: nat, row: seq<string>) returns (r: seq<string>)
    requires AllTerminate(g, fuel)
    requires i < |g| && p < |g[i].prods|
    ensures r == ProductionCells(g, s, terms, fuel, i, p, row)
  {
    var a := g[i].head;
    var prod := g[i].prods[p];
    var firstP := ProductionFirst(g, prod, fuel);
    var str := [a] + "->" + prod;
    r := WriteFirstColumns(terms, row, firstP, str);
    if ContainsSymbol(firstP, EpsilonMark) {
      var k := FindSetsIndex(s, a);
      var followA := if k >= 0 then s[k].follow else [];
      r := WriteColumns(terms, r, followA, str);
    }
  }

  /** `str` into the column of each member of `xs` but '~'. */
  method WriteFirstColumns(terms: seq<char>, row: seq<string>, xs: seq<char>, str: string) returns (r: seq<string>)
    ensures r == WriteCells(row, terms, Without(xs, EpsilonMark), str)
  {
    ghost var goal := WriteCells(row, terms, Without(xs, EpsilonMark), str);
    r := row;
    var s := 0;
    assert xs[0..] == xs;
    while s < |xs|
      invariant s <= |xs|
      invariant WriteCells(r, terms, Without(xs[s..], EpsilonMark), str) == goal
    {
      WriteCellsWithoutStep(r, terms, xs, s, EpsilonMark, str);
      if xs[s] != EpsilonMark {
        var col := GetTerminalIndex(terms, xs[s]);
        if 0 <= col < |r| {
          r := r[col := str];
        }
      }
      s := s + 1;
    }
  }

  /** `str` into the column of each member of `xs`. */
  method WriteColumns(terms: seq<char>, row: seq<string>, xs: seq<char>, str: string) returns (r: seq<string>)
    ensures r == WriteCells(row, terms, xs, str)
  {
    ghost var goal := WriteCells(row, terms, xs, str);
    r := row;
    var s := 0;
    assert xs[0..] == xs;
    while s < |xs|
      invariant s <= |xs|
      invariant WriteCells(r, terms, xs[s..], str) == goal
    {
      WriteCellsStep(r, terms, xs, s, str);
      var col := GetTerminalIndex(terms, xs[s]);
      if 0 <= col < |r| {
        r := r[col := str];
      }
      s := s + 1;
    }
  }

  /** The three nested loops of one scan of `leftFactorGrammar`, up to
      the pair it factors. */
  method FindFactorSite(g: Grammar) returns (site: Option<Site>)
    ensures site == ScanFrom(g, 0, 0, 1)
  {
    var i := 0;
    while i < |g|
      invariant i <= |g|
      invariant ScanFrom(g, i, 0, 1) == ScanFrom(g, 0, 0, 1)
    {
      var p1 := 0;
      while p1 < |g[i].prods|
        invariant p1 <= |g[i].prods|
        invariant ScanFrom(g, i, p1, p1 + 1) == ScanFrom(g, 0, 0, 1)
      {
        site := ScanPartners(g, i, p1);
        if site.Some? {
          return;
        }
        p1 := p1 + 1;
      }
      i := i + 1;
    }
    return None;
  }

  /** The innermost loop of the scan: production `p1` of row `i` against
      each later production; the scan goes on to `p1 + 1` when none of
      them is factored. */
  method ScanPartners(g: Grammar, i: nat, p1: nat) returns (site: Option<Site>)
    requires i < |g| && p1 < |g[i].prods|
    ensures ScanFrom(g, i, p1, p1 + 1) ==
      if site.Some? then site else ScanFrom(g, i, p1 + 1, p1 + 2)
  {
    var prods := g[i].prods;
    var p2 := p1 + 1;
    while p2 < |prods|
      invariant p1 < p2 <= |prods|
      invariant ScanFrom(g, i, p1, p2) == ScanFrom(g, i, p1, p1 + 1)
    {
      ScanStep(g, i, p1, p2);
      var prefix := CommonPrefixOf(prods[p1], prods[p2]);
      if |prefix| > 0 {
        var newHead := FactorHead(i);
        if FindNonTermIndex(g, newHead) == -1 && IsNonTerminal(newHead) {
          return Some(Site(i, p1, p2));
        }
      }
      p2 := p2 + 1;
    }
    return None;
  }

  class Workspace {
    var grammar: Grammar
    var sets: SetsTable
    var terminals: seq<char>
    var table: seq<seq<string>>

    /** The state once the grammar has been read. */
    constructor(g: Grammar)
      ensures grammar == g && sets == [] && terminals == [] && table == []
    {
      grammar := g;
      sets := [];
      terminals := [];
      table := [];
    }

    /** The passes in the order `main` runs them, without reading the
        grammar file and without printing. `ok` is false when some FIRST
        computation would need more than `fuel` nested expansions; the
        source stays in `computeFirstSets` forever exactly when `ok` is
        false for every `fuel`. */
    method Generate(fuel: nat) returns (ok: bool)
      modifies this
      requires ByteGrammar(grammar)
      ensures grammar == LeftRecursionRemoved(LeftFactored(old(grammar)))
      ensures ok <==> FirstTerminates(grammar, fuel)
      ensures ok ==>
        && AllTerminate(grammar, fuel) && ByteGrammar(grammar)
        && var first := FirstSetsAfter(grammar, InitialSets(grammar), fuel);
        && Aligned(grammar, first) && CleanFollows(FollowColumn(first))
        && sets == FollowSetsAfter(grammar, first, fuel)
        && terminals == Terminals(grammar)
        && table == BuildTable(grammar, sets, fuel)
    {
      LeftFactorGrammar();
      RemoveLeftRecursion();
      InitSetsTable();
      ok := ComputeFirstSets(fuel);
      if !ok {
        return;
      }
      TerminatesEverywhere(grammar, fuel);
      ghost var first := sets;
      assert Aligned(grammar, first);
      assert CleanFollows(FollowColumn(first));
      ComputeFollowSets(fuel);
      BuildLL1Table(fuel);
    }

    /** `initSetsTable`: one row per nonterminal with empty buffers. */
    method InitSetsTable()
      modifies this
      ensures grammar == old(grammar) && terminals == old(terminals) && table == old(table)
      ensures sets == InitialSets(grammar)
    {
      var s: SetsTable := [];
      var i := 0;
      while i < |grammar|
        invariant i <= |grammar|
        invariant |s| == i && forall j :: 0 <= j < i ==> s[j] == SetsEntry(grammar[j].head, [], [])
      {
        s := s + [SetsEntry(grammar[i].head, [], [])];
        i := i + 1;
      }
      sets := s;
    }

    /** `computeFirstSets`: rounds of `computeFirst` into every row's FIRST
        buffer until a round changes none. Every row reaches its final value
        in the first round and the second changes nothing, so the loop ends
        after two rounds (FirstSets.FirstSetsStable). `ok` is false when some
        head's FIRST needs more than `fuel` nested expansions; the source
        diverges exactly when `ok` is false for every `fuel`. */
    method ComputeFirstSets(fuel: nat) returns (ok: bool)
      modifies this
      requires |sets| == |grammar|
      ensures grammar == old(grammar) && terminals == old(terminals) && table == old(table)
      ensures ok <==> FirstTerminates(grammar, fuel)
      ensures ok ==> sets == FirstSetsAfter(grammar, old(sets), fuel)
    {
      ghost var settled := false;
      var done := false;
      while !done
        invariant grammar == old(grammar) && terminals == old(terminals) && table == old(table)
        invariant |sets| == |grammar|
        invariant settled ==> FirstTerminates(grammar, fuel) && sets == FirstSetsAfter(grammar, old(sets), fuel)
        invariant !settled ==> sets == old(sets)
        invariant done ==> settled
        decreases (if settled then 0 else 1) + (if done then 0 else 1)
      {
        ghost var before := sets;
        var finished, changed := FirstRound(fuel);
        if !finished {
          return false;
        }
        done := !changed;
        if settled {
          FirstSetsStable(grammar, old(sets), fuel);
        }
        settled := true;
      }
      return true;
    }

    /** One round of the `while(!done)` loop of `computeFirstSets`:
        `computeFirst` of each head into its row's FIRST buffer, in row
        order; `changed` tells whether any buffer differs afterwards. */
    method FirstRound(fuel: nat) returns (finished: bool, changed: bool)
      modifies this
      requires |sets| == |grammar|
      ensures grammar == old(grammar) && terminals == old(terminals) && table == old(table)
      ensures |sets| == |grammar|
      ensures finished <==> FirstTerminates(grammar, fuel)
      ensures finished ==> sets == FirstSetsAfter(grammar, old(sets), fuel) && (changed <==> sets != old(sets))
    {
      changed := false;
      var i := 0;
      while i < |grammar|
        invariant grammar == old(grammar) && terminals == old(terminals) && table == old(table)
        invariant i <= |grammar| && |sets| == |grammar|
        invariant forall j :: 0 <= j < i ==>
          Some(sets[j].first) == FirstInto(grammar, grammar[j].head, old(sets)[j].first, fuel) &&
          sets[j] == old(sets)[j].(first := sets[j].first)
        invariant forall j :: i <= j < |grammar| ==> sets[j] == old(sets)[j]
        invariant changed <==> sets != old(sets)
      {
        var current := sets[i].first;
        var r := ComputeFirst(grammar, grammar[i].head, sets[i].first, fuel);
        if r.None? {
          return false, changed;
        }
        sets := sets[i := sets[i].(first := r.value)];
        if current != r.value {
          assert sets[i].first != old(sets)[i].first;
          changed := true;
        }
        i := i + 1;
      }
      finished := true;
      assert FirstTerminates(grammar, fuel);
      assert sets == FirstSetsAfter(grammar, old(sets), fuel);
    }

    /** `computeFollowSets`: '$' into FOLLOW of the start symbol, then
        rounds over every occurrence of a nonterminal until a round adds
        nothing. The FOLLOW buffers are the column the loop updates; the
        nonterminals and FIRST buffers are only read. */
    method ComputeFollowSets(fuel: nat)
      modifies this
      requires AllTerminate(grammar, fuel) && ByteGrammar(grammar)
      requires Aligned(grammar, sets) && CleanFollows(FollowColumn(sets))
      ensures grammar == old(grammar) && terminals == old(terminals) && table == old(table)
      ensures sets == FollowSetsAfter(grammar, old(sets), fuel)
    {
      var follow := FollowColumn(sets);
      if |grammar| > 0 {
        follow := follow[0 := AddToSet(follow[0], EndMarker)];
      }
      ghost var start := follow;
      assert start == FollowStart(grammar, FollowColumn(sets));
      var changed := true;
      while changed
        invariant grammar == old(grammar) && sets == old(sets)
        invariant terminals == old(terminals) && table == old(table)
        invariant |follow| == |grammar| && CleanFollows(follow)
        invariant FollowFixpoint(grammar, follow, fuel) == FollowFixpoint(grammar, start, fuel)
        invariant !changed ==> Round(grammar, follow, fuel) == follow
        decreases Capacity(|follow|) - TotalFollow(follow, 0) + (if changed then 1 else 0)
      {
        TotalFollowBounded(follow, 0);
        var next, grew := FollowRound(grammar, sets, follow, fuel);
        RowsClean(grammar, follow, 0, fuel);
        TotalFollowBounded(next, 0);
        follow, changed := next, grew;
      }
      sets := WithFollows(sets, follow);
    }

    /** `gatherTerminals`: every terminal the productions use, in the order
        they first use it, then '$' unless it is already there. */
    method GatherTerminals()
      modifies this
      ensures grammar == old(grammar) && sets == old(sets) && table == old(table)
      ensures terminals == Terminals(grammar)
    {
      var g := grammar;
      var t: seq<char> := [];
      var i := 0;
      while i < |g|
        invariant grammar == g && sets == old(sets) && table == old(table)
        invariant i <= |g|
        invariant ScanRows(t, g, i) == ScanRows([], g, 0)
      {
        t := GatherRow(t, g[i].prods);
        i := i + 1;
      }
      if !ContainsSymbol(t, EndMarker) {
        t := t + [EndMarker];
      }
      terminals := t;
    }

    /** `buildLL1Table`: gather the terminals, clear the table, then fill
        each row from its productions in order, with no conflict check. */
    method BuildLL1Table(fuel: nat)
      modifies this
      requires AllTerminate(grammar, fuel)
      ensures grammar == old(grammar) && sets == old(sets)
      ensures terminals == Terminals(grammar)
      ensures table == BuildTable(grammar, sets, fuel)
    {
      GatherTerminals();
      var n := |terminals|;
      var t: seq<seq<string>> := seq(|grammar|, _ => seq(n, _ => ""));
      var i := 0;
      while i < |grammar|
        invariant grammar == old(grammar) && sets == old(sets) && terminals == Terminals(grammar)
        invariant i <= |grammar| && |t| == |grammar|
        invariant forall j :: 0 <= j < i ==> t[j] == RowCells(grammar, sets, terminals, fuel, j, 0, seq(n, _ => ""))
        invariant forall j :: i <= j < |grammar| ==> t[j] == seq(n, _ => "")
      {
        var row := FillRow(grammar, sets, terminals, i, fuel, t[i]);
        t := t[i := row];
        i := i + 1;
      }
      table := t;
    }

    /** `leftFactorGrammar`: scan for the first pair of productions of one
        row with a common prefix whose row may still name a factor, factor
        it, and scan again from the start until a scan finds nothing. */
    method LeftFactorGrammar()
      modifies this
      ensures sets == old(sets) && terminals == old(terminals) && table == old(table)
      ensures grammar == LeftFactored(old(grammar))
    {
      var changed := true;
      while changed
        invariant sets == old(sets) && terminals == old(terminals) && table == old(table)
        invariant LeftFactored(grammar) == LeftFactored(old(grammar))
        invariant !changed ==> FirstFactorSite(grammar).None?
        decreases FreeLetters(grammar) + (if changed then 1 else 0)
      {
        changed := false;
        var site := FindFactorSite(grammar);
        if site.Some? {
          FactorStepUsesLetter(grammar, site.value);
          FactorAt(site.value);
          changed := true;
        }
      }
    }

    /** The factoring at one site (main.c:186-209): a new row with the two
        leftovers, the prefix and the new name in place of the first
        production, the second production removed by shifting the later
        ones down. */
    method FactorAt(site: Site)
      modifies this
      requires IsFactorSite(grammar, site)
      ensures sets == old(sets) && terminals == old(terminals) && table == old(table)
      ensures grammar == FactorStep(old(grammar), site)
    {
      var i, p1, p2 := site.i, site.p1, site.p2;
      var prods := grammar[i].prods;
      var prefix := CommonPrefixOf(prods[p1], prods[p2]);
      var newHead := FactorHead(i);
      var leftover1 := prods[p1][|prefix|..];
      var leftover2 := prods[p2][|prefix|..];
      if |leftover1| == 0 {
        leftover1 := EpsilonWord;
      }
      if |leftover2| == 0 {
        leftover2 := EpsilonWord;
      }
      var factor := Rule(newHead, [leftover1, leftover2]);
      prods := prods[p1 := prefix + [newHead]];
      ghost var written := prods;
      var k := p2;
      while k < |prods| - 1
        invariant p2 <= k <= |prods| - 1 && |prods| == |written|
        invariant forall m :: 0 <= m < p2 ==> prods[m] == written[m]
        invariant forall m :: p2 <= m < k ==> prods[m] == written[m + 1]
        invariant forall m :: k <= m < |prods| ==> prods[m] == written[m]
      {
        prods := prods[k := prods[k + 1]];
        k := k + 1;
      }
      prods := prods[..|prods| - 1];
      ghost var g := grammar;
      assert prods == g[i].prods[..p1] + [prefix + [newHead]] + g[i].prods[p1 + 1..p2] + g[i].prods[p2 + 1..];
      grammar := grammar[i := Rule(grammar[i].head, prods)] + [factor];
    }

    /** `removeLeftRecursion`: each row visited once in order, including
        the rows the pass appends. */
    method RemoveLeftRecursion()
      modifies this
      ensures sets == old(sets) && terminals == old(terminals) && table == old(table)
      ensures grammar == LeftRecursionRemoved(old(grammar))
    {
      var i := 0;
      while i < |grammar|
        invariant sets == old(sets) && terminals == old(terminals) && table == old(table)
        invariant i <= |grammar|
        invariant EliminateFrom(grammar, i) == LeftRecursionRemoved(old(grammar))
        decreases FreeBytes(grammar), |grammar| - i
      {
        EliminateFromStep(grammar, i);
        EliminateRow(i);
        i := i + 1;
      }
    }

    /** One visit of row `i`: split its productions into the `alpha` tails
        and the `beta` rest; when there is an alpha, give the row the betas
        followed by the tail name and the tail row the alphas followed by
        the tail name, then "EPSILON". */
    method EliminateRow(i: nat)
      modifies this
      requires i < |grammar|
      ensures sets == old(sets) && terminals == old(terminals) && table == old(table)
      ensures grammar == EliminateAt(old(grammar), i)
    {
      var a := grammar[i].head;
      var prods := grammar[i].prods;
      var hasLeftRecursion := false;
      var alpha: seq<seq<char>> := [];
      var beta: seq<seq<char>> := [];
      var j := 0;
      while j < |prods|
        invariant j <= |prods|
        invariant alpha == Alphas(a, prods[..j]) && beta == Betas(a, prods[..j])
        invariant hasLeftRecursion <==> |alpha| > 0
      {
        var prod := prods[j];
        assert prods[..j + 1][..j] == prods[..j] && prods[..j + 1][j] == prod;
        if |prod| > 0 && prod[0] == a {
          hasLeftRecursion := true;
          alpha := alpha + [prod[1..]];
        } else {
          beta := beta + [prod];
        }
        j := j + 1;
      }
      assert prods[..j] == prods;
      if !hasLeftRecursion {
        return;
      }
      ghost var g := grammar;
      var aPrime := PrimeHead(i);
      var newIndex := FindNonTermIndex(grammar, aPrime);
      if newIndex == -1 {
        newIndex := |grammar|;
        grammar := grammar + [Rule(aPrime, [])];
      }
      assert newIndex == PrimeRow(g, i);
      var headProds := WithTail(beta, aPrime);
      if |beta| == 0 {
        headProds := headProds + [EpsilonWord + [aPrime]];
      }
      assert headProds == NewHeadProds(g, i);
      grammar := grammar[i := Rule(a, headProds)];
      var primeProds := WithTail(alpha, aPrime);
      primeProds := primeProds + [EpsilonWord];
      assert primeProds == NewPrimeProds(g, i);
      grammar := grammar[newIndex := Rule(grammar[newIndex].head, primeProds)];
    }

  }
}
