/** The predictive parsing table (`gatherTerminals`, `getTerminalIndex`,
    `buildLL1Table`): one row per grammar row, one column per terminal in
    the order the productions first use it, '$' at the end unless a
    production already uses it. Cells are written without any conflict
    check, so the last production that claims a cell keeps it. */
module LL1Tables {
  import opened Symbols
  import opened CharSets
  import opened Grammars
  import opened FirstSets

  /** `gatherTerminals` on one symbol: a terminal not yet listed is appended. */
  function Gather(t: seq<char>, c: char): (r: seq<char>)
    ensures |t| <= |r| && r[..|t|] == t
  {
    if IsTerminal(c) && c != EpsilonMark then AddToSet(t, c) else t
  }

  /** The `k` loop of `gatherTerminals` over one production, from `k` on. */
  function ScanSymbols(t: seq<char>, prod: seq<char>, k: nat): (r: seq<char>)
    requires k <= |prod|
    decreases |prod| - k
  {
    if k == |prod| then t else ScanSymbols(Gather(t, prod[k]), prod, k + 1)
  }

  /** One step of the `k` loop, as the loop body takes it. */
  lemma ScanSymbolsStep(t: seq<char>, prod: seq<char>, k: nat)
    requires k < |prod|
    ensures IsTerminal(prod[k]) && prod[k] != EpsilonMark && !ContainsSymbol(t, prod[k]) ==>
      ScanSymbols(t, prod, k) == ScanSymbols(t + [prod[k]], prod, k + 1)
    ensures !(IsTerminal(prod[k]) && prod[k] != EpsilonMark && !ContainsSymbol(t, prod[k])) ==>
      ScanSymbols(t, prod, k) == ScanSymbols(t, prod, k + 1)
  {
  }

  /** The `j` loop over the productions of one row, from `p` on. */
  function ScanProds(t: seq<char>, prods: seq<seq<char>>, p: nat): (r: seq<char>)
    requires p <= |prods|
    decreases |prods| - p
  {
    if p == |prods| then t else ScanProds(ScanSymbols(t, prods[p], 0), prods, p + 1)
  }

  /** The `i` loop over the rows, from `i` on. */
  function ScanRows(t: seq<char>, g: Grammar, i: nat): (r: seq<char>)
    requires i <= |g|
    decreases |g| - i
  {
    if i == |g| then t else ScanRows(ScanProds(t, g[i].prods, 0), g, i + 1)
  }

  /** The `terminals` buffer `gatherTerminals` leaves. */
  function Terminals(g: Grammar): seq<char> {
    AddToSet(ScanRows([], g, 0), EndMarker)
  }

  /** Some production of the grammar uses `c`. */
  predicate Used(g: Grammar, c: char) {
    exists i, q :: 0 <= i < |g| && 0 <= q < |g[i].prods| && c in g[i].prods[q]
  }

  lemma {:induction false} ScanSymbolsMembers(t: seq<char>, prod: seq<char>, k: nat, c: char)
    requires k <= |prod|
    ensures c in ScanSymbols(t, prod, k) <==> c in t || (IsTerminal(c) && c in prod[k..])
    decreases |prod| - k
  {
    if k < |prod| {
      ScanSymbolsMembers(Gather(t, prod[k]), prod, k + 1, c);
      assert prod[k..] == [prod[k]] + prod[k + 1..];
    }
  }

  lemma {:induction false} ScanProdsMembers(t: seq<char>, prods: seq<seq<char>>, p: nat, c: char)
    requires p <= |prods|
    ensures c in ScanProds(t, prods, p) <==>
      c in t || (IsTerminal(c) && exists q :: p <= q < |prods| && c in prods[q])
    decreases |prods| - p
  {
    if p < |prods| {
      ScanSymbolsMembers(t, prods[p], 0, c);
      ScanProdsMembers(ScanSymbols(t, prods[p], 0), prods, p + 1, c);
      assert prods[p][0..] == prods[p];
      if c in prods[p] {
        assert p <= p < |prods| && c in prods[p];
      }
    }
  }

  lemma {:induction false} ScanRowsMembers(t: seq<char>, g: Grammar, i: nat, c: char)
    requires i <= |g|
    ensures c in ScanRows(t, g, i) <==>
      c in t || (IsTerminal(c) && exists r, q :: i <= r < |g| && 0 <= q < |g[r].prods| && c in g[r].prods[q])
    decreases |g| - i
  {
    if i < |g| {
      ScanProdsMembers(t, g[i].prods, 0, c);
      ScanRowsMembers(ScanProds(t, g[i].prods, 0), g, i + 1, c);
      if exists q :: 0 <= q < |g[i].prods| && c in g[i].prods[q] {
        var q :| 0 <= q < |g[i].prods| && c in g[i].prods[q];
        assert i <= i < |g| && 0 <= q < |g[i].prods| && c in g[i].prods[q];
      }
    }
  }

  lemma {:induction false} ScanSymbolsKeepsSet(t: seq<char>, prod: seq<char>, k: nat)
    requires k <= |prod| && NoDups(t)
    ensures NoDups(ScanSymbols(t, prod, k))
    decreases |prod| - k
  {
    if k < |prod| {
      AddToSetKeepsSet(t, prod[k]);
      ScanSymbolsKeepsSet(Gather(t, prod[k]), prod, k + 1);
    }
  }

  lemma {:induction false} ScanProdsKeepsSet(t: seq<char>, prods: seq<seq<char>>, p: nat)
    requires p <= |prods| && NoDups(t)
    ensures NoDups(ScanProds(t, prods, p))
    decreases |prods| - p
  {
    if p < |prods| {
      ScanSymbolsKeepsSet(t, prods[p], 0);
      ScanProdsKeepsSet(ScanSymbols(t, prods[p], 0), prods, p + 1);
    }
  }

  lemma {:induction false} ScanRowsKeepsSet(t: seq<char>, g: Grammar, i: nat)
    requires i <= |g| && NoDups(t)
    ensures NoDups(ScanRows(t, g, i))
    decreases |g| - i
  {
    if i < |g| {
      ScanProdsKeepsSet(t, g[i].prods, 0);
      ScanRowsKeepsSet(ScanProds(t, g[i].prods, 0), g, i + 1);
    }
  }

  /** The column headings: exactly the terminals the productions use, plus
      '$', each once, and '$' last when no production uses it. */
  lemma TerminalsFacts(g: Grammar, c: char)
    ensures c in Terminals(g) <==> c == EndMarker || (IsTerminal(c) && Used(g, c))
    ensures NoDups(Terminals(g))
    ensures '\0' !in Terminals(g) && EpsilonMark !in Terminals(g)
    ensures !Used(g, EndMarker) ==> Terminals(g)[|Terminals(g)| - 1] == EndMarker
  {
    ScanRowsMembers([], g, 0, c);
    ScanRowsMembers([], g, 0, '\0');
    ScanRowsMembers([], g, 0, EpsilonMark);
    ScanRowsMembers([], g, 0, EndMarker);
    ScanRowsKeepsSet([], g, 0);
    AddToSetKeepsSet(ScanRows([], g, 0), EndMarker);
  }

  /** Every symbol of the productions from `p` on, in order. */
  function FlatProds(prods: seq<seq<char>>, p: nat): seq<char>
    requires p <= |prods|
    decreases |prods| - p
  {
    if p == |prods| then [] else prods[p] + FlatProds(prods, p + 1)
  }

  /** Every symbol of the rows from `i` on, row by row, production by
      production, position by position: the order `gatherTerminals` visits
      them in. */
  function FlatRows(g: Grammar, i: nat): seq<char>
    requires i <= |g|
    decreases |g| - i
  {
    if i == |g| then [] else FlatProds(g[i].prods, 0) + FlatRows(g, i + 1)
  }

  /** `Gather` over `xs`, one symbol after another. */
  function GatherFrom(t: seq<char>, xs: seq<char>): seq<char>
    decreases |xs|
  {
    if xs == [] then t else GatherFrom(Gather(t, xs[0]), xs[1..])
  }

  lemma {:induction false} GatherFromConcat(t: seq<char>, xs: seq<char>, ys: seq<char>)
    ensures GatherFrom(t, xs + ys) == GatherFrom(GatherFrom(t, xs), ys)
    decreases |xs|
  {
    if xs == [] {
      assert xs + ys == ys;
    } else {
      assert (xs + ys)[0] == xs[0] && (xs + ys)[1..] == xs[1..] + ys;
      GatherFromConcat(Gather(t, xs[0]), xs[1..], ys);
    }
  }

  lemma {:induction false} ScanSymbolsFlat(t: seq<char>, prod: seq<char>, k: nat)
    requires k <= |prod|
    ensures ScanSymbols(t, prod, k) == GatherFrom(t, prod[k..])
    decreases |prod| - k
  {
    if k < |prod| {
      assert prod[k..][0] == prod[k] && prod[k..][1..] == prod[k + 1..];
      ScanSymbolsFlat(Gather(t, prod[k]), prod, k + 1);
    } else {
      assert prod[k..] == [];
    }
  }

  lemma {:induction false} ScanProdsFlat(t: seq<char>, prods: seq<seq<char>>, p: nat)
    requires p <= |prods|
    ensures ScanProds(t, prods, p) == GatherFrom(t, FlatProds(prods, p))
    decreases |prods| - p
  {
    if p < |prods| {
      ScanSymbolsFlat(t, prods[p], 0);
      assert prods[p][0..] == prods[p];
      ScanProdsFlat(ScanSymbols(t, prods[p], 0), prods, p + 1);
      GatherFromConcat(t, prods[p], FlatProds(prods, p + 1));
    }
  }

  lemma {:induction false} ScanRowsFlat(t: seq<char>, g: Grammar, i: nat)
    requires i <= |g|
    ensures ScanRows(t, g, i) == GatherFrom(t, FlatRows(g, i))
    decreases |g| - i
  {
    if i < |g| {
      ScanProdsFlat(t, g[i].prods, 0);
      ScanRowsFlat(ScanProds(t, g[i].prods, 0), g, i + 1);
      GatherFromConcat(t, FlatProds(g[i].prods, 0), FlatRows(g, i + 1));
    }
  }

  /** `t` lists its characters in the order of their first occurrence in `f`. */
  predicate FirstUseOrder(t: seq<char>, f: seq<char>) {
    forall a, b :: 0 <= a < b < |t| ==> IndexOf(f, t[a]) < IndexOf(f, t[b])
  }

  /** Gathering the rest `xs` of `f == pre + xs` keeps a buffer that holds
      exactly the terminals of `pre` in first-use order. */
  lemma {:induction false} GatherFromOrder(t: seq<char>, pre: seq<char>, xs: seq<char>)
    requires forall e :: e in t ==> e in pre
    requires forall e :: e in pre && IsTerminal(e) ==> e in t
    requires FirstUseOrder(t, pre + xs)
    ensures FirstUseOrder(GatherFrom(t, xs), pre + xs)
    decreases |xs|
  {
    if xs != [] {
      var c, f := xs[0], pre + xs;
      var t' := Gather(t, c);
      assert (pre + [c]) + xs[1..] == f;
      if t' != t {
        assert t' == t + [c] && c !in pre;
        assert f[|pre|] == c;
        assert forall j :: 0 <= j < |pre| ==> f[j] == pre[j];
        assert IndexOf(f, c) == |pre|;
        forall a | 0 <= a < |t|
          ensures IndexOf(f, t[a]) < |pre|
        {
          assert t[a] in pre;
          var j := IndexOf(pre, t[a]);
          assert f[j] == t[a];
        }
      }
      GatherFromOrder(t', pre + [c], xs[1..]);
    }
  }

  /** `gatherTerminals` lists the terminals in the order the grammar first
      uses them. */
  lemma ScanRowsOrder(g: Grammar)
    ensures FirstUseOrder(ScanRows([], g, 0), FlatRows(g, 0))
  {
    var f := FlatRows(g, 0);
    ScanRowsFlat([], g, 0);
    assert [] + f == f;
    GatherFromOrder([], [], f);
  }

  /** The column order: two used terminals keep the order in which the
      productions first use them, row by row, production by production,
      position by position ('$' is appended after all of them only when no
      production uses it, TerminalsFacts). */
  lemma TerminalsOrder(g: Grammar, x: char, y: char)
    requires IsTerminal(x) && Used(g, x) && IsTerminal(y) && Used(g, y)
    ensures x in Terminals(g) && y in Terminals(g)
    ensures IndexOf(Terminals(g), x) < IndexOf(Terminals(g), y) <==>
      IndexOf(FlatRows(g, 0), x) < IndexOf(FlatRows(g, 0), y)
  {
    var f, s := FlatRows(g, 0), ScanRows([], g, 0);
    ScanRowsMembers([], g, 0, x);
    ScanRowsMembers([], g, 0, y);
    assert x in s && y in s;
    IndexOfPrefix(s, Terminals(g), x);
    IndexOfPrefix(s, Terminals(g), y);
    ScanRowsOrder(g);
    var ix, iy := IndexOf(s, x), IndexOf(s, y);
    if ix < iy {
      assert IndexOf(f, s[ix]) < IndexOf(f, s[iy]);
    } else if iy < ix {
      assert IndexOf(f, s[iy]) < IndexOf(f, s[ix]);
    }
  }

  /** `getTerminalIndex`: the column of `c`, or -1. */
  function TerminalIndex(terms: seq<char>, c: char): (r: int)
    ensures -1 <= r <= |terms|
    ensures 0 <= r < |terms| ==> terms[r] == c
    ensures r == -1 <==> c != '\0' && c !in terms
    ensures NoDups(terms) && c in terms ==> 0 <= r < |terms|
  {
    Strchr(terms, c)
  }

  /** The text `sprintf(productionString, "%c->%s", A, prod)` writes. */
  function ProductionString(a: char, prod: seq<char>): string {
    [a] + "->" + prod
  }

  /** A cell names its production unambiguously. */
  lemma ProductionStringInjective(a: char, p: seq<char>, b: char, q: seq<char>)
    ensures ProductionString(a, p) == ProductionString(b, q) <==> a == b && p == q
  {
    if ProductionString(a, p) == ProductionString(b, q) {
      assert ProductionString(a, p)[0] == a;
      assert ProductionString(a, p)[3..] == p;
      assert ProductionString(b, q)[3..] == q;
    }
  }

  /** FOLLOW of `a` as `buildLL1Table` copies it: the first row of `a`, or
      an empty string when there is none. */
  function FollowOf(s: SetsTable, a: char): seq<char> {
    var k := FindSetsIndex(s, a);
    if k >= 0 then s[k].follow else []
  }

  /** `str` written into the column of each character of `xs`, in order; a
      character without a column is skipped (main.c:486-494, 505-510). */
  function WriteCells(row: seq<string>, terms: seq<char>, xs: seq<char>, str: string): (r: seq<string>)
    ensures |r| == |row|
    decreases |xs|
  {
    if xs == [] then row
    else
      var col := TerminalIndex(terms, xs[0]);
      WriteCells(if 0 <= col < |row| then row[col := str] else row, terms, xs[1..], str)
  }

  /** One step of WriteCells along `xs` from `s`. */
  lemma WriteCellsStep(row: seq<string>, terms: seq<char>, xs: seq<char>, s: nat, str: string)
    requires s < |xs|
    ensures var col := TerminalIndex(terms, xs[s]);
      WriteCells(row, terms, xs[s..], str) ==
        WriteCells(if 0 <= col < |row| then row[col := str] else row, terms, xs[s + 1..], str)
  {
    assert xs[s..][1..] == xs[s + 1..];
  }

  /** One step of WriteCells along `xs` from `s` with the occurrences of
      `c` skipped. */
  lemma WriteCellsWithoutStep(row: seq<string>, terms: seq<char>, xs: seq<char>, s: nat, c: char, str: string)
    requires s < |xs|
    ensures var col := TerminalIndex(terms, xs[s]);
      WriteCells(row, terms, Without(xs[s..], c), str) ==
        if xs[s] == c then WriteCells(row, terms, Without(xs[s + 1..], c), str)
        else WriteCells(if 0 <= col < |row| then row[col := str] else row, terms, Without(xs[s + 1..], c), str)
  {
    var ys := xs[s..];
    assert ys[1..] == xs[s + 1..];
    var rest := Without(xs[s + 1..], c);
    assert Without(ys, c) == (if xs[s] != c then [xs[s]] else []) + rest;
    if xs[s] != c {
      var w := [xs[s]] + rest;
      assert w[0] == xs[s] && w[1..] == rest;
      var col := TerminalIndex(terms, xs[s]);
      assert WriteCells(row, terms, w, str) ==
        WriteCells(if 0 <= col < |row| then row[col := str] else row, terms, rest, str);
    } else {
      assert [] + rest == rest;
    }
  }

  /** With each terminal in one column, a cell is written exactly when its
      terminal is in `xs`. */
  lemma {:induction false} WriteCellsAt(row: seq<string>, terms: seq<char>, xs: seq<char>, str: string, col: nat)
    requires NoDups(terms)
    requires |row| == |terms| && col < |row|
    ensures WriteCells(row, terms, xs, str)[col] == if terms[col] in xs then str else row[col]
    decreases |xs|
  {
    if xs != [] {
      var c := TerminalIndex(terms, xs[0]);
      var r1 := if 0 <= c < |row| then row[c := str] else row;
      WriteCellsAt(r1, terms, xs[1..], str, col);
      assert xs == [xs[0]] + xs[1..];
      if terms[col] == xs[0] {
        assert c == col;
      }
    }
  }

  /** FIRST of production `p` of row `i` as `buildLL1Table` builds it in `firstP`. */
  function FirstP(g: Grammar, i: nat, p: nat, fuel: nat): seq<char>
    requires AllTerminate(g, fuel)
    requires i < |g| && p < |g[i].prods|
  {
    FirstOfProduction(g, g[i].prods[p], fuel)
  }

  /** What one pass of the `p` loop writes into row `i` (main.c:457-511):
      the production into the column of each non-'~' member of its FIRST,
      and, when that FIRST has '~', into the column of each member of
      FOLLOW of the head. */
  function ProductionCells(g: Grammar, s: SetsTable, terms: seq<char>, fuel: nat, i: nat, p: nat, row: seq<string>): (r: seq<string>)
    requires AllTerminate(g, fuel)
    requires i < |g| && p < |g[i].prods|
    ensures |r| == |row|
  {
    var firstP := FirstP(g, i, p, fuel);
    var str := ProductionString(g[i].head, g[i].prods[p]);
    var r := WriteCells(row, terms, Without(firstP, EpsilonMark), str);
    if ContainsSymbol(firstP, EpsilonMark) then WriteCells(r, terms, FollowOf(s, g[i].head), str) else r
  }

  /** The textbook rule for an LL(1) table entry M[A, a] for `A -> alpha`:
      `a` is in FIRST(alpha) other than '~', or '~' is in FIRST(alpha) and
      `a` is in FOLLOW(A). */
  predicate Claims(g: Grammar, s: SetsTable, terms: seq<char>, fuel: nat, i: nat, p: nat, col: nat)
    requires AllTerminate(g, fuel)
    requires i < |g| && p < |g[i].prods| && col < |terms|
  {
    var firstP := FirstP(g, i, p, fuel);
    (terms[col] != EpsilonMark && terms[col] in firstP) ||
    (EpsilonMark in firstP && terms[col] in FollowOf(s, g[i].head))
  }

  lemma ProductionCellsAt(g: Grammar, s: SetsTable, terms: seq<char>, fuel: nat, i: nat, p: nat, row: seq<string>, col: nat)
    requires AllTerminate(g, fuel)
    requires NoDups(terms)
    requires i < |g| && p < |g[i].prods|
    requires |row| == |terms| && col < |row|
    ensures ProductionCells(g, s, terms, fuel, i, p, row)[col] ==
      if Claims(g, s, terms, fuel, i, p, col) then ProductionString(g[i].head, g[i].prods[p]) else row[col]
  {
    var firstP := FirstP(g, i, p, fuel);
    var str := ProductionString(g[i].head, g[i].prods[p]);
    WriteCellsAt(row, terms, Without(firstP, EpsilonMark), str, col);
    var r := WriteCells(row, terms, Without(firstP, EpsilonMark), str);
    WriteCellsAt(r, terms, FollowOf(s, g[i].head), str, col);
  }

  /** The `p` loop of `buildLL1Table` over row `i`, from `p` on. */
  function RowCells(g: Grammar, s: SetsTable, terms: seq<char>, fuel: nat, i: nat, p: nat, row: seq<string>): (r: seq<string>)
    requires AllTerminate(g, fuel)
    requires i < |g| && p <= |g[i].prods|
    ensures |r| == |row|
    decreases |g[i].prods| - p
  {
    if p == |g[i].prods| then row
    else RowCells(g, s, terms, fuel, i, p + 1, ProductionCells(g, s, terms, fuel, i, p, row))
  }

  /** The last index from `p` on where `bs` holds, or -1. */
  function LastTrue(bs: seq<bool>, p: nat): (r: int)
    requires p <= |bs|
    ensures r == -1 || p <= r < |bs|
    decreases |bs| - p
  {
    if p == |bs| then -1
    else
      var later := LastTrue(bs, p + 1);
      if later >= 0 then later else if bs[p] then p else -1
  }

  /** LastTrue finds a true entry, and every later entry is false. */
  lemma {:induction false} LastTrueIsLast(bs: seq<bool>, p: nat, q: nat)
    requires p <= |bs|
    ensures LastTrue(bs, p) >= 0 ==> bs[LastTrue(bs, p)]
    ensures p <= q < |bs| && LastTrue(bs, p) < q ==> !bs[q]
    decreases |bs| - p
  {
    if p < |bs| {
      LastTrueIsLast(bs, p + 1, q);
    }
  }

  /** Which productions of row `i` claim column `col`. */
  function ClaimsOf(g: Grammar, s: SetsTable, terms: seq<char>, fuel: nat, i: nat, col: nat): (bs: seq<bool>)
    requires AllTerminate(g, fuel)
    requires i < |g| && col < |terms|
    ensures |bs| == |g[i].prods|
    ensures forall q :: 0 <= q < |bs| ==> bs[q] == Claims(g, s, terms, fuel, i, q, col)
  {
    seq(|g[i].prods|, q requires 0 <= q < |g[i].prods| => Claims(g, s, terms, fuel, i, q, col))
  }

  lemma {:induction false} RowCellsAt(g: Grammar, s: SetsTable, terms: seq<char>, fuel: nat, i: nat, p: nat, row: seq<string>, col: nat)
    requires AllTerminate(g, fuel)
    requires NoDups(terms)
    requires i < |g| && p <= |g[i].prods|
    requires |row| == |terms| && col < |row|
    ensures var q := LastTrue(ClaimsOf(g, s, terms, fuel, i, col), p);
      RowCells(g, s, terms, fuel, i, p, row)[col] ==
        if q >= 0 then ProductionString(g[i].head, g[i].prods[q]) else row[col]
    decreases |g[i].prods| - p
  {
    if p < |g[i].prods| {
      var next := ProductionCells(g, s, terms, fuel, i, p, row);
      ProductionCellsAt(g, s, terms, fuel, i, p, row, col);
      RowCellsAt(g, s, terms, fuel, i, p + 1, next, col);
    }
  }

  /** The table `buildLL1Table` leaves over the columns `terms`: row `i`
      starts empty and is filled by row `i`'s productions only. */
  function TableOver(g: Grammar, s: SetsTable, terms: seq<char>, fuel: nat): (t: seq<seq<string>>)
    requires AllTerminate(g, fuel)
    ensures |t| == |g| && forall i :: 0 <= i < |g| ==> |t[i]| == |terms|
  {
    seq(|g|, i requires 0 <= i < |g| => RowCells(g, s, terms, fuel, i, 0, seq(|terms|, _ => "")))
  }

  /** `gatherTerminals` then `buildLL1Table`. */
  function BuildTable(g: Grammar, s: SetsTable, fuel: nat): (t: seq<seq<string>>)
    requires AllTerminate(g, fuel)
  {
    TableOver(g, s, Terminals(g), fuel)
  }

  /** Each cell holds the last production of its row that claims it by the
      LL(1) rule, and is empty when none does: there is no conflict check,
      so an earlier claimant is silently overwritten. */
  lemma TableCell(g: Grammar, s: SetsTable, fuel: nat, i: nat, col: nat)
    requires AllTerminate(g, fuel)
    requires i < |g| && col < |Terminals(g)|
    ensures |BuildTable(g, s, fuel)| == |g| && |BuildTable(g, s, fuel)[i]| == |Terminals(g)|
    ensures (forall q :: 0 <= q < |g[i].prods| ==> !Claims(g, s, Terminals(g), fuel, i, q, col)) ==>
      BuildTable(g, s, fuel)[i][col] == ""
    ensures forall q :: (0 <= q < |g[i].prods| && Claims(g, s, Terminals(g), fuel, i, q, col) &&
        forall later :: q < later < |g[i].prods| ==> !Claims(g, s, Terminals(g), fuel, i, later, col)) ==>
      BuildTable(g, s, fuel)[i][col] == ProductionString(g[i].head, g[i].prods[q])
  {
    var terms := Terminals(g);
    TerminalsFacts(g, '\0');
    var bs := ClaimsOf(g, s, terms, fuel, i, col);
    RowCellsAt(g, s, terms, fuel, i, 0, seq(|terms|, _ => ""), col);
    var r := LastTrue(bs, 0);
    LastTrueIsLast(bs, 0, 0);
    forall q | 0 <= q < |g[i].prods| && Claims(g, s, terms, fuel, i, q, col) &&
      (forall later :: q < later < |g[i].prods| ==> !Claims(g, s, terms, fuel, i, later, col))
      ensures r == q
    {
      LastTrueIsLast(bs, 0, q);
    }
    if r >= 0 {
      assert Claims(g, s, terms, fuel, i, r, col);
    } else {
      assert BuildTable(g, s, fuel)[i][col] == "";
    }
  }

  /** The LL(1) rule spelled out over the FIRST sets of single symbols:
      column `a` is claimed through FIRST when some symbol of the production
      has `a` in its FIRST and every symbol before it has '~' in its FIRST,
      and through FOLLOW when every symbol has '~' in its FIRST. */
  lemma ClaimsMeaning(g: Grammar, s: SetsTable, terms: seq<char>, fuel: nat, i: nat, p: nat, col: nat)
    requires AllTerminate(g, fuel)
    requires i < |g| && p < |g[i].prods| && col < |terms|
    ensures var prod, a := g[i].prods[p], terms[col];
      Claims(g, s, terms, fuel, i, p, col) <==>
        (a != EpsilonMark &&
         exists j :: 0 <= j < |prod| && a in Sub(g, prod[j], fuel) &&
           forall m :: 0 <= m < j ==> EpsilonMark in Sub(g, prod[m], fuel)) ||
        ((forall j :: 0 <= j < |prod| ==> EpsilonMark in Sub(g, prod[j], fuel)) &&
         a in FollowOf(s, g[i].head))
  {
    var prod, a := g[i].prods[p], terms[col];
    FirstOfProductionMembers(g, prod, fuel, a);
    FirstOfProductionMembers(g, prod, fuel, EpsilonMark);
    WalkReachesEnd(g, prod, 0, fuel);
    if a != EpsilonMark {
      WalkCollects(g, prod, 0, fuel, a);
    }
  }
}
