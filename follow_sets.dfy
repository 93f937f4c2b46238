/** FOLLOW sets (`computeFollowSets`): '$' goes into the FOLLOW set of row 0,
    then rounds over every occurrence of a nonterminal in every production
    repeat until a round adds nothing. FIRST of the symbols after an
    occurrence is computed afresh with `computeFirst`, so a round needs the
    same `fuel` bound as the FIRST sets. */
module FollowSets {
  import opened Symbols
  import opened CharSets
  import opened Grammars
  import opened FirstSets

  /** A character a FOLLOW buffer may hold: a byte other than '~' and the
      terminator. */
  predicate FollowChar(x: char) {
    IsByte(x) && x != EpsilonMark && x != '\0'
  }

  /** The FOLLOW buffers of the sets table, row by row: the only column
      `computeFollowSets` writes. */
  type Follows = seq<seq<char>>

  /** Every FOLLOW buffer is a set of such characters. */
  predicate CleanFollows(f: Follows) {
    forall j {:trigger f[j]} :: 0 <= j < |f| ==>
      NoDups(f[j]) && forall x :: x in f[j] ==> FollowChar(x)
  }

  /** `t` is `f` with characters appended to some buffers, from row `k` on.
      Stated row by row so that a proof unfolds only the rows it needs. */
  predicate GrowsFrom(f: Follows, t: Follows, k: nat)
    requires |t| == |f|
    decreases |f| - k
  {
    k >= |f| || (f[k] <= t[k] && GrowsFrom(f, t, k + 1))
  }

  /** `t` is `f` with characters appended to some buffers. */
  predicate Grows(f: Follows, t: Follows) {
    |t| == |f| && GrowsFrom(f, t, 0)
  }

  lemma {:induction false} GrowsFromAll(f: Follows, t: Follows, k: nat)
    requires |t| == |f|
    ensures GrowsFrom(f, t, k) <==> forall j :: k <= j < |f| ==> f[j] <= t[j]
    decreases |f| - k
  {
    if k < |f| {
      GrowsFromAll(f, t, k + 1);
    }
  }

  lemma GrowsRefl(f: Follows)
    ensures Grows(f, f)
  {
    GrowsFromAll(f, f, 0);
  }

  /** Appending to one buffer is growing. */
  lemma GrowsUpdate(f: Follows, idx: nat, x: seq<char>)
    requires idx < |f| && f[idx] <= x
    ensures Grows(f, f[idx := x])
  {
    GrowsFromAll(f, f[idx := x], 0);
  }

  lemma GrowsTrans(f: Follows, t: Follows, u: Follows)
    requires Grows(f, t) && Grows(t, u)
    ensures Grows(f, u)
  {
    GrowsFromAll(f, t, 0);
    GrowsFromAll(t, u, 0);
    GrowsFromAll(f, u, 0);
    forall j | 0 <= j < |f| ensures f[j] <= u[j] {
      assert u[j][..|t[j]|] == t[j];
      assert t[j][..|f[j]|] == f[j];
      assert u[j][..|f[j]|] == f[j];
    }
  }

  /** Two columns that have each grown from the other are equal. */
  lemma GrowsBack(f: Follows, t: Follows)
    requires Grows(f, t) && Grows(t, f)
    ensures f == t
  {
    GrowsFromAll(f, t, 0);
    GrowsFromAll(t, f, 0);
    forall j | 0 <= j < |f| ensures f[j] == t[j] {
      assert f[j] <= t[j];
    }
  }

  /** The FOLLOW column of a sets table. */
  function FollowColumn(s: SetsTable): (f: Follows)
    ensures |f| == |s| && forall j :: 0 <= j < |s| ==> f[j] == s[j].follow
  {
    seq(|s|, j requires 0 <= j < |s| => s[j].follow)
  }

  /** The sets table with its FOLLOW column replaced. */
  function WithFollows(s: SetsTable, f: Follows): (r: SetsTable)
    requires |f| == |s|
    ensures |r| == |s| && forall j :: 0 <= j < |s| ==> r[j] == s[j].(follow := f[j])
  {
    seq(|s|, j requires 0 <= j < |s| => s[j].(follow := f[j]))
  }

  /** The occurrence of symbol `pos` of production `p` of row `i`. */
  predicate IsOccurrence(g: Grammar, i: nat, p: nat, pos: nat) {
    i < |g| && p < |g[i].prods| && pos < |g[i].prods[p]|
  }


  /** The `q` loop of one occurrence (main.c:366-387), from `q` on, writing
      into buffer `ib`: FIRST of `prod[q]` without '~' goes in, and the loop
      goes on only while that FIRST has '~'. Running off the end of the
      production is the `allEpsilon` case (main.c:389-397): buffer `ia`,
      FOLLOW of the row's head, is copied in as it reads at that moment.
      `computeFirst` fills a fresh scratch buffer whose characters are then
      copied in order; copying the characters it adds instead comes to the
      same thing (CharSets.AddAllDedup). */
  function Beta(g: Grammar, f: Follows, prod: seq<char>, q: nat, ib: nat, ia: nat, fuel: nat): (r: Follows)
    requires AllTerminate(g, fuel)
    requires q <= |prod| && ib < |f| && ia < |f|
    ensures Grows(f, r)
    decreases |prod| - q
  {
    if q == |prod| then
      var nb := AddAll(f[ib], f[ia]);
      GrowsUpdate(f, ib, nb);
      f[ib := nb]
    else
      var e := Sub(g, prod[q], fuel);
      var nb := AddAll(f[ib], Without(e, EpsilonMark));
      GrowsUpdate(f, ib, nb);
      var t := f[ib := nb];
      if EpsilonMark in e then
        var r := Beta(g, t, prod, q + 1, ib, ia, fuel);
        GrowsTrans(f, t, r);
        r
      else t
  }

  /** One pass of the `q` loop, and the end of the production. */
  lemma BetaStep(g: Grammar, f: Follows, prod: seq<char>, q: nat, ib: nat, ia: nat, fuel: nat)
    requires AllTerminate(g, fuel)
    requires q < |prod| && ib < |f| && ia < |f|
    ensures var e := Sub(g, prod[q], fuel);
      var t := f[ib := AddAll(f[ib], Without(e, EpsilonMark))];
      Beta(g, f, prod, q, ib, ia, fuel) == if EpsilonMark in e then Beta(g, t, prod, q + 1, ib, ia, fuel) else t
  {
  }

  lemma BetaEnd(g: Grammar, f: Follows, prod: seq<char>, ib: nat, ia: nat, fuel: nat)
    requires AllTerminate(g, fuel)
    requires ib < |f| && ia < |f|
    ensures Beta(g, f, prod, |prod|, ib, ia, fuel) == f[ib := AddAll(f[ib], f[ia])]
  {
  }

  /** One pass of the `q` loop as the source runs it: `computeFirst` into an
      empty scratch buffer, whose non-'~' members are copied into row `ib`;
      the loop goes on only when the scratch buffer has '~'. The scratch
      buffer holds FIRST of the symbol once each, which copies the same
      characters (CharSets.AddAllDedup). */
  lemma BetaScratchStep(g: Grammar, f: Follows, prod: seq<char>, q: nat, ib: nat, ia: nat, fuel: nat)
    requires AllTerminate(g, fuel)
    requires q < |prod| && ib < |f| && ia < |f|
    ensures FirstInto(g, prod[q], [], fuel).Some?
    ensures var sub := FirstInto(g, prod[q], [], fuel).value;
      var t := f[ib := AddAll(f[ib], Without(sub, EpsilonMark))];
      Beta(g, f, prod, q, ib, ia, fuel) ==
        if ContainsSymbol(sub, EpsilonMark) then Beta(g, t, prod, q + 1, ib, ia, fuel) else t
  {
    var e := Sub(g, prod[q], fuel);
    AddAllDedup(f[ib], e, EpsilonMark);
    BetaStep(g, f, prod, q, ib, ia, fuel);
  }

  lemma {:induction false} BetaClean(g: Grammar, f: Follows, prod: seq<char>, q: nat, ib: nat, ia: nat, fuel: nat)
    requires AllTerminate(g, fuel) && ByteGrammar(g)
    requires forall j :: 0 <= j < |prod| ==> IsByte(prod[j])
    requires q <= |prod| && ib < |f| && ia < |f| && CleanFollows(f)
    ensures CleanFollows(Beta(g, f, prod, q, ib, ia, fuel))
    decreases |prod| - q
  {
    if q == |prod| {
      AddAllKeepsSet(f[ib], f[ia]);
      var nb := AddAll(f[ib], f[ia]);
      assert forall x :: x in nb ==> FollowChar(x);
      assert Beta(g, f, prod, q, ib, ia, fuel) == f[ib := nb];
    } else {
      var e := Sub(g, prod[q], fuel);
      EmittedKinds(g, prod[q], fuel);
      AddAllKeepsSet(f[ib], Without(e, EpsilonMark));
      var nb := AddAll(f[ib], Without(e, EpsilonMark));
      assert forall x :: x in nb ==> FollowChar(x);
      var t := f[ib := nb];
      assert CleanFollows(t);
      if EpsilonMark in e {
        BetaClean(g, t, prod, q + 1, ib, ia, fuel);
      }
    }
  }

  /** A `q` loop that adds nothing finds everything it would add in place:
      FIRST of each symbol it reaches, and FOLLOW of the head when it runs
      off the end. */
  lemma {:induction false} BetaSettled(g: Grammar, f: Follows, prod: seq<char>, q: nat, ib: nat, ia: nat, fuel: nat, c: char)
    requires AllTerminate(g, fuel)
    requires q <= |prod| && ib < |f| && ia < |f| && CleanFollows(f)
    requires Beta(g, f, prod, q, ib, ia, fuel) == f
    ensures ReachedFrom(g, prod, q, fuel, c) && c != EpsilonMark ==> c in f[ib]
    ensures NullableFrom(g, prod, q, fuel) && c in f[ia] ==> c in f[ib]
    decreases |prod| - q
  {
    if q == |prod| {
      var nb := AddAll(f[ib], f[ia]);
      assert f[ib := nb][ib] == nb;
      if c in f[ia] {
        assert FollowChar(c);
      }
    } else {
      var e := Sub(g, prod[q], fuel);
      EmittedKinds(g, prod[q], fuel);
      var nb := AddAll(f[ib], Without(e, EpsilonMark));
      GrowsUpdate(f, ib, nb);
      var t := f[ib := nb];
      if EpsilonMark in e {
        GrowsBack(f, t);
        BetaSettled(g, f, prod, q + 1, ib, ia, fuel, c);
      }
      assert t[ib] == nb;
      if c in e && c != EpsilonMark {
        assert c in Without(e, EpsilonMark);
      }
    }
  }

  /** The row of a grammar's own head: found, since it heads a row. */
  lemma HeadRow(g: Grammar, i: nat)
    requires i < |g|
    ensures 0 <= FindNonTermIndex(g, g[i].head) <= i
  {
    assert g[i].head in HeadSet(g);
  }

  /** One pass of the `pos` loop (main.c:355-398). The symbol `B` at `pos`
      is skipped unless it is an upper-case letter with a row; otherwise the
      `q` loop runs from `pos + 1`. Rows are found by the grammar lookup,
      which agrees with the sets-table lookup (Grammars.AlignedLookup);
      FOLLOW of the head is looked up once per row (main.c:341-347). */
  function Occurrence(g: Grammar, f: Follows, i: nat, p: nat, pos: nat, fuel: nat): (r: Follows)
    requires AllTerminate(g, fuel)
    requires |f| == |g|
    requires IsOccurrence(g, i, p, pos)
    ensures Grows(f, r)
  {
    var prod := g[i].prods[p];
    var b := prod[pos];
    var ib := FindNonTermIndex(g, b);
    if !IsNonTerminal(b) || ib < 0 then GrowsRefl(f); f
    else
      HeadRow(g, i);
      Beta(g, f, prod, pos + 1, ib, FindNonTermIndex(g, g[i].head), fuel)
  }

  lemma OccurrenceClean(g: Grammar, f: Follows, i: nat, p: nat, pos: nat, fuel: nat)
    requires AllTerminate(g, fuel) && ByteGrammar(g)
    requires |f| == |g| && CleanFollows(f)
    requires IsOccurrence(g, i, p, pos)
    ensures CleanFollows(Occurrence(g, f, i, p, pos, fuel))
  {
    var prod := g[i].prods[p];
    var ib := FindNonTermIndex(g, prod[pos]);
    if IsNonTerminal(prod[pos]) && ib >= 0 {
      HeadRow(g, i);
      assert forall j :: 0 <= j < |prod| ==> IsByte(prod[j]);
      BetaClean(g, f, prod, pos + 1, ib, FindNonTermIndex(g, g[i].head), fuel);
    }
  }

  /** The `pos` loop over production `p` of row `i`, from `pos` on. */
  function SweepPositions(g: Grammar, f: Follows, i: nat, p: nat, pos: nat, fuel: nat): (r: Follows)
    requires AllTerminate(g, fuel)
    requires |f| == |g|
    requires i < |g| && p < |g[i].prods| && pos <= |g[i].prods[p]|
    ensures Grows(f, r)
    decreases |g[i].prods[p]| - pos
  {
    if pos == |g[i].prods[p]| then GrowsRefl(f); f
    else
      var t := Occurrence(g, f, i, p, pos, fuel);
      var r := SweepPositions(g, t, i, p, pos + 1, fuel);
      GrowsTrans(f, t, r);
      r
  }

  /** One step of the `pos` loop. */
  lemma PositionsStep(g: Grammar, f: Follows, i: nat, p: nat, pos: nat, fuel: nat)
    requires AllTerminate(g, fuel)
    requires |f| == |g| && IsOccurrence(g, i, p, pos)
    ensures SweepPositions(g, f, i, p, pos, fuel) ==
      SweepPositions(g, Occurrence(g, f, i, p, pos, fuel), i, p, pos + 1, fuel)
  {
  }

  /** The `p` loop over the productions of row `i`, from `p` on. */
  function SweepProductions(g: Grammar, f: Follows, i: nat, p: nat, fuel: nat): (r: Follows)
    requires AllTerminate(g, fuel)
    requires |f| == |g|
    requires i < |g| && p <= |g[i].prods|
    ensures Grows(f, r)
    decreases |g[i].prods| - p
  {
    if p == |g[i].prods| then GrowsRefl(f); f
    else
      var t := SweepPositions(g, f, i, p, 0, fuel);
      var r := SweepProductions(g, t, i, p + 1, fuel);
      GrowsTrans(f, t, r);
      r
  }

  /** One step of the `p` loop. */
  lemma ProductionsStep(g: Grammar, f: Follows, i: nat, p: nat, fuel: nat)
    requires AllTerminate(g, fuel)
    requires |f| == |g| && i < |g| && p < |g[i].prods|
    ensures SweepProductions(g, f, i, p, fuel) ==
      SweepProductions(g, SweepPositions(g, f, i, p, 0, fuel), i, p + 1, fuel)
  {
  }

  /** The `i` loop over the rows, from `i` on. */
  function SweepRows(g: Grammar, f: Follows, i: nat, fuel: nat): (r: Follows)
    requires AllTerminate(g, fuel)
    requires |f| == |g|
    requires i <= |g|
    ensures Grows(f, r)
    decreases |g| - i
  {
    if i == |g| then GrowsRefl(f); f
    else
      var t := SweepProductions(g, f, i, 0, fuel);
      var r := SweepRows(g, t, i + 1, fuel);
      GrowsTrans(f, t, r);
      r
  }

  /** One round of the `while(changed)` loop. */
  function Round(g: Grammar, f: Follows, fuel: nat): (r: Follows)
    requires AllTerminate(g, fuel)
    requires |f| == |g|
    ensures Grows(f, r)
  {
    SweepRows(g, f, 0, fuel)
  }

  lemma {:induction false} PositionsClean(g: Grammar, f: Follows, i: nat, p: nat, pos: nat, fuel: nat)
    requires AllTerminate(g, fuel) && ByteGrammar(g)
    requires |f| == |g| && CleanFollows(f)
    requires i < |g| && p < |g[i].prods| && pos <= |g[i].prods[p]|
    ensures CleanFollows(SweepPositions(g, f, i, p, pos, fuel))
    decreases |g[i].prods[p]| - pos
  {
    if pos < |g[i].prods[p]| {
      OccurrenceClean(g, f, i, p, pos, fuel);
      PositionsClean(g, Occurrence(g, f, i, p, pos, fuel), i, p, pos + 1, fuel);
    }
  }

  lemma {:induction false} ProductionsClean(g: Grammar, f: Follows, i: nat, p: nat, fuel: nat)
    requires AllTerminate(g, fuel) && ByteGrammar(g)
    requires |f| == |g| && CleanFollows(f)
    requires i < |g| && p <= |g[i].prods|
    ensures CleanFollows(SweepProductions(g, f, i, p, fuel))
    decreases |g[i].prods| - p
  {
    if p < |g[i].prods| {
      PositionsClean(g, f, i, p, 0, fuel);
      ProductionsClean(g, SweepPositions(g, f, i, p, 0, fuel), i, p + 1, fuel);
    }
  }

  lemma {:induction false} RowsClean(g: Grammar, f: Follows, i: nat, fuel: nat)
    requires AllTerminate(g, fuel) && ByteGrammar(g)
    requires |f| == |g| && CleanFollows(f)
    requires i <= |g|
    ensures CleanFollows(SweepRows(g, f, i, fuel))
    decreases |g| - i
  {
    if i < |g| {
      ProductionsClean(g, f, i, 0, fuel);
      RowsClean(g, SweepProductions(g, f, i, 0, fuel), i + 1, fuel);
    }
  }

  /** The first step of a `pos` loop that changes nothing changes nothing. */
  lemma PositionsFixedStep(g: Grammar, f: Follows, i: nat, p: nat, pos: nat, fuel: nat)
    requires AllTerminate(g, fuel)
    requires |f| == |g|
    requires i < |g| && p < |g[i].prods| && pos < |g[i].prods[p]|
    requires SweepPositions(g, f, i, p, pos, fuel) == f
    ensures Occurrence(g, f, i, p, pos, fuel) == f
    ensures SweepPositions(g, f, i, p, pos + 1, fuel) == f
  {
    GrowsBack(f, Occurrence(g, f, i, p, pos, fuel));
  }

  /** A `pos` loop that changes nothing also changes nothing from any later
      position on. */
  lemma {:induction false} PositionsTail(g: Grammar, f: Follows, i: nat, p: nat, pos: nat, at: nat, fuel: nat)
    requires AllTerminate(g, fuel)
    requires |f| == |g|
    requires i < |g| && p < |g[i].prods| && pos <= at <= |g[i].prods[p]|
    requires SweepPositions(g, f, i, p, pos, fuel) == f
    ensures SweepPositions(g, f, i, p, at, fuel) == f
    decreases at - pos
  {
    if pos < at {
      PositionsFixedStep(g, f, i, p, pos, fuel);
      PositionsTail(g, f, i, p, pos + 1, at, fuel);
    }
  }

  /** The first step of a `p` loop that changes nothing changes nothing. */
  lemma ProductionsFixedStep(g: Grammar, f: Follows, i: nat, p: nat, fuel: nat)
    requires AllTerminate(g, fuel)
    requires |f| == |g|
    requires i < |g| && p < |g[i].prods|
    requires SweepProductions(g, f, i, p, fuel) == f
    ensures SweepPositions(g, f, i, p, 0, fuel) == f
    ensures SweepProductions(g, f, i, p + 1, fuel) == f
  {
    GrowsBack(f, SweepPositions(g, f, i, p, 0, fuel));
  }

  /** A `p` loop that changes nothing also changes nothing from any later
      production on. */
  lemma {:induction false} ProductionsTail(g: Grammar, f: Follows, i: nat, p: nat, at: nat, fuel: nat)
    requires AllTerminate(g, fuel)
    requires |f| == |g|
    requires i < |g| && p <= at <= |g[i].prods|
    requires SweepProductions(g, f, i, p, fuel) == f
    ensures SweepProductions(g, f, i, at, fuel) == f
    decreases at - p
  {
    if p < at {
      ProductionsFixedStep(g, f, i, p, fuel);
      ProductionsTail(g, f, i, p + 1, at, fuel);
    }
  }

  /** The first step of an `i` loop that changes nothing changes nothing. */
  lemma RowsFixedStep(g: Grammar, f: Follows, i: nat, fuel: nat)
    requires AllTerminate(g, fuel)
    requires |f| == |g|
    requires i < |g|
    requires SweepRows(g, f, i, fuel) == f
    ensures SweepProductions(g, f, i, 0, fuel) == f
    ensures SweepRows(g, f, i + 1, fuel) == f
  {
    GrowsBack(f, SweepProductions(g, f, i, 0, fuel));
  }

  /** An `i` loop that changes nothing also changes nothing from any later
      row on. */
  lemma {:induction false} RowsTail(g: Grammar, f: Follows, i: nat, at: nat, fuel: nat)
    requires AllTerminate(g, fuel)
    requires |f| == |g|
    requires i <= at <= |g|
    requires SweepRows(g, f, i, fuel) == f
    ensures SweepRows(g, f, at, fuel) == f
    decreases at - i
  {
    if i < at {
      RowsFixedStep(g, f, i, fuel);
      RowsTail(g, f, i + 1, at, fuel);
    }
  }

  /** The sum of the lengths of the buffers from row `k` on. */
  function TotalFollow(f: Follows, k: nat): nat
    requires k <= |f|
    decreases |f| - k
  {
    if k == |f| then 0 else |f[k]| + TotalFollow(f, k + 1)
  }

  /** Growth shows in the total, and strict growth strictly. */
  lemma {:induction false} TotalFollowGrows(f: Follows, t: Follows, k: nat)
    requires |t| == |f| && k <= |f| && GrowsFrom(f, t, k)
    ensures TotalFollow(f, k) <= TotalFollow(t, k)
    ensures f[k..] != t[k..] ==> TotalFollow(f, k) < TotalFollow(t, k)
    decreases |f| - k
  {
    if k < |f| {
      TotalFollowGrows(f, t, k + 1);
      assert f[k..] == [f[k]] + f[k + 1..];
      assert t[k..] == [t[k]] + t[k + 1..];
      if f[k] != t[k] {
        assert |f[k]| < |t[k]|;
      }
    }
  }

  /** Changing one buffer changes the total by its change in length. */
  lemma {:induction false} TotalFollowAt(f: Follows, r: Follows, ib: nat, k: nat)
    requires |r| == |f| && ib < |f| && k <= |f|
    requires forall j :: k <= j < |f| && j != ib ==> r[j] == f[j]
    ensures k <= ib ==> TotalFollow(r, k) + |f[ib]| == TotalFollow(f, k) + |r[ib]|
    ensures ib < k ==> TotalFollow(r, k) == TotalFollow(f, k)
    decreases |f| - k
  {
    if k < |f| {
      TotalFollowAt(f, r, ib, k + 1);
    }
  }

  /** Two columns that agree outside row `ib` are equal exactly when they
      agree at `ib`. */
  lemma DifferOnlyAt(f: Follows, r: Follows, ib: nat)
    requires |r| == |f| && ib < |f|
    requires forall j :: 0 <= j < |f| && j != ib ==> r[j] == f[j]
    ensures r == f <==> r[ib] == f[ib]
  {
    if r[ib] == f[ib] {
      assert forall j :: 0 <= j < |f| ==> r[j] == f[j];
    }
  }

  /** Once the buffers have grown, any later growth keeps them different
      from where they started. */
  lemma GrowsChanged(f: Follows, t: Follows, u: Follows)
    requires Grows(f, t) && Grows(t, u) && t != u
    ensures f != u
  {
    TotalFollowGrows(f, t, 0);
    TotalFollowGrows(t, u, 0);
    assert t[0..] == t && u[0..] == u;
  }

  /** Room for every byte in each of `n` buffers. */
  function Capacity(n: nat): nat {
    if n == 0 then 0 else |ByteChars()| + Capacity(n - 1)
  }

  /** Clean buffers hold at most one copy of each byte. */
  lemma {:induction false} TotalFollowBounded(f: Follows, k: nat)
    requires CleanFollows(f) && k <= |f|
    ensures TotalFollow(f, k) <= Capacity(|f| - k)
    decreases |f| - k
  {
    if k < |f| {
      TotalFollowBounded(f, k + 1);
      assert forall x :: x in f[k] ==> x in ByteChars();
      NoDupsBounded(f[k], ByteChars());
    }
  }

  /** The `while(changed)` loop: rounds until one adds nothing. It ends
      because every round that changes something adds a byte to some
      buffer, and no buffer holds a byte twice. */
  function FollowFixpoint(g: Grammar, f: Follows, fuel: nat): (r: Follows)
    requires AllTerminate(g, fuel) && ByteGrammar(g)
    requires |f| == |g| && CleanFollows(f)
    ensures Grows(f, r) && CleanFollows(r)
    ensures Round(g, r, fuel) == r
    decreases Capacity(|f|) - TotalFollow(f, 0)
  {
    var t := Round(g, f, fuel);
    RowsClean(g, f, 0, fuel);
    if t == f then GrowsRefl(f); f
    else
      TotalFollowGrows(f, t, 0);
      TotalFollowBounded(t, 0);
      var r := FollowFixpoint(g, t, fuel);
      GrowsTrans(f, t, r);
      r
  }

  /** The column before the first round: '$' added to the buffer of row 0. */
  function FollowStart(g: Grammar, f: Follows): (r: Follows)
    requires |f| == |g| && CleanFollows(f)
    ensures Grows(f, r) && CleanFollows(r)
    ensures |g| > 0 ==> EndMarker in r[0]
    ensures |g| == 0 ==> r == f
  {
    if |g| == 0 then f
    else
      AddToSetKeepsSet(f[0], EndMarker);
      var r := f[0 := AddToSet(f[0], EndMarker)];
      GrowsFromAll(f, r, 0);
      r
  }

  /** `computeFollowSets`: the sets table with its FOLLOW column taken to
      the fixpoint. Nonterminals and FIRST sets are left alone. */
  function FollowSetsAfter(g: Grammar, s: SetsTable, fuel: nat): (r: SetsTable)
    requires AllTerminate(g, fuel) && ByteGrammar(g)
    requires Aligned(g, s) && CleanFollows(FollowColumn(s))
    ensures |r| == |s|
    ensures forall j :: 0 <= j < |s| ==>
      r[j].nonTerm == s[j].nonTerm && r[j].first == s[j].first && s[j].follow <= r[j].follow
    ensures CleanFollows(FollowColumn(r))
    ensures |g| > 0 ==> EndMarker in r[0].follow
    ensures Round(g, FollowColumn(r), fuel) == FollowColumn(r)
  {
    var f := FollowColumn(s);
    var t := FollowStart(g, f);
    var u := FollowFixpoint(g, t, fuel);
    GrowsTrans(f, t, u);
    GrowsFromAll(f, u, 0);
    var r := WithFollows(s, u);
    assert FollowColumn(r) == u;
    r
  }

  /** When a round changes nothing, no step of it changes anything. */
  lemma RoundFixedAt(g: Grammar, f: Follows, fuel: nat, i: nat, p: nat, pos: nat)
    requires AllTerminate(g, fuel)
    requires |f| == |g|
    requires Round(g, f, fuel) == f
    requires IsOccurrence(g, i, p, pos)
    ensures Occurrence(g, f, i, p, pos, fuel) == f
  {
    RowsTail(g, f, 0, i, fuel);
    RowsFixedStep(g, f, i, fuel);
    ProductionsTail(g, f, i, 0, p, fuel);
    ProductionsFixedStep(g, f, i, p, fuel);
    PositionsTail(g, f, i, p, 0, pos, fuel);
    PositionsFixedStep(g, f, i, p, pos, fuel);
  }

  /** The FOLLOW rules hold at a fixpoint. For an occurrence of `B` in a
      production of `A`: each non-'~' character of FIRST of a symbol after
      `B`, reached through symbols whose FIRST has '~', is in FOLLOW(B); and
      when every symbol after `B` has '~' in its FIRST, FOLLOW(A) is
      contained in FOLLOW(B). */
  lemma FollowRules(g: Grammar, f: Follows, fuel: nat, i: nat, p: nat, pos: nat)
    requires AllTerminate(g, fuel)
    requires |f| == |g| && CleanFollows(f)
    requires Round(g, f, fuel) == f
    requires IsOccurrence(g, i, p, pos)
    requires IsNonTerminal(g[i].prods[p][pos]) && FindNonTermIndex(g, g[i].prods[p][pos]) >= 0
    ensures FindNonTermIndex(g, g[i].head) >= 0
    ensures var prod := g[i].prods[p];
      var fb := f[FindNonTermIndex(g, prod[pos])];
      && (forall j, c ::
            (pos < j < |prod| && c in Sub(g, prod[j], fuel) && c != EpsilonMark &&
             forall m :: pos < m < j ==> EpsilonMark in Sub(g, prod[m], fuel)) ==> c in fb)
      && ((forall j :: pos < j < |prod| ==> EpsilonMark in Sub(g, prod[j], fuel)) ==>
            forall c :: c in f[FindNonTermIndex(g, g[i].head)] ==> c in fb)
  {
    var prod := g[i].prods[p];
    var ib := FindNonTermIndex(g, prod[pos]);
    HeadRow(g, i);
    var ia := FindNonTermIndex(g, g[i].head);
    RoundFixedAt(g, f, fuel, i, p, pos);
    assert Beta(g, f, prod, pos + 1, ib, ia, fuel) == f;
    forall j, c | pos < j < |prod| && c in Sub(g, prod[j], fuel) && c != EpsilonMark &&
      (forall m :: pos < m < j ==> EpsilonMark in Sub(g, prod[m], fuel))
      ensures c in f[ib]
    {
      ReachedFromSome(g, prod, pos + 1, fuel, c);
      BetaSettled(g, f, prod, pos + 1, ib, ia, fuel, c);
    }
    NullableFromAll(g, prod, pos + 1, fuel);
    if forall j :: pos < j < |prod| ==> EpsilonMark in Sub(g, prod[j], fuel) {
      forall c | c in f[ia] ensures c in f[ib] {
        BetaSettled(g, f, prod, pos + 1, ib, ia, fuel, c);
      }
    }
  }
}
