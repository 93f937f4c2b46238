/** FIRST sets (`computeFirst`, `computeFirstSets`). `computeFirst` expands
    nonterminals recursively through the grammar, not through the stored
    sets, and without memo or visited set. The model counts nested
    expansions against a `fuel` bound and answers None where the recursion
    would go deeper: None means only that `fuel` was too small, and the
    source diverges exactly where the answer is None for every `fuel`, that
    is where a nonterminal derives itself through leading nullable symbols
    (SelfLeadingNeverEnds proves it for a production that starts with its
    own head). */
module FirstSets {
  import opened Symbols
  import opened CharSets
  import opened Grammars

  /** Every character of every production fits in a C `char`. */
  predicate ByteProds(prods: seq<seq<char>>) {
    forall p, k :: 0 <= p < |prods| && 0 <= k < |prods[p]| ==> IsByte(prods[p][k])
  }

  /** The characters `computeFirst(x, result)` hands to `addToSet(result, .)`,
      in order. For a symbol inside a production the source first collects
      its FIRST into an empty scratch buffer and then copies the non-'~'
      members; the stream here skips the scratch buffer, which only drops
      repeats that `addToSet` would skip anyway (CharSets.AddAllDedup). */
  function Emitted(g: Grammar, x: char, fuel: nat): (r: Option<seq<char>>)
    decreases fuel, 0, 0
  {
    match Classify(x)
    case Terminal(_) => Some([x])
    case Epsilon => Some([x])
    case _ =>
      var idx := FindNonTermIndex(g, x);
      if idx < 0 then Some([])
      else if fuel == 0 then None
      else ProductionsEmitted(g, g[idx].prods, 0, fuel - 1)
  }

  /** What the loop over the productions of one nonterminal emits, from
      production `p` on. */
  function ProductionsEmitted(g: Grammar, prods: seq<seq<char>>, p: nat, fuel: nat): (r: Option<seq<char>>)
    requires p <= |prods|
    decreases fuel, 2, |prods| - p
  {
    if p == |prods| then Some([])
    else
      match WalkEmitted(g, prods[p], 0, fuel)
      case None => None
      case Some(w) =>
        match ProductionsEmitted(g, prods, p + 1, fuel)
        case None => None
        case Some(rest) => Some(w + rest)
  }

  /** The walk along one production from position `k`: the non-epsilon FIRST
      of each symbol, stopping after the first symbol whose FIRST lacks '~',
      and '~' itself when the walk reaches the end. */
  function WalkEmitted(g: Grammar, prod: seq<char>, k: nat, fuel: nat): (r: Option<seq<char>>)
    requires k <= |prod|
    decreases fuel, 1, |prod| - k
  {
    if k == |prod| then Some([EpsilonMark])
    else
      match Emitted(g, prod[k], fuel)
      case None => None
      case Some(e) =>
        var here := Without(e, EpsilonMark);
        if EpsilonMark in e then
          match WalkEmitted(g, prod, k + 1, fuel)
          case None => None
          case Some(rest) => Some(here + rest)
        else Some(here)
  }

  /** The buffer after adding an optional batch to `acc`. */
  function Into(acc: seq<char>, batch: Option<seq<char>>): (r: Option<seq<char>>)
    ensures r.Some? <==> batch.Some?
  {
    match batch
    case None => None
    case Some(xs) => Some(AddAll(acc, xs))
  }

  /** `computeFirst(x, result)`: the buffer it leaves. It only ever appends,
      never reorders or removes. */
  function FirstInto(g: Grammar, x: char, result: seq<char>, fuel: nat): (r: Option<seq<char>>)
    ensures r.Some? <==> Emitted(g, x, fuel).Some?
    ensures r.Some? ==> |result| <= |r.value| && r.value[..|result|] == result
  {
    Into(result, Emitted(g, x, fuel))
  }

  /** `computeFirst` ends for every head within `fuel` expansions. */
  predicate FirstTerminates(g: Grammar, fuel: nat) {
    forall i :: 0 <= i < |g| ==> Emitted(g, g[i].head, fuel).Some?
  }

  /** ... and then for every character. */
  predicate AllTerminate(g: Grammar, fuel: nat) {
    forall c :: Emitted(g, c, fuel).Some?
  }

  lemma TerminatesEverywhere(g: Grammar, fuel: nat)
    requires FirstTerminates(g, fuel)
    ensures AllTerminate(g, fuel)
  {
    forall c ensures Emitted(g, c, fuel).Some? {
      var idx := FindNonTermIndex(g, c);
      if idx >= 0 {
        assert Emitted(g, g[idx].head, fuel).Some?;
      }
    }
  }

  /** One production whose walk runs out of fuel makes the whole loop over
      the productions run out. */
  lemma {:induction false} ProductionsStall(g: Grammar, prods: seq<seq<char>>, p: nat, q: nat, fuel: nat)
    requires p <= q < |prods|
    requires WalkEmitted(g, prods[q], 0, fuel).None?
    ensures ProductionsEmitted(g, prods, p, fuel).None?
    decreases q - p
  {
    if p < q {
      ProductionsStall(g, prods, p + 1, q, fuel);
    }
  }

  /** A row with a production that starts with its own head: `computeFirst`
      calls itself on the same symbol before anything else, so no fuel is
      ever enough and the first pass of `computeFirstSets` never ends. */
  lemma {:induction false} SelfLeadingNeverEnds(g: Grammar, a: char, q: nat, fuel: nat)
    requires !IsTerminal(a) && a != EpsilonMark
    requires FindNonTermIndex(g, a) >= 0
    requires q < |g[FindNonTermIndex(g, a)].prods|
    requires |g[FindNonTermIndex(g, a)].prods[q]| > 0 && g[FindNonTermIndex(g, a)].prods[q][0] == a
    ensures Emitted(g, a, fuel).None?
    ensures !FirstTerminates(g, fuel)
    decreases fuel
  {
    var idx := FindNonTermIndex(g, a);
    if fuel > 0 {
      SelfLeadingNeverEnds(g, a, q, fuel - 1);
      var prods := g[idx].prods;
      assert WalkEmitted(g, prods[q], 0, fuel - 1).None?;
      ProductionsStall(g, prods, 0, q, fuel - 1);
    }
    assert g[idx].head == a;
  }

  /** FIRST of a single character, once the recursion is known to end. */
  function Sub(g: Grammar, c: char, fuel: nat): seq<char>
    requires AllTerminate(g, fuel)
  {
    Emitted(g, c, fuel).value
  }

  lemma {:induction false} WalkTerminates(g: Grammar, prod: seq<char>, k: nat, fuel: nat)
    requires k <= |prod|
    requires AllTerminate(g, fuel)
    ensures WalkEmitted(g, prod, k, fuel).Some?
    decreases |prod| - k
  {
    if k < |prod| {
      assert Emitted(g, prod[k], fuel).Some?;
      WalkTerminates(g, prod, k + 1, fuel);
    }
  }

  lemma {:induction false} ProductionsTerminate(g: Grammar, prods: seq<seq<char>>, p: nat, fuel: nat)
    requires p <= |prods|
    requires AllTerminate(g, fuel)
    ensures ProductionsEmitted(g, prods, p, fuel).Some?
    decreases |prods| - p
  {
    if p < |prods| {
      WalkTerminates(g, prods[p], 0, fuel);
      ProductionsTerminate(g, prods, p + 1, fuel);
    }
  }

  /** FIRST of a production: what `buildLL1Table` collects into `firstP`. */
  function FirstOfProduction(g: Grammar, prod: seq<char>, fuel: nat): (r: seq<char>)
    requires AllTerminate(g, fuel)
    ensures forall c :: c in r ==> IsTerminal(c) || c == EpsilonMark
  {
    WalkTerminates(g, prod, 0, fuel);
    WalkKinds(g, prod, 0, fuel);
    AddAll([], WalkEmitted(g, prod, 0, fuel).value)
  }

  /** One step of the walk, once the recursion is known to end: symbol `k`
      contributes its FIRST without '~', and the walk goes on only if that
      FIRST has '~'. */
  lemma WalkUnfold(g: Grammar, prod: seq<char>, k: nat, fuel: nat)
    requires k < |prod|
    requires AllTerminate(g, fuel)
    ensures WalkEmitted(g, prod, k + 1, fuel).Some?
    ensures WalkEmitted(g, prod, k, fuel) ==
      Some(Without(Sub(g, prod[k], fuel), EpsilonMark) +
           (if EpsilonMark in Sub(g, prod[k], fuel) then WalkEmitted(g, prod, k + 1, fuel).value else []))
  {
    WalkTerminates(g, prod, k + 1, fuel);
    var here := Without(Sub(g, prod[k], fuel), EpsilonMark);
    assert here + [] == here;
  }

  /** Every symbol of `prod` from `k` on has '~' in its FIRST. */
  predicate NullableFrom(g: Grammar, prod: seq<char>, k: nat, fuel: nat)
    requires k <= |prod|
    requires AllTerminate(g, fuel)
    decreases |prod| - k
  {
    k == |prod| || (EpsilonMark in Sub(g, prod[k], fuel) && NullableFrom(g, prod, k + 1, fuel))
  }

  lemma {:induction false} NullableFromAll(g: Grammar, prod: seq<char>, k: nat, fuel: nat)
    requires k <= |prod|
    requires AllTerminate(g, fuel)
    ensures NullableFrom(g, prod, k, fuel) <==>
      forall j :: k <= j < |prod| ==> EpsilonMark in Sub(g, prod[j], fuel)
    decreases |prod| - k
  {
    if k < |prod| {
      NullableFromAll(g, prod, k + 1, fuel);
    }
  }

  /** The walk emits '~' exactly when every symbol from `k` on has '~' in
      its FIRST; in particular an empty production yields '~'. */
  lemma {:induction false} WalkReachesEnd(g: Grammar, prod: seq<char>, k: nat, fuel: nat)
    requires k <= |prod|
    requires AllTerminate(g, fuel)
    ensures WalkEmitted(g, prod, k, fuel).Some?
    ensures EpsilonMark in WalkEmitted(g, prod, k, fuel).value <==>
      forall j :: k <= j < |prod| ==> EpsilonMark in Sub(g, prod[j], fuel)
    decreases |prod| - k
  {
    WalkNullable(g, prod, k, fuel);
    NullableFromAll(g, prod, k, fuel);
  }

  lemma InConcat(c: char, w: seq<char>, rest: seq<char>)
    ensures c in w + rest <==> c in w || c in rest
  {
  }

  lemma EpsilonInStep(here: seq<char>, rest: seq<char>, goOn: bool)
    requires EpsilonMark !in here
    ensures EpsilonMark in here + (if goOn then rest else []) <==> goOn && EpsilonMark in rest
  {
  }

  /** The walk from `k` reaches the end exactly when symbol `k` is nullable
      and the walk from `k + 1` reaches the end. */
  lemma WalkStepEpsilon(g: Grammar, prod: seq<char>, k: nat, fuel: nat)
    requires k < |prod|
    requires AllTerminate(g, fuel)
    ensures WalkEmitted(g, prod, k, fuel).Some? && WalkEmitted(g, prod, k + 1, fuel).Some?
    ensures EpsilonMark in WalkEmitted(g, prod, k, fuel).value <==>
      EpsilonMark in Sub(g, prod[k], fuel) && EpsilonMark in WalkEmitted(g, prod, k + 1, fuel).value
  {
    WalkUnfold(g, prod, k, fuel);
    var e := Sub(g, prod[k], fuel);
    var here := Without(e, EpsilonMark);
    EpsilonInStep(here, WalkEmitted(g, prod, k + 1, fuel).value, EpsilonMark in e);
  }

  lemma {:induction false} WalkNullable(g: Grammar, prod: seq<char>, k: nat, fuel: nat)
    requires k <= |prod|
    requires AllTerminate(g, fuel)
    ensures WalkEmitted(g, prod, k, fuel).Some?
    ensures EpsilonMark in WalkEmitted(g, prod, k, fuel).value <==> NullableFrom(g, prod, k, fuel)
    decreases |prod| - k
  {
    WalkTerminates(g, prod, k, fuel);
    if k < |prod| {
      WalkNullable(g, prod, k + 1, fuel);
      WalkStepEpsilon(g, prod, k, fuel);
    }
  }

  /** Symbol `j >= k` of `prod` has `c` in its FIRST and every symbol from
      `k` up to it has '~' in its FIRST. */
  predicate ReachedFrom(g: Grammar, prod: seq<char>, k: nat, fuel: nat, c: char)
    requires k <= |prod|
    requires AllTerminate(g, fuel)
    decreases |prod| - k
  {
    k < |prod| &&
    (c in Sub(g, prod[k], fuel) ||
     (EpsilonMark in Sub(g, prod[k], fuel) && ReachedFrom(g, prod, k + 1, fuel, c)))
  }

  lemma {:induction false} ReachedFromSome(g: Grammar, prod: seq<char>, k: nat, fuel: nat, c: char)
    requires k <= |prod|
    requires AllTerminate(g, fuel)
    ensures ReachedFrom(g, prod, k, fuel, c) <==>
      exists j :: k <= j < |prod| && c in Sub(g, prod[j], fuel) &&
        forall m :: k <= m < j ==> EpsilonMark in Sub(g, prod[m], fuel)
    decreases |prod| - k
  {
    if k < |prod| {
      ReachedFromSome(g, prod, k + 1, fuel, c);
      var e := Sub(g, prod[k], fuel);
      if ReachedFrom(g, prod, k, fuel, c) {
        if c !in e {
          var j :| k + 1 <= j < |prod| && c in Sub(g, prod[j], fuel) &&
            forall m :: k + 1 <= m < j ==> EpsilonMark in Sub(g, prod[m], fuel);
          assert forall m :: k <= m < j ==> EpsilonMark in Sub(g, prod[m], fuel);
        }
      } else {
        forall j | k <= j < |prod| && c in Sub(g, prod[j], fuel)
          ensures exists m :: k <= m < j && EpsilonMark !in Sub(g, prod[m], fuel)
        {
          if EpsilonMark !in e {
            assert k <= k < j && EpsilonMark !in Sub(g, prod[k], fuel);
          }
        }
      }
    }
  }

  lemma {:induction false} WalkReached(g: Grammar, prod: seq<char>, k: nat, fuel: nat, c: char)
    requires k <= |prod|
    requires AllTerminate(g, fuel)
    requires c != EpsilonMark
    ensures WalkEmitted(g, prod, k, fuel).Some?
    ensures c in WalkEmitted(g, prod, k, fuel).value <==> ReachedFrom(g, prod, k, fuel, c)
    decreases |prod| - k
  {
    WalkTerminates(g, prod, k, fuel);
    if k < |prod| {
      WalkReached(g, prod, k + 1, fuel, c);
      WalkUnfold(g, prod, k, fuel);
      var e := Sub(g, prod[k], fuel);
      var rest := WalkEmitted(g, prod, k + 1, fuel).value;
      InConcat(c, Without(e, EpsilonMark), if EpsilonMark in e then rest else []);
    }
  }

  /** A non-epsilon character is in the walk exactly when it is in the FIRST
      of some symbol `j` reached by the walk: every symbol before `j` has '~'
      in its FIRST. */
  lemma WalkCollects(g: Grammar, prod: seq<char>, k: nat, fuel: nat, c: char)
    requires k <= |prod|
    requires AllTerminate(g, fuel)
    requires c != EpsilonMark
    ensures WalkEmitted(g, prod, k, fuel).Some?
    ensures c in WalkEmitted(g, prod, k, fuel).value <==>
      exists j :: k <= j < |prod| && c in Sub(g, prod[j], fuel) &&
        forall m :: k <= m < j ==> EpsilonMark in Sub(g, prod[m], fuel)
  {
    WalkReached(g, prod, k, fuel, c);
    ReachedFromSome(g, prod, k, fuel, c);
  }

  /** FIRST of a nonterminal is the union of FIRST of its productions. */
  lemma ProductionsUnfold(g: Grammar, prods: seq<seq<char>>, p: nat, fuel: nat)
    requires p < |prods|
    requires AllTerminate(g, fuel)
    ensures WalkEmitted(g, prods[p], 0, fuel).Some? && ProductionsEmitted(g, prods, p + 1, fuel).Some?
    ensures ProductionsEmitted(g, prods, p, fuel) ==
      Some(WalkEmitted(g, prods[p], 0, fuel).value + ProductionsEmitted(g, prods, p + 1, fuel).value)
  {
    WalkTerminates(g, prods[p], 0, fuel);
    ProductionsTerminate(g, prods, p + 1, fuel);
  }

  /** FIRST of a production has the members of the walk over it. */
  lemma FirstOfProductionMembers(g: Grammar, prod: seq<char>, fuel: nat, c: char)
    requires AllTerminate(g, fuel)
    ensures WalkEmitted(g, prod, 0, fuel).Some?
    ensures c in FirstOfProduction(g, prod, fuel) <==> c in WalkEmitted(g, prod, 0, fuel).value
  {
    WalkTerminates(g, prod, 0, fuel);
    WalkKinds(g, prod, 0, fuel);
  }

  /** `c` is emitted by the walk over `prod`. */
  predicate WalkHas(g: Grammar, prod: seq<char>, fuel: nat, c: char) {
    WalkEmitted(g, prod, 0, fuel).Some? && c in WalkEmitted(g, prod, 0, fuel).value
  }

  lemma {:induction false} ProductionsCollect(g: Grammar, prods: seq<seq<char>>, p: nat, fuel: nat, c: char)
    requires p <= |prods|
    requires AllTerminate(g, fuel)
    ensures ProductionsEmitted(g, prods, p, fuel).Some?
    ensures c in ProductionsEmitted(g, prods, p, fuel).value <==>
      exists q :: p <= q < |prods| && WalkHas(g, prods[q], fuel, c)
    decreases |prods| - p
  {
    ProductionsTerminate(g, prods, p, fuel);
    if p < |prods| {
      ProductionsCollect(g, prods, p + 1, fuel, c);
      ProductionsUnfold(g, prods, p, fuel);
      var w := WalkEmitted(g, prods[p], 0, fuel).value;
      var rest := ProductionsEmitted(g, prods, p + 1, fuel).value;
      InConcat(c, w, rest);
      if c in w {
        assert WalkHas(g, prods[p], fuel, c);
      } else if c in rest {
        var q :| p + 1 <= q < |prods| && WalkHas(g, prods[q], fuel, c);
        assert p <= q;
      } else {
        forall q | p <= q < |prods| ensures !WalkHas(g, prods[q], fuel, c) {
          if q == p {
            assert c !in w;
          }
        }
      }
    }
  }

  /** The stored FIRST set of row `i` once `computeFirstSets` is done: the
      union of FIRST of the row's productions (a head that is not an
      upper-case letter is looked up the same way unless it reads as a
      terminal or '~'). */
  lemma FirstOfRule(g: Grammar, i: nat, fuel: nat, c: char)
    requires i < |g| && FindNonTermIndex(g, g[i].head) == i
    requires !IsTerminal(g[i].head) && g[i].head != EpsilonMark
    requires AllTerminate(g, fuel)
    ensures Emitted(g, g[i].head, fuel + 1).Some?
    ensures c in Emitted(g, g[i].head, fuel + 1).value <==>
      exists q :: 0 <= q < |g[i].prods| && c in FirstOfProduction(g, g[i].prods[q], fuel)
  {
    var prods := g[i].prods;
    ProductionsCollect(g, prods, 0, fuel, c);
    if c in Emitted(g, g[i].head, fuel + 1).value {
      var q :| 0 <= q < |prods| && WalkHas(g, prods[q], fuel, c);
      FirstOfProductionMembers(g, prods[q], fuel, c);
    } else {
      forall q | 0 <= q < |prods| ensures c !in FirstOfProduction(g, prods[q], fuel) {
        FirstOfProductionMembers(g, prods[q], fuel, c);
      }
    }
  }

  /** A terminal or '~' is its own FIRST; an undefined nonterminal has none. */
  lemma FirstOfSymbol(g: Grammar, x: char, fuel: nat)
    ensures IsTerminal(x) || x == EpsilonMark ==> Emitted(g, x, fuel) == Some([x])
    ensures IsNonTerminal(x) && x !in HeadSet(g) ==> Emitted(g, x, fuel) == Some([])
  {
  }

  /** FIRST holds only terminals and '~', and in a grammar of bytes only
      bytes. */
  lemma {:induction false} EmittedKinds(g: Grammar, x: char, fuel: nat)
    requires Emitted(g, x, fuel).Some?
    ensures forall c :: c in Emitted(g, x, fuel).value ==> IsTerminal(c) || c == EpsilonMark
    ensures ByteGrammar(g) && IsByte(x) ==> forall c :: c in Emitted(g, x, fuel).value ==> IsByte(c)
    decreases fuel, 0, 0
  {
    var idx := FindNonTermIndex(g, x);
    if !IsTerminal(x) && x != EpsilonMark && idx >= 0 && fuel > 0 {
      ProductionsKinds(g, g[idx].prods, 0, fuel - 1);
    }
  }

  lemma {:induction false} ProductionsKinds(g: Grammar, prods: seq<seq<char>>, p: nat, fuel: nat)
    requires p <= |prods|
    requires ProductionsEmitted(g, prods, p, fuel).Some?
    ensures forall c :: c in ProductionsEmitted(g, prods, p, fuel).value ==> IsTerminal(c) || c == EpsilonMark
    ensures ByteGrammar(g) && ByteProds(prods) ==>
      forall c :: c in ProductionsEmitted(g, prods, p, fuel).value ==> IsByte(c)
    decreases fuel, 2, |prods| - p
  {
    if p < |prods| {
      WalkKinds(g, prods[p], 0, fuel);
      ProductionsKinds(g, prods, p + 1, fuel);
    }
  }

  lemma {:induction false} WalkKinds(g: Grammar, prod: seq<char>, k: nat, fuel: nat)
    requires k <= |prod|
    requires WalkEmitted(g, prod, k, fuel).Some?
    ensures forall c :: c in WalkEmitted(g, prod, k, fuel).value ==> IsTerminal(c) || c == EpsilonMark
    ensures ByteGrammar(g) && (forall j :: 0 <= j < |prod| ==> IsByte(prod[j])) ==>
      forall c :: c in WalkEmitted(g, prod, k, fuel).value ==> IsByte(c)
    decreases fuel, 1, |prod| - k
  {
    if k < |prod| {
      EmittedKinds(g, prod[k], fuel);
      var e := Emitted(g, prod[k], fuel).value;
      if EpsilonMark in e {
        WalkKinds(g, prod, k + 1, fuel);
      }
    }
  }

  /** More fuel never changes an answer that was already reached. */
  lemma {:induction false} EmittedFuelMonotone(g: Grammar, x: char, fuel: nat, more: nat)
    requires fuel <= more
    requires Emitted(g, x, fuel).Some?
    ensures Emitted(g, x, more) == Emitted(g, x, fuel)
    decreases fuel, 0, 0
  {
    var idx := FindNonTermIndex(g, x);
    if !IsTerminal(x) && x != EpsilonMark && idx >= 0 && fuel > 0 {
      ProductionsFuelMonotone(g, g[idx].prods, 0, fuel - 1, more - 1);
    }
  }

  lemma {:induction false} ProductionsFuelMonotone(g: Grammar, prods: seq<seq<char>>, p: nat, fuel: nat, more: nat)
    requires p <= |prods|
    requires fuel <= more
    requires ProductionsEmitted(g, prods, p, fuel).Some?
    ensures ProductionsEmitted(g, prods, p, more) == ProductionsEmitted(g, prods, p, fuel)
    decreases fuel, 2, |prods| - p
  {
    if p < |prods| {
      WalkFuelMonotone(g, prods[p], 0, fuel, more);
      ProductionsFuelMonotone(g, prods, p + 1, fuel, more);
    }
  }

  lemma {:induction false} WalkFuelMonotone(g: Grammar, prod: seq<char>, k: nat, fuel: nat, more: nat)
    requires k <= |prod|
    requires fuel <= more
    requires WalkEmitted(g, prod, k, fuel).Some?
    ensures WalkEmitted(g, prod, k, more) == WalkEmitted(g, prod, k, fuel)
    decreases fuel, 1, |prod| - k
  {
    if k < |prod| {
      EmittedFuelMonotone(g, prod[k], fuel, more);
      var e := Emitted(g, prod[k], fuel).value;
      if EpsilonMark in e {
        WalkFuelMonotone(g, prod, k + 1, fuel, more);
      }
    }
  }

  /** The cases of `computeFirst`: a terminal or '~' adds itself, a
      character without a row adds nothing, and a nonterminal with a row
      adds what its productions emit. */
  lemma FirstIntoCases(g: Grammar, x: char, result: seq<char>, fuel: nat)
    ensures IsTerminal(x) || x == EpsilonMark ==> FirstInto(g, x, result, fuel) == Some(AddToSet(result, x))
    ensures !IsTerminal(x) && x != EpsilonMark && FindNonTermIndex(g, x) == -1 ==>
      FirstInto(g, x, result, fuel) == Some(result)
    ensures !IsTerminal(x) && x != EpsilonMark && FindNonTermIndex(g, x) >= 0 && fuel == 0 ==>
      FirstInto(g, x, result, fuel) == None
    ensures !IsTerminal(x) && x != EpsilonMark && FindNonTermIndex(g, x) >= 0 && fuel > 0 ==>
      FirstInto(g, x, result, fuel) == Into(result, ProductionsEmitted(g, g[FindNonTermIndex(g, x)].prods, 0, fuel - 1))
  {
    if IsTerminal(x) || x == EpsilonMark {
      assert Emitted(g, x, fuel) == Some([x]);
      assert [x][1..] == [] && [x][0] == x;
      assert AddAll(result, [x]) == AddAll(AddToSet(result, x), []);
    }
  }

  /** Adding what the walk emits from `k`, one symbol at a time: the
      symbol's FIRST without '~', then the rest of the walk only when that
      FIRST has '~'. */
  lemma WalkInto(g: Grammar, prod: seq<char>, k: nat, fuel: nat, acc: seq<char>)
    requires k < |prod| && Emitted(g, prod[k], fuel).Some?
    ensures var e := Emitted(g, prod[k], fuel).value;
      Into(acc, WalkEmitted(g, prod, k, fuel)) ==
        if EpsilonMark in e then Into(AddAll(acc, Without(e, EpsilonMark)), WalkEmitted(g, prod, k + 1, fuel))
        else Some(AddAll(acc, Without(e, EpsilonMark)))
  {
    var e := Emitted(g, prod[k], fuel).value;
    if EpsilonMark in e && WalkEmitted(g, prod, k + 1, fuel).Some? {
      AddAllConcat(acc, Without(e, EpsilonMark), WalkEmitted(g, prod, k + 1, fuel).value);
    }
  }

  /** A walk that reaches the end of the production adds '~'. */
  lemma WalkEndInto(g: Grammar, prod: seq<char>, fuel: nat, acc: seq<char>)
    ensures Into(acc, WalkEmitted(g, prod, |prod|, fuel)) == Some(AddToSet(acc, EpsilonMark))
  {
    assert [EpsilonMark][1..] == [] && [EpsilonMark][0] == EpsilonMark;
    assert AddAll(acc, [EpsilonMark]) == AddAll(AddToSet(acc, EpsilonMark), []);
  }

  /** Adding what the productions emit from `p`: production `p`'s walk,
      then the later productions. */
  lemma ProductionsInto(g: Grammar, prods: seq<seq<char>>, p: nat, fuel: nat, acc: seq<char>)
    requires p < |prods|
    ensures Into(acc, ProductionsEmitted(g, prods, p, fuel)) ==
      match Into(acc, WalkEmitted(g, prods[p], 0, fuel))
      case None => None
      case Some(a) => Into(a, ProductionsEmitted(g, prods, p + 1, fuel))
  {
    var w := WalkEmitted(g, prods[p], 0, fuel);
    var rest := ProductionsEmitted(g, prods, p + 1, fuel);
    if w.Some? && rest.Some? {
      AddAllConcat(acc, w.value, rest.value);
    }
  }

  /** `setsTable` after `computeFirstSets`: each row's FIRST buffer with its
      head's FIRST added; nothing else changes. */
  function FirstSetsAfter(g: Grammar, s: SetsTable, fuel: nat): (r: SetsTable)
    requires |s| == |g| && FirstTerminates(g, fuel)
    ensures |r| == |s|
    ensures forall i :: 0 <= i < |s| ==>
      r[i].nonTerm == s[i].nonTerm && r[i].follow == s[i].follow &&
      r[i].first == FirstInto(g, g[i].head, s[i].first, fuel).value
  {
    seq(|s|, i requires 0 <= i < |s| => s[i].(first := FirstInto(g, g[i].head, s[i].first, fuel).value))
  }

  /** A second round over settled FIRST sets changes nothing: the loop of
      `computeFirstSets` ends after at most two rounds. */
  lemma FirstSetsStable(g: Grammar, s: SetsTable, fuel: nat)
    requires |s| == |g| && FirstTerminates(g, fuel)
    ensures FirstSetsAfter(g, FirstSetsAfter(g, s, fuel), fuel) == FirstSetsAfter(g, s, fuel)
  {
    var r := FirstSetsAfter(g, s, fuel);
    forall i | 0 <= i < |s| ensures FirstInto(g, g[i].head, r[i].first, fuel).value == r[i].first {
      AddAllIdempotent(s[i].first, Emitted(g, g[i].head, fuel).value);
    }
  }
}
