/** Removal of immediate left recursion (`removeLeftRecursion`): every row,
    including rows the pass itself appends, is visited once in order. */
module LeftRecursion {
  import opened Symbols
  import opened CharSets
  import opened Grammars

  /** The name given to the tail nonterminal of row `i`: `(char)('Z' - i)`. */
  function PrimeHead(i: nat): char {
    (('Z' as int - i) % 256) as char
  }

  /** `prod[0] == A`: the production starts with the head itself. */
  predicate StartsWith(prod: seq<char>, a: char) {
    |prod| > 0 && prod[0] == a
  }

  /** The `alpha` list: tails of the productions that start with `a`, in order. */
  function Alphas(a: char, prods: seq<seq<char>>): (r: seq<seq<char>>)
    ensures |r| <= |prods|
    ensures forall k :: 0 <= k < |r| ==> [a] + r[k] in prods
    decreases |prods|
  {
    if prods == [] then []
    else
      var last := prods[|prods| - 1];
      var rest := Alphas(a, prods[..|prods| - 1]);
      assert forall k :: 0 <= k < |rest| ==> [a] + rest[k] in prods by {
        forall k | 0 <= k < |rest| ensures [a] + rest[k] in prods {
          assert [a] + rest[k] in prods[..|prods| - 1];
        }
      }
      assert StartsWith(last, a) ==> [a] + last[1..] == last;
      rest + (if StartsWith(last, a) then [last[1..]] else [])
  }

  /** The `beta` list: the other productions, in order. */
  function Betas(a: char, prods: seq<seq<char>>): (r: seq<seq<char>>)
    ensures |r| <= |prods|
    ensures forall k :: 0 <= k < |r| ==> r[k] in prods && !StartsWith(r[k], a)
    decreases |prods|
  {
    if prods == [] then []
    else
      var last := prods[|prods| - 1];
      var rest := Betas(a, prods[..|prods| - 1]);
      assert forall k :: 0 <= k < |rest| ==> rest[k] in prods by {
        forall k | 0 <= k < |rest| ensures rest[k] in prods {
          assert rest[k] in prods[..|prods| - 1];
        }
      }
      rest + (if StartsWith(last, a) then [] else [last])
  }

  /** The two lists keep the original order: splitting the productions
      anywhere splits both lists at the same place. */
  lemma {:induction false} PartitionKeepsOrder(a: char, xs: seq<seq<char>>, ys: seq<seq<char>>)
    ensures Alphas(a, xs + ys) == Alphas(a, xs) + Alphas(a, ys)
    ensures Betas(a, xs + ys) == Betas(a, xs) + Betas(a, ys)
    decreases |ys|
  {
    if ys == [] {
      assert xs + ys == xs;
    } else {
      var init := ys[..|ys| - 1];
      assert (xs + ys)[..|xs + ys| - 1] == xs + init;
      assert (xs + ys)[|xs + ys| - 1] == ys[|ys| - 1];
      PartitionKeepsOrder(a, xs, init);
    }
  }

  /** Every production lands in exactly one of the two lists. */
  lemma {:induction false} PartitionSizes(a: char, xs: seq<seq<char>>)
    ensures |Alphas(a, xs)| + |Betas(a, xs)| == |xs|
    decreases |xs|
  {
    if xs != [] {
      PartitionSizes(a, xs[..|xs| - 1]);
    }
  }

  /** No alpha exactly when no production starts with the head. */
  lemma {:induction false} NoAlphas(a: char, prods: seq<seq<char>>)
    ensures |Alphas(a, prods)| == 0 <==> forall k :: 0 <= k < |prods| ==> !StartsWith(prods[k], a)
    decreases |prods|
  {
    if prods != [] {
      var init := prods[..|prods| - 1];
      NoAlphas(a, init);
      if |Alphas(a, prods)| == 0 {
        forall k | 0 <= k < |prods| ensures !StartsWith(prods[k], a) {
          if k < |prods| - 1 {
            assert prods[k] == init[k];
          }
        }
      } else if |Alphas(a, init)| > 0 {
        var k :| 0 <= k < |init| && StartsWith(init[k], a);
        assert prods[k] == init[k];
      }
    }
  }

  /** Each string followed by `c`. */
  function WithSuffix(xs: seq<seq<char>>, c: char): (r: seq<seq<char>>)
    ensures |r| == |xs|
    ensures forall k :: 0 <= k < |xs| ==> r[k] == xs[k] + [c]
  {
    seq(|xs|, k requires 0 <= k < |xs| => xs[k] + [c])
  }

  /** Where the tail nonterminal of row `i` is written: an existing row with
      that name is reused, otherwise a new row is appended. */
  function PrimeRow(g: Grammar, i: nat): nat {
    var found := FindNonTermIndex(g, PrimeHead(i));
    if found == -1 then |g| else found
  }

  /** The productions row `i` gets: each beta followed by the tail name, or
      "EPSILON" followed by it when there is no beta. */
  function NewHeadProds(g: Grammar, i: nat): seq<seq<char>>
    requires i < |g|
  {
    var betas := Betas(g[i].head, g[i].prods);
    if |betas| == 0 then [EpsilonWord + [PrimeHead(i)]] else WithSuffix(betas, PrimeHead(i))
  }

  /** The productions the tail row gets: each alpha followed by the tail name,
      then "EPSILON". */
  function NewPrimeProds(g: Grammar, i: nat): seq<seq<char>>
    requires i < |g|
  {
    WithSuffix(Alphas(g[i].head, g[i].prods), PrimeHead(i)) + [EpsilonWord]
  }

  /** One visit of row `i` (main.c:224-273). The head row is written before
      the tail row, so when both are the same row the tail's productions win. */
  function EliminateAt(g: Grammar, i: nat): (r: Grammar)
    requires i < |g|
    ensures |Alphas(g[i].head, g[i].prods)| == 0 ==> r == g
    ensures |Alphas(g[i].head, g[i].prods)| > 0 ==>
      && var n := PrimeRow(g, i);
      && |r| == (if n == |g| then |g| + 1 else |g|)
      && (forall j :: 0 <= j < |g| ==> r[j].head == g[j].head)
      && r[n].head == PrimeHead(i)
      && (forall j :: 0 <= j < |g| && j != i && j != n ==> r[j] == g[j])
      && (n != i ==> r[i].prods == NewHeadProds(g, i))
      && r[n].prods == NewPrimeProds(g, i)
  {
    var a := g[i].head;
    if |Alphas(a, g[i].prods)| == 0 then g
    else
      var n := PrimeRow(g, i);
      var g1 := if n == |g| then g + [Rule(PrimeHead(i), [])] else g;
      var g2 := g1[i := Rule(a, NewHeadProds(g, i))];
      g2[n := Rule(g2[n].head, NewPrimeProds(g, i))]
  }

  /** A visit adds at most the tail name to the heads, and only when it
      appends a row. */
  lemma EliminateAtHeads(g: Grammar, i: nat)
    requires i < |g|
    ensures var r := EliminateAt(g, i);
      && (|r| == |g| ==> HeadSet(r) == HeadSet(g))
      && (|r| != |g| ==> |r| == |g| + 1 && PrimeHead(i) !in HeadSet(g) &&
                         HeadSet(r) == HeadSet(g) + {PrimeHead(i)})
      && (DistinctHeads(g) ==> DistinctHeads(r))
  {
    var r := EliminateAt(g, i);
    if |Alphas(g[i].head, g[i].prods)| > 0 {
      var n := PrimeRow(g, i);
      forall c | c in HeadSet(g) ensures c in HeadSet(r) {
        var j :| 0 <= j < |g| && g[j].head == c;
        assert r[j].head == c;
      }
      forall c | c in HeadSet(r) ensures c in HeadSet(g) + (if n == |g| then {PrimeHead(i)} else {}) {
        var j :| 0 <= j < |r| && r[j].head == c;
        if j < |g| {
          assert g[j].head == c;
        }
      }
    }
  }

  /** A visit only moves characters of the row around and adds the tail
      name and "EPSILON". */
  lemma EliminateAtBytes(g: Grammar, i: nat)
    requires i < |g|
    requires ByteGrammar(g)
    ensures ByteGrammar(EliminateAt(g, i))
  {
    var r := EliminateAt(g, i);
    var a := g[i].head;
    var alphas := Alphas(a, g[i].prods);
    if |alphas| > 0 {
      var n := PrimeRow(g, i);
      forall j, p, k | 0 <= j < |r| && 0 <= p < |r[j].prods| && 0 <= k < |r[j].prods[p]|
        ensures IsByte(r[j].prods[p][k])
      {
        if j == n {
          if p < |alphas| && k < |alphas[p]| {
            var q :| 0 <= q < |g[i].prods| && g[i].prods[q] == [a] + alphas[p];
            assert r[j].prods[p][k] == g[i].prods[q][k + 1];
          }
        } else if j == i {
          var betas := Betas(a, g[i].prods);
          if |betas| > 0 && p < |betas| && k < |betas[p]| {
            var q :| 0 <= q < |g[i].prods| && g[i].prods[q] == betas[p];
            assert r[j].prods[p][k] == g[i].prods[q][k];
          }
        } else {
          assert r[j] == g[j];
        }
      }
    }
  }

  /** After a visit without name collisions, no production of the visited
      row starts with its head, unless the row had no beta and its head is
      'E': then its only production is "EPSILON" followed by the tail name. */
  lemma NoResidualLeftRecursion(g: Grammar, i: nat)
    requires i < |g|
    requires |Alphas(g[i].head, g[i].prods)| > 0
    requires PrimeHead(i) != g[i].head
    requires |Betas(g[i].head, g[i].prods)| > 0 || g[i].head != EpsilonWord[0]
    ensures forall k :: 0 <= k < |EliminateAt(g, i)[i].prods| ==>
      !StartsWith(EliminateAt(g, i)[i].prods[k], g[i].head)
  {
    var a := g[i].head;
    var betas := Betas(a, g[i].prods);
    var r := EliminateAt(g, i);
    assert PrimeRow(g, i) != i;
    forall k | 0 <= k < |r[i].prods| ensures !StartsWith(r[i].prods[k], a) {
      if |betas| > 0 {
        assert r[i].prods[k] == betas[k] + [PrimeHead(i)];
        if |betas[k]| > 0 {
          assert r[i].prods[k][0] == betas[k][0];
        }
      }
    }
  }

  /** The bytes not yet used as a head: each appended tail row uses one up. */
  function FreeBytes(g: Grammar): nat {
    |ByteChars() - HeadSet(g)|
  }

  lemma EliminateAtMeasure(g: Grammar, i: nat)
    requires i < |g|
    ensures var r := EliminateAt(g, i);
      (|r| == |g| && FreeBytes(r) == FreeBytes(g)) ||
      (|r| == |g| + 1 && FreeBytes(r) < FreeBytes(g))
  {
    EliminateAtHeads(g, i);
    var r := EliminateAt(g, i);
    if |r| != |g| {
      var h := PrimeHead(i);
      assert h in ByteChars() - HeadSet(g);
      assert ByteChars() - HeadSet(r) == (ByteChars() - HeadSet(g)) - {h};
    }
  }

  /** The pass from row `i` onwards; rows appended on the way are visited too. */
  function EliminateFrom(g: Grammar, i: nat): (r: Grammar)
    requires i <= |g|
    ensures |g| <= |r|
    ensures forall j :: 0 <= j < |g| ==> r[j].head == g[j].head
    ensures DistinctHeads(g) ==> DistinctHeads(r)
    ensures ByteGrammar(g) ==> ByteGrammar(r)
    decreases FreeBytes(g), |g| - i
  {
    if i == |g| then g
    else
      EliminateAtMeasure(g, i);
      EliminateAtHeads(g, i);
      if ByteGrammar(g) then
        EliminateAtBytes(g, i);
        EliminateFrom(EliminateAt(g, i), i + 1)
      else EliminateFrom(EliminateAt(g, i), i + 1)
  }

  /** One visit, and the measure the pass decreases. */
  lemma EliminateFromStep(g: Grammar, i: nat)
    requires i < |g|
    ensures EliminateFrom(g, i) == EliminateFrom(EliminateAt(g, i), i + 1)
    ensures var r := EliminateAt(g, i);
      |g| <= |r| && (FreeBytes(r) < FreeBytes(g) || (FreeBytes(r) == FreeBytes(g) && |r| == |g|))
  {
    EliminateAtMeasure(g, i);
  }

  /** `removeLeftRecursion` over the whole grammar. */
  function LeftRecursionRemoved(g: Grammar): (r: Grammar)
    ensures |g| <= |r|
    ensures forall j :: 0 <= j < |g| ==> r[j].head == g[j].head
    ensures DistinctHeads(g) ==> DistinctHeads(r)
    ensures ByteGrammar(g) ==> ByteGrammar(r)
  {
    EliminateFrom(g, 0)
  }

  /** A grammar in which no production starts with its own head passes
      through unchanged. */
  lemma {:induction false} NonRecursiveUnchanged(g: Grammar, i: nat)
    requires i <= |g|
    requires forall j, k :: 0 <= j < |g| && 0 <= k < |g[j].prods| ==> !StartsWith(g[j].prods[k], g[j].head)
    ensures EliminateFrom(g, i) == g
    decreases |g| - i
  {
    if i < |g| {
      NoAlphas(g[i].head, g[i].prods);
      assert EliminateAt(g, i) == g;
      NonRecursiveUnchanged(g, i + 1);
    }
  }
}
