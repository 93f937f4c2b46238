/** Left factoring (`commonPrefix`, `leftFactorGrammar`): repeatedly find the
    first pair that can be factored (two productions of one nonterminal
    that share a non-empty prefix, in a row whose name `'X' + row` is an
    unused upper-case letter) and move their two suffixes under that new
    nonterminal. */
module LeftFactoring {
  import opened Symbols
  import opened CharSets
  import opened Grammars

  /** `commonPrefix`: the characters on which the two strings agree, from the
      start up to the first difference or the end of either. */
  function CommonPrefix(s1: seq<char>, s2: seq<char>): (p: seq<char>)
    ensures p <= s1 && p <= s2
    ensures |p| == |s1| || |p| == |s2| || s1[|p|] != s2[|p|]
  {
    if s1 == [] || s2 == [] || s1[0] != s2[0] then []
    else [s1[0]] + CommonPrefix(s1[1..], s2[1..])
  }

  /** CommonPrefix is the run of agreeing characters up to the first
      position where the strings differ or one ends. */
  lemma {:induction false} CommonPrefixIsRun(s1: seq<char>, s2: seq<char>, n: nat)
    requires n <= |s1| && n <= |s2|
    requires forall j :: 0 <= j < n ==> s1[j] == s2[j]
    requires n == |s1| || n == |s2| || s1[n] != s2[n]
    ensures CommonPrefix(s1, s2) == s1[..n]
    decreases n
  {
    if n > 0 {
      CommonPrefixIsRun(s1[1..], s2[1..], n - 1);
      assert s1[..n] == [s1[0]] + s1[1..][..n - 1];
    }
  }

  /** Every common prefix is a prefix of CommonPrefix: it is the longest. */
  lemma {:induction false} CommonPrefixIsLongest(s1: seq<char>, s2: seq<char>, q: seq<char>)
    requires q <= s1 && q <= s2
    ensures q <= CommonPrefix(s1, s2)
    decreases |q|
  {
    if q != [] {
      assert s1[0] == q[0] == s2[0];
      CommonPrefixIsLongest(s1[1..], s2[1..], q[1..]);
    }
  }

  /** The name tried for the factor of row `i`: `(char)('X' + i)`. */
  function FactorHead(i: nat): char {
    (('X' as int + i) % 256) as char
  }

  /** Factoring row `i` is possible only while its name is an unused
      upper-case letter. */
  predicate CanFactor(g: Grammar, i: nat) {
    IsNonTerminal(FactorHead(i)) && FindNonTermIndex(g, FactorHead(i)) == -1
  }

  /** Within the `grammar` array's room, only rows 0, 1 and 2 can ever be
      factored: 'X' + i is an upper-case letter for no later row. */
  lemma OnlyFirstRowsFactor(g: Grammar, i: nat)
    requires |g| <= MaxNonTerms && i < |g|
    ensures CanFactor(g, i) ==> i <= 2
  {
  }

  /** A position of the scan: row `i`, productions `p1` and `p2`. */
  datatype Site = Site(i: nat, p1: nat, p2: nat)

  /** `a` comes earlier than `b` in the scan order of the three nested loops. */
  predicate Before(a: Site, b: Site) {
    a.i < b.i || (a.i == b.i && (a.p1 < b.p1 || (a.p1 == b.p1 && a.p2 < b.p2)))
  }

  /** The scan factors at `s`: the pair has a non-empty common prefix and
      the row's new name is available. */
  predicate IsFactorSite(g: Grammar, s: Site) {
    && s.i < |g|
    && s.p1 < s.p2 < |g[s.i].prods|
    && |CommonPrefix(g[s.i].prods[s.p1], g[s.i].prods[s.p2])| > 0
    && CanFactor(g, s.i)
  }

  /** The scan from position (i, p1, p2) onwards: the first factor site it meets. */
  function ScanFrom(g: Grammar, i: nat, p1: nat, p2: nat): (r: Option<Site>)
    requires i <= |g|
    requires i < |g| ==> p1 <= |g[i].prods|
    ensures r.Some? ==> r.value.i < |g|
    decreases |g| - i, (if i < |g| then |g[i].prods| - p1 else 0),
              (if i < |g| then |g[i].prods| + 1 - p2 else 0)
  {
    if i == |g| then None
    else if p1 >= |g[i].prods| then ScanFrom(g, i + 1, 0, 1)
    else if p2 >= |g[i].prods| then ScanFrom(g, i, p1 + 1, p1 + 2)
    else if p2 > p1 && IsFactorSite(g, Site(i, p1, p2)) then Some(Site(i, p1, p2))
    else ScanFrom(g, i, p1, p2 + 1)
  }

  /** What the scan from (i, p1, p2) finds is a factor site no earlier
      than where it starts. */
  lemma {:induction false} ScanFromSound(g: Grammar, i: nat, p1: nat, p2: nat)
    requires i <= |g|
    requires i < |g| ==> p1 <= |g[i].prods|
    ensures ScanFrom(g, i, p1, p2).Some? ==>
      IsFactorSite(g, ScanFrom(g, i, p1, p2).value) && !Before(ScanFrom(g, i, p1, p2).value, Site(i, p1, p2))
    decreases |g| - i, (if i < |g| then |g[i].prods| - p1 else 0),
              (if i < |g| then |g[i].prods| + 1 - p2 else 0)
  {
    if i == |g| {
    } else if p1 >= |g[i].prods| {
      ScanFromSound(g, i + 1, 0, 1);
    } else if p2 >= |g[i].prods| {
      ScanFromSound(g, i, p1 + 1, p1 + 2);
    } else if p2 > p1 && IsFactorSite(g, Site(i, p1, p2)) {
    } else {
      ScanFromSound(g, i, p1, p2 + 1);
    }
  }

  /** The scan from (i, p1, p2) misses no factor site from there on: it
      finds one, and none that comes before what it finds. */
  lemma {:induction false} ScanFromComplete(g: Grammar, i: nat, p1: nat, p2: nat, s: Site)
    requires i <= |g|
    requires i < |g| ==> p1 <= |g[i].prods|
    requires IsFactorSite(g, s) && !Before(s, Site(i, p1, p2))
    ensures ScanFrom(g, i, p1, p2).Some? && !Before(s, ScanFrom(g, i, p1, p2).value)
    decreases |g| - i, (if i < |g| then |g[i].prods| - p1 else 0),
              (if i < |g| then |g[i].prods| + 1 - p2 else 0)
  {
    if i == |g| {
    } else if p1 >= |g[i].prods| {
      ScanFromComplete(g, i + 1, 0, 1, s);
    } else if p2 >= |g[i].prods| {
      ScanFromComplete(g, i, p1 + 1, p1 + 2, s);
    } else if p2 > p1 && IsFactorSite(g, Site(i, p1, p2)) {
    } else {
      ScanFromComplete(g, i, p1, p2 + 1, s);
    }
  }

  /** One step of the innermost loop of the scan. */
  lemma ScanStep(g: Grammar, i: nat, p1: nat, p2: nat)
    requires i < |g| && p1 < p2 < |g[i].prods|
    ensures ScanFrom(g, i, p1, p2) ==
      if |CommonPrefix(g[i].prods[p1], g[i].prods[p2])| > 0 &&
         FindNonTermIndex(g, FactorHead(i)) == -1 && IsNonTerminal(FactorHead(i))
      then Some(Site(i, p1, p2)) else ScanFrom(g, i, p1, p2 + 1)
  {
  }

  /** One full scan: the first factor site in scan order, if there is one. */
  function FirstFactorSite(g: Grammar): (r: Option<Site>)
    ensures r.Some? ==> IsFactorSite(g, r.value)
    ensures r.Some? ==> forall s :: Before(s, r.value) ==> !IsFactorSite(g, s)
    ensures r.None? <==> forall s :: !IsFactorSite(g, s)
  {
    ScanFromSound(g, 0, 0, 1);
    forall s | IsFactorSite(g, s) ensures ScanFrom(g, 0, 0, 1).Some? && !Before(s, ScanFrom(g, 0, 0, 1).value) {
      ScanFromComplete(g, 0, 0, 1, s);
    }
    ScanFrom(g, 0, 0, 1)
  }

  /** The new nonterminal's alternative for a suffix: an empty one is written
      as the literal "EPSILON". */
  function Leftover(x: seq<char>): seq<char> {
    if |x| == 0 then EpsilonWord else x
  }

  /** Alternative `y` of the factor, put back after `pre`, spells `x` again. */
  predicate ExpandsTo(pre: seq<char>, y: seq<char>, x: seq<char>) {
    (x == pre && y == EpsilonWord) || (|x| > |pre| && x == pre + y)
  }

  /** One factoring at site `s` (main.c:186-209). */
  function FactorStep(g: Grammar, s: Site): (r: Grammar)
    requires IsFactorSite(g, s)
    ensures |r| == |g| + 1
    ensures forall j :: 0 <= j < |g| && j != s.i ==> r[j] == g[j]
    ensures forall j :: 0 <= j < |g| ==> r[j].head == g[j].head
    ensures |r[s.i].prods| == |g[s.i].prods| - 1
    ensures r[s.i].prods[s.p1] ==
      CommonPrefix(g[s.i].prods[s.p1], g[s.i].prods[s.p2]) + [FactorHead(s.i)]
    ensures forall k :: 0 <= k < s.p2 && k != s.p1 ==> r[s.i].prods[k] == g[s.i].prods[k]
    ensures forall k :: s.p2 <= k < |r[s.i].prods| ==> r[s.i].prods[k] == g[s.i].prods[k + 1]
    ensures r[|g|].head == FactorHead(s.i) && |r[|g|].prods| == 2
    ensures var pre := CommonPrefix(g[s.i].prods[s.p1], g[s.i].prods[s.p2]);
      ExpandsTo(pre, r[|g|].prods[0], g[s.i].prods[s.p1]) &&
      ExpandsTo(pre, r[|g|].prods[1], g[s.i].prods[s.p2])
  {
    var rule := g[s.i];
    var x1 := rule.prods[s.p1];
    var x2 := rule.prods[s.p2];
    var pre := CommonPrefix(x1, x2);
    var h := FactorHead(s.i);
    var factor := Rule(h, [Leftover(x1[|pre|..]), Leftover(x2[|pre|..])]);
    var prods := rule.prods[..s.p1] + [pre + [h]] + rule.prods[s.p1 + 1..s.p2] + rule.prods[s.p2 + 1..];
    assert x1 == pre + x1[|pre|..] && x2 == pre + x2[|pre|..];
    g[s.i := Rule(rule.head, prods)] + [factor]
  }

  /** A factoring adds exactly the new name to the heads. */
  lemma FactorStepHeads(g: Grammar, s: Site)
    requires IsFactorSite(g, s)
    ensures HeadSet(FactorStep(g, s)) == HeadSet(g) + {FactorHead(s.i)}
    ensures DistinctHeads(g) ==> DistinctHeads(FactorStep(g, s))
  {
    var r := FactorStep(g, s);
    forall c | c in HeadSet(g) ensures c in HeadSet(r) {
      var j :| 0 <= j < |g| && g[j].head == c;
      assert r[j].head == c;
    }
    forall c | c in HeadSet(r) ensures c in HeadSet(g) + {FactorHead(s.i)} {
      var j :| 0 <= j < |r| && r[j].head == c;
      if j < |g| {
        assert g[j].head == c;
      }
    }
  }

  /** A factoring only moves characters of the grammar around (and may
      write "EPSILON"). */
  lemma FactorStepBytes(g: Grammar, s: Site)
    requires IsFactorSite(g, s)
    requires ByteGrammar(g)
    ensures ByteGrammar(FactorStep(g, s))
  {
    var r := FactorStep(g, s);
    var x1 := g[s.i].prods[s.p1];
    var x2 := g[s.i].prods[s.p2];
    var pre := CommonPrefix(x1, x2);
    forall j, p, k | 0 <= j < |r| && 0 <= p < |r[j].prods| && 0 <= k < |r[j].prods[p]|
      ensures IsByte(r[j].prods[p][k])
    {
      if j == |g| {
        var y := r[j].prods[p];
        var x := if p == 0 then x1 else x2;
        assert ExpandsTo(pre, y, x);
        if y != EpsilonWord {
          assert y[k] == x[|pre| + k];
        }
      } else if j == s.i {
        if p == s.p1 {
          if k < |pre| {
            assert r[j].prods[p][k] == x1[k];
          }
        } else if p < s.p2 {
          assert r[j].prods[p] == g[j].prods[p];
        } else {
          assert r[j].prods[p] == g[j].prods[p + 1];
        }
      } else {
        assert r[j] == g[j];
      }
    }
  }

  /** Upper-case letters not yet used as a head: each factoring uses one up. */
  function FreeLetters(g: Grammar): nat {
    |(set c: char | IsNonTerminal(c)) - HeadSet(g)|
  }

  lemma FactorStepUsesLetter(g: Grammar, s: Site)
    requires IsFactorSite(g, s)
    ensures FreeLetters(FactorStep(g, s)) == FreeLetters(g) - 1
  {
    FactorStepHeads(g, s);
    var letters := set c: char | IsNonTerminal(c);
    var h := FactorHead(s.i);
    assert h in letters - HeadSet(g);
    assert letters - HeadSet(FactorStep(g, s)) == (letters - HeadSet(g)) - {h};
  }

  /** `leftFactorGrammar`: factor at the first site until a scan finds none. */
  function LeftFactored(g: Grammar): (r: Grammar)
    ensures forall s :: !IsFactorSite(r, s)
    ensures |g| <= |r| <= |g| + FreeLetters(g)
    ensures forall j :: 0 <= j < |g| ==> r[j].head == g[j].head
    ensures DistinctHeads(g) ==> DistinctHeads(r)
    ensures ByteGrammar(g) ==> ByteGrammar(r)
    decreases FreeLetters(g)
  {
    match FirstFactorSite(g)
    case None => g
    case Some(s) =>
      FactorStepUsesLetter(g, s);
      FactorStepHeads(g, s);
      if ByteGrammar(g) then
        FactorStepBytes(g, s);
        LeftFactored(FactorStep(g, s))
      else LeftFactored(FactorStep(g, s))
  }

  /** Factoring an already factored grammar changes nothing. */
  lemma LeftFactoredIdempotent(g: Grammar)
    ensures LeftFactored(LeftFactored(g)) == LeftFactored(g)
  {
    var r := LeftFactored(g);
    assert FirstFactorSite(r).None?;
  }
}
