/** Strings used as sets of characters: the FIRST and FOLLOW buffers, the
    terminal list and scratch buffers. Insertion order is kept; a member is
    never added twice. */
module CharSets {

  predicate NoDups(s: seq<char>) {
    forall i, j :: 0 <= i < j < |s| ==> s[i] != s[j]
  }

  /** Position of the first `c` in `s` at or after `k`, or -1 (a linear search). */
  function IndexFrom(s: seq<char>, c: char, k: nat): (r: int)
    requires k <= |s|
    ensures -1 <= r < |s|
    ensures r >= 0 ==> k <= r && s[r] == c && forall j :: k <= j < r ==> s[j] != c
    ensures r == -1 <==> forall j :: k <= j < |s| ==> s[j] != c
    decreases |s| - k
  {
    if k == |s| then -1 else if s[k] == c then k else IndexFrom(s, c, k + 1)
  }

  /** Position of the first `c` in `s`, or -1. */
  function IndexOf(s: seq<char>, c: char): (r: int)
    ensures -1 <= r < |s|
    ensures r >= 0 ==> s[r] == c && forall j :: 0 <= j < r ==> s[j] != c
    ensures r == -1 <==> c !in s
  {
    IndexFrom(s, c, 0)
  }

  /** Appending to a buffer leaves the position of what it already holds. */
  lemma IndexOfPrefix(s: seq<char>, t: seq<char>, c: char)
    requires |s| <= |t| && t[..|s|] == s && c in s
    ensures IndexOf(t, c) == IndexOf(s, c)
  {
    var i := IndexOf(s, c);
    assert t[i] == c;
    assert forall j :: 0 <= j < |s| ==> t[j] == s[j];
  }

  /** C's `strchr` on the NUL-terminated buffer holding `s`, as an offset:
      searching for the terminator finds it just past the last character. */
  function Strchr(s: seq<char>, c: char): (r: int)
    ensures -1 <= r <= |s|
    ensures r == -1 <==> c != '\0' && c !in s
    ensures 0 <= r < |s| ==> s[r] == c && forall j :: 0 <= j < r ==> s[j] != c
    ensures r == |s| ==> c == '\0' && c !in s
  {
    var k := IndexOf(s, c);
    if k >= 0 then k else if c == '\0' then |s| else -1
  }

  /** `containsSymbol`: whether strchr finds `c`, which it does for members
      and for the terminator '\0' (ContainsSymbolIsStrchr). */
  function ContainsSymbol(s: seq<char>, c: char): bool {
    c in s || c == '\0'
  }

  lemma ContainsSymbolIsStrchr(s: seq<char>, c: char)
    ensures ContainsSymbol(s, c) <==> Strchr(s, c) != -1
  {
  }

  /** `addToSet`: append `c` unless the buffer already contains it. */
  function AddToSet(s: seq<char>, c: char): (r: seq<char>)
    ensures ContainsSymbol(r, c)
    ensures |r| == |s| + (if ContainsSymbol(s, c) then 0 else 1)
    ensures r[..|s|] == s
    ensures forall x {:trigger x in r} :: x in r <==> x in s || (x == c && c != '\0')
  {
    if ContainsSymbol(s, c) then s else s + [c]
  }

  /** Adds every character of `xs` in order, as a loop of AddToSet calls. */
  function AddAll(s: seq<char>, xs: seq<char>): (r: seq<char>)
    ensures |s| <= |r| && r[..|s|] == s
    ensures forall x {:trigger x in r} :: x in r <==> x in s || (x in xs && x != '\0')
    decreases |xs|
  {
    if xs == [] then s else AddAll(AddToSet(s, xs[0]), xs[1..])
  }

  /** `addToSet` never stores a character twice. */
  lemma AddToSetKeepsSet(s: seq<char>, c: char)
    requires NoDups(s)
    ensures NoDups(AddToSet(s, c))
  {
  }

  /** ... and neither does a run of it. */
  lemma {:induction false} AddAllKeepsSet(s: seq<char>, xs: seq<char>)
    requires NoDups(s)
    ensures NoDups(AddAll(s, xs))
    decreases |xs|
  {
    if xs != [] {
      AddToSetKeepsSet(s, xs[0]);
      AddAllKeepsSet(AddToSet(s, xs[0]), xs[1..]);
    }
  }

  /** `xs` without the occurrences of `c`, order kept. */
  function Without(xs: seq<char>, c: char): (r: seq<char>)
    ensures forall x {:trigger x in r} :: x in r <==> x in xs && x != c
    ensures |r| <= |xs|
  {
    if xs == [] then []
    else (if xs[0] != c then [xs[0]] else []) + Without(xs[1..], c)
  }

  /** Adding two batches one after the other is adding their concatenation. */
  lemma {:induction false} AddAllConcat(s: seq<char>, xs: seq<char>, ys: seq<char>)
    ensures AddAll(AddAll(s, xs), ys) == AddAll(s, xs + ys)
    decreases |xs|
  {
    if xs == [] {
      assert xs + ys == ys;
    } else {
      var t := AddToSet(s, xs[0]);
      assert (xs + ys)[0] == xs[0];
      assert (xs + ys)[1..] == xs[1..] + ys;
      calc {
        AddAll(AddAll(s, xs), ys);
        AddAll(AddAll(t, xs[1..]), ys);
        { AddAllConcat(t, xs[1..], ys); }
        AddAll(t, xs[1..] + ys);
        AddAll(s, xs + ys);
      }
    }
  }

  /** Adding characters that are all present already changes nothing. */
  lemma {:induction false} AddAllAbsorbs(s: seq<char>, xs: seq<char>)
    requires forall x :: x in xs ==> ContainsSymbol(s, x)
    ensures AddAll(s, xs) == s
    decreases |xs|
  {
    if xs != [] {
      assert xs[0] in xs;
      assert AddToSet(s, xs[0]) == s;
      forall x | x in xs[1..] ensures ContainsSymbol(s, x) {
        assert x in xs;
      }
      AddAllAbsorbs(s, xs[1..]);
    }
  }

  /** Adding the same batch a second time changes nothing. */
  lemma AddAllIdempotent(s: seq<char>, xs: seq<char>)
    ensures AddAll(AddAll(s, xs), xs) == AddAll(s, xs)
  {
    AddAllAbsorbs(AddAll(s, xs), xs);
  }

  /** Taking out `c` commutes with splitting off the first element. */
  lemma WithoutStep(xs: seq<char>, m: nat, c: char)
    requires m < |xs|
    ensures Without(xs[m..], c) == (if xs[m] != c then [xs[m]] else []) + Without(xs[m + 1..], c)
  {
    assert xs[m..][1..] == xs[m + 1..];
  }

  /** Taking out `c` distributes over concatenation. */
  lemma {:induction false} WithoutConcat(xs: seq<char>, ys: seq<char>, c: char)
    ensures Without(xs + ys, c) == Without(xs, c) + Without(ys, c)
    decreases |xs|
  {
    if xs == [] {
      assert xs + ys == ys;
    } else {
      assert (xs + ys)[0] == xs[0];
      assert (xs + ys)[1..] == xs[1..] + ys;
      WithoutConcat(xs[1..], ys, c);
    }
  }

  /** Adding one more character at the end of a batch. */
  lemma AddAllSnoc(s: seq<char>, xs: seq<char>, x: char)
    ensures AddAll(s, xs + [x]) == AddToSet(AddAll(s, xs), x)
  {
    AddAllConcat(s, xs, [x]);
    assert [x][1..] == [];
  }

  /** Copying the members other than `c` of `xs + [x]` is copying those of
      `xs` and then `x` unless it is `c`. */
  lemma AddAllWithoutSnoc(acc: seq<char>, xs: seq<char>, x: char, c: char)
    ensures AddAll(acc, Without(xs + [x], c)) == AddAll(AddAll(acc, Without(xs, c)), Without([x], c))
  {
    WithoutConcat(xs, [x], c);
    AddAllConcat(acc, Without(xs, c), Without([x], c));
  }

  /** One more step of a copying loop that skips `c`: the next character
      is added unless it is `c`. */
  lemma AddAllWithoutStep(acc: seq<char>, xs: seq<char>, m: nat, c: char)
    requires m < |xs|
    ensures AddAll(acc, Without(xs[..m + 1], c)) ==
      if xs[m] != c then AddToSet(AddAll(acc, Without(xs[..m], c)), xs[m])
      else AddAll(acc, Without(xs[..m], c))
  {
    assert xs[..m + 1] == xs[..m] + [xs[m]];
    AddAllWithoutSnoc(acc, xs[..m], xs[m], c);
    assert Without([xs[m]], c) == if xs[m] != c then [xs[m]] else [];
    assert [xs[m]][1..] == [];
  }

  /** One more step of a copying loop. */
  lemma AddAllStep(acc: seq<char>, xs: seq<char>, m: nat)
    requires m < |xs|
    ensures AddAll(acc, xs[..m + 1]) == AddToSet(AddAll(acc, xs[..m]), xs[m])
  {
    assert xs[..m + 1] == xs[..m] + [xs[m]];
    AddAllSnoc(acc, xs[..m], xs[m]);
  }

  /** Copying the members other than `c` of a deduplicated copy of `e` adds
      the same characters, in the same order, as copying those of `e`
      itself: repeats are skipped either way. */
  lemma {:induction false} AddAllDedup(acc: seq<char>, e: seq<char>, c: char)
    ensures AddAll(acc, Without(AddAll([], e), c)) == AddAll(acc, Without(e, c))
    decreases |e|
  {
    if e != [] {
      var init, x := e[..|e| - 1], e[|e| - 1];
      assert e == init + [x];
      var d := AddAll([], init);
      AddAllDedup(acc, init, c);
      AddAllSnoc([], init, x);
      AddAllWithoutSnoc(acc, init, x, c);
      var base := AddAll(acc, Without(init, c));
      if ContainsSymbol(d, x) {
        assert AddAll([], e) == d;
        assert [x][1..] == [];
        assert x != c && x != '\0' ==> x in Without(init, c);
        assert AddAll(base, Without([x], c)) == base;
      } else {
        AddAllWithoutSnoc(acc, d, x, c);
      }
    }
  }

  /** A duplicate-free string drawn from a finite set is no longer than that set. */
  lemma {:induction false} NoDupsBounded(s: seq<char>, u: set<char>)
    requires NoDups(s)
    requires forall x :: x in s ==> x in u
    ensures |s| <= |u|
    decreases |s|
  {
    if s != [] {
      var last := s[|s| - 1];
      var init := s[..|s| - 1];
      assert NoDups(init);
      forall x | x in init ensures x in u - {last} {
        var k :| 0 <= k < |init| && init[k] == x;
        assert s[k] == x && k < |s| - 1;
      }
      NoDupsBounded(init, u - {last});
    }
  }
}
