/** The comparator `handleSort` hands to `Array.prototype.sort`, the order it
    induces, and an in-place sort of an array by it. */
module Ordering {
  import Common
  import opened Catalog
  import opened Strings

  /** `valueA > valueB` for the column; titles are compared lowercased. */
  predicate Above(col: Column, a: Product, b: Product)
    ensures col != Title ==> (Above(col, a, b) <==> NumericKey(col, a) > NumericKey(col, b))
  {
    match col
    case Id => a.id > b.id
    case Price => a.price > b.price
    case Title => LexLess(Lower(b.title), Lower(a.title))
  }

  /** Of two products, at most one is above the other. */
  lemma AboveAsymmetric(col: Column, a: Product, b: Product)
    ensures !(Above(col, a, b) && Above(col, b, a))
  {
    if col == Title { LexLessAsymmetric(Lower(a.title), Lower(b.title)); }
  }

  /** Not being above is transitive: the keys form a total preorder. */
  lemma NotAboveTransitive(col: Column, a: Product, b: Product, c: Product)
    requires !Above(col, a, b) && !Above(col, b, c)
    ensures !Above(col, a, c)
  {
    if col == Title {
      var x, y, z := Lower(a.title), Lower(b.title), Lower(c.title);
      LexLessTotal(x, y);
      LexLessTotal(y, z);
      LexLessAsymmetric(x, z);
      if LexLess(x, y) && LexLess(y, z) { LexLessTransitive(x, y, z); }
    }
  }

  /** The comparator: for ascending `1` when `a` is above `b`, `-1` when below, else `0`;
      for descending the other way round. */
  function Compare(col: Column, dir: Direction, a: Product, b: Product): (r: int)
    ensures -1 <= r <= 1
    ensures r <= 0 <==> (if dir == Asc then !Above(col, a, b) else !Above(col, b, a))
    ensures r == 0 <==> !Above(col, a, b) && !Above(col, b, a)
  {
    AboveAsymmetric(col, a, b);
    match dir
    case Asc => if Above(col, a, b) then 1 else if Above(col, b, a) then -1 else 0
    case Desc => if Above(col, b, a) then 1 else if Above(col, a, b) then -1 else 0
  }

  /** Swapping the arguments negates the comparator. */
  lemma CompareAntisymmetric(col: Column, dir: Direction, a: Product, b: Product)
    ensures Compare(col, dir, a, b) == -Compare(col, dir, b, a)
  {
    AboveAsymmetric(col, a, b);
  }

  /** `a` may stay before `b`: the comparator does not ask for a swap. */
  predicate InOrder(col: Column, dir: Direction, a: Product, b: Product)
  {
    Compare(col, dir, a, b) <= 0
  }

  lemma InOrderTransitive(col: Column, dir: Direction, a: Product, b: Product, c: Product)
    requires InOrder(col, dir, a, b) && InOrder(col, dir, b, c)
    ensures InOrder(col, dir, a, c)
  {
    if dir == Asc { NotAboveTransitive(col, a, b, c); } else { NotAboveTransitive(col, c, b, a); }
  }

  /** Any two products are in order one way or the other. */
  lemma InOrderTotal(col: Column, dir: Direction, a: Product, b: Product)
    ensures InOrder(col, dir, a, b) || InOrder(col, dir, b, a)
  {
    CompareAntisymmetric(col, dir, a, b);
  }

  /** Every earlier product is in order with every later one. */
  predicate Sorted(s: seq<Product>, col: Column, dir: Direction)
  {
    forall i, j :: 0 <= i < j < |s| ==> InOrder(col, dir, s[i], s[j])
  }

  /** The comparator finds `a` and `b` equal: neither is above the other. */
  predicate Tied(col: Column, a: Product, b: Product)
  {
    !Above(col, a, b) && !Above(col, b, a)
  }

  /** Products equal to a common one are equal to each other. */
  lemma TiedThrough(col: Column, p: Product, q: Product, x: Product)
    requires Tied(col, p, x) && Tied(col, q, x)
    ensures Tied(col, p, q)
  {
    NotAboveTransitive(col, p, x, q);
    NotAboveTransitive(col, q, x, p);
  }

  /** The products of `s` that the comparator finds equal to `x`, in their order in `s`. */
  function Ties(s: seq<Product>, col: Column, x: Product): (r: seq<Product>)
    ensures |r| <= |s|
  {
    if s == [] then []
    else (if Tied(col, s[0], x) then [s[0]] else []) + Ties(s[1..], col, x)
  }

  /** `after` lists every group of equal products in the order `before` does: the promise of a
      stable sort. */
  ghost predicate KeepsTieOrder(before: seq<Product>, after: seq<Product>, col: Column)
  {
    forall x :: Ties(after, col, x) == Ties(before, col, x)
  }

  lemma {:induction false} TiesConcat(a: seq<Product>, b: seq<Product>, col: Column, x: Product)
    ensures Ties(a + b, col, x) == Ties(a, col, x) + Ties(b, col, x)
  {
    if a == [] {
      assert a + b == b;
    } else {
      Common.HeadTail(a, b);
      assert (a + b)[1..] == a[1..] + b;
      TiesConcat(a[1..], b, col, x);
    }
  }

  lemma TiesOfFour(front: seq<Product>, p: Product, q: Product, back: seq<Product>,
                   col: Column, x: Product)
    ensures Ties(front + [p] + [q] + back, col, x)
      == Ties(front, col, x) + Ties([p], col, x) + Ties([q], col, x) + Ties(back, col, x)
  {
    TiesConcat(front + [p] + [q], back, col, x);
    TiesConcat(front + [p], [q], col, x);
    TiesConcat(front, [p], col, x);
  }

  lemma ExchangeAroundEmpty<T>(f: seq<T>, p: seq<T>, q: seq<T>, b: seq<T>)
    requires p == [] || q == []
    ensures f + p + q + b == f + q + p + b
  {
  }

  lemma TiesOne(p: Product, col: Column, x: Product)
    ensures Ties([p], col, x) == if Tied(col, p, x) then [p] else []
  {
    assert [p][1..] == [];
  }

  /** Exchanging two neighbours that are not equal keeps every group of equal products in order,
      since at most one of the two belongs to any group. */
  lemma SwapKeepsTies(s: seq<Product>, col: Column, j: int)
    requires 0 < j < |s| && !Tied(col, s[j - 1], s[j])
    ensures KeepsTieOrder(s, Swap(s, j), col)
  {
    var front, p, q, back := s[..j - 1], s[j - 1], s[j], s[j + 1..];
    assert s == front + [p] + [q] + back;
    assert Swap(s, j) == front + [q] + [p] + back;
    forall x ensures Ties(Swap(s, j), col, x) == Ties(s, col, x) {
      TiesOfExchange(front, p, q, back, col, x);
    }
  }

  lemma TiesOfExchange(front: seq<Product>, p: Product, q: Product, back: seq<Product>,
                       col: Column, x: Product)
    requires !Tied(col, p, q)
    ensures Ties(front + [q] + [p] + back, col, x) == Ties(front + [p] + [q] + back, col, x)
  {
    TiesOfFour(front, p, q, back, col, x);
    TiesOfFour(front, q, p, back, col, x);
    TiesOne(p, col, x);
    TiesOne(q, col, x);
    if Tied(col, p, x) && Tied(col, q, x) {
      TiedThrough(col, p, q, x);
    }
    ExchangeAroundEmpty(Ties(front, col, x), Ties([p], col, x), Ties([q], col, x), Ties(back, col, x));
  }

  /** The key of a product for a numeric column. */
  function NumericKey(col: Column, p: Product): real
    requires col != Title
  {
    if col == Id then p.id as real else p.price
  }

  /** Sorted ascending by a numeric column means the keys never decrease, and conversely;
      sorted descending means they never increase. */
  lemma SortedNumericKeys(s: seq<Product>, col: Column, dir: Direction)
    requires col != Title
    ensures Sorted(s, col, dir) <==>
      forall i, j :: 0 <= i < j < |s| ==>
        if dir == Asc then NumericKey(col, s[i]) <= NumericKey(col, s[j])
        else NumericKey(col, s[i]) >= NumericKey(col, s[j])
  {
  }

  /** Sorted ascending by title means the lowercased titles never decrease in the `<` order of strings. */
  lemma SortedTitles(s: seq<Product>, dir: Direction)
    ensures Sorted(s, Title, dir) <==>
      forall i, j :: 0 <= i < j < |s| ==>
        if dir == Asc then !LexLess(Lower(s[j].title), Lower(s[i].title))
        else !LexLess(Lower(s[i].title), Lower(s[j].title))
  {
  }

  /** Reading an ascending list backwards gives a descending one. */
  lemma {:induction false} ReverseOfAscending(s: seq<Product>, col: Column)
    requires Sorted(s, col, Asc)
    ensures Sorted(Reverse(s), col, Desc)
  {
    var r := Reverse(s);
    forall i, j | 0 <= i < j < |r| ensures InOrder(col, Desc, r[i], r[j]) {
      assert r[i] == s[|s| - 1 - i] && r[j] == s[|s| - 1 - j];
      assert InOrder(col, Asc, s[|s| - 1 - j], s[|s| - 1 - i]);
    }
  }

  function Reverse(s: seq<Product>): (r: seq<Product>)
    ensures |r| == |s| && forall k :: 0 <= k < |s| ==> r[k] == s[|s| - 1 - k]
  {
    seq(|s|, k requires 0 <= k < |s| => s[|s| - 1 - k])
  }

  /** Reading backwards keeps every product as often as it occurs. */
  lemma {:induction false} ReverseMultiset(s: seq<Product>)
    ensures multiset(Reverse(s)) == multiset(s)
  {
    if s != [] {
      var front := s[..|s| - 1];
      ReverseMultiset(front);
      assert Reverse(s) == [s[|s| - 1]] + Reverse(front);
      assert s == front + [s[|s| - 1]];
    }
  }

  // ---------------------------------------------------------------- the sorted result is unique

  /** No two products of the list are equal for the comparator. */
  predicate NoTies(s: seq<Product>, col: Column)
  {
    forall i, j :: 0 <= i < j < |s| ==> !Tied(col, s[i], s[j])
  }

  /** Every product is equal to itself for the comparator. */
  lemma TiedReflexive(col: Column, x: Product)
    ensures Tied(col, x, x)
  {
    if col == Title { LexLessAsymmetric(Lower(x.title), Lower(x.title)); }
  }

  /** Two lists sorted the same way, holding the same products, start with products the
      comparator finds equal. */
  lemma SortedHeadsTied(s: seq<Product>, t: seq<Product>, col: Column, dir: Direction)
    requires s != [] && Sorted(s, col, dir) && Sorted(t, col, dir) && multiset(s) == multiset(t)
    ensures t != [] && Tied(col, s[0], t[0])
    ensures s[0] != t[0] ==> exists k :: 0 < k < |s| && s[k] == t[0]
  {
    assert s[0] in multiset(t);
    assert t != [];
    assert t[0] in multiset(s);
    var k :| 0 <= k < |s| && s[k] == t[0];
    var m :| 0 <= m < |t| && t[m] == s[0];
    TiedReflexive(col, s[0]);
    if k > 0 && m > 0 {
      assert InOrder(col, dir, s[0], t[0]) && InOrder(col, dir, t[0], s[0]);
      CompareAntisymmetric(col, dir, s[0], t[0]);
    }
  }

  /** After the first product, both lists still hold the same products. */
  lemma SameTails(s: seq<Product>, t: seq<Product>)
    requires s != [] && t != [] && s[0] == t[0] && multiset(s) == multiset(t)
    ensures multiset(s[1..]) == multiset(t[1..])
  {
    assert s == [s[0]] + s[1..];
    assert t == [t[0]] + t[1..];
    assert multiset(s) == multiset{s[0]} + multiset(s[1..]);
    assert multiset(t) == multiset{s[0]} + multiset(t[1..]);
    assert forall x :: multiset(s[1..])[x] == multiset(s)[x] - multiset{s[0]}[x];
  }

  lemma SortedTail(s: seq<Product>, col: Column, dir: Direction)
    requires s != [] && Sorted(s, col, dir)
    ensures Sorted(s[1..], col, dir)
  {
    forall i, j | 0 <= i < j < |s| - 1 ensures InOrder(col, dir, s[1..][i], s[1..][j]) {
      assert s[1..][i] == s[i + 1] && s[1..][j] == s[j + 1];
    }
  }

  /** Without equal keys there is one sorted order: two sorted lists of the same products are
      the same list. */
  lemma {:induction false} SortedPermutationUnique(s: seq<Product>, t: seq<Product>, col: Column, dir: Direction)
    requires Sorted(s, col, dir) && Sorted(t, col, dir)
    requires multiset(s) == multiset(t) && NoTies(s, col)
    ensures s == t
    decreases |s|
  {
    if s == [] {
      assert |t| == |multiset(t)| == 0;
    } else {
      SortedHeadsTied(s, t, col, dir);
      SameTails(s, t);
      SortedTail(s, col, dir);
      SortedTail(t, col, dir);
      assert NoTies(s[1..], col) by {
        assert forall i :: 0 <= i < |s| - 1 ==> s[1..][i] == s[i + 1];
      }
      SortedPermutationUnique(s[1..], t[1..], col, dir);
      assert s == [s[0]] + s[1..] && t == [t[0]] + t[1..];
    }
  }

  /** The second click on a column: a list sorted ascending with no equal keys, sorted
      descending, comes out reversed. */
  lemma DescendingIsReverse(s: seq<Product>, t: seq<Product>, col: Column)
    requires Sorted(s, col, Asc) && NoTies(s, col)
    requires Sorted(t, col, Desc) && multiset(t) == multiset(s)
    ensures t == Reverse(s)
  {
    var r := Reverse(s);
    ReverseOfAscending(s, col);
    ReverseMultiset(s);
    assert NoTies(r, col) by {
      forall i, j | 0 <= i < j < |r| ensures !Tied(col, r[i], r[j]) {
        assert r[i] == s[|s| - 1 - i] && r[j] == s[|s| - 1 - j];
      }
    }
    SortedPermutationUnique(r, t, col, Desc);
  }

  /** The stable sort's result is fixed by the comparator: two sorted lists of the same products
      that keep every group of equal products in the same order are the same list. */
  lemma {:induction false} StableSortUnique(s: seq<Product>, t: seq<Product>, col: Column, dir: Direction)
    requires Sorted(s, col, dir) && Sorted(t, col, dir)
    requires multiset(s) == multiset(t) && KeepsTieOrder(s, t, col)
    ensures s == t
    decreases |s|
  {
    if s == [] {
      assert |t| == |multiset(t)| == 0;
    } else {
      SortedHeadsTied(s, t, col, dir);
      TiedHeads(s, t, col);
      SameTails(s, t);
      SortedTail(s, col, dir);
      SortedTail(t, col, dir);
      TailsKeepTieOrder(s, t, col);
      StableSortUnique(s[1..], t[1..], col, dir);
      assert s == [s[0]] + s[1..] && t == [t[0]] + t[1..];
    }
  }

  /** Equal heads of two lists with the same tie groups are the same product: both lead the
      group of the first one. */
  lemma TiedHeads(s: seq<Product>, t: seq<Product>, col: Column)
    requires s != [] && t != [] && Tied(col, s[0], t[0]) && KeepsTieOrder(s, t, col)
    ensures s[0] == t[0]
  {
    var x := s[0];
    TiedReflexive(col, x);
    assert Ties(s, col, x) == [s[0]] + Ties(s[1..], col, x);
    assert Tied(col, t[0], x) by {
      assert !Above(col, s[0], t[0]) && !Above(col, t[0], s[0]);
    }
    assert Ties(t, col, x) == [t[0]] + Ties(t[1..], col, x);
    assert Ties(t, col, x)[0] == t[0];
  }

  /** Dropping the same first product keeps the tie groups equal. */
  lemma TailsKeepTieOrder(s: seq<Product>, t: seq<Product>, col: Column)
    requires s != [] && t != [] && s[0] == t[0] && KeepsTieOrder(s, t, col)
    ensures KeepsTieOrder(s[1..], t[1..], col)
  {
    forall x ensures Ties(t[1..], col, x) == Ties(s[1..], col, x) {
      var lead := if Tied(col, s[0], x) then [s[0]] else [];
      assert Ties(s, col, x) == lead + Ties(s[1..], col, x);
      assert Ties(t, col, x) == lead + Ties(t[1..], col, x);
      assert Ties(t[1..], col, x) == Ties(t, col, x)[|lead|..];
      assert Ties(s[1..], col, x) == Ties(s, col, x)[|lead|..];
    }
  }

  // ---------------------------------------------------------------- the in-place sort

  /** Pairs at positions `p < q <= hi`, neither of them `skip`, are in order. */
  predicate SortedExcept(s: seq<Product>, col: Column, dir: Direction, hi: int, skip: int)
    requires hi < |s|
  {
    forall p, q :: 0 <= p < q <= hi && p != skip && q != skip ==> InOrder(col, dir, s[p], s[q])
  }

  /** Sorts `a` in place with the comparator: insertion by adjacent swaps, which moves a product
      only past products strictly after it, so equal keys keep their relative order. */
  method SortInPlace(a: array<Product>, col: Column, dir: Direction)
    modifies a
    ensures Sorted(a[..], col, dir)
    ensures multiset(a[..]) == multiset(old(a[..]))
    ensures KeepsTieOrder(old(a[..]), a[..], col)
  {
    if a.Length == 0 { return; }
    var i := 1;
    assert Sorted(a[..1], col, dir);
    while i < a.Length
      invariant 1 <= i <= a.Length
      invariant Sorted(a[..i], col, dir)
      invariant multiset(a[..]) == multiset(old(a[..]))
      invariant KeepsTieOrder(old(a[..]), a[..], col)
    {
      Insert(a, col, dir, i);
      i := i + 1;
    }
    assert a[..a.Length] == a[..];
  }

  /** Moves `a[hi]` left past the products strictly after it, so that the first `hi + 1` are sorted. */
  method Insert(a: array<Product>, col: Column, dir: Direction, hi: int)
    requires 0 <= hi < a.Length && Sorted(a[..hi], col, dir)
    modifies a
    ensures Sorted(a[..hi + 1], col, dir)
    ensures multiset(a[..]) == multiset(old(a[..]))
    ensures KeepsTieOrder(old(a[..]), a[..], col)
    ensures a[hi + 1..] == old(a[hi + 1..])
  {
    var j := hi;
    InsertionStart(a[..], col, dir, hi);
    while j > 0 && Compare(col, dir, a[j - 1], a[j]) > 0
      invariant 0 <= j <= hi
      invariant Inserting(a[..], col, dir, hi, j)
      invariant multiset(a[..]) == multiset(old(a[..]))
      invariant KeepsTieOrder(old(a[..]), a[..], col)
      invariant a[hi + 1..] == old(a[hi + 1..])
    {
      ghost var before := a[..];
      SwapAdjacent(a, j);
      InsertionStep(before, col, dir, hi, j);
      SwapKeepsTies(before, col, j);
      SwapKeepsAfter(before, j, hi);
      j := j - 1;
    }
    InsertionDone(a[..], col, dir, hi, j);
  }

  /** Exchanges `a[j - 1]` and `a[j]`. */
  method SwapAdjacent(a: array<Product>, j: int)
    requires 0 < j < a.Length
    modifies a
    ensures a[..] == Swap(old(a[..]), j)
  {
    a[j - 1], a[j] := a[j], a[j - 1];
  }

  /** While the product that started at `hi` moves left and now sits at `j`: the others keep
      their order, and it is in order with everything it has passed. */
  predicate Inserting(s: seq<Product>, col: Column, dir: Direction, hi: int, j: int)
  {
    && 0 <= j <= hi < |s|
    && SortedExcept(s, col, dir, hi, j)
    && forall q :: j < q <= hi ==> InOrder(col, dir, s[j], s[q])
  }

  function Swap(s: seq<Product>, j: int): (r: seq<Product>)
    requires 0 < j < |s|
    ensures multiset(r) == multiset(s)
  {
    s[j - 1 := s[j]][j := s[j - 1]]
  }

  /** An exchange at or before `hi` leaves the products after `hi` where they were. */
  lemma SwapKeepsAfter(s: seq<Product>, j: int, hi: int)
    requires 0 < j <= hi < |s|
    ensures Swap(s, j)[hi + 1..] == s[hi + 1..]
  {
  }

  lemma InsertionStart(s: seq<Product>, col: Column, dir: Direction, hi: int)
    requires 0 <= hi < |s| && Sorted(s[..hi], col, dir)
    ensures Inserting(s, col, dir, hi, hi)
  {
    forall p, q | 0 <= p < q <= hi && p != hi && q != hi ensures InOrder(col, dir, s[p], s[q]) {
      assert s[p] == s[..hi][p] && s[q] == s[..hi][q];
    }
  }

  /** Moving the product one place left past a product strictly after it keeps `Inserting`. */
  lemma InsertionStep(s: seq<Product>, col: Column, dir: Direction, hi: int, j: int)
    requires Inserting(s, col, dir, hi, j) && j > 0
    requires Compare(col, dir, s[j - 1], s[j]) > 0
    ensures Inserting(Swap(s, j), col, dir, hi, j - 1)
  {
    var t := Swap(s, j);
    CompareAntisymmetric(col, dir, s[j - 1], s[j]);
    forall p, q | 0 <= p < q <= hi && p != j - 1 && q != j - 1
      ensures InOrder(col, dir, t[p], t[q])
    {
      var p', q' := if p == j then j - 1 else p, if q == j then j - 1 else q;
      assert t[p] == s[p'] && t[q] == s[q'];
    }
  }

  /** When the inserted product no longer needs to move, the first `hi + 1` products are sorted. */
  lemma InsertionDone(s: seq<Product>, col: Column, dir: Direction, hi: int, j: int)
    requires Inserting(s, col, dir, hi, j)
    requires j > 0 ==> Compare(col, dir, s[j - 1], s[j]) <= 0
    ensures Sorted(s[..hi + 1], col, dir)
  {
    forall p, q | 0 <= p < q <= hi ensures InOrder(col, dir, s[p], s[q]) {
      if q == j && p < j - 1 {
        InOrderTransitive(col, dir, s[p], s[j - 1], s[j]);
      }
    }
  }
}
