/** The title search of `handleSearch`: the normalised term and the filter it drives. */
module Search {
  import opened Strings
  import opened Catalog

  /** `searchTerm.toLowerCase().trim()`: the lowered input with its leading and trailing white
      space cut off. */
  function SearchTerm(raw: string): (term: string)
    ensures IsTrimmed(term) && StrippedOf(term, Lower(raw))
    ensures Lower(term) == term
    ensures term == [] <==> AllSpace(Lower(raw))
  {
    var lowered := Lower(raw);
    LowerTrimmedLower(raw);
    TrimShape(lowered);
    TrimIsInfix(lowered);
    Trim(lowered)
  }

  /** Trimming a lowered string leaves it lowered. */
  lemma LowerTrimmedLower(raw: string)
    ensures Lower(Trim(Lower(raw))) == Trim(Lower(raw))
  {
    var lowered := Lower(raw);
    var t := TrimStart(lowered);
    LoweredSuffix(raw, |lowered| - |t|);
    LoweredPrefix(t, |TrimEnd(t)|);
    LowerOfLowered(Trim(lowered));
  }

  lemma LoweredSuffix(raw: string, off: nat)
    requires off <= |raw|
    ensures forall k :: 0 <= k < |raw| - off ==> LowerChar(Lower(raw)[off..][k]) == Lower(raw)[off..][k]
  {
  }

  lemma LoweredPrefix(t: string, n: nat)
    requires n <= |t|
    requires forall k :: 0 <= k < |t| ==> LowerChar(t[k]) == t[k]
    ensures forall k :: 0 <= k < n ==> LowerChar(t[..n][k]) == t[..n][k]
  {
  }

  lemma LowerOfLowered(s: string)
    requires forall k :: 0 <= k < |s| ==> LowerChar(s[k]) == s[k]
    ensures Lower(s) == s
  {
  }

  /** `product.title.toLowerCase().includes(term)`. */
  predicate TitleMatches(p: Product, term: string)
  {
    Includes(Lower(p.title), term)
  }

  /** `r` is `s` with some entries left out, the rest in their original order. */
  predicate IsSubsequence(r: seq<Product>, s: seq<Product>)
    decreases |s|
  {
    if r == [] then true
    else if s == [] then false
    else if r[0] == s[0] then IsSubsequence(r[1..], s[1..])
    else IsSubsequence(r, s[1..])
  }

  /** `allProducts.filter(...)`: the products whose lowercased title contains the term,
      each as often as in the input, in their original order. */
  function FilterByTitle(s: seq<Product>, term: string): (r: seq<Product>)
    ensures |r| <= |s|
    ensures forall k :: 0 <= k < |r| ==> TitleMatches(r[k], term)
    ensures forall p :: multiset(r)[p] == if TitleMatches(p, term) then multiset(s)[p] else 0
    ensures IsSubsequence(r, s)
  {
    if s == [] then []
    else
      var rest := FilterByTitle(s[1..], term);
      assert s == [s[0]] + s[1..];
      assert multiset(s) == multiset{s[0]} + multiset(s[1..]);
      if TitleMatches(s[0], term) then
        assert ([s[0]] + rest)[1..] == rest;
        [s[0]] + rest
      else
        assert rest != [] ==> rest[0] != s[0];
        rest
  }

  /** Every title contains the empty term, so filtering by it keeps the whole list. */
  lemma {:induction false} FilterByEmptyTerm(s: seq<Product>)
    ensures FilterByTitle(s, []) == s
  {
    if s != [] {
      IncludesEmpty(Lower(s[0].title));
      FilterByEmptyTerm(s[1..]);
    }
  }

  /** The list `handleSearch` shows: a copy of everything for a blank term, else the filtered list. */
  function SearchResult(all: seq<Product>, raw: string): (r: seq<Product>)
    ensures SearchTerm(raw) == [] ==> r == all
    ensures r == FilterByTitle(all, SearchTerm(raw))
  {
    var term := SearchTerm(raw);
    FilterByEmptyTerm(all);
    if term == [] then all else FilterByTitle(all, term)
  }

  /** The search result is drawn from the cache: never longer, and no product more often. */
  lemma SearchResultDrawn(all: seq<Product>, raw: string)
    ensures |SearchResult(all, raw)| <= |all|
    ensures multiset(SearchResult(all, raw)) <= multiset(all)
  {
    var r := SearchResult(all, raw);
    assert forall p :: multiset(r)[p] <= multiset(all)[p];
  }

  /** A product is found exactly when its lowercased title contains the term at some position. */
  lemma FoundIffOccurs(all: seq<Product>, raw: string, p: Product)
    requires p in all
    ensures p in SearchResult(all, raw) <==>
      exists i :: OccursAt(Lower(p.title), SearchTerm(raw), i)
  {
    var term := SearchTerm(raw);
    IncludesIffOccurs(Lower(p.title), term);
    assert multiset(all)[p] > 0;
    assert p in SearchResult(all, raw) <==> multiset(SearchResult(all, raw))[p] > 0;
  }
}
