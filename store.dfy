/** The cached product list after a write: lookup by id, replace on edit, prepend on create. */
module Store {
  import opened Common
  import opened Catalog

  /** The outcome of a request as the console sees it: a parsed body, or a failure
      (a response that is not ok, or a request that threw). */
  datatype Reply<T> = Delivered(body: T) | Failed

  /** `products.findIndex(p => p.id === id)`: the first position holding `id`, or `-1`. */
  function FindIndexById(s: seq<Product>, id: int): (i: int)
    ensures -1 <= i < |s|
    ensures i == -1 <==> forall k :: 0 <= k < |s| ==> s[k].id != id
    ensures i >= 0 ==> s[i].id == id && forall k :: 0 <= k < i ==> s[k].id != id
  {
    if s == [] then -1
    else if s[0].id == id then 0
    else
      var j := FindIndexById(s[1..], id);
      assert forall k :: 1 <= k < |s| ==> s[1..][k - 1] == s[k];
      if j == -1 then -1 else j + 1
  }

  /** `products.find(p => p.id === id)`. */
  function FindById(s: seq<Product>, id: int): (r: Option<Product>)
    ensures r.Some? <==> exists k :: 0 <= k < |s| && s[k].id == id
    ensures r.Some? ==> r.value == s[FindIndexById(s, id)] && r.value.id == id
  {
    var i := FindIndexById(s, id);
    if i == -1 then None else Some(s[i])
  }

  /** No two cached products share an id. */
  predicate UniqueIds(s: seq<Product>)
  {
    forall i, j :: 0 <= i < j < |s| ==> s[i].id != s[j].id
  }

  /** `allProducts[index] = updatedProduct` for the first entry holding `id`: the list keeps its length,
      only that entry changes, and when it was found nothing else holds the id afterwards either. */
  lemma ReplaceFirstMatch(s: seq<Product>, id: int, p: Product)
    requires UniqueIds(s) && p.id == id && FindIndexById(s, id) >= 0
    ensures var i := FindIndexById(s, id);
      UniqueIds(s[i := p]) && forall k :: 0 <= k < |s| && k != i ==> s[k].id != id
  {
  }

  /** `allProducts.unshift(created)`: bringing in a product with a fresh id keeps ids unique, and
      the old entries follow it in order. */
  lemma PrependFresh(s: seq<Product>, p: Product)
    requires UniqueIds(s) && FindIndexById(s, p.id) == -1
    ensures UniqueIds([p] + s)
    ensures FindIndexById([p] + s, p.id) == 0
    ensures forall k :: 0 <= k < |s| ==> ([p] + s)[k + 1] == s[k]
  {
  }
}
