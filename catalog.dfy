/** The product record the console caches, and the names it uses for sorting. */
module Catalog {
  import opened Common

  /** The optional `category` reference of a product. */
  datatype Category = Category(id: int, name: string)

  /** A product as the remote catalog returns it. */
  datatype Product = Product(
    id: int,
    title: string,
    price: real,
    description: string,
    category: Option<Category>,
    images: seq<string>)

  /** The columns whose sort toggle is modelled. */
  datatype Column = Id | Title | Price

  datatype Direction = Asc | Desc

  /** How numbers become text in the markup and the CSV (JavaScript's number-to-string). */
  datatype NumberFormat = NumberFormat(idText: int -> string, priceText: real -> string)

  /** The text shown for the category: `product.category?.name || 'N/A'`. */
  function CategoryLabel(p: Product): (text: string)
    ensures text != []
    ensures p.category.Some? && p.category.value.name != [] ==> text == p.category.value.name
    ensures !(p.category.Some? && p.category.value.name != []) ==> text == "N/A"
  {
    if p.category.Some? && p.category.value.name != [] then p.category.value.name else "N/A"
  }
}
