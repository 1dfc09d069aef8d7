/** The records of the shopping-list app (types.ts). */
module Types {
  import opened ArrayMethods

  /** A line of a shopping list, and also an entry of the product bank. */
  datatype Item = Item(id: string, name: string, quantity: int, category: string, notes: string, purchased: bool)

  datatype Member = Member(id: string, name: string, email: string)

  datatype ShoppingList = ShoppingList(id: string, name: string, icon: Option<string>, items: seq<Item>, members: seq<Member>)

  /** `Category.Outros`, the category that items of a deleted category move to. */
  const Outros: string := "Outros"

  /** JavaScript truthiness of a `string | null` id: neither null nor the empty string. */
  predicate Truthy(id: Option<string>) {
    id.Some? && id.value != ""
  }

  /** `id || null`: the empty string is falsy and becomes null. */
  function IdOrNull(id: string): (r: Option<string>)
    ensures Truthy(r) <==> id != ""
    ensures r.None? <==> id == ""
    ensures r.Some? ==> r.value == id
  {
    if id == "" then None else Some(id)
  }

  /** Item ids are unique within a collection (a list's items, or the product bank). */
  ghost predicate UniqueIds(items: seq<Item>) {
    DistinctBy(items, (it: Item) => it.id)
  }

  /** List ids are unique within the collection of lists. */
  ghost predicate UniqueListIds(lists: seq<ShoppingList>) {
    DistinctBy(lists, (l: ShoppingList) => l.id)
  }
}
