/**
  The "Add from Product Bank" modal, components/modals/AddFromProductBankModal.tsx:
  a case-insensitive search over the store's product bank, a small form that
  adds a new product to the bank, and the Add button that hands a bank entry
  to the caller.
 */
module ProductBankModal {
  import opened ArrayMethods
  import opened Types
  import opened DataContext

  /** `t` occurs in `s` starting at position `i`. */
  predicate OccursAt(s: string, t: string, i: nat)
    requires i + |t| <= |s|
  {
    s[i..i + |t|] == t
  }

  /** `s.includes(t)`: `t` occurs in `s` at some position (the empty string occurs everywhere). */
  predicate Includes(s: string, t: string) {
    exists i: nat :: i + |t| <= |s| && OccursAt(s, t, i)
  }

  /** `product.name.toLowerCase().includes(searchTerm.toLowerCase())`. */
  predicate MatchesSearch(product: Item, searchTerm: string, lower: string -> string) {
    Includes(lower(product.name), lower(searchTerm))
  }

  /** `filteredProducts`. */
  function FilterProducts(products: seq<Item>, searchTerm: string, lower: string -> string): (r: seq<Item>)
    ensures forall p :: p in r <==> p in products && MatchesSearch(p, searchTerm, lower)
  {
    Filter(products, (p: Item) => MatchesSearch(p, searchTerm, lower))
  }

  /** The search keeps exactly the matching products, in the bank's order. */
  lemma FilterProductsExact(products: seq<Item>, searchTerm: string, lower: string -> string)
    ensures forall p :: p in FilterProducts(products, searchTerm, lower) <==> p in products && MatchesSearch(p, searchTerm, lower)
    ensures IsSubsequence(FilterProducts(products, searchTerm, lower), products)
  {
    FilterIsSubsequence(products, (p: Item) => MatchesSearch(p, searchTerm, lower));
  }

  /** An empty search term shows the whole bank (given that lower-casing keeps the empty string empty). */
  lemma EmptySearchShowsAll(products: seq<Item>, lower: string -> string)
    requires lower("") == ""
    ensures FilterProducts(products, "", lower) == products
  {
    forall i | 0 <= i < |products| ensures MatchesSearch(products[i], "", lower) {
      assert OccursAt(lower(products[i].name), "", 0);
    }
    FilterKeepsAll(products, (p: Item) => MatchesSearch(p, "", lower));
  }

  /** A product whose lower-cased name is the lower-cased search term is always shown. */
  lemma ExactNameIsShown(products: seq<Item>, p: Item, searchTerm: string, lower: string -> string)
    requires p in products && lower(p.name) == lower(searchTerm)
    ensures p in FilterProducts(products, searchTerm, lower)
  {
    var s := lower(p.name);
    assert OccursAt(s, lower(searchTerm), 0);
  }

  /** The modal's own state, over the store it reads and adds to. */
  class ProductBank {
    var searchTerm: string
    var showNewProductForm: bool
    var newItemName: string
    var newItemCategory: string
    const store: DataProvider

    constructor (store: DataProvider)
      ensures this.store == store
      ensures searchTerm == "" && !showNewProductForm && newItemName == "" && newItemCategory == ""
    {
      this.store := store;
      searchTerm := "";
      showNewProductForm := false;
      newItemName := "";
      newItemCategory := "";
    }

    /** The products listed under the search box. */
    function FilteredProducts(): seq<Item>
      reads this, store
    {
      FilterProducts(store.products, searchTerm, store.lower)
    }

    /**
      The Add button of the `k`-th listed product: the caller receives the bank
      entry itself, with its bank id, and nothing changes.
     */
    method AddButton(k: nat) returns (forwarded: Item)
      requires k < |FilteredProducts()|
      ensures forwarded in store.products
      ensures MatchesSearch(forwarded, searchTerm, store.lower)
      ensures forwarded == FilteredProducts()[k]
    {
      forwarded := FilteredProducts()[k];
    }

    /**
      `handleAddNewProduct`: when both fields are non-empty (untrimmed), the
      store gets the product and the form is cleared and hidden; otherwise
      nothing changes.
     */
    method HandleAddNewProduct(freshId: string)
      requires freshId != "" && forall p :: p in store.products ==> p.id != freshId
      modifies this, store
      ensures old(newItemName) != "" && old(newItemCategory) != "" ==>
        && store.products == old(store.products) + [NewProduct(freshId, old(newItemName), old(newItemCategory))]
        && newItemName == "" && newItemCategory == "" && !showNewProductForm
      ensures !(old(newItemName) != "" && old(newItemCategory) != "") ==>
        && store.products == old(store.products)
        && newItemName == old(newItemName) && newItemCategory == old(newItemCategory)
        && showNewProductForm == old(showNewProductForm)
      ensures searchTerm == old(searchTerm)
      ensures store.lists == old(store.lists) && store.activeListId == old(store.activeListId)
      ensures store.categories == old(store.categories) && store.lastRemovedItem == old(store.lastRemovedItem)
    {
      if newItemName != "" && newItemCategory != "" {
        store.AddProduct(newItemName, newItemCategory, freshId);
        newItemName := "";
        newItemCategory := "";
        showNewProductForm := false;
      }
    }
  }
}
