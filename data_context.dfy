/**
  The client-side data store of contexts/DataContext.tsx.

  `DataProvider` keeps the five pieces of state the source keeps with
  `useState` (the lists, the active-list id, the category registry, the
  product bank and the one-slot undo buffer); each operation overwrites some
  of them. The new values are computed by the pure functions of this module,
  and the lemmas state what those functions promise.

  Primitives the model cannot see are parameters: `crypto.randomUUID()` is a
  `freshId` the caller supplies (non-empty and not in use), `window.confirm`
  is the boolean `confirmed`, and the runtime's `toLowerCase` and
  `localeCompare` are the function values `lower` and `nameLe` the store is
  built with.
 */
module DataContext {
  import opened ArrayMethods
  import opened Sorting
  import opened Types
  import Constants

  // ---------------------------------------------------------------------
  // Lists and the active-list pointer
  // ---------------------------------------------------------------------

  /** `lists.find(list => list.id === id)`; a null id matches no list. */
  function FindList(lists: seq<ShoppingList>, id: Option<string>): (r: Option<ShoppingList>)
    ensures r.Some? ==> r.value in lists && id == Some(r.value.id)
    ensures r.None? <==> id.None? || forall l :: l in lists ==> l.id != id.value
  {
    if id.None? then None else Find(lists, (l: ShoppingList) => l.id == id.value)
  }

  /** `lists[0]?.id || null`: the initial pointer, and the fallback after deleting the active list. */
  function FirstIdOrNull(lists: seq<ShoppingList>): (r: Option<string>)
    ensures r.Some? ==> lists != [] && r == Some(lists[0].id) && r.value != ""
    ensures r.None? <==> lists == [] || lists[0].id == ""
  {
    if lists == [] then None else IdOrNull(lists[0].id)
  }

  /** The list `addList` creates: no items, and the current user (if any) as its only member. */
  function NewList(id: string, name: string, icon: string, user: Option<Member>): (r: ShoppingList)
    ensures r.id == id && r.name == name && r.icon == Some(icon) && r.items == []
    ensures forall m :: m in r.members <==> user == Some(m)
    ensures |r.members| <= 1
  {
    ShoppingList(id, name, Some(icon), [], if user.Some? then [user.value] else [])
  }

  /** `lists.filter(list => list.id !== listId)`. */
  function WithoutList(lists: seq<ShoppingList>, listId: string): (r: seq<ShoppingList>)
    ensures forall l :: l in r <==> l in lists && l.id != listId
    ensures IsSubsequence(r, lists)
  {
    FilterIsSubsequence(lists, (l: ShoppingList) => l.id != listId);
    Filter(lists, (l: ShoppingList) => l.id != listId)
  }

  /** `Partial<ShoppingList>`: every field is either left out or given. */
  datatype ListPatch = ListPatch(
    id: Option<string>,
    name: Option<string>,
    icon: Option<Option<string>>,
    items: Option<seq<Item>>,
    members: Option<seq<Member>>)

  /** `{ items }`, the patch every item operation sends. */
  function ItemsPatch(items: seq<Item>): ListPatch {
    ListPatch(None, None, None, Some(items), None)
  }

  /** `{ name: newName }`, the change `renameList` makes. */
  function NamePatch(name: string): ListPatch {
    ListPatch(None, Some(name), None, None, None)
  }

  /** A patch that leaves the list's id alone (or sets it to what it already is). */
  predicate KeepsId(patch: ListPatch, id: string) {
    patch.id.None? || patch.id == Some(id)
  }

  /** `{ ...list, ...patch }`: the fields the patch gives replace the list's own. */
  function Merge(l: ShoppingList, patch: ListPatch): (r: ShoppingList)
    ensures patch == ListPatch(None, None, None, None, None) ==> r == l
    ensures KeepsId(patch, l.id) ==> r.id == l.id
    ensures r.id == (if patch.id.Some? then patch.id.value else l.id)
    ensures r.name == (if patch.name.Some? then patch.name.value else l.name)
    ensures r.icon == (if patch.icon.Some? then patch.icon.value else l.icon)
    ensures r.items == (if patch.items.Some? then patch.items.value else l.items)
    ensures r.members == (if patch.members.Some? then patch.members.value else l.members)
  {
    ShoppingList(
      patch.id.GetOr(l.id),
      patch.name.GetOr(l.name),
      patch.icon.GetOr(l.icon),
      patch.items.GetOr(l.items),
      patch.members.GetOr(l.members))
  }

  /** `lists.map(list => list.id === id ? { ...list, ...patch } : list)`. */
  function PatchWhere(lists: seq<ShoppingList>, id: string, patch: ListPatch): (r: seq<ShoppingList>)
    ensures |r| == |lists|
    ensures forall i :: 0 <= i < |lists| && lists[i].id != id ==> r[i] == lists[i]
    ensures forall i :: 0 <= i < |lists| && lists[i].id == id ==> r[i] == Merge(lists[i], patch)
    ensures KeepsId(patch, id) ==> forall i :: 0 <= i < |lists| ==> r[i].id == lists[i].id
  {
    seq(|lists|, i requires 0 <= i < |lists| => if lists[i].id == id then Merge(lists[i], patch) else lists[i])
  }

  /** The new lists of `updateActiveList(patch)`: nothing changes while the active id is falsy. */
  function UpdateActive(lists: seq<ShoppingList>, activeId: Option<string>, patch: ListPatch): (r: seq<ShoppingList>)
    ensures |r| == |lists|
    ensures !Truthy(activeId) ==> r == lists
    ensures Truthy(activeId) ==>
      forall i :: 0 <= i < |lists| && lists[i].id != activeId.value ==> r[i] == lists[i]
    ensures Truthy(activeId) ==>
      forall i :: 0 <= i < |lists| && lists[i].id == activeId.value ==> r[i] == Merge(lists[i], patch)
  {
    if Truthy(activeId) then PatchWhere(lists, activeId.value, patch) else lists
  }

  /** After patching the lists with id `id` (keeping that id), the list found under `id` is the old one, patched. */
  lemma PatchedListIsFound(lists: seq<ShoppingList>, id: string, patch: ListPatch)
    requires KeepsId(patch, id)
    ensures FindList(PatchWhere(lists, id, patch), Some(id)) ==
      match FindList(lists, Some(id))
      case None => None
      case Some(l) => Some(Merge(l, patch))
  {
    var r := PatchWhere(lists, id, patch);
    FindIndexAgrees(lists, r, (l: ShoppingList) => l.id == id);
  }

  /** Patching the lists with id `id` (keeping that id) changes nothing that is found under another id. */
  lemma PatchLeavesOtherFinds(lists: seq<ShoppingList>, id: string, patch: ListPatch, other: string)
    requires KeepsId(patch, id) && other != id
    ensures FindList(PatchWhere(lists, id, patch), Some(other)) == FindList(lists, Some(other))
  {
    var r := PatchWhere(lists, id, patch);
    FindIndexAgrees(lists, r, (l: ShoppingList) => l.id == other);
  }

  /**
    `deleteList` with confirmation: afterwards no list has the deleted id, what is
    found under any other id is unchanged, and the fallback pointer names the
    first remaining list.
   */
  lemma DeleteListFinds(lists: seq<ShoppingList>, listId: string)
    ensures forall l :: l in WithoutList(lists, listId) ==> l.id != listId
    ensures forall l :: l in lists && l.id != listId ==> l in WithoutList(lists, listId)
    ensures forall x :: x != listId ==> FindList(WithoutList(lists, listId), Some(x)) == FindList(lists, Some(x))
    ensures var rest := WithoutList(lists, listId);
      FirstIdOrNull(rest).Some? ==> FindList(rest, FirstIdOrNull(rest)) == Some(rest[0])
  {
    forall x | x != listId
      ensures FindList(WithoutList(lists, listId), Some(x)) == FindList(lists, Some(x))
    {
      FindAfterFilter(lists, (l: ShoppingList) => l.id != listId, (l: ShoppingList) => l.id == x);
    }
  }

  /** Adding under a fresh id, deleting, and renaming all keep list ids unique. */
  lemma ListIdsStayUnique(lists: seq<ShoppingList>, newList: ShoppingList, listId: string, newName: string)
    requires UniqueListIds(lists)
    ensures (forall l :: l in lists ==> l.id != newList.id) ==> UniqueListIds(lists + [newList])
    ensures UniqueListIds(WithoutList(lists, listId))
    ensures UniqueListIds(PatchWhere(lists, listId, NamePatch(newName)))
  {
    var r := lists + [newList];
    if forall l :: l in lists ==> l.id != newList.id {
      forall i, j | 0 <= i < j < |r| ensures r[i].id != r[j].id {
        if j == |lists| { assert r[i] in lists; }
      }
    }
    FilterKeepsDistinct(lists, (l: ShoppingList) => l.id != listId, (l: ShoppingList) => l.id);
  }

  /** `renameList` changes only the `name` of the lists with the given id. */
  lemma RenameListEffect(lists: seq<ShoppingList>, listId: string, newName: string)
    ensures var r := PatchWhere(lists, listId, NamePatch(newName));
      forall i :: 0 <= i < |lists| ==>
        && r[i].id == lists[i].id && r[i].icon == lists[i].icon
        && r[i].items == lists[i].items && r[i].members == lists[i].members
        && r[i].name == (if lists[i].id == listId then newName else lists[i].name)
  {
  }

  /** A second rename of the same list overrides the first. */
  lemma RenameTwice(lists: seq<ShoppingList>, listId: string, a: string, b: string)
    ensures PatchWhere(PatchWhere(lists, listId, NamePatch(a)), listId, NamePatch(b)) ==
            PatchWhere(lists, listId, NamePatch(b))
  {
  }

  // ---------------------------------------------------------------------
  // Items of a list: find, filter and replace by id
  // ---------------------------------------------------------------------

  /** `items.find(item => item.id === id)`. */
  function FindItem(items: seq<Item>, id: string): (r: Option<Item>)
    ensures r.Some? ==> r.value in items && r.value.id == id
    ensures r.None? <==> forall it :: it in items ==> it.id != id
  {
    Find(items, (it: Item) => it.id == id)
  }

  /** `items.filter(item => item.id !== id)`. */
  function WithoutId(items: seq<Item>, id: string): (r: seq<Item>)
    ensures forall it :: it in r <==> it in items && it.id != id
  {
    Filter(items, (it: Item) => it.id != id)
  }

  /** `items.map(item => item.id === x.id ? x : item)`: every item with `x`'s id becomes `x`, in place. */
  function ReplaceById(items: seq<Item>, x: Item): (r: seq<Item>)
    ensures |r| == |items|
    ensures forall i :: 0 <= i < |items| ==> r[i].id == items[i].id
    ensures forall i :: 0 <= i < |items| && items[i].id != x.id ==> r[i] == items[i]
    ensures forall i :: 0 <= i < |items| && items[i].id == x.id ==> r[i] == x
  {
    seq(|items|, i requires 0 <= i < |items| => if items[i].id == x.id then x else items[i])
  }

  /** With unique ids, the items carrying one id are exactly the one `find` returns. */
  lemma {:induction false} UniqueMatch(items: seq<Item>, id: string)
    requires UniqueIds(items) && FindItem(items, id).Some?
    ensures Filter(items, (it: Item) => it.id == id) == [FindItem(items, id).value]
  {
    var t := items[1..];
    assert UniqueIds(t) by {
      forall i, j | 0 <= i < j < |t| ensures t[i].id != t[j].id { assert t[i] == items[i + 1] && t[j] == items[j + 1]; }
    }
    FindIndexTail(items, (it: Item) => it.id == id);
    if items[0].id == id {
      forall k | 0 <= k < |t| ensures t[k].id != id { assert t[k] == items[k + 1]; }
      FilterDropsAll(t, (it: Item) => it.id == id);
    } else {
      UniqueMatch(t, id);
    }
  }

  /** Removing an id from a list with unique ids and putting the removed item back gives the same items. */
  lemma WithoutIdPlusRemoved(items: seq<Item>, id: string)
    requires UniqueIds(items) && FindItem(items, id).Some?
    ensures multiset(WithoutId(items, id) + [FindItem(items, id).value]) == multiset(items)
  {
    UniqueMatch(items, id);
    FilterPartition(items, (it: Item) => it.id != id, (it: Item) => it.id == id);
  }

  /** Deleting an id drops exactly the items with that id and keeps the others in order. */
  lemma WithoutIdKeepsOrder(items: seq<Item>, id: string)
    ensures IsSubsequence(WithoutId(items, id), items)
    ensures |WithoutId(items, id)| + |Filter(items, (it: Item) => it.id == id)| == |items|
  {
    FilterIsSubsequence(items, (it: Item) => it.id != id);
    FilterPartition(items, (it: Item) => it.id != id, (it: Item) => it.id == id);
    assert |multiset(WithoutId(items, id))| + |multiset(Filter(items, (it: Item) => it.id == id))| == |multiset(items)|;
  }

  /** Deleting keeps ids unique. */
  lemma WithoutIdKeepsUnique(items: seq<Item>, id: string)
    requires UniqueIds(items)
    ensures UniqueIds(WithoutId(items, id))
  {
    FilterKeepsDistinct(items, (it: Item) => it.id != id, (it: Item) => it.id);
  }

  /** Replacing by an id that no item carries is a no-op. */
  lemma ReplaceByIdAbsent(items: seq<Item>, x: Item)
    requires FindItem(items, x.id).None?
    ensures ReplaceById(items, x) == items
  {
    assert forall i :: 0 <= i < |items| ==> items[i] in items;
  }

  /** Replacing by id keeps ids unique, and the replaced item is then found under its id. */
  lemma ReplaceByIdFound(items: seq<Item>, x: Item)
    requires UniqueIds(items)
    ensures UniqueIds(ReplaceById(items, x))
    ensures FindItem(items, x.id).Some? ==> FindItem(ReplaceById(items, x), x.id) == Some(x)
  {
    var r := ReplaceById(items, x);
    FindIndexAgrees(items, r, (it: Item) => it.id == x.id);
  }

  /** A second replacement under the same id overrides the first. */
  lemma ReplaceByIdTwice(items: seq<Item>, x: Item, y: Item)
    requires x.id == y.id
    ensures ReplaceById(ReplaceById(items, x), y) == ReplaceById(items, y)
  {
  }

  // ---------------------------------------------------------------------
  // Undo: the removed item goes back, and the whole list is sorted by name
  // ---------------------------------------------------------------------

  /** Compares items by `name`, with the string order `le` standing for `localeCompare`. */
  function ByName(le: (string, string) -> bool): (Item, Item) -> bool {
    (a: Item, b: Item) => le(a.name, b.name)
  }

  /** `[...items, removed].sort((a, b) => a.name.localeCompare(b.name))`. */
  function Restored(items: seq<Item>, removed: Item, le: (string, string) -> bool): (r: seq<Item>)
    ensures multiset(r) == multiset(items) + multiset{removed}
  {
    SortBy(items + [removed], ByName(le))
  }

  lemma ByNameIsTotalPreorder(le: (string, string) -> bool)
    requires TotalPreorder(le)
    ensures TotalPreorder(ByName(le))
  {
    var bn := ByName(le);
    forall a: Item, b: Item ensures bn(a, b) || bn(b, a) {
      assert le(a.name, b.name) || le(b.name, a.name);
    }
    forall a: Item, b: Item, c: Item | bn(a, b) && bn(b, c) ensures bn(a, c) {
      assert le(a.name, b.name) && le(b.name, c.name);
    }
  }

  /** The restored list is sorted by name. */
  lemma RestoredIsSorted(items: seq<Item>, removed: Item, le: (string, string) -> bool)
    requires TotalPreorder(le)
    ensures SortedBy(Restored(items, removed, le), ByName(le))
  {
    ByNameIsTotalPreorder(le);
    SortBySorted(items + [removed], ByName(le));
  }

  /** Remove followed by undo on the same list gives back the same items (as a multiset). */
  lemma RemoveThenUndoRestores(items: seq<Item>, id: string, le: (string, string) -> bool)
    requires UniqueIds(items) && FindItem(items, id).Some?
    ensures multiset(Restored(WithoutId(items, id), FindItem(items, id).value, le)) == multiset(items)
  {
    WithoutIdPlusRemoved(items, id);
  }

  // ---------------------------------------------------------------------
  // Category registry and the cascade over every item of every list
  // ---------------------------------------------------------------------

  /** `categories.some(c => c.toLowerCase() === name.toLowerCase())`. */
  predicate CategoryTaken(categories: seq<string>, name: string, lower: string -> string) {
    exists c :: c in categories && lower(c) == lower(name)
  }

  /** The registry holds no two names that differ only in case. */
  ghost predicate UniqueIgnoringCase(categories: seq<string>, lower: string -> string) {
    DistinctBy(categories, lower)
  }

  /** Every item of every list is tagged with a category of the registry. */
  ghost predicate TagsRegistered(lists: seq<ShoppingList>, categories: seq<string>) {
    forall l, it :: l in lists && it in l.items ==> it.category in categories
  }

  /** `b` is `a` with at most the items' categories changed. */
  ghost predicate SameButCategories(a: seq<ShoppingList>, b: seq<ShoppingList>) {
    && |a| == |b|
    && forall i :: 0 <= i < |a| ==>
      && a[i].id == b[i].id && a[i].name == b[i].name && a[i].icon == b[i].icon
      && a[i].members == b[i].members && |a[i].items| == |b[i].items|
      && forall k :: 0 <= k < |a[i].items| ==>
        a[i].items[k].(category := b[i].items[k].category) == b[i].items[k]
  }

  /** `item.category === from ? { ...item, category: to } : item`, over one list's items. */
  function RetagItems(items: seq<Item>, from: string, to: string): (r: seq<Item>)
    ensures |r| == |items|
    ensures forall k :: 0 <= k < |items| ==>
      r[k].category == (if items[k].category == from then to else items[k].category)
    ensures forall k :: 0 <= k < |items| ==> r[k] == items[k].(category := r[k].category)
  {
    seq(|items|, k requires 0 <= k < |items| => if items[k].category == from then items[k].(category := to) else items[k])
  }

  /** The cascade of `deleteCategory` and `updateCategory`: every item of every list tagged `from` is tagged `to`. */
  function RetagLists(lists: seq<ShoppingList>, from: string, to: string): (r: seq<ShoppingList>)
    ensures SameButCategories(lists, r)
    ensures forall i, k :: 0 <= i < |lists| && 0 <= k < |lists[i].items| ==>
      r[i].items[k].category == (if lists[i].items[k].category == from then to else lists[i].items[k].category)
  {
    seq(|lists|, i requires 0 <= i < |lists| => lists[i].(items := RetagItems(lists[i].items, from, to)))
  }

  /** `categories.map(cat => cat === oldName ? newName : cat)`. */
  function ReplaceCategory(categories: seq<string>, oldName: string, newName: string): (r: seq<string>)
    ensures |r| == |categories|
    ensures forall i :: 0 <= i < |categories| ==> r[i] == (if categories[i] == oldName then newName else categories[i])
  {
    seq(|categories|, i requires 0 <= i < |categories| => if categories[i] == oldName then newName else categories[i])
  }

  /** `categories.filter(cat => cat !== category)`. */
  function WithoutCategory(categories: seq<string>, category: string): (r: seq<string>)
    ensures forall c :: c in r <==> c in categories && c != category
    ensures IsSubsequence(r, categories)
  {
    FilterIsSubsequence(categories, (c: string) => c != category);
    Filter(categories, (c: string) => c != category)
  }

  /** An accepted `addCategory` keeps the registry free of case-only duplicates. */
  lemma AddCategoryKeepsUnique(categories: seq<string>, category: string, lower: string -> string)
    requires UniqueIgnoringCase(categories, lower) && !CategoryTaken(categories, category, lower)
    ensures UniqueIgnoringCase(categories + [category], lower)
  {
    var r := categories + [category];
    forall i, j | 0 <= i < j < |r| ensures lower(r[i]) != lower(r[j]) {
      if j == |categories| { assert r[i] in categories; }
    }
  }

  /** An accepted `updateCategory` keeps the registry free of case-only duplicates. */
  lemma UpdateCategoryKeepsUnique(categories: seq<string>, oldName: string, newName: string, lower: string -> string)
    requires UniqueIgnoringCase(categories, lower) && !CategoryTaken(categories, newName, lower)
    ensures UniqueIgnoringCase(ReplaceCategory(categories, oldName, newName), lower)
  {
    var r := ReplaceCategory(categories, oldName, newName);
    forall i, j | 0 <= i < j < |r| ensures lower(r[i]) != lower(r[j]) {
      assert categories[i] in categories && categories[j] in categories;
    }
  }

  /** `deleteCategory` keeps the registry free of case-only duplicates. */
  lemma DeleteCategoryKeepsUnique(categories: seq<string>, category: string, lower: string -> string)
    requires UniqueIgnoringCase(categories, lower)
    ensures UniqueIgnoringCase(WithoutCategory(categories, category), lower)
  {
    FilterKeepsDistinct(categories, (c: string) => c != category, lower);
  }

  /**
    `deleteCategory(c)` leaves no item pointing outside the registry, as long as
    `c` is not "Outros" itself and "Outros" is registered; the source does not
    guard against deleting "Outros".
   */
  lemma DeleteCategoryKeepsTagsRegistered(lists: seq<ShoppingList>, categories: seq<string>, category: string)
    requires TagsRegistered(lists, categories) && Outros in categories && category != Outros
    ensures TagsRegistered(RetagLists(lists, category, Outros), WithoutCategory(categories, category))
  {
    var r := RetagLists(lists, category, Outros);
    forall l, it | l in r && it in l.items ensures it.category in WithoutCategory(categories, category) {
      var i :| 0 <= i < |r| && r[i] == l;
      var k :| 0 <= k < |l.items| && l.items[k] == it;
      assert lists[i].items[k] in lists[i].items && lists[i] in lists;
    }
  }

  /** `deleteCategory("Outros")` is accepted and leaves items tagged with a category that is no longer registered. */
  lemma DeleteOutrosLeavesDanglingTags(lists: seq<ShoppingList>, categories: seq<string>, i: nat, k: nat)
    requires i < |lists| && k < |lists[i].items| && lists[i].items[k].category == Outros
    ensures RetagLists(lists, Outros, Outros)[i].items[k].category !in WithoutCategory(categories, Outros)
  {
  }

  /** An accepted `updateCategory` leaves no item pointing outside the registry. */
  lemma UpdateCategoryKeepsTagsRegistered(lists: seq<ShoppingList>, categories: seq<string>, oldName: string, newName: string)
    requires TagsRegistered(lists, categories)
    ensures TagsRegistered(RetagLists(lists, oldName, newName), ReplaceCategory(categories, oldName, newName))
  {
    var r := RetagLists(lists, oldName, newName);
    var cats := ReplaceCategory(categories, oldName, newName);
    forall l, it | l in r && it in l.items ensures it.category in cats {
      var i :| 0 <= i < |r| && r[i] == l;
      var k :| 0 <= k < |l.items| && l.items[k] == it;
      var orig := lists[i].items[k];
      assert it.category == (if orig.category == oldName then newName else orig.category);
      assert orig in lists[i].items && lists[i] in lists;
      assert orig.category in categories;
      var j :| 0 <= j < |categories| && categories[j] == orig.category;
      assert cats[j] == it.category;
    }
  }

  /**
    Renaming a registered category and renaming it back restores the registry
    and every list exactly: the first rename is accepted, so the second one is
    too, and no item carried the new name before.
   */
  lemma UpdateCategoryRoundTrip(lists: seq<ShoppingList>, categories: seq<string>, oldName: string, newName: string, lower: string -> string)
    requires UniqueIgnoringCase(categories, lower) && TagsRegistered(lists, categories)
    requires oldName in categories && oldName != ""
    requires newName != "" && !CategoryTaken(categories, newName, lower)
    ensures !CategoryTaken(ReplaceCategory(categories, oldName, newName), oldName, lower)
    ensures ReplaceCategory(ReplaceCategory(categories, oldName, newName), newName, oldName) == categories
    ensures RetagLists(RetagLists(lists, oldName, newName), newName, oldName) == lists
  {
    var cats := ReplaceCategory(categories, oldName, newName);
    assert newName !in categories;
    var o :| 0 <= o < |categories| && categories[o] == oldName;
    forall c | c in cats ensures lower(c) != lower(oldName) {
      var j :| 0 <= j < |cats| && cats[j] == c;
      if categories[j] != oldName {
        assert categories[j] in categories;
        if j < o { assert lower(categories[j]) != lower(categories[o]); }
        else { assert j != o; assert lower(categories[o]) != lower(categories[j]); }
      } else {
        assert c == newName;
      }
    }
    var once := RetagLists(lists, oldName, newName);
    var twice := RetagLists(once, newName, oldName);
    forall i | 0 <= i < |lists| ensures twice[i] == lists[i] {
      forall k | 0 <= k < |lists[i].items| ensures twice[i].items[k] == lists[i].items[k] {
        assert lists[i].items[k] in lists[i].items && lists[i] in lists;
      }
      assert twice[i].items == lists[i].items;
    }
  }

  // ---------------------------------------------------------------------
  // Product bank
  // ---------------------------------------------------------------------

  /** `{ ...item, id, quantity: 1, notes: '', purchased: false }` for `item = { name, category }`. */
  function NewProduct(id: string, name: string, category: string): (r: Item)
    ensures r.id == id && r.name == name && r.category == category
    ensures r.quantity == 1 && r.notes == "" && !r.purchased
  {
    Item(id, name, 1, category, "", false)
  }

  /** Deleting the product just added under a fresh id gives back the bank. */
  lemma AddThenDeleteProduct(products: seq<Item>, freshId: string, name: string, category: string)
    requires forall p :: p in products ==> p.id != freshId
    ensures WithoutId(products + [NewProduct(freshId, name, category)], freshId) == products
  {
    FilterConcat(products, [NewProduct(freshId, name, category)], (it: Item) => it.id != freshId);
    assert forall i :: 0 <= i < |products| ==> products[i] in products;
    FilterKeepsAll(products, (it: Item) => it.id != freshId);
  }

  /** Adding under a fresh id keeps product ids unique. */
  lemma AddProductKeepsUnique(products: seq<Item>, freshId: string, name: string, category: string)
    requires UniqueIds(products) && forall p :: p in products ==> p.id != freshId
    ensures UniqueIds(products + [NewProduct(freshId, name, category)])
  {
    var r := products + [NewProduct(freshId, name, category)];
    forall i, j | 0 <= i < j < |r| ensures r[i].id != r[j].id {
      if j == |products| { assert r[i] in products; }
    }
  }

  // ---------------------------------------------------------------------
  // The store
  // ---------------------------------------------------------------------

  /** `DataProvider`: the state of contexts/DataContext.tsx and the operations it hands to the screens. */
  class DataProvider {
    var lists: seq<ShoppingList>
    var activeListId: Option<string>
    var categories: seq<string>
    var products: seq<Item>
    var lastRemovedItem: Option<Item>

    /** The runtime's `toLowerCase`. */
    const lower: string -> string
    /** `a.localeCompare(b) <= 0` in the runtime's locale. */
    const nameLe: (string, string) -> bool

    /** `activeList`, derived on every render. */
    function ActiveList(): (r: Option<ShoppingList>)
      reads this
      ensures r.Some? ==> r.value in lists && activeListId == Some(r.value.id)
      ensures r.None? <==> activeListId.None? || forall l :: l in lists ==> l.id != activeListId.value
    {
      FindList(lists, activeListId)
    }

    constructor (lower: string -> string, nameLe: (string, string) -> bool)
      ensures this.lower == lower && this.nameLe == nameLe
      ensures lists == Constants.InitialLists && categories == Constants.InitialCategories
      ensures products == Constants.InitialProducts && lastRemovedItem == None
      ensures activeListId == FirstIdOrNull(Constants.InitialLists) == Some("list-1")
      ensures ActiveList() == Some(Constants.InitialLists[0])
    {
      this.lower := lower;
      this.nameLe := nameLe;
      lists := Constants.InitialLists;
      activeListId := FirstIdOrNull(Constants.InitialLists);
      categories := Constants.InitialCategories;
      products := Constants.InitialProducts;
      lastRemovedItem := None;
    }

    /** `setActiveListId`, a plain setter: an id that names no list leaves no list active. */
    method SetActiveListId(listId: Option<string>)
      modifies this
      ensures activeListId == listId
      ensures lists == old(lists) && categories == old(categories)
      ensures products == old(products) && lastRemovedItem == old(lastRemovedItem)
    {
      activeListId := listId;
    }

    /** `addList`: appends an empty list under a fresh id and makes it active. */
    method AddList(name: string, icon: string, user: Option<Member>, freshId: string)
      requires name != ""
      requires freshId != "" && forall l :: l in lists ==> l.id != freshId
      modifies this
      ensures lists == old(lists) + [NewList(freshId, name, icon, user)]
      ensures activeListId == Some(freshId)
      ensures ActiveList() == Some(NewList(freshId, name, icon, user))
      ensures categories == old(categories) && products == old(products)
      ensures lastRemovedItem == old(lastRemovedItem)
    {
      var newList := NewList(freshId, name, icon, user);
      lists := lists + [newList];
      activeListId := Some(newList.id);
      FindAppended(old(lists), newList, (l: ShoppingList) => l.id == freshId);
    }

    /**
      `deleteList`: without confirmation nothing changes; with it, every list with
      that id goes, and if it was the active one the pointer moves to the first
      remaining list (or null).
     */
    method DeleteList(listId: string, confirmed: bool)
      modifies this
      ensures !confirmed ==> lists == old(lists) && activeListId == old(activeListId)
      ensures confirmed ==> lists == WithoutList(old(lists), listId)
      ensures confirmed && old(activeListId) == Some(listId) ==> activeListId == FirstIdOrNull(lists)
      ensures old(activeListId) != Some(listId) ==> activeListId == old(activeListId)
      ensures confirmed ==> forall l :: l in lists ==> l.id != listId
      ensures old(activeListId) != Some(listId) ==> ActiveList() == old(ActiveList())
      ensures confirmed && old(activeListId) == Some(listId) ==>
        if lists != [] && lists[0].id != "" then ActiveList() == Some(lists[0]) else ActiveList() == None
      ensures categories == old(categories) && products == old(products)
      ensures lastRemovedItem == old(lastRemovedItem)
    {
      if confirmed {
        DeleteListFinds(lists, listId);
        var newLists := WithoutList(lists, listId);
        lists := newLists;
        if activeListId == Some(listId) {
          activeListId := FirstIdOrNull(newLists);
        }
      }
    }

    /** `renameList`: only the `name` of the lists with that id changes. */
    method RenameList(listId: string, newName: string)
      requires newName != ""
      modifies this
      ensures lists == PatchWhere(old(lists), listId, NamePatch(newName))
      ensures forall i :: 0 <= i < |lists| ==>
        && lists[i].id == old(lists)[i].id && lists[i].icon == old(lists)[i].icon
        && lists[i].items == old(lists)[i].items && lists[i].members == old(lists)[i].members
        && lists[i].name == (if old(lists)[i].id == listId then newName else old(lists)[i].name)
      ensures activeListId == old(activeListId) && categories == old(categories)
      ensures products == old(products) && lastRemovedItem == old(lastRemovedItem)
    {
      RenameListEffect(lists, listId, newName);
      lists := PatchWhere(lists, listId, NamePatch(newName));
    }

    /** `updateActiveList`: merges the patch into the lists with the active id; a no-op while that id is falsy. */
    method UpdateActiveList(patch: ListPatch)
      modifies this
      ensures lists == UpdateActive(old(lists), old(activeListId), patch)
      ensures activeListId == old(activeListId) && categories == old(categories)
      ensures products == old(products) && lastRemovedItem == old(lastRemovedItem)
    {
      if !Truthy(activeListId) {
        return;
      }
      lists := PatchWhere(lists, activeListId.value, patch);
    }

    /**
      `removeItemFromActiveList`: when the active list has an item with that id,
      the first such item goes to the undo buffer and every item with that id
      leaves the active list; otherwise nothing changes, the buffer included.
     */
    method RemoveItemFromActiveList(itemId: string)
      modifies this
      ensures var a := old(ActiveList());
        if a.Some? && FindItem(a.value.items, itemId).Some? then
          && lastRemovedItem == FindItem(a.value.items, itemId)
          && lists == UpdateActive(old(lists), old(activeListId), ItemsPatch(WithoutId(a.value.items, itemId)))
        else
          lists == old(lists) && lastRemovedItem == old(lastRemovedItem)
      ensures Truthy(old(activeListId)) && old(ActiveList()).Some? ==>
        ActiveList() == Some(old(ActiveList()).value.(items := WithoutId(old(ActiveList()).value.items, itemId)))
      ensures activeListId == old(activeListId) && categories == old(categories) && products == old(products)
    {
      var active := ActiveList();
      if active.None? {
        return;
      }
      var itemToRemove := FindItem(active.value.items, itemId);
      if itemToRemove.None? {
        assert forall i :: 0 <= i < |active.value.items| ==> active.value.items[i] in active.value.items;
        FilterKeepsAll(active.value.items, (it: Item) => it.id != itemId);
        assert active.value.(items := active.value.items) == active.value;
        return;
      }
      lastRemovedItem := itemToRemove;
      var patch := ItemsPatch(WithoutId(active.value.items, itemId));
      if Truthy(activeListId) {
        PatchedListIsFound(lists, activeListId.value, patch);
      }
      UpdateActiveList(patch);
    }

    /**
      `undoRemoveItem`: with a buffered item and an active list, the item is
      appended to whichever list is active now, that list is sorted by name, and
      the buffer is cleared; otherwise nothing changes, so a second undo is a no-op.
     */
    method UndoRemoveItem()
      modifies this
      ensures var a := old(ActiveList());
        if old(lastRemovedItem).Some? && a.Some? then
          && lastRemovedItem == None
          && lists == UpdateActive(old(lists), old(activeListId), ItemsPatch(Restored(a.value.items, old(lastRemovedItem).value, nameLe)))
        else
          lists == old(lists) && lastRemovedItem == old(lastRemovedItem)
      ensures Truthy(old(activeListId)) && old(ActiveList()).Some? && old(lastRemovedItem).Some? ==>
        ActiveList() == Some(old(ActiveList()).value.(items := Restored(old(ActiveList()).value.items, old(lastRemovedItem).value, nameLe)))
      ensures activeListId == old(activeListId) && categories == old(categories) && products == old(products)
    {
      var active := ActiveList();
      if lastRemovedItem.Some? && active.Some? {
        var patch := ItemsPatch(Restored(active.value.items, lastRemovedItem.value, nameLe));
        if Truthy(activeListId) {
          PatchedListIsFound(lists, activeListId.value, patch);
        }
        UpdateActiveList(patch);
        lastRemovedItem := None;
      }
    }

    /** `addCategory`: appends a non-empty name that no registered category matches ignoring case. */
    method AddCategory(category: string)
      modifies this
      ensures if category != "" && !CategoryTaken(old(categories), category, lower)
        then categories == old(categories) + [category]
        else categories == old(categories)
      ensures lists == old(lists) && activeListId == old(activeListId)
      ensures products == old(products) && lastRemovedItem == old(lastRemovedItem)
    {
      if category != "" && !CategoryTaken(categories, category, lower) {
        categories := categories + [category];
      }
    }

    /** `deleteCategory`: unregisters the name and retags its items, in every list, as "Outros". */
    method DeleteCategory(category: string)
      modifies this
      ensures lists == RetagLists(old(lists), category, Outros)
      ensures categories == WithoutCategory(old(categories), category)
      ensures activeListId == old(activeListId) && products == old(products)
      ensures lastRemovedItem == old(lastRemovedItem)
    {
      lists := RetagLists(lists, category, Outros);
      categories := WithoutCategory(categories, category);
    }

    /**
      `updateCategory`: refused when the new name is empty or matches any
      registered category ignoring case (the old name included); otherwise the
      name is replaced in place in the registry and every item tagged with the
      old name, in every list, is retagged.
     */
    method UpdateCategory(oldName: string, newName: string)
      modifies this
      ensures if newName != "" && !CategoryTaken(old(categories), newName, lower) then
          lists == RetagLists(old(lists), oldName, newName)
          && categories == ReplaceCategory(old(categories), oldName, newName)
        else
          lists == old(lists) && categories == old(categories)
      ensures activeListId == old(activeListId) && products == old(products)
      ensures lastRemovedItem == old(lastRemovedItem)
    {
      if newName != "" && !CategoryTaken(categories, newName, lower) {
        lists := RetagLists(lists, oldName, newName);
        categories := ReplaceCategory(categories, oldName, newName);
      }
    }

    /** `addProduct`: appends one entry with a fresh id, quantity 1, no notes, not purchased. */
    method AddProduct(name: string, category: string, freshId: string)
      requires freshId != "" && forall p :: p in products ==> p.id != freshId
      modifies this
      ensures products == old(products) + [NewProduct(freshId, name, category)]
      ensures lists == old(lists) && activeListId == old(activeListId)
      ensures categories == old(categories) && lastRemovedItem == old(lastRemovedItem)
    {
      products := products + [NewProduct(freshId, name, category)];
    }

    /** `deleteProduct`: drops every entry with that id and keeps the rest in order. */
    method DeleteProduct(itemId: string)
      modifies this
      ensures products == WithoutId(old(products), itemId)
      ensures lists == old(lists) && activeListId == old(activeListId)
      ensures categories == old(categories) && lastRemovedItem == old(lastRemovedItem)
    {
      products := WithoutId(products, itemId);
    }

    /** `updateProduct`: replaces the entries with the item's id, in place; a no-op when none has it. */
    method UpdateProduct(updatedItem: Item)
      modifies this
      ensures products == ReplaceById(old(products), updatedItem)
      ensures lists == old(lists) && activeListId == old(activeListId)
      ensures categories == old(categories) && lastRemovedItem == old(lastRemovedItem)
    {
      products := ReplaceById(products, updatedItem);
    }
  }

  /**
    Remove followed by undo on the same active list, through the store: the
    active list ends up with the same items, sorted by name, and the buffer is empty.
   */
  method RemoveThenUndo(store: DataProvider, itemId: string)
    requires Truthy(store.activeListId) && store.ActiveList().Some?
    requires UniqueIds(store.ActiveList().value.items) && FindItem(store.ActiveList().value.items, itemId).Some?
    modifies store
    ensures store.lastRemovedItem == None && store.ActiveList().Some?
    ensures multiset(store.ActiveList().value.items) == multiset(old(store.ActiveList()).value.items)
    ensures TotalPreorder(store.nameLe) ==> SortedBy(store.ActiveList().value.items, ByName(store.nameLe))
  {
    ghost var before := store.ActiveList().value.items;
    store.RemoveItemFromActiveList(itemId);
    store.UndoRemoveItem();
    RemoveThenUndoRestores(before, itemId, store.nameLe);
    if TotalPreorder(store.nameLe) {
      RestoredIsSorted(WithoutId(before, itemId), FindItem(before, itemId).value, store.nameLe);
    }
  }
}
