/**
  The active list's screen, components/screens/ShoppingListScreen.tsx: the
  purchased toggle it sends to the store, and what it derives from the
  active list's items on every render (the items grouped by category, the
  sorted category headings, and the purchased/total counter).
 */
module ShoppingListScreen {
  import opened ArrayMethods
  import opened Sorting
  import opened Types
  import opened DataContext

  // ---------------------------------------------------------------------
  // Toggling an item
  // ---------------------------------------------------------------------

  /** `items.map(item => item.id === itemId ? { ...item, purchased: !item.purchased } : item)`. */
  function ToggleItems(items: seq<Item>, itemId: string): (r: seq<Item>)
    ensures |r| == |items|
    ensures forall i :: 0 <= i < |items| ==> r[i].(purchased := items[i].purchased) == items[i]
    ensures forall i :: 0 <= i < |items| ==> (r[i].purchased != items[i].purchased <==> items[i].id == itemId)
  {
    seq(|items|, i requires 0 <= i < |items| =>
      if items[i].id == itemId then items[i].(purchased := !items[i].purchased) else items[i])
  }

  /** Toggling the same id twice gives back the original items. */
  lemma ToggleTwice(items: seq<Item>, itemId: string)
    ensures ToggleItems(ToggleItems(items, itemId), itemId) == items
  {
  }

  /** Toggling keeps the ids, hence keeps them unique. */
  lemma ToggleKeepsIds(items: seq<Item>, itemId: string)
    ensures forall i :: 0 <= i < |items| ==> ToggleItems(items, itemId)[i].id == items[i].id
    ensures UniqueIds(items) ==> UniqueIds(ToggleItems(items, itemId))
  {
  }

  /** `items.filter(item => item.purchased).length`. */
  function PurchasedCount(items: seq<Item>): (r: nat)
    ensures r <= |items|
  {
    |Filter(items, (it: Item) => it.purchased)|
  }

  /** Toggling an id no item carries changes nothing. */
  lemma ToggleAbsent(items: seq<Item>, itemId: string)
    requires forall it :: it in items ==> it.id != itemId
    ensures ToggleItems(items, itemId) == items
  {
    assert forall i :: 0 <= i < |items| ==> items[i] in items;
  }

  /** With unique ids, toggling an item that is in the list moves the purchased counter by exactly one. */
  lemma {:induction false} ToggleMovesCountByOne(items: seq<Item>, itemId: string)
    requires UniqueIds(items) && FindItem(items, itemId).Some?
    ensures PurchasedCount(ToggleItems(items, itemId)) ==
      if FindItem(items, itemId).value.purchased then PurchasedCount(items) - 1 else PurchasedCount(items) + 1
  {
    var t := items[1..];
    var r := ToggleItems(items, itemId);
    assert r[1..] == ToggleItems(t, itemId);
    assert UniqueIds(t) by {
      forall i, j | 0 <= i < j < |t| ensures t[i].id != t[j].id { assert t[i] == items[i + 1] && t[j] == items[j + 1]; }
    }
    FindIndexTail(items, (it: Item) => it.id == itemId);
    if items[0].id == itemId {
      forall it | it in t ensures it.id != itemId {
        var k :| 0 <= k < |t| && t[k] == it;
        assert t[k] == items[k + 1];
      }
      ToggleAbsent(t, itemId);
    } else {
      ToggleMovesCountByOne(t, itemId);
    }
  }

  /** `handleToggleItem`: flips `purchased` on the active list's items with that id. */
  method HandleToggleItem(store: DataProvider, itemId: string)
    requires store.ActiveList().Some?
    modifies store
    ensures store.lists == UpdateActive(old(store.lists), old(store.activeListId),
      ItemsPatch(ToggleItems(old(store.ActiveList()).value.items, itemId)))
    ensures Truthy(old(store.activeListId)) ==>
      store.ActiveList() == Some(old(store.ActiveList()).value.(items := ToggleItems(old(store.ActiveList()).value.items, itemId)))
    ensures store.activeListId == old(store.activeListId) && store.categories == old(store.categories)
    ensures store.products == old(store.products) && store.lastRemovedItem == old(store.lastRemovedItem)
  {
    var items := store.ActiveList().value.items;
    var patch := ItemsPatch(ToggleItems(items, itemId));
    if Truthy(store.activeListId) {
      PatchedListIsFound(store.lists, store.activeListId.value, patch);
    }
    store.UpdateActiveList(patch);
  }

  // ---------------------------------------------------------------------
  // Grouping by category
  // ---------------------------------------------------------------------

  /** The categories the items carry. */
  function CategoriesOf(items: seq<Item>): set<string> {
    set it | it in items :: it.category
  }

  /** The items of one category, in list order. */
  function ItemsIn(items: seq<Item>, category: string): seq<Item> {
    Filter(items, (it: Item) => it.category == category)
  }

  /** The grouping the screen renders: one group per category that occurs, holding that category's items. */
  function Group(items: seq<Item>): map<string, seq<Item>> {
    map c | c in CategoriesOf(items) :: ItemsIn(items, c)
  }

  /** The categories in the order their first item appears: the order of `Object.keys` on the accumulator. */
  function FirstSeen(items: seq<Item>): (r: seq<string>)
    ensures Distinct(r)
    ensures forall c :: c in r <==> c in CategoriesOf(items)
  {
    if items == [] then []
    else
      var init := items[..|items| - 1];
      var last := items[|items| - 1];
      assert items == init + [last];
      assert CategoriesOf(items) == CategoriesOf(init) + {last.category};
      var p := FirstSeen(init);
      if last.category in p then p else p + [last.category]
  }

  /** Appending one item adds its category at the end, unless it was seen before. */
  lemma FirstSeenSnoc(items: seq<Item>, x: Item)
    ensures FirstSeen(items + [x]) ==
      if x.category in FirstSeen(items) then FirstSeen(items) else FirstSeen(items) + [x.category]
    ensures x.category in FirstSeen(items) <==> x.category in Group(items)
  {
    assert (items + [x])[..|items + [x]| - 1] == items;
  }

  /** Appending one item extends the items of its own category only. */
  lemma ItemsInSnoc(items: seq<Item>, x: Item, c: string)
    ensures ItemsIn(items + [x], c) == ItemsIn(items, c) + (if x.category == c then [x] else [])
  {
    FilterConcat(items, [x], (it: Item) => it.category == c);
    assert [x][1..] == [];
  }

  /** A category no item carries has no items. */
  lemma ItemsInAbsent(items: seq<Item>, c: string)
    requires c !in CategoriesOf(items)
    ensures ItemsIn(items, c) == []
  {
    assert forall i :: 0 <= i < |items| ==> items[i] in items;
    FilterDropsAll(items, (it: Item) => it.category == c);
  }

  /** Appending one item adds it to the end of its category's group, creating the group if needed. */
  lemma GroupSnoc(items: seq<Item>, x: Item)
    ensures Group(items + [x]) ==
      Group(items)[x.category := (if x.category in Group(items) then Group(items)[x.category] else []) + [x]]
  {
    var g := Group(items);
    var g' := Group(items + [x]);
    var h := g[x.category := (if x.category in g then g[x.category] else []) + [x]];
    assert CategoriesOf(items + [x]) == CategoriesOf(items) + {x.category};
    forall c | c in g' ensures g'[c] == h[c] {
      ItemsInSnoc(items, x, c);
      if c !in CategoriesOf(items) {
        ItemsInAbsent(items, c);
      }
    }
    assert g'.Keys == h.Keys;
  }

  /** Writing a key twice keeps the second value. */
  lemma UpdateTwice<K, V>(m: map<K, V>, k: K, a: V, b: V)
    ensures m[k := a][k := b] == m[k := b]
  {
  }

  /**
    The `groupedItems` reduce: walks the items once, creating a category's group
    on its first item and appending every item to its category's group.
   */
  method GroupByCategory(items: seq<Item>) returns (groups: map<string, seq<Item>>, keys: seq<string>)
    ensures groups == Group(items)
    ensures keys == FirstSeen(items)
  {
    groups := map[];
    keys := [];
    for k := 0 to |items|
      invariant groups == Group(items[..k])
      invariant keys == FirstSeen(items[..k])
    {
      var category := items[k].category;
      assert items[..k + 1] == items[..k] + [items[k]];
      GroupSnoc(items[..k], items[k]);
      FirstSeenSnoc(items[..k], items[k]);
      if category !in groups {
        UpdateTwice(groups, category, [], [] + [items[k]]);
        groups := groups[category := []];
        keys := keys + [category];
      }
      groups := groups[category := groups[category] + [items[k]]];
    }
    assert items[..|items|] == items;
  }

  /**
    Every item is in exactly one group, the one keyed by its category; no group
    is empty; and each group keeps the list's relative order.
   */
  lemma GroupProperties(items: seq<Item>)
    ensures forall it :: it in items ==> it.category in Group(items) && it in Group(items)[it.category]
    ensures forall c, it :: c in Group(items) && it in Group(items)[c] ==> it.category == c && it in items
    ensures forall c :: c in Group(items) ==> Group(items)[c] != [] && IsSubsequence(Group(items)[c], items)
  {
    var g := Group(items);
    forall c | c in g ensures g[c] != [] && IsSubsequence(g[c], items) {
      FilterIsSubsequence(items, (it: Item) => it.category == c);
      var it :| it in items && it.category == c;
      assert it in g[c];
    }
  }

  /** The sum of the sizes of the groups of `keys` (a category without a group counts 0). */
  function SizeSum(groups: map<string, seq<Item>>, keys: seq<string>): nat {
    if keys == [] then 0
    else (if keys[0] in groups then |groups[keys[0]]| else 0) + SizeSum(groups, keys[1..])
  }

  /** The items whose category is not `c`. */
  function OutsideCategory(items: seq<Item>, c: string): seq<Item> {
    Filter(items, (it: Item) => it.category != c)
  }

  /** Taking one category's items out changes no other category's items. */
  lemma {:induction false} ItemsInOutside(items: seq<Item>, c: string, d: string)
    requires c != d
    ensures ItemsIn(OutsideCategory(items, c), d) == ItemsIn(items, d)
  {
    if items != [] {
      ItemsInOutside(items[1..], c, d);
      if items[0].category != c {
        assert OutsideCategory(items, c) == [items[0]] + OutsideCategory(items[1..], c);
        assert ([items[0]] + OutsideCategory(items[1..], c))[1..] == OutsideCategory(items[1..], c);
      }
    }
  }

  /** The group sizes, summed over `keys`, counted on the items of all categories but `c`, when `c` is not a key. */
  lemma {:induction false} SizeSumOutside(items: seq<Item>, c: string, keys: seq<string>)
    requires c !in keys
    ensures SizeSum(Group(OutsideCategory(items, c)), keys) == SizeSum(Group(items), keys)
  {
    if keys != [] {
      SizeSumOutside(items, c, keys[1..]);
      var k := keys[0];
      var rest := OutsideCategory(items, c);
      ItemsInOutside(items, c, k);
      assert k in Group(rest) <==> k in Group(items) by {
        assert forall it :: it in items && it.category == k ==> it in ItemsIn(items, k);
        assert forall it :: it in rest && it.category == k ==> it in ItemsIn(rest, k);
      }
    }
  }

  /** Over distinct keys covering every category, the group sizes sum to the number of items. */
  lemma {:induction false} SizeSumCovers(items: seq<Item>, keys: seq<string>)
    requires Distinct(keys)
    requires forall it :: it in items ==> it.category in keys
    ensures SizeSum(Group(items), keys) == |items|
    decreases keys
  {
    assert items != [] ==> items[0] in items;
    if keys != [] {
      var k := keys[0];
      var tail := keys[1..];
      var rest := OutsideCategory(items, k);
      assert Distinct(tail) by {
        forall i, j | 0 <= i < j < |tail| ensures tail[i] != tail[j] { assert tail[i] == keys[i + 1] && tail[j] == keys[j + 1]; }
      }
      assert k !in tail by {
        forall j | 0 <= j < |tail| ensures tail[j] != k { assert tail[j] == keys[j + 1]; }
      }
      forall it | it in rest ensures it.category in tail {
        assert it.category in keys && it.category != k;
        var j :| 0 <= j < |keys| && keys[j] == it.category;
        assert tail[j - 1] == keys[j];
      }
      SizeSumCovers(rest, tail);
      SizeSumOutside(items, k, tail);
      FilterPartition(items, (it: Item) => it.category == k, (it: Item) => it.category != k);
      assert |multiset(ItemsIn(items, k))| + |multiset(rest)| == |multiset(items)|;
      if k !in Group(items) {
        FilterDropsAll(items, (it: Item) => it.category == k);
      }
    }
  }

  /**
    `Object.keys(groupedItems).sort()`: the categories that occur, in the
    default string order. The default `sort()` compares UTF-16 code units;
    this model compares characters.
   */
  function SortedCategories(items: seq<Item>): (r: seq<string>)
    ensures SortedBy(r, StrLe)
    ensures forall c :: c in r <==> c in CategoriesOf(items)
  {
    StrLeIsTotalPreorder();
    SortBySorted(FirstSeen(items), StrLe);
    assert forall c :: c in SortBy(FirstSeen(items), StrLe) <==> c in multiset(FirstSeen(items));
    SortBy(FirstSeen(items), StrLe)
  }

  /**
    The headings: sorted, without repeats, exactly the categories that have a
    group, and their groups together hold every item.
   */
  lemma SortedCategoriesProperties(items: seq<Item>)
    ensures var keys := SortedCategories(items);
      && SortedBy(keys, StrLe)
      && Distinct(keys)
      && (forall c :: c in keys <==> c in Group(items))
      && SizeSum(Group(items), keys) == |items|
  {
    var keys := SortedCategories(items);
    StrLeIsTotalPreorder();
    SortBySorted(FirstSeen(items), StrLe);
    SameMultisetDistinct(FirstSeen(items), keys);
    assert forall c :: c in keys <==> c in multiset(FirstSeen(items));
    forall it | it in items ensures it.category in keys {
      assert it.category in CategoriesOf(items);
      assert it.category in multiset(FirstSeen(items));
    }
    SizeSumCovers(items, keys);
  }

  // ---------------------------------------------------------------------
  // The grouping as written: a reduce over a plain object
  // ---------------------------------------------------------------------

  /**
    The properties every plain object `{}` inherits from `Object.prototype`;
    reading one of them gives a function or an object, never `undefined`.
   */
  const PrototypeNames: set<string> := {
    "constructor", "hasOwnProperty", "isPrototypeOf", "propertyIsEnumerable",
    "toLocaleString", "toString", "valueOf", "__defineGetter__", "__defineSetter__",
    "__lookupGetter__", "__lookupSetter__", "__proto__" }

  /** What `acc[category]` reads on the accumulator: an own array, an inherited member, or `undefined`. */
  datatype Slot = Missing | Own(items: seq<Item>) | Inherited

  function Lookup(own: map<string, seq<Item>>, key: string): (r: Slot)
    ensures r.Own? <==> key in own
    ensures r.Own? ==> r.items == own[key]
    ensures r.Missing? <==> key !in own && key !in PrototypeNames
  {
    if key in own then Own(own[key]) else if key in PrototypeNames then Inherited else Missing
  }

  /**
    One step of the reduce as the source writes it: `!acc[category]` holds only
    for `undefined`, so an inherited member is never replaced by an array, and
    `acc[category].push(item)` on it throws (`None`).
   */
  function ReduceStep(acc: Option<map<string, seq<Item>>>, item: Item): (r: Option<map<string, seq<Item>>>)
    ensures r.Some? <==> acc.Some? && (item.category in acc.value || item.category !in PrototypeNames)
    ensures r.Some? ==>
      r.value == acc.value[item.category := (if item.category in acc.value then acc.value[item.category] else []) + [item]]
  {
    match acc
    case None => None
    case Some(own) =>
      var own1 := if Lookup(own, item.category).Missing? then own[item.category := []] else own;
      match Lookup(own1, item.category)
      case Own(s) => Some(own1[item.category := s + [item]])
      case _ => None
  }

  /** `items.reduce(step, {})`, with `None` for the `TypeError` it can throw. */
  function GroupAsWritten(items: seq<Item>): (r: Option<map<string, seq<Item>>>)
    ensures r.Some? ==> r.value.Keys == CategoriesOf(items)
  {
    if items == [] then Some(map[])
    else
      var init := items[..|items| - 1];
      var last := items[|items| - 1];
      assert items == init + [last];
      assert CategoriesOf(items) == CategoriesOf(init) + {last.category};
      ReduceStep(GroupAsWritten(init), last)
  }

  /** The accumulator never gets an own property named like an inherited one. */
  lemma {:induction false} AsWrittenOwnKeys(items: seq<Item>)
    ensures GroupAsWritten(items).Some? ==> GroupAsWritten(items).value.Keys !! PrototypeNames
  {
    if items != [] {
      AsWrittenOwnKeys(items[..|items| - 1]);
    }
  }

  /** As written, one item whose category is the name of an inherited member makes the whole render throw. */
  lemma {:induction false} AsWrittenThrows(items: seq<Item>, k: nat)
    requires k < |items| && items[k].category in PrototypeNames
    ensures GroupAsWritten(items) == None
  {
    var init := items[..|items| - 1];
    if k == |items| - 1 {
      AsWrittenOwnKeys(init);
    } else {
      assert init[k] == items[k];
      AsWrittenThrows(init, k);
    }
  }

  /** A concrete case: a list with one item of category "toString" cannot be grouped, though its grouping exists. */
  lemma AsWrittenCounterexample()
    ensures var items := [Item("1", "Pão", 1, "toString", "", false)];
      GroupAsWritten(items) == None && Group(items) == map["toString" := items]
  {
    var items := [Item("1", "Pão", 1, "toString", "", false)];
    AsWrittenThrows(items, 0);
    assert CategoriesOf(items) == {"toString"};
    assert items[1..] == [];
    assert ItemsIn(items, "toString") == items;
  }

  /** When no category is the name of an inherited member, the reduce as written computes the intended grouping. */
  lemma {:induction false} AsWrittenAgrees(items: seq<Item>)
    requires forall it :: it in items ==> it.category !in PrototypeNames
    ensures GroupAsWritten(items) == Some(Group(items))
  {
    if items != [] {
      var init := items[..|items| - 1];
      var last := items[|items| - 1];
      assert forall it :: it in init ==> it in items;
      assert last in items;
      AsWrittenAgrees(init);
      assert items == init + [last];
      GroupSnoc(init, last);
      var own := Group(init);
      var c := last.category;
      if c in own {
        assert ReduceStep(Some(own), last) == Some(own[c := own[c] + [last]]);
      } else {
        assert Lookup(own, c).Missing?;
        var own1 := own[c := []];
        assert Lookup(own1, c) == Own([]);
        UpdateTwice(own, c, [], [] + [last]);
      }
    }
  }
}
