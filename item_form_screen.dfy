/**
  The item form of components/screens/ItemFormScreen.tsx: the form state it
  edits, the submit guard, and the new item array it hands to the store's
  `updateActiveList` when an item is saved or deleted.

  `crypto.randomUUID()` is the `freshId` parameter; navigation and clearing
  the item being edited are screen changes with no data and are not part of
  this model.
 */
module ItemFormScreen {
  import opened ArrayMethods
  import opened Types
  import opened DataContext

  // ---------------------------------------------------------------------
  // Saving and deleting
  // ---------------------------------------------------------------------

  /**
    The new items of `handleSaveItem`: an item with an id replaces, in place,
    every item carrying that id; an item without one is appended under a fresh
    id, not purchased.
   */
  function SaveItems(items: seq<Item>, itemToSave: Item, freshId: string): (r: seq<Item>)
    ensures itemToSave.id != "" ==> |r| == |items|
    ensures itemToSave.id != "" ==> forall i :: 0 <= i < |items| ==>
      r[i] == (if items[i].id == itemToSave.id then itemToSave else items[i])
    ensures itemToSave.id == "" ==>
      |r| == |items| + 1 && r[..|items|] == items && r[|items|] == itemToSave.(id := freshId, purchased := false)
  {
    if itemToSave.id != "" then ReplaceById(items, itemToSave)
    else items + [itemToSave.(id := freshId, purchased := false)]
  }

  /** An id that no item of this list carries (what `randomUUID` is trusted to give). */
  ghost predicate FreshItemId(items: seq<Item>, freshId: string) {
    freshId != "" && forall it :: it in items ==> it.id != freshId
  }

  /**
    Saving a new item: it is then the one item under the fresh id, ids stay
    unique, and deleting that id gives back the items as they were.
   */
  lemma SaveNewItem(items: seq<Item>, itemToSave: Item, freshId: string)
    requires itemToSave.id == "" && FreshItemId(items, freshId)
    ensures var r := SaveItems(items, itemToSave, freshId);
      && FindItem(r, freshId) == Some(itemToSave.(id := freshId, purchased := false))
      && WithoutId(r, freshId) == items
      && (UniqueIds(items) ==> UniqueIds(r))
  {
    var added := itemToSave.(id := freshId, purchased := false);
    var r := items + [added];
    FilterConcat(items, [added], (it: Item) => it.id != freshId);
    assert forall i :: 0 <= i < |items| ==> items[i] in items;
    FilterKeepsAll(items, (it: Item) => it.id != freshId);
    FindAppended(items, added, (it: Item) => it.id == freshId);
    if UniqueIds(items) {
      forall i, j | 0 <= i < j < |r| ensures r[i].id != r[j].id {
        if j == |items| { assert r[i] in items; }
      }
    }
  }

  /**
    Saving an item that has an id keeps ids unique; if an item with that id
    exists it is then the one found under it, and if none does nothing changes.
   */
  lemma SaveExistingItem(items: seq<Item>, itemToSave: Item, freshId: string)
    requires itemToSave.id != "" && UniqueIds(items)
    ensures var r := SaveItems(items, itemToSave, freshId);
      && UniqueIds(r)
      && (FindItem(items, itemToSave.id).Some? ==> FindItem(r, itemToSave.id) == Some(itemToSave))
      && (FindItem(items, itemToSave.id).None? ==> r == items)
  {
    ReplaceByIdFound(items, itemToSave);
    if FindItem(items, itemToSave.id).None? {
      ReplaceByIdAbsent(items, itemToSave);
    }
  }

  /** Saving an item, unchanged, that is already in a list with unique ids leaves the list as it was. */
  lemma SaveUnchangedIsNoop(items: seq<Item>, it: Item, freshId: string)
    requires UniqueIds(items) && it in items && it.id != ""
    ensures SaveItems(items, it, freshId) == items
  {
    var r := SaveItems(items, it, freshId);
    var k :| 0 <= k < |items| && items[k] == it;
    forall i | 0 <= i < |items| ensures r[i] == items[i] {
      assert i < k ==> items[i].id != items[k].id;
      assert k < i ==> items[k].id != items[i].id;
    }
  }

  /** The new items of `handleDeleteItem`: every item with that id goes, the others keep their order. */
  lemma DeleteItemEffect(items: seq<Item>, itemId: string)
    ensures forall it :: it in WithoutId(items, itemId) <==> it in items && it.id != itemId
    ensures IsSubsequence(WithoutId(items, itemId), items)
    ensures |WithoutId(items, itemId)| == |items| - |Filter(items, (it: Item) => it.id == itemId)|
    ensures UniqueIds(items) ==> UniqueIds(WithoutId(items, itemId))
  {
    WithoutIdKeepsOrder(items, itemId);
    if UniqueIds(items) {
      WithoutIdKeepsUnique(items, itemId);
    }
  }

  /** `handleSaveItem`: with no active list nothing happens; otherwise the active list gets the saved items. */
  method HandleSaveItem(store: DataProvider, itemToSave: Item, freshId: string)
    modifies store
    ensures old(store.ActiveList()).None? ==> store.lists == old(store.lists)
    ensures old(store.ActiveList()).Some? ==>
      store.lists == UpdateActive(old(store.lists), old(store.activeListId),
        ItemsPatch(SaveItems(old(store.ActiveList()).value.items, itemToSave, freshId)))
    ensures Truthy(old(store.activeListId)) && old(store.ActiveList()).Some? ==>
      store.ActiveList() == Some(old(store.ActiveList()).value.(items := SaveItems(old(store.ActiveList()).value.items, itemToSave, freshId)))
    ensures store.activeListId == old(store.activeListId) && store.categories == old(store.categories)
    ensures store.products == old(store.products) && store.lastRemovedItem == old(store.lastRemovedItem)
  {
    var active := store.ActiveList();
    if active.None? {
      return;
    }
    var patch := ItemsPatch(SaveItems(active.value.items, itemToSave, freshId));
    if Truthy(store.activeListId) {
      PatchedListIsFound(store.lists, store.activeListId.value, patch);
    }
    store.UpdateActiveList(patch);
  }

  /** `handleDeleteItem`: with no active list nothing happens; otherwise every item with that id leaves it. */
  method HandleDeleteItem(store: DataProvider, itemId: string)
    modifies store
    ensures old(store.ActiveList()).None? ==> store.lists == old(store.lists)
    ensures old(store.ActiveList()).Some? ==>
      store.lists == UpdateActive(old(store.lists), old(store.activeListId),
        ItemsPatch(WithoutId(old(store.ActiveList()).value.items, itemId)))
    ensures Truthy(old(store.activeListId)) && old(store.ActiveList()).Some? ==>
      store.ActiveList() == Some(old(store.ActiveList()).value.(items := WithoutId(old(store.ActiveList()).value.items, itemId)))
    ensures store.activeListId == old(store.activeListId) && store.categories == old(store.categories)
    ensures store.products == old(store.products) && store.lastRemovedItem == old(store.lastRemovedItem)
  {
    var active := store.ActiveList();
    if active.None? {
      return;
    }
    var patch := ItemsPatch(WithoutId(active.value.items, itemId));
    if Truthy(store.activeListId) {
      PatchedListIsFound(store.lists, store.activeListId.value, patch);
    }
    store.UpdateActiveList(patch);
  }

  // ---------------------------------------------------------------------
  // The form and its submit guard
  // ---------------------------------------------------------------------

  /** `Omit<ShoppingItem, 'id' | 'purchased'>`, the fields the form edits. */
  datatype FormData = FormData(name: string, quantity: int, category: string, notes: string)

  /** The form of a fresh screen. */
  const InitialForm := FormData("", 1, "Alimentos", "")

  /** The form loaded from the item being edited. */
  function FormOf(it: Item): (r: FormData)
    ensures r.name == it.name && r.quantity == it.quantity && r.category == it.category && r.notes == it.notes
  {
    FormData(it.name, it.quantity, it.category, it.notes)
  }

  /**
    The code points of the characters `String.prototype.trim` removes, ECMAScript
    WhiteSpace and LineTerminator: tab, line feed, vertical tab, form feed,
    carriage return, space, no-break space, the Unicode space separators, the
    line and paragraph separators and the byte order mark.
   */
  const WhiteCodes: seq<int> := [
    0x09, 0x0A, 0x0B, 0x0C, 0x0D, 0x20, 0xA0, 0x1680,
    0x2000, 0x2001, 0x2002, 0x2003, 0x2004, 0x2005, 0x2006, 0x2007, 0x2008, 0x2009, 0x200A,
    0x2028, 0x2029, 0x202F, 0x205F, 0x3000, 0xFEFF]

  /** `n` is one of `codes`. */
  predicate OneOf(n: int, codes: seq<int>) {
    codes != [] && (n == codes[0] || OneOf(n, codes[1..]))
  }

  /** The characters `String.prototype.trim` removes. */
  predicate IsWhite(c: char) {
    OneOf(c as int, WhiteCodes)
  }

  /** Drops the leading white space. */
  function TrimStart(s: string): (r: string)
    ensures |r| <= |s| && r == s[|s| - |r|..]
    ensures forall i :: 0 <= i < |s| - |r| ==> IsWhite(s[i])
    ensures r == [] || !IsWhite(r[0])
  {
    if s != [] && IsWhite(s[0]) then
      var r := TrimStart(s[1..]);
      assert s[1..][|s| - 1 - |r|..] == s[|s| - |r|..];
      r
    else s
  }

  /** Drops the trailing white space. */
  function TrimEnd(s: string): (r: string)
    ensures |r| <= |s| && r == s[..|r|]
    ensures forall i :: |r| <= i < |s| ==> IsWhite(s[i])
    ensures r == [] || !IsWhite(r[|r| - 1])
  {
    if s != [] && IsWhite(s[|s| - 1]) then TrimEnd(s[..|s| - 1]) else s
  }

  /** `r` is `s` from position `a` on, with only white space around it. */
  predicate TrimmedAt(s: string, r: string, a: nat) {
    && a + |r| <= |s|
    && r == s[a..a + |r|]
    && forall i :: 0 <= i < |s| && (i < a || a + |r| <= i) ==> IsWhite(s[i])
  }

  /** A prefix of a suffix is a slice. */
  lemma SliceOfSuffix(s: string, a: nat, n: nat)
    requires a + n <= |s|
    ensures s[a..][..n] == s[a..a + n]
    ensures forall i :: a <= i < |s| ==> s[i] == s[a..][i - a]
  {
  }

  /** The trimmed string sits in `s` right after the leading white space. */
  lemma {:induction false} TrimIsInfix(s: string)
    ensures TrimmedAt(s, TrimEnd(TrimStart(s)), |s| - |TrimStart(s)|)
  {
    var t := TrimStart(s);
    InfixOfParts(s, t, TrimEnd(t));
  }

  /** White space cut from the front of `s`, then from the back of what is left, leaves an infix of `s`. */
  lemma InfixOfParts(s: string, t: string, r: string)
    requires |t| <= |s| && t == s[|s| - |t|..] && (forall i :: 0 <= i < |s| - |t| ==> IsWhite(s[i]))
    requires |r| <= |t| && r == t[..|r|] && (forall i :: |r| <= i < |t| ==> IsWhite(t[i]))
    ensures TrimmedAt(s, r, |s| - |t|)
  {
    var a := |s| - |t|;
    SliceOfSuffix(s, a, |r|);
    forall i | 0 <= i < |s| && (i < a || a + |r| <= i) ensures IsWhite(s[i]) {
      if a + |r| <= i {
        assert s[i] == t[i - a];
      }
    }
  }

  /** `s.trim()`. */
  function Trim(s: string): (r: string)
    ensures |r| <= |s|
    ensures r == [] || (!IsWhite(r[0]) && !IsWhite(r[|r| - 1]))
    ensures (forall i :: 0 <= i < |s| ==> !IsWhite(s[i])) ==> r == s
    ensures exists a: nat :: TrimmedAt(s, r, a)
  {
    TrimIsInfix(s);
    TrimEnd(TrimStart(s))
  }

  /** `s.trim()` is empty exactly when every character of `s` is white space. */
  lemma TrimEmptyIffBlank(s: string)
    ensures Trim(s) == "" <==> forall i :: 0 <= i < |s| ==> IsWhite(s[i])
  {
    var r := Trim(s);
    var a: nat :| TrimmedAt(s, r, a);
    if r != "" {
      assert r[0] == s[a];
    }
  }

  /**
    `handleSubmit`: nothing is saved when the trimmed name is empty; otherwise
    the form's fields are saved, with the id and purchased flag of the item
    being edited, or the empty id and not purchased for a new item.
   */
  function Submit(form: FormData, editing: Option<Item>): (r: Option<Item>)
    ensures r.Some? <==> exists i :: 0 <= i < |form.name| && !IsWhite(form.name[i])
    ensures r.Some? ==> FormOf(r.value) == form
    ensures r.Some? ==> r.value.id == (if editing.Some? then editing.value.id else "")
    ensures r.Some? ==> r.value.purchased == (editing.Some? && editing.value.purchased)
  {
    TrimEmptyIffBlank(form.name);
    if Trim(form.name) != "" then
      Some(Item(
        if editing.Some? && editing.value.id != "" then editing.value.id else "",
        form.name, form.quantity, form.category, form.notes,
        editing.Some? && editing.value.purchased))
    else None
  }

  /** Editing an item and submitting the form as it was loaded gives back that very item. */
  lemma SubmitUnchangedForm(it: Item)
    requires exists i :: 0 <= i < |it.name| && !IsWhite(it.name[i])
    ensures Submit(FormOf(it), Some(it)) == Some(it)
  {
  }

  /** `handleSubmit` through the store: saves the submitted item, or does nothing when the name is blank. */
  method HandleSubmit(store: DataProvider, form: FormData, editing: Option<Item>, freshId: string)
    modifies store
    ensures Submit(form, editing).None? ==> store.lists == old(store.lists)
    ensures Submit(form, editing).Some? && old(store.ActiveList()).Some? ==>
      store.lists == UpdateActive(old(store.lists), old(store.activeListId),
        ItemsPatch(SaveItems(old(store.ActiveList()).value.items, Submit(form, editing).value, freshId)))
    ensures old(store.ActiveList()).None? ==> store.lists == old(store.lists)
    ensures store.activeListId == old(store.activeListId) && store.categories == old(store.categories)
    ensures store.products == old(store.products) && store.lastRemovedItem == old(store.lastRemovedItem)
  {
    var item := Submit(form, editing);
    if item.Some? {
      HandleSaveItem(store, item.value, freshId);
    }
  }

  // ---------------------------------------------------------------------
  // Field changes
  // ---------------------------------------------------------------------

  /** One `onChange` event: the field named by the input and its new value (the quantity already parsed). */
  datatype Change = NameChange(name: string) | QuantityChange(parsed: int) | CategoryChange(category: string) | NotesChange(notes: string)

  /** `Math.max(1, parseInt(value))` for a value that parses to an integer. */
  function ClampQuantity(parsed: int): (r: int)
    ensures r >= 1 && r >= parsed
    ensures r == parsed || r == 1
  {
    if parsed < 1 then 1 else parsed
  }

  /** `handleChange`: only the named field changes, and a quantity is clamped to at least 1. */
  function ApplyChange(form: FormData, change: Change): (r: FormData)
    ensures change.QuantityChange? ==> r == form.(quantity := ClampQuantity(change.parsed))
    ensures change.NameChange? ==> r == form.(name := change.name)
    ensures change.CategoryChange? ==> r == form.(category := change.category)
    ensures change.NotesChange? ==> r == form.(notes := change.notes)
  {
    match change
    case NameChange(name) => form.(name := name)
    case QuantityChange(parsed) => form.(quantity := ClampQuantity(parsed))
    case CategoryChange(category) => form.(category := category)
    case NotesChange(notes) => form.(notes := notes)
  }

  /** Starting from a quantity of at least 1, the form's quantity stays at least 1 under any sequence of changes. */
  lemma {:induction false} ChangesKeepQuantityPositive(form: FormData, changes: seq<Change>)
    requires form.quantity >= 1
    ensures ApplyChanges(form, changes).quantity >= 1
    decreases changes
  {
    if changes != [] {
      ChangesKeepQuantityPositive(ApplyChange(form, changes[0]), changes[1..]);
    }
  }

  /** A run of `onChange` events. */
  function ApplyChanges(form: FormData, changes: seq<Change>): FormData
    decreases changes
  {
    if changes == [] then form else ApplyChanges(ApplyChange(form, changes[0]), changes[1..])
  }

  /**
    A fresh form cannot be submitted as it is (its name is empty), and whatever
    the user changes in it, its quantity stays at least 1.
   */
  lemma InitialFormProperties(editing: Option<Item>, changes: seq<Change>)
    ensures Submit(InitialForm, editing).None?
    ensures ApplyChanges(InitialForm, changes).quantity >= 1
  {
    ChangesKeepQuantityPositive(InitialForm, changes);
  }
}
