# Shopping-list data store, in Dafny

This project models the client-side data layer of a shopping-list app written
in React/TypeScript. The core is `DataProvider`, the store. It keeps five
pieces of state: the shopping lists, the active-list pointer, the category
registry, the product bank, and a one-slot buffer holding the last removed
item. On top of the store sit the pure list transforms that three screens
apply before calling into it:

- the item form: save (upsert by id), delete, the submit guard and the quantity clamp;
- the shopping-list screen: the purchased toggle, grouping by category, the sorted category headings and the counters;
- the product-bank modal: case-insensitive search, and adding a new product.

Modules:

- `ArrayMethods` (`array_methods.dfy`): `Option`, and `Array.prototype.find`/`filter` as functions on sequences, with the facts the rest relies on.
- `Sorting` (`sorting.dfy`): stable `sort` as insertion by a comparator, and the default string order of `sort()`.
- `Types`, `Constants` (`types.dfy`, `constants.dfy`): the records and the seed data.
- `DataContext` (`data_context.dfy`): the pure functions that compute each new state, the lemmas about them, and `class DataProvider`. Its fields are the store's state. Its methods overwrite them and state the whole new state.
- `ItemFormScreen`, `ShoppingListScreen`, `ProductBankModal`: the screen transforms. `ShoppingListScreen.GroupByCategory` is the `groupedItems` reduce, written as a loop that builds a map. `ProductBankModal.ProductBank` is the modal's state as a class.

The model treats four runtime primitives as parameters:

- `crypto.randomUUID()` is a `freshId` argument. Where a contract needs it, it is required to be non-empty and unused.
- `window.confirm` is a boolean argument.
- `toLowerCase` is the function `lower`, fixed when the store is built. One thing is assumed about it, and only by `ProductBankModal.EmptySearchShowsAll`: it maps the empty string to the empty string, as `"".toLowerCase()` does.
- `localeCompare` is the order `nameLe`, also fixed when the store is built. The sortedness lemmas assume it is a total preorder.

JavaScript truthiness is written out. A `string | null` id is truthy when it is neither null nor `""` (`Types.Truthy`). `x || null` turns `""` into null (`Types.IdOrNull`). `lists.find(l => l.id === null)` finds nothing.

Where the app's evident intent and its code differ, the model follows the code:

- Undo puts the item back into whichever list is active when undo runs, not the list it came from. That list is then re-sorted by name.
- `deleteCategory` does not protect "Outros". `DataContext.DeleteOutrosLeavesDanglingTags` shows what that leaves behind.
- `updateCategory` refuses a new name that matches any registered name ignoring case. That includes a rename of the same name that changes only its case.
- The product-bank Add button forwards the bank entry itself, bank id included.
- Product search is a plain filter, in bank order. It does no grouping and no sorting.
- The store does not trim names. Trimming and the non-empty check happen in the callers, so the model has them as preconditions:
  - `addList` and `renameList`: components/screens/MyListsScreen.tsx:21 and :40.
  - `addCategory` and `updateCategory`: components/screens/ProductsAndCategoriesScreen.tsx:151 and :161. These store operations check for the empty name themselves, so they need no precondition.

## Model

| member | source | states |
|---|---|---|
| ArrayMethods.Find | contexts/DataContext.tsx:36 | `find` returns an element of the sequence that satisfies the predicate, and returns nothing exactly when no element does |
| ArrayMethods.Filter | contexts/DataContext.tsx:52 | `filter` keeps exactly the elements that satisfy the predicate and never grows the sequence |
| ArrayMethods.FilterIsSubsequence | contexts/DataContext.tsx:52 | a filter's result is an ordered subsequence of its input: the kept elements stay in their order |
| ArrayMethods.FilterPartition | contexts/DataContext.tsx:76 | the elements a filter keeps and the ones it drops make up the input exactly, as a multiset |
| ArrayMethods.FindIndexTail | contexts/DataContext.tsx:36 | `find` returns the first match: the head when it matches, otherwise what the search of the tail returns |
| ArrayMethods.FindAfterFilter | contexts/DataContext.tsx:52-56 | filtering out elements that the search predicate rejects anyway does not change what `find` returns |
| Sorting.SortBy | contexts/DataContext.tsx:83 | sorting is a permutation: it keeps the multiset of elements |
| Sorting.InsertKeepsRanks | contexts/DataContext.tsx:83 | inserting into a sorted sequence places the new element after every element of its rank and keeps each rank's order |
| Sorting.SortByStable | contexts/DataContext.tsx:83 | the sort is stable, as ECMAScript 2019 requires: the elements the comparator ranks equal come out in their input order |
| Sorting.SortBySorted | contexts/DataContext.tsx:83 | with a total-preorder comparator, the sorted result is ordered by it |
| Sorting.StrLeIsTotalPreorder | components/screens/ShoppingListScreen.tsx:44 | the default `sort()` string order is total and transitive |
| Sorting.StrLeAntisymmetric | components/screens/ShoppingListScreen.tsx:44 | two strings ordered both ways by the default order are equal, so it is a total order |
| Types.IdOrNull | contexts/DataContext.tsx:31 | `id \|\| null` is null exactly when the id is `""`, and otherwise the id itself |
| DataContext.FindList | contexts/DataContext.tsx:36 | the active list is a list carrying the active id; there is none exactly when the id is null or no list has it |
| DataContext.FirstIdOrNull | contexts/DataContext.tsx:31 | the initial and fallback pointer is the first list's id, or null when there are no lists or that id is empty |
| DataContext.NewList | contexts/DataContext.tsx:39-45 | a new list carries the given id, name and icon, has no items, and its members are the current user alone, or nobody when there is none |
| DataContext.WithoutList | contexts/DataContext.tsx:52 | deleting keeps exactly the lists whose id differs from the deleted one, in their order |
| DataContext.Merge | contexts/DataContext.tsx:67 | `{ ...list, ...patch }`: every field the patch gives replaces the list's own, and every other field is the list's; so an empty patch is the list itself, and a patch that gives no other id keeps the list's id |
| DataContext.PatchWhere | contexts/DataContext.tsx:66-68 | the `map` keeps the number of lists, merges the patch into every list carrying the id, leaves every list with another id as it was, and keeps every id when the patch does |
| DataContext.UpdateActive | contexts/DataContext.tsx:64-69 | `updateActiveList` changes nothing while the active id is falsy; otherwise it merges the patch into the lists with the active id and leaves the other lists as they were |
| DataContext.PatchedListIsFound | contexts/DataContext.tsx:64-69 | after a patch that keeps the id, the list found under that id is the old one with the patch merged in |
| DataContext.PatchLeavesOtherFinds | contexts/DataContext.tsx:64-69 | a patch to one id changes nothing that is found under any other id |
| DataContext.DeleteListFinds | contexts/DataContext.tsx:50-58 | after deleting, no list has that id; every other list stays, and so does what is found under every other id; the fallback pointer finds the first remaining list |
| DataContext.ListIdsStayUnique | contexts/DataContext.tsx:38-62 | adding a list under a fresh id, deleting and renaming all keep list ids unique |
| DataContext.RenameListEffect | contexts/DataContext.tsx:60-62 | a rename changes only the name of the lists with that id; ids, icons, items and members stay |
| DataContext.RenameTwice | contexts/DataContext.tsx:60-62 | a second rename of the same list overrides the first |
| DataContext.FindItem | contexts/DataContext.tsx:73 | the item found carries the id and is in the list; there is none exactly when no item has the id |
| DataContext.WithoutId | contexts/DataContext.tsx:76 | the result holds exactly the items whose id differs from the one removed |
| DataContext.ReplaceById | contexts/DataContext.tsx:134-136 | the length and every position's id are kept; items with the id become the new item, and the others are unchanged |
| DataContext.UniqueMatch | contexts/DataContext.tsx:73-76 | with unique ids, the items carrying the id are exactly the one `find` returned |
| DataContext.WithoutIdPlusRemoved | contexts/DataContext.tsx:71-79 | with unique ids, the items left after the removal plus the removed item are the original items, as a multiset |
| DataContext.WithoutIdKeepsOrder | contexts/DataContext.tsx:76 | removal keeps the other items in order and drops exactly the items with that id |
| DataContext.WithoutIdKeepsUnique | contexts/DataContext.tsx:130-132 | removing by id keeps ids unique |
| DataContext.ReplaceByIdAbsent | contexts/DataContext.tsx:134-136 | replacing under an id no item has is a no-op |
| DataContext.ReplaceByIdFound | contexts/DataContext.tsx:134-136 | replacing keeps ids unique, and the new item is then the one found under its id |
| DataContext.ReplaceByIdTwice | contexts/DataContext.tsx:134-136 | a second replacement under the same id overrides the first |
| DataContext.Restored | contexts/DataContext.tsx:83 | the undo result holds exactly the old items plus the buffered item, as a multiset |
| DataContext.ByNameIsTotalPreorder | contexts/DataContext.tsx:83 | comparing items by name with a total-preorder string order is itself a total preorder |
| DataContext.RestoredIsSorted | contexts/DataContext.tsx:83 | the undo result is sorted by name |
| DataContext.RemoveThenUndoRestores | contexts/DataContext.tsx:71-87 | removing an item and then restoring it gives back the same multiset of items |
| DataContext.RetagItems | contexts/DataContext.tsx:98-100 | one list's items keep their count; an item tagged with the old category gets the new one, the others keep theirs, and no other field of any item changes |
| DataContext.RetagLists | contexts/DataContext.tsx:95-104 | the cascade changes only the categories of items: list count, ids, names, icons, members, item count and order are kept, and each item tagged with the old category gets the new one |
| DataContext.ReplaceCategory | contexts/DataContext.tsx:115 | the old name is replaced in place; length and every other name are kept |
| DataContext.WithoutCategory | contexts/DataContext.tsx:103 | the registry keeps exactly the names other than the deleted one, in their order |
| DataContext.AddCategoryKeepsUnique | contexts/DataContext.tsx:89-93 | an accepted add keeps the registry free of names that differ only in case |
| DataContext.UpdateCategoryKeepsUnique | contexts/DataContext.tsx:106-117 | an accepted rename keeps the registry free of names that differ only in case |
| DataContext.DeleteCategoryKeepsUnique | contexts/DataContext.tsx:103 | a delete keeps the registry free of names that differ only in case |
| DataContext.DeleteCategoryKeepsTagsRegistered | contexts/DataContext.tsx:95-104 | deleting a category other than "Outros", while "Outros" is registered, leaves every item tagged with a registered category |
| DataContext.DeleteOutrosLeavesDanglingTags | contexts/DataContext.tsx:95-104 | deleting "Outros" itself is accepted, and leaves its items tagged with a name that is no longer registered |
| DataContext.UpdateCategoryKeepsTagsRegistered | contexts/DataContext.tsx:106-117 | a rename leaves every item tagged with a registered category |
| DataContext.UpdateCategoryRoundTrip | contexts/DataContext.tsx:106-117 | renaming a registered category and renaming it back is accepted both times, and restores the registry and every list exactly |
| DataContext.AddThenDeleteProduct | contexts/DataContext.tsx:119-132 | deleting the product just added under a fresh id gives back the bank |
| DataContext.NewProduct | contexts/DataContext.tsx:120-126 | a new product carries the fresh id and the given name and category, with quantity 1, empty notes and not purchased |
| DataContext.AddProductKeepsUnique | contexts/DataContext.tsx:119-128 | adding under a fresh id keeps product ids unique |
| DataContext.DataProvider.ActiveList | contexts/DataContext.tsx:36 | `activeList` is a list whose id is the active id; there is none exactly when the id is null or names no list |
| DataContext.DataProvider.constructor | contexts/DataContext.tsx:30-34 | the store starts from the seed lists, categories and products, with an empty undo buffer and the first list active |
| DataContext.DataProvider.SetActiveListId | contexts/DataContext.tsx:31 | the setter stores any id as given, so an unknown id leaves no list active; the other fields are unchanged |
| DataContext.DataProvider.AddList | contexts/DataContext.tsx:38-48 | one list is appended: empty items, the user as its only member (or no members), the given icon. It becomes the active list, and everything else is unchanged |
| DataContext.DataProvider.DeleteList | contexts/DataContext.tsx:50-58 | without confirmation nothing changes. With it, the lists with that id go and the rest keep their order. If the active list was deleted, the pointer moves to the first remaining list or to null; otherwise it still finds the same list |
| DataContext.DataProvider.RenameList | contexts/DataContext.tsx:60-62 | only the name of the lists with that id changes |
| DataContext.DataProvider.UpdateActiveList | contexts/DataContext.tsx:64-69 | the lists become `UpdateActive` of the old lists; nothing else changes |
| DataContext.DataProvider.RemoveItemFromActiveList | contexts/DataContext.tsx:71-79 | if the active list has the item: the first such item goes to the buffer, and, when the active id is truthy, every item with that id leaves the active list (with a falsy active id the lists stay as they were). Otherwise nothing changes, the buffer included |
| DataContext.DataProvider.UndoRemoveItem | contexts/DataContext.tsx:81-87 | with a buffered item and an active list: the buffer is cleared and, when the active id is truthy, the item joins the list active now and that list is sorted by name (with a falsy active id the item is dropped and the lists stay as they were). Otherwise nothing changes |
| DataContext.DataProvider.AddCategory | contexts/DataContext.tsx:89-93 | a non-empty name that matches no registered name ignoring case is appended; any other name changes nothing |
| DataContext.DataProvider.DeleteCategory | contexts/DataContext.tsx:95-104 | the name is unregistered and its items in every list become "Outros"; products are untouched |
| DataContext.DataProvider.UpdateCategory | contexts/DataContext.tsx:106-117 | an empty name, or one that matches a registered name ignoring case, changes nothing. Otherwise the name is replaced in place in the registry and its items in every list are retagged; products are untouched |
| DataContext.DataProvider.AddProduct | contexts/DataContext.tsx:119-128 | one product is appended with a fresh id, quantity 1, empty notes and not purchased |
| DataContext.DataProvider.DeleteProduct | contexts/DataContext.tsx:130-132 | every product with that id goes, and the rest keep their order |
| DataContext.DataProvider.UpdateProduct | contexts/DataContext.tsx:134-136 | products with the item's id are replaced in place |
| DataContext.RemoveThenUndo | contexts/DataContext.tsx:71-87 | remove then undo on the same active list leaves the same multiset of items, sorted by name, and an empty buffer |
| ItemFormScreen.SaveItems | components/screens/ItemFormScreen.tsx:31-36 | an item with an id replaces every item carrying that id, in place. An item without one is appended after the others under the fresh id, not purchased |
| ItemFormScreen.SaveNewItem | components/screens/ItemFormScreen.tsx:34-35 | a new item is the one found under the fresh id; ids stay unique; deleting that id gives back the old items |
| ItemFormScreen.SaveExistingItem | components/screens/ItemFormScreen.tsx:32-33 | saving under an existing id makes the saved item the one found there; under an unknown id nothing changes; ids stay unique |
| ItemFormScreen.SaveUnchangedIsNoop | components/screens/ItemFormScreen.tsx:32-33 | saving an unchanged item of a list with unique ids leaves the list as it was |
| ItemFormScreen.DeleteItemEffect | components/screens/ItemFormScreen.tsx:44 | delete drops exactly the items with that id, keeps the others in order, and keeps ids unique |
| ItemFormScreen.HandleSaveItem | components/screens/ItemFormScreen.tsx:29-40 | with no active list nothing changes; otherwise, when the active id is truthy, the active list's items become the saved items (with a falsy active id the lists stay as they were) |
| ItemFormScreen.HandleDeleteItem | components/screens/ItemFormScreen.tsx:42-48 | with no active list nothing changes; otherwise, when the active id is truthy, every item with that id leaves the active list (with a falsy active id the lists stay as they were) |
| ItemFormScreen.TrimStart | components/screens/ItemFormScreen.tsx:57 | the result is a suffix; the dropped characters are white space, and it does not start with white space |
| ItemFormScreen.TrimEnd | components/screens/ItemFormScreen.tsx:57 | the result is a prefix; the dropped characters are white space, and it does not end with white space |
| ItemFormScreen.TrimEmptyIffBlank | components/screens/ItemFormScreen.tsx:57 | the trimmed name is empty exactly when every character is white space |
| ItemFormScreen.Trim | components/screens/ItemFormScreen.tsx:57 | `trim` returns the part of the string between its leading and trailing white space: only white space is cut, none is left at either end, and a string without white space is unchanged |
| ItemFormScreen.TrimIsInfix | components/screens/ItemFormScreen.tsx:57 | the trimmed string is the piece of the input that starts right after the leading white space, with only white space after it |
| ItemFormScreen.Submit | components/screens/ItemFormScreen.tsx:55-63 | an item is saved exactly when the name has a non-white character. It carries the form's fields, plus the edited item's id and purchased flag, or `""` and not purchased for a new item |
| ItemFormScreen.SubmitUnchangedForm | components/screens/ItemFormScreen.tsx:18-27 | submitting the form loaded from an item gives back that very item |
| ItemFormScreen.HandleSubmit | components/screens/ItemFormScreen.tsx:55-63 | a blank name changes nothing; otherwise, when there is an active list and the active id is truthy, the submitted item is saved into it |
| ItemFormScreen.ClampQuantity | components/screens/ItemFormScreen.tsx:52 | the stored quantity is at least 1 and at least the parsed value, and it is either that value or 1 |
| ItemFormScreen.ApplyChange | components/screens/ItemFormScreen.tsx:50-53 | a change sets only the named field; a quantity change stores exactly `ClampQuantity` of the parsed number, max(1, parsed) |
| ItemFormScreen.ChangesKeepQuantityPositive | components/screens/ItemFormScreen.tsx:50-53 | from a quantity of at least 1, any sequence of changes keeps it at least 1 |
| ItemFormScreen.InitialFormProperties | components/screens/ItemFormScreen.tsx:11-16 | the form a fresh screen starts with (empty name, quantity 1) cannot be submitted unchanged, and no run of changes brings its quantity below 1 |
| ShoppingListScreen.ToggleItems | components/screens/ShoppingListScreen.tsx:18-21 | the length is kept, and only `purchased` can change. It flips exactly on the items with that id |
| ShoppingListScreen.ToggleTwice | components/screens/ShoppingListScreen.tsx:18-21 | toggling the same id twice gives back the original items |
| ShoppingListScreen.ToggleKeepsIds | components/screens/ShoppingListScreen.tsx:18-21 | toggling keeps every position's id, so ids stay unique |
| ShoppingListScreen.ToggleAbsent | components/screens/ShoppingListScreen.tsx:18-21 | toggling an id no item has is a no-op |
| ShoppingListScreen.ToggleMovesCountByOne | components/screens/ShoppingListScreen.tsx:18-45 | with unique ids, toggling a present item moves the purchased count by exactly one, in the direction of its flag |
| ShoppingListScreen.PurchasedCount | components/screens/ShoppingListScreen.tsx:45-46 | the purchased count is at most the total count |
| ShoppingListScreen.HandleToggleItem | components/screens/ShoppingListScreen.tsx:18-23 | when the active id is truthy, the active list's items become the toggled items (with a falsy active id the lists stay as they were); nothing else changes |
| ShoppingListScreen.FirstSeen | components/screens/ShoppingListScreen.tsx:35-44 | the accumulator's keys have no repeats and are exactly the categories that occur |
| ShoppingListScreen.FirstSeenSnoc | components/screens/ShoppingListScreen.tsx:37-39 | a new category is added at the end, on its first item only |
| ShoppingListScreen.GroupSnoc | components/screens/ShoppingListScreen.tsx:35-42 | one more item goes at the end of its category's group; the group is created if the category is new |
| ShoppingListScreen.GroupByCategory | components/screens/ShoppingListScreen.tsx:35-42 | the reduce loop builds exactly the grouping `Group`, with the keys in first-seen order |
| ShoppingListScreen.GroupProperties | components/screens/ShoppingListScreen.tsx:35-42 | every item is in exactly one group, the one keyed by its category; no group is empty; each group keeps the list order |
| ShoppingListScreen.SizeSumCovers | components/screens/ShoppingListScreen.tsx:35-46 | over distinct keys covering every category, the group sizes sum to the number of items |
| ShoppingListScreen.SortedCategoriesProperties | components/screens/ShoppingListScreen.tsx:44 | the headings are sorted, without repeats, and are exactly the keys of the grouping; their groups' sizes sum to the total count |
| ShoppingListScreen.SortedCategories | components/screens/ShoppingListScreen.tsx:44 | `Object.keys(groupedItems).sort()` is sorted in the default string order and holds exactly the categories the items carry |
| ShoppingListScreen.Lookup | components/screens/ShoppingListScreen.tsx:37 | reading `acc[category]` gives the key's own group exactly for own keys, and `undefined` only for names that are neither own nor inherited |
| ShoppingListScreen.ReduceStep | components/screens/ShoppingListScreen.tsx:36-41 | one reduce step throws exactly when the category is an inherited name that is not an own key; otherwise it appends the item to its category's group, creating the group if needed |
| ShoppingListScreen.GroupAsWritten | components/screens/ShoppingListScreen.tsx:35-42 | when the reduce as written does not throw, its own keys are exactly the categories the items carry |
| ShoppingListScreen.AsWrittenOwnKeys | components/screens/ShoppingListScreen.tsx:35-42 | as written, the accumulator never gets an own key named like an inherited member |
| ShoppingListScreen.AsWrittenThrows | components/screens/ShoppingListScreen.tsx:35-42 | as written, one item whose category names an inherited member makes the reduce throw |
| ShoppingListScreen.AsWrittenCounterexample | components/screens/ShoppingListScreen.tsx:35-42 | a one-item list of category "toString" throws as written, though its grouping exists |
| ShoppingListScreen.AsWrittenAgrees | components/screens/ShoppingListScreen.tsx:35-42 | when no category names an inherited member, the reduce as written computes exactly the grouping |
| ProductBankModal.FilterProductsExact | components/modals/AddFromProductBankModal.tsx:24-26 | the search keeps exactly the products whose lower-cased name contains the lower-cased term, in bank order |
| ProductBankModal.FilterProducts | components/modals/AddFromProductBankModal.tsx:24-26 | a product is listed exactly when it is in the bank and its lower-cased name contains the lower-cased term |
| ProductBankModal.EmptySearchShowsAll | components/modals/AddFromProductBankModal.tsx:24-26 | an empty search term lists the whole bank |
| ProductBankModal.ExactNameIsShown | components/modals/AddFromProductBankModal.tsx:24-26 | a product whose name equals the term, ignoring case, is always listed |
| ProductBankModal.ProductBank.constructor | components/modals/AddFromProductBankModal.tsx:15-18 | the modal opens with an empty search, a hidden form and empty fields |
| ProductBankModal.ProductBank.AddButton | components/modals/AddFromProductBankModal.tsx:57 | the Add button hands over the listed bank entry itself, bank id included; it is in the bank and matches the search |
| ProductBankModal.ProductBank.HandleAddNewProduct | components/modals/AddFromProductBankModal.tsx:28-39 | when both fields are non-empty (untrimmed): the product goes into the bank, and the fields are cleared and the form hidden. Otherwise nothing changes |

## Left out

- Rendering: the JSX markup, icons, the header, modals, the bottom navigation and the progress bar's percentage, which is floating point (components/screens/ShoppingListScreen.tsx:56).
- Navigation and `setEditingItem(null)` after save and delete in the item form. These are screen changes with no data.
- `useData` throwing outside a provider, React's render cycle, and the batching of state updates. Each store method here applies its updates in order, as one step.
- `crypto.randomUUID`, `window.confirm`, `toLowerCase` and `localeCompare`. These are parameters, as described above. The only assumption on `lower` is `lower("") == ""`, in `ProductBankModal.EmptySearchShowsAll`; and `nameLe` is assumed a total preorder only where sortedness is stated.
- ClampQuantity: the `parseInt` step, and its NaN result for input that is not numeric, are not modelled; the quantity clamp takes the parsed integer.
- Sorting.StrLe: the default `sort()` compares UTF-16 code units. The model compares Unicode characters, so order can differ for characters outside the Basic Multilingual Plane.
- ShoppingListScreen.FirstSeen: `Object.keys` lists integer-like keys first, in ascending order. The model keeps first-seen order for every key. The headings are sorted afterwards, so this does not change what they show.
- Member invitations and removal, the auth and UI contexts (login, dark mode, navigation), the toast timer, and the duplicate item-form widgets (components/ui/ItemForm.tsx and components/modals/EditItemModal.tsx). None of these are store operations.
- The modal's plain input setters (`setSearchTerm`, `setNewItemName`, `setNewItemCategory`, `setShowNewProductForm(true)`) and its `isOpen` early return.
- ShoppingListScreen.HandleToggleItem requires an active list, because the screen renders nothing without one (components/screens/ShoppingListScreen.tsx:12-14).

## Findings

| source | as written | input that shows it | evidently intended | confidence | as-written member | corrected member |
|---|---|---|---|---|---|---|
| components/screens/ShoppingListScreen.tsx:35-42 | The reduce groups into a plain object `{}`. For a category named like an inherited member of `Object.prototype` ("toString", "constructor", "valueOf", …), `!acc[category]` is false. No array is created, and `acc[category].push(item)` throws a `TypeError` during render. Categories are free text: `addCategory` accepts any non-empty name, and the product-bank form takes the category as typed. So, at the level of the components, such a name can reach a list | an active list holding one item whose category is "toString" | every item is grouped under its own category, whatever the name | medium, not executed | ShoppingListScreen.AsWrittenCounterexample | ShoppingListScreen.GroupByCategory |

The corrected grouping, `ShoppingListScreen.GroupByCategory`, builds a map. For it, `ShoppingListScreen.GroupProperties` and `ShoppingListScreen.SortedCategoriesProperties` prove the intended properties. `ShoppingListScreen.AsWrittenAgrees` shows that the code as written computes the same grouping whenever no category names an inherited member.
