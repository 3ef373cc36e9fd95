/**
 * The headless MultiSelect as an object. The selection belongs to the owner
 * and is replaced wholesale through the change notification; `selection`
 * here is that owner-held state. The query text and the searched fields are
 * the controller's own state, and `items` is what the owner passes in.
 */
module Controller {
  import Seqs
  import SelectionStore
  import FilterEngine

  class MultiSelect<T(==), K(==)> {
    const key: T -> K
    var items: seq<T>
    var selection: seq<T>
    var query: string
    var searchFields: seq<FilterEngine.Field<T>>

    /**
     * The owner's selection carries each identifier at most once. The owner
     * may seed duplicates, so this is not required of callers; every state
     * change keeps it, and `Clear` establishes it.
     */
    ghost predicate Valid()
      reads this
    {
      SelectionStore.UniqueKeys(selection, key)
    }

    /**
     * The view handed to the presentation layer: the items themselves while
     * no search is active, and always an order-preserving subsequence of them.
     */
    function FilteredItems(): (r: seq<T>)
      reads this
      ensures query == "" || searchFields == [] ==> r == items
      ensures Seqs.IsSubsequence(r, items)
    {
      FilterEngine.FilterItems(items, query, searchFields)
    }

    /** Whether some element of the owner's selection has the item's identifier. */
    function IsSelected(item: T): (r: bool)
      reads this
      ensures r <==> exists i :: 0 <= i < |selection| && key(selection[i]) == key(item)
    {
      SelectionStore.IsSelected(selection, key, item)
    }

    /** Mounts with an empty query and no searched fields: the idle mode. */
    constructor(key: T -> K, items: seq<T>, selection: seq<T>)
      ensures this.key == key && this.items == items && this.selection == selection
      ensures query == "" && searchFields == []
      ensures FilteredItems() == items
      ensures SelectionStore.UniqueKeys(selection, key) ==> Valid()
    {
      this.key := key;
      this.items := items;
      this.selection := selection;
      query := "";
      searchFields := [];
    }

    /** Emits the toggled selection; the owner stores it. */
    method Toggle(item: T)
      modifies this`selection
      ensures selection == SelectionStore.Toggle(old(selection), key, item)
      ensures IsSelected(item) == !old(IsSelected(item))
      ensures old(Valid()) ==> Valid()
    {
      var next := SelectionStore.Toggle(selection, key, item);
      ghost var before := selection;
      selection := next;
      if SelectionStore.UniqueKeys(before, key) {
        SelectionStore.TogglePreservesUniqueKeys(before, key, item);
      }
    }

    /** Emits the empty selection, whatever was selected. */
    method Clear()
      modifies this`selection
      ensures selection == []
      ensures Valid()
    {
      selection := [];
    }

    /** Replaces the query text and the searched fields together. */
    method Search(q: string, fields: seq<FilterEngine.Field<T>>)
      modifies this`query, this`searchFields
      ensures query == q && searchFields == fields
      ensures q == "" || fields == [] ==> FilteredItems() == items
      ensures old(Valid()) ==> Valid()
    {
      query := q;
      searchFields := fields;
    }

    /** The owner renders again with a new list of items; the search state survives. */
    method Receive(newItems: seq<T>)
      modifies this`items
      ensures items == newItems
      ensures old(Valid()) ==> Valid()
    {
      items := newItems;
    }
  }
}
