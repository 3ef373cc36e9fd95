/**
 * The selection operations of the headless MultiSelect: membership by
 * identifier and toggling. Each returns a new selection; nothing is changed
 * in place. `key` reads the identifier field of an item.
 */
module SelectionStore {
  import Seqs

  /** The elements whose identifier equals `k`. */
  function HasKey<T, K(==)>(key: T -> K, k: K): T -> bool {
    s => key(s) == k
  }

  /** The elements whose identifier differs from `k`. */
  function LacksKey<T, K(==)>(key: T -> K, k: K): T -> bool {
    s => key(s) != k
  }

  /** `isSelected`: some selected element has the item's identifier. */
  function IsSelected<T, K(==)>(selection: seq<T>, key: T -> K, item: T): (r: bool)
    ensures r <==> exists i :: 0 <= i < |selection| && key(selection[i]) == key(item)
  {
    Seqs.Any(selection, HasKey(key, key(item)))
  }

  /**
   * `toggle`: a selected item's identifier is removed from the selection
   * (every element carrying it); an unselected item is appended at the end.
   */
  function Toggle<T(==), K(==)>(selection: seq<T>, key: T -> K, item: T): (r: seq<T>)
    ensures IsSelected(r, key, item) <==> !IsSelected(selection, key, item)
    ensures IsSelected(selection, key, item) ==>
      && Seqs.IsSubsequence(r, selection)
      && multiset(r) <= multiset(selection)
      && forall x :: x in selection ==>
           multiset(r)[x] == if key(x) == key(item) then 0 else multiset(selection)[x]
    ensures !IsSelected(selection, key, item) ==>
      |r| == |selection| + 1 && r[..|selection|] == selection && r[|selection|] == item
  {
    if IsSelected(selection, key, item) then
      Seqs.FilterCounts(selection, LacksKey(key, key(item)));
      Seqs.Filter(selection, LacksKey(key, key(item)))
    else
      assert (selection + [item])[|selection|] == item;
      selection + [item]
  }

  /** The selection invariant: no two elements share an identifier. */
  ghost predicate UniqueKeys<T, K>(selection: seq<T>, key: T -> K) {
    forall i, j :: 0 <= i < j < |selection| ==> key(selection[i]) != key(selection[j])
  }

  /** Toggling an unselected item twice gives back the original selection. */
  lemma ToggleTwiceFromUnselected<T, K>(selection: seq<T>, key: T -> K, item: T)
    requires !IsSelected(selection, key, item)
    ensures Toggle(Toggle(selection, key, item), key, item) == selection
  {
    var p := LacksKey(key, key(item));
    var once := Toggle(selection, key, item);
    assert once == selection + [item];
    Seqs.FilterConcat(selection, [item], p);
    Seqs.FilterKeepsAll(selection, p);
    assert Seqs.Filter([item], p) == [];
  }

  /**
   * Toggling a selected item twice removes every element with its identifier
   * and then appends `item` at the end.
   */
  lemma ToggleTwiceFromSelected<T, K>(selection: seq<T>, key: T -> K, item: T)
    requires IsSelected(selection, key, item)
    ensures Toggle(Toggle(selection, key, item), key, item)
         == Seqs.Filter(selection, LacksKey(key, key(item))) + [item]
  {
  }

  /**
   * Two toggles of a selected item give the selection back exactly when
   * `item` stands last and no other element carries its identifier.
   */
  lemma ToggleTwiceRestoresSelected<T, K>(selection: seq<T>, key: T -> K, item: T)
    requires IsSelected(selection, key, item)
    ensures Toggle(Toggle(selection, key, item), key, item) == selection <==>
      && |selection| > 0
      && selection[|selection| - 1] == item
      && forall i :: 0 <= i < |selection| - 1 ==> key(selection[i]) != key(item)
  {
    ToggleTwiceFromSelected(selection, key, item);
    RemoveAppendRestores(selection, key, item);
  }

  /** Dropping the identifier's elements and appending `item` is the identity exactly for a sole, last `item`. */
  lemma RemoveAppendRestores<T, K>(selection: seq<T>, key: T -> K, item: T)
    ensures Seqs.Filter(selection, LacksKey(key, key(item))) + [item] == selection <==>
      && |selection| > 0
      && selection[|selection| - 1] == item
      && forall i :: 0 <= i < |selection| - 1 ==> key(selection[i]) != key(item)
  {
    if Seqs.Filter(selection, LacksKey(key, key(item))) + [item] == selection {
      RestoredMeansSoleLast(selection, key, item);
    }
    if |selection| > 0 && selection[|selection| - 1] == item &&
       forall i :: 0 <= i < |selection| - 1 ==> key(selection[i]) != key(item) {
      SoleLastIsRestored(selection, key, item);
    }
  }

  lemma RestoredMeansSoleLast<T, K>(selection: seq<T>, key: T -> K, item: T)
    requires Seqs.Filter(selection, LacksKey(key, key(item))) + [item] == selection
    ensures |selection| > 0 && selection[|selection| - 1] == item
    ensures forall i :: 0 <= i < |selection| - 1 ==> key(selection[i]) != key(item)
  {
    var kept := Seqs.Filter(selection, LacksKey(key, key(item)));
    forall i | 0 <= i < |selection| - 1
      ensures key(selection[i]) != key(item)
    {
      assert selection[i] == kept[i];
    }
  }

  lemma SoleLastIsRestored<T, K>(selection: seq<T>, key: T -> K, item: T)
    requires |selection| > 0 && selection[|selection| - 1] == item
    requires forall i :: 0 <= i < |selection| - 1 ==> key(selection[i]) != key(item)
    ensures Seqs.Filter(selection, LacksKey(key, key(item))) + [item] == selection
  {
    var p := LacksKey(key, key(item));
    var front := selection[..|selection| - 1];
    assert selection == front + [item];
    forall i | 0 <= i < |front|
      ensures p(front[i])
    {
      assert front[i] == selection[i];
    }
    Seqs.FilterDropsLast(front, item, p);
  }

  /** Toggling one item leaves the membership of every other identifier as it was. */
  lemma ToggleLeavesOtherKeys<T, K>(selection: seq<T>, key: T -> K, item: T, other: T)
    requires key(other) != key(item)
    ensures IsSelected(Toggle(selection, key, item), key, other) == IsSelected(selection, key, other)
  {
    var r := Toggle(selection, key, item);
    if IsSelected(selection, key, item) {
      if IsSelected(selection, key, other) {
        var i :| 0 <= i < |selection| && key(selection[i]) == key(other);
        var x := selection[i];
        assert x in selection;
        assert multiset(r)[x] == multiset(selection)[x] > 0;
        var k :| 0 <= k < |r| && r[k] == x;
        assert key(r[k]) == key(other);
      }
      if IsSelected(r, key, other) {
        var k :| 0 <= k < |r| && key(r[k]) == key(other);
        assert r[k] in multiset(r);
        assert r[k] in multiset(selection);
        var i :| 0 <= i < |selection| && selection[i] == r[k];
        assert key(selection[i]) == key(other);
      }
    } else {
      assert r == selection + [item];
      if IsSelected(selection, key, other) {
        var i :| 0 <= i < |selection| && key(selection[i]) == key(other);
        assert r[i] == selection[i];
      }
      if IsSelected(r, key, other) {
        var k :| 0 <= k < |r| && key(r[k]) == key(other);
        assert k < |selection| && r[k] == selection[k];
      }
    }
  }

  /** Toggling keeps the selection free of duplicate identifiers. */
  lemma TogglePreservesUniqueKeys<T, K>(selection: seq<T>, key: T -> K, item: T)
    requires UniqueKeys(selection, key)
    ensures UniqueKeys(Toggle(selection, key, item), key)
  {
    if IsSelected(selection, key, item) {
      FilterPreservesUniqueKeys(selection, LacksKey(key, key(item)), key);
    }
  }

  lemma {:induction false} FilterPreservesUniqueKeys<T, K>(s: seq<T>, p: T -> bool, key: T -> K)
    requires UniqueKeys(s, key)
    ensures UniqueKeys(Seqs.Filter(s, p), key)
  {
    if s != [] {
      var rest := Seqs.Filter(s[1..], p);
      FilterPreservesUniqueKeys(s[1..], p, key);
      Seqs.FilterCounts(s[1..], p);
      if p(s[0]) {
        forall y | y in rest
          ensures key(y) != key(s[0])
        {
          assert y in multiset(s[1..]);
          var k :| 0 <= k < |s[1..]| && s[1..][k] == y;
          assert s[k + 1] == y;
        }
        ConsUniqueKeys(s[0], rest, key);
      }
    }
  }

  /** An element whose identifier is new can be put in front. */
  lemma ConsUniqueKeys<T, K>(x: T, rest: seq<T>, key: T -> K)
    requires UniqueKeys(rest, key)
    requires forall y :: y in rest ==> key(y) != key(x)
    ensures UniqueKeys([x] + rest, key)
  {
  }
}
