/**
 * The derivation of `filteredItems` from the items, the query text and the
 * searched fields. A field is read through an accessor that yields `None`
 * when the item has no value there.
 */
module FilterEngine {
  import opened Wrappers
  import Seqs
  import Text

  /** Reads one searchable field of an item. */
  type Field<-T> = T -> Option<string>

  /**
   * One field against the already lower-cased query: a missing or empty
   * value never matches; otherwise the query must occur in the lower-cased value.
   */
  predicate FieldMatches(value: Option<string>, lowerQuery: string)
    ensures FieldMatches(value, lowerQuery) <==>
      value.Some? && value.value != "" && Text.Occurs(Text.Lower(value.value), lowerQuery)
  {
    match value
    case None => false
    case Some(v) => v != "" && Text.Contains(Text.Lower(v), lowerQuery)
  }

  /** `some` searched field of the item matches the lower-cased query. */
  predicate MatchesSomeField<T>(item: T, fields: seq<Field<T>>, lowerQuery: string)
    ensures MatchesSomeField(item, fields, lowerQuery) <==>
      exists j :: 0 <= j < |fields| && FieldMatches(fields[j](item), lowerQuery)
  {
    Seqs.Any(fields, (f: Field<T>) => FieldMatches(f(item), lowerQuery))
  }

  /** The item test handed to `filter`. */
  function SearchTest<T>(fields: seq<Field<T>>, lowerQuery: string): T -> bool {
    item => MatchesSomeField(item, fields, lowerQuery)
  }

  /**
   * `filteredItems`: with no query or no fields the items come back as they
   * are; otherwise the items with a matching field, in their original order.
   */
  function FilterItems<T(==)>(items: seq<T>, query: string, fields: seq<Field<T>>): (r: seq<T>)
    ensures query == "" || fields == [] ==> r == items
    ensures Seqs.IsSubsequence(r, items)
  {
    if query == "" || |fields| == 0 then
      Seqs.SubsequenceReflexive(items);
      items
    else
      Seqs.Filter(items, SearchTest(fields, Text.Lower(query)))
  }

  /**
   * What a search asks for, stated without the scan: some field holds a
   * non-empty value in whose lower-cased text the lower-cased query occurs.
   */
  ghost predicate Matches<T>(item: T, query: string, fields: seq<Field<T>>) {
    exists j :: 0 <= j < |fields| && FieldHit(fields[j](item), query)
  }

  ghost predicate FieldHit(value: Option<string>, query: string) {
    value.Some? && value.value != "" && Text.Occurs(Text.Lower(value.value), Text.Lower(query))
  }

  /** The scan over the fields decides exactly `Matches`. */
  lemma MatchesSomeFieldIsMatches<T>(item: T, query: string, fields: seq<Field<T>>)
    ensures MatchesSomeField(item, fields, Text.Lower(query)) <==> Matches(item, query, fields)
  {
  }

  /**
   * With a query and at least one field, an item is kept exactly when it
   * matches, and kept as often as it occurs in the items.
   */
  lemma FilterKeepsExactlyMatches<T>(items: seq<T>, query: string, fields: seq<Field<T>>)
    requires query != "" && fields != []
    ensures forall x :: x in items ==>
      multiset(FilterItems(items, query, fields))[x] == if Matches(x, query, fields) then multiset(items)[x] else 0
    ensures forall x :: x in FilterItems(items, query, fields) <==> x in items && Matches(x, query, fields)
  {
    var r := FilterItems(items, query, fields);
    Seqs.FilterCounts(items, SearchTest(fields, Text.Lower(query)));
    forall x | x in items
      ensures multiset(r)[x] == if Matches(x, query, fields) then multiset(items)[x] else 0
    {
      MatchesSomeFieldIsMatches(x, query, fields);
    }
    forall x
      ensures x in r <==> x in items && Matches(x, query, fields)
    {
      if x in r {
        assert x in multiset(r);
      }
      if x in items {
        assert x in multiset(items);
      }
    }
  }

  /** Searching several fields is the union of searching each group of them. */
  lemma MatchesUnion<T>(item: T, query: string, f1: seq<Field<T>>, f2: seq<Field<T>>)
    ensures Matches(item, query, f1 + f2) <==> Matches(item, query, f1) || Matches(item, query, f2)
  {
    var f := f1 + f2;
    if Matches(item, query, f) {
      var j :| 0 <= j < |f| && FieldHit(f[j](item), query);
      if j < |f1| {
        assert f[j] == f1[j];
      } else {
        assert f[j] == f2[j - |f1|];
      }
    }
    if Matches(item, query, f1) {
      var j :| 0 <= j < |f1| && FieldHit(f1[j](item), query);
      assert f[j] == f1[j];
    }
    if Matches(item, query, f2) {
      var j :| 0 <= j < |f2| && FieldHit(f2[j](item), query);
      assert f[|f1| + j] == f2[j];
    }
  }

  /** The filtered view over the union of two field lists is the union of the two views. */
  lemma FilterUnion<T>(items: seq<T>, query: string, f1: seq<Field<T>>, f2: seq<Field<T>>)
    requires f1 != [] && f2 != []
    ensures forall x :: x in FilterItems(items, query, f1 + f2) <==>
      x in FilterItems(items, query, f1) || x in FilterItems(items, query, f2)
  {
    if query != "" {
      FilterKeepsExactlyMatches(items, query, f1 + f2);
      FilterKeepsExactlyMatches(items, query, f1);
      FilterKeepsExactlyMatches(items, query, f2);
      forall x {
        MatchesUnion(x, query, f1, f2);
      }
    }
  }

  /** The case of the query does not matter. */
  lemma FilterIgnoresQueryCase<T>(items: seq<T>, query: string, fields: seq<Field<T>>)
    ensures FilterItems(items, Text.Lower(query), fields) == FilterItems(items, query, fields)
  {
    Text.LowerIdempotent(query);
  }

  /** The case of a field value does not matter. */
  lemma FieldMatchesIgnoresValueCase(value: string, lowerQuery: string)
    ensures FieldMatches(Some(Text.Lower(value)), lowerQuery) == FieldMatches(Some(value), lowerQuery)
  {
    Text.LowerIdempotent(value);
  }

  /** Filtering an already filtered view with the same search changes nothing. */
  lemma FilterItemsIdempotent<T>(items: seq<T>, query: string, fields: seq<Field<T>>)
    ensures FilterItems(FilterItems(items, query, fields), query, fields) == FilterItems(items, query, fields)
  {
    if query != "" && fields != [] {
      var p := SearchTest(fields, Text.Lower(query));
      Seqs.FilterKeepsAll(Seqs.Filter(items, p), p);
    }
  }
}
