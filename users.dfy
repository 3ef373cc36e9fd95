/**
 * The page that embeds the MultiSelect: the user record, the identifier and
 * the fields it searches, and the "show more" paging that decides which
 * prefix of the loaded users the controller sees.
 */
module Users {
  import opened Wrappers
  import Seqs
  import Text
  import SelectionStore
  import FilterEngine
  import Controller

  /** A loaded user; the nested company name and city are kept as plain strings. */
  datatype User = User(id: int, name: string, username: string, email: string, company: string, city: string)

  /** The identifier the page passes to the controller. */
  function Id(u: User): int {
    u.id
  }

  function NameField(): FilterEngine.Field<User> {
    (u: User) => Some(u.name)
  }

  function UsernameField(): FilterEngine.Field<User> {
    (u: User) => Some(u.username)
  }

  function EmailField(): FilterEngine.Field<User> {
    (u: User) => Some(u.email)
  }

  /** The fields the search box searches. */
  function SearchedFields(): (r: seq<FilterEngine.Field<User>>)
    ensures |r| == 3
    ensures forall u: User :: r[0](u) == Some(u.name) && r[1](u) == Some(u.username) && r[2](u) == Some(u.email)
  {
    [NameField(), UsernameField(), EmailField()]
  }

  const PAGE_SIZE: nat := 5

  /** How many users are passed on: one page when collapsed, all when expanded. */
  function VisibleCount(users: seq<User>, expanded: bool): (r: nat)
    ensures expanded ==> r == |users|
    ensures !expanded ==> r == PAGE_SIZE
  {
    if expanded then |users| else PAGE_SIZE
  }

  /** `slice(0, end)`: the first `end` elements, or all of them when there are fewer. */
  function Prefix<T>(s: seq<T>, end: nat): (r: seq<T>)
    ensures |r| == (if end <= |s| then end else |s|)
    ensures r == s[..|r|]
  {
    if end <= |s| then s[..end] else s
  }

  /**
   * The users the controller sees: the first `min(PAGE_SIZE, |users|)` when
   * collapsed, every user when expanded.
   */
  function VisibleUsers(users: seq<User>, expanded: bool): (r: seq<User>)
    ensures expanded ==> r == users
    ensures !expanded ==> |r| == (if |users| < PAGE_SIZE then |users| else PAGE_SIZE)
    ensures r == users[..|r|]
  {
    Prefix(users, VisibleCount(users, expanded))
  }

  /** With at most one page of users, expanding shows nothing new (the toggle is hidden then). */
  lemma ExpandingShortListChangesNothing(users: seq<User>)
    requires |users| <= PAGE_SIZE
    ensures VisibleUsers(users, false) == VisibleUsers(users, true)
  {
  }

  /** Lower-casing makes "ann" find "Anna". */
  lemma QueryFindsOtherCase()
    ensures FilterEngine.FieldMatches(Some("Anna"), Text.Lower("ann"))
  {
  }

  /** "an" has no capital to fold. */
  lemma LowerAn()
    ensures Text.Lower("an") == "an"
  {
  }

  /** The query "an" occurs in "Anna" once lower-cased. */
  lemma AnFindsAnna()
    ensures FilterEngine.FieldMatches(Some("Anna"), "an")
  {
  }

  /** The query "an" does not occur in Bob's email address. */
  lemma AnMissesBobsEmail()
    ensures !FilterEngine.FieldMatches(Some("b@x.com"), "an")
  {
    assert Text.Lower("b@x.com") == "b@x.com";
    forall i | 0 <= i <= 5
      ensures !Text.OccursAt("b@x.com", "an", i)
    {
      assert "b@x.com"[i..i + 2][0] == "b@x.com"[i] != 'a';
    }
  }

  /** The query "an" occurs neither in "Bob" nor in "b1". */
  lemma AnMissesBob()
    ensures !FilterEngine.FieldMatches(Some("Bob"), "an")
    ensures !FilterEngine.FieldMatches(Some("b1"), "an")
  {
    assert Text.Lower("Bob") == "bob";
    assert Text.Lower("b1") == "b1";
    forall i | 0 <= i <= 1
      ensures !Text.OccursAt("bob", "an", i)
    {
      assert "bob"[i..i + 2][0] == "bob"[i] != 'a';
    }
    assert "b1"[0..2][0] != 'a';
  }

  /** Anna's name, the first searched field in both field lists, matches "an". */
  lemma SearchFindsAnna(anna: User, fields: seq<FilterEngine.Field<User>>)
    requires anna == User(1, "Anna", "a1", "a@x.com", "", "")
    requires fields == [NameField(), UsernameField()] || fields == SearchedFields()
    ensures FilterEngine.MatchesSomeField(anna, fields, "an")
  {
    AnFindsAnna();
    assert fields[0](anna) == Some("Anna");
  }

  /** Bob matches none of the searched fields for "an", in either field list. */
  lemma SearchMissesBob(bob: User, fields: seq<FilterEngine.Field<User>>)
    requires bob == User(2, "Bob", "b1", "b@x.com", "", "")
    requires fields == [NameField(), UsernameField()] || fields == SearchedFields()
    ensures !FilterEngine.MatchesSomeField(bob, fields, "an")
  {
    AnMissesBob();
    AnMissesBobsEmail();
    assert fields[0](bob) == Some("Bob");
    assert fields[1](bob) == Some("b1");
    assert |fields| == 3 ==> fields[2](bob) == Some("b@x.com");
  }

  /** Searching "an" over name and username keeps Anna and drops Bob. */
  lemma SearchKeepsOnlyAnna(anna: User, bob: User)
    requires anna == User(1, "Anna", "a1", "a@x.com", "", "")
    requires bob == User(2, "Bob", "b1", "b@x.com", "", "")
    ensures FilterEngine.FilterItems([anna, bob], "an", [NameField(), UsernameField()]) == [anna]
  {
    var fields := [NameField(), UsernameField()];
    LowerAn();
    SearchFindsAnna(anna, fields);
    SearchMissesBob(bob, fields);
    Seqs.FilterPair(anna, bob, FilterEngine.SearchTest(fields, "an"));
  }

  /** The page's own search, over name, username and email, also keeps only Anna. */
  lemma PageSearchKeepsOnlyAnna(anna: User, bob: User)
    requires anna == User(1, "Anna", "a1", "a@x.com", "", "")
    requires bob == User(2, "Bob", "b1", "b@x.com", "", "")
    ensures FilterEngine.FilterItems([anna, bob], "an", SearchedFields()) == [anna]
  {
    LowerAn();
    SearchFindsAnna(anna, SearchedFields());
    SearchMissesBob(bob, SearchedFields());
    Seqs.FilterPair(anna, bob, FilterEngine.SearchTest(SearchedFields(), "an"));
  }

  /** Toggling a user whose identifier is selected removes it rather than adding a second copy. */
  lemma ToggleSameIdRemoves(u: User, again: User)
    requires u.id == 5 && again.id == 5
    ensures SelectionStore.Toggle([u], Id, again) == []
  {
  }

  /**
   * The page's flow through the controller: search "an" over the page's
   * fields, pick the one user left, then clear twice.
   */
  method Walkthrough() returns (view: seq<User>, picked: seq<User>, cleared: seq<User>)
    ensures view == [User(1, "Anna", "a1", "a@x.com", "", "")]
    ensures picked == view
    ensures cleared == []
  {
    var anna := User(1, "Anna", "a1", "a@x.com", "", "");
    var bob := User(2, "Bob", "b1", "b@x.com", "", "");
    var c := new Controller.MultiSelect(Id, VisibleUsers([anna, bob], false), []);
    assert c.FilteredItems() == [anna, bob];
    c.Search("an", SearchedFields());
    PageSearchKeepsOnlyAnna(anna, bob);
    view := c.FilteredItems();
    assert view == [anna];
    c.Toggle(anna);
    picked := c.selection;
    assert c.IsSelected(anna);
    c.Clear();
    c.Clear();
    cleared := c.selection;
    assert !c.IsSelected(anna);
  }
}
