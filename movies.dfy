/**
 * The movie-listing handler of the movies controller: select three columns
 * of every row of the `movies` table and order the result by title.
 *
 * The database collation that decides the title order is not visible, so
 * the order is a parameter `le`, assumed only to be a total preorder on
 * titles (a case-insensitive collation equates distinct strings).
 */
module Movies {

  /**
   * A row of the `movies` table. The columns the listing does not select
   * are kept abstract as `hidden`.
   */
  datatype MovieRow<Hidden> = MovieRow(title: string, description: string, rating: int, hidden: Hidden)

  /** An entry of the listing: the three selected columns. */
  datatype MovieEntry = MovieEntry(title: string, description: string, rating: int)

  /** Every two titles are comparable, and the comparison is transitive. */
  ghost predicate TotalPreorder(le: (string, string) -> bool)
  {
    && (forall x, y :: le(x, y) || le(y, x))
    && (forall x, y, z :: le(x, y) && le(y, z) ==> le(x, z))
  }

  /** A total preorder that also identifies titles it ranks equal. */
  ghost predicate TotalOrder(le: (string, string) -> bool)
  {
    TotalPreorder(le) && forall x, y :: le(x, y) && le(y, x) ==> x == y
  }

  /** Entries are in non-decreasing title order. */
  ghost predicate SortedByTitle(s: seq<MovieEntry>, le: (string, string) -> bool)
  {
    forall i, j :: 0 <= i < j < |s| ==> le(s[i].title, s[j].title)
  }

  /** The projection `select("title", "description", "rating")` of one row. */
  function Entry<Hidden>(row: MovieRow<Hidden>): MovieEntry
  {
    MovieEntry(row.title, row.description, row.rating)
  }

  /** The projection of the whole table, row by row. */
  function Project<Hidden>(movies: seq<MovieRow<Hidden>>): (r: seq<MovieEntry>)
    ensures |r| == |movies|
    ensures forall i :: 0 <= i < |movies| ==>
              r[i].title == movies[i].title && r[i].description == movies[i].description
              && r[i].rating == movies[i].rating
  {
    seq(|movies|, i requires 0 <= i < |movies| => Entry(movies[i]))
  }

  /** Places `e` into a title-sorted sequence, in front of the first entry it does not follow. */
  function Insert(e: MovieEntry, s: seq<MovieEntry>, le: (string, string) -> bool): (r: seq<MovieEntry>)
    requires TotalPreorder(le)
    requires SortedByTitle(s, le)
    ensures SortedByTitle(r, le)
    ensures multiset(r) == multiset(s) + multiset{e}
    ensures forall x :: x in r ==> x == e || x in s
    decreases |s|
  {
    if s == [] then [e]
    else if le(e.title, s[0].title) then [e] + s
    else
      var rest := Insert(e, s[1..], le);
      InsertBehindHead(e, s, rest, le);
      [s[0]] + rest
  }

  /** The step of `Insert` that keeps the head: the head precedes everything inserted behind it. */
  lemma InsertBehindHead(e: MovieEntry, s: seq<MovieEntry>, rest: seq<MovieEntry>, le: (string, string) -> bool)
    requires TotalPreorder(le)
    requires s != [] && SortedByTitle(s, le) && !le(e.title, s[0].title)
    requires SortedByTitle(rest, le)
    requires multiset(rest) == multiset(s[1..]) + multiset{e}
    requires forall x :: x in rest ==> x == e || x in s[1..]
    ensures SortedByTitle([s[0]] + rest, le)
    ensures multiset([s[0]] + rest) == multiset(s) + multiset{e}
    ensures forall x :: x in [s[0]] + rest ==> x == e || x in s
  {
    assert s == [s[0]] + s[1..];
    assert le(s[0].title, e.title);
    forall x | x in s[1..] ensures le(s[0].title, x.title) {
      var k :| 0 <= k < |s[1..]| && s[1..][k] == x;
      assert s[k + 1] == x;
    }
    var r := [s[0]] + rest;
    forall i, j | 0 <= i < j < |r| ensures le(r[i].title, r[j].title) {
      if i > 0 {
        assert r[i] == rest[i - 1] && r[j] == rest[j - 1];
      } else {
        assert r[j] == rest[j - 1] && r[j] in rest;
      }
    }
  }

  /** Insertion sort by title. */
  function SortByTitle(s: seq<MovieEntry>, le: (string, string) -> bool): (r: seq<MovieEntry>)
    requires TotalPreorder(le)
    ensures SortedByTitle(r, le)
    ensures multiset(r) == multiset(s)
    decreases |s|
  {
    if s == [] then []
    else
      assert s == [s[0]] + s[1..];
      Insert(s[0], SortByTitle(s[1..], le), le)
  }

  /**
   * `GET /movies`: one entry per row, carrying title, description and
   * rating, in non-decreasing title order.
   */
  function Index<Hidden>(movies: seq<MovieRow<Hidden>>, le: (string, string) -> bool): (r: seq<MovieEntry>)
    requires TotalPreorder(le)
    ensures |r| == |movies|
    ensures SortedByTitle(r, le)
    ensures multiset(r) == multiset(Project(movies))
    ensures forall x :: x in r <==> exists i :: 0 <= i < |movies| && Entry(movies[i]) == x
  {
    var p := Project(movies);
    var r := SortByTitle(p, le);
    forall x ensures x in r <==> exists i :: 0 <= i < |movies| && Entry(movies[i]) == x {
      assert x in r <==> x in multiset(r);
      assert x in p <==> x in multiset(p);
      if x in p {
        var i :| 0 <= i < |p| && p[i] == x;
        assert Entry(movies[i]) == x;
      }
    }
    r
  }

  /** The titles of a listing, in order. */
  function Titles(s: seq<MovieEntry>): seq<string>
  {
    seq(|s|, i requires 0 <= i < |s| => s[i].title)
  }

  /** Sorting a sequence that is already in title order leaves it as it is. */
  lemma {:induction false} SortSortedIsIdentity(s: seq<MovieEntry>, le: (string, string) -> bool)
    requires TotalPreorder(le)
    requires SortedByTitle(s, le)
    ensures SortByTitle(s, le) == s
    decreases |s|
  {
    if s != [] {
      SortSortedIsIdentity(s[1..], le);
      assert s == [s[0]] + s[1..];
    }
  }

  /** When the table is already in title order, the listing keeps the table order. */
  lemma IndexOfSortedTable<Hidden>(movies: seq<MovieRow<Hidden>>, le: (string, string) -> bool)
    requires TotalPreorder(le)
    requires SortedByTitle(Project(movies), le)
    ensures Index(movies, le) == Project(movies)
  {
    SortSortedIsIdentity(Project(movies), le);
  }

  /** The listing depends only on the three selected columns of each row. */
  lemma IndexIgnoresHiddenColumns<H1, H2>(a: seq<MovieRow<H1>>, b: seq<MovieRow<H2>>, le: (string, string) -> bool)
    requires TotalPreorder(le)
    requires |a| == |b|
    requires forall i :: 0 <= i < |a| ==> Entry(a[i]) == Entry(b[i])
    ensures Index(a, le) == Index(b, le)
  {
    assert Project(a) == Project(b);
  }

  /** Removing one entry from a title-sorted sequence keeps it sorted. */
  lemma RemoveKeepsSorted(s: seq<MovieEntry>, k: nat, le: (string, string) -> bool)
    requires k < |s|
    requires SortedByTitle(s, le)
    ensures SortedByTitle(s[..k] + s[k + 1..], le)
  {
    var t := s[..k] + s[k + 1..];
    forall i, j | 0 <= i < j < |t| ensures le(t[i].title, t[j].title) {
      var i' := if i < k then i else i + 1;
      var j' := if j < k then j else j + 1;
      assert t[i] == s[i'] && t[j] == s[j'];
    }
  }

  /** The titles of a non-empty sequence: the first title, then the rest. */
  lemma TitlesCons(s: seq<MovieEntry>)
    requires s != []
    ensures Titles(s) == [s[0].title] + Titles(s[1..])
  {
  }

  /**
   * In a title-sorted sequence under a total order, an entry ranked no later
   * than the first has the first title, and so has every entry before it.
   */
  lemma LeadingBlock(b: seq<MovieEntry>, k: nat, le: (string, string) -> bool)
    requires TotalOrder(le)
    requires SortedByTitle(b, le)
    requires k < |b| && le(b[k].title, b[0].title)
    ensures forall j :: 0 <= j <= k ==> b[j].title == b[0].title
  {
    forall j | 0 <= j <= k ensures b[j].title == b[0].title {
      if 0 < j {
        assert le(b[0].title, b[j].title);
      }
      if j < k {
        assert le(b[j].title, b[k].title);
      }
    }
  }

  /** Removing an entry from a run of equal leading titles removes the first title. */
  lemma TitlesAfterRemoval(b: seq<MovieEntry>, k: nat)
    requires k < |b|
    requires forall j :: 0 <= j <= k ==> b[j].title == b[0].title
    ensures Titles(b[..k] + b[k + 1..]) == Titles(b[1..])
  {
    var b' := b[..k] + b[k + 1..];
    forall j | 0 <= j < |b'| ensures Titles(b')[j] == Titles(b[1..])[j] {
      if j < k {
        assert b'[j] == b[j];
      } else {
        assert b'[j] == b[j + 1];
      }
    }
  }

  /** Taking the entry at one position out of a sequence takes one occurrence out of its multiset. */
  lemma MultisetRemove(b: seq<MovieEntry>, k: nat)
    requires k < |b|
    ensures multiset(b[..k] + b[k + 1..]) == multiset(b) - multiset{b[k]}
  {
    assert b == b[..k] + [b[k]] + b[k + 1..];
  }

  /**
   * The first entry of `a` occurs in `b` at some position `k`, and under a
   * total order every entry of `b` up to `k` has the title both sequences
   * start with.
   */
  lemma HeadBlock(a: seq<MovieEntry>, b: seq<MovieEntry>, le: (string, string) -> bool) returns (k: nat)
    requires TotalOrder(le)
    requires SortedByTitle(a, le) && SortedByTitle(b, le)
    requires multiset(a) == multiset(b) && a != []
    ensures k < |b| && b[k] == a[0]
    ensures a[0].title == b[0].title
    ensures forall j :: 0 <= j <= k ==> b[j].title == b[0].title
  {
    assert a[0] in multiset(b);
    k :| 0 <= k < |b| && b[k] == a[0];
    assert b[0] in multiset(a);
    var m :| 0 <= m < |a| && a[m] == b[0];
    assert le(a[0].title, b[0].title);
    assert le(b[k].title, b[0].title);
    LeadingBlock(b, k, le);
  }

  /** Taking the first entry of `a` out of both sides keeps the two multisets equal. */
  lemma RestPermutation(a: seq<MovieEntry>, b: seq<MovieEntry>, k: nat)
    requires multiset(a) == multiset(b) && a != []
    requires k < |b| && b[k] == a[0]
    ensures multiset(a[1..]) == multiset(b[..k] + b[k + 1..])
  {
    MultisetRemove(a, 0);
    MultisetRemove(b, k);
  }

  /** Reassembles the titles of `a` and `b` from their first titles and the rests. */
  lemma TitlesFromParts(a: seq<MovieEntry>, b: seq<MovieEntry>, k: nat)
    requires a != [] && k < |b| && a[0].title == b[0].title
    requires forall j :: 0 <= j <= k ==> b[j].title == b[0].title
    requires Titles(a[1..]) == Titles(b[..k] + b[k + 1..])
    ensures Titles(a) == Titles(b)
  {
    TitlesAfterRemoval(b, k);
    TitlesCons(a);
    TitlesCons(b);
  }

  /**
   * Under a total order, any two title-sorted arrangements of the same
   * entries list the same titles in the same positions: how ties between
   * rows of equal title are broken does not show in the title column.
   */
  lemma {:induction false} SortedPermutationsAgreeOnTitles(a: seq<MovieEntry>, b: seq<MovieEntry>,
                                                           le: (string, string) -> bool)
    requires TotalOrder(le)
    requires SortedByTitle(a, le) && SortedByTitle(b, le)
    requires multiset(a) == multiset(b)
    ensures Titles(a) == Titles(b)
    decreases |a|
  {
    if a != [] {
      var k := HeadBlock(a, b, le);
      RemoveKeepsSorted(b, k, le);
      RemoveKeepsSorted(a, 0, le);
      RestPermutation(a, b, k);
      SortedPermutationsAgreeOnTitles(a[1..], b[..k] + b[k + 1..], le);
      TitlesFromParts(a, b, k);
    }
  }

  /**
   * The title column of the listing is the same as that of every title-sorted
   * arrangement of the selected rows, so it does not depend on how this
   * model breaks ties.
   */
  lemma IndexTitlesDetermined<Hidden>(movies: seq<MovieRow<Hidden>>, le: (string, string) -> bool,
                                      other: seq<MovieEntry>)
    requires TotalOrder(le)
    requires SortedByTitle(other, le)
    requires multiset(other) == multiset(Project(movies))
    ensures Titles(Index(movies, le)) == Titles(other)
  {
    SortedPermutationsAgreeOnTitles(Index(movies, le), other, le);
  }
}
