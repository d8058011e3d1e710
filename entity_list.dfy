/**
 * The promotion, faction and championship lists: search, the two sort
 * orders, the toggle between them, and the image-support check. The three
 * list views do this identically, so it is modelled once.
 */
module EntityList {
  import opened Wrappers
  import opened Records
  import opened Schema
  import Seqs
  import Sorting
  import Text
  import Queries

  datatype SortOrder = ByName | ByCount

  /** `toggleSortOrder` */
  function Toggle(o: SortOrder): SortOrder {
    if o == ByName then ByCount else ByName
  }

  /** The toggle swaps the two orders, so applying it twice changes nothing. */
  lemma ToggleSwaps(o: SortOrder)
    ensures Toggle(o) != o
    ensures Toggle(Toggle(o)) == o
  {
  }

  /** `filteredPromotions` and its counterparts: case-insensitive substring search on the name. */
  function Search(rows: seq<Counted>, query: string): seq<Counted> {
    Seqs.Filter(rows, (c: Counted) => Text.MatchesQuery(c.entity.name, query))
  }

  /** The search keeps exactly the matching rows, in their loaded order; an empty query keeps all. */
  lemma SearchSpec(rows: seq<Counted>, query: string, c: Counted)
    ensures c in Search(rows, query) <==> c in rows && Text.Contains(Text.Lower(c.entity.name), Text.Lower(query))
    ensures Seqs.IsSubsequence(Search(rows, query), rows)
    ensures query == "" ==> Search(rows, "") == rows
  {
    Seqs.FilterMembers(rows, (x: Counted) => Text.MatchesQuery(x.entity.name, query), c);
    Seqs.FilterIsSubsequence(rows, (x: Counted) => Text.MatchesQuery(x.entity.name, query));
    if query == "" {
      forall i | 0 <= i < |rows| ensures Text.MatchesQuery(rows[i].entity.name, "") {
        Text.EmptyQueryMatches(rows[i].entity.name);
      }
      Seqs.FilterKeepsAll(rows, (x: Counted) => Text.MatchesQuery(x.entity.name, ""));
    }
  }

  /**
   * The comparator as a "may come first" relation: `a.name.localeCompare(b.name) <= 0`
   * under the collation `collate`, or `b.wrestler_count - a.wrestler_count <= 0`.
   */
  function Compare(o: SortOrder, collate: (string, string) -> bool): (Counted, Counted) -> bool {
    if o == ByName then (a: Counted, b: Counted) => collate(a.entity.name, b.entity.name)
    else (a: Counted, b: Counted) => a.wrestlerCount >= b.wrestlerCount
  }

  /** `sortedPromotions` and its counterparts: a sorted copy of the search result. */
  function Sorted(rows: seq<Counted>, query: string, o: SortOrder, collate: (string, string) -> bool): seq<Counted> {
    Sorting.SortBy(Search(rows, query), Compare(o, collate))
  }

  /** The sorted list holds the rows of the search result, each as often. */
  lemma SortedIsPermutation(rows: seq<Counted>, query: string, o: SortOrder, collate: (string, string) -> bool)
    ensures multiset(Sorted(rows, query, o, collate)) == multiset(Search(rows, query))
  {
  }

  lemma CountOrderTotal()
    ensures Sorting.TotalPreorder((a: Counted, b: Counted) => a.wrestlerCount >= b.wrestlerCount)
  {
  }

  /** In count order the wrestler counts never increase along the list. */
  lemma CountModeNonIncreasing(rows: seq<Counted>, query: string, collate: (string, string) -> bool, i: int, j: int)
    requires 0 <= i < j < |Sorted(rows, query, ByCount, collate)|
    ensures Sorted(rows, query, ByCount, collate)[i].wrestlerCount >= Sorted(rows, query, ByCount, collate)[j].wrestlerCount
  {
    CountOrderTotal();
    Sorting.SortSorted(Search(rows, query), Compare(ByCount, collate));
  }

  /** In name order, under a consistent collation, every name may come before all later ones. */
  lemma NameModeAscending(rows: seq<Counted>, query: string, collate: (string, string) -> bool, i: int, j: int)
    requires Sorting.TotalPreorder(collate)
    requires 0 <= i < j < |Sorted(rows, query, ByName, collate)|
    ensures collate(Sorted(rows, query, ByName, collate)[i].entity.name, Sorted(rows, query, ByName, collate)[j].entity.name)
  {
    var le := Compare(ByName, collate);
    forall a: Counted, b: Counted ensures le(a, b) || le(b, a) {
      assert collate(a.entity.name, b.entity.name) || collate(b.entity.name, a.entity.name);
    }
    forall a: Counted, b: Counted, c: Counted | le(a, b) && le(b, c) ensures le(a, c) {
      assert collate(a.entity.name, b.entity.name) && collate(b.entity.name, c.entity.name);
    }
    Sorting.SortSorted(Search(rows, query), le);
  }

  /** `data.some(row => "image_url" in row)` */
  predicate ImageUploadSupported(rows: seq<Counted>) {
    rows != [] && (rows[0].entity.image.HasKey() || ImageUploadSupported(rows[1..]))
  }

  /** Image upload is offered exactly when some loaded row carries an `image_url` key; never for an empty list. */
  lemma {:induction false} ImageUploadSupportedIff(rows: seq<Counted>)
    ensures ImageUploadSupported(rows) <==> exists c <- rows :: c.entity.image.HasKey()
    ensures rows == [] ==> !ImageUploadSupported(rows)
  {
    if rows != [] {
      ImageUploadSupportedIff(rows[1..]);
      assert rows == [rows[0]] + rows[1..];
    }
  }

  /**
   * Loaded from a valid store, the `hasImageUrl` test reports the table's column, except
   * that an empty table (or a failed listing) reports no support even when
   * the column exists.
   */
  lemma ImageUploadMatchesColumn(db: Db, k: Kind, collate: (string, string) -> bool, faults: Faults)
    requires db.Valid()
    ensures var rows := Queries.WithWrestlerCount(db, k, collate, faults);
      ImageUploadSupported(rows) <==> ListRows(EntityTable(k)) !in faults && db.Table(k) != [] && db.ImageColumn(k)
  {
    var rows := Queries.WithWrestlerCount(db, k, collate, faults);
    ImageUploadSupportedIff(rows);
    if ListRows(EntityTable(k)) !in faults {
      Queries.WithWrestlerCountRows(db, k, collate, faults);
      RowsKeys(rows, db.Table(k), db.ImageColumn(k), db.nextId);
    }
  }

  lemma RowsKeys(rows: seq<Counted>, t: seq<Entity>, column: bool, next: int)
    requires multiset(Queries.EntitiesOf(rows)) == multiset(t)
    requires EntitiesValid(t, column, next)
    ensures (exists c <- rows :: c.entity.image.HasKey()) <==> t != [] && column
  {
    var es := Queries.EntitiesOf(rows);
    if exists c <- rows :: c.entity.image.HasKey() {
      var c :| c in rows && c.entity.image.HasKey();
      var i :| 0 <= i < |rows| && rows[i] == c;
      assert es[i] in multiset(t);
      var j :| 0 <= j < |t| && t[j] == es[i];
    }
    if t != [] && column {
      assert t[0] in multiset(es);
      var i :| 0 <= i < |es| && es[i] == t[0];
      assert rows[i] in rows;
    }
  }
}
