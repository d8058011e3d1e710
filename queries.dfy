/**
 * The read side of the data layer: each query is a function of the database
 * and of the requests that fail. A failing request makes the query return its
 * empty result, as the source's error branches do.
 */
module Queries {
  import opened Wrappers
  import opened Records
  import opened Schema
  import Seqs
  import Sorting

  /** `order("name")` on entity rows, under the store's collation `collate` ("may come first"). */
  function EntitiesByName(collate: (string, string) -> bool): (Entity, Entity) -> bool {
    (a: Entity, b: Entity) => collate(a.name, b.name)
  }

  function WrestlersByName(collate: (string, string) -> bool): (WrestlerRow, WrestlerRow) -> bool {
    (a: WrestlerRow, b: WrestlerRow) => collate(a.name, b.name)
  }

  lemma EntitiesByNameTotal(collate: (string, string) -> bool)
    requires Sorting.TotalPreorder(collate)
    ensures Sorting.TotalPreorder(EntitiesByName(collate))
  {
    var le := EntitiesByName(collate);
    forall a: Entity, b: Entity ensures le(a, b) || le(b, a) {
      assert collate(a.name, b.name) || collate(b.name, a.name);
    }
    forall a: Entity, b: Entity, c: Entity | le(a, b) && le(b, c) ensures le(a, c) {
      assert collate(a.name, b.name) && collate(b.name, c.name);
    }
  }

  lemma WrestlersByNameTotal(collate: (string, string) -> bool)
    requires Sorting.TotalPreorder(collate)
    ensures Sorting.TotalPreorder(WrestlersByName(collate))
  {
    var le := WrestlersByName(collate);
    forall a: WrestlerRow, b: WrestlerRow ensures le(a, b) || le(b, a) {
      assert collate(a.name, b.name) || collate(b.name, a.name);
    }
    forall a: WrestlerRow, b: WrestlerRow, c: WrestlerRow | le(a, b) && le(b, c) ensures le(a, c) {
      assert collate(a.name, b.name) && collate(b.name, c.name);
    }
  }

  /** `getPromotions`, `getFactions`, `getChampionships`: the whole table ordered by name, or [] on error. */
  function ListEntities(db: Db, k: Kind, collate: (string, string) -> bool, faults: Faults): (r: seq<Entity>)
    ensures ListRows(EntityTable(k)) in faults ==> r == []
    ensures ListRows(EntityTable(k)) !in faults ==> multiset(r) == multiset(db.Table(k))
  {
    if ListRows(EntityTable(k)) in faults then []
    else Sorting.SortBy(db.Table(k), EntitiesByName(collate))
  }

  /** Under a consistent collation the listing is ordered by name. */
  lemma ListEntitiesSorted(db: Db, k: Kind, collate: (string, string) -> bool, faults: Faults)
    requires Sorting.TotalPreorder(collate)
    ensures Sorting.SortedBy(ListEntities(db, k, collate, faults), EntitiesByName(collate))
  {
    EntitiesByNameTotal(collate);
    Sorting.SortSorted(db.Table(k), EntitiesByName(collate));
  }

  /** `select(<kind>_id).eq("wrestler_id", wid)`: the entity ids of one wrestler's junction rows, in row order. */
  function EntityIdsOf(links: seq<Link>, wid: int): seq<int> {
    if links == [] then []
    else (if links[0].wrestlerId == wid then [links[0].entityId] else []) + EntityIdsOf(links[1..], wid)
  }

  lemma {:induction false} EntityIdsOfMembers(links: seq<Link>, wid: int, x: int)
    ensures x in EntityIdsOf(links, wid) <==> Link(wid, x) in links
  {
    if links != [] {
      EntityIdsOfMembers(links[1..], wid, x);
      assert links == [links[0]] + links[1..];
    }
  }

  /** `select("wrestler_id").eq(<kind>_id, eid)`: the wrestler ids of one entity's junction rows, in row order. */
  function WrestlerIdsOf(links: seq<Link>, eid: int): seq<int> {
    if links == [] then []
    else (if links[0].entityId == eid then [links[0].wrestlerId] else []) + WrestlerIdsOf(links[1..], eid)
  }

  lemma {:induction false} WrestlerIdsOfMembers(links: seq<Link>, eid: int, x: int)
    ensures x in WrestlerIdsOf(links, eid) <==> Link(x, eid) in links
  {
    if links != [] {
      WrestlerIdsOfMembers(links[1..], eid, x);
      assert links == [links[0]] + links[1..];
    }
  }

  /** The exact count of junction rows carrying entity `eid`. */
  function LinkCount(links: seq<Link>, eid: int): nat {
    |Seqs.Filter(links, (l: Link) => l.entityId == eid)|
  }

  /**
   * The count shown for an entity equals the number of wrestler ids its
   * by-entity lookup fetches, counted with multiplicity.
   */
  lemma {:induction false} CountIsHolderCount(links: seq<Link>, eid: int)
    ensures LinkCount(links, eid) == |WrestlerIdsOf(links, eid)|
  {
    if links != [] {
      CountIsHolderCount(links[1..], eid);
    }
  }

  /**
   * `getWrestlerPromotions`, `getWrestlerFactions`, `getWrestlerChampionships`:
   * look up the wrestler's junction ids; with no ids (or an error) stop with
   * []; otherwise fetch the rows of that kind whose id is among them.
   */
  function WrestlerEntities(db: Db, k: Kind, wid: int, faults: Faults): (r: seq<Entity>)
    ensures forall e <- r :: e in db.Table(k) && e.id in EntityIdsOf(db.Links(k), wid)
  {
    if LinkedIds(k, wid) in faults then []
    else
      var ids := EntityIdsOf(db.Links(k), wid);
      if ids == [] then []
      else if LinkedRows(k, wid) in faults then []
      else
        var r := Seqs.Filter(db.Table(k), (e: Entity) => e.id in ids);
        assert forall e <- r :: e in db.Table(k) && e.id in ids by {
          forall e <- r ensures e in db.Table(k) && e.id in ids {
            Seqs.FilterMembers(db.Table(k), (e: Entity) => e.id in ids, e);
          }
        }
        r
  }

  /**
   * When both requests succeed, the result holds exactly the existing rows
   * whose id has a junction row for the wrestler: ids without a row (orphans)
   * are skipped, and the rows keep their table order.
   */
  lemma WrestlerEntitiesExact(db: Db, k: Kind, wid: int, faults: Faults, e: Entity)
    requires LinkedIds(k, wid) !in faults && LinkedRows(k, wid) !in faults
    ensures e in WrestlerEntities(db, k, wid, faults) <==> e in db.Table(k) && Link(wid, e.id) in db.Links(k)
    ensures Seqs.IsSubsequence(WrestlerEntities(db, k, wid, faults), db.Table(k))
  {
    var ids := EntityIdsOf(db.Links(k), wid);
    EntityIdsOfMembers(db.Links(k), wid, e.id);
    Seqs.FilterMembers(db.Table(k), (x: Entity) => x.id in ids, e);
    Seqs.FilterIsSubsequence(db.Table(k), (x: Entity) => x.id in ids);
  }

  /**
   * With no junction rows the lookup returns [] without fetching: its result
   * does not depend on whether the entity fetch would have failed.
   */
  lemma NoLinksShortCircuits(db: Db, k: Kind, wid: int, faults: Faults, message: string)
    requires forall l <- db.Links(k) :: l.wrestlerId != wid
    ensures WrestlerEntities(db, k, wid, faults) == []
    ensures WrestlerEntities(db, k, wid, faults[LinkedRows(k, wid) := message]) == []
  {
    assert EntityIdsOf(db.Links(k), wid) == [] by {
      if EntityIdsOf(db.Links(k), wid) != [] {
        var x := EntityIdsOf(db.Links(k), wid)[0];
        EntityIdsOfMembers(db.Links(k), wid, x);
        assert false;
      }
    }
  }

  /** On a valid database each entity appears at most once, even when the junction table repeats its id. */
  lemma WrestlerEntitiesOnceEach(db: Db, k: Kind, wid: int, faults: Faults)
    requires db.Valid()
    ensures UniqueIds(WrestlerEntities(db, k, wid, faults))
  {
    var ids := EntityIdsOf(db.Links(k), wid);
    FilterKeepsUniqueIds(db.Table(k), (e: Entity) => e.id in ids);
  }

  lemma {:induction false} FilterKeepsUniqueIds(t: seq<Entity>, p: Entity -> bool)
    requires UniqueIds(t)
    ensures UniqueIds(Seqs.Filter(t, p))
  {
    if t != [] {
      FilterKeepsUniqueIds(t[1..], p);
      var rest := Seqs.Filter(t[1..], p);
      forall e <- rest ensures e.id != t[0].id {
        Seqs.FilterMembers(t[1..], p, e);
        var j :| 0 <= j < |t[1..]| && t[1..][j] == e;
        assert t[j + 1] == e;
      }
      if p(t[0]) {
        var r := [t[0]] + rest;
        forall i, j | 0 <= i < j < |r| ensures r[i].id != r[j].id {
          if i == 0 {
            assert r[j] == rest[j - 1] && r[j] in rest;
          } else {
            assert r[i] == rest[i - 1] && r[j] == rest[j - 1];
          }
        }
      }
    }
  }

  /** The wrestler with the relation lists of the kinds in `kinds` looked up, the others left absent. */
  function Enrich(db: Db, w: WrestlerRow, kinds: set<Kind>, faults: Faults): Wrestler
  {
    Wrestler(w,
      if Promotions in kinds then Some(WrestlerEntities(db, Promotions, w.id, faults)) else None,
      if Factions in kinds then Some(WrestlerEntities(db, Factions, w.id, faults)) else None,
      if Championships in kinds then Some(WrestlerEntities(db, Championships, w.id, faults)) else None)
  }

  /** Each kind asked for carries its looked-up list; the others stay absent. */
  lemma EnrichRelated(db: Db, w: WrestlerRow, kinds: set<Kind>, faults: Faults, k: Kind)
    ensures Enrich(db, w, kinds, faults).row == w
    ensures Enrich(db, w, kinds, faults).Related(k) == if k in kinds then Some(WrestlerEntities(db, k, w.id, faults)) else None
  {
  }

  const AllKinds: set<Kind> := {Promotions, Factions, Championships}

  function EnrichAll(db: Db, rows: seq<WrestlerRow>, kinds: set<Kind>, faults: Faults): (r: seq<Wrestler>)
    ensures |r| == |rows| && forall i :: 0 <= i < |rows| ==> r[i] == Enrich(db, rows[i], kinds, faults)
  {
    seq(|rows|, i requires 0 <= i < |rows| => Enrich(db, rows[i], kinds, faults))
  }

  /** `getWrestlers`: every wrestler ordered by name, each with all three relation lists, or [] on error. */
  function ListWrestlers(db: Db, collate: (string, string) -> bool, faults: Faults): (r: seq<Wrestler>)
  {
    if ListRows(WrestlerTable) in faults then []
    else EnrichAll(db, Sorting.SortBy(db.wrestlers, WrestlersByName(collate)), AllKinds, faults)
  }

  /** The listing holds every row of the table once per occurrence, each carrying its three looked-up lists. */
  lemma ListWrestlersSpec(db: Db, collate: (string, string) -> bool, faults: Faults)
    requires ListRows(WrestlerTable) !in faults
    ensures var r := ListWrestlers(db, collate, faults);
      && multiset(RowsOf(r)) == multiset(db.wrestlers)
      && forall i, k :: 0 <= i < |r| ==> r[i].Related(k) == Some(WrestlerEntities(db, k, r[i].row.id, faults))
  {
    var sorted := Sorting.SortBy(db.wrestlers, WrestlersByName(collate));
    var r := ListWrestlers(db, collate, faults);
    assert RowsOf(r) == sorted;
    forall i, k | 0 <= i < |r| ensures r[i].Related(k) == Some(WrestlerEntities(db, k, r[i].row.id, faults)) {
      EnrichRelated(db, sorted[i], AllKinds, faults, k);
    }
  }

  /** The listing is ordered by name, and is empty when the wrestlers query fails. */
  lemma ListWrestlersSorted(db: Db, collate: (string, string) -> bool, faults: Faults)
    requires Sorting.TotalPreorder(collate)
    ensures ListRows(WrestlerTable) in faults ==> ListWrestlers(db, collate, faults) == []
    ensures Sorting.SortedBy(RowsOf(ListWrestlers(db, collate, faults)), WrestlersByName(collate))
  {
    if ListRows(WrestlerTable) !in faults {
      var sorted := Sorting.SortBy(db.wrestlers, WrestlersByName(collate));
      WrestlersByNameTotal(collate);
      Sorting.SortSorted(db.wrestlers, WrestlersByName(collate));
      assert RowsOf(ListWrestlers(db, collate, faults)) == sorted;
    }
  }

  /** The `wrestler_count` of one entity: the junction-row count, or 0 when the count query fails. */
  function CountFor(db: Db, k: Kind, e: Entity, faults: Faults): int {
    if CountLinks(k, e.id) in faults then 0 else LinkCount(db.Links(k), e.id)
  }

  /**
   * The count shown for an existing entity is the number of wrestlers whose
   * lookup returns it, provided the store is valid, no junction row of the
   * kind is repeated or names a wrestler that is gone, and no request fails.
   * Without the last two conditions the two disagree (see
   * `Writes.OrphanedRowIsCounted and Writes.RepeatedRowIsCounted`).
   */
  lemma CountMatchesHolders(db: Db, k: Kind, e: Entity, faults: Faults)
    requires db.Valid() && e in db.Table(k)
    requires Seqs.NoDuplicates(db.Links(k))
    requires forall l <- db.Links(k) :: exists w <- db.wrestlers :: w.id == l.wrestlerId
    requires CountLinks(k, e.id) !in faults
    requires forall wid: int :: LinkedIds(k, wid) !in faults && LinkedRows(k, wid) !in faults
    ensures CountFor(db, k, e, faults) == |Seqs.Filter(db.wrestlers, (w: WrestlerRow) => e in WrestlerEntities(db, k, w.id, faults))|
  {
    var links := db.Links(k);
    forall w | w in db.wrestlers ensures (e in WrestlerEntities(db, k, w.id, faults)) == (Link(w.id, e.id) in links) {
      WrestlerEntitiesExact(db, k, w.id, faults, e);
    }
    Seqs.FilterCongruent(db.wrestlers, (w: WrestlerRow) => e in WrestlerEntities(db, k, w.id, faults),
                         (w: WrestlerRow) => Link(w.id, e.id) in links);
    LinkCountIsLinkedWrestlers(links, db.wrestlers, e.id);
  }

  /**
   * Junction rows without repeats, each naming one of the wrestlers `ws`
   * (whose ids are unique): the rows carrying `eid` are as many as the
   * wrestlers linked to it.
   */
  lemma LinkCountIsLinkedWrestlers(links: seq<Link>, ws: seq<WrestlerRow>, eid: int)
    requires Seqs.NoDuplicates(links) && UniqueWrestlerIds(ws)
    requires forall l <- links :: exists w <- ws :: w.id == l.wrestlerId
    ensures LinkCount(links, eid) == |Seqs.Filter(ws, (w: WrestlerRow) => Link(w.id, eid) in links)|
  {
    assert Seqs.NoDuplicates(ws) by {
      forall i, j | 0 <= i < j < |ws| ensures ws[i] != ws[j] {
        assert ws[i].id != ws[j].id;
      }
    }
    forall v, w | v in ws && w in ws && Link(v.id, eid) == Link(w.id, eid) ensures v == w {
      var i :| 0 <= i < |ws| && ws[i] == v;
      var j :| 0 <= j < |ws| && ws[j] == w;
    }
    forall l | l in links && l.entityId == eid
      ensures exists w :: w in ws && Link(w.id, eid) in links && Link(w.id, eid) == l
    {
      var w :| w in ws && w.id == l.wrestlerId;
      assert Link(w.id, eid) == l;
    }
    Seqs.FilterSizesMatch(ws, (w: WrestlerRow) => Link(w.id, eid) in links, links, (l: Link) => l.entityId == eid,
                          (w: WrestlerRow) => Link(w.id, eid));
  }

  /** `getPromotionsWithWrestlerCount` and its faction and championship counterparts. */
  function WithWrestlerCount(db: Db, k: Kind, collate: (string, string) -> bool, faults: Faults): (r: seq<Counted>)
    ensures ListRows(EntityTable(k)) in faults ==> r == []
    ensures forall c <- r :: c.wrestlerCount == CountFor(db, k, c.entity, faults)
  {
    if ListRows(EntityTable(k)) in faults then []
    else
      var sorted := Sorting.SortBy(db.Table(k), EntitiesByName(collate));
      seq(|sorted|, i requires 0 <= i < |sorted| => Counted(sorted[i], CountFor(db, k, sorted[i], faults)))
  }

  function EntitiesOf(cs: seq<Counted>): (r: seq<Entity>)
    ensures |r| == |cs| && forall i :: 0 <= i < |cs| ==> r[i] == cs[i].entity
  {
    seq(|cs|, i requires 0 <= i < |cs| => cs[i].entity)
  }

  /** The counted listing holds the rows of the table, each once per occurrence. */
  lemma WithWrestlerCountRows(db: Db, k: Kind, collate: (string, string) -> bool, faults: Faults)
    requires ListRows(EntityTable(k)) !in faults
    ensures multiset(EntitiesOf(WithWrestlerCount(db, k, collate, faults))) == multiset(db.Table(k))
  {
    assert EntitiesOf(WithWrestlerCount(db, k, collate, faults)) == Sorting.SortBy(db.Table(k), EntitiesByName(collate));
  }

  /**
   * The counted listing holds every row of the table, ordered by name, each
   * with the number of junction rows carrying its id (0 when its count query fails).
   */
  lemma WithWrestlerCountSpec(db: Db, k: Kind, collate: (string, string) -> bool, faults: Faults)
    requires ListRows(EntityTable(k)) !in faults
    requires Sorting.TotalPreorder(collate)
    ensures var r := WithWrestlerCount(db, k, collate, faults);
      && multiset(EntitiesOf(r)) == multiset(db.Table(k))
      && Sorting.SortedBy(EntitiesOf(r), EntitiesByName(collate))
      && forall c <- r :: c.wrestlerCount == if CountLinks(k, c.entity.id) in faults then 0
                                            else |Seqs.Filter(db.Links(k), (l: Link) => l.entityId == c.entity.id)|
  {
    var sorted := Sorting.SortBy(db.Table(k), EntitiesByName(collate));
    assert EntitiesOf(WithWrestlerCount(db, k, collate, faults)) == sorted;
    EntitiesByNameTotal(collate);
    Sorting.SortSorted(db.Table(k), EntitiesByName(collate));
  }

  /** A wrestler listed by an entity carries the two other kinds when the entity is a championship, and only championships otherwise. */
  function HolderKinds(k: Kind): set<Kind> {
    if k == Championships then {Promotions, Factions} else {Championships}
  }

  /**
   * `getWrestlersByPromotion`, `getWrestlersByFaction`,
   * `getWrestlersByChampionship`: the wrestlers whose id has a junction row
   * for entity `eid`, ordered by name and enriched; [] when there are no such
   * rows or a request fails.
   */
  function WrestlersBy(db: Db, k: Kind, eid: int, collate: (string, string) -> bool, faults: Faults): (r: seq<Wrestler>)
  {
    if HolderIds(k, eid) in faults then []
    else
      var ids := WrestlerIdsOf(db.Links(k), eid);
      if ids == [] then []
      else if HolderRows(k, eid) in faults then []
      else EnrichAll(db, Sorting.SortBy(Seqs.Filter(db.wrestlers, (w: WrestlerRow) => w.id in ids),
                                        WrestlersByName(collate)), HolderKinds(k), faults)
  }

  function RowsOf(ws: seq<Wrestler>): (r: seq<WrestlerRow>)
    ensures |r| == |ws| && forall i :: 0 <= i < |ws| ==> r[i] == ws[i].row
  {
    seq(|ws|, i requires 0 <= i < |ws| => ws[i].row)
  }

  /** The rows a by-entity lookup fetches before sorting: those whose id has a junction row for the entity. */
  function HolderRowsOf(db: Db, k: Kind, eid: int): seq<WrestlerRow> {
    var ids := WrestlerIdsOf(db.Links(k), eid);
    Seqs.Filter(db.wrestlers, (w: WrestlerRow) => w.id in ids)
  }

  /** Helper for the two lemmas below: the early return for no ids agrees with sorting the empty filter. */
  lemma RowsOfWrestlersBy(db: Db, k: Kind, eid: int, collate: (string, string) -> bool, faults: Faults)
    requires HolderIds(k, eid) !in faults && HolderRows(k, eid) !in faults
    ensures RowsOf(WrestlersBy(db, k, eid, collate, faults)) == Sorting.SortBy(HolderRowsOf(db, k, eid), WrestlersByName(collate))
  {
    if WrestlerIdsOf(db.Links(k), eid) == [] {
      assert HolderRowsOf(db, k, eid) == [] by {
        if HolderRowsOf(db, k, eid) != [] {
          Seqs.FilterMembers(db.wrestlers, (w: WrestlerRow) => w.id in WrestlerIdsOf(db.Links(k), eid), HolderRowsOf(db, k, eid)[0]);
        }
      }
    }
  }

  /**
   * When no request fails, the wrestlers listed for an entity are exactly the
   * rows referenced by its junction rows.
   */
  lemma WrestlersByMembers(db: Db, k: Kind, eid: int, collate: (string, string) -> bool, faults: Faults, w: WrestlerRow)
    requires HolderIds(k, eid) !in faults && HolderRows(k, eid) !in faults
    ensures w in RowsOf(WrestlersBy(db, k, eid, collate, faults)) <==> w in db.wrestlers && Link(w.id, eid) in db.Links(k)
  {
    RowsOfWrestlersBy(db, k, eid, collate, faults);
    var sorted := Sorting.SortBy(HolderRowsOf(db, k, eid), WrestlersByName(collate));
    assert w in sorted <==> w in multiset(sorted);
    WrestlerIdsOfMembers(db.Links(k), eid, w.id);
    Seqs.FilterMembers(db.wrestlers, (x: WrestlerRow) => x.id in WrestlerIdsOf(db.Links(k), eid), w);
  }

  /** Under a consistent collation the wrestlers listed for an entity are ordered by name. */
  lemma WrestlersBySorted(db: Db, k: Kind, eid: int, collate: (string, string) -> bool, faults: Faults)
    requires HolderIds(k, eid) !in faults && HolderRows(k, eid) !in faults
    requires Sorting.TotalPreorder(collate)
    ensures Sorting.SortedBy(RowsOf(WrestlersBy(db, k, eid, collate, faults)), WrestlersByName(collate))
  {
    RowsOfWrestlersBy(db, k, eid, collate, faults);
    WrestlersByNameTotal(collate);
    Sorting.SortSorted(HolderRowsOf(db, k, eid), WrestlersByName(collate));
  }

  /** A championship's wrestlers carry promotions and factions; a promotion's or faction's carry championships only. */
  lemma WrestlersByEnriched(db: Db, k: Kind, eid: int, collate: (string, string) -> bool, faults: Faults, x: Wrestler, j: Kind)
    requires x in WrestlersBy(db, k, eid, collate, faults)
    ensures x.Related(j) == if j in HolderKinds(k) then Some(WrestlerEntities(db, j, x.row.id, faults)) else None
  {
    var r := WrestlersBy(db, k, eid, collate, faults);
    var i :| 0 <= i < |r| && r[i] == x;
    EnrichRelated(db, x.row, HolderKinds(k), faults, j);
  }

  /** No junction row for the entity: the lookup returns [] whatever the wrestler fetch would have done. */
  lemma WrestlersByNoLinks(db: Db, k: Kind, eid: int, collate: (string, string) -> bool, faults: Faults, message: string)
    requires forall l <- db.Links(k) :: l.entityId != eid
    ensures WrestlersBy(db, k, eid, collate, faults) == []
    ensures WrestlersBy(db, k, eid, collate, faults[HolderRows(k, eid) := message]) == []
  {
    assert WrestlerIdsOf(db.Links(k), eid) == [] by {
      if WrestlerIdsOf(db.Links(k), eid) != [] {
        var x := WrestlerIdsOf(db.Links(k), eid)[0];
        WrestlerIdsOfMembers(db.Links(k), eid, x);
        assert false;
      }
    }
  }
}
