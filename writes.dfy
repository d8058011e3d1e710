/**
 * The write side of the data layer as functions from the database before a
 * call to the database after it and the call's result. The `Store` class
 * performs these same steps one request at a time; the properties of the
 * writes are proved here, about the functions.
 */
module Writes {
  import opened Wrappers
  import opened Records
  import opened Schema
  import Seqs
  import Text
  import Queries

  /** What the store answers to a single-row insert or update: the row, or an error with its message. */
  datatype Reply = Row(entity: Entity) | Failed(message: string)

  function Answer(reply: Reply): Option<Entity> {
    if reply.Row? then Some(reply.entity) else None
  }

  function TableText(k: Kind): string {
    match k
    case Promotions => "promotions"
    case Factions => "factions"
    case Championships => "championships"
  }

  /** The store's error for a write that names a column the table does not have; it mentions `image_url`. */
  function MissingColumnMessage(k: Kind): (m: string)
    ensures Text.Contains(m, "image_url")
  {
    var head := "Could not find the '";
    var m := head + "image_url" + "' column of '" + TableText(k) + "' in the schema cache";
    assert m[|head|..|head| + |"image_url"|] == "image_url";
    assert Text.OccursAt(m, "image_url", |head|);
    Text.ContainsIffOccurs(m, "image_url");
    m
  }

  /** The store's error for `.single()` on an update that matched no row. */
  const NoRowMessage: string := "JSON object requested, multiple (or no) rows returned"

  /** `if (imageUrl) data.image_url = imageUrl`: the create functions send the image only when it is truthy. */
  function TruthyImage(imageUrl: Option<string>): (r: Option<string>)
    ensures r.Some? <==> imageUrl.Some? && imageUrl.value != ""
    ensures r.Some? ==> r == imageUrl
  {
    if imageUrl.Some? && imageUrl.value != "" then imageUrl else None
  }

  /** The image a new row of kind `k` gets when `sent` is the image sent with the insert. */
  function StoredImage(db: Db, k: Kind, sent: Option<string>): Image {
    if !db.ImageColumn(k) then NoColumn
    else if sent.None? then NullImage
    else ImageUrl(sent.value)
  }

  /**
   * `insert(data).select().single()` on an entity table: the request fails
   * with its fault, or with the missing-column error when an image is sent
   * to a table without the column; otherwise a row with the next id is
   * appended. Column defaults are modelled as: created now, never updated.
   */
  function StoreInsert(db: Db, k: Kind, name: string, sent: Option<string>, now: string, req: Request, faults: Faults): (r: (Db, Reply))
    ensures r.1.Failed? ==> r.0 == db
    ensures r.1.Row? ==> r.1.entity.name == name && r.1.entity.id == db.nextId
  {
    if req in faults then (db, Failed(faults[req]))
    else if sent.Some? && !db.ImageColumn(k) then (db, Failed(MissingColumnMessage(k)))
    else
      var e := Entity(db.nextId, name, StoredImage(db, k, sent), Some(now), None);
      (db.WithTable(k, db.Table(k) + [e]).(nextId := db.nextId + 1), Row(e))
  }

  /** The row `cur` after an update that sets `name`, the image when one is sent, and `updated_at` when `stamp`. */
  function Edited(cur: Entity, name: string, sent: Option<string>, stamp: bool, now: string): Entity {
    cur.(name := name,
         image := if sent.Some? then ImageUrl(sent.value) else cur.image,
         updatedAt := if stamp then Some(now) else cur.updatedAt)
  }

  /**
   * `update(data).eq("id", id).select().single()` on an entity table: fails
   * with its fault, with the missing-column error, or when no row has the id;
   * otherwise the rows with that id are rewritten.
   */
  function StoreUpdate(db: Db, k: Kind, id: int, name: string, sent: Option<string>, stamp: bool, now: string,
                       req: Request, faults: Faults): (r: (Db, Reply))
    ensures r.1.Failed? ==> r.0 == db
    ensures r.1.Row? ==> r.1.entity.name == name && r.1.entity.id == id
  {
    if req in faults then (db, Failed(faults[req]))
    else if sent.Some? && !db.ImageColumn(k) then (db, Failed(MissingColumnMessage(k)))
    else
      match Seqs.Find(db.Table(k), (e: Entity) => e.id == id)
      case None => (db, Failed(NoRowMessage))
      case Some(cur) =>
        var e := Edited(cur, name, sent, stamp, now);
        (db.WithTable(k, Seqs.ReplaceWhere(db.Table(k), (x: Entity) => x.id == id, e)), Row(e))
  }

  /* ---------------- promotions, factions, championships ---------------- */

  /**
   * `createPromotion(name, imageUrl)`: the image goes out only when truthy;
   * a returned error gives null; when the first request throws (`threw`),
   * a name-only insert is made instead.
   */
  function CreatePromotionSpec(db: Db, name: string, imageUrl: Option<string>, threw: bool, now: string, faults: Faults): (Db, Option<Entity>) {
    var o := if threw then StoreInsert(db, Promotions, name, None, now, RetryRow, faults)
             else StoreInsert(db, Promotions, name, TruthyImage(imageUrl), now, WriteRow, faults);
    (o.0, Answer(o.1))
  }

  /**
   * `updatePromotion(id, name, imageUrl)`: sets the name and `updated_at`,
   * and the image whenever it is not undefined; when the request throws, a
   * name-only update without `updated_at` is made instead.
   */
  function UpdatePromotionSpec(db: Db, id: int, name: string, imageUrl: Option<string>, threw: bool, now: string, faults: Faults): (Db, Option<Entity>) {
    var o := if threw then StoreUpdate(db, Promotions, id, name, None, false, now, RetryRow, faults)
             else StoreUpdate(db, Promotions, id, name, imageUrl, true, now, WriteRow, faults);
    (o.0, Answer(o.1))
  }

  /**
   * `createFaction(name, imageUrl)`: as `createPromotion`, and in addition a
   * returned error whose message contains "image_url" is retried once with
   * the name only; any other returned error gives null.
   */
  function CreateFactionSpec(db: Db, name: string, imageUrl: Option<string>, threw: bool, now: string, faults: Faults): (Db, Option<Entity>) {
    if threw then
      var o := StoreInsert(db, Factions, name, None, now, RetryRow, faults);
      (o.0, Answer(o.1))
    else
      var o := StoreInsert(db, Factions, name, TruthyImage(imageUrl), now, WriteRow, faults);
      if o.1.Row? then (o.0, Some(o.1.entity))
      else if Text.Contains(o.1.message, "image_url") then
        var p := StoreInsert(o.0, Factions, name, None, now, RetryRow, faults);
        (p.0, Answer(p.1))
      else (o.0, None)
  }

  /** `updateFaction(id, name, imageUrl)`: as `updatePromotion`, with the same message-based retry as `createFaction`. */
  function UpdateFactionSpec(db: Db, id: int, name: string, imageUrl: Option<string>, threw: bool, now: string, faults: Faults): (Db, Option<Entity>) {
    if threw then
      var o := StoreUpdate(db, Factions, id, name, None, false, now, RetryRow, faults);
      (o.0, Answer(o.1))
    else
      var o := StoreUpdate(db, Factions, id, name, imageUrl, true, now, WriteRow, faults);
      if o.1.Row? then (o.0, Some(o.1.entity))
      else if Text.Contains(o.1.message, "image_url") then
        var p := StoreUpdate(o.0, Factions, id, name, None, false, now, RetryRow, faults);
        (p.0, Answer(p.1))
      else (o.0, None)
  }

  /** `createChampionship(name)`: inserts the name alone. */
  function CreateChampionshipSpec(db: Db, name: string, now: string, faults: Faults): (Db, Option<Entity>) {
    var o := StoreInsert(db, Championships, name, None, now, WriteRow, faults);
    (o.0, Answer(o.1))
  }

  /** `updateChampionship(id, name)`: sets the name and `updated_at`. */
  function UpdateChampionshipSpec(db: Db, id: int, name: string, now: string, faults: Faults): (Db, Option<Entity>) {
    var o := StoreUpdate(db, Championships, id, name, None, true, now, WriteRow, faults);
    (o.0, Answer(o.1))
  }

  /** `deleteWrestler`, `deletePromotion`, `deleteFaction`, `deleteChampionship`: delete by id, false on error. */
  function DeleteSpec(db: Db, t: TableName, id: int, faults: Faults): (Db, bool) {
    if DeleteRow in faults then (db, false)
    else match t
      case WrestlerTable => (db.(wrestlers := Seqs.Filter(db.wrestlers, (w: WrestlerRow) => w.id != id)), true)
      case EntityTable(k) => (db.WithTable(k, Seqs.Filter(db.Table(k), (e: Entity) => e.id != id)), true)
  }

  /* ---------------- wrestlers and their junction rows ---------------- */

  /** The ids, among the first `n` submitted, whose junction insert succeeds. */
  function Survivors(ids: seq<int>, k: Kind, faults: Faults, n: nat): (r: seq<int>)
    requires n <= |ids|
    decreases n
  {
    if n == 0 then []
    else Survivors(ids, k, faults, n - 1) + (if AddLink(k, n - 1) in faults then [] else [ids[n - 1]])
  }

  function LinksFor(wid: int, ids: seq<int>): (r: seq<Link>)
    ensures |r| == |ids| && forall i :: 0 <= i < |ids| ==> r[i] == Link(wid, ids[i])
  {
    seq(|ids|, i requires 0 <= i < |ids| => Link(wid, ids[i]))
  }

  /** One more submitted id adds its row exactly when its insert succeeds. */
  lemma AddedStep(wid: int, ids: seq<int>, k: Kind, faults: Faults, i: nat)
    requires i < |ids|
    ensures LinksFor(wid, Survivors(ids, k, faults, i + 1))
            == LinksFor(wid, Survivors(ids, k, faults, i)) + (if AddLink(k, i) in faults then [] else [Link(wid, ids[i])])
  {
    var before := Survivors(ids, k, faults, i);
    if AddLink(k, i) !in faults {
      assert Survivors(ids, k, faults, i + 1) == before + [ids[i]];
      assert LinksFor(wid, before + [ids[i]]) == LinksFor(wid, before) + [Link(wid, ids[i])];
    }
  }

  /** The junction rows one kind gains when the ids in `ids` are inserted for wrestler `wid`. */
  function Added(wid: int, ids: seq<int>, k: Kind, faults: Faults): seq<Link> {
    LinksFor(wid, Survivors(ids, k, faults, |ids|))
  }

  /** The junction rows of wrestler `wid`, and those of everybody else. */
  function Own(links: seq<Link>, wid: int): seq<Link> {
    Seqs.Filter(links, (l: Link) => l.wrestlerId == wid)
  }

  function Others(links: seq<Link>, wid: int): seq<Link> {
    Seqs.Filter(links, (l: Link) => l.wrestlerId != wid)
  }

  /** Inserting the form's ids of all three kinds for wrestler `wid`. */
  function AddAll(db: Db, wid: int, form: WrestlerForm, faults: Faults): Db {
    db.(wrestlerPromotions := db.wrestlerPromotions + Added(wid, form.Ids(Promotions), Promotions, faults),
        wrestlerFactions := db.wrestlerFactions + Added(wid, form.Ids(Factions), Factions, faults),
        wrestlerChampionships := db.wrestlerChampionships + Added(wid, form.Ids(Championships), Championships, faults))
  }

  /** Deleting wrestler `wid`'s junction rows of each kind whose delete succeeds. */
  function ClearAll(db: Db, wid: int, faults: Faults): Db {
    db.(wrestlerPromotions := if ClearLinks(Promotions) in faults then db.wrestlerPromotions else Others(db.wrestlerPromotions, wid),
        wrestlerFactions := if ClearLinks(Factions) in faults then db.wrestlerFactions else Others(db.wrestlerFactions, wid),
        wrestlerChampionships := if ClearLinks(Championships) in faults then db.wrestlerChampionships else Others(db.wrestlerChampionships, wid))
  }

  /** The row `createWrestler` inserts: the next id, the name, the image (null when none is sent). */
  function NewWrestlerRow(db: Db, form: WrestlerForm, now: string): WrestlerRow {
    WrestlerRow(db.nextId, form.name, if form.imageUrl.None? then NullImage else ImageUrl(form.imageUrl.value), Some(now), None)
  }

  /**
   * `createWrestler(form)`: insert the row; on error return null; otherwise
   * insert one junction row per listed id (an absent list counts as empty;
   * failed inserts are ignored) and return the new row with its three lists
   * read back.
   */
  function CreateWrestlerSpec(db: Db, form: WrestlerForm, now: string, faults: Faults): (Db, Option<Wrestler>) {
    if WriteRow in faults then (db, None)
    else
      var row := NewWrestlerRow(db, form, now);
      var d := AddAll(db.(wrestlers := db.wrestlers + [row], nextId := db.nextId + 1), row.id, form, faults);
      (d, Some(Queries.Enrich(d, row, Queries.AllKinds, faults)))
  }

  /** The row `cur` after `updateWrestler`: new name, new image unless none is sent, `updated_at` now. */
  function EditedWrestler(cur: WrestlerRow, form: WrestlerForm, now: string): WrestlerRow {
    cur.(name := form.name,
         image := if form.imageUrl.None? then cur.image else ImageUrl(form.imageUrl.value),
         updatedAt := Some(now))
  }

  /**
   * `updateWrestler(form)`: null when the form has no id (or id 0); null
   * when the row update fails or matches nothing; otherwise rewrite the row,
   * delete the wrestler's junction rows of each kind, insert one per
   * submitted id, and return the row with its three lists read back.
   */
  function UpdateWrestlerSpec(db: Db, form: WrestlerForm, now: string, faults: Faults): (Db, Option<Wrestler>) {
    if form.id.None? || form.id.value == 0 then (db, None)
    else if WriteRow in faults then (db, None)
    else
      var id := form.id.value;
      match Seqs.Find(db.wrestlers, (w: WrestlerRow) => w.id == id)
      case None => (db, None)
      case Some(cur) =>
        var row := EditedWrestler(cur, form, now);
        var d0 := db.(wrestlers := Seqs.ReplaceWhere(db.wrestlers, (w: WrestlerRow) => w.id == id, row));
        var d := AddAll(ClearAll(d0, id, faults), id, form, faults);
        (d, Some(Queries.Enrich(d, row, Queries.AllKinds, faults)))
  }

  /* ---------------- helper facts ---------------- */

  lemma {:induction false} SurvivorsAll(ids: seq<int>, k: Kind, faults: Faults, n: nat)
    requires n <= |ids|
    requires forall i: nat :: AddLink(k, i) !in faults
    ensures Survivors(ids, k, faults, n) == ids[..n]
  {
    if n > 0 {
      SurvivorsAll(ids, k, faults, n - 1);
      assert ids[..n] == ids[..n - 1] + [ids[n - 1]];
    }
  }

  lemma AddedAll(wid: int, ids: seq<int>, k: Kind, faults: Faults)
    requires forall i: nat :: AddLink(k, i) !in faults
    ensures Added(wid, ids, k, faults) == LinksFor(wid, ids)
  {
    SurvivorsAll(ids, k, faults, |ids|);
    assert ids[..|ids|] == ids;
  }

  lemma AddAllLinks(db: Db, wid: int, form: WrestlerForm, faults: Faults, k: Kind)
    ensures AddAll(db, wid, form, faults).Links(k) == db.Links(k) + Added(wid, form.Ids(k), k, faults)
    ensures AddAll(db, wid, form, faults).Table(k) == db.Table(k)
  {
  }

  lemma ClearAllLinks(db: Db, wid: int, faults: Faults, k: Kind)
    ensures ClearAll(db, wid, faults).Links(k) == if ClearLinks(k) in faults then db.Links(k) else Others(db.Links(k), wid)
    ensures ClearAll(db, wid, faults).Table(k) == db.Table(k)
  {
  }

  lemma OwnOthersOfLinksFor(wid: int, ids: seq<int>)
    ensures Own(LinksFor(wid, ids), wid) == LinksFor(wid, ids)
    ensures Others(LinksFor(wid, ids), wid) == []
  {
    Seqs.FilterKeepsAll(LinksFor(wid, ids), (l: Link) => l.wrestlerId == wid);
    Seqs.FilterDropsAll(LinksFor(wid, ids), (l: Link) => l.wrestlerId != wid);
  }

  lemma OwnOfOthers(links: seq<Link>, wid: int)
    ensures Own(Others(links, wid), wid) == []
    ensures Others(Others(links, wid), wid) == Others(links, wid)
  {
    var r := Others(links, wid);
    forall i | 0 <= i < |r| ensures r[i].wrestlerId != wid {
      Seqs.FilterMembers(links, (l: Link) => l.wrestlerId != wid, r[i]);
    }
    Seqs.FilterDropsAll(r, (l: Link) => l.wrestlerId == wid);
    Seqs.FilterTwice(links, (l: Link) => l.wrestlerId != wid);
  }

  lemma OwnAppend(a: seq<Link>, b: seq<Link>, wid: int)
    ensures Own(a + b, wid) == Own(a, wid) + Own(b, wid)
    ensures Others(a + b, wid) == Others(a, wid) + Others(b, wid)
  {
    Seqs.FilterAppend(a, b, (l: Link) => l.wrestlerId == wid);
    Seqs.FilterAppend(a, b, (l: Link) => l.wrestlerId != wid);
  }

  lemma OwnOfLinksForOther(wid: int, w: int, ids: seq<int>)
    requires w != wid
    ensures Own(LinksFor(wid, ids), w) == []
    ensures Others(LinksFor(wid, ids), w) == LinksFor(wid, ids)
  {
    Seqs.FilterDropsAll(LinksFor(wid, ids), (l: Link) => l.wrestlerId == w);
    Seqs.FilterKeepsAll(LinksFor(wid, ids), (l: Link) => l.wrestlerId != w);
  }

  /* ---------------- properties of the wrestler writes ---------------- */

  /**
   * `updateWrestler` returns null exactly when the form has no id (or id 0),
   * the row update fails, or no row has the id; and whenever it returns
   * null it has changed nothing.
   */
  lemma UpdateWrestlerNull(db: Db, form: WrestlerForm, now: string, faults: Faults)
    ensures var r := UpdateWrestlerSpec(db, form, now, faults);
      && (r.1.None? <==> form.id.None? || form.id.value == 0 || WriteRow in faults
                         || forall w <- db.wrestlers :: w.id != form.id.value)
      && (r.1.None? ==> r.0 == db)
  {
  }

  /**
   * After a successful `updateWrestler`, each junction table holds: the
   * other wrestlers' rows exactly as before, and for this wrestler the rows
   * that survived (all of them if their delete failed, none otherwise)
   * followed by one row per submitted id whose insert succeeded.
   */
  lemma UpdateWrestlerLinks(db: Db, form: WrestlerForm, now: string, faults: Faults, k: Kind)
    requires UpdateWrestlerSpec(db, form, now, faults).1.Some?
    ensures var d := UpdateWrestlerSpec(db, form, now, faults).0;
      var id := form.id.value;
      && Others(d.Links(k), id) == Others(db.Links(k), id)
      && Own(d.Links(k), id) == (if ClearLinks(k) in faults then Own(db.Links(k), id) else []) + Added(id, form.Ids(k), k, faults)
  {
    var id := form.id.value;
    var cur := Seqs.Find(db.wrestlers, (w: WrestlerRow) => w.id == id).value;
    var d0 := db.(wrestlers := Seqs.ReplaceWhere(db.wrestlers, (w: WrestlerRow) => w.id == id, EditedWrestler(cur, form, now)));
    var c := ClearAll(d0, id, faults);
    AddAllLinks(c, id, form, faults, k);
    ClearAllLinks(d0, id, faults, k);
    var add := Added(id, form.Ids(k), k, faults);
    OwnAppend(c.Links(k), add, id);
    OwnOthersOfLinksFor(id, Survivors(form.Ids(k), k, faults, |form.Ids(k)|));
    OwnOfOthers(db.Links(k), id);
  }

  /** With every request succeeding, the wrestler's rows of each kind are exactly one per submitted id, in order. */
  lemma UpdateWrestlerExact(db: Db, form: WrestlerForm, now: string, faults: Faults, k: Kind)
    requires UpdateWrestlerSpec(db, form, now, faults).1.Some?
    requires ClearLinks(k) !in faults && forall i: nat :: AddLink(k, i) !in faults
    ensures Own(UpdateWrestlerSpec(db, form, now, faults).0.Links(k), form.id.value) == LinksFor(form.id.value, form.Ids(k))
  {
    UpdateWrestlerLinks(db, form, now, faults, k);
    AddedAll(form.id.value, form.Ids(k), k, faults);
  }

  /**
   * Reading a wrestler's entities back after a fault-free update yields
   * exactly the existing entities whose id was submitted.
   */
  lemma UpdateWrestlerReadsBack(db: Db, form: WrestlerForm, now: string, faults: Faults, k: Kind, e: Entity)
    requires UpdateWrestlerSpec(db, form, now, faults).1.Some?
    requires ClearLinks(k) !in faults && forall i: nat :: AddLink(k, i) !in faults
    requires LinkedIds(k, form.id.value) !in faults && LinkedRows(k, form.id.value) !in faults
    ensures var d := UpdateWrestlerSpec(db, form, now, faults).0;
      e in Queries.WrestlerEntities(d, k, form.id.value, faults) <==> e in db.Table(k) && e.id in form.Ids(k)
  {
    var id := form.id.value;
    var d := UpdateWrestlerSpec(db, form, now, faults).0;
    UpdateWrestlerExact(db, form, now, faults, k);
    Queries.WrestlerEntitiesExact(d, k, id, faults, e);
    Seqs.FilterMembers(d.Links(k), (l: Link) => l.wrestlerId == id, Link(id, e.id));
    assert Link(id, e.id) in LinksFor(id, form.Ids(k)) <==> e.id in form.Ids(k) by {
      if e.id in form.Ids(k) {
        var i :| 0 <= i < |form.Ids(k)| && form.Ids(k)[i] == e.id;
        assert LinksFor(id, form.Ids(k))[i] == Link(id, e.id);
      }
    }
    assert d.Table(k) == db.Table(k) by {
      var cur := Seqs.Find(db.wrestlers, (w: WrestlerRow) => w.id == id).value;
      var d0 := db.(wrestlers := Seqs.ReplaceWhere(db.wrestlers, (w: WrestlerRow) => w.id == id, EditedWrestler(cur, form, now)));
      ClearAllLinks(d0, id, faults, k);
      AddAllLinks(ClearAll(d0, id, faults), id, form, faults, k);
    }
  }

  lemma FindReplaced(t: seq<WrestlerRow>, id: int, row: WrestlerRow)
    requires row.id == id && exists i :: 0 <= i < |t| && t[i].id == id
    ensures Seqs.Find(Seqs.ReplaceWhere(t, (w: WrestlerRow) => w.id == id, row), (w: WrestlerRow) => w.id == id) == Some(row)
    ensures Seqs.ReplaceWhere(Seqs.ReplaceWhere(t, (w: WrestlerRow) => w.id == id, row), (w: WrestlerRow) => w.id == id, row)
            == Seqs.ReplaceWhere(t, (w: WrestlerRow) => w.id == id, row)
  {
    var p := (w: WrestlerRow) => w.id == id;
    var u := Seqs.ReplaceWhere(t, p, row);
    var i :| 0 <= i < |t| && t[i].id == id;
    assert u[i] == row;
    var f := Seqs.Find(u, p);
    var j :| 0 <= j < |u| && u[j] == f.value && p(u[j]);
    assert t[j].id == id;
  }

  lemma OthersAfterReplace(links: seq<Link>, id: int, form: WrestlerForm, k: Kind, faults: Faults)
    ensures Others(Others(links, id) + Added(id, form.Ids(k), k, faults), id) == Others(links, id)
  {
    OwnAppend(Others(links, id), Added(id, form.Ids(k), k, faults), id);
    OwnOfOthers(links, id);
    OwnOthersOfLinksFor(id, Survivors(form.Ids(k), k, faults, |form.Ids(k)|));
  }

  /**
   * Saving the same form twice leaves the store, and the returned wrestler,
   * as saving it once did (at the same time stamp), as long as the junction
   * deletes succeed.
   */
  lemma UpdateWrestlerIdempotent(db: Db, form: WrestlerForm, now: string, faults: Faults)
    requires forall k :: ClearLinks(k) !in faults
    ensures var once := UpdateWrestlerSpec(db, form, now, faults);
      UpdateWrestlerSpec(once.0, form, now, faults) == once
  {
    var once := UpdateWrestlerSpec(db, form, now, faults);
    if once.1.Some? {
      var id := form.id.value;
      var p := (w: WrestlerRow) => w.id == id;
      var cur := Seqs.Find(db.wrestlers, p).value;
      var row := EditedWrestler(cur, form, now);
      var j :| 0 <= j < |db.wrestlers| && db.wrestlers[j] == cur && p(db.wrestlers[j]);
      var u := Seqs.ReplaceWhere(db.wrestlers, p, row);
      var d0 := db.(wrestlers := u);
      var d := AddAll(ClearAll(d0, id, faults), id, form, faults);
      assert once == (d, Some(Queries.Enrich(d, row, Queries.AllKinds, faults)));
      FindReplaced(db.wrestlers, id, row);
      assert d.wrestlers == u && Seqs.Find(d.wrestlers, p) == Some(row);
      assert EditedWrestler(row, form, now) == row;
      assert d.(wrestlers := Seqs.ReplaceWhere(d.wrestlers, p, row)) == d;
      RelinkTwice(d0, id, form, faults);
    }
  }

  /** When the junction delete of kind `k` fails, a successful update appends its rows to the old ones. */
  lemma FailedDeleteAppends(db: Db, form: WrestlerForm, now: string, faults: Faults, k: Kind)
    requires UpdateWrestlerSpec(db, form, now, faults).1.Some? && ClearLinks(k) in faults
    ensures var r := UpdateWrestlerSpec(db, form, now, faults);
      && r.0.Links(k) == db.Links(k) + Added(form.id.value, form.Ids(k), k, faults)
      && exists w <- r.0.wrestlers :: w.id == form.id.value
  {
    var id := form.id.value;
    var p := (w: WrestlerRow) => w.id == id;
    var cur := Seqs.Find(db.wrestlers, p).value;
    var row := EditedWrestler(cur, form, now);
    var d0 := db.(wrestlers := Seqs.ReplaceWhere(db.wrestlers, p, row));
    ClearAllLinks(d0, id, faults, k);
    AddAllLinks(ClearAll(d0, id, faults), id, form, faults, k);
    var i :| 0 <= i < |db.wrestlers| && db.wrestlers[i] == cur && p(cur);
    assert d0.wrestlers[i] == row;
  }

  /**
   * Without the idempotence condition the second save differs: when the
   * junction delete of a kind fails, saving the same form again succeeds
   * and appends that kind's rows a second time.
   */
  lemma UpdateTwiceAfterFailedDelete(db: Db, form: WrestlerForm, now: string, faults: Faults, k: Kind)
    requires UpdateWrestlerSpec(db, form, now, faults).1.Some? && ClearLinks(k) in faults
    ensures var once := UpdateWrestlerSpec(db, form, now, faults).0;
      var twice := UpdateWrestlerSpec(once, form, now, faults);
      var added := Added(form.id.value, form.Ids(k), k, faults);
      && once.Links(k) == db.Links(k) + added
      && twice.1.Some?
      && twice.0.Links(k) == db.Links(k) + added + added
      && (added != [] ==> twice.0 != once)
  {
    var once := UpdateWrestlerSpec(db, form, now, faults).0;
    FailedDeleteAppends(db, form, now, faults, k);
    UpdateWrestlerNull(once, form, now, faults);
    FailedDeleteAppends(once, form, now, faults, k);
    var added := Added(form.id.value, form.Ids(k), k, faults);
    if added != [] {
      assert |db.Links(k) + added + added| != |db.Links(k) + added|;
    }
  }

  /** Replacing a wrestler's junction rows a second time with the same lists changes nothing. */
  lemma RelinkTwice(d0: Db, id: int, form: WrestlerForm, faults: Faults)
    requires forall k :: ClearLinks(k) !in faults
    ensures var d := AddAll(ClearAll(d0, id, faults), id, form, faults);
      AddAll(ClearAll(d, id, faults), id, form, faults) == d
  {
    OthersAfterReplace(d0.wrestlerPromotions, id, form, Promotions, faults);
    OthersAfterReplace(d0.wrestlerFactions, id, form, Factions, faults);
    OthersAfterReplace(d0.wrestlerChampionships, id, form, Championships, faults);
  }

  /** `createWrestler` returns null exactly when the insert fails, and then changes nothing. */
  lemma CreateWrestlerNull(db: Db, form: WrestlerForm, now: string, faults: Faults)
    ensures var r := CreateWrestlerSpec(db, form, now, faults);
      && (r.1.None? <==> WriteRow in faults)
      && (r.1.None? ==> r.0 == db)
  {
  }

  /**
   * On a valid store a successful `createWrestler` keeps every existing
   * junction row, and the new wrestler owns exactly one row per listed id
   * whose insert succeeded (one per listed id when none fails).
   */
  lemma CreateWrestlerLinks(db: Db, form: WrestlerForm, now: string, faults: Faults, k: Kind)
    requires db.Valid() && WriteRow !in faults
    ensures var r := CreateWrestlerSpec(db, form, now, faults);
      && r.1.Some? && r.1.value.row.id == db.nextId
      && r.0.Links(k) == db.Links(k) + Added(db.nextId, form.Ids(k), k, faults)
      && Own(r.0.Links(k), db.nextId) == Added(db.nextId, form.Ids(k), k, faults)
      && ((forall i: nat :: AddLink(k, i) !in faults) ==> Own(r.0.Links(k), db.nextId) == LinksFor(db.nextId, form.Ids(k)))
  {
    var id := db.nextId;
    var row := NewWrestlerRow(db, form, now);
    var d1 := db.(wrestlers := db.wrestlers + [row], nextId := db.nextId + 1);
    AddAllLinks(d1, id, form, faults, k);
    ValidTable(db, k);
    forall i | 0 <= i < |db.Links(k)| ensures db.Links(k)[i].wrestlerId != id {
      assert db.Links(k)[i] in db.Links(k);
    }
    Seqs.FilterDropsAll(db.Links(k), (l: Link) => l.wrestlerId == id);
    OwnAppend(db.Links(k), Added(id, form.Ids(k), k, faults), id);
    OwnOthersOfLinksFor(id, Survivors(form.Ids(k), k, faults, |form.Ids(k)|));
    if forall i: nat :: AddLink(k, i) !in faults {
      AddedAll(id, form.Ids(k), k, faults);
    }
  }

  /* ---------------- properties of deletes ---------------- */

  /**
   * A delete returns false exactly when the store reports an error; it
   * removes from its own table exactly the rows with that id, and no other
   * table, junction tables included, changes.
   */
  lemma DeleteEntitySpec(db: Db, k: Kind, id: int, faults: Faults, e: Entity)
    ensures var r := DeleteSpec(db, EntityTable(k), id, faults);
      && (!r.1 <==> DeleteRow in faults)
      && (e in r.0.Table(k) <==> e in db.Table(k) && (r.1 ==> e.id != id))
      && (forall j :: j != k ==> r.0.Table(j) == db.Table(j))
      && (forall j :: r.0.Links(j) == db.Links(j))
      && r.0.wrestlers == db.wrestlers
  {
    Seqs.FilterMembers(db.Table(k), (x: Entity) => x.id != id, e);
  }

  /**
   * Deletes do not cascade: a deleted promotion, faction or championship
   * keeps its junction rows, yet no later lookup of any wrestler returns it.
   */
  lemma DeletedEntityNeverReturned(db: Db, k: Kind, id: int, faults: Faults, later: Faults, wid: int)
    requires DeleteRow !in faults
    ensures var d := DeleteSpec(db, EntityTable(k), id, faults).0;
      && d.Links(k) == db.Links(k)
      && forall e <- Queries.WrestlerEntities(d, k, wid, later) :: e.id != id
  {
    var d := DeleteSpec(db, EntityTable(k), id, faults).0;
    forall e <- Queries.WrestlerEntities(d, k, wid, later) ensures e.id != id {
      Seqs.FilterMembers(db.Table(k), (x: Entity) => x.id != id, e);
    }
  }

  /**
   * Once a junction row is orphaned the count and the wrestlers whose lookup
   * returns the entity disagree: after the only wrestler of a promotion is
   * deleted, its junction row is still counted.
   */
  lemma OrphanedRowIsCounted()
    ensures var p := Entity(1, "P", NullImage, None, None);
      var db := Db([WrestlerRow(2, "W", NullImage, None, None)], [p], [], [], [Link(2, 1)], [], [], true, true, 3);
      var d := DeleteSpec(db, WrestlerTable, 2, map[]).0;
      && db.Valid() && d.Valid() && d.wrestlers == []
      && Queries.CountFor(d, Promotions, p, map[]) == 1
  {
    var p := Entity(1, "P", NullImage, None, None);
    var w := WrestlerRow(2, "W", NullImage, None, None);
    var one := [Link(2, 1)];
    var db := Db([w], [p], [], [], one, [], [], true, true, 3);
    assert Seqs.Filter(one, (l: Link) => l.entityId == 1) == one;
    assert Seqs.Filter([w], (x: WrestlerRow) => x.id != 2) == [];
    var d := db.(wrestlers := []);
    assert DeleteSpec(db, WrestlerTable, 2, map[]).0 == d;
    assert WrestlersValid([w], 3) && WrestlersValid([], 3);
    assert EntitiesValid([p], true, 3) && EntitiesValid([], true, 3) && EntitiesValid([], false, 3);
    assert LinksBelow(one, 3) && LinksBelow([], 3);
  }

  /** A junction row inserted twice is counted twice, although one wrestler holds the promotion. */
  lemma RepeatedRowIsCounted()
    ensures var p := Entity(1, "P", NullImage, None, None);
      var w := WrestlerRow(2, "W", NullImage, None, None);
      var db := Db([w], [p], [], [], [Link(2, 1), Link(2, 1)], [], [], true, true, 3);
      && db.Valid()
      && Queries.CountFor(db, Promotions, p, map[]) == 2
      && Seqs.Filter(db.wrestlers, (x: WrestlerRow) => p in Queries.WrestlerEntities(db, Promotions, x.id, map[])) == [w]
  {
    var p := Entity(1, "P", NullImage, None, None);
    var w := WrestlerRow(2, "W", NullImage, None, None);
    var one := [Link(2, 1)];
    var two := [Link(2, 1), Link(2, 1)];
    assert two[1..] == one;
    assert Seqs.Filter(one, (l: Link) => l.entityId == 1) == one;
    assert Seqs.Filter(two, (l: Link) => l.entityId == 1) == two;
    var db := Db([w], [p], [], [], two, [], [], true, true, 3);
    assert Queries.EntityIdsOf(two, 2) == [1, 1];
    assert Queries.WrestlerEntities(db, Promotions, 2, map[]) == [p];
  }

  lemma DeleteWrestlerSpec(db: Db, id: int, faults: Faults, w: WrestlerRow)
    ensures var r := DeleteSpec(db, WrestlerTable, id, faults);
      && (!r.1 <==> DeleteRow in faults)
      && (w in r.0.wrestlers <==> w in db.wrestlers && (r.1 ==> w.id != id))
      && (forall j :: r.0.Table(j) == db.Table(j))
      && (forall j :: r.0.Links(j) == db.Links(j))
  {
    Seqs.FilterMembers(db.wrestlers, (x: WrestlerRow) => x.id != id, w);
  }

  /* ---------------- properties of the entity writes ---------------- */

  /**
   * A promotion created without a thrown exception gets the image only when
   * the URL is truthy (null otherwise); if the table lacks the column and an
   * image is sent, the store's error makes the call return null and nothing changes.
   */
  lemma CreatePromotionImage(db: Db, name: string, imageUrl: Option<string>, now: string, faults: Faults)
    requires WriteRow !in faults
    ensures var r := CreatePromotionSpec(db, name, imageUrl, false, now, faults);
      && (db.promotionImages ==>
            && r.1.Some? && r.1.value.name == name && r.1.value.id == db.nextId
            && r.1.value.image == (if imageUrl.Some? && imageUrl.value != "" then ImageUrl(imageUrl.value) else NullImage)
            && r.0.promotions == db.promotions + [r.1.value])
      && (!db.promotionImages ==>
            (r.1.None? <==> imageUrl.Some? && imageUrl.value != "")
            && (r.1.None? ==> r.0 == db)
            && (r.1.Some? ==> r.1.value.image == NoColumn))
  {
  }

  /** When the first request throws, `createPromotion` and `createFaction` insert the name alone. */
  lemma CreateThrownIsNameOnly(db: Db, name: string, imageUrl: Option<string>, now: string, faults: Faults)
    requires RetryRow !in faults
    ensures var p := CreatePromotionSpec(db, name, imageUrl, true, now, faults);
      && p.1.Some? && p.1.value.name == name && !p.1.value.image.ImageUrl?
      && p.1.value.id == db.nextId
      && p.0 == db.WithTable(Promotions, db.promotions + [p.1.value]).(nextId := db.nextId + 1)
    ensures var f := CreateFactionSpec(db, name, imageUrl, true, now, faults);
      && f.1.Some? && f.1.value.name == name && !f.1.value.image.ImageUrl?
      && f.1.value.id == db.nextId
      && f.0 == db.WithTable(Factions, db.factions + [f.1.value]).(nextId := db.nextId + 1)
  {
  }

  /** An update that reaches an existing row rewrites exactly the rows with that id, and answers the first. */
  lemma StoreUpdateFound(db: Db, k: Kind, id: int, name: string, sent: Option<string>, stamp: bool, now: string,
                         req: Request, faults: Faults)
    requires req !in faults && (sent.None? || db.ImageColumn(k))
    requires exists e <- db.Table(k) :: e.id == id
    ensures var cur := Seqs.Find(db.Table(k), (e: Entity) => e.id == id).value;
      var r := StoreUpdate(db, k, id, name, sent, stamp, now, req, faults);
      && cur in db.Table(k) && cur.id == id
      && r.1 == Row(Edited(cur, name, sent, stamp, now))
      && r.0 == db.WithTable(k, Seqs.ReplaceWhere(db.Table(k), (e: Entity) => e.id == id, r.1.entity))
      && r.1.entity in r.0.Table(k)
      && forall x <- r.0.Table(k) :: x.id != id ==> x in db.Table(k)
  {
    var t := db.Table(k);
    var f := Seqs.Find(t, (e: Entity) => e.id == id);
    var j :| 0 <= j < |t| && t[j] == f.value && f.value.id == id;
    var e := Edited(f.value, name, sent, stamp, now);
    var t' := Seqs.ReplaceWhere(t, (x: Entity) => x.id == id, e);
    assert StoreUpdate(db, k, id, name, sent, stamp, now, req, faults) == (db.WithTable(k, t'), Row(e));
    assert t'[j] == e;
    ReplaceKeepsOthers(t, id, e);
  }

  /** Replacing the rows with id `id` leaves every row with another id one of the old rows. */
  lemma ReplaceKeepsOthers(t: seq<Entity>, id: int, e: Entity)
    requires e.id == id
    ensures forall x <- Seqs.ReplaceWhere(t, (x: Entity) => x.id == id, e) :: x.id != id ==> x in t
  {
    var u := Seqs.ReplaceWhere(t, (x: Entity) => x.id == id, e);
    forall x <- u | x.id != id ensures x in t {
      var i :| 0 <= i < |u| && u[i] == x;
      assert x == t[i];
    }
  }

  /**
   * `updatePromotion` and `updateFaction` send the image whenever it is not
   * undefined, so `""` clears it; an undefined image keeps the old one. The
   * name is set and `updated_at` becomes the current time.
   */
  lemma UpdateEntityImage(db: Db, k: Kind, id: int, name: string, imageUrl: Option<string>, now: string, faults: Faults)
    requires k != Championships && db.ImageColumn(k) && WriteRow !in faults
    requires exists e <- db.Table(k) :: e.id == id
    ensures var r := if k == Promotions then UpdatePromotionSpec(db, id, name, imageUrl, false, now, faults)
                     else UpdateFactionSpec(db, id, name, imageUrl, false, now, faults);
      var cur := Seqs.Find(db.Table(k), (e: Entity) => e.id == id).value;
      && r.1 == Some(cur.(name := name, image := if imageUrl.Some? then ImageUrl(imageUrl.value) else cur.image, updatedAt := Some(now)))
      && cur in db.Table(k) && cur.id == id
      && (imageUrl == Some("") ==> !r.1.value.image.Truthy())
      && r.0 == db.WithTable(k, Seqs.ReplaceWhere(db.Table(k), (e: Entity) => e.id == id, r.1.value))
      && r.1.value in r.0.Table(k)
      && (forall x <- r.0.Table(k) :: x.id != id ==> x in db.Table(k))
  {
    StoreUpdateFound(db, k, id, name, imageUrl, true, now, WriteRow, faults);
    var o := StoreUpdate(db, k, id, name, imageUrl, true, now, WriteRow, faults);
    if k == Promotions {
      assert UpdatePromotionSpec(db, id, name, imageUrl, false, now, faults) == (o.0, Answer(o.1));
    } else {
      assert UpdateFactionSpec(db, id, name, imageUrl, false, now, faults) == (o.0, Some(o.1.entity));
    }
  }

  /** When the update request throws, the fallback sets the name only: image and `updated_at` stay. */
  lemma UpdateThrownIsNameOnly(db: Db, k: Kind, id: int, name: string, imageUrl: Option<string>, now: string, faults: Faults)
    requires k != Championships && RetryRow !in faults
    ensures var r := if k == Promotions then UpdatePromotionSpec(db, id, name, imageUrl, true, now, faults)
                     else UpdateFactionSpec(db, id, name, imageUrl, true, now, faults);
      var cur := Seqs.Find(db.Table(k), (e: Entity) => e.id == id);
      && (r.1.Some? <==> cur.Some?)
      && (r.1.Some? ==> r.1.value == cur.value.(name := name))
      && (r.1.None? ==> r.0 == db)
      && (r.1.Some? ==> r.0 == db.WithTable(k, Seqs.ReplaceWhere(db.Table(k), (e: Entity) => e.id == id, r.1.value))
                        && r.1.value in r.0.Table(k))
  {
    if exists e <- db.Table(k) :: e.id == id {
      StoreUpdateFound(db, k, id, name, None, false, now, RetryRow, faults);
    }
  }

  /**
   * A faction write whose first error mentions "image_url" is retried once
   * with the name only: the result is exactly that retry's. Any other error
   * returns null and changes nothing.
   */
  lemma FactionRetry(db: Db, id: int, name: string, imageUrl: Option<string>, now: string, faults: Faults)
    requires WriteRow in faults
    ensures var c := CreateFactionSpec(db, name, imageUrl, false, now, faults);
      var retry := StoreInsert(db, Factions, name, None, now, RetryRow, faults);
      if Text.Contains(faults[WriteRow], "image_url") then c == (retry.0, Answer(retry.1)) else c == (db, None)
    ensures var u := UpdateFactionSpec(db, id, name, imageUrl, false, now, faults);
      var retry := StoreUpdate(db, Factions, id, name, None, false, now, RetryRow, faults);
      if Text.Contains(faults[WriteRow], "image_url") then u == (retry.0, Answer(retry.1)) else u == (db, None)
  {
  }

  /**
   * Sending a truthy image to a factions table without the column draws the
   * missing-column error, which mentions "image_url", so the name-only
   * retry saves the faction without an image.
   */
  lemma FactionWithoutColumn(db: Db, name: string, url: string, now: string, faults: Faults)
    requires !db.factionImages && url != "" && WriteRow !in faults && RetryRow !in faults
    ensures var r := CreateFactionSpec(db, name, Some(url), false, now, faults);
      && r.1.Some? && r.1.value.name == name && r.1.value.image == NoColumn
      && r.0.factions == db.factions + [r.1.value]
  {
  }

  /** Promotions, unlike factions, are not retried: the missing-column error returns null. */
  lemma PromotionWithoutColumn(db: Db, name: string, url: string, now: string, faults: Faults)
    requires !db.promotionImages && url != "" && WriteRow !in faults
    ensures CreatePromotionSpec(db, name, Some(url), false, now, faults) == (db, None)
  {
  }

  /** A championship is saved with its name and no image; an update also stamps `updated_at`. */
  lemma ChampionshipWrites(db: Db, id: int, name: string, now: string, faults: Faults)
    requires WriteRow !in faults
    ensures var c := CreateChampionshipSpec(db, name, now, faults);
      && c.1.Some? && c.1.value.name == name && c.1.value.image == NoColumn
      && c.0.championships == db.championships + [c.1.value]
    ensures var u := UpdateChampionshipSpec(db, id, name, now, faults);
      && (u.1.Some? <==> exists e <- db.championships :: e.id == id)
      && (u.1.Some? ==> u.1.value.name == name && u.1.value.id == id && u.1.value.updatedAt == Some(now))
  {
    var u := UpdateChampionshipSpec(db, id, name, now, faults);
    if u.1.Some? {
      var f := Seqs.Find(db.championships, (e: Entity) => e.id == id);
      var j :| 0 <= j < |db.championships| && db.championships[j] == f.value && f.value.id == id;
    }
  }

  /** Every promotion write either returns its row or returns null having changed nothing. */
  lemma FailedPromotionWritesChangeNothing(db: Db, id: int, name: string, imageUrl: Option<string>, threw: bool, now: string, faults: Faults)
    ensures var c := CreatePromotionSpec(db, name, imageUrl, threw, now, faults); c.1.None? ==> c.0 == db
    ensures var u := UpdatePromotionSpec(db, id, name, imageUrl, threw, now, faults); u.1.None? ==> u.0 == db
  {
  }

  /** Every faction write, retry included, either returns its row or returns null having changed nothing. */
  lemma FailedFactionWritesChangeNothing(db: Db, id: int, name: string, imageUrl: Option<string>, threw: bool, now: string, faults: Faults)
    ensures var c := CreateFactionSpec(db, name, imageUrl, threw, now, faults); c.1.None? ==> c.0 == db
    ensures var u := UpdateFactionSpec(db, id, name, imageUrl, threw, now, faults); u.1.None? ==> u.0 == db
  {
    if !threw {
      var o := StoreInsert(db, Factions, name, TruthyImage(imageUrl), now, WriteRow, faults);
      assert o.1.Failed? ==> o.0 == db;
      var v := StoreUpdate(db, Factions, id, name, imageUrl, true, now, WriteRow, faults);
      assert v.1.Failed? ==> v.0 == db;
    }
  }

  /** Every championship write either returns its row or returns null having changed nothing. */
  lemma FailedChampionshipWritesChangeNothing(db: Db, id: int, name: string, now: string, faults: Faults)
    ensures var c := CreateChampionshipSpec(db, name, now, faults); c.1.None? ==> c.0 == db
    ensures var u := UpdateChampionshipSpec(db, id, name, now, faults); u.1.None? ==> u.0 == db
  {
  }

  /* ---------------- writes that send no image ---------------- */

  /** `u` is `t` with every row's image as it was, followed by rows without an image. */
  predicate KeepsImages(t: seq<Entity>, u: seq<Entity>) {
    && |t| <= |u|
    && (forall i :: 0 <= i < |t| ==> u[i].image == t[i].image)
    && forall i :: |t| <= i < |u| ==> !u[i].image.Truthy()
  }

  lemma StoreUpdateKeepsImages(db: Db, k: Kind, id: int, name: string, stamp: bool, now: string, req: Request, faults: Faults)
    requires UniqueIds(db.Table(k))
    ensures KeepsImages(db.Table(k), StoreUpdate(db, k, id, name, None, stamp, now, req, faults).0.Table(k))
  {
    var t := db.Table(k);
    var r := StoreUpdate(db, k, id, name, None, stamp, now, req, faults);
    if r.1.Row? {
      var f := Seqs.Find(t, (e: Entity) => e.id == id);
      var j :| 0 <= j < |t| && t[j] == f.value && f.value.id == id;
      var e := Edited(f.value, name, None, stamp, now);
      var u := Seqs.ReplaceWhere(t, (x: Entity) => x.id == id, e);
      assert r.0.Table(k) == u;
      forall i | 0 <= i < |t| ensures u[i].image == t[i].image {
        if t[i].id == id {
          assert i == j;
        }
      }
    }
  }

  lemma StoreInsertKeepsImages(db: Db, k: Kind, name: string, now: string, req: Request, faults: Faults)
    ensures KeepsImages(db.Table(k), StoreInsert(db, k, name, None, now, req, faults).0.Table(k))
  {
  }

  /**
   * A promotion or faction insert that is given no image, retries and
   * thrown first requests included, keeps every stored image of its table
   * and adds only a row without one.
   */
  lemma NoImageCreatesKeepImages(db: Db, k: Kind, name: string, threw: bool, now: string, faults: Faults)
    requires k != Championships
    ensures KeepsImages(db.Table(k), (if k == Promotions then CreatePromotionSpec(db, name, None, threw, now, faults)
                                      else CreateFactionSpec(db, name, None, threw, now, faults)).0.Table(k))
  {
    assert TruthyImage(None) == None;
    StoreInsertKeepsImages(db, k, name, now, WriteRow, faults);
    StoreInsertKeepsImages(db, k, name, now, RetryRow, faults);
  }

  /** The same for an update given no image: every row keeps its image. */
  lemma NoImageUpdatesKeepImages(db: Db, k: Kind, id: int, name: string, threw: bool, now: string, faults: Faults)
    requires k != Championships && UniqueIds(db.Table(k))
    ensures KeepsImages(db.Table(k), (if k == Promotions then UpdatePromotionSpec(db, id, name, None, threw, now, faults)
                                      else UpdateFactionSpec(db, id, name, None, threw, now, faults)).0.Table(k))
  {
    StoreUpdateKeepsImages(db, k, id, name, true, now, WriteRow, faults);
    StoreUpdateKeepsImages(db, k, id, name, false, now, RetryRow, faults);
  }

  /* ---------------- every write keeps the store valid ---------------- */

  lemma AppendEntityValid(t: seq<Entity>, column: bool, next: int, e: Entity)
    requires EntitiesValid(t, column, next) && e.id == next && e.image.HasKey() == column
    ensures EntitiesValid(t + [e], column, next + 1)
  {
    var u := t + [e];
    forall i, j | 0 <= i < j < |u| ensures u[i].id != u[j].id {
      if j == |t| {
        assert u[i] == t[i];
      } else {
        assert u[i] == t[i] && u[j] == t[j];
      }
    }
  }

  lemma ReplaceEntityValid(t: seq<Entity>, column: bool, next: int, id: int, e: Entity)
    requires EntitiesValid(t, column, next) && e.id == id && e.image.HasKey() == column
    requires exists x <- t :: x.id == id
    ensures EntitiesValid(Seqs.ReplaceWhere(t, (x: Entity) => x.id == id, e), column, next)
  {
    var u := Seqs.ReplaceWhere(t, (x: Entity) => x.id == id, e);
    forall i, j | 0 <= i < j < |u| ensures u[i].id != u[j].id {
      assert u[i].id == t[i].id && u[j].id == t[j].id;
    }
    forall i | 0 <= i < |u| ensures u[i].id < next {
      assert u[i].id == t[i].id;
    }
  }

  lemma FilterEntityValid(t: seq<Entity>, column: bool, next: int, p: Entity -> bool)
    requires EntitiesValid(t, column, next)
    ensures EntitiesValid(Seqs.Filter(t, p), column, next)
  {
    Queries.FilterKeepsUniqueIds(t, p);
    var u := Seqs.Filter(t, p);
    forall i | 0 <= i < |u| ensures u[i].id < next && u[i].image.HasKey() == column {
      Seqs.FilterMembers(t, p, u[i]);
    }
  }

  lemma LinksBelowGrow(links: seq<Link>, next: int, more: int)
    requires LinksBelow(links, next) && next <= more
    ensures LinksBelow(links, more)
  {
  }

  lemma LinksBelowFilter(links: seq<Link>, next: int, p: Link -> bool)
    requires LinksBelow(links, next)
    ensures LinksBelow(Seqs.Filter(links, p), next)
  {
    forall l <- Seqs.Filter(links, p) ensures l.wrestlerId < next {
      Seqs.FilterMembers(links, p, l);
    }
  }

  lemma StoreInsertValid(db: Db, k: Kind, name: string, sent: Option<string>, now: string, req: Request, faults: Faults)
    requires db.Valid()
    ensures StoreInsert(db, k, name, sent, now, req, faults).0.Valid()
  {
    var r := StoreInsert(db, k, name, sent, now, req, faults);
    if r.1.Row? {
      var n := db.nextId + 1;
      var t := db.Table(k) + [r.1.entity];
      assert r.0 == db.WithTable(k, t).(nextId := n);
      ValidTable(db, k);
      AppendEntityValid(db.Table(k), db.ImageColumn(k), db.nextId, r.1.entity);
      WrestlersValidGrow(db.wrestlers, db.nextId, n);
      LinksBelowGrow(db.wrestlerPromotions, db.nextId, n);
      LinksBelowGrow(db.wrestlerFactions, db.nextId, n);
      LinksBelowGrow(db.wrestlerChampionships, db.nextId, n);
      match k
      case Promotions =>
        EntitiesValidGrow(db.factions, db.factionImages, db.nextId, n);
        EntitiesValidGrow(db.championships, false, db.nextId, n);
      case Factions =>
        EntitiesValidGrow(db.promotions, db.promotionImages, db.nextId, n);
        EntitiesValidGrow(db.championships, false, db.nextId, n);
      case Championships =>
        EntitiesValidGrow(db.promotions, db.promotionImages, db.nextId, n);
        EntitiesValidGrow(db.factions, db.factionImages, db.nextId, n);
    }
  }

  lemma EntitiesValidGrow(t: seq<Entity>, column: bool, next: int, more: int)
    requires EntitiesValid(t, column, next) && next <= more
    ensures EntitiesValid(t, column, more)
  {
  }

  lemma WrestlersValidGrow(t: seq<WrestlerRow>, next: int, more: int)
    requires WrestlersValid(t, next) && next <= more
    ensures WrestlersValid(t, more)
  {
  }

  lemma StoreUpdateValid(db: Db, k: Kind, id: int, name: string, sent: Option<string>, stamp: bool, now: string,
                         req: Request, faults: Faults)
    requires db.Valid()
    ensures StoreUpdate(db, k, id, name, sent, stamp, now, req, faults).0.Valid()
  {
    var r := StoreUpdate(db, k, id, name, sent, stamp, now, req, faults);
    if r.1.Row? {
      ValidTable(db, k);
      var f := Seqs.Find(db.Table(k), (e: Entity) => e.id == id);
      var j :| 0 <= j < |db.Table(k)| && db.Table(k)[j] == f.value && f.value.id == id;
      assert db.Table(k)[j].image.HasKey() == db.ImageColumn(k);
      ReplaceEntityValid(db.Table(k), db.ImageColumn(k), db.nextId, id, r.1.entity);
    }
  }

  /** Promotion writes keep the store valid. */
  lemma PromotionWritesValid(db: Db, id: int, name: string, imageUrl: Option<string>, threw: bool, now: string, faults: Faults)
    requires db.Valid()
    ensures CreatePromotionSpec(db, name, imageUrl, threw, now, faults).0.Valid()
    ensures UpdatePromotionSpec(db, id, name, imageUrl, threw, now, faults).0.Valid()
  {
    StoreInsertValid(db, Promotions, name, None, now, RetryRow, faults);
    StoreInsertValid(db, Promotions, name, TruthyImage(imageUrl), now, WriteRow, faults);
    StoreUpdateValid(db, Promotions, id, name, None, false, now, RetryRow, faults);
    StoreUpdateValid(db, Promotions, id, name, imageUrl, true, now, WriteRow, faults);
  }

  /** Faction writes, retry included, keep the store valid. */
  lemma FactionWritesValid(db: Db, id: int, name: string, imageUrl: Option<string>, threw: bool, now: string, faults: Faults)
    requires db.Valid()
    ensures CreateFactionSpec(db, name, imageUrl, threw, now, faults).0.Valid()
    ensures UpdateFactionSpec(db, id, name, imageUrl, threw, now, faults).0.Valid()
  {
    StoreInsertValid(db, Factions, name, None, now, RetryRow, faults);
    StoreInsertValid(db, Factions, name, TruthyImage(imageUrl), now, WriteRow, faults);
    StoreUpdateValid(db, Factions, id, name, None, false, now, RetryRow, faults);
    StoreUpdateValid(db, Factions, id, name, imageUrl, true, now, WriteRow, faults);
    if !threw {
      var o := StoreInsert(db, Factions, name, TruthyImage(imageUrl), now, WriteRow, faults);
      assert o.1.Failed? ==> o.0 == db;
      var v := StoreUpdate(db, Factions, id, name, imageUrl, true, now, WriteRow, faults);
      assert v.1.Failed? ==> v.0 == db;
    }
  }

  /** Championship writes keep the store valid. */
  lemma ChampionshipWritesValid(db: Db, id: int, name: string, now: string, faults: Faults)
    requires db.Valid()
    ensures CreateChampionshipSpec(db, name, now, faults).0.Valid()
    ensures UpdateChampionshipSpec(db, id, name, now, faults).0.Valid()
  {
    StoreInsertValid(db, Championships, name, None, now, WriteRow, faults);
    StoreUpdateValid(db, Championships, id, name, None, true, now, WriteRow, faults);
  }

  /** Deletes keep the store valid (junction rows may now name deleted rows, which the invariant allows). */
  lemma DeleteValid(db: Db, t: TableName, id: int, faults: Faults)
    requires db.Valid()
    ensures DeleteSpec(db, t, id, faults).0.Valid()
  {
    if DeleteRow !in faults {
      match t
      case WrestlerTable =>
        var u := Seqs.Filter(db.wrestlers, (w: WrestlerRow) => w.id != id);
        WrestlerFilterUnique(db.wrestlers, (w: WrestlerRow) => w.id != id);
        forall i | 0 <= i < |u| ensures u[i].id < db.nextId && u[i].image.HasKey() {
          Seqs.FilterMembers(db.wrestlers, (w: WrestlerRow) => w.id != id, u[i]);
        }
      case EntityTable(k) =>
        ValidTable(db, k);
        FilterEntityValid(db.Table(k), db.ImageColumn(k), db.nextId, (e: Entity) => e.id != id);
    }
  }

  lemma {:induction false} WrestlerFilterUnique(t: seq<WrestlerRow>, p: WrestlerRow -> bool)
    requires UniqueWrestlerIds(t)
    ensures UniqueWrestlerIds(Seqs.Filter(t, p))
  {
    if t != [] {
      assert UniqueWrestlerIds(t[1..]) by {
        forall i, j | 0 <= i < j < |t[1..]| ensures t[1..][i].id != t[1..][j].id {
          assert t[1..][i] == t[i + 1] && t[1..][j] == t[j + 1];
        }
      }
      WrestlerFilterUnique(t[1..], p);
      var rest := Seqs.Filter(t[1..], p);
      forall w <- rest ensures w.id != t[0].id {
        Seqs.FilterMembers(t[1..], p, w);
        var j :| 0 <= j < |t[1..]| && t[1..][j] == w;
        assert t[j + 1] == w;
      }
      if p(t[0]) {
        var r := [t[0]] + rest;
        forall i, j | 0 <= i < j < |r| ensures r[i].id != r[j].id {
          if i == 0 {
            assert r[j] == rest[j - 1] && r[j] in rest;
          } else {
            assert r[i] == rest[i - 1] && r[j] == rest[j - 1];
          }
        }
      }
    }
  }

  lemma AddAllValid(db: Db, wid: int, form: WrestlerForm, faults: Faults)
    requires db.Valid() && wid < db.nextId
    ensures AddAll(db, wid, form, faults).Valid()
  {
    var d := AddAll(db, wid, form, faults);
    forall k ensures LinksBelow(d.Links(k), d.nextId) {
      ValidTable(db, k);
      AddAllLinks(db, wid, form, faults, k);
    }
    assert LinksBelow(d.wrestlerPromotions, d.nextId) by { assert d.wrestlerPromotions == d.Links(Promotions); }
    assert LinksBelow(d.wrestlerFactions, d.nextId) by { assert d.wrestlerFactions == d.Links(Factions); }
    assert LinksBelow(d.wrestlerChampionships, d.nextId) by { assert d.wrestlerChampionships == d.Links(Championships); }
  }

  lemma ClearAllValid(db: Db, wid: int, faults: Faults)
    requires db.Valid()
    ensures ClearAll(db, wid, faults).Valid()
  {
    LinksBelowFilter(db.wrestlerPromotions, db.nextId, (l: Link) => l.wrestlerId != wid);
    LinksBelowFilter(db.wrestlerFactions, db.nextId, (l: Link) => l.wrestlerId != wid);
    LinksBelowFilter(db.wrestlerChampionships, db.nextId, (l: Link) => l.wrestlerId != wid);
  }

  /** `createWrestler` keeps the store valid. */
  lemma AppendWrestlerValid(t: seq<WrestlerRow>, next: int, row: WrestlerRow)
    requires WrestlersValid(t, next) && row.id == next && row.image.HasKey()
    ensures WrestlersValid(t + [row], next + 1)
  {
    var u := t + [row];
    forall i, j | 0 <= i < j < |u| ensures u[i].id != u[j].id {
      if j == |t| {
        assert u[i] == t[i];
      } else {
        assert u[i] == t[i] && u[j] == t[j];
      }
    }
  }

  lemma CreateWrestlerValid(db: Db, form: WrestlerForm, now: string, faults: Faults)
    requires db.Valid()
    ensures CreateWrestlerSpec(db, form, now, faults).0.Valid()
  {
    if WriteRow !in faults {
      var row := NewWrestlerRow(db, form, now);
      var d1 := db.(wrestlers := db.wrestlers + [row], nextId := db.nextId + 1);
      assert d1.Valid() by {
        AppendWrestlerValid(db.wrestlers, db.nextId, row);
        forall k ensures EntitiesValid(d1.Table(k), d1.ImageColumn(k), d1.nextId) {
          ValidTable(db, k);
        }
        assert EntitiesValid(d1.championships, false, d1.nextId) by { assert d1.championships == d1.Table(Championships); }
      }
      AddAllValid(d1, row.id, form, faults);
    }
  }

  /** `updateWrestler` keeps the store valid. */
  lemma ReplaceWrestlerValid(t: seq<WrestlerRow>, next: int, id: int, row: WrestlerRow)
    requires WrestlersValid(t, next) && row.id == id && row.image.HasKey()
    ensures WrestlersValid(Seqs.ReplaceWhere(t, (w: WrestlerRow) => w.id == id, row), next)
  {
    var u := Seqs.ReplaceWhere(t, (w: WrestlerRow) => w.id == id, row);
    forall i, j | 0 <= i < j < |u| ensures u[i].id != u[j].id {
      assert u[i].id == t[i].id && u[j].id == t[j].id;
    }
    forall i | 0 <= i < |u| ensures u[i].id < next && u[i].image.HasKey() {
      assert u[i].id == t[i].id;
    }
  }

  lemma UpdateWrestlerValid(db: Db, form: WrestlerForm, now: string, faults: Faults)
    requires db.Valid()
    ensures UpdateWrestlerSpec(db, form, now, faults).0.Valid()
  {
    var u := UpdateWrestlerSpec(db, form, now, faults);
    if u.1.Some? {
      var id := form.id.value;
      var p := (w: WrestlerRow) => w.id == id;
      var cur := Seqs.Find(db.wrestlers, p).value;
      var j :| 0 <= j < |db.wrestlers| && db.wrestlers[j] == cur && p(db.wrestlers[j]);
      var row := EditedWrestler(cur, form, now);
      var d0 := db.(wrestlers := Seqs.ReplaceWhere(db.wrestlers, p, row));
      assert db.wrestlers[j].image.HasKey();
      ReplaceWrestlerValid(db.wrestlers, db.nextId, id, row);
      ClearAllValid(d0, id, faults);
      AddAllValid(ClearAll(d0, id, faults), id, form, faults);
    }
  }
}
