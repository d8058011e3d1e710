/**
 * The data layer as the application drives it: a store object whose tables
 * the write operations change one request at a time. Each method's new state
 * and result are those of the matching function in `Writes`, where their
 * properties are proved; the read operations are the functions in `Queries`
 * applied to `State()`.
 */
module Database {
  import opened Wrappers
  import opened Records
  import opened Schema
  import Seqs
  import Text
  import Queries
  import Writes

  class Store {
    var wrestlers: seq<WrestlerRow>
    var promotions: seq<Entity>
    var factions: seq<Entity>
    var championships: seq<Entity>
    var wrestlerPromotions: seq<Link>
    var wrestlerFactions: seq<Link>
    var wrestlerChampionships: seq<Link>
    var promotionImages: bool
    var factionImages: bool
    var nextId: int

    /** The tables as one value. */
    function State(): Db
      reads this
    {
      Db(wrestlers, promotions, factions, championships,
         wrestlerPromotions, wrestlerFactions, wrestlerChampionships,
         promotionImages, factionImages, nextId)
    }

    constructor (initial: Db)
      ensures State() == initial
    {
      wrestlers := initial.wrestlers;
      promotions := initial.promotions;
      factions := initial.factions;
      championships := initial.championships;
      wrestlerPromotions := initial.wrestlerPromotions;
      wrestlerFactions := initial.wrestlerFactions;
      wrestlerChampionships := initial.wrestlerChampionships;
      promotionImages := initial.promotionImages;
      factionImages := initial.factionImages;
      nextId := initial.nextId;
    }

    method SetTable(k: Kind, t: seq<Entity>)
      modifies this
      ensures State() == old(State()).WithTable(k, t)
    {
      match k
      case Promotions => promotions := t;
      case Factions => factions := t;
      case Championships => championships := t;
    }

    method SetLinks(k: Kind, l: seq<Link>)
      modifies this
      ensures State() == old(State()).WithLinks(k, l)
    {
      match k
      case Promotions => wrestlerPromotions := l;
      case Factions => wrestlerFactions := l;
      case Championships => wrestlerChampionships := l;
    }

    /** One single-row insert request on an entity table. */
    method Insert(k: Kind, name: string, sent: Option<string>, now: string, req: Request, faults: Faults) returns (reply: Writes.Reply)
      modifies this
      ensures (State(), reply) == Writes.StoreInsert(old(State()), k, name, sent, now, req, faults)
    {
      if req in faults {
        return Writes.Failed(faults[req]);
      }
      if sent.Some? && !State().ImageColumn(k) {
        return Writes.Failed(Writes.MissingColumnMessage(k));
      }
      var e := Entity(nextId, name, Writes.StoredImage(State(), k, sent), Some(now), None);
      SetTable(k, State().Table(k) + [e]);
      nextId := nextId + 1;
      reply := Writes.Row(e);
    }

    /** One single-row update request on an entity table. */
    method Update(k: Kind, id: int, name: string, sent: Option<string>, stamp: bool, now: string, req: Request, faults: Faults)
      returns (reply: Writes.Reply)
      modifies this
      ensures (State(), reply) == Writes.StoreUpdate(old(State()), k, id, name, sent, stamp, now, req, faults)
    {
      if req in faults {
        return Writes.Failed(faults[req]);
      }
      if sent.Some? && !State().ImageColumn(k) {
        return Writes.Failed(Writes.MissingColumnMessage(k));
      }
      var found := Seqs.Find(State().Table(k), (e: Entity) => e.id == id);
      if found.None? {
        return Writes.Failed(Writes.NoRowMessage);
      }
      var e := Writes.Edited(found.value, name, sent, stamp, now);
      SetTable(k, Seqs.ReplaceWhere(State().Table(k), (x: Entity) => x.id == id, e));
      reply := Writes.Row(e);
    }

    /** One junction insert per submitted id, in order; a failed insert is ignored. */
    method InsertLinks(k: Kind, wid: int, ids: seq<int>, faults: Faults)
      modifies this
      ensures State() == old(State()).WithLinks(k, old(State()).Links(k) + Writes.Added(wid, ids, k, faults))
    {
      var links := State().Links(k);
      ghost var start := links;
      assert links + Writes.LinksFor(wid, []) == start;
      for i := 0 to |ids|
        invariant links == start + Writes.LinksFor(wid, Writes.Survivors(ids, k, faults, i))
        invariant State() == old(State())
      {
        Writes.AddedStep(wid, ids, k, faults, i);
        if AddLink(k, i) !in faults {
          links := links + [Link(wid, ids[i])];
        }
      }
      assert links == start + Writes.Added(wid, ids, k, faults);
      SetLinks(k, links);
    }

    /** The delete of wrestler `wid`'s junction rows of one kind. */
    method DeleteLinks(k: Kind, wid: int, faults: Faults)
      modifies this
      ensures State() == if ClearLinks(k) in faults then old(State())
                         else old(State()).WithLinks(k, Writes.Others(old(State()).Links(k), wid))
    {
      if ClearLinks(k) !in faults {
        SetLinks(k, Writes.Others(State().Links(k), wid));
      }
    }

    /** `createWrestler` */
    method CreateWrestler(form: WrestlerForm, now: string, faults: Faults) returns (r: Option<Wrestler>)
      modifies this
      ensures (State(), r) == Writes.CreateWrestlerSpec(old(State()), form, now, faults)
    {
      if WriteRow in faults {
        return None;
      }
      var row := Writes.NewWrestlerRow(State(), form, now);
      wrestlers := wrestlers + [row];
      nextId := nextId + 1;
      ghost var d1 := State();
      InsertLinks(Promotions, row.id, form.Ids(Promotions), faults);
      InsertLinks(Factions, row.id, form.Ids(Factions), faults);
      InsertLinks(Championships, row.id, form.Ids(Championships), faults);
      assert State() == Writes.AddAll(d1, row.id, form, faults);
      r := Some(Queries.Enrich(State(), row, Queries.AllKinds, faults));
    }

    /** `updateWrestler` */
    method UpdateWrestler(form: WrestlerForm, now: string, faults: Faults) returns (r: Option<Wrestler>)
      modifies this
      ensures (State(), r) == Writes.UpdateWrestlerSpec(old(State()), form, now, faults)
    {
      if form.id.None? || form.id.value == 0 {
        return None;
      }
      if WriteRow in faults {
        return None;
      }
      var id := form.id.value;
      var found := Seqs.Find(wrestlers, (w: WrestlerRow) => w.id == id);
      if found.None? {
        return None;
      }
      var row := Writes.EditedWrestler(found.value, form, now);
      wrestlers := Seqs.ReplaceWhere(wrestlers, (w: WrestlerRow) => w.id == id, row);
      ghost var d0 := State();
      DeleteLinks(Promotions, id, faults);
      DeleteLinks(Factions, id, faults);
      DeleteLinks(Championships, id, faults);
      ghost var d1 := State();
      assert d1 == Writes.ClearAll(d0, id, faults);
      InsertLinks(Promotions, id, form.Ids(Promotions), faults);
      InsertLinks(Factions, id, form.Ids(Factions), faults);
      InsertLinks(Championships, id, form.Ids(Championships), faults);
      assert State() == Writes.AddAll(d1, id, form, faults);
      r := Some(Queries.Enrich(State(), row, Queries.AllKinds, faults));
    }

    /** `deleteWrestler`, `deletePromotion`, `deleteFaction`, `deleteChampionship` */
    method Delete(t: TableName, id: int, faults: Faults) returns (ok: bool)
      modifies this
      ensures (State(), ok) == Writes.DeleteSpec(old(State()), t, id, faults)
    {
      if DeleteRow in faults {
        return false;
      }
      ok := true;
      match t
      case WrestlerTable =>
        wrestlers := Seqs.Filter(wrestlers, (w: WrestlerRow) => w.id != id);
      case EntityTable(k) =>
        SetTable(k, Seqs.Filter(State().Table(k), (e: Entity) => e.id != id));
    }

    /** `createPromotion`; `threw` says whether the first request throws. */
    method CreatePromotion(name: string, imageUrl: Option<string>, threw: bool, now: string, faults: Faults) returns (r: Option<Entity>)
      modifies this
      ensures (State(), r) == Writes.CreatePromotionSpec(old(State()), name, imageUrl, threw, now, faults)
    {
      var reply;
      if threw {
        reply := Insert(Promotions, name, None, now, RetryRow, faults);
      } else {
        reply := Insert(Promotions, name, Writes.TruthyImage(imageUrl), now, WriteRow, faults);
      }
      r := Writes.Answer(reply);
    }

    /** `updatePromotion` */
    method UpdatePromotion(id: int, name: string, imageUrl: Option<string>, threw: bool, now: string, faults: Faults) returns (r: Option<Entity>)
      modifies this
      ensures (State(), r) == Writes.UpdatePromotionSpec(old(State()), id, name, imageUrl, threw, now, faults)
    {
      var reply;
      if threw {
        reply := Update(Promotions, id, name, None, false, now, RetryRow, faults);
      } else {
        reply := Update(Promotions, id, name, imageUrl, true, now, WriteRow, faults);
      }
      r := Writes.Answer(reply);
    }

    /** `createFaction` */
    method CreateFaction(name: string, imageUrl: Option<string>, threw: bool, now: string, faults: Faults) returns (r: Option<Entity>)
      modifies this
      ensures (State(), r) == Writes.CreateFactionSpec(old(State()), name, imageUrl, threw, now, faults)
    {
      if threw {
        var reply := Insert(Factions, name, None, now, RetryRow, faults);
        return Writes.Answer(reply);
      }
      var reply := Insert(Factions, name, Writes.TruthyImage(imageUrl), now, WriteRow, faults);
      if reply.Row? {
        return Some(reply.entity);
      }
      if Text.Contains(reply.message, "image_url") {
        var retry := Insert(Factions, name, None, now, RetryRow, faults);
        return Writes.Answer(retry);
      }
      r := None;
    }

    /** `updateFaction` */
    method UpdateFaction(id: int, name: string, imageUrl: Option<string>, threw: bool, now: string, faults: Faults) returns (r: Option<Entity>)
      modifies this
      ensures (State(), r) == Writes.UpdateFactionSpec(old(State()), id, name, imageUrl, threw, now, faults)
    {
      if threw {
        var reply := Update(Factions, id, name, None, false, now, RetryRow, faults);
        return Writes.Answer(reply);
      }
      var reply := Update(Factions, id, name, imageUrl, true, now, WriteRow, faults);
      if reply.Row? {
        return Some(reply.entity);
      }
      if Text.Contains(reply.message, "image_url") {
        var retry := Update(Factions, id, name, None, false, now, RetryRow, faults);
        return Writes.Answer(retry);
      }
      r := None;
    }

    /** `createChampionship` */
    method CreateChampionship(name: string, now: string, faults: Faults) returns (r: Option<Entity>)
      modifies this
      ensures (State(), r) == Writes.CreateChampionshipSpec(old(State()), name, now, faults)
    {
      var reply := Insert(Championships, name, None, now, WriteRow, faults);
      r := Writes.Answer(reply);
    }

    /** `updateChampionship` */
    method UpdateChampionship(id: int, name: string, now: string, faults: Faults) returns (r: Option<Entity>)
      modifies this
      ensures (State(), r) == Writes.UpdateChampionshipSpec(old(State()), id, name, now, faults)
    {
      var reply := Update(Championships, id, name, None, true, now, WriteRow, faults);
      r := Writes.Answer(reply);
    }
  }
}
