/**
 * The hosted database as a value: the four entity tables, the three junction
 * tables, which tables carry an `image_url` column, and the id sequence. Also
 * the names of the remote requests, so that a caller can say which of them
 * come back with an error.
 */
module Schema {
  import opened Wrappers
  import opened Records

  datatype Db = Db(
    wrestlers: seq<WrestlerRow>,
    promotions: seq<Entity>,
    factions: seq<Entity>,
    championships: seq<Entity>,
    wrestlerPromotions: seq<Link>,
    wrestlerFactions: seq<Link>,
    wrestlerChampionships: seq<Link>,
    promotionImages: bool,   // the promotions table has an image_url column
    factionImages: bool,     // the factions table has an image_url column
    nextId: int)             // the id the next inserted row receives
  {
    function Table(k: Kind): seq<Entity> {
      match k
      case Promotions => promotions
      case Factions => factions
      case Championships => championships
    }

    function Links(k: Kind): seq<Link> {
      match k
      case Promotions => wrestlerPromotions
      case Factions => wrestlerFactions
      case Championships => wrestlerChampionships
    }

    /** Whether the table of kind `k` has an `image_url` column; championships never do. */
    function ImageColumn(k: Kind): bool {
      match k
      case Promotions => promotionImages
      case Factions => factionImages
      case Championships => false
    }

    function WithTable(k: Kind, t: seq<Entity>): (d: Db)
      ensures d.Table(k) == t && forall j :: j != k ==> d.Table(j) == Table(j)
      ensures forall j :: d.Links(j) == Links(j)
      ensures d.wrestlers == wrestlers && d.nextId == nextId
      ensures d.promotionImages == promotionImages && d.factionImages == factionImages
    {
      match k
      case Promotions => this.(promotions := t)
      case Factions => this.(factions := t)
      case Championships => this.(championships := t)
    }

    function WithLinks(k: Kind, l: seq<Link>): (d: Db)
      ensures d.Links(k) == l && forall j :: j != k ==> d.Links(j) == Links(j)
      ensures forall j :: d.Table(j) == Table(j)
      ensures d.wrestlers == wrestlers && d.nextId == nextId
      ensures d.promotionImages == promotionImages && d.factionImages == factionImages
    {
      match k
      case Promotions => this.(wrestlerPromotions := l)
      case Factions => this.(wrestlerFactions := l)
      case Championships => this.(wrestlerChampionships := l)
    }

    /**
     * Ids are unique per table and below the sequence; image keys follow the
     * table's columns; junction rows name wrestler ids the sequence has handed out.
     */
    predicate Valid() {
      && WrestlersValid(wrestlers, nextId)
      && LinksBelow(wrestlerPromotions, nextId)
      && LinksBelow(wrestlerFactions, nextId)
      && LinksBelow(wrestlerChampionships, nextId)
      && EntitiesValid(promotions, promotionImages, nextId)
      && EntitiesValid(factions, factionImages, nextId)
      && EntitiesValid(championships, false, nextId)
    }
  }

  predicate UniqueIds(t: seq<Entity>) {
    forall i, j :: 0 <= i < j < |t| ==> t[i].id != t[j].id
  }

  predicate EntitiesValid(t: seq<Entity>, column: bool, next: int) {
    && UniqueIds(t)
    && forall i :: 0 <= i < |t| ==> t[i].id < next && t[i].image.HasKey() == column
  }

  predicate UniqueWrestlerIds(t: seq<WrestlerRow>) {
    forall i, j :: 0 <= i < j < |t| ==> t[i].id != t[j].id
  }

  predicate WrestlersValid(t: seq<WrestlerRow>, next: int) {
    && UniqueWrestlerIds(t)
    && forall i :: 0 <= i < |t| ==> t[i].id < next && t[i].image.HasKey()
  }

  lemma WithLinksTwice(db: Db, k: Kind, a: seq<Link>, b: seq<Link>)
    ensures db.WithLinks(k, a).WithLinks(k, b) == db.WithLinks(k, b)
  {
  }

  predicate LinksBelow(links: seq<Link>, next: int) {
    forall l <- links :: l.wrestlerId < next
  }

  lemma ValidTable(db: Db, k: Kind)
    requires db.Valid()
    ensures EntitiesValid(db.Table(k), db.ImageColumn(k), db.nextId)
    ensures LinksBelow(db.Links(k), db.nextId)
  {
  }

  datatype TableName = WrestlerTable | EntityTable(kind: Kind)

  /** One remote request; the operations below name the ones they issue. */
  datatype Request =
    | ListRows(table: TableName)               // select("*").order("name")
    | LinkedIds(kind: Kind, wrestlerId: int)   // junction ids of one wrestler
    | LinkedRows(kind: Kind, wrestlerId: int)  // the entity rows for those ids
    | CountLinks(kind: Kind, entityId: int)    // the count-only junction query
    | HolderIds(kind: Kind, entityId: int)     // wrestler ids linked to one entity
    | HolderRows(kind: Kind, entityId: int)    // the wrestler rows for those ids
    | WriteRow                                 // the insert or update of the row being saved
    | RetryRow                                 // the name-only fallback write
    | ClearLinks(kind: Kind)                   // delete of the saved wrestler's junction rows
    | AddLink(kind: Kind, index: nat)          // insert of the junction row for the index-th submitted id
    | DeleteRow                                // delete by id

  /** The requests that come back with an error instead of data, with the error's message. */
  type Faults = map<Request, string>
}
