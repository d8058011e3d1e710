/** The records of the wrestler administration: the four entities, the form a wrestler is saved from, and the junction rows. */
module Records {
  import opened Wrappers

  /** The three kinds of entity a wrestler is associated with; each has its own table and its own junction table. */
  datatype Kind = Promotions | Factions | Championships

  /**
   * The `image_url` field of a row as the client sees it: `NoColumn` when the
   * table has no such column (the key is missing from the row),
   * `NullImage` when the column holds null, `ImageUrl(url)` otherwise.
   */
  datatype Image = NoColumn | NullImage | ImageUrl(url: string) {

    /** `"image_url" in row` */
    predicate HasKey() {
      !NoColumn?
    }

    /** `row.image_url` is truthy: present and not the empty string. */
    predicate Truthy() {
      ImageUrl? && url != ""
    }
  }

  /**
   * A promotion, a faction or a championship row. Promotions and factions
   * have the same fields; a championship has no image, so its `image` is `NoColumn`.
   * Timestamps are opaque strings.
   */
  datatype Entity = Entity(id: int, name: string, image: Image, createdAt: Option<string>, updatedAt: Option<string>)

  /** A row of the `wrestlers` table. */
  datatype WrestlerRow = WrestlerRow(id: int, name: string, image: Image, createdAt: Option<string>, updatedAt: Option<string>)

  /** A wrestler as the client holds it: its row and, when they were looked up, the entities of each kind. */
  datatype Wrestler = Wrestler(row: WrestlerRow, promotions: Option<seq<Entity>>, factions: Option<seq<Entity>>,
                               championships: Option<seq<Entity>>)
  {
    /** `wrestler.promotions`, `wrestler.factions` or `wrestler.championships` */
    function Related(k: Kind): Option<seq<Entity>> {
      match k
      case Promotions => promotions
      case Factions => factions
      case Championships => championships
    }
  }

  /** The wrestler form: the row's fields and the ids selected for each kind. */
  datatype WrestlerForm = WrestlerForm(id: Option<int>, name: string, imageUrl: Option<string>,
                                       promotions: Option<seq<int>>, factions: Option<seq<int>>,
                                       championships: Option<seq<int>>)
  {
    /** `form.promotions || []` and the like: an absent list means no ids. */
    function Ids(k: Kind): seq<int> {
      match k
      case Promotions => promotions.GetOr([])
      case Factions => factions.GetOr([])
      case Championships => championships.GetOr([])
    }
  }

  /** A row of a junction table: `wrestler_promotions`, `wrestler_factions` or `wrestler_championships`. */
  datatype Link = Link(wrestlerId: int, entityId: int)

  /** An entity together with the `wrestler_count` computed for it. */
  datatype Counted = Counted(entity: Entity, wrestlerCount: int)
}
