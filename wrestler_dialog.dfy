/**
 * The wrestler dialog: the loaded promotion, faction and championship lists,
 * the ids selected from each, the image, and the save that hands the form
 * to `createWrestler` or `updateWrestler`.
 */
module WrestlerDialog {
  import opened Wrappers
  import opened Records
  import opened Schema
  import Seqs
  import Queries
  import Writes
  import Database

  /* ---------------- selection rules ---------------- */

  /** The select handler: append `id` unless it is already selected. */
  function WithId(selected: seq<int>, id: int): (r: seq<int>)
    ensures forall x :: x in r <==> x in selected || x == id
    ensures selected <= r && |r| <= |selected| + 1
  {
    if id in selected then selected else selected + [id]
  }

  /** Selecting keeps a selection free of repeats, and selecting a selected id changes nothing. */
  lemma WithIdKeepsNoDuplicates(selected: seq<int>, id: int)
    requires Seqs.NoDuplicates(selected)
    ensures Seqs.NoDuplicates(WithId(selected, id))
    ensures id in selected ==> WithId(selected, id) == selected
    ensures id !in selected ==> WithId(selected, id) == selected + [id]
  {
  }

  /** `remove*`: every occurrence of `id` goes, the other ids stay in their order. */
  lemma RemoveSpec(selected: seq<int>, id: int)
    ensures id !in Seqs.Without(selected, id)
    ensures forall x :: x != id ==> multiset(Seqs.Without(selected, id))[x] == multiset(selected)[x]
    ensures Seqs.IsSubsequence(Seqs.Without(selected, id), selected)
    ensures Seqs.NoDuplicates(selected) ==> Seqs.NoDuplicates(Seqs.Without(selected, id))
  {
    Seqs.WithoutSpec(selected, id);
    if Seqs.NoDuplicates(selected) {
      Seqs.WithoutKeepsNoDuplicates(selected, id);
    }
  }

  /** `get*Name`: `list.find(e => e.id === id)?.name || ""`. */
  function NameOf(loaded: seq<Entity>, id: int): string {
    match Seqs.Find(loaded, (e: Entity) => e.id == id)
    case Some(e) => e.name
    case None => ""
  }

  /** The name of the first loaded entity with the id, or "" when none has it. */
  lemma NameOfSpec(loaded: seq<Entity>, id: int)
    ensures (forall e <- loaded :: e.id != id) ==> NameOf(loaded, id) == ""
    ensures (exists e <- loaded :: e.id == id) ==>
      exists i :: 0 <= i < |loaded| && loaded[i].id == id && NameOf(loaded, id) == loaded[i].name
                  && forall j :: 0 <= j < i ==> loaded[j].id != id
  {
    if forall e <- loaded :: e.id != id {
      assert forall i :: 0 <= i < |loaded| ==> loaded[i] in loaded;
    } else {
      var e :| e in loaded && e.id == id;
      var i :| 0 <= i < |loaded| && loaded[i] == e;
    }
  }

  /** The dropdown: the loaded entities not selected yet, in loaded order. */
  function Offered(loaded: seq<Entity>, selected: seq<int>): seq<Entity> {
    Seqs.Filter(loaded, (e: Entity) => e.id !in selected)
  }

  lemma OfferedSpec(loaded: seq<Entity>, selected: seq<int>, e: Entity)
    ensures e in Offered(loaded, selected) <==> e in loaded && e.id !in selected
    ensures Seqs.IsSubsequence(Offered(loaded, selected), loaded)
    ensures e in Offered(loaded, selected) ==> WithId(selected, e.id) == selected + [e.id]
  {
    Seqs.FilterMembers(loaded, (x: Entity) => x.id !in selected, e);
    Seqs.FilterIsSubsequence(loaded, (x: Entity) => x.id !in selected);
  }

  /** `wrestler.<kind>?.map(e => e.id) || []` */
  function IdsOf(related: Option<seq<Entity>>): (r: seq<int>)
    ensures related.None? ==> r == []
    ensures related.Some? ==> |r| == |related.value| && forall i :: 0 <= i < |r| ==> r[i] == related.value[i].id
  {
    if related.None? then []
    else seq(|related.value|, i requires 0 <= i < |related.value| => related.value[i].id)
  }

  /* ---------------- the save ---------------- */

  /** The image URL saved: a truthy upload result when a file was chosen, the form's URL otherwise. */
  function FinalImageUrl(imageUrl: string, hasFile: bool, uploaded: Option<string>): (r: string)
    ensures hasFile && uploaded.Some? && uploaded.value != "" ==> r == uploaded.value
    ensures !(hasFile && uploaded.Some? && uploaded.value != "") ==> r == imageUrl
  {
    if hasFile && uploaded.Some? && uploaded.value != "" then uploaded.value else imageUrl
  }

  /** The selections as a triple. */
  datatype Selection = Selection(promotions: seq<int>, factions: seq<int>, championships: seq<int>)
  {
    function Ids(k: Kind): seq<int> {
      match k
      case Promotions => promotions
      case Factions => factions
      case Championships => championships
    }
  }

  /** The form handed to the data layer. */
  function SaveForm(editing: Option<Wrestler>, name: string, finalUrl: string, sel: Selection): (f: WrestlerForm)
    ensures f.id.Some? <==> editing.Some?
    ensures editing.Some? ==> f.id.value == editing.value.row.id
    ensures f.name == name && f.imageUrl == Some(finalUrl)
    ensures forall k :: f.Ids(k) == sel.Ids(k)
  {
    WrestlerForm(if editing.Some? then Some(editing.value.row.id) else None, name, Some(finalUrl),
                 Some(sel.promotions), Some(sel.factions), Some(sel.championships))
  }

  /** `updateWrestler` when editing, `createWrestler` otherwise. */
  function SaveSpec(db: Db, editing: Option<Wrestler>, form: WrestlerForm, now: string, faults: Faults): (r: (Db, Option<Wrestler>))
    ensures r.1.None? ==> r.0 == db
    ensures r.1.Some? ==> r.1.value.row.name == form.name
    ensures r.1.None? ==> editing.Some? || WriteRow in faults
  {
    if editing.Some? then Writes.UpdateWrestlerSpec(db, form, now, faults)
    else Writes.CreateWrestlerSpec(db, form, now, faults)
  }

  /**
   * Saving an edit with every request succeeding leaves the wrestler with
   * exactly one junction row per selected id of each kind, and the entities
   * read back are exactly the existing ones that were selected.
   */
  lemma EditStoresSelection(db: Db, w: Wrestler, name: string, finalUrl: string, sel: Selection, now: string,
                            faults: Faults, k: Kind, e: Entity)
    requires w.row.id != 0 && WriteRow !in faults && exists x <- db.wrestlers :: x.id == w.row.id
    requires ClearLinks(k) !in faults && forall i: nat :: AddLink(k, i) !in faults
    requires LinkedIds(k, w.row.id) !in faults && LinkedRows(k, w.row.id) !in faults
    ensures var r := SaveSpec(db, Some(w), SaveForm(Some(w), name, finalUrl, sel), now, faults);
      && r.1.Some?
      && Writes.Own(r.0.Links(k), w.row.id) == Writes.LinksFor(w.row.id, sel.Ids(k))
      && (e in Queries.WrestlerEntities(r.0, k, w.row.id, faults) <==> e in db.Table(k) && e.id in sel.Ids(k))
  {
    var form := SaveForm(Some(w), name, finalUrl, sel);
    Writes.UpdateWrestlerNull(db, form, now, faults);
    Writes.UpdateWrestlerExact(db, form, now, faults, k);
    Writes.UpdateWrestlerReadsBack(db, form, now, faults, k, e);
  }

  /**
   * Saving a new wrestler on a valid store with every request succeeding
   * gives it the next id and exactly one junction row per selected id.
   */
  lemma CreateStoresSelection(db: Db, name: string, finalUrl: string, sel: Selection, now: string, faults: Faults, k: Kind)
    requires db.Valid() && WriteRow !in faults && forall i: nat :: AddLink(k, i) !in faults
    ensures var r := SaveSpec(db, None, SaveForm(None, name, finalUrl, sel), now, faults);
      && r.1.Some? && r.1.value.row.id == db.nextId && r.1.value.row.name == name
      && Writes.Own(r.0.Links(k), db.nextId) == Writes.LinksFor(db.nextId, sel.Ids(k))
  {
    Writes.CreateWrestlerLinks(db, SaveForm(None, name, finalUrl, sel), now, faults, k);
  }

  /**
   * On a valid store the ids loaded into a selection when the dialog opens
   * on a looked-up wrestler are distinct and below the store's next id.
   */
  lemma OpenedSelectionFresh(db: Db, k: Kind, wid: int, faults: Faults)
    requires db.Valid()
    ensures var ids := IdsOf(Some(Queries.WrestlerEntities(db, k, wid, faults)));
      Seqs.NoDuplicates(ids) && forall x <- ids :: x < db.nextId
  {
    var r := Queries.WrestlerEntities(db, k, wid, faults);
    var ids := IdsOf(Some(r));
    Queries.WrestlerEntitiesOnceEach(db, k, wid, faults);
    ValidTable(db, k);
    forall x <- ids ensures x < db.nextId {
      var i :| 0 <= i < |ids| && ids[i] == x;
      assert r[i] in r;
    }
  }

  /** The promotion or faction write behind an inline create, sent without an image, or `createChampionship`. */
  function AddSpec(db: Db, k: Kind, entityName: string, threw: bool, now: string, faults: Faults): (Db, Option<Entity>) {
    match k
    case Promotions => Writes.CreatePromotionSpec(db, entityName, None, threw, now, faults)
    case Factions => Writes.CreateFactionSpec(db, entityName, None, threw, now, faults)
    case Championships => Writes.CreateChampionshipSpec(db, entityName, now, faults)
  }

  /**
   * An inline create either changes nothing and returns null, or returns a
   * row with the store's next id, named as asked and without an image, and
   * moves the next id on by one.
   */
  lemma AddSpecIsNext(db: Db, k: Kind, entityName: string, threw: bool, now: string, faults: Faults)
    ensures var r := AddSpec(db, k, entityName, threw, now, faults);
      && (r.1.None? ==> r.0 == db)
      && (r.1.Some? ==> && r.1.value.id == db.nextId && r.1.value.name == entityName && !r.1.value.image.Truthy()
                        && r.0.nextId == db.nextId + 1 && r.1.value in r.0.Table(k))
  {
    assert Writes.TruthyImage(None) == None;
  }

  /** Appending an id greater than every selected one keeps a selection free of repeats. */
  lemma AddKeepsNoDuplicates(selected: seq<int>, id: int)
    requires Seqs.NoDuplicates(selected) && forall x <- selected :: x < id
    ensures Seqs.NoDuplicates(selected + [id]) && forall x <- selected + [id] :: x < id + 1
  {
    var r := selected + [id];
    forall i, j | 0 <= i < j < |r| ensures r[i] != r[j] {
      if j == |selected| {
        assert r[i] in selected;
      } else {
        assert r[i] == selected[i] && r[j] == selected[j];
      }
    }
  }

  /**
   * The row a save hands back is in the wrestlers table with the name typed;
   * its image is the uploaded URL when a file was chosen and the upload gave
   * a non-empty URL, and the form's URL otherwise; it keeps the edited
   * wrestler's id, or gets the store's next id when new.
   */
  lemma SavedImage(db: Db, editing: Option<Wrestler>, name: string, imageUrl: string, hasFile: bool,
                   uploaded: Option<string>, sel: Selection, now: string, faults: Faults)
    ensures var r := SaveSpec(db, editing, SaveForm(editing, name, FinalImageUrl(imageUrl, hasFile, uploaded), sel), now, faults);
      r.1.Some? ==>
        && r.1.value.row in r.0.wrestlers
        && r.1.value.row.name == name
        && r.1.value.row.image == ImageUrl(if hasFile && uploaded.Some? && uploaded.value != "" then uploaded.value else imageUrl)
        && r.1.value.row.id == (if editing.Some? then editing.value.row.id else db.nextId)
  {
    var form := SaveForm(editing, name, FinalImageUrl(imageUrl, hasFile, uploaded), sel);
    var r := SaveSpec(db, editing, form, now, faults);
    if r.1.Some? && editing.Some? {
      var id := editing.value.row.id;
      var p := (w: WrestlerRow) => w.id == id;
      var cur := Seqs.Find(db.wrestlers, p).value;
      var i :| 0 <= i < |db.wrestlers| && db.wrestlers[i] == cur && p(cur);
      var row := Writes.EditedWrestler(cur, form, now);
      assert Seqs.ReplaceWhere(db.wrestlers, p, row)[i] == row;
    }
  }

  /* ---------------- the component ---------------- */

  class Dialog {
    const store: Database.Store
    var wrestler: Option<Wrestler>    // the wrestler being edited, if any
    var name: string
    var selectedPromotions: seq<int>
    var selectedFactions: seq<int>
    var selectedChampionships: seq<int>
    var promotions: seq<Entity>       // the loaded lists the selections are made from
    var factions: seq<Entity>
    var championships: seq<Entity>
    var imageUrl: string
    var imageFile: bool               // a file has been chosen
    var isSaving: bool
    var saved: seq<Wrestler>          // the wrestlers handed to `onSave`, in order
    var uploads: seq<string>          // the folder of each upload requested
    var errors: nat                   // "Failed to save wrestler" notices

    function Selected(): Selection
      reads this
    {
      Selection(selectedPromotions, selectedFactions, selectedChampionships)
    }

    function Loaded(k: Kind): seq<Entity>
      reads this
    {
      match k
      case Promotions => promotions
      case Factions => factions
      case Championships => championships
    }

    /** `get*Name`: the name of the first loaded entity of the kind with the id, or "". */
    function Name(k: Kind, id: int): (r: string)
      reads this
      ensures (forall e <- Loaded(k) :: e.id != id) ==> r == ""
      ensures (exists e <- Loaded(k) :: e.id == id) ==>
        exists i :: 0 <= i < |Loaded(k)| && Loaded(k)[i].id == id && r == Loaded(k)[i].name
                    && forall j :: 0 <= j < i ==> Loaded(k)[j].id != id
    {
      NameOfSpec(Loaded(k), id);
      NameOf(Loaded(k), id)
    }

    /** The options of the kind's dropdown: the loaded entities not selected yet, in loaded order. */
    function Options(k: Kind): (r: seq<Entity>)
      reads this
      ensures forall e :: e in r <==> e in Loaded(k) && e.id !in Selected().Ids(k)
      ensures Seqs.IsSubsequence(r, Loaded(k))
    {
      assert forall e :: e in Offered(Loaded(k), Selected().Ids(k)) <==> e in Loaded(k) && e.id !in Selected().Ids(k) by {
        forall e ensures e in Offered(Loaded(k), Selected().Ids(k)) <==> e in Loaded(k) && e.id !in Selected().Ids(k) {
          OfferedSpec(Loaded(k), Selected().Ids(k), e);
        }
      }
      OfferedSpec(Loaded(k), Selected().Ids(k), Entity(0, "", NoColumn, None, None));
      Offered(Loaded(k), Selected().Ids(k))
    }

    /** The kind's selection has no repeated id, and every id is below the store's next id. */
    predicate SelectionFresh(k: Kind)
      reads this, store
    {
      Seqs.NoDuplicates(Selected().Ids(k)) && forall x <- Selected().Ids(k) :: x < store.State().nextId
    }

    /** Save is disabled while the name is empty or a save is running. */
    predicate SaveDisabled()
      reads this
    {
      name == "" || isSaving
    }

    constructor (store: Database.Store)
      ensures this.store == store && wrestler == None && name == "" && Selected() == Selection([], [], [])
      ensures promotions == [] && factions == [] && championships == []
      ensures imageUrl == "" && !imageFile && !isSaving && saved == [] && uploads == [] && errors == 0
    {
      this.store := store;
      wrestler := None;
      name := "";
      selectedPromotions := [];
      selectedFactions := [];
      selectedChampionships := [];
      promotions := [];
      factions := [];
      championships := [];
      imageUrl := "";
      imageFile := false;
      isSaving := false;
      saved := [];
      uploads := [];
      errors := 0;
    }

    method SetSelected(k: Kind, ids: seq<int>)
      modifies this
      ensures Selected() == match k
        case Promotions => old(Selected()).(promotions := ids)
        case Factions => old(Selected()).(factions := ids)
        case Championships => old(Selected()).(championships := ids)
      ensures wrestler == old(wrestler) && name == old(name) && promotions == old(promotions) && factions == old(factions)
      ensures championships == old(championships) && imageUrl == old(imageUrl) && imageFile == old(imageFile)
      ensures isSaving == old(isSaving) && saved == old(saved) && uploads == old(uploads) && errors == old(errors)
    {
      match k
      case Promotions => selectedPromotions := ids;
      case Factions => selectedFactions := ids;
      case Championships => selectedChampionships := ids;
    }

    method ResetForm()
      modifies this
      ensures name == "" && Selected() == Selection([], [], []) && imageUrl == "" && !imageFile
      ensures wrestler == old(wrestler) && promotions == old(promotions) && factions == old(factions)
      ensures championships == old(championships) && isSaving == old(isSaving) && saved == old(saved)
      ensures uploads == old(uploads) && errors == old(errors)
    {
      name := "";
      selectedPromotions := [];
      selectedFactions := [];
      selectedChampionships := [];
      imageUrl := "";
      imageFile := false;
    }

    /**
     * The effect run when the dialog opens on `w`: its name, the ids of its
     * entities of each kind, and its image; with no wrestler, an empty form.
     * A chosen file is kept when a wrestler is loaded.
     */
    method Open(w: Option<Wrestler>)
      modifies this
      ensures wrestler == w
      ensures w.Some? ==> && name == w.value.row.name && imageFile == old(imageFile)
                          && Selected() == Selection(IdsOf(w.value.promotions), IdsOf(w.value.factions), IdsOf(w.value.championships))
                          && imageUrl == (if w.value.row.image.Truthy() then w.value.row.image.url else "")
      ensures w.None? ==> name == "" && Selected() == Selection([], [], []) && imageUrl == "" && !imageFile
      ensures promotions == old(promotions) && factions == old(factions) && championships == old(championships)
      ensures isSaving == old(isSaving) && saved == old(saved) && uploads == old(uploads) && errors == old(errors)
    {
      wrestler := w;
      if w.Some? {
        name := w.value.row.name;
        selectedPromotions := IdsOf(w.value.promotions);
        selectedFactions := IdsOf(w.value.factions);
        selectedChampionships := IdsOf(w.value.championships);
        imageUrl := if w.value.row.image.Truthy() then w.value.row.image.url else "";
      } else {
        ResetForm();
      }
    }

    /** `loadData`: the three lists as `getPromotions`, `getFactions` and `getChampionships` return them. */
    method LoadData(collate: (string, string) -> bool, faults: Faults)
      modifies this
      ensures store.State() == old(store.State())
      ensures promotions == Queries.ListEntities(old(store.State()), Promotions, collate, faults)
      ensures factions == Queries.ListEntities(old(store.State()), Factions, collate, faults)
      ensures championships == Queries.ListEntities(old(store.State()), Championships, collate, faults)
      ensures wrestler == old(wrestler) && name == old(name) && Selected() == old(Selected())
      ensures imageUrl == old(imageUrl) && imageFile == old(imageFile) && isSaving == old(isSaving)
      ensures saved == old(saved) && uploads == old(uploads) && errors == old(errors)
    {
      var db := store.State();
      SetLoaded(Queries.ListEntities(db, Promotions, collate, faults), Queries.ListEntities(db, Factions, collate, faults),
                Queries.ListEntities(db, Championships, collate, faults));
    }

    /** The three `set*` calls of `loadData`. */
    method SetLoaded(p: seq<Entity>, f: seq<Entity>, c: seq<Entity>)
      modifies this
      ensures promotions == p && factions == f && championships == c
      ensures wrestler == old(wrestler) && name == old(name) && Selected() == old(Selected())
      ensures imageUrl == old(imageUrl) && imageFile == old(imageFile) && isSaving == old(isSaving)
      ensures saved == old(saved) && uploads == old(uploads) && errors == old(errors)
    {
      promotions, factions, championships := p, f, c;
    }

    /** The select handler of kind `k`. */
    method SelectId(k: Kind, id: int)
      modifies this
      ensures Selected().Ids(k) == WithId(old(Selected().Ids(k)), id)
      ensures forall j :: j != k ==> Selected().Ids(j) == old(Selected().Ids(j))
      ensures wrestler == old(wrestler) && name == old(name) && promotions == old(promotions) && factions == old(factions)
      ensures championships == old(championships) && imageUrl == old(imageUrl) && imageFile == old(imageFile)
      ensures isSaving == old(isSaving) && saved == old(saved) && uploads == old(uploads) && errors == old(errors)
    {
      var current := Selected().Ids(k);
      if id !in current {
        SetSelected(k, current + [id]);
      }
    }

    /** `remove*` of kind `k`. */
    method RemoveId(k: Kind, id: int)
      modifies this
      ensures Selected().Ids(k) == Seqs.Without(old(Selected().Ids(k)), id)
      ensures forall j :: j != k ==> Selected().Ids(j) == old(Selected().Ids(j))
      ensures wrestler == old(wrestler) && name == old(name) && promotions == old(promotions) && factions == old(factions)
      ensures championships == old(championships) && imageUrl == old(imageUrl) && imageFile == old(imageFile)
      ensures isSaving == old(isSaving) && saved == old(saved) && uploads == old(uploads) && errors == old(errors)
    {
      SetSelected(k, Seqs.Without(Selected().Ids(k), id));
    }

    /**
     * `handleAdd*`: create the entity with the name from the create-entity
     * dialog; a created row is appended to the loaded list and its id to
     * the selection. `threw` is passed to the promotion and faction writes.
     */
    method HandleAdd(k: Kind, entityName: string, threw: bool, now: string, faults: Faults) returns (created: Option<Entity>)
      modifies this, store
      ensures (store.State(), created) == AddSpec(old(store.State()), k, entityName, threw, now, faults)
      ensures created.Some? ==> Loaded(k) == old(Loaded(k)) + [created.value]
                                && Selected().Ids(k) == old(Selected().Ids(k)) + [created.value.id]
      ensures created.None? ==> Loaded(k) == old(Loaded(k)) && Selected().Ids(k) == old(Selected().Ids(k))
      ensures forall j :: j != k ==> Loaded(j) == old(Loaded(j)) && Selected().Ids(j) == old(Selected().Ids(j))
      ensures forall j :: old(SelectionFresh(j)) ==> SelectionFresh(j)
      ensures wrestler == old(wrestler) && name == old(name) && imageUrl == old(imageUrl) && imageFile == old(imageFile)
      ensures isSaving == old(isSaving) && saved == old(saved) && uploads == old(uploads) && errors == old(errors)
    {
      match k {
        case Promotions => created := store.CreatePromotion(entityName, None, threw, now, faults);
        case Factions => created := store.CreateFaction(entityName, None, threw, now, faults);
        case Championships => created := store.CreateChampionship(entityName, now, faults);
      }
      AddSpecIsNext(old(store.State()), k, entityName, threw, now, faults);
      if created.Some? {
        Added(k, created.value);
        if old(SelectionFresh(k)) {
          AddKeepsNoDuplicates(old(Selected().Ids(k)), created.value.id);
        }
      }
    }

    /** The two `set*` calls after an inline create: the entity joins the loaded list and the selection. */
    method Added(k: Kind, e: Entity)
      modifies this
      ensures Loaded(k) == old(Loaded(k)) + [e] && Selected().Ids(k) == old(Selected().Ids(k)) + [e.id]
      ensures forall j :: j != k ==> Loaded(j) == old(Loaded(j)) && Selected().Ids(j) == old(Selected().Ids(j))
      ensures wrestler == old(wrestler) && name == old(name) && imageUrl == old(imageUrl) && imageFile == old(imageFile)
      ensures isSaving == old(isSaving) && saved == old(saved) && uploads == old(uploads) && errors == old(errors)
    {
      match k {
        case Promotions => promotions := promotions + [e];
        case Factions => factions := factions + [e];
        case Championships => championships := championships + [e];
      }
      SetSelected(k, Selected().Ids(k) + [e.id]);
    }

    /** A file is chosen or dropped. */
    method ChooseFile()
      modifies this
      ensures imageFile
      ensures wrestler == old(wrestler) && name == old(name) && Selected() == old(Selected()) && imageUrl == old(imageUrl)
      ensures promotions == old(promotions) && factions == old(factions) && championships == old(championships)
      ensures isSaving == old(isSaving) && saved == old(saved) && uploads == old(uploads) && errors == old(errors)
    {
      imageFile := true;
    }

    /** The remove-image button: the file and the URL are cleared. */
    method ClearImage()
      modifies this
      ensures !imageFile && imageUrl == ""
      ensures wrestler == old(wrestler) && name == old(name) && Selected() == old(Selected())
      ensures promotions == old(promotions) && factions == old(factions) && championships == old(championships)
      ensures isSaving == old(isSaving) && saved == old(saved) && uploads == old(uploads) && errors == old(errors)
    {
      imageFile := false;
      imageUrl := "";
    }

    /**
     * `handleSave`: upload a chosen file (to `uploadImage`'s default folder),
     * build the form from the fields, and update when editing, create
     * otherwise. `uploaded` is what the upload resolves with if one is made.
     */
    method HandleSave(uploaded: Option<string>, now: string, faults: Faults) returns (result: Option<Wrestler>)
      modifies this, store
      ensures var form := SaveForm(old(wrestler), old(name), FinalImageUrl(old(imageUrl), old(imageFile), uploaded), old(Selected()));
        (store.State(), result) == SaveSpec(old(store.State()), old(wrestler), form, now, faults)
      ensures uploads == old(uploads) + (if old(imageFile) then ["wrestlers"] else [])
      ensures result.Some? ==> && saved == old(saved) + [result.value] && errors == old(errors)
                               && name == "" && Selected() == Selection([], [], []) && imageUrl == "" && !imageFile
      ensures result.None? ==> && saved == old(saved) && errors == old(errors) + 1
                               && name == old(name) && Selected() == old(Selected()) && imageUrl == old(imageUrl)
                               && imageFile == old(imageFile)
      ensures !isSaving && wrestler == old(wrestler)
      ensures promotions == old(promotions) && factions == old(factions) && championships == old(championships)
      ensures result.Some? ==> SaveDisabled()
      ensures result.None? ==> (SaveDisabled() <==> old(name) == "")
    {
      isSaving := true;
      var finalImageUrl := Upload(uploaded);
      result := Save(SaveForm(wrestler, name, finalImageUrl, Selected()), now, faults);
      Conclude(result);
    }

    /** The upload step of a save. */
    method Upload(uploaded: Option<string>) returns (finalImageUrl: string)
      modifies this
      ensures finalImageUrl == FinalImageUrl(imageUrl, imageFile, uploaded)
      ensures uploads == old(uploads) + (if imageFile then ["wrestlers"] else [])
      ensures wrestler == old(wrestler) && name == old(name) && Selected() == old(Selected()) && imageUrl == old(imageUrl)
      ensures imageFile == old(imageFile) && promotions == old(promotions) && factions == old(factions)
      ensures championships == old(championships) && isSaving == old(isSaving) && saved == old(saved) && errors == old(errors)
    {
      finalImageUrl := imageUrl;
      if imageFile {
        uploads := uploads + ["wrestlers"];
        if uploaded.Some? && uploaded.value != "" {
          finalImageUrl := uploaded.value;
        }
      }
    }

    /** The data-layer call. */
    method Save(form: WrestlerForm, now: string, faults: Faults) returns (result: Option<Wrestler>)
      modifies store
      ensures (store.State(), result) == SaveSpec(old(store.State()), wrestler, form, now, faults)
    {
      if wrestler.Some? {
        result := store.UpdateWrestler(form, now, faults);
      } else {
        result := store.CreateWrestler(form, now, faults);
      }
    }

    /** What the dialog does with the data layer's answer. */
    method Conclude(result: Option<Wrestler>)
      modifies this
      ensures result.Some? ==> && saved == old(saved) + [result.value] && errors == old(errors)
                               && name == "" && Selected() == Selection([], [], []) && imageUrl == "" && !imageFile
      ensures result.None? ==> && saved == old(saved) && errors == old(errors) + 1
                               && name == old(name) && Selected() == old(Selected()) && imageUrl == old(imageUrl)
                               && imageFile == old(imageFile)
      ensures !isSaving && wrestler == old(wrestler) && uploads == old(uploads)
      ensures promotions == old(promotions) && factions == old(factions) && championships == old(championships)
    {
      if result.Some? {
        saved := saved + [result.value];
        ResetForm();
      } else {
        errors := errors + 1;
      }
      isSaving := false;
    }
  }
}
