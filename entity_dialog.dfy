/**
 * The promotion and faction dialogs: name and image form state, the image
 * upload capability flag, and the save. The two components differ only in
 * the table they write and the storage folder of their uploads.
 */
module EntityDialog {
  import opened Wrappers
  import opened Records
  import opened Schema
  import Writes
  import Database

  /** The kinds that have an image dialog. */
  predicate HasImageDialog(k: Kind) {
    k == Promotions || k == Factions
  }

  /** The promotion dialog uploads with `uploadImage`'s default folder, the faction dialog into "factions". */
  function UploadFolder(k: Kind): string {
    if k == Factions then "factions" else "wrestlers"
  }

  /**
   * What the upload resolves with: a URL, null, or a throw. `uploadImage`
   * (lib/storage.ts) catches its own errors and resolves with null, so the
   * throw is the dialogs' own guard, kept as they wrote it.
   */
  datatype UploadOutcome = Uploaded(url: string) | NoUrl | UploadThrew

  /** The image URL and the flag once the upload step is over, and whether an upload was requested. */
  datatype AfterUpload = AfterUpload(finalUrl: string, supported: bool, attempted: bool)

  /**
   * Upload only when a file is chosen and uploads are supported; a truthy
   * URL replaces the form's URL, null keeps it, a throw clears it and turns
   * the flag off.
   */
  function UploadStep(imageUrl: string, hasFile: bool, supported: bool, upload: UploadOutcome): AfterUpload {
    if !(hasFile && supported) then AfterUpload(imageUrl, supported, false)
    else match upload
      case Uploaded(u) => AfterUpload(if u != "" then u else imageUrl, supported, true)
      case NoUrl => AfterUpload(imageUrl, supported, true)
      case UploadThrew => AfterUpload("", false, true)
  }

  lemma UploadStepSpec(imageUrl: string, hasFile: bool, supported: bool, upload: UploadOutcome)
    ensures var a := UploadStep(imageUrl, hasFile, supported, upload);
      && (a.attempted <==> hasFile && supported)
      && (a.supported ==> supported)
      && (a.attempted && upload.UploadThrew? ==> a.finalUrl == "" && !a.supported)
      && (a.attempted && upload.Uploaded? && upload.url != "" ==> a.finalUrl == upload.url && a.supported)
      && (!a.attempted || upload.NoUrl? || upload == Uploaded("") ==> a.finalUrl == imageUrl && a.supported == supported)
  {
  }

  /** `imageUploadSupported ? finalImageUrl : undefined` */
  function ImageArgument(supported: bool, finalUrl: string): (r: Option<string>)
    ensures r.None? <==> !supported
    ensures r.Some? ==> r.value == finalUrl
  {
    if supported then Some(finalUrl) else None
  }

  /** The row came back without an image although one was meant to be saved: the dialog warns. */
  predicate ImageDropped(finalUrl: string, saved: Option<Entity>) {
    saved.Some? && finalUrl != "" && !saved.value.image.Truthy()
  }

  /** The flag after the save: turned off when the image was dropped, otherwise as it was. */
  function FlagAfterSave(supported: bool, finalUrl: string, saved: Option<Entity>): (r: bool)
    ensures r ==> supported
    ensures r <==> supported && !ImageDropped(finalUrl, saved)
  {
    if ImageDropped(finalUrl, saved) then false else supported
  }

  /** One data-layer call: `update…` when editing, `create…` otherwise. */
  function CallSpec(k: Kind, db: Db, editing: Option<Entity>, name: string, image: Option<string>, threw: bool, now: string, faults: Faults)
    : (r: (Db, Option<Entity>))
    ensures r.1.None? ==> r.0 == db
    ensures r.1.Some? ==> r.1.value.name == name
    ensures r.1.Some? ==> r.1.value.id == if editing.Some? then editing.value.id else db.nextId
  {
    match editing
    case Some(e) =>
      if k == Factions then Writes.UpdateFactionSpec(db, e.id, name, image, threw, now, faults)
      else Writes.UpdatePromotionSpec(db, e.id, name, image, threw, now, faults)
    case None =>
      if k == Factions then Writes.CreateFactionSpec(db, name, image, threw, now, faults)
      else Writes.CreatePromotionSpec(db, name, image, threw, now, faults)
  }

  /**
   * The dialog's save call. `escaped` says that the first call throws out of
   * the data layer (its own fallback threw too), taken to leave the store
   * unchanged: the faction dialog then calls again without an image, the
   * promotion dialog falls through to its error path.
   */
  function SaveSpec(k: Kind, db: Db, editing: Option<Entity>, name: string, image: Option<string>, escaped: bool,
                    threw: bool, now: string, faults: Faults): (r: (Db, Option<Entity>))
    ensures r.1.None? ==> r.0 == db
    ensures r.1.Some? ==> r.1.value.name == name
    ensures r.1.Some? ==> r.1.value.id == if editing.Some? then editing.value.id else db.nextId
    ensures escaped && k != Factions ==> r == (db, None)
  {
    if !escaped then CallSpec(k, db, editing, name, image, threw, now, faults)
    else if k == Factions then CallSpec(k, db, editing, name, None, threw, now, faults)
    else (db, None)
  }

  /** Whether the save itself turns the flag off, before the result is looked at. */
  predicate RetriedWithoutImage(k: Kind, escaped: bool) {
    escaped && k == Factions
  }

  class Dialog {
    const kind: Kind
    const store: Database.Store
    var entity: Option<Entity>       // the promotion or faction being edited, if any
    var name: string
    var imageUrl: string
    var imageFile: bool              // a file has been chosen
    var isSaving: bool
    var uploadSupported: bool
    var saved: seq<Entity>           // the rows handed to `onSave`, in order
    var uploads: seq<string>         // the folder of each upload requested
    var warnings: nat                // "Image Upload Not Supported" notices
    var errors: nat                  // "Failed to save" notices

    constructor (kind: Kind, store: Database.Store)
      requires HasImageDialog(kind)
      ensures this.kind == kind && this.store == store && entity == None
      ensures name == "" && imageUrl == "" && !imageFile && !isSaving && uploadSupported
      ensures saved == [] && uploads == [] && warnings == 0 && errors == 0
    {
      this.kind := kind;
      this.store := store;
      entity := None;
      name := "";
      imageUrl := "";
      imageFile := false;
      isSaving := false;
      uploadSupported := true;
      saved := [];
      uploads := [];
      warnings := 0;
      errors := 0;
    }

    method ResetForm()
      modifies this
      ensures name == "" && imageUrl == "" && !imageFile
      ensures entity == old(entity) && isSaving == old(isSaving) && uploadSupported == old(uploadSupported)
      ensures saved == old(saved) && uploads == old(uploads) && warnings == old(warnings) && errors == old(errors)
    {
      name := "";
      imageUrl := "";
      imageFile := false;
    }

    /**
     * The effect run when the dialog opens on `e`: load its name and, when it
     * has an image, that image, turning the flag back on; with no row, reset
     * the form. This is the only place the flag is turned on.
     */
    method Open(e: Option<Entity>)
      modifies this
      ensures entity == e
      ensures e.None? ==> name == "" && imageUrl == "" && !imageFile && uploadSupported == old(uploadSupported)
      ensures e.Some? ==> name == e.value.name && imageFile == old(imageFile)
      ensures e.Some? && e.value.image.Truthy() ==> imageUrl == e.value.image.url && uploadSupported
      ensures e.Some? && !e.value.image.Truthy() ==> imageUrl == old(imageUrl) && uploadSupported == old(uploadSupported)
      ensures isSaving == old(isSaving) && saved == old(saved) && uploads == old(uploads)
      ensures warnings == old(warnings) && errors == old(errors)
    {
      entity := e;
      if e.Some? {
        name := e.value.name;
        if e.value.image.Truthy() {
          imageUrl := e.value.image.url;
          uploadSupported := true;
        }
      } else {
        ResetForm();
      }
    }

    /** A file is chosen or dropped. */
    method ChooseFile()
      modifies this
      ensures imageFile
      ensures name == old(name) && imageUrl == old(imageUrl) && entity == old(entity) && isSaving == old(isSaving)
      ensures uploadSupported == old(uploadSupported) && saved == old(saved) && uploads == old(uploads)
      ensures warnings == old(warnings) && errors == old(errors)
    {
      imageFile := true;
    }

    /** The remove-image button: the file and the URL are cleared. */
    method ClearImage()
      modifies this
      ensures !imageFile && imageUrl == ""
      ensures name == old(name) && entity == old(entity) && isSaving == old(isSaving)
      ensures uploadSupported == old(uploadSupported) && saved == old(saved) && uploads == old(uploads)
      ensures warnings == old(warnings) && errors == old(errors)
    {
      imageFile := false;
      imageUrl := "";
    }

    /** Save is disabled while the name is empty or a save is running. */
    predicate SaveDisabled()
      reads this
    {
      name == "" || isSaving
    }

    /** One data-layer call: `update…` when editing, `create…` otherwise. */
    method Call(image: Option<string>, threw: bool, now: string, faults: Faults) returns (result: Option<Entity>)
      requires HasImageDialog(kind)
      modifies store
      ensures (store.State(), result) == CallSpec(kind, old(store.State()), entity, name, image, threw, now, faults)
    {
      match entity
      case Some(e) =>
        if kind == Factions {
          result := store.UpdateFaction(e.id, name, image, threw, now, faults);
        } else {
          result := store.UpdatePromotion(e.id, name, image, threw, now, faults);
        }
      case None =>
        if kind == Factions {
          result := store.CreateFaction(name, image, threw, now, faults);
        } else {
          result := store.CreatePromotion(name, image, threw, now, faults);
        }
    }

    /** The save call and, in the faction dialog, its retry without an image. */
    method Save(image: Option<string>, escaped: bool, threw: bool, now: string, faults: Faults) returns (result: Option<Entity>)
      requires HasImageDialog(kind)
      modifies this, store
      ensures (store.State(), result) == SaveSpec(kind, old(store.State()), entity, name, image, escaped, threw, now, faults)
      ensures uploadSupported == (old(uploadSupported) && !RetriedWithoutImage(kind, escaped))
      ensures name == old(name) && imageUrl == old(imageUrl) && imageFile == old(imageFile) && entity == old(entity)
      ensures isSaving == old(isSaving) && saved == old(saved) && uploads == old(uploads)
      ensures warnings == old(warnings) && errors == old(errors)
    {
      if !escaped {
        result := Call(image, threw, now, faults);
      } else if kind == Factions {
        result := Call(None, threw, now, faults);
        uploadSupported := false;
      } else {
        result := None;
      }
    }

    /**
     * `handleSave`. `upload` is what the upload does if one is made; `escaped`
     * and `threw` describe the data-layer call as in `SaveSpec`.
     */
    method HandleSave(upload: UploadOutcome, escaped: bool, threw: bool, now: string, faults: Faults) returns (result: Option<Entity>)
      requires HasImageDialog(kind)
      modifies this, store
      ensures var up := UploadStep(old(imageUrl), old(imageFile), old(uploadSupported), upload);
        var expected := SaveSpec(kind, old(store.State()), old(entity), old(name),
                                 ImageArgument(old(uploadSupported), up.finalUrl), escaped, threw, now, faults);
        store.State() == expected.0 && result == expected.1
      ensures var up := UploadStep(old(imageUrl), old(imageFile), old(uploadSupported), upload);
        && uploads == old(uploads) + (if up.attempted then [UploadFolder(kind)] else [])
        && uploadSupported == FlagAfterSave(up.supported && !RetriedWithoutImage(kind, escaped), up.finalUrl, result)
        && warnings == old(warnings) + (if ImageDropped(up.finalUrl, result) then 1 else 0)
      ensures uploadSupported ==> old(uploadSupported)
      ensures result.Some? ==> saved == old(saved) + [result.value] && name == "" && imageUrl == "" && !imageFile
                               && errors == old(errors)
      ensures result.None? ==> saved == old(saved) && name == old(name) && imageUrl == old(imageUrl)
                               && imageFile == old(imageFile) && errors == old(errors) + 1
      ensures !isSaving && entity == old(entity)
      ensures result.Some? ==> SaveDisabled()
      ensures result.None? ==> (SaveDisabled() <==> old(name) == "")
    {
      isSaving := true;
      var supportedAtStart := uploadSupported;
      var finalImageUrl := Upload(upload);
      var image := if supportedAtStart then Some(finalImageUrl) else None;
      result := Save(image, escaped, threw, now, faults);
      Conclude(finalImageUrl, result);
    }

    /** The upload step of a save. */
    method Upload(upload: UploadOutcome) returns (finalImageUrl: string)
      modifies this
      ensures var up := UploadStep(old(imageUrl), old(imageFile), old(uploadSupported), upload);
        && finalImageUrl == up.finalUrl && uploadSupported == up.supported
        && uploads == old(uploads) + (if up.attempted then [UploadFolder(kind)] else [])
      ensures name == old(name) && imageUrl == old(imageUrl) && imageFile == old(imageFile) && entity == old(entity)
      ensures isSaving == old(isSaving) && saved == old(saved) && warnings == old(warnings) && errors == old(errors)
    {
      finalImageUrl := imageUrl;
      if imageFile && uploadSupported {
        uploads := uploads + [UploadFolder(kind)];
        match upload
        case Uploaded(u) =>
          if u != "" {
            finalImageUrl := u;
          }
        case NoUrl =>
        case UploadThrew =>
          uploadSupported := false;
          finalImageUrl := "";
      }
    }

    /** What the dialog does with the data layer's answer. */
    method Conclude(finalImageUrl: string, result: Option<Entity>)
      modifies this
      ensures uploadSupported == FlagAfterSave(old(uploadSupported), finalImageUrl, result)
      ensures warnings == old(warnings) + (if ImageDropped(finalImageUrl, result) then 1 else 0)
      ensures result.Some? ==> saved == old(saved) + [result.value] && name == "" && imageUrl == "" && !imageFile
                               && errors == old(errors)
      ensures result.None? ==> saved == old(saved) && name == old(name) && imageUrl == old(imageUrl)
                               && imageFile == old(imageFile) && errors == old(errors) + 1
      ensures !isSaving && entity == old(entity) && uploads == old(uploads)
    {
      if result.Some? {
        if finalImageUrl != "" && !result.value.image.Truthy() {
          uploadSupported := false;
          warnings := warnings + 1;
        }
        saved := saved + [result.value];
        ResetForm();
      } else {
        errors := errors + 1;
      }
      isSaving := false;
    }
  }

  /**
   * The flag never turns on during a save, and once off it stays off: no
   * later save uploads or sends an image until the dialog opens on a row
   * that has one.
   */
  lemma FlagOffStaysOff(k: Kind, imageUrl: string, hasFile: bool, upload: UploadOutcome, escaped: bool, saved: Option<Entity>)
    ensures var up := UploadStep(imageUrl, hasFile, false, upload);
      && !up.attempted && ImageArgument(false, up.finalUrl) == None
      && !FlagAfterSave(up.supported && !RetriedWithoutImage(k, escaped), up.finalUrl, saved)
  {
  }

  /**
   * On a store whose factions table has no image column, creating a faction
   * with an uploaded image still saves it, without the image, and turns
   * uploads off with a warning.
   */
  lemma FactionSaveWithoutColumn(db: Db, name: string, url: string, now: string, faults: Faults)
    requires !db.factionImages && url != "" && WriteRow !in faults && RetryRow !in faults
    ensures var up := UploadStep("", true, true, Uploaded(url));
      var r := SaveSpec(Factions, db, None, name, ImageArgument(true, up.finalUrl), false, false, now, faults);
      && up.attempted && r.1.Some? && r.1.value.name == name && r.1.value.image == NoColumn
      && ImageDropped(up.finalUrl, r.1) && !FlagAfterSave(up.supported, up.finalUrl, r.1)
  {
    Writes.FactionWithoutColumn(db, name, url, now, faults);
  }

  /**
   * On a store whose promotions table has no image column, a dialog whose
   * flag is on cannot edit a promotion at all (it always sends `image_url`,
   * if only as ""), and it cannot create one with an uploaded image. The
   * failure leaves the flag on, so the "Only the name was saved" warning is
   * never reached for promotions in this way.
   */
  lemma PromotionSaveWithoutColumn(db: Db, e: Entity, imageUrl: string, hasFile: bool, upload: UploadOutcome,
                                   name: string, now: string, faults: Faults)
    requires !db.promotionImages && WriteRow !in faults && !upload.UploadThrew?
    ensures var up := UploadStep(imageUrl, hasFile, true, upload);
      var r := SaveSpec(Promotions, db, Some(e), name, ImageArgument(true, up.finalUrl), false, false, now, faults);
      r == (db, None) && FlagAfterSave(up.supported, up.finalUrl, r.1)
    ensures var up := UploadStep("", true, true, upload);
      var r := SaveSpec(Promotions, db, None, name, ImageArgument(true, up.finalUrl), false, false, now, faults);
      upload.Uploaded? && upload.url != "" ==> r == (db, None) && FlagAfterSave(up.supported, up.finalUrl, r.1)
  {
    if upload.Uploaded? && upload.url != "" {
      Writes.PromotionWithoutColumn(db, name, upload.url, now, faults);
    }
  }

  /**
   * An upload that throws while a row is edited clears the row's stored
   * image: the flag read when the save began is still on, so the emptied URL
   * is sent. Uploads are off afterwards, and no warning is given.
   */
  lemma ThrownUploadClearsImage(k: Kind, db: Db, e: Entity, imageUrl: string, name: string, now: string, faults: Faults)
    requires HasImageDialog(k) && db.ImageColumn(k) && WriteRow !in faults
    requires exists x <- db.Table(k) :: x.id == e.id
    ensures var up := UploadStep(imageUrl, true, true, UploadThrew);
      var r := SaveSpec(k, db, Some(e), name, ImageArgument(true, up.finalUrl), false, false, now, faults);
      && up.attempted && up.finalUrl == "" && !up.supported
      && r.1.Some? && r.1.value.id == e.id && r.1.value.image == ImageUrl("")
      && !ImageDropped(up.finalUrl, r.1) && !FlagAfterSave(up.supported, up.finalUrl, r.1)
  {
    Writes.UpdateEntityImage(db, k, e.id, name, Some(""), now, faults);
  }

  /** A create or update sent without an image keeps every stored image of the table. */
  lemma CallWithoutImageKeepsImages(k: Kind, db: Db, editing: Option<Entity>, name: string, threw: bool, now: string, faults: Faults)
    requires HasImageDialog(k) && UniqueIds(db.Table(k))
    ensures Writes.KeepsImages(db.Table(k), CallSpec(k, db, editing, name, None, threw, now, faults).0.Table(k))
  {
    Writes.NoImageCreatesKeepImages(db, k, name, threw, now, faults);
    if editing.Some? {
      Writes.NoImageUpdatesKeepImages(db, k, editing.value.id, name, threw, now, faults);
    }
  }

  /**
   * A save that starts with the flag off uploads nothing and leaves every
   * stored image of the table as it was, whatever the data layer does:
   * new rows come without an image and edited rows keep theirs.
   */
  lemma FlagOffKeepsImages(k: Kind, db: Db, editing: Option<Entity>, name: string, imageUrl: string, hasFile: bool,
                           upload: UploadOutcome, escaped: bool, threw: bool, now: string, faults: Faults)
    requires HasImageDialog(k) && UniqueIds(db.Table(k))
    ensures var up := UploadStep(imageUrl, hasFile, false, upload);
      && !up.attempted
      && Writes.KeepsImages(db.Table(k), SaveSpec(k, db, editing, name, ImageArgument(false, up.finalUrl), escaped, threw, now, faults).0.Table(k))
  {
    CallWithoutImageKeepsImages(k, db, editing, name, threw, now, faults);
  }

  /**
   * When the faction write throws out of the data layer, the dialog saves
   * the name only, keeping every stored image, and turns uploads off; the
   * promotion dialog saves nothing.
   */
  lemma EscapedSave(k: Kind, db: Db, editing: Option<Entity>, name: string, image: Option<string>, threw: bool,
                    now: string, faults: Faults)
    requires HasImageDialog(k)
    ensures var r := SaveSpec(k, db, editing, name, image, true, threw, now, faults);
      if k == Factions then r == CallSpec(k, db, editing, name, None, threw, now, faults) && RetriedWithoutImage(k, true)
      else r == (db, None) && !RetriedWithoutImage(k, true)
    ensures UniqueIds(db.Table(k)) ==>
      Writes.KeepsImages(db.Table(k), SaveSpec(k, db, editing, name, image, true, threw, now, faults).0.Table(k))
  {
    if UniqueIds(db.Table(k)) {
      CallWithoutImageKeepsImages(k, db, editing, name, threw, now, faults);
    }
  }
}
