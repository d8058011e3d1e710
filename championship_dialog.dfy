/** The championship dialog of the championship list: a name field and its save. */
module ChampionshipDialog {
  import opened Wrappers
  import opened Records
  import opened Schema
  import Seqs
  import Writes
  import Database

  /** The data-layer call: `updateChampionship` when editing, `createChampionship` otherwise. */
  function SaveSpec(db: Db, editing: Option<Entity>, name: string, now: string, faults: Faults): (r: (Db, Option<Entity>))
    ensures r.1.None? ==> r.0 == db
    ensures r.1.Some? ==> r.1.value.name == name
    ensures r.1.Some? ==> r.1.value.id == if editing.Some? then editing.value.id else db.nextId
  {
    match editing
    case Some(e) => Writes.UpdateChampionshipSpec(db, e.id, name, now, faults)
    case None => Writes.CreateChampionshipSpec(db, name, now, faults)
  }

  class Dialog {
    const store: Database.Store
    var championship: Option<Entity>   // the championship being edited, if any
    var name: string
    var isSaving: bool
    var saved: seq<Entity>             // the rows handed to `onSave`, in order
    var errors: nat                    // "Failed to save championship" notices

    constructor (store: Database.Store)
      ensures this.store == store && championship == None && name == "" && !isSaving && saved == [] && errors == 0
    {
      this.store := store;
      championship := None;
      name := "";
      isSaving := false;
      saved := [];
      errors := 0;
    }

    /** The effect run when the dialog opens on `c`: its name, or an empty form. */
    method Open(c: Option<Entity>)
      modifies this
      ensures championship == c && name == (if c.Some? then c.value.name else "")
      ensures isSaving == old(isSaving) && saved == old(saved) && errors == old(errors)
    {
      championship := c;
      if c.Some? {
        name := c.value.name;
      } else {
        name := "";
      }
    }

    /** Save is disabled while the name is empty or a save is running. */
    predicate SaveDisabled()
      reads this
    {
      name == "" || isSaving
    }

    /**
     * `handleSave`: update when a championship was supplied, create
     * otherwise; a saved row goes to `onSave` and resets the form, a null
     * one is reported and leaves the form as it was.
     */
    method HandleSave(now: string, faults: Faults) returns (result: Option<Entity>)
      modifies this, store
      ensures (store.State(), result) == SaveSpec(old(store.State()), old(championship), old(name), now, faults)
      ensures result.Some? ==> saved == old(saved) + [result.value] && name == "" && errors == old(errors)
      ensures result.None? ==> saved == old(saved) && name == old(name) && errors == old(errors) + 1
      ensures !isSaving && championship == old(championship)
      ensures result.Some? ==> SaveDisabled()
      ensures result.None? ==> (SaveDisabled() <==> old(name) == "")
    {
      isSaving := true;
      match championship {
        case Some(c) =>
          result := store.UpdateChampionship(c.id, name, now, faults);
        case None =>
          result := store.CreateChampionship(name, now, faults);
      }
      if result.Some? {
        saved := saved + [result.value];
        name := "";
      } else {
        errors := errors + 1;
      }
      isSaving := false;
    }
  }

  /**
   * Editing updates the row with the championship's id in place and adds
   * none; creating appends a new row. A save without a store error always
   * succeeds when creating, and when editing exactly if the row exists.
   */
  lemma SaveUpdatesIffEditing(db: Db, editing: Option<Entity>, name: string, now: string, faults: Faults)
    requires WriteRow !in faults
    ensures var r := SaveSpec(db, editing, name, now, faults);
      && (editing.None? ==> r.1.Some? && r.1.value.id == db.nextId && r.0.championships == db.championships + [r.1.value])
      && (editing.Some? ==> |r.0.championships| == |db.championships| && r.0.nextId == db.nextId
                            && (r.1.Some? <==> exists x <- db.championships :: x.id == editing.value.id)
                            && (r.1.Some? ==> r.1.value.id == editing.value.id && r.1.value.name == name
                                              && r.1.value in r.0.championships))
  {
    if editing.Some? {
      var id := editing.value.id;
      var r := SaveSpec(db, editing, name, now, faults);
      var found := Seqs.Find(db.championships, (e: Entity) => e.id == id);
      if found.Some? {
        var i :| 0 <= i < |db.championships| && db.championships[i] == found.value && found.value.id == id;
        assert r.0.championships[i] == r.1.value;
      }
    }
  }
}
