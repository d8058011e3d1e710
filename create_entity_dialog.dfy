/** The small dialog the wrestler dialog opens to create an entity by name. */
module CreateEntityDialog {
  import opened Wrappers
  import Text

  /** What a save hands to `onSave`: the trimmed name, or nothing when it is blank. */
  function Submission(name: string): (r: Option<string>)
    ensures r.None? <==> forall i :: 0 <= i < |name| ==> Text.IsSpace(name[i])
    ensures r.Some? ==> r.value == Text.Trim(name) && r.value != []
                        && !Text.IsSpace(r.value[0]) && !Text.IsSpace(r.value[|r.value| - 1])
  {
    var t := Text.Trim(name);
    if t != "" then Some(t) else None
  }

  /** Submitting the submitted name again hands over the same name: trimming is idempotent. */
  lemma SubmissionIdempotent(name: string)
    requires Submission(name).Some?
    ensures Submission(Submission(name).value) == Submission(name)
  {
    Text.TrimIdempotent(name);
  }

  class Dialog {
    var name: string
    var submitted: seq<string>   // the names handed to `onSave`, in order

    constructor ()
      ensures name == "" && submitted == []
    {
      name := "";
      submitted := [];
    }

    /** The input's change handler. */
    method SetName(n: string)
      modifies this
      ensures name == n && submitted == old(submitted)
    {
      name := n;
    }

    /** Save is disabled exactly when the trimmed name is empty. */
    predicate SaveDisabled()
      reads this
    {
      Text.Trim(name) == ""
    }

    /** `handleSave`: a blank name does nothing; otherwise the trimmed name is submitted and the field cleared. */
    method HandleSave()
      modifies this
      ensures Submission(old(name)).Some? ==> submitted == old(submitted) + [Submission(old(name)).value] && name == ""
      ensures Submission(old(name)).None? ==> submitted == old(submitted) && name == old(name)
    {
      var trimmed := Text.Trim(name);
      if trimmed != "" {
        submitted := submitted + [trimmed];
        name := "";
      }
    }
  }

  /** Save is enabled exactly when a save would submit something. */
  lemma SaveDisabledIffBlank(d: Dialog)
    ensures d.SaveDisabled() <==> Submission(d.name).None?
  {
  }
}
