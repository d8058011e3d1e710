/** The filter dialog: the option lists offered per kind and the check-box handlers. */
module FilterDialog {
  import opened Wrappers
  import opened Records
  import Seqs
  import Text
  import opened WrestlerList

  /** `w.<kind>?.map(e => e.name) || []` */
  function NamesOf(w: Wrestler, k: Kind): seq<string> {
    if w.Related(k).None? then []
    else seq(|w.Related(k).value|, i requires 0 <= i < |w.Related(k).value| => w.Related(k).value[i].name)
  }

  /** `wrestlers.flatMap(...)`: every associated name of the kind, wrestler by wrestler. */
  function Names(ws: seq<Wrestler>, k: Kind): seq<string> {
    if ws == [] then [] else NamesOf(ws[0], k) + Names(ws[1..], k)
  }

  /** `Array.from(new Set(...))`: the names without repeats, in order of first occurrence. */
  function Options(ws: seq<Wrestler>, k: Kind): seq<string> {
    Seqs.Dedup(Names(ws, k))
  }

  lemma {:induction false} NamesMembers(ws: seq<Wrestler>, k: Kind, name: string)
    ensures name in Names(ws, k) <==> exists w <- ws :: w.Related(k).Some? && exists e <- w.Related(k).value :: e.name == name
  {
    if ws != [] {
      NamesMembers(ws[1..], k, name);
      assert ws == [ws[0]] + ws[1..];
      if ws[0].Related(k).Some? {
        var es := ws[0].Related(k).value;
        if name in NamesOf(ws[0], k) {
          var i :| 0 <= i < |es| && NamesOf(ws[0], k)[i] == name;
          assert es[i] in es;
        }
        if exists e <- es :: e.name == name {
          var e :| e in es && e.name == name;
          var i :| 0 <= i < |es| && es[i] == e;
          assert NamesOf(ws[0], k)[i] == name;
        }
      }
    }
  }

  /**
   * Each option list has no repeats, and a name is offered exactly when some
   * loaded wrestler has an associated entity of that kind with that name.
   */
  lemma OptionsSpec(ws: seq<Wrestler>, k: Kind, name: string)
    ensures Seqs.NoDuplicates(Options(ws, k))
    ensures name in Options(ws, k) <==> exists w <- ws :: w.Related(k).Some? && exists e <- w.Related(k).value :: e.name == name
  {
    NamesMembers(ws, k, name);
  }

  /** Options come in the order in which the names first occur across the loaded wrestlers. */
  lemma OptionsFirstOccurrenceOrder(ws: seq<Wrestler>, k: Kind, i: int, j: int)
    requires 0 <= i < j < |Options(ws, k)|
    ensures Seqs.IndexOf(Names(ws, k), Options(ws, k)[i]) < Seqs.IndexOf(Names(ws, k), Options(ws, k)[j])
  {
    Seqs.DedupFirstOccurrenceOrder(Names(ws, k), i, j);
  }

  function WithSelected(f: Filters, k: Kind, names: seq<string>): Filters {
    match k
    case Promotions => f.(promotions := names)
    case Factions => f.(factions := names)
    case Championships => f.(championships := names)
  }

  /** `handlePromotionChange`, `handleFactionChange`, `handleChampionshipChange` */
  function HandleChange(f: Filters, k: Kind, name: string, checked: bool): Filters {
    if checked then WithSelected(f, k, f.Selected(k) + [name])
    else WithSelected(f, k, Seqs.Without(f.Selected(k), name))
  }

  /** `clearFilters` */
  function Cleared(): (f: Filters)
    ensures forall k :: f.Selected(k) == []
  {
    Filters([], [], [])
  }

  /**
   * After `clearFilters` the list shows exactly the loaded wrestlers whose
   * name matches the search, whatever their relations; with no search, all
   * of them in their order.
   */
  lemma ClearedShowsSearch(ws: seq<Wrestler>, query: string, w: Wrestler)
    ensures w in FilteredWrestlers(ws, query, Cleared()) <==> w in ws && Text.Contains(Text.Lower(w.row.name), Text.Lower(query))
    ensures FilteredWrestlers(ws, "", Cleared()) == ws
  {
    FilteredMembers(ws, query, Cleared(), w);
    NoFiltersKeepAll(ws);
  }

  /**
   * Checking a box appends the name to that kind's list; unchecking removes
   * every occurrence of it and keeps the other names, in order. The other
   * two lists never change.
   */
  lemma HandleChangeSpec(f: Filters, k: Kind, name: string, checked: bool)
    ensures var g := HandleChange(f, k, name, checked);
      && (forall j :: j != k ==> g.Selected(j) == f.Selected(j))
      && (checked ==> g.Selected(k) == f.Selected(k) + [name])
      && (!checked ==> name !in g.Selected(k)
                       && Seqs.IsSubsequence(g.Selected(k), f.Selected(k))
                       && forall x :: x != name ==> multiset(g.Selected(k))[x] == multiset(f.Selected(k))[x])
  {
    Seqs.WithoutSpec(f.Selected(k), name);
  }

  /** Checking and then unchecking a name that was not selected restores the filters. */
  lemma CheckThenUncheck(f: Filters, k: Kind, name: string)
    requires name !in f.Selected(k)
    ensures HandleChange(HandleChange(f, k, name, true), k, name, false) == f
  {
    Seqs.WithoutAppended(f.Selected(k), name);
  }
}
