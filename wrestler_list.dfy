/** The wrestler list's search and filters: which loaded wrestlers are shown. */
module WrestlerList {
  import opened Wrappers
  import opened Records
  import Seqs
  import Text

  /** The names selected in the filter dialog, per kind. */
  datatype Filters = Filters(promotions: seq<string>, factions: seq<string>, championships: seq<string>)
  {
    function Selected(k: Kind): seq<string> {
      match k
      case Promotions => promotions
      case Factions => factions
      case Championships => championships
    }
  }

  /** `entities.some(e => selected.includes(e.name))` */
  predicate AnyNamed(es: seq<Entity>, selected: seq<string>) {
    es != [] && (es[0].name in selected || AnyNamed(es[1..], selected))
  }

  lemma {:induction false} AnyNamedIff(es: seq<Entity>, selected: seq<string>)
    ensures AnyNamed(es, selected) <==> exists e <- es :: e.name in selected
  {
    if es != [] {
      AnyNamedIff(es[1..], selected);
      assert es == [es[0]] + es[1..];
    }
  }

  /** `selected.length === 0 || wrestler.<kind>?.some(...)`: an absent list makes `?.` give undefined, which is falsy. */
  predicate MatchesKind(w: Wrestler, k: Kind, selected: seq<string>) {
    |selected| == 0 || (w.Related(k).Some? && AnyNamed(w.Related(k).value, selected))
  }

  /** The search test AND-ed with the three kind tests. */
  predicate Matches(w: Wrestler, query: string, filters: Filters) {
    && Text.MatchesQuery(w.row.name, query)
    && MatchesKind(w, Promotions, filters.promotions)
    && MatchesKind(w, Factions, filters.factions)
    && MatchesKind(w, Championships, filters.championships)
  }

  /** `filteredWrestlers` */
  function FilteredWrestlers(ws: seq<Wrestler>, query: string, filters: Filters): seq<Wrestler> {
    Seqs.Filter(ws, (w: Wrestler) => Matches(w, query, filters))
  }

  /** One kind's test: no names selected, or some associated entity carries a selected name. */
  lemma MatchesKindIff(w: Wrestler, k: Kind, selected: seq<string>)
    ensures MatchesKind(w, k, selected) <==>
      selected == [] || (w.Related(k).Some? && exists e <- w.Related(k).value :: e.name in selected)
  {
    if w.Related(k).Some? {
      AnyNamedIff(w.Related(k).value, selected);
    }
  }

  /**
   * A wrestler is shown exactly when it is loaded, its lower-cased name
   * contains the lower-cased query, and it passes the test of every kind.
   */
  lemma FilteredMembers(ws: seq<Wrestler>, query: string, filters: Filters, w: Wrestler)
    ensures w in FilteredWrestlers(ws, query, filters) <==>
      && w in ws
      && Text.Contains(Text.Lower(w.row.name), Text.Lower(query))
      && forall k :: filters.Selected(k) == []
                     || (w.Related(k).Some? && exists e <- w.Related(k).value :: e.name in filters.Selected(k))
  {
    Seqs.FilterMembers(ws, (x: Wrestler) => Matches(x, query, filters), w);
    MatchesKindIff(w, Promotions, filters.promotions);
    MatchesKindIff(w, Factions, filters.factions);
    MatchesKindIff(w, Championships, filters.championships);
    assert forall k :: MatchesKind(w, k, filters.Selected(k)) <==> (filters.Selected(k) == []
                     || (w.Related(k).Some? && exists e <- w.Related(k).value :: e.name in filters.Selected(k))) by {
      forall k ensures MatchesKind(w, k, filters.Selected(k)) <==> (filters.Selected(k) == []
                     || (w.Related(k).Some? && exists e <- w.Related(k).value :: e.name in filters.Selected(k))) {
        MatchesKindIff(w, k, filters.Selected(k));
      }
    }
    assert Matches(w, query, filters) <==> Text.MatchesQuery(w.row.name, query) && forall k :: MatchesKind(w, k, filters.Selected(k)) by {
      assert filters.Selected(Promotions) == filters.promotions;
      assert filters.Selected(Factions) == filters.factions;
      assert filters.Selected(Championships) == filters.championships;
    }
  }

  /** An empty query and no selected names show every loaded wrestler, in order. */
  lemma NoFiltersKeepAll(ws: seq<Wrestler>)
    ensures FilteredWrestlers(ws, "", Filters([], [], [])) == ws
  {
    forall i | 0 <= i < |ws| ensures Matches(ws[i], "", Filters([], [], [])) {
      Text.EmptyQueryMatches(ws[i].row.name);
    }
    Seqs.FilterKeepsAll(ws, (w: Wrestler) => Matches(w, "", Filters([], [], [])));
  }

  /** A wrestler whose list of a kind was not looked up never passes a non-empty filter of that kind. */
  lemma AbsentRelationNeverMatches(ws: seq<Wrestler>, query: string, filters: Filters, w: Wrestler, k: Kind)
    requires w.Related(k).None? && filters.Selected(k) != []
    ensures w !in FilteredWrestlers(ws, query, filters)
  {
    FilteredMembers(ws, query, filters, w);
  }

  /** The shown wrestlers keep the order of the loaded list. */
  lemma FilteredIsSubsequence(ws: seq<Wrestler>, query: string, filters: Filters)
    ensures Seqs.IsSubsequence(FilteredWrestlers(ws, query, filters), ws)
  {
    Seqs.FilterIsSubsequence(ws, (w: Wrestler) => Matches(w, query, filters));
  }
}
