/** The `RepositoryList` component: its six pieces of state, the handlers
    that change them, and the list it renders. The `onUnstar`/`onDelete`
    props are not called here; each handler returns the call it makes. */
module RepositoryList {
  import opened Seqs
  import opened Repositories
  import opened RepoSort
  import opened Selection

  datatype Action = Unstar | Delete

  /** `{ open, action }` of the confirmation dialog. */
  datatype ConfirmDialog = ConfirmDialog(open: bool, action: Action)

  const ClosedDialog := ConfirmDialog(false, Unstar)

  /** One call of the `onUnstar` (action `Unstar`) or `onDelete` (action
      `Delete`) prop with its list of full names. */
  datatype BatchCall = BatchCall(action: Action, fullNames: seq<string>)

  /** `filteredAndSortedRepos`: filter first, then sort the survivors. */
  function FilteredAndSorted(repos: seq<Repository>, lower: string -> string, collate: Collation,
                             searchTerm: string, languageFilter: string, spec: SortSpec): seq<Repository> {
    SortRepos(collate, spec, FilterRepos(repos, lower, searchTerm, languageFilter))
  }

  /** The rendered list holds exactly the matching repositories, as often
      as the source does, ordered by the sort key, with ties in source order. */
  lemma ViewCorrect(repos: seq<Repository>, lower: string -> string, collate: Collation,
                    searchTerm: string, languageFilter: string, spec: SortSpec, k: Repository)
    requires ConsistentFor(collate, spec.field)
    ensures var view := FilteredAndSorted(repos, lower, collate, searchTerm, languageFilter, spec);
      && multiset(view)[k] == (if Keep(lower, k, searchTerm, languageFilter) then multiset(repos)[k] else 0)
      && Sorted(collate, spec, view)
      && Ties(collate, spec.field, view, k)
         == Ties(collate, spec.field, FilterRepos(repos, lower, searchTerm, languageFilter), k)
  {
    var kept := FilterRepos(repos, lower, searchTerm, languageFilter);
    FilterCounts(repos, lower, searchTerm, languageFilter, k);
    SortSorted(collate, spec, kept);
    SortStable(collate, spec, kept, k);
  }

  class RepositoryListState {
    var selected: seq<int>
    var searchTerm: string
    var sortField: SortField
    var sortOrder: SortOrder
    var languageFilter: string
    var confirmDialog: ConfirmDialog

    /** `selected` holds every id at most once. */
    ghost predicate Valid()
      reads this
    {
      NoDup(selected)
    }

    /** The initial `useState` values. */
    constructor ()
      ensures Valid()
      ensures selected == [] && searchTerm == "" && languageFilter == ""
      ensures sortField == Updated && sortOrder == Desc
      ensures confirmDialog == ClosedDialog
    {
      selected := [];
      searchTerm := "";
      sortField := Updated;
      sortOrder := Desc;
      languageFilter := "";
      confirmDialog := ClosedDialog;
    }

    /** The list rendered for the given props. */
    function View(repositories: seq<Repository>, lower: string -> string, collate: Collation): seq<Repository>
      reads this
    {
      FilteredAndSorted(repositories, lower, collate, searchTerm, languageFilter, SortSpec(sortField, sortOrder))
    }

    /** The options of the language select, after "All". Having no `reads`
        clause, they cannot depend on the search, filter or sort state. */
    function LanguageOptions(repositories: seq<Repository>): seq<string> {
      Languages(repositories)
    }

    /** `handleSelect(id)`, run when a card is clicked. */
    method HandleSelect(id: int)
      requires Valid()
      modifies this
      ensures Valid()
      ensures selected == Toggle(old(selected), id)
      ensures forall x :: x in selected <==> (if x == id then x !in old(selected) else x in old(selected))
      ensures searchTerm == old(searchTerm) && languageFilter == old(languageFilter)
      ensures sortField == old(sortField) && sortOrder == old(sortOrder) && confirmDialog == old(confirmDialog)
    {
      ToggleKeepsNoDup(selected, id);
      forall x ensures x in Toggle(selected, id) <==> (if x == id then x !in selected else x in selected) {
        ToggleMembership(selected, id, x);
      }
      selected := Toggle(selected, id);
    }

    /** The search box's `onChange`. */
    method SetSearchTerm(term: string)
      requires Valid()
      modifies this
      ensures Valid()
      ensures searchTerm == term
      ensures selected == old(selected) && languageFilter == old(languageFilter)
      ensures sortField == old(sortField) && sortOrder == old(sortOrder) && confirmDialog == old(confirmDialog)
    {
      searchTerm := term;
    }

    /** The language select's `onChange`; "All" is the empty string. */
    method SetLanguageFilter(language: string)
      requires Valid()
      modifies this
      ensures Valid()
      ensures languageFilter == language
      ensures selected == old(selected) && searchTerm == old(searchTerm)
      ensures sortField == old(sortField) && sortOrder == old(sortOrder) && confirmDialog == old(confirmDialog)
    {
      languageFilter := language;
    }

    /** The sort select's `onChange`. The sort order has no control and stays descending. */
    method SetSortField(field: SortField)
      requires Valid()
      modifies this
      ensures Valid()
      ensures sortField == field
      ensures selected == old(selected) && searchTerm == old(searchTerm) && languageFilter == old(languageFilter)
      ensures sortOrder == old(sortOrder) && confirmDialog == old(confirmDialog)
    {
      sortField := field;
    }

    /** A click on "Unstar Selected" or "Delete Selected": the button is
        disabled while nothing is selected, so the click then does nothing. */
    method OpenConfirmDialog(action: Action)
      requires Valid()
      modifies this
      ensures Valid()
      ensures confirmDialog == if old(selected) == [] then old(confirmDialog) else ConfirmDialog(true, action)
      ensures selected == old(selected) && searchTerm == old(searchTerm) && languageFilter == old(languageFilter)
      ensures sortField == old(sortField) && sortOrder == old(sortOrder)
    {
      if |selected| != 0 {
        confirmDialog := ConfirmDialog(true, action);
      }
    }

    /** "Cancel", or the dialog's `onClose`: closes it and keeps the selection. */
    method CloseConfirmDialog()
      requires Valid()
      modifies this
      ensures Valid()
      ensures confirmDialog == ClosedDialog
      ensures selected == old(selected) && searchTerm == old(searchTerm) && languageFilter == old(languageFilter)
      ensures sortField == old(sortField) && sortOrder == old(sortOrder)
    {
      confirmDialog := ClosedDialog;
    }

    /** `handleConfirmAction`: exactly one callback, chosen by the dialog's
        action, receives the full names of the selected repositories of the
        unfiltered list in source order; then the dialog closes (its action
        back to `Unstar`) and the selection is emptied. */
    method HandleConfirmAction(repositories: seq<Repository>) returns (call: BatchCall)
      requires Valid()
      modifies this
      ensures Valid()
      ensures call.action == old(confirmDialog.action)
      ensures call.fullNames == SelectedFullNames(repositories, old(selected))
      ensures confirmDialog == ClosedDialog && selected == []
      ensures searchTerm == old(searchTerm) && languageFilter == old(languageFilter)
      ensures sortField == old(sortField) && sortOrder == old(sortOrder)
    {
      var selectedRepos := SelectedFullNames(repositories, selected);
      if confirmDialog.action == Unstar {
        call := BatchCall(Unstar, selectedRepos);
      } else {
        call := BatchCall(Delete, selectedRepos);
      }
      confirmDialog := ClosedDialog;
      selected := [];
    }

    /** A card's own unstar or delete button: one call with a one-element
        list; neither the selection nor the dialog is touched. */
    method CardAction(fullName: string, action: Action) returns (call: BatchCall)
      ensures call.action == action && call.fullNames == [fullName]
    {
      call := BatchCall(action, [fullName]);
    }
  }
}
