/** The `selected` id list of RepositoryList.tsx: the toggle run by
    `handleSelect` and the payload built by `handleConfirmAction`. */
module Selection {
  import opened Seqs
  import opened Repositories

  /** `prev.filter((i) => i !== id)`. */
  function Without(s: seq<int>, id: int): (r: seq<int>)
    ensures forall x :: x in r <==> x in s && x != id
    ensures id !in s ==> r == s
    ensures IsSubsequence(r, s)
  {
    if s == [] then []
    else
      var rest := Without(s[1..], id);
      assert forall x :: x in s <==> x == s[0] || x in s[1..];
      assert s == [s[0]] + s[1..];
      if s[0] != id then [s[0]] + rest else rest
  }

  /** Removing `id` drops every copy of it and keeps every other id as
      often as it was there. */
  lemma {:induction false} WithoutCounts(s: seq<int>, id: int, x: int)
    ensures multiset(Without(s, id))[x] == if x == id then 0 else multiset(s)[x]
  {
    if s != [] {
      WithoutCounts(s[1..], id, x);
      assert s == [s[0]] + s[1..];
    }
  }

  /** `prev.includes(id) ? prev.filter(...) : [...prev, id]`. */
  function Toggle(selected: seq<int>, id: int): seq<int> {
    if id in selected then Without(selected, id) else selected + [id]
  }

  /** Toggling flips the membership of `id` and of nothing else. */
  lemma ToggleMembership(selected: seq<int>, id: int, x: int)
    ensures x in Toggle(selected, id) <==> (if x == id then x !in selected else x in selected)
  {
  }

  /** Elements of a subsequence of a duplicate-free sequence are distinct too. */
  lemma {:induction false} SubsequenceNoDup(a: seq<int>, b: seq<int>)
    requires IsSubsequence(a, b) && NoDup(b)
    ensures NoDup(a)
    decreases |b|
  {
    if b != [] {
      assert NoDup(b[1..]);
      if a != [] && a[0] == b[0] && IsSubsequence(a[1..], b[1..]) {
        SubsequenceNoDup(a[1..], b[1..]);
        SubsequenceMembers(a[1..], b[1..]);
        assert b[0] !in b[1..];
      } else {
        SubsequenceNoDup(a, b[1..]);
      }
    }
  }

  /** `selected` never holds an id twice. */
  lemma ToggleKeepsNoDup(selected: seq<int>, id: int)
    requires NoDup(selected)
    ensures NoDup(Toggle(selected, id))
  {
    if id in selected {
      SubsequenceNoDup(Without(selected, id), selected);
    }
  }

  /** Toggling the same id twice gives back the same set of ids, and the
      very same list when the id was not selected. */
  lemma ToggleTwice(selected: seq<int>, id: int)
    ensures forall x :: x in Toggle(Toggle(selected, id), id) <==> x in selected
    ensures id !in selected ==> Toggle(Toggle(selected, id), id) == selected
  {
    if id !in selected {
      var once := selected + [id];
      assert id in once;
      var twice := Without(once, id);
      assert IsSubsequence(twice, once);
      assert forall x :: x in twice <==> x in selected;
      WithoutAppended(selected, id);
    }
  }

  /** Removing an appended id that was absent restores the list. */
  lemma {:induction false} WithoutAppended(s: seq<int>, id: int)
    requires id !in s
    ensures Without(s + [id], id) == s
  {
    if s != [] {
      assert (s + [id])[1..] == s[1..] + [id];
      WithoutAppended(s[1..], id);
    }
  }

  /** `repositories.filter((repo) => selected.includes(repo.id))`. */
  function SelectedRepos(repos: seq<Repository>, selected: seq<int>): (chosen: seq<Repository>)
    ensures forall r :: r in chosen <==> r in repos && r.id in selected
  {
    if repos == [] then []
    else
      var rest := SelectedRepos(repos[1..], selected);
      assert forall r :: r in repos <==> r == repos[0] || r in repos[1..];
      if repos[0].id in selected then [repos[0]] + rest else rest
  }

  /** A selected repository is taken as often as it occurs in the list;
      an unselected one never. */
  lemma {:induction false} SelectedReposCounts(repos: seq<Repository>, selected: seq<int>, r: Repository)
    ensures multiset(SelectedRepos(repos, selected))[r] == if r.id in selected then multiset(repos)[r] else 0
  {
    if repos != [] {
      SelectedReposCounts(repos[1..], selected, r);
      assert repos == [repos[0]] + repos[1..];
    }
  }

  /** `.map((repo) => repo.full_name)`. */
  function FullNames(repos: seq<Repository>): (names: seq<string>)
    ensures |names| == |repos|
    ensures forall i :: 0 <= i < |repos| ==> names[i] == repos[i].fullName
  {
    if repos == [] then [] else [repos[0].fullName] + FullNames(repos[1..])
  }

  /** The payload of a confirmed batch action. */
  function SelectedFullNames(repos: seq<Repository>, selected: seq<int>): seq<string> {
    FullNames(SelectedRepos(repos, selected))
  }

  /** The payload follows the order of the unfiltered source list, not the
      order of selection. */
  lemma {:induction false} SelectedReposInSourceOrder(repos: seq<Repository>, selected: seq<int>)
    ensures IsSubsequence(SelectedRepos(repos, selected), repos)
  {
    if repos != [] {
      SelectedReposInSourceOrder(repos[1..], selected);
    }
  }

  /** Every name sent belongs to a selected repository of the current
      list; a selected id with no repository contributes nothing. */
  lemma PayloadNamesSelectedRepos(repos: seq<Repository>, selected: seq<int>)
    ensures var payload := SelectedFullNames(repos, selected);
      && |payload| == |SelectedRepos(repos, selected)|
      && forall i :: 0 <= i < |payload| ==>
           var r := SelectedRepos(repos, selected)[i];
           r in repos && r.id in selected && payload[i] == r.fullName
  {
  }

  /** Only which ids are selected matters, not the order in which they
      were clicked. */
  lemma {:induction false} PayloadIgnoresSelectionOrder(repos: seq<Repository>, s1: seq<int>, s2: seq<int>)
    requires forall x :: x in s1 <==> x in s2
    ensures SelectedRepos(repos, s1) == SelectedRepos(repos, s2)
    ensures SelectedFullNames(repos, s1) == SelectedFullNames(repos, s2)
  {
    if repos != [] {
      PayloadIgnoresSelectionOrder(repos[1..], s1, s2);
      assert (repos[0].id in s1) == (repos[0].id in s2);
    }
  }

  /** Ids that match no repository of the current list send nothing: a
      selection made stale by a refetch yields an empty payload. */
  lemma {:induction false} StaleSelectionSendsNothing(repos: seq<Repository>, selected: seq<int>)
    requires forall r :: r in repos ==> r.id !in selected
    ensures SelectedFullNames(repos, selected) == []
  {
    if repos != [] {
      assert repos[0] in repos;
      StaleSelectionSendsNothing(repos[1..], selected);
    }
  }
}
