/** The repository record the list view works on, and the two memoised
    derivations of RepositoryList.tsx that do not sort: the language
    options and the search/language filter. */
module Repositories {
  import opened Wrappers
  import opened Strings
  import opened Seqs

  /** A repository as the view reads it. `updated` is `updated_at`
      already parsed to an instant; owner and URL are not read here. */
  datatype Repository = Repository(
    id: int,
    name: string,
    fullName: string,
    description: Option<string>,
    language: Option<string>,
    stars: int,
    updated: int)

  // ---------------------------------------------------------------------
  // Filter. `lower` stands for the host's `String.prototype.toLowerCase`.
  // ---------------------------------------------------------------------

  /** The search box matches the lower-cased name, or the lower-cased
      description when there is one. */
  predicate MatchesSearch(lower: string -> string, r: Repository, searchTerm: string) {
    Includes(lower(r.name), lower(searchTerm))
    || (r.description.Some? && Includes(lower(r.description.value), lower(searchTerm)))
  }

  /** The empty language filter ("All") accepts everything; any other
      value must equal the repository's language exactly. */
  predicate MatchesLanguage(r: Repository, languageFilter: string) {
    languageFilter == "" || r.language == Some(languageFilter)
  }

  predicate Keep(lower: string -> string, r: Repository, searchTerm: string, languageFilter: string) {
    MatchesSearch(lower, r, searchTerm) && MatchesLanguage(r, languageFilter)
  }

  /** `repositories.filter(...)`: the repositories that match both the
      search term and the language filter. */
  function FilterRepos(repos: seq<Repository>, lower: string -> string, searchTerm: string, languageFilter: string)
    : (kept: seq<Repository>)
    ensures forall r :: r in kept <==> r in repos && Keep(lower, r, searchTerm, languageFilter)
    ensures |kept| <= |repos|
  {
    if repos == [] then []
    else
      var rest := FilterRepos(repos[1..], lower, searchTerm, languageFilter);
      assert forall r :: r in repos <==> r == repos[0] || r in repos[1..];
      if Keep(lower, repos[0], searchTerm, languageFilter) then [repos[0]] + rest else rest
  }

  /** The filter keeps the source order: its output is a subsequence of the input. */
  lemma {:induction false} FilterIsSubsequence(repos: seq<Repository>, lower: string -> string, searchTerm: string, languageFilter: string)
    ensures IsSubsequence(FilterRepos(repos, lower, searchTerm, languageFilter), repos)
  {
    if repos != [] {
      FilterIsSubsequence(repos[1..], lower, searchTerm, languageFilter);
    }
  }

  /** Every matching repository appears as often as in the input; no other one appears. */
  lemma {:induction false} FilterCounts(repos: seq<Repository>, lower: string -> string, searchTerm: string, languageFilter: string, r: Repository)
    ensures multiset(FilterRepos(repos, lower, searchTerm, languageFilter))[r]
         == if Keep(lower, r, searchTerm, languageFilter) then multiset(repos)[r] else 0
  {
    if repos != [] {
      FilterCounts(repos[1..], lower, searchTerm, languageFilter, r);
      assert repos == [repos[0]] + repos[1..];
    }
  }

  /** A repository without a description can only match on its name, and
      one without a language fails every non-empty language filter. */
  lemma NullFieldsNeverMatch(lower: string -> string, r: Repository, searchTerm: string, languageFilter: string)
    ensures r.description.None? ==> (MatchesSearch(lower, r, searchTerm) <==> Includes(lower(r.name), lower(searchTerm)))
    ensures r.language.None? && languageFilter != "" ==> r !in FilterRepos([r], lower, searchTerm, languageFilter)
  {
  }

  /** With an empty search term and the "All" language option nothing is
      filtered out (lower-casing the empty string gives the empty string). */
  lemma {:induction false} EmptyCriteriaKeepAll(repos: seq<Repository>, lower: string -> string)
    requires lower("") == ""
    ensures FilterRepos(repos, lower, "", "") == repos
  {
    if repos != [] {
      EmptyCriteriaKeepAll(repos[1..], lower);
      assert Includes(lower(repos[0].name), "") by {
        assert OccursAt(lower(repos[0].name), "", 0);
      }
    }
  }

  // ---------------------------------------------------------------------
  // Language options: `Array.from(new Set(repositories.map(r => r.language).filter(Boolean)))`.
  // ---------------------------------------------------------------------

  /** `repositories.map(r => r.language).filter(Boolean)`: null and the
      empty string are falsy and dropped. */
  function TruthyLanguages(repos: seq<Repository>): (langs: seq<string>)
    ensures forall x :: x in langs <==> x != "" && exists r :: r in repos && r.language == Some(x)
  {
    if repos == [] then []
    else
      var rest := TruthyLanguages(repos[1..]);
      assert forall r :: r in repos <==> r == repos[0] || r in repos[1..];
      match repos[0].language
      case Some(l) => if l != "" then [l] + rest else rest
      case None => rest
  }

  /** Position of the first repository whose language is `x`. */
  function FirstRepoWith(repos: seq<Repository>, x: string): (i: nat)
    requires exists r :: r in repos && r.language == Some(x)
    ensures i < |repos| && repos[i].language == Some(x)
    ensures forall k :: 0 <= k < i ==> repos[k].language != Some(x)
  {
    if repos[0].language == Some(x) then 0
    else
      assert exists r :: r in repos[1..] && r.language == Some(x) by {
        var r :| r in repos && r.language == Some(x);
        assert r != repos[0];
      }
      1 + FirstRepoWith(repos[1..], x)
  }

  /** The truthy languages come in the order of the repositories that carry
      them: the first occurrences of two of them are in the same order in
      both lists. */
  lemma {:induction false} TruthyLanguagesFollowRepos(repos: seq<Repository>, x: string, y: string)
    requires x in TruthyLanguages(repos) && y in TruthyLanguages(repos)
    ensures FirstIndex(TruthyLanguages(repos), x) < FirstIndex(TruthyLanguages(repos), y)
        <==> FirstRepoWith(repos, x) < FirstRepoWith(repos, y)
  {
    var langs := TruthyLanguages(repos);
    var rest := repos[1..];
    var l := repos[0].language;
    if l.Some? && l.value != "" {
      assert langs == [l.value] + TruthyLanguages(rest);
      if x != l.value && y != l.value {
        TruthyLanguagesFollowRepos(rest, x, y);
      }
    } else {
      assert langs == TruthyLanguages(rest);
      TruthyLanguagesFollowRepos(rest, x, y);
    }
  }

  /** `Array.from(new Set(s))`: each value once, at its first insertion. */
  function Distinct(s: seq<string>): (d: seq<string>)
    ensures forall x :: x in d <==> x in s
    ensures NoDup(d)
  {
    if s == [] then []
    else
      var init := Distinct(s[..|s| - 1]);
      var last := s[|s| - 1];
      assert s == s[..|s| - 1] + [last];
      if last in init then init else init + [last]
  }

  /** The language options offered next to "All". */
  function Languages(repos: seq<Repository>): seq<string> {
    Distinct(TruthyLanguages(repos))
  }

  /** `Distinct` lists values in the order of their first occurrence. */
  lemma {:induction false} DistinctFirstOccurrenceOrder(s: seq<string>)
    ensures forall i, j :: 0 <= i < j < |Distinct(s)| ==> FirstIndex(s, Distinct(s)[i]) < FirstIndex(s, Distinct(s)[j])
  {
    if s != [] {
      var n := |s| - 1;
      var init := Distinct(s[..n]);
      var last := s[n];
      DistinctFirstOccurrenceOrder(s[..n]);
      var d := Distinct(s);
      forall i, j | 0 <= i < j < |d|
        ensures FirstIndex(s, d[i]) < FirstIndex(s, d[j])
      {
        assert d[i] == init[i] && init[i] in s[..n];
        FirstIndexInPrefix(s, n, d[i]);
        if j < |init| {
          assert d[j] == init[j] && init[j] in s[..n];
          FirstIndexInPrefix(s, n, d[j]);
          assert FirstIndex(s[..n], init[i]) < FirstIndex(s[..n], init[j]);
        } else {
          assert d[j] == last && last !in s[..n];
          assert FirstIndex(s, last) == n;
          assert FirstIndex(s[..n], init[i]) < n;
        }
      }
    }
  }

  /** The language options are exactly the distinct truthy languages of
      the unfiltered list, without repetition, in first-occurrence order. */
  lemma LanguagesCorrect(repos: seq<Repository>)
    ensures var langs := Languages(repos);
      && NoDup(langs)
      && (forall x :: x in langs <==> x != "" && exists r :: r in repos && r.language == Some(x))
      && (forall i, j :: 0 <= i < j < |langs| ==>
            FirstRepoWith(repos, langs[i]) < FirstRepoWith(repos, langs[j]))
  {
    var langs := Languages(repos);
    assert langs == Distinct(TruthyLanguages(repos));
    DistinctFirstOccurrenceOrder(TruthyLanguages(repos));
    forall i, j | 0 <= i < j < |langs|
      ensures FirstRepoWith(repos, langs[i]) < FirstRepoWith(repos, langs[j])
    {
      TruthyLanguagesFollowRepos(repos, langs[i], langs[j]);
    }
  }
}
