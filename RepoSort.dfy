/** The comparator of `filteredAndSortedRepos` in RepositoryList.tsx and
    the stable sort that `Array.prototype.sort` performs with it. */
module RepoSort {
  import opened Repositories

  datatype SortField = Name | Stars | Updated
  datatype SortOrder = Asc | Desc
  datatype SortSpec = SortSpec(field: SortField, order: SortOrder)

  /** The host's `String.prototype.localeCompare`: negative, zero or positive. */
  type Collation = (string, string) -> int

  /** What the sorting properties need of `localeCompare`: swapping the
      arguments flips the sign, and "not after" is transitive. */
  ghost predicate Consistent(collate: Collation) {
    && (forall x, y :: collate(x, y) < 0 <==> collate(y, x) > 0)
    && (forall x, y, z :: collate(x, y) <= 0 && collate(y, z) <= 0 ==> collate(x, z) <= 0)
  }

  /** Only the name sort calls `localeCompare`, so only it needs a
      consistent one; the star and date sorts compare numbers. */
  ghost predicate ConsistentFor(collate: Collation, field: SortField) {
    field == Name ==> Consistent(collate)
  }

  /** The ascending comparison on the chosen key. */
  function KeyCompare(collate: Collation, field: SortField, a: Repository, b: Repository): int {
    match field
    case Name => collate(a.name, b.name)
    case Stars => a.stars - b.stars
    case Updated => a.updated - b.updated
  }

  /** The comparator handed to `sort`: negated for descending order. */
  function Compare(collate: Collation, spec: SortSpec, a: Repository, b: Repository): int {
    var c := KeyCompare(collate, spec.field, a, b);
    if spec.order == Asc then c else -c
  }

  /** Two repositories tie when their keys compare equal; the order does not matter. */
  predicate SameKey(collate: Collation, field: SortField, a: Repository, b: Repository) {
    KeyCompare(collate, field, a, b) == 0
  }

  lemma CompareAntisymmetric(collate: Collation, spec: SortSpec, a: Repository, b: Repository)
    requires ConsistentFor(collate, spec.field)
    ensures Compare(collate, spec, a, b) < 0 <==> Compare(collate, spec, b, a) > 0
    ensures Compare(collate, spec, a, b) == 0 <==> SameKey(collate, spec.field, a, b)
    ensures SameKey(collate, spec.field, a, b) <==> SameKey(collate, spec.field, b, a)
  {
  }

  lemma CompareTransitive(collate: Collation, spec: SortSpec, a: Repository, b: Repository, c: Repository)
    requires ConsistentFor(collate, spec.field)
    ensures Compare(collate, spec, a, b) <= 0 && Compare(collate, spec, b, c) <= 0 ==> Compare(collate, spec, a, c) <= 0
  {
  }

  /** Ties are transitive: a repository tied with two others ties them
      together. Reflexivity and symmetry come from `CompareAntisymmetric`. */
  lemma SameKeyTransitive(collate: Collation, field: SortField, a: Repository, b: Repository, c: Repository)
    requires ConsistentFor(collate, field)
    requires SameKey(collate, field, a, b) && SameKey(collate, field, b, c)
    ensures SameKey(collate, field, a, c)
  {
  }

  /** No element is after a later one under the comparator. */
  ghost predicate Sorted(collate: Collation, spec: SortSpec, s: seq<Repository>) {
    forall i, j :: 0 <= i < j < |s| ==> Compare(collate, spec, s[i], s[j]) <= 0
  }

  /** The entries of `s` whose key ties with that of `k`, in their order in `s`. */
  function Ties(collate: Collation, field: SortField, s: seq<Repository>, k: Repository): seq<Repository> {
    if s == [] then []
    else (if SameKey(collate, field, k, s[0]) then [s[0]] else []) + Ties(collate, field, s[1..], k)
  }

  /** Inserts `x` before the first entry it is not after, so that it
      precedes every entry it ties with. */
  function Insert(collate: Collation, spec: SortSpec, x: Repository, s: seq<Repository>): (r: seq<Repository>)
    ensures multiset(r) == multiset(s) + multiset{x}
  {
    if s == [] || Compare(collate, spec, x, s[0]) <= 0 then [x] + s
    else
      assert s == [s[0]] + s[1..];
      [s[0]] + Insert(collate, spec, x, s[1..])
  }

  /** The stable sort: each entry is inserted ahead of the (already
      sorted) entries that follow it in the input. */
  function SortRepos(collate: Collation, spec: SortSpec, s: seq<Repository>): (r: seq<Repository>)
    ensures multiset(r) == multiset(s)
  {
    if s == [] then []
    else
      assert s == [s[0]] + s[1..];
      Insert(collate, spec, s[0], SortRepos(collate, spec, s[1..]))
  }

  lemma {:induction false} InsertSorted(collate: Collation, spec: SortSpec, x: Repository, s: seq<Repository>)
    requires ConsistentFor(collate, spec.field) && Sorted(collate, spec, s)
    ensures Sorted(collate, spec, Insert(collate, spec, x, s))
  {
    var r := Insert(collate, spec, x, s);
    if s == [] {
    } else if Compare(collate, spec, x, s[0]) <= 0 {
      forall j | 0 < j < |r| ensures Compare(collate, spec, r[0], r[j]) <= 0 {
        if j > 1 { CompareTransitive(collate, spec, x, s[0], s[j - 1]); }
      }
    } else {
      var t := Insert(collate, spec, x, s[1..]);
      InsertSorted(collate, spec, x, s[1..]);
      CompareAntisymmetric(collate, spec, x, s[0]);
      assert r == [s[0]] + t;
      forall j | 0 < j < |r| ensures Compare(collate, spec, r[0], r[j]) <= 0 {
        assert r[j] in multiset(t);
        if r[j] != x {
          assert r[j] in multiset(s[1..]);
          var m :| 0 <= m < |s[1..]| && s[1..][m] == r[j];
          assert s[m + 1] == r[j];
        }
      }
    }
  }

  /** The result is ordered by the comparator. */
  lemma {:induction false} SortSorted(collate: Collation, spec: SortSpec, s: seq<Repository>)
    requires ConsistentFor(collate, spec.field)
    ensures Sorted(collate, spec, SortRepos(collate, spec, s))
  {
    if s != [] {
      SortSorted(collate, spec, s[1..]);
      InsertSorted(collate, spec, s[0], SortRepos(collate, spec, s[1..]));
    }
  }

  /** Inserting `x` places it ahead of all entries it ties with. */
  lemma {:induction false} InsertTies(collate: Collation, spec: SortSpec, x: Repository, s: seq<Repository>, k: Repository)
    requires ConsistentFor(collate, spec.field)
    ensures Ties(collate, spec.field, Insert(collate, spec, x, s), k) == Ties(collate, spec.field, [x] + s, k)
  {
    if s != [] && Compare(collate, spec, x, s[0]) > 0 {
      InsertTies(collate, spec, x, s[1..], k);
      var f := spec.field;
      assert ([s[0]] + Insert(collate, spec, x, s[1..]))[1..] == Insert(collate, spec, x, s[1..]);
      assert ([x] + s)[1..] == s;
      assert ([x] + s[1..])[1..] == s[1..];
      CompareAntisymmetric(collate, spec, x, s[0]);
      if SameKey(collate, f, k, s[0]) && SameKey(collate, f, k, x) {
        CompareAntisymmetric(collate, spec, k, x);
        SameKeyTransitive(collate, f, x, k, s[0]);
      }
    }
  }

  /** Stability: entries with equal keys keep their input order, in
      either sort direction. */
  lemma {:induction false} SortStable(collate: Collation, spec: SortSpec, s: seq<Repository>, k: Repository)
    requires ConsistentFor(collate, spec.field)
    ensures Ties(collate, spec.field, SortRepos(collate, spec, s), k) == Ties(collate, spec.field, s, k)
  {
    if s != [] {
      SortStable(collate, spec, s[1..], k);
      InsertTies(collate, spec, s[0], SortRepos(collate, spec, s[1..]), k);
      assert ([s[0]] + SortRepos(collate, spec, s[1..]))[1..] == SortRepos(collate, spec, s[1..]);
    }
  }

  /** The ordering promised by each sort field and direction, in terms of
      the repository fields themselves. */
  lemma SortOrdersByKey(collate: Collation, spec: SortSpec, s: seq<Repository>, i: int, j: int)
    requires ConsistentFor(collate, spec.field)
    requires 0 <= i < j < |s|
    ensures var r := SortRepos(collate, spec, s);
      |r| == |s|
      && (spec == SortSpec(Stars, Asc) ==> r[i].stars <= r[j].stars)
      && (spec == SortSpec(Stars, Desc) ==> r[i].stars >= r[j].stars)
      && (spec == SortSpec(Updated, Asc) ==> r[i].updated <= r[j].updated)
      && (spec == SortSpec(Updated, Desc) ==> r[i].updated >= r[j].updated)
      && (spec == SortSpec(Name, Asc) ==> collate(r[i].name, r[j].name) <= 0)
      && (spec == SortSpec(Name, Desc) ==> collate(r[i].name, r[j].name) >= 0)
  {
    var r := SortRepos(collate, spec, s);
    assert |r| == |multiset(r)| == |multiset(s)| == |s|;
    SortSorted(collate, spec, s);
    assert Compare(collate, spec, r[i], r[j]) <= 0;
  }

  /** An element occurs as often in its own tie class as in the list. */
  lemma {:induction false} TiesCount(collate: Collation, field: SortField, s: seq<Repository>, k: Repository)
    requires ConsistentFor(collate, field)
    ensures multiset(Ties(collate, field, s, k))[k] == multiset(s)[k]
  {
    if s != [] {
      TiesCount(collate, field, s[1..], k);
      assert s == [s[0]] + s[1..];
      CompareAntisymmetric(collate, SortSpec(field, Asc), k, k);
    }
  }

  /** The heads of two sorted permutations of each other tie. */
  lemma SortedHeadsTie(collate: Collation, spec: SortSpec, r: seq<Repository>, t: seq<Repository>)
    requires ConsistentFor(collate, spec.field)
    requires Sorted(collate, spec, r) && Sorted(collate, spec, t)
    requires r != [] && multiset(r) == multiset(t)
    ensures t != [] && SameKey(collate, spec.field, r[0], t[0])
  {
    assert |t| == |r|;
    var x, y := r[0], t[0];
    assert y in multiset(r) && x in multiset(t);
    var m :| 0 <= m < |r| && r[m] == y;
    var n :| 0 <= n < |t| && t[n] == x;
    assert m == 0 || Compare(collate, spec, x, y) <= 0;
    assert n == 0 || Compare(collate, spec, y, x) <= 0;
    CompareAntisymmetric(collate, spec, x, y);
    CompareAntisymmetric(collate, spec, x, x);
  }

  /** `Array.prototype.sort` is only required to return some sorted, stable
      permutation; there is exactly one, so the insertion sort above is a
      faithful stand-in for whatever algorithm the host uses. */
  lemma {:induction false} SortedStableIsUnique(collate: Collation, spec: SortSpec, r: seq<Repository>, t: seq<Repository>)
    requires ConsistentFor(collate, spec.field)
    requires Sorted(collate, spec, r) && Sorted(collate, spec, t)
    requires forall k :: Ties(collate, spec.field, r, k) == Ties(collate, spec.field, t, k)
    ensures r == t
    decreases |r|
  {
    var f := spec.field;
    forall k ensures multiset(r)[k] == multiset(t)[k] {
      TiesCount(collate, f, r, k);
      TiesCount(collate, f, t, k);
    }
    assert multiset(r) == multiset(t);
    if r == [] {
      assert |t| == 0;
    } else {
      var x := r[0];
      SortedHeadsTie(collate, spec, r, t);
      CompareAntisymmetric(collate, spec, x, x);
      // both tie classes of x start with their list's head
      assert Ties(collate, f, r, x)[0] == x;
      assert Ties(collate, f, t, x)[0] == t[0];
      assert t[0] == x;
      forall k ensures Ties(collate, f, r[1..], k) == Ties(collate, f, t[1..], k) {
        var h := if SameKey(collate, f, k, x) then [x] else [];
        assert Ties(collate, f, r, k) == h + Ties(collate, f, r[1..], k);
        assert Ties(collate, f, t, k) == h + Ties(collate, f, t[1..], k);
        assert Ties(collate, f, r, k) == Ties(collate, f, t, k);
        assert (h + Ties(collate, f, r[1..], k))[|h|..] == Ties(collate, f, r[1..], k);
        assert (h + Ties(collate, f, t[1..], k))[|h|..] == Ties(collate, f, t[1..], k);
      }
      SortedStableIsUnique(collate, spec, r[1..], t[1..]);
      assert r == [x] + r[1..] && t == [t[0]] + t[1..];
    }
  }
}
