/**
 * The release resolver of get_mod_infos: a mod's releases as the Factorio
 * mod portal lists them are sorted newest first by `released_at` and then
 * filtered down to those made for the installed Factorio version (or, in
 * downgrade mode, for that version or an older one). Callers install the
 * first release of the filtered list.
 */
module Releases {
  import opened Basics
  import opened Manifest

  /**
   * A Factorio version as `major.minor`: the version probe keeps only
   * those two components, and a mod's `factorio_version` carries no more.
   */
  datatype Version = Version(major: nat, minor: nat)

  /** Version order: lexicographic on (major, minor). */
  predicate VersionLe(a: Version, b: Version)
  {
    a.major < b.major || (a.major == b.major && a.minor <= b.minor)
  }

  /**
   * One published release of a mod. `releasedAt` is the `released_at`
   * timestamp as a number (later is larger); `version` is the mod's own
   * version, only ever displayed.
   */
  datatype Release = Release(
    fileName: string,
    downloadUrl: string,
    sha1: string,
    version: string,
    factorioVersion: Version,
    releasedAt: nat)

  /** Every release is at least as recent as every release after it. */
  ghost predicate NewestFirst(s: seq<Release>)
  {
    forall i, j :: 0 <= i < j < |s| ==> s[i].releasedAt >= s[j].releasedAt
  }

  /** The releases of `s` published at instant `t`, in the order of `s`. */
  function WithDate(s: seq<Release>, t: nat): seq<Release>
  {
    Filter((r: Release) => r.releasedAt == t, s)
  }

  // ----- Sorting: sorted(releases, key=released_at, reverse=True) -----

  /**
   * Inserts `r` in front of the first release that is not strictly newer
   * than `r`. Since `r` comes before everything in `s` in the input, this
   * keeps releases with equal timestamps in input order, as Python's
   * stable sort does, also with `reverse=True`.
   */
  function Insert(r: Release, s: seq<Release>): (t: seq<Release>)
    ensures multiset(t) == multiset(s) + multiset{r}
  {
    if s == [] || s[0].releasedAt <= r.releasedAt then
      [r] + s
    else
      assert s == [s[0]] + s[1..];
      [s[0]] + Insert(r, s[1..])
  }

  lemma InsertMembers(r: Release, s: seq<Release>)
    ensures forall x :: x in Insert(r, s) ==> x == r || x in s
  {
    assert forall x :: x in Insert(r, s) ==> x in multiset(s) + multiset{r};
  }

  lemma {:induction false} InsertKeepsNewestFirst(r: Release, s: seq<Release>)
    requires NewestFirst(s)
    ensures NewestFirst(Insert(r, s))
  {
    var t := Insert(r, s);
    if s == [] || s[0].releasedAt <= r.releasedAt {
      assert t == [r] + s;
      forall i, j | 0 <= i < j < |t| ensures t[i].releasedAt >= t[j].releasedAt {
        assert t[j] == s[j - 1];
        if i > 0 {
          assert t[i] == s[i - 1];
        } else {
          HeadIsNewest(s, s[j - 1]);
        }
      }
    } else {
      var rest := Insert(r, s[1..]);
      TailNewestFirst(s);
      InsertKeepsNewestFirst(r, s[1..]);
      InsertMembers(r, s[1..]);
      assert t == [s[0]] + rest;
      forall i, j | 0 <= i < j < |t| ensures t[i].releasedAt >= t[j].releasedAt {
        assert t[j] == rest[j - 1];
        if i > 0 {
          assert t[i] == rest[i - 1];
        } else if rest[j - 1] != r {
          assert rest[j - 1] in rest;
          var k :| 0 <= k < |s[1..]| && s[1..][k] == rest[j - 1];
          assert s[k + 1] == rest[j - 1];
        }
      }
    }
  }

  /** The release list sorted newest first: a permutation of its input. */
  function SortByReleaseDate(rs: seq<Release>): (t: seq<Release>)
    ensures multiset(t) == multiset(rs)
    ensures NewestFirst(t)
  {
    if rs == [] then []
    else
      assert rs == [rs[0]] + rs[1..];
      InsertKeepsNewestFirst(rs[0], SortByReleaseDate(rs[1..]));
      Insert(rs[0], SortByReleaseDate(rs[1..]))
  }

  lemma {:induction false} InsertWithDate(r: Release, s: seq<Release>, t: nat)
    ensures WithDate(Insert(r, s), t) == (if r.releasedAt == t then [r] else []) + WithDate(s, t)
  {
    if s == [] || s[0].releasedAt <= r.releasedAt {
      var u := [r] + s;
      assert Insert(r, s) == u;
      assert u[0] == r && u[1..] == s;
      WithDateCons(u, t);
    } else {
      var rest := Insert(r, s[1..]);
      var u := [s[0]] + rest;
      assert Insert(r, s) == u;
      assert u[0] == s[0] && u[1..] == rest;
      WithDateCons(u, t);
      WithDateCons(s, t);
      InsertWithDate(r, s[1..], t);
      // s[0] is strictly newer than r, so at most one of the two is dated t
      assert s[0].releasedAt != t || r.releasedAt != t;
    }
  }

  /**
   * The sort is stable: for every timestamp, the releases published at
   * that instant appear in the sorted list exactly in their input order.
   */
  lemma {:induction false} SortByReleaseDateIsStable(rs: seq<Release>)
    ensures forall t :: WithDate(SortByReleaseDate(rs), t) == WithDate(rs, t)
  {
    if rs != [] {
      SortByReleaseDateIsStable(rs[1..]);
      forall t ensures WithDate(SortByReleaseDate(rs), t) == WithDate(rs, t) {
        InsertWithDate(rs[0], SortByReleaseDate(rs[1..]), t);
      }
    }
  }

  lemma WithDateMembers(s: seq<Release>, t: nat)
    ensures forall x :: x in WithDate(s, t) <==> x in s && x.releasedAt == t
  {
    FilterMembers((r: Release) => r.releasedAt == t, s);
  }

  lemma WithDateCons(s: seq<Release>, t: nat)
    requires s != []
    ensures WithDate(s, t) == (if s[0].releasedAt == t then [s[0]] else []) + WithDate(s[1..], t)
  {
  }

  lemma HeadIsNewest(s: seq<Release>, x: Release)
    requires NewestFirst(s) && x in s
    ensures x.releasedAt <= s[0].releasedAt
  {
    var k :| 0 <= k < |s| && s[k] == x;
    if k > 0 {
      assert s[0].releasedAt >= s[k].releasedAt;
    }
  }

  lemma TailNewestFirst(s: seq<Release>)
    requires s != [] && NewestFirst(s)
    ensures NewestFirst(s[1..])
  {
    forall i, j | 0 <= i < j < |s[1..]| ensures s[1..][i].releasedAt >= s[1..][j].releasedAt {
      assert s[1..][i] == s[i + 1] && s[1..][j] == s[j + 1];
    }
  }

  /**
   * Newest-first order and stability pin the sorted list down: two lists
   * that are both newest first and agree on the order of the releases of
   * every timestamp are equal.
   */
  lemma {:induction false} StableNewestFirstIsUnique(a: seq<Release>, b: seq<Release>)
    requires NewestFirst(a) && NewestFirst(b)
    requires forall t :: WithDate(a, t) == WithDate(b, t)
    ensures a == b
    decreases |a|
  {
    if a == [] && b == [] {
    } else if a == [] {
      WithDateMembers(b, b[0].releasedAt);
    } else if b == [] {
      WithDateMembers(a, a[0].releasedAt);
    } else {
      var T := a[0].releasedAt;
      WithDateMembers(a, T);
      WithDateMembers(b, T);
      WithDateMembers(a, b[0].releasedAt);
      WithDateMembers(b, b[0].releasedAt);
      HeadIsNewest(b, a[0]);
      HeadIsNewest(a, b[0]);
      assert b[0].releasedAt == T;
      WithDateCons(a, T);
      WithDateCons(b, T);
      assert a[0] == WithDate(a, T)[0] == WithDate(b, T)[0] == b[0];
      forall t ensures WithDate(a[1..], t) == WithDate(b[1..], t) {
        WithDateCons(a, t);
        WithDateCons(b, t);
        var h: seq<Release> := if a[0].releasedAt == t then [a[0]] else [];
        assert WithDate(a[1..], t) == WithDate(a, t)[|h|..];
        assert WithDate(b[1..], t) == WithDate(b, t)[|h|..];
      }
      TailNewestFirst(a);
      TailNewestFirst(b);
      StableNewestFirstIsUnique(a[1..], b[1..]);
      assert a == [a[0]] + a[1..] && b == [b[0]] + b[1..];
    }
  }

  /**
   * An independent characterisation of the sort: any list that is newest
   * first and keeps the input order within each timestamp is the sorted list.
   */
  lemma SortByReleaseDateIsTheStableSort(rs: seq<Release>, s: seq<Release>)
    requires NewestFirst(s)
    requires forall t :: WithDate(s, t) == WithDate(rs, t)
    ensures s == SortByReleaseDate(rs)
  {
    SortByReleaseDateIsStable(rs);
    StableNewestFirstIsUnique(s, SortByReleaseDate(rs));
  }

  // ----- Filtering: same_version_releases -----

  /**
   * The version test of get_mod_infos: the release is made for exactly the
   * target version, or in downgrade mode for the target or an older one.
   */
  predicate Compatible(r: Release, target: Version, downgrade: bool)
  {
    if downgrade then VersionLe(r.factorioVersion, target) else r.factorioVersion == target
  }

  /** The list comprehension that builds same_version_releases. */
  function CompatibleReleases(s: seq<Release>, target: Version, downgrade: bool): seq<Release>
  {
    Filter((r: Release) => Compatible(r, target, downgrade), s)
  }

  lemma {:induction false} FilterKeepsNewestFirst(p: Release -> bool, s: seq<Release>)
    requires NewestFirst(s)
    ensures NewestFirst(Filter(p, s))
  {
    if s != [] {
      var f := Filter(p, s[1..]);
      TailNewestFirst(s);
      FilterKeepsNewestFirst(p, s[1..]);
      if p(s[0]) {
        FilterMembers(p, s[1..]);
        var g := [s[0]] + f;
        assert Filter(p, s) == g;
        forall i, j | 0 <= i < j < |g| ensures g[i].releasedAt >= g[j].releasedAt {
          assert g[j] == f[j - 1];
          if i == 0 {
            assert f[j - 1] in f;
            var k :| 0 <= k < |s[1..]| && s[1..][k] == f[j - 1];
            assert s[k + 1] == f[j - 1];
          } else {
            assert g[i] == f[i - 1];
          }
        }
      } else {
        assert Filter(p, s) == f;
      }
    }
  }

  /**
   * same_version_releases keeps a release if and only if it passes the
   * version test, keeps the sorted list's order, and is therefore still
   * newest first.
   */
  lemma CompatibleReleasesExact(s: seq<Release>, target: Version, downgrade: bool)
    ensures forall r :: r in CompatibleReleases(s, target, downgrade) <==> r in s && Compatible(r, target, downgrade)
    ensures forall r :: multiset(CompatibleReleases(s, target, downgrade))[r]
                     == if Compatible(r, target, downgrade) then multiset(s)[r] else 0
    ensures IsSubsequence(CompatibleReleases(s, target, downgrade), s)
    ensures NewestFirst(s) ==> NewestFirst(CompatibleReleases(s, target, downgrade))
  {
    var p := (r: Release) => Compatible(r, target, downgrade);
    FilterExact(p, s);
    if NewestFirst(s) {
      FilterKeepsNewestFirst(p, s);
    }
  }

  // ----- Selection: same_version_releases[0] -----

  lemma WithDateOfCompatible(s: seq<Release>, t: nat, target: Version, downgrade: bool)
    ensures WithDate(CompatibleReleases(s, target, downgrade), t)
         == CompatibleReleases(WithDate(s, t), target, downgrade)
  {
    FilterCommutes((r: Release) => r.releasedAt == t, (r: Release) => Compatible(r, target, downgrade), s);
  }

  /** Sorting keeps the releases of the input, no more and no fewer. */
  lemma SortedMembers(rs: seq<Release>)
    ensures forall x :: x in SortByReleaseDate(rs) <==> x in rs
  {
    assert forall x :: x in SortByReleaseDate(rs) <==> x in multiset(SortByReleaseDate(rs));
  }

  /**
   * Ties on `released_at` are broken by the portal's order: the selected
   * release is the first compatible release of the input among those
   * published at the same instant.
   */
  lemma SelectedIsFirstOfItsInstant(rs: seq<Release>, target: Version, downgrade: bool)
    requires CompatibleReleases(SortByReleaseDate(rs), target, downgrade) != []
    ensures var x := CompatibleReleases(SortByReleaseDate(rs), target, downgrade)[0];
      && WithDate(CompatibleReleases(rs, target, downgrade), x.releasedAt) != []
      && WithDate(CompatibleReleases(rs, target, downgrade), x.releasedAt)[0] == x
  {
    var sorted := SortByReleaseDate(rs);
    var same := CompatibleReleases(sorted, target, downgrade);
    var x := same[0];
    var T := x.releasedAt;
    SortByReleaseDateIsStable(rs);
    WithDateOfCompatible(sorted, T, target, downgrade);
    WithDateOfCompatible(rs, T, target, downgrade);
    assert WithDate(sorted, T) == WithDate(rs, T);
    assert WithDate(same, T) == WithDate(CompatibleReleases(rs, target, downgrade), T);
    WithDateCons(same, T);
  }

  /**
   * The release callers install, the first of same_version_releases, is
   * the most recent compatible release: the list is empty exactly when no
   * release is compatible; otherwise its head is a compatible release of
   * the input, no compatible release is strictly newer, and among the
   * compatible releases published at that same instant it is the one the
   * portal listed first.
   */
  lemma SelectedIsMostRecentCompatible(rs: seq<Release>, target: Version, downgrade: bool)
    ensures var same := CompatibleReleases(SortByReleaseDate(rs), target, downgrade);
      && (same == [] <==> forall r :: r in rs ==> !Compatible(r, target, downgrade))
      && (same != [] ==>
            && same[0] in rs
            && Compatible(same[0], target, downgrade)
            && (forall r :: r in rs && Compatible(r, target, downgrade) ==> r.releasedAt <= same[0].releasedAt)
            && WithDate(CompatibleReleases(rs, target, downgrade), same[0].releasedAt) != []
            && WithDate(CompatibleReleases(rs, target, downgrade), same[0].releasedAt)[0] == same[0])
  {
    var sorted := SortByReleaseDate(rs);
    var same := CompatibleReleases(sorted, target, downgrade);
    SortedMembers(rs);
    CompatibleReleasesExact(sorted, target, downgrade);
    if same != [] {
      assert same[0] in same;
      forall r | r in rs && Compatible(r, target, downgrade) ensures r.releasedAt <= same[0].releasedAt {
        HeadIsNewest(same, r);
      }
      SelectedIsFirstOfItsInstant(rs, target, downgrade);
    }
  }

  // ----- get_mod_infos -----

  /**
   * What the portal answered for one mod: the HTTP status and, when the
   * JSON body has a `releases` key, its list.
   */
  datatype Response = Response(status: nat, releases: Option<seq<Release>>)

  /** The record get_mod_infos builds for one mod. */
  datatype ModInfos = ModInfos(
    name: string,
    enabled: bool,
    releases: seq<Release>,
    sameVersionReleases: seq<Release>)

  function SortAndFilter(mod: ModEntry, rs: seq<Release>, target: Version, downgrade: bool): ModInfos
  {
    var sorted := SortByReleaseDate(rs);
    ModInfos(mod.name, mod.enabled, sorted, CompatibleReleases(sorted, target, downgrade))
  }

  /**
   * get_mod_infos with the release guard as its authors meant it (`or`):
   * nothing is returned for a failed request or a mod without releases;
   * otherwise the mod's name and flag, its releases newest first and the
   * compatible ones.
   */
  function GetModInfos(mod: ModEntry, resp: Response, target: Version, downgrade: bool): (r: Option<ModInfos>)
    ensures r.None? <==> resp.status != 200 || resp.releases.None? || resp.releases.value == []
    ensures r.Some? ==>
      && r.value.name == mod.name && r.value.enabled == mod.enabled
      && multiset(r.value.releases) == multiset(resp.releases.value)
      && NewestFirst(r.value.releases)
      && (forall x :: x in r.value.sameVersionReleases <==> x in resp.releases.value && Compatible(x, target, downgrade))
  {
    if resp.status != 200 then None
    else if resp.releases.None? || |resp.releases.value| == 0 then None
    else
      var sorted := SortByReleaseDate(resp.releases.value);
      CompatibleReleasesExact(sorted, target, downgrade);
      assert forall x :: x in sorted <==> x in multiset(resp.releases.value);
      Some(SortAndFilter(mod, resp.releases.value, target, downgrade))
  }

  /**
   * The release callers of get_mod_infos install, the first of
   * `same_version_releases`, is a compatible release the portal listed and
   * no compatible release is newer.
   */
  lemma GetModInfosSelectsMostRecent(mod: ModEntry, resp: Response, target: Version, downgrade: bool)
    requires GetModInfos(mod, resp, target, downgrade).Some?
    requires GetModInfos(mod, resp, target, downgrade).value.sameVersionReleases != []
    ensures var sel := GetModInfos(mod, resp, target, downgrade).value.sameVersionReleases[0];
      && sel in resp.releases.value
      && Compatible(sel, target, downgrade)
      && forall r :: r in resp.releases.value && Compatible(r, target, downgrade) ==> r.releasedAt <= sel.releasedAt
  {
    SelectedIsMostRecentCompatible(resp.releases.value, target, downgrade);
  }

  /**
   * The outcome of code that may raise: a value, the KeyError of a missing
   * dictionary key, or the TypeError of subscripting `None`.
   */
  datatype Outcome<T> = Returned(value: T) | RaisedKeyError(key: string) | RaisedTypeError

  /**
   * get_mod_infos as written: `'releases' not in json and len(json['releases']) == 0`
   * looks the key up exactly when it is missing, and never holds when it is
   * present, so a missing key raises and an empty list is not skipped.
   */
  function GetModInfosAsWritten(mod: ModEntry, resp: Response, target: Version, downgrade: bool): (r: Outcome<Option<ModInfos>>)
    ensures r.RaisedKeyError? <==> resp.status == 200 && resp.releases.None?
    ensures r == Returned(None) <==> resp.status != 200
    ensures !r.RaisedTypeError?
    ensures r.Returned? && r.value.Some? <==> resp.status == 200 && resp.releases.Some?
  {
    if resp.status != 200 then Returned(None)
    else if resp.releases.None? then RaisedKeyError("releases")
    else Returned(Some(SortAndFilter(mod, resp.releases.value, target, downgrade)))
  }

  /**
   * The two inputs on which the guard as written differs from the intended
   * one: a body without `releases` raises instead of skipping the mod, and
   * an empty release list yields a record instead of skipping the mod.
   * On every other input the two agree.
   */
  lemma ReleaseGuardDiscrepancy(mod: ModEntry, resp: Response, target: Version, downgrade: bool)
    ensures GetModInfosAsWritten(mod, Response(200, None), target, downgrade) == RaisedKeyError("releases")
    ensures GetModInfos(mod, Response(200, None), target, downgrade) == None
    ensures GetModInfosAsWritten(mod, Response(200, Some([])), target, downgrade)
         == Returned(Some(ModInfos(mod.name, mod.enabled, [], [])))
    ensures GetModInfos(mod, Response(200, Some([])), target, downgrade) == None
    ensures resp.status != 200 || (resp.releases.Some? && resp.releases.value != []) ==>
      GetModInfosAsWritten(mod, resp, target, downgrade) == Returned(GetModInfos(mod, resp, target, downgrade))
  {
  }

  /**
   * The resolver on a concrete catalogue: a 2.0.0 release for Factorio 1.0
   * published after a 1.0.0 release for Factorio 0.18.
   */
  lemma ResolverScenarios()
    ensures var old18 := Release("m_1.0.0.zip", "/download/m/1", "a1", "1.0.0", Version(0, 18), 1);
            var new10 := Release("m_2.0.0.zip", "/download/m/2", "b2", "2.0.0", Version(1, 0), 2);
            var sorted := SortByReleaseDate([old18, new10]);
            && CompatibleReleases(sorted, Version(1, 0), false) == [new10]
            && CompatibleReleases(sorted, Version(1, 1), false) == []
            && CompatibleReleases(sorted, Version(1, 1), true) == [new10, old18]
  {
    var old18 := Release("m_1.0.0.zip", "/download/m/1", "a1", "1.0.0", Version(0, 18), 1);
    var new10 := Release("m_2.0.0.zip", "/download/m/2", "b2", "2.0.0", Version(1, 0), 2);
    assert SortByReleaseDate([new10]) == [new10];
    assert [old18, new10][1..] == [new10];
    assert SortByReleaseDate([old18, new10]) == Insert(old18, [new10]);
    assert Insert(old18, [new10]) == [new10, old18];
    var sorted := [new10, old18];
    assert sorted[1..] == [old18];
    assert [old18][1..] == [];
    assert CompatibleReleases([], Version(1, 0), false) == [];
    assert CompatibleReleases([old18], Version(1, 0), false) == [];
    assert CompatibleReleases(sorted, Version(1, 0), false) == [new10];
    assert CompatibleReleases([], Version(1, 1), false) == [];
    assert CompatibleReleases([old18], Version(1, 1), false) == [];
    assert CompatibleReleases(sorted, Version(1, 1), false) == [];
    assert CompatibleReleases([], Version(1, 1), true) == [];
    assert CompatibleReleases([old18], Version(1, 1), true) == [old18];
  }

  /**
   * In downgrade mode recency decides even when a release for the
   * installed version exists: a release for Factorio 0.18 published after
   * one for Factorio 1.0 comes first for Factorio 1.0, and is the one
   * installed.
   */
  lemma DowngradePrefersRecency()
    ensures var exact := Release("m_1.1.0.zip", "/download/m/3", "c3", "1.1.0", Version(1, 0), 1);
            var backport := Release("m_1.0.1.zip", "/download/m/4", "d4", "1.0.1", Version(0, 18), 2);
            CompatibleReleases(SortByReleaseDate([exact, backport]), Version(1, 0), true) == [backport, exact]
  {
    var exact := Release("m_1.1.0.zip", "/download/m/3", "c3", "1.1.0", Version(1, 0), 1);
    var backport := Release("m_1.0.1.zip", "/download/m/4", "d4", "1.0.1", Version(0, 18), 2);
    assert SortByReleaseDate([backport]) == [backport];
    assert [exact, backport][1..] == [backport];
    assert SortByReleaseDate([exact, backport]) == Insert(exact, [backport]);
    assert Insert(exact, [backport]) == [backport, exact];
    var sorted := [backport, exact];
    assert sorted[1..] == [exact];
    assert [exact][1..] == [];
    assert CompatibleReleases([], Version(1, 0), true) == [];
    assert CompatibleReleases([exact], Version(1, 0), true) == [exact];
  }
}
