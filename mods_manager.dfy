/**
 * The state the mod manager changes, Factorio's mods folder, its
 * mod-list.json and the run's `has_to_reload` flag, and the operations that
 * change it: update every listed mod, install one, remove one, and enable or
 * disable some. The mod portal is a parameter: its answer for one mod is a
 * `Response`.
 */
module ModsManager {
  import opened Basics
  import opened Manifest
  import opened Releases

  /** What the operations read from the configuration: the installed Factorio version and --downgrade. */
  datatype Config = Config(factorioVersion: Version, shouldDowngrade: bool)

  /** The mods folder: each file name present, mapped to the SHA-1 hex digest of its content. */
  type Folder = map<string, string>

  /** The part of the state that updating mods touches. */
  datatype UpdateState = UpdateState(folder: Folder, hasToReload: bool)

  /** The file names of some releases. */
  function FileNames(rs: seq<Release>): set<string>
  {
    set r | r in rs :: r.fileName
  }

  /** check_file_and_sha: a file of that name exists and its digest is the published one. */
  predicate IsUpToDate(folder: Folder, fileName: string, sha1: string)
  {
    fileName in folder && folder[fileName] == sha1
  }

  /**
   * The delete list of update_mods: exactly the releases, in sorted order,
   * whose file name differs from that of the selected release.
   */
  function DeleteList(infos: ModInfos): (d: seq<Release>)
    requires infos.sameVersionReleases != []
    ensures forall r :: r in d <==> r in infos.releases && r.fileName != infos.sameVersionReleases[0].fileName
    ensures forall r :: multiset(d)[r]
                     == if r.fileName != infos.sameVersionReleases[0].fileName then multiset(infos.releases)[r] else 0
    ensures IsSubsequence(d, infos.releases)
  {
    var keep := infos.sameVersionReleases[0].fileName;
    FilterExact((r: Release) => r.fileName != keep, infos.releases);
    Filter((r: Release) => r.fileName != keep, infos.releases)
  }

  /**
   * One turn of update_mods' loop for a mod whose infos exist. A disabled
   * mod under --update-enabled-only, or a mod without a compatible release,
   * changes nothing. Otherwise no file of another release of the mod is
   * left, the selected file is present with the published digest, files of
   * no release of the mod are untouched, nothing else appears, and the
   * reload flag is raised exactly when the selected file was not already
   * up to date (and so was downloaded).
   */
  function UpdateResolved(s: UpdateState, infos: ModInfos, enabledOnly: bool): (r: UpdateState)
    ensures (enabledOnly && !infos.enabled) || infos.sameVersionReleases == [] ==> r == s
    ensures !(enabledOnly && !infos.enabled) && infos.sameVersionReleases != [] ==>
      var sel := infos.sameVersionReleases[0];
      && (forall rel :: rel in infos.releases && rel.fileName != sel.fileName ==> rel.fileName !in r.folder)
      && IsUpToDate(r.folder, sel.fileName, sel.sha1)
      && (forall n :: n in s.folder && n != sel.fileName && n !in FileNames(infos.releases) ==>
            n in r.folder && r.folder[n] == s.folder[n])
      && (forall n :: n in r.folder ==> n in s.folder || n == sel.fileName)
      && r.hasToReload == (s.hasToReload || !IsUpToDate(s.folder, sel.fileName, sel.sha1))
  {
    if enabledOnly && !infos.enabled then s
    else if infos.sameVersionReleases == [] then s
    else
      var sel := infos.sameVersionReleases[0];
      var kept := s.folder - FileNames(DeleteList(infos));
      if IsUpToDate(kept, sel.fileName, sel.sha1) then UpdateState(kept, s.hasToReload)
      else UpdateState(kept[sel.fileName := sel.sha1], true)
  }

  /**
   * One turn of update_mods' loop with the missing check added: a mod the
   * portal returned nothing for is skipped, leaving the state as it was.
   */
  function UpdateStep(s: UpdateState, found: Option<ModInfos>, enabledOnly: bool): (r: UpdateState)
    ensures found.None? ==> r == s
    ensures s.hasToReload ==> r.hasToReload
  {
    match found
    case None => s
    case Some(infos) => UpdateResolved(s, infos, enabledOnly)
  }

  /**
   * update_mods over the listed mods, one after the other; `fetch` is the
   * portal's answer for each mod name. The reload flag is never lowered.
   */
  function UpdateAll(s: UpdateState, mods: seq<ModEntry>, fetch: string -> Response, cfg: Config, enabledOnly: bool): (r: UpdateState)
    ensures s.hasToReload ==> r.hasToReload
    decreases |mods|
  {
    if mods == [] then s
    else
      var before := UpdateAll(s, mods[..|mods| - 1], fetch, cfg, enabledOnly);
      var m := mods[|mods| - 1];
      UpdateStep(before, GetModInfos(m, fetch(m.name), cfg.factorioVersion, cfg.shouldDowngrade), enabledOnly)
  }

  lemma UpdateAllExtend(s: UpdateState, mods: seq<ModEntry>, i: nat, fetch: string -> Response, cfg: Config, enabledOnly: bool)
    requires i < |mods|
    ensures UpdateAll(s, mods[..i + 1], fetch, cfg, enabledOnly)
         == UpdateStep(UpdateAll(s, mods[..i], fetch, cfg, enabledOnly),
                       GetModInfos(mods[i], fetch(mods[i].name), cfg.factorioVersion, cfg.shouldDowngrade), enabledOnly)
  {
    assert mods[..i + 1][..i] == mods[..i];
  }

  // ----- update_mods as written -----

  /** The portal answered with status 200 and a `releases` key, so get_mod_infos as written neither raises nor returns `None`. */
  predicate Answered(resp: Response)
  {
    resp.status == 200 && resp.releases.Some?
  }

  /**
   * One turn of update_mods' loop as written: what get_mod_infos returned
   * is subscripted without a test, so `None` raises TypeError; a record is
   * handled as by the corrected step.
   */
  function UpdateStepAsWritten(s: UpdateState, found: Option<ModInfos>, enabledOnly: bool): (r: Outcome<UpdateState>)
    ensures r.RaisedTypeError? <==> found.None?
    ensures found.Some? ==> r == Returned(UpdateStep(s, found, enabledOnly))
  {
    match found
    case None => RaisedTypeError
    case Some(infos) => Returned(UpdateResolved(s, infos, enabledOnly))
  }

  /**
   * update_mods as written over the listed mods: get_mod_infos with its
   * guard as written, then the unguarded step; the first exception ends
   * the run.
   */
  function UpdateAllAsWritten(s: UpdateState, mods: seq<ModEntry>, fetch: string -> Response, cfg: Config, enabledOnly: bool): (r: Outcome<UpdateState>)
    ensures r.Returned? && s.hasToReload ==> r.value.hasToReload
    decreases |mods|
  {
    if mods == [] then Returned(s)
    else
      var before := UpdateAllAsWritten(s, mods[..|mods| - 1], fetch, cfg, enabledOnly);
      var m := mods[|mods| - 1];
      var got := GetModInfosAsWritten(m, fetch(m.name), cfg.factorioVersion, cfg.shouldDowngrade);
      if !before.Returned? then before
      else if got.RaisedKeyError? then RaisedKeyError(got.key)
      else UpdateStepAsWritten(before.value, got.value, enabledOnly)
  }

  /** One more mod: the run as written completes when the shorter run did and the portal answered that mod. */
  lemma AsWrittenSnoc(s: UpdateState, mods: seq<ModEntry>, fetch: string -> Response, cfg: Config, enabledOnly: bool)
    requires mods != []
    ensures UpdateAllAsWritten(s, mods, fetch, cfg, enabledOnly).Returned?
        <==> UpdateAllAsWritten(s, mods[..|mods| - 1], fetch, cfg, enabledOnly).Returned? && Answered(fetch(mods[|mods| - 1].name))
  {
    var m := mods[|mods| - 1];
    var got := GetModInfosAsWritten(m, fetch(m.name), cfg.factorioVersion, cfg.shouldDowngrade);
    assert got.Returned? && got.value.Some? <==> Answered(fetch(m.name));
  }

  /** update_mods as written completes exactly when the portal answered every listed mod. */
  lemma {:induction false} AsWrittenCompletesIffAnswered(s: UpdateState, mods: seq<ModEntry>, fetch: string -> Response, cfg: Config, enabledOnly: bool)
    ensures UpdateAllAsWritten(s, mods, fetch, cfg, enabledOnly).Returned? <==> forall m :: m in mods ==> Answered(fetch(m.name))
    decreases |mods|
  {
    if mods != [] {
      AsWrittenCompletesIffAnswered(s, mods[..|mods| - 1], fetch, cfg, enabledOnly);
      AsWrittenSnoc(s, mods, fetch, cfg, enabledOnly);
      AllAnsweredSnoc(mods, fetch);
    }
  }

  lemma AllAnsweredSnoc(mods: seq<ModEntry>, fetch: string -> Response)
    requires mods != []
    ensures (forall x :: x in mods ==> Answered(fetch(x.name)))
        <==> (forall x :: x in mods[..|mods| - 1] ==> Answered(fetch(x.name))) && Answered(fetch(mods[|mods| - 1].name))
  {
    assert mods == mods[..|mods| - 1] + [mods[|mods| - 1]];
  }

  /**
   * For an answered mod the step as written and the corrected step agree:
   * an empty release list gives a record with no compatible release, which
   * the loop skips just as the corrected guard does.
   */
  lemma AnsweredStepAgrees(s: UpdateState, m: ModEntry, resp: Response, cfg: Config, enabledOnly: bool)
    requires Answered(resp)
    ensures GetModInfosAsWritten(m, resp, cfg.factorioVersion, cfg.shouldDowngrade).Returned?
    ensures UpdateStepAsWritten(s, GetModInfosAsWritten(m, resp, cfg.factorioVersion, cfg.shouldDowngrade).value, enabledOnly)
         == Returned(UpdateStep(s, GetModInfos(m, resp, cfg.factorioVersion, cfg.shouldDowngrade), enabledOnly))
  {
    if resp.releases.value == [] {
      assert SortByReleaseDate([]) == [];
    }
  }

  /**
   * When the portal answers every listed mod, update_mods as written and
   * the corrected update end in the same state.
   */
  lemma {:induction false} AsWrittenAgreesWhenAnswered(s: UpdateState, mods: seq<ModEntry>, fetch: string -> Response, cfg: Config, enabledOnly: bool)
    requires forall m :: m in mods ==> Answered(fetch(m.name))
    ensures UpdateAllAsWritten(s, mods, fetch, cfg, enabledOnly) == Returned(UpdateAll(s, mods, fetch, cfg, enabledOnly))
    decreases |mods|
  {
    if mods != [] {
      var m := mods[|mods| - 1];
      assert m in mods;
      AsWrittenAgreesWhenAnswered(s, mods[..|mods| - 1], fetch, cfg, enabledOnly);
      AnsweredStepAgrees(UpdateAll(s, mods[..|mods| - 1], fetch, cfg, enabledOnly), m, fetch(m.name), cfg, enabledOnly);
    }
  }

  /**
   * A mod the portal answers with status 404 yields `None`, with the
   * release guard as written as well as with the intended one. The loop as
   * written then raises TypeError, ending the update; the corrected step
   * skips the mod and leaves the state unchanged.
   */
  lemma UnansweredModHasNoInfos(mod: ModEntry, s: UpdateState, fetch: string -> Response, cfg: Config, enabledOnly: bool)
    ensures GetModInfosAsWritten(mod, Response(404, None), cfg.factorioVersion, cfg.shouldDowngrade) == Returned(None)
    ensures GetModInfos(mod, Response(404, None), cfg.factorioVersion, cfg.shouldDowngrade) == None
    ensures UpdateStepAsWritten(s, None, enabledOnly) == RaisedTypeError
    ensures UpdateStep(s, GetModInfos(mod, Response(404, None), cfg.factorioVersion, cfg.shouldDowngrade), enabledOnly) == s
    ensures fetch(mod.name) == Response(404, None) ==>
      UpdateAllAsWritten(s, [mod], fetch, cfg, enabledOnly) == RaisedTypeError && UpdateAll(s, [mod], fetch, cfg, enabledOnly) == s
  {
    if fetch(mod.name) == Response(404, None) {
      assert [mod][..0] == [];
    }
  }

  /** A Factorio installation as the mod manager sees it, with the run's reload flag. */
  class Installation {
    var folder: Folder
    var modList: seq<ModEntry>
    var hasToReload: bool

    constructor (folder0: Folder, modList0: seq<ModEntry>)
      ensures folder == folder0 && modList == modList0 && !hasToReload
    {
      folder := folder0;
      modList := modList0;
      hasToReload := false;
    }

    function State(): UpdateState
      reads this
    {
      UpdateState(folder, hasToReload)
    }

    /** remove_file for each release: existing files are deleted, missing ones ignored. */
    method RemoveFiles(releases: seq<Release>)
      modifies this`folder
      ensures folder == old(folder) - FileNames(releases)
    {
      var i := 0;
      while i < |releases|
        invariant 0 <= i <= |releases|
        invariant folder == old(folder) - FileNames(releases[..i])
      {
        assert FileNames(releases[..i + 1]) == FileNames(releases[..i]) + {releases[i].fileName} by {
          assert releases[..i + 1] == releases[..i] + [releases[i]];
        }
        var name := releases[i].fileName;
        if name in folder {
          folder := folder - {name};
        }
        i := i + 1;
      }
      assert releases[..i] == releases;
    }

    /** download_mod: the release's file is written, with the published content. */
    method Download(release: Release)
      modifies this`folder
      ensures folder == old(folder)[release.fileName := release.sha1]
    {
      folder := folder[release.fileName := release.sha1];
    }

    /** One turn of update_mods' loop, with the missing `None` check added. */
    method UpdateMod(mod: ModEntry, resp: Response, cfg: Config, enabledOnly: bool)
      modifies this`folder, this`hasToReload
      ensures State() == UpdateStep(old(State()), GetModInfos(mod, resp, cfg.factorioVersion, cfg.shouldDowngrade), enabledOnly)
    {
      var found := GetModInfos(mod, resp, cfg.factorioVersion, cfg.shouldDowngrade);
      if found.None? {
        return;
      }
      var infos := found.value;
      if enabledOnly && !infos.enabled {
        return;
      }
      if |infos.sameVersionReleases| == 0 {
        return;
      }
      RemoveFiles(DeleteList(infos));
      var sel := infos.sameVersionReleases[0];
      if IsUpToDate(folder, sel.fileName, sel.sha1) {
        return;
      }
      Download(sel);
      hasToReload := true;
    }

    /**
     * update_mods: every mod of mod-list.json but the first (`base`) in
     * turn. Reading the list pops the first entry, so an empty list is not
     * allowed.
     */
    method UpdateMods(enabledOnly: bool, fetch: string -> Response, cfg: Config)
      requires modList != []
      modifies this`folder, this`hasToReload
      ensures State() == UpdateAll(old(State()), modList[1..], fetch, cfg, enabledOnly)
      ensures old(hasToReload) ==> hasToReload
    {
      var mods := ReadModsList(modList, true).value;
      var i := 0;
      while i < |mods|
        invariant 0 <= i <= |mods|
        invariant State() == UpdateAll(old(State()), mods[..i], fetch, cfg, enabledOnly)
      {
        UpdateAllExtend(old(State()), mods, i, fetch, cfg, enabledOnly);
        UpdateMod(mods[i], fetch(mods[i].name), cfg, enabledOnly);
        i := i + 1;
      }
      assert mods[..i] == mods;
    }

    /**
     * install_mod: nothing happens when the portal has no entry or no
     * compatible release; otherwise `{name, enabled: true}` is appended to
     * the mod list (duplicates allowed), the most recent compatible release
     * is downloaded unless its file is already up to date, and the result
     * and the reload flag say whether it was.
     */
    method InstallMod(name: string, resp: Response, cfg: Config) returns (installed: bool)
      modifies this
      ensures var found := GetModInfos(ModEntry(name, true), resp, cfg.factorioVersion, cfg.shouldDowngrade);
        if found.None? || found.value.sameVersionReleases == [] then
          && !installed
          && folder == old(folder) && modList == old(modList) && hasToReload == old(hasToReload)
        else
          var sel := found.value.sameVersionReleases[0];
          && modList == old(modList) + [ModEntry(name, true)]
          && installed == !IsUpToDate(old(folder), sel.fileName, sel.sha1)
          && folder == old(folder)[sel.fileName := sel.sha1]
          && hasToReload == (old(hasToReload) || installed)
    {
      var mod := ModEntry(name, true);
      var found := GetModInfos(mod, resp, cfg.factorioVersion, cfg.shouldDowngrade);
      if found.None? {
        return false;
      }
      var infos := found.value;
      if |infos.sameVersionReleases| == 0 {
        return false;
      }
      var mods := ReadModsList(modList, false).value;
      modList := mods + [mod];
      var sel := infos.sameVersionReleases[0];
      if IsUpToDate(folder, sel.fileName, sel.sha1) {
        return false;
      }
      Download(sel);
      hasToReload := true;
      return true;
    }

    /**
     * remove_mod: nothing happens when the portal has no releases for the
     * mod; otherwise the file of every release is deleted, every entry of
     * that name leaves the mod list (the others stay, in order), and the
     * reload flag is raised.
     */
    method RemoveMod(name: string, resp: Response, cfg: Config)
      modifies this
      ensures var found := GetModInfos(ModEntry(name, true), resp, cfg.factorioVersion, cfg.shouldDowngrade);
        if found.None? then
          folder == old(folder) && modList == old(modList) && hasToReload == old(hasToReload)
        else
          && folder == old(folder) - FileNames(resp.releases.value)
          && modList == Without(old(modList), name)
          && (forall e :: e in modList ==> e.name != name)
          && hasToReload
    {
      var found := GetModInfos(ModEntry(name, true), resp, cfg.factorioVersion, cfg.shouldDowngrade);
      if found.None? {
        return;
      }
      assert FileNames(found.value.releases) == FileNames(resp.releases.value) by {
        assert forall x :: x in found.value.releases <==> x in multiset(resp.releases.value);
      }
      RemoveFiles(found.value.releases);
      var mods := ReadModsList(modList, false).value;
      var kept := RemoveFromList(mods, name);
      modList := kept;
      hasToReload := true;
    }

    /**
     * update_state_mods: the listed mods get `enabled := shouldEnable`,
     * every other entry and every name stay as they were, and the reload
     * flag is raised.
     */
    method UpdateStateMods(names: seq<string>, shouldEnable: bool)
      modifies this`modList, this`hasToReload
      ensures |modList| == |old(modList)|
      ensures forall i :: 0 <= i < |modList| ==> modList[i].name == old(modList)[i].name
      ensures forall i :: 0 <= i < |modList| && old(modList)[i].name in names ==> modList[i].enabled == shouldEnable
      ensures forall i :: 0 <= i < |modList| && old(modList)[i].name !in names ==> modList[i] == old(modList)[i]
      ensures hasToReload
    {
      var mods := ReadModsList(modList, false).value;
      var updated := SetEnabled(mods, names, shouldEnable);
      modList := updated;
      hasToReload := true;
    }
  }
}
