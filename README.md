# Factorio mod manager: verified model of the release resolver and the mod edits

This project models, in Dafny, the decision logic of `mods_manager.py`, a
script that installs, updates, removes, enables and disables Factorio mods
from the Factorio mod portal:

- the **release resolver** of `get_mod_infos`: a mod's releases are sorted
  newest first by `released_at` (a stable sort), then filtered to those made
  for the installed Factorio `major.minor` version, or in downgrade mode for
  that version or an older one; callers install the first release left, or
  skip the mod when none is left;
- the **update step** of `update_mods` and `check_file_and_sha`: the files of
  every other release of the mod are deleted, the selected file is kept when
  its SHA-1 digest is the published one, and otherwise it is downloaded and
  the run's `has_to_reload` flag is raised;
- the **mod-list edits** on `mod-list.json`: `read_mods_list` dropping the
  `base` entry, `install_mod` appending `{name, enabled: true}`,
  `remove_mod` dropping every entry of a name, `update_state_mods` setting
  `enabled` for listed names.

Files:

- `basics.dfy` (module `Basics`): `Option`, order-preserving `Filter` (the
  shape of the script's list comprehensions) and its lemmas.
- `manifest.dfy` (module `Manifest`): `ModEntry`, `ReadModsList`, and the two
  loops over the mod list as methods on sequences.
- `releases.dfy` (module `Releases`): versions, releases, the stable
  newest-first sort, the version filter, `GetModInfos` and the lemmas about
  the selected release.
- `mods_manager.dfy` (module `ModsManager`): the class `Installation` holding
  the mods folder (file name to content digest), the mod list and the reload
  flag, with one method per operation, and the pure functions that specify
  the update step.

The global `glob` dictionary becomes explicit values: the Factorio version
and the downgrade switch are a `Config` parameter, the mods folder, the mod
list and `has_to_reload` are the fields of `Installation`, and the mod
portal's answer for a mod is a `Response` parameter (`fetch` for a whole
update run). Versions are `(major, minor)` pairs of naturals compared
lexicographically; `released_at` timestamps are naturals; SHA-1 digests are
opaque strings.

In downgrade mode the code keeps every release for the installed version or
an older one and takes the most recent, even when an older release exists for
exactly the installed version; the `--downgrade` help text (mods_manager.py:78-80)
describes a fallback used only when no compatible version is found. The model
follows the code; `Releases.DowngradePrefersRecency` shows the difference on a
concrete catalogue.

## Model

| member | source | states |
|---|---|---|
| `Manifest.ReadModsList` | mods_manager.py:108-116 | With `removeBase` the result is the document without its first (`base`) entry, and an empty document raises (result `None`); without it the whole list is returned |
| `Manifest.RemoveFromList` | mods_manager.py:293-299 | No entry named `name` remains; every other entry is kept exactly as often as it occurred; the result is a subsequence of the input (order kept) |
| `Manifest.SetEnabled` | mods_manager.py:340-345 | Same length and same names at every position; listed names get `enabled = shouldEnable`; every other entry is untouched |
| `Releases.SortByReleaseDate` | mods_manager.py:169 | The sorted release list is a permutation of the input and is non-increasing in `released_at` |
| `Releases.SortByReleaseDateIsStable` | mods_manager.py:169 | For every timestamp, the releases published at that instant keep their input order (Python's stable sort with `reverse=True`) |
| `Releases.SortByReleaseDateIsTheStableSort` | mods_manager.py:169 | Any list that is newest first and keeps the input order within each timestamp is equal to the sorted list |
| `Releases.CompatibleReleasesExact` | mods_manager.py:171-174 | `same_version_releases` keeps a release if and only if its Factorio version equals the target (downgrade: is at most the target), each kept release as often as it occurs, keeps the sorted order, and stays newest first |
| `Releases.SelectedIsMostRecentCompatible` | mods_manager.py:169-174 | The filtered list is empty exactly when no release is compatible; otherwise its first element is a compatible release of the input, no compatible release is strictly newer, and it is the first compatible release the portal listed at that instant |
| `Releases.SelectedIsFirstOfItsInstant` | mods_manager.py:169-174 | Ties on `released_at` are broken by the portal's order among compatible releases |
| `Releases.ResolverScenarios` | mods_manager.py:169-174 | Releases for 0.18 (older) and 1.0 (newer): target 1.0 selects the 1.0 release, target 1.1 finds nothing, target 1.1 in downgrade mode keeps both with the 1.0 release first |
| `Releases.DowngradePrefersRecency` | mods_manager.py:171-172 | In downgrade mode a newer release for 0.18 comes before an older release for exactly 1.0 when the target is 1.0 |
| `Releases.GetModInfosSelectsMostRecent` | mods_manager.py:169-183 | When `get_mod_infos` returns a record with a compatible release, the first of `same_version_releases` is a release the portal listed, is compatible, and no compatible release is newer |
| `Releases.GetModInfos` | mods_manager.py:156-183 | `None` exactly when the request fails (status other than 200) or the mod has no `releases` or an empty list; otherwise the record carries the mod's name and flag, its releases as a newest-first permutation, and exactly the compatible ones |
| `Releases.GetModInfosAsWritten` | mods_manager.py:160-183 | As written, the guard raises KeyError exactly when the status is 200 and `releases` is missing, and returns `None` exactly when the status is not 200 |
| `Releases.ReleaseGuardDiscrepancy` | mods_manager.py:165-167 | A body without `releases` raises in the code and is skipped by the intended guard; an empty list yields a record with no releases in the code and is skipped by the intended guard; on all other inputs the two agree |
| `ModsManager.DeleteList` | mods_manager.py:211 | The delete list holds exactly the releases whose file name differs from the selected release's, each as often as it occurs, in sorted order |
| `ModsManager.UpdateResolved` | mods_manager.py:186-225 | A disabled mod under `--update-enabled-only`, or one without a compatible release, changes nothing; otherwise no other release's file remains, the selected file is present with the published digest, unrelated files are untouched, nothing else appears, and the reload flag is raised exactly when the selected file was not already up to date |
| `ModsManager.UpdateStep` | mods_manager.py:200-209 | A mod for which nothing was returned is skipped, and the reload flag is never lowered |
| `ModsManager.UpdateAll` | mods_manager.py:195-225 | Running the update over all listed mods never lowers the reload flag |
| `ModsManager.UpdateStepAsWritten` | mods_manager.py:200-207 | The loop turn as written raises TypeError exactly when `get_mod_infos` returned `None`; on a record it does what the corrected step does |
| `ModsManager.UpdateAllAsWritten` | mods_manager.py:195-225 | `update_mods` as written: the first exception of `get_mod_infos` or of the unguarded subscript ends the run; a run that completes never lowers the reload flag |
| `ModsManager.AsWrittenCompletesIffAnswered` | mods_manager.py:195-225 | `update_mods` as written completes exactly when the portal answered every listed mod with status 200 and a `releases` key; any other answer ends the run with an exception |
| `ModsManager.AnsweredStepAgrees` | mods_manager.py:165-209 | For an answered mod the loop turn as written and the corrected one give the same state, an empty release list included |
| `ModsManager.AsWrittenAgreesWhenAnswered` | mods_manager.py:195-225 | When every listed mod is answered, `update_mods` as written ends in the same state as the corrected update |
| `ModsManager.UnansweredModHasNoInfos` | mods_manager.py:201-207 | A mod the portal answers with status 404 yields `None` with the guard as written and as intended; the loop as written then raises TypeError, on that mod alone and as a one-mod run, while the corrected step leaves the state unchanged |
| `ModsManager.Installation.constructor` | mods_manager.py:18-31 | A run starts with the reload flag lowered |
| `ModsManager.Installation.RemoveFiles` | mods_manager.py:132-141 | The folder afterwards is the folder before without the given file names; missing files are ignored |
| `ModsManager.Installation.Download` | mods_manager.py:305-334 | The downloaded file is stored under its name with the published digest |
| `ModsManager.Installation.UpdateMod` | mods_manager.py:200-225 | The folder and flag after one mod's update are those of `UpdateStep` applied to the state before |
| `ModsManager.Installation.UpdateMods` | mods_manager.py:195-225 | The folder and flag after the run are those of `UpdateAll` over every mod but `base`, and the flag is never lowered |
| `ModsManager.Installation.InstallMod` | mods_manager.py:228-269 | Without infos or a compatible release nothing changes; otherwise `{name, enabled: true}` is appended to the mod list, the selected file holds the published digest, and the result and the flag say whether it had to be downloaded |
| `ModsManager.Installation.RemoveMod` | mods_manager.py:272-302 | Without releases nothing changes; otherwise every release file of the mod is gone, every entry of that name leaves the mod list with the rest kept in order, and the flag is raised |
| `ModsManager.Installation.UpdateStateMods` | mods_manager.py:337-348 | Listed mods get `enabled = shouldEnable`, the length, names and other entries are unchanged, and the flag is raised |

## Findings

| source | as written | input that shows it | evidently intended | confidence | as-written member | corrected member |
|---|---|---|---|---|---|---|
| mods_manager.py:165 | `'releases' not in json and len(json['releases']) == 0` | a 200 answer without a `releases` key raises KeyError; a 200 answer with `releases: []` is not skipped | `or`: skip the mod when the key is missing or the list is empty, as the debug message says | high; not executed | `Releases.GetModInfosAsWritten`, shown by `Releases.ReleaseGuardDiscrepancy` | `Releases.GetModInfos` |
| mods_manager.py:201-207 | `mod_infos['enabled']` and `mod_infos['same_version_releases']` on what `get_mod_infos` returned, without a `None` test | a mod the portal answers with status 404 makes `get_mod_infos` return `None`, and the subscript raises TypeError, ending the whole update | skip that mod, as `install_mod` and `remove_mod` do | high; not executed | `ModsManager.UpdateStepAsWritten` and `ModsManager.UpdateAllAsWritten`, with `ModsManager.AsWrittenCompletesIffAnswered`, shown by `ModsManager.UnansweredModHasNoInfos` | `ModsManager.UpdateStep` |

The rest of the model uses the corrected members, including
`Installation.InstallMod` and `Installation.RemoveMod` (see "## Left out").

## Left out

- HTTP: the portal request (`requests.get`, mods_manager.py:158-163) is the `Response` parameter; the streamed download, its content-type check that aborts the process, and the progress bar (mods_manager.py:305-334) are reduced to their effect: the file is stored with the published digest.
- `Installation.Download`: assumes the downloaded content has the published SHA-1 digest; a corrupt or different download is not modelled.
- SHA-1 hashing in 65536-byte blocks (`get_file_sha1`, mods_manager.py:35-43): a library call; digests are opaque strings in the folder map.
- `packaging.version.parse` and `datetime.strptime`: versions are `(major, minor)` naturals and timestamps naturals; unparsable versions or timestamps, and a missing installed version, are not modelled.
- `find_version`, `check_mod_manager_update` and the `systemctl` restart at the end of `main` (mods_manager.py:95-105, 402-418, 466-479): process I/O; the reload flag is the model's output.
- JSON reading and writing of `mod-list.json`, argparse, `load_config`, `debug`, `display_mods_list`, and the order in which `main` runs the operations: I/O and user interface.
- Dry-run mode: the model assumes every delete, download and mod-list write happens; in a dry run the code skips them but still raises the reload flag.
- `Installation.UpdateMods`: requires a non-empty mod list; the code pops its first entry and raises IndexError on an empty list, a crash the model does not represent.
- `Installation.UpdateMods`: the portal is a fixed function of the mod name for the whole run; the code asks it again for each listed entry.
- `Installation.InstallMod`: uses the corrected release guard; as written, a 200 answer without `releases` raises KeyError inside `get_mod_infos` (mods_manager.py:165), which the model does not represent, and the method leaves the state unchanged instead.
- `Installation.RemoveMod`: uses the corrected release guard; as written, a 200 answer without `releases` raises KeyError (mods_manager.py:165), and an empty `releases: []` deletes no file but still drops every entry of the mod from the mod list and raises the reload flag (mods_manager.py:280-302); in the model both leave the state unchanged.
- File-system errors (a failing `os.remove` or write) are not modelled.
- Malformed portal answers: a body that is not JSON makes `r.json()` raise (mods_manager.py:165), and a release without `released_at`, `file_name`, `sha1`, `download_url` or `info_json` raises KeyError (mods_manager.py:169-174, 211-222); `Response` and `Release` hold only well-formed answers, so these exceptions are not modelled.
