/**
 * The mod list `mod-list.json`: a sequence of `{name, enabled}` records
 * whose first entry is Factorio's own `base` mod, and the edits the mod
 * manager makes to it in memory before writing it back.
 */
module Manifest {
  import opened Basics

  /** One entry of mod-list.json. */
  datatype ModEntry = ModEntry(name: string, enabled: bool)

  /**
   * read_mods_list: the `mods` array of the document, without its first
   * entry (the `base` mod) when `removeBase` holds. Popping index 0 of an
   * empty list raises IndexError in the source; that is the `None` result.
   */
  function ReadModsList(doc: seq<ModEntry>, removeBase: bool): (r: Option<seq<ModEntry>>)
    ensures r.None? <==> removeBase && doc == []
    ensures r.Some? && removeBase ==> [doc[0]] + r.value == doc
    ensures r.Some? && !removeBase ==> r.value == doc
  {
    if !removeBase then Some(doc)
    else if doc == [] then None
    else Some(doc[1..])
  }

  /** The entries not named `name`, in their original order. */
  function Without(mods: seq<ModEntry>, name: string): seq<ModEntry>
  {
    Filter((e: ModEntry) => e.name != name, mods)
  }

  /**
   * The loop of remove_mod that builds a new list from the entries whose
   * name differs from `name`: no entry named `name` is left, every other
   * entry is kept as often as it occurred, and in the same order.
   */
  method RemoveFromList(mods: seq<ModEntry>, name: string) returns (kept: seq<ModEntry>)
    ensures kept == Without(mods, name)
    ensures forall e :: e in kept ==> e.name != name
    ensures forall e: ModEntry :: e.name != name ==> multiset(kept)[e] == multiset(mods)[e]
    ensures IsSubsequence(kept, mods)
  {
    kept := [];
    var i := 0;
    while i < |mods|
      invariant 0 <= i <= |mods|
      invariant kept == Without(mods[..i], name)
    {
      assert mods[..i + 1] == mods[..i] + [mods[i]];
      FilterAppend((e: ModEntry) => e.name != name, mods[..i], mods[i]);
      if mods[i].name != name {
        kept := kept + [mods[i]];
      }
      i := i + 1;
    }
    assert mods[..i] == mods;
    FilterExact((e: ModEntry) => e.name != name, mods);
  }

  /**
   * The loop of update_state_mods: every entry whose name is listed gets
   * `enabled := shouldEnable`; the length, the order, every name and every
   * other entry stay as they were.
   */
  method SetEnabled(mods: seq<ModEntry>, names: seq<string>, shouldEnable: bool) returns (updated: seq<ModEntry>)
    ensures |updated| == |mods|
    ensures forall i :: 0 <= i < |mods| ==> updated[i].name == mods[i].name
    ensures forall i :: 0 <= i < |mods| && mods[i].name in names ==> updated[i].enabled == shouldEnable
    ensures forall i :: 0 <= i < |mods| && mods[i].name !in names ==> updated[i] == mods[i]
  {
    updated := mods;
    var i := 0;
    while i < |updated|
      invariant 0 <= i <= |updated| == |mods|
      invariant forall j :: 0 <= j < |mods| ==> updated[j].name == mods[j].name
      invariant forall j :: 0 <= j < i && mods[j].name in names ==> updated[j].enabled == shouldEnable
      invariant forall j :: 0 <= j < |mods| && (i <= j || mods[j].name !in names) ==> updated[j] == mods[j]
    {
      if updated[i].name in names {
        updated := updated[i := updated[i].(enabled := shouldEnable)];
      }
      i := i + 1;
    }
  }
}
