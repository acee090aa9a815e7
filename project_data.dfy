/** The crate description written by the early project extractor: modules
    that point to their parent by index, functions with their calls, and
    resolution of a module path to a module index. */
module ProjectExtractorData {
  import opened Wrappers

  /** A path of names, `a::b::c` as `["a", "b", "c"]`. */
  datatype UniqueIdentifier = UniqueIdentifier(path: seq<string>)

  datatype Function = Function(name: string, isUnsafe: bool, calls: seq<UniqueIdentifier>)

  /** A module; `parentModId` is the index of its parent in the crate's
      module list, and `None` for a top-level module. */
  datatype Mod = Mod(name: string, functions: seq<Function>, parentModId: Option<nat>)

  /** A crate; the version numbers are `u32` in the extractor. */
  datatype Crate = Crate(name: string, version: (nat, nat, nat), mods: seq<Mod>)

  /** `Crate::new`: a crate without modules. */
  function NewCrate(name: string, version: (nat, nat, nat)): (c: Crate)
    ensures c.name == name && c.version == version && |c.mods| == 0
  {
    Crate(name, version, [])
  }

  predicate StrictlyIncreasing(s: seq<nat>)
  {
    forall i, j :: 0 <= i < j < |s| ==> s[i] < s[j]
  }

  /** `find_mod_ids`: the indices of the modules named `name`, ascending. */
  method FindModIds(c: Crate, name: string) returns (ids: seq<nat>)
    ensures StrictlyIncreasing(ids)
    ensures forall j :: 0 <= j < |ids| ==> ids[j] < |c.mods|
    ensures forall i: nat :: i in ids <==> i < |c.mods| && c.mods[i].name == name
  {
    ids := [];
    var id := 0;
    while id < |c.mods|
      invariant id <= |c.mods|
      invariant StrictlyIncreasing(ids)
      invariant forall j :: 0 <= j < |ids| ==> ids[j] < id
      invariant forall i: nat :: i in ids <==> i < id && c.mods[i].name == name
    {
      if c.mods[id].name == name {
        ids := ids + [id];
      }
      id := id + 1;
    }
  }

  /** The module `name` whose parent is `parent`, the first in module order
      when several are. */
  function FirstChild(mods: seq<Mod>, name: string, parent: Option<nat>): (r: Option<nat>)
    ensures r.Some? ==> (r.value < |mods| && mods[r.value].name == name && mods[r.value].parentModId == parent)
    ensures r.Some? ==> forall j :: 0 <= j < r.value ==> !(mods[j].name == name && mods[j].parentModId == parent)
    ensures r.None? ==> forall j :: 0 <= j < |mods| ==> !(mods[j].name == name && mods[j].parentModId == parent)
  {
    FirstChildFrom(mods, name, parent, 0)
  }

  function FirstChildFrom(mods: seq<Mod>, name: string, parent: Option<nat>, k: nat): (r: Option<nat>)
    requires k <= |mods|
    requires forall j :: 0 <= j < k ==> !(mods[j].name == name && mods[j].parentModId == parent)
    ensures r.Some? ==> (r.value < |mods| && mods[r.value].name == name && mods[r.value].parentModId == parent)
    ensures r.Some? ==> forall j :: 0 <= j < r.value ==> !(mods[j].name == name && mods[j].parentModId == parent)
    ensures r.None? ==> forall j :: 0 <= j < |mods| ==> !(mods[j].name == name && mods[j].parentModId == parent)
    decreases |mods| - k
  {
    if k == |mods| then None
    else if mods[k].name == name && mods[k].parentModId == parent then Some(k)
    else FirstChildFrom(mods, name, parent, k + 1)
  }

  /** Walks `segs` down from module `cur`, each segment naming a child of
      the module reached so far. */
  function ResolveFrom(mods: seq<Mod>, segs: seq<string>, cur: Option<nat>): Option<nat>
  {
    if segs == [] then cur
    else
      match FirstChild(mods, segs[0], cur)
      case None => None
      case Some(m) => ResolveFrom(mods, segs[1..], Some(m))
  }

  /** What `get_mod_id` computes: the path resolved from the top level. */
  function ModIdOf(c: Crate, p: UniqueIdentifier): Option<nat>
  {
    ResolveFrom(c.mods, p.path, None)
  }

  /** `get_mod_id`: one `find_mod_ids` per segment, then the first of those
      modules whose parent is the module reached so far. */
  method GetModId(c: Crate, p: UniqueIdentifier) returns (r: Option<nat>)
    ensures r == ModIdOf(c, p)
  {
    var current: Option<nat> := None;
    var s := 0;
    while s < |p.path|
      invariant s <= |p.path|
      invariant ResolveFrom(c.mods, p.path[s..], current) == ModIdOf(c, p)
    {
      var segment := p.path[s];
      assert p.path[s..][0] == segment && p.path[s..][1..] == p.path[s + 1..];
      var ids := FindModIds(c, segment);
      var k := 0;
      while k < |ids| && c.mods[ids[k]].parentModId != current
        invariant k <= |ids|
        invariant forall j :: 0 <= j < k ==> c.mods[ids[j]].parentModId != current
      {
        k := k + 1;
      }
      if k == |ids| {
        FirstChildNone(c.mods, segment, current, ids);
        return None;
      }
      FirstChildInIds(c.mods, segment, current, ids, k);
      current := Some(ids[k]);
      s := s + 1;
    }
    assert p.path[s..] == [];
    return current;
  }

  /** Searching the ascending indices of the modules named `name` finds
      the first module with that name and parent. */
  lemma FirstChildInIds(mods: seq<Mod>, name: string, parent: Option<nat>, ids: seq<nat>, k: nat)
    requires StrictlyIncreasing(ids) && forall j :: 0 <= j < |ids| ==> ids[j] < |mods|
    requires forall i: nat :: i in ids <==> i < |mods| && mods[i].name == name
    requires k < |ids| && mods[ids[k]].parentModId == parent
    requires forall j :: 0 <= j < k ==> mods[ids[j]].parentModId != parent
    ensures FirstChild(mods, name, parent) == Some(ids[k])
  {
    forall j | 0 <= j < ids[k] && mods[j].name == name
      ensures mods[j].parentModId != parent
    {
      assert j in ids;
      var p :| 0 <= p < |ids| && ids[p] == j;
    }
  }

  /** No module named `name` among `ids` has the parent, so none at all. */
  lemma FirstChildNone(mods: seq<Mod>, name: string, parent: Option<nat>, ids: seq<nat>)
    requires forall i: nat :: i in ids <==> i < |mods| && mods[i].name == name
    requires forall j :: 0 <= j < |ids| ==> ids[j] < |mods| && mods[ids[j]].parentModId != parent
    ensures FirstChild(mods, name, parent) == None
  {
    forall j | 0 <= j < |mods| && mods[j].name == name
      ensures mods[j].parentModId != parent
    {
      assert j in ids;
      var p :| 0 <= p < |ids| && ids[p] == j;
    }
  }

  /** The module a path resolves to carries the path's last name, and its
      parent is the module the rest of the path resolves to. */
  lemma {:induction false} ResolveFromLast(mods: seq<Mod>, segs: seq<string>, cur: Option<nat>)
    requires segs != [] && ResolveFrom(mods, segs, cur).Some?
    ensures ResolveFrom(mods, segs, cur).value < |mods|
    ensures mods[ResolveFrom(mods, segs, cur).value].name == segs[|segs| - 1]
    ensures mods[ResolveFrom(mods, segs, cur).value].parentModId == ResolveFrom(mods, segs[..|segs| - 1], cur)
  {
    var m0 := FirstChild(mods, segs[0], cur).value;
    if |segs| > 1 {
      ResolveFromLast(mods, segs[1..], Some(m0));
      var init := segs[..|segs| - 1];
      assert init[0] == segs[0] && init[1..] == segs[1..][..|segs[1..]| - 1];
    }
  }

  /** `get_mod_id` resolves nothing for the empty path, and a resolved
      module is named by the path's last segment with the parent that
      `remove_last_segment` of the path resolves to. */
  lemma ModIdOfSpec(c: Crate, p: UniqueIdentifier)
    ensures p.path == [] ==> ModIdOf(c, p) == None
    ensures ModIdOf(c, p).Some? ==> (
      p.path != [] && ModIdOf(c, p).value < |c.mods|
      && c.mods[ModIdOf(c, p).value].name == p.path[|p.path| - 1]
      && c.mods[ModIdOf(c, p).value].parentModId == ModIdOf(c, RemoveLastSegment(p)))
  {
    if ModIdOf(c, p).Some? && p.path != [] {
      ResolveFromLast(c.mods, p.path, None);
    }
  }

  /** A fresh crate has no module for any path. */
  lemma NewCrateResolvesNothing(name: string, version: (nat, nat, nat), p: UniqueIdentifier)
    ensures ModIdOf(NewCrate(name, version), p) == None
  {
    if p.path != [] {
      assert FirstChild([], p.path[0], None) == None;
    }
  }

  /** `remove_last_segment`: pops the last name; the empty path stays empty. */
  function RemoveLastSegment(p: UniqueIdentifier): (r: UniqueIdentifier)
    ensures p.path == [] ==> r.path == []
    ensures p.path != [] ==> p.path == r.path + [p.path[|p.path| - 1]]
  {
    if p.path == [] then p else UniqueIdentifier(p.path[..|p.path| - 1])
  }

  /** One element of a definition path: a module with its name, or
      anything else (an item, a closure, an impl, ...). */
  datatype DefPathData = Module(name: string) | Other

  /** The module names of a definition path, in order. */
  function ModuleSegments(data: seq<DefPathData>): (r: seq<string>)
    ensures |r| <= |data|
  {
    if data == [] then []
    else ModuleSegments(data[..|data| - 1]) + (if data[|data| - 1].Module? then [data[|data| - 1].name] else [])
  }

  /** `from_def_path_of_mod`: pushes the name of every module element. */
  method FromDefPathOfMod(data: seq<DefPathData>) returns (r: UniqueIdentifier)
    ensures r.path == ModuleSegments(data)
  {
    var segments := [];
    var i := 0;
    while i < |data|
      invariant i <= |data|
      invariant segments == ModuleSegments(data[..i])
    {
      assert data[..i + 1][..i] == data[..i];
      if data[i].Module? {
        segments := segments + [data[i].name];
      }
      i := i + 1;
    }
    assert data[..i] == data;
    return UniqueIdentifier(segments);
  }

  /** The segments are the modules' names and only those: a path without
      other elements keeps all its names, and every segment is the name of
      some module element. */
  lemma {:induction false} ModuleSegmentsSpec(data: seq<DefPathData>)
    ensures (forall i :: 0 <= i < |data| ==> data[i].Module?) ==> |ModuleSegments(data)| == |data|
    ensures forall x :: x in ModuleSegments(data) <==> Module(x) in data
  {
    if data != [] {
      var init := data[..|data| - 1];
      ModuleSegmentsSpec(init);
      assert data == init + [data[|data| - 1]];
    }
  }
}
