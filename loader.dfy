/** The generated `Loader`, for one relation and one interning table of
    copy values stored in the raw format: each is read from disk on its
    first load and cached, a store writes the file and fills the cache,
    and `load_<table>_as_vec` always reads afresh. The disk is the `files`
    field; `diskReads` counts the reads so that the caching is observable. */
module Loaders {
  import opened Wrappers
  import opened DataStructures
  import opened Storage

  /** `database_root.join(dir/name)`. */
  function FileUnder(root: string, dir: string, name: string): Path
  {
    Path(root + "/" + dir + "/" + name, "")
  }

  class Loader {
    var files: Files
    var diskReads: nat
    const relationPath: Path
    const relationHash: nat
    const factSize: nat
    var relationCache: Option<seq<Element>>
    const tablePath: Path
    const tableHash: nat
    const valueSize: nat
    var tableCache: Option<seq<Element>>

    /** A loader over `database_root` with nothing cached. */
    constructor(files: Files, root: string, relation: string, relationHash: nat, factSize: nat,
                table: string, tableHash: nat, valueSize: nat)
      ensures this.files == files && diskReads == 0
      ensures relationPath == FileUnder(root, "relations", relation) && this.relationHash == relationHash && this.factSize == factSize
      ensures tablePath == FileUnder(root, "interning", table) && this.tableHash == tableHash && this.valueSize == valueSize
      ensures relationCache == None && tableCache == None
    {
      this.files := files;
      diskReads := 0;
      relationPath := FileUnder(root, "relations", relation);
      this.relationHash := relationHash;
      this.factSize := factSize;
      relationCache := None;
      tablePath := FileUnder(root, "interning", table);
      this.tableHash := tableHash;
      this.valueSize := valueSize;
      tableCache := None;
    }

    /** `load_<relation>`: reads the file only when nothing is cached, and
        returns the cached facts. A failed read, which the source unwraps,
        is returned as the error and caches nothing. */
    method LoadRelation() returns (r: Result<seq<Element>, LoadError>)
      modifies this
      ensures files == old(files) && tableCache == old(tableCache)
      ensures old(relationCache).Some? ==>
        r == Ok(old(relationCache).value) && relationCache == old(relationCache) && diskReads == old(diskReads)
      ensures old(relationCache).None? ==>
        r == Decoded(files, relationHash, factSize, relationPath) && diskReads == old(diskReads) + 1 &&
        relationCache == (if r.Ok? then Some(r.value) else None)
    {
      if relationCache.None? {
        var loaded := Storage.LoadRelation(files, relationHash, factSize, relationPath);
        diskReads := diskReads + 1;
        if loaded.Err? {
          return Err(loaded.error);
        }
        relationCache := Some(loaded.value.IntoVec());
      }
      r := Ok(relationCache.value);
    }

    /** `store_<relation>`: only allowed while nothing is cached (an assertion
        in the source, here `ok` false and nothing changed); writes the facts
        in the raw format and caches them. */
    method StoreRelation(facts: seq<Element>) returns (ok: bool)
      requires AllOfSize(facts, factSize)
      modifies this
      ensures ok == old(relationCache).None?
      ensures tableCache == old(tableCache) && diskReads == old(diskReads)
      ensures ok ==> files == old(files)[SetExtension(relationPath, RAW_EXTENSION) := Encoded(facts, factSize, relationHash)]
      ensures ok ==> relationCache == Some(facts)
      ensures !ok ==> files == old(files) && relationCache == old(relationCache)
    {
      if relationCache.Some? {
        return false;
      }
      var relation := new Relation<Element>.FromVec(facts);
      files := SaveRelation(files, relation, factSize, relationHash, relationPath);
      relationCache := Some(relation.IntoVec());
      ok := true;
    }

    /** `load_<table>`: the same caching for an interning table's contents. */
    method LoadTable() returns (r: Result<seq<Element>, LoadError>)
      modifies this
      ensures files == old(files) && relationCache == old(relationCache)
      ensures old(tableCache).Some? ==>
        r == Ok(old(tableCache).value) && tableCache == old(tableCache) && diskReads == old(diskReads)
      ensures old(tableCache).None? ==>
        r == Decoded(files, tableHash, valueSize, tablePath) && diskReads == old(diskReads) + 1 &&
        tableCache == (if r.Ok? then Some(r.value) else None)
    {
      if tableCache.None? {
        var loaded := Storage.LoadInterningTable(files, tableHash, valueSize, tablePath);
        diskReads := diskReads + 1;
        if loaded.Err? {
          return Err(loaded.error);
        }
        tableCache := Some(loaded.value.contents);
      }
      r := Ok(tableCache.value);
    }

    /** `load_<table>_as_vec`: always reads the file, bypassing the cache,
        and returns the (key, value) rows in key order. */
    method LoadTableAsVec() returns (r: Result<seq<(nat, Element)>, LoadError>)
      modifies this
      ensures files == old(files) && relationCache == old(relationCache) && tableCache == old(tableCache)
      ensures diskReads == old(diskReads) + 1
      ensures r.Ok? <==> Decoded(files, tableHash, valueSize, tablePath).Ok?
      ensures r.Ok? ==> var contents := Decoded(files, tableHash, valueSize, tablePath).value;
        |r.value| == |contents| && forall i :: 0 <= i < |contents| ==> r.value[i] == (i, contents[i])
    {
      var loaded := Storage.LoadInterningTable(files, tableHash, valueSize, tablePath);
      diskReads := diskReads + 1;
      if loaded.Err? {
        return Err(loaded.error);
      }
      var rows := loaded.value.IntoPairs();
      r := Ok(rows);
    }
  }

  /** After a store, a load returns the stored facts without reading the disk. */
  method StoreThenLoad(l: Loader, facts: seq<Element>) returns (r: Result<seq<Element>, LoadError>)
    requires l.relationCache.None? && AllOfSize(facts, l.factSize)
    modifies l
    ensures r == Ok(facts) && l.diskReads == old(l.diskReads)
  {
    var ok := l.StoreRelation(facts);
    r := l.LoadRelation();
  }

  /** Loading twice reads the disk at most once and returns the same result
      when the first load succeeded. */
  method LoadTwice(l: Loader) returns (r1: Result<seq<Element>, LoadError>, r2: Result<seq<Element>, LoadError>)
    modifies l
    ensures r1.Ok? ==> r2 == r1
    ensures l.diskReads <= old(l.diskReads) + 2
    ensures r1.Ok? ==> l.diskReads <= old(l.diskReads) + 1
  {
    r1 := l.LoadRelation();
    r2 := l.LoadRelation();
  }
}
