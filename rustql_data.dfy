/** The per-crate summaries the rustql extractor writes and the linker reads:
    crates, their modules, functions and structs, and the types they use. */
module RustqlData {
  import opened Wrappers

  /** Identifies a crate: two crates with equal identifiers have the same AST. */
  datatype CrateIdentifier = CrateIdentifier(name: string, configHash: string)

  /** A module; `parentMod` is the crate-local index of its parent, and a
      module without one is the crate's root. */
  datatype Mod = Mod(name: string, parentMod: Option<nat>)

  /** A definition path qualified by the crate it lives in. */
  datatype GlobalDefPath = GlobalDefPath(crateIdent: CrateIdentifier, defPath: string)

  /** The types the extractor records. */
  datatype Type =
    | Native(native: string)
    | Path(path: string)
    | Struct(structPath: GlobalDefPath)
    | Tuple(elements: seq<Type>)
    | Slice(element: Type)
    | Reference(to: Type, isMutable: bool)
    | Other

  /** A function; `containingMod` is the crate-local index of its module. */
  datatype Function = Function(
    name: string,
    isUnsafe: bool,
    isConst: bool,
    isAsync: bool,
    abi: string,
    isClosure: bool,
    calls: seq<GlobalDefPath>,
    containingMod: nat,
    defPath: string,
    argumentTypes: seq<Type>,
    returnType: Type)

  /** A struct definition with its named field types. */
  datatype StructData = StructData(name: string, defPath: GlobalDefPath, fields: seq<(string, Type)>)

  /** Everything extracted from one crate. */
  datatype Crate = Crate(metadata: CrateIdentifier, mods: seq<Mod>, structs: seq<StructData>, functions: seq<Function>)

  /** The bundle file name of a crate: its name, '_', its configuration hash. */
  function GetFilename(c: CrateIdentifier): (r: string)
    ensures |r| == |c.name| + 1 + |c.configHash|
    ensures r[..|c.name|] == c.name && r[|c.name|] == '_' && r[|c.name| + 1..] == c.configHash
  {
    c.name + "_" + c.configHash
  }

  /** The position of the last '_' in `s`. */
  function LastSeparator(s: string): (r: Option<nat>)
    ensures r.Some? ==> r.value < |s| && s[r.value] == '_' && forall j :: r.value < j < |s| ==> s[j] != '_'
    ensures r.None? ==> forall j :: 0 <= j < |s| ==> s[j] != '_'
  {
    if s == [] then None
    else if s[|s| - 1] == '_' then Some(|s| - 1)
    else LastSeparator(s[..|s| - 1])
  }

  /** Reads a bundle file name back, splitting it at its last '_'. */
  function ParseFilename(s: string): Option<CrateIdentifier>
  {
    var k := LastSeparator(s);
    if k.None? then None else Some(CrateIdentifier(s[..k.value], s[k.value + 1..]))
  }

  /** A configuration hash without '_' can be read back from the file name,
      name and hash both. */
  lemma FilenameRoundTrip(c: CrateIdentifier)
    requires forall j :: 0 <= j < |c.configHash| ==> c.configHash[j] != '_'
    ensures ParseFilename(GetFilename(c)) == Some(c)
  {
    var s := GetFilename(c);
    assert forall j :: |c.name| < j < |s| ==> s[j] == c.configHash[j - |c.name| - 1];
  }

  /** The file name identifies the crate uniquely as long as configuration
      hashes contain no '_'. */
  lemma FilenameUnique(a: CrateIdentifier, b: CrateIdentifier)
    requires forall j :: 0 <= j < |a.configHash| ==> a.configHash[j] != '_'
    requires forall j :: 0 <= j < |b.configHash| ==> b.configHash[j] != '_'
    ensures GetFilename(a) == GetFilename(b) <==> a == b
  {
    FilenameRoundTrip(a);
    FilenameRoundTrip(b);
  }

  /** Without that condition two crates can share a file name. */
  lemma FilenameCollision(a: CrateIdentifier, b: CrateIdentifier)
    requires a == CrateIdentifier("a", "b_c") && b == CrateIdentifier("a_b", "c")
    ensures a != b && GetFilename(a) == GetFilename(b)
  {
    assert GetFilename(a) == "a_b_c";
  }

  /** `Crate::new`: the identifier holds the name and the configuration hash,
      the version is not stored, and the crate starts with no modules,
      structs or functions. */
  function NewCrate(name: string, version: (nat, nat, nat), configHash: string): (r: Crate)
    ensures r.metadata.name == name && r.metadata.configHash == configHash
    ensures r.mods == [] && r.structs == [] && r.functions == []
  {
    Crate(CrateIdentifier(name, configHash), [], [], [])
  }

  /** Two crates created with different versions are the same crate. */
  lemma NewCrateIgnoresVersion(name: string, v1: (nat, nat, nat), v2: (nat, nat, nat), configHash: string)
    ensures NewCrate(name, v1, configHash) == NewCrate(name, v2, configHash)
    ensures GetFilename(NewCrate(name, v1, configHash).metadata) == name + "_" + configHash
  {
  }

  /** `GlobalDefPath::new` stores its arguments unchanged. */
  function NewGlobalDefPath(defPath: string, c: CrateIdentifier): (r: GlobalDefPath)
    ensures r.crateIdent == c && r.defPath == defPath
  {
    GlobalDefPath(c, defPath)
  }
}
