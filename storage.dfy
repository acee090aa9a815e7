/** The raw `.rc` file format of relations and interning tables of plain
    (copy) values: three little-endian u64 header words, the schema hash,
    the element size and the element count, followed by the elements'
    bytes. A fact is identified with its in-memory byte image, so a
    relation of facts of size `size` is a sequence of byte strings of that
    length. */
module Storage {
  import opened Wrappers
  import opened DataStructures

  type byte = b: int | 0 <= b < 256

  /** The byte image of one fact. */
  type Element = seq<byte>

  /** A file path: everything up to the extension, and the extension. */
  datatype Path = Path(stem: string, extension: string)

  /** `set_extension`: the extension is replaced, the rest kept. */
  function SetExtension(p: Path, ext: string): (r: Path)
    ensures r.stem == p.stem && r.extension == ext
  {
    Path(p.stem, ext)
  }

  /** The files on disk, by path. */
  type Files = map<Path, seq<byte>>

  const RAW_EXTENSION: string := "rc"

  function Pow256(k: nat): (r: nat)
    ensures r > 0
  {
    if k == 0 then 1 else 256 * Pow256(k - 1)
  }

  const U64_LIMIT: nat := Pow256(8)

  /** The `k`-byte little-endian encoding of `n` (`to_le_bytes`). */
  function LeBytes(n: nat, k: nat): (r: seq<byte>)
    ensures |r| == k
  {
    if k == 0 then [] else [n % 256] + LeBytes(n / 256, k - 1)
  }

  /** The number a little-endian byte string denotes (`from_le_bytes`). */
  function FromLe(bs: seq<byte>): nat
  {
    if bs == [] then 0 else bs[0] + 256 * FromLe(bs[1..])
  }

  lemma {:induction false} FromLeBound(bs: seq<byte>)
    ensures FromLe(bs) < Pow256(|bs|)
  {
    if bs != [] {
      FromLeBound(bs[1..]);
    }
  }

  /** Decoding undoes encoding for every number that fits. */
  lemma {:induction false} LeBytesRoundTrip(n: nat, k: nat)
    requires n < Pow256(k)
    ensures FromLe(LeBytes(n, k)) == n
  {
    if k > 0 {
      assert n / 256 < Pow256(k - 1);
      LeBytesRoundTrip(n / 256, k - 1);
      assert LeBytes(n, k)[1..] == LeBytes(n / 256, k - 1);
    }
  }

  function U64Le(n: nat): (r: seq<byte>)
    ensures |r| == 8
  {
    LeBytes(n, 8)
  }

  /** All elements laid out one after the other, as the vector's memory. */
  function Flatten(vec: seq<Element>): seq<byte>
  {
    if vec == [] then [] else vec[0] + Flatten(vec[1..])
  }

  predicate AllOfSize(vec: seq<Element>, size: nat) {
    forall i :: 0 <= i < |vec| ==> |vec[i]| == size
  }

  lemma {:induction false} FlattenLength(vec: seq<Element>, size: nat)
    requires AllOfSize(vec, size)
    ensures |Flatten(vec)| == size * |vec|
  {
    if vec != [] {
      FlattenLength(vec[1..], size);
    }
  }

  /** The vector of `count` elements of `size` bytes stored in `bytes`. */
  function Chunks(bytes: seq<byte>, size: nat, count: nat): (r: seq<Element>)
    requires |bytes| == size * count
    ensures |r| == count && AllOfSize(r, size)
  {
    if count == 0 then [] else [bytes[..size]] + Chunks(bytes[size..], size, count - 1)
  }

  lemma {:induction false} ChunksOfFlatten(vec: seq<Element>, size: nat)
    requires AllOfSize(vec, size)
    ensures |Flatten(vec)| == size * |vec|
    ensures Chunks(Flatten(vec), size, |vec|) == vec
  {
    FlattenLength(vec, size);
    if vec != [] {
      ChunksOfFlatten(vec[1..], size);
      assert Flatten(vec)[..size] == vec[0];
      assert Flatten(vec)[size..] == Flatten(vec[1..]);
    }
  }

  /** The file contents `unsafe_save_vec` writes. */
  function Encoded(vec: seq<Element>, elementSize: nat, schemaHash: nat): seq<byte>
  {
    U64Le(schemaHash) + U64Le(elementSize) + U64Le(|vec|) + Flatten(vec)
  }

  /** Why loading failed. Only `OpenFileError` is returned as an error by
      the source; the others are failed assertions there. */
  datatype LoadError =
    | OpenFileError(path: Path)
    | ShortHeader
    | SchemaHashMismatch(actual: nat, expected: nat)
    | FactSizeMismatch(actual: nat, expected: nat)
    | ShortData(read: nat, expected: nat)

  /** What loading `path` (with its extension forced to "rc") yields. The
      data section must hold at least size * count bytes; bytes after them
      are never read. */
  function Decoded(files: Files, expectedHash: nat, elementSize: nat, path: Path): (r: Result<seq<Element>, LoadError>)
    ensures r.Ok? ==> AllOfSize(r.value, elementSize)
  {
    var p := SetExtension(path, RAW_EXTENSION);
    if p !in files then Err(OpenFileError(p))
    else
      var bytes := files[p];
      if |bytes| < 8 then Err(ShortHeader)
      else if FromLe(bytes[..8]) != expectedHash then Err(SchemaHashMismatch(FromLe(bytes[..8]), expectedHash))
      else if |bytes| < 16 then Err(ShortHeader)
      else if FromLe(bytes[8..16]) != elementSize then Err(FactSizeMismatch(FromLe(bytes[8..16]), elementSize))
      else if |bytes| < 24 then Err(ShortHeader)
      else
        var count := FromLe(bytes[16..24]);
        if |bytes| - 24 < elementSize * count then Err(ShortData(|bytes| - 24, elementSize * count))
        else Ok(Chunks(bytes[24..24 + elementSize * count], elementSize, count))
  }

  /** Writes the header words in sequence, then the data bytes, to the
      file `path` with extension "rc". */
  method UnsafeSaveVec(files: Files, vec: seq<Element>, elementSize: nat, schemaHash: nat, path: Path)
    returns (out: Files)
    requires AllOfSize(vec, elementSize)
    ensures out == files[SetExtension(path, RAW_EXTENSION) := Encoded(vec, elementSize, schemaHash)]
  {
    var p := SetExtension(path, RAW_EXTENSION);
    var bytes: seq<byte> := U64Le(schemaHash);
    bytes := bytes + U64Le(elementSize);
    bytes := bytes + U64Le(|vec|);
    bytes := bytes + Flatten(vec);
    out := files[p := bytes];
  }

  /** The read loop of `unsafe_load_vec`: reads at most `chunk` bytes at a
      time from position `from` of `bytes` into a preallocated buffer of
      `capacity` bytes, until a read returns nothing because the buffer is
      full or the input is exhausted. */
  method ReadLoop(bytes: seq<byte>, from: nat, capacity: nat, chunk: nat)
    returns (data: array<byte>, total: nat)
    requires from <= |bytes| && chunk > 0
    ensures fresh(data) && data.Length == capacity
    ensures total == if |bytes| - from < capacity then |bytes| - from else capacity
    ensures data[..total] == bytes[from..from + total]
  {
    data := new byte[capacity];
    total := 0;
    while true
      invariant total <= data.Length && from + total <= |bytes|
      invariant forall k :: 0 <= k < total ==> data[k] == bytes[from + k]
      decreases data.Length - total
    {
      var n := chunk;
      if |bytes| - (from + total) < n {
        n := |bytes| - (from + total);
      }
      if data.Length - total < n {
        n := data.Length - total;
      }
      if n == 0 {
        break;
      }
      forall k | 0 <= k < n {
        data[total + k] := bytes[from + total + k];
      }
      total := total + n;
    }
    assert data[..total] == bytes[from..from + total];
  }

  /** Reads the three header words, checks them, then reads the data
      section into a buffer of size * count bytes. */
  method UnsafeLoadVec(files: Files, expectedHash: nat, elementSize: nat, path: Path, chunk: nat)
    returns (r: Result<seq<Element>, LoadError>)
    requires chunk > 0
    ensures r == Decoded(files, expectedHash, elementSize, path)
  {
    var p := SetExtension(path, RAW_EXTENSION);
    if p !in files {
      return Err(OpenFileError(p));
    }
    var bytes := files[p];
    if |bytes| < 8 {
      return Err(ShortHeader);
    }
    var actualHash := FromLe(bytes[..8]);
    if actualHash != expectedHash {
      return Err(SchemaHashMismatch(actualHash, expectedHash));
    }
    if |bytes| < 16 {
      return Err(ShortHeader);
    }
    var actualSize := FromLe(bytes[8..16]);
    if actualSize != elementSize {
      return Err(FactSizeMismatch(actualSize, elementSize));
    }
    if |bytes| < 24 {
      return Err(ShortHeader);
    }
    var count := FromLe(bytes[16..24]);
    var expected := elementSize * count;
    var data, total := ReadLoop(bytes, 24, expected, chunk);
    if total != expected {
      return Err(ShortData(|bytes| - 24, expected));
    }
    assert data[..] == data[..total];
    r := Ok(Chunks(data[..], elementSize, count));
  }

  /** Loading a file saved with the same schema hash and element size
      gives back the same elements in the same order. */
  lemma SaveLoadRoundTrip(files: Files, vec: seq<Element>, elementSize: nat, schemaHash: nat, path: Path)
    requires AllOfSize(vec, elementSize)
    requires schemaHash < U64_LIMIT && elementSize < U64_LIMIT && |vec| < U64_LIMIT
    ensures Decoded(files[SetExtension(path, RAW_EXTENSION) := Encoded(vec, elementSize, schemaHash)],
                    schemaHash, elementSize, path) == Ok(vec)
  {
    var bytes := Encoded(vec, elementSize, schemaHash);
    ChunksOfFlatten(vec, elementSize);
    LeBytesRoundTrip(schemaHash, 8);
    LeBytesRoundTrip(elementSize, 8);
    LeBytesRoundTrip(|vec|, 8);
    assert bytes[..8] == U64Le(schemaHash);
    assert bytes[8..16] == U64Le(elementSize);
    assert bytes[16..24] == U64Le(|vec|);
    assert bytes[24..] == Flatten(vec);
    assert bytes[24..24 + elementSize * |vec|] == Flatten(vec);
  }

  /** A file saved under one schema hash does not load under another. */
  lemma LoadOtherHashFails(files: Files, vec: seq<Element>, elementSize: nat, schemaHash: nat, otherHash: nat, path: Path)
    requires AllOfSize(vec, elementSize)
    requires schemaHash < U64_LIMIT && otherHash != schemaHash
    ensures Decoded(files[SetExtension(path, RAW_EXTENSION) := Encoded(vec, elementSize, schemaHash)],
                    otherHash, elementSize, path) == Err(SchemaHashMismatch(schemaHash, otherHash))
  {
    var bytes := Encoded(vec, elementSize, schemaHash);
    LeBytesRoundTrip(schemaHash, 8);
    assert bytes[..8] == U64Le(schemaHash);
  }

  /** A stored element size other than the expected one fails to load,
      and so does a data section shorter than size * count bytes. */
  lemma LoadChecksSizeAndLength(files: Files, expectedHash: nat, elementSize: nat, path: Path)
    requires SetExtension(path, RAW_EXTENSION) in files
    requires |files[SetExtension(path, RAW_EXTENSION)]| >= 24
    ensures var bytes := files[SetExtension(path, RAW_EXTENSION)];
      Decoded(files, expectedHash, elementSize, path).Ok? <==>
        FromLe(bytes[..8]) == expectedHash && FromLe(bytes[8..16]) == elementSize &&
        |bytes| - 24 >= elementSize * FromLe(bytes[16..24])
  {
  }

  /** `Relation::save`: the facts vector in the raw format. */
  method SaveRelation(files: Files, relation: Relation<Element>, elementSize: nat, schemaHash: nat, path: Path)
    returns (out: Files)
    requires AllOfSize(relation.facts, elementSize)
    ensures out == files[SetExtension(path, RAW_EXTENSION) := Encoded(relation.facts, elementSize, schemaHash)]
  {
    out := UnsafeSaveVec(files, relation.facts, elementSize, schemaHash, path);
  }

  /** `Relation::load`: the loaded vector wrapped as a relation. */
  method LoadRelation(files: Files, expectedHash: nat, elementSize: nat, path: Path)
    returns (r: Result<Relation<Element>, LoadError>)
    ensures Decoded(files, expectedHash, elementSize, path).Ok? <==> r.Ok?
    ensures r.Ok? ==> fresh(r.value) && r.value.facts == Decoded(files, expectedHash, elementSize, path).value
    ensures r.Err? ==> r.error == Decoded(files, expectedHash, elementSize, path).error
  {
    var v := UnsafeLoadVec(files, expectedHash, elementSize, path, 8192);
    if v.Err? {
      return Err(v.error);
    }
    var rel := new Relation<Element>.FromVec(v.value);
    r := Ok(rel);
  }

  /** `InterningTable::save`: the contents vector in the raw format. */
  method SaveInterningTable(files: Files, table: InterningTable<Element>, elementSize: nat, schemaHash: nat, path: Path)
    returns (out: Files)
    requires AllOfSize(table.contents, elementSize)
    ensures out == files[SetExtension(path, RAW_EXTENSION) := Encoded(table.contents, elementSize, schemaHash)]
  {
    out := UnsafeSaveVec(files, table.contents, elementSize, schemaHash, path);
  }

  /** `InterningTable::load`: the loaded vector turned into a table, keys
      being positions. */
  method LoadInterningTable(files: Files, expectedHash: nat, elementSize: nat, path: Path)
    returns (r: Result<InterningTable<Element>, LoadError>)
    ensures Decoded(files, expectedHash, elementSize, path).Ok? <==> r.Ok?
    ensures r.Ok? ==> fresh(r.value) && r.value.contents == Decoded(files, expectedHash, elementSize, path).value
    ensures r.Err? ==> r.error == Decoded(files, expectedHash, elementSize, path).error
    ensures r.Ok? && NoDuplicates(r.value.contents) ==> r.value.Valid()
  {
    var v := UnsafeLoadVec(files, expectedHash, elementSize, path, 8192);
    if v.Err? {
      return Err(v.error);
    }
    var table := new InterningTable<Element>.FromVec(v.value);
    r := Ok(table);
  }
}
