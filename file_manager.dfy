/** A peer's block store (file_manager.py): a directory of files named
    "block_<i>.bin", with a dictionary in front of it that caches the blocks
    already read or written, and the loop that cuts a file into blocks. */
module FileManager {
  import opened Text
  import opened Collections

  /** `BLOCK_SIZE`: the default block length in bytes. */
  const BLOCK_SIZE: int := 1024

  /** The contents of a blocks directory: file name to file content. */
  type Directory = map<Bytes, Bytes>

  const NAME_PREFIX: Bytes := [98, 108, 111, 99, 107, 95]   // "block_"
  const NAME_SUFFIX: Bytes := [46, 98, 105, 110]             // ".bin"

  /** The file name under which block `i` is stored: "block_<i>.bin", which
      has the form `load_blocks` looks for. */
  function BlockName(i: int): (name: Bytes)
    ensures StartsWith(name, NAME_PREFIX) && EndsWith(name, NAME_SUFFIX)
  {
    var name := NAME_PREFIX + Show(i) + NAME_SUFFIX;
    assert name[..|NAME_PREFIX|] == NAME_PREFIX;
    assert name[|name| - |NAME_SUFFIX|..] == NAME_SUFFIX;
    name
  }

  /** The index `load_blocks` reads from a file name, or `None` for a name it skips:
      one that does not start with "block_" or end with ".bin", or whose text
      after the first '_', up to the next '_' or '.', is not an integer. */
  function NameIndex(name: Bytes): (r: Option<int>)
    ensures r.Some? ==> StartsWith(name, NAME_PREFIX) && EndsWith(name, NAME_SUFFIX)
  {
    if StartsWith(name, NAME_PREFIX) && EndsWith(name, NAME_SUFFIX) then
      var pieces := SplitOn(name, UNDERSCORE);
      if |pieces| < 2 then None
      else ParseInt(SplitOn(pieces[1], DOT)[0])
    else None
  }

  /** The name of block `i` reads back as `i`. */
  lemma NameIndexBlockName(i: int)
    ensures NameIndex(BlockName(i)) == Some(i)
  {
    NamePieces(i);
    ParseShow(i);
  }

  lemma NamePieces(i: int)
    ensures var pieces := SplitOn(BlockName(i), UNDERSCORE);
      |pieces| >= 2 && SplitOn(pieces[1], DOT)[0] == Show(i)
  {
    NotInShow(i, UNDERSCORE);
    NotInShow(i, DOT);
    NameAtUnderscore(Show(i));
    StemAtDot(Show(i));
  }

  /** "block_<s>.bin" cut at '_', for a text `s` without '_': "block" and the rest. */
  lemma NameAtUnderscore(s: Bytes)
    requires UNDERSCORE !in s
    ensures SplitOn(NAME_PREFIX + s + NAME_SUFFIX, UNDERSCORE) == [NAME_PREFIX[..5], s + NAME_SUFFIX]
  {
    var stem := NAME_PREFIX[..5];
    var tail := s + NAME_SUFFIX;
    assert NAME_PREFIX + s + NAME_SUFFIX == stem + [UNDERSCORE] + tail;
    SplitOnFirst(stem, UNDERSCORE, tail);
    assert UNDERSCORE !in tail;
    assert IndexOf(tail, UNDERSCORE) == None;
  }

  /** "<s>.bin" cut at '.', for a text `s` without '.', starts with `s`. */
  lemma StemAtDot(s: Bytes)
    requires DOT !in s
    ensures SplitOn(s + NAME_SUFFIX, DOT)[0] == s
  {
    assert s + NAME_SUFFIX == s + [DOT] + NAME_SUFFIX[1..];
    SplitOnFirst(s, DOT, NAME_SUFFIX[1..]);
  }

  /** `split("_")[1]` also stops at a second '_': "block_<s>_<rest>.bin" is
      read as `int(s)`. */
  lemma NameIndexSecondUnderscore(s: Bytes, rest: Bytes)
    requires UNDERSCORE !in s && DOT !in s
    ensures NameIndex(NAME_PREFIX + s + [UNDERSCORE] + rest + NAME_SUFFIX) == ParseInt(s)
  {
    var name := NAME_PREFIX + s + [UNDERSCORE] + rest + NAME_SUFFIX;
    var stem := NAME_PREFIX[..5];
    var after := rest + NAME_SUFFIX;
    var tail := s + [UNDERSCORE] + after;
    assert name == stem + [UNDERSCORE] + tail;
    assert name[..|NAME_PREFIX|] == NAME_PREFIX;
    assert name[|name| - |NAME_SUFFIX|..] == NAME_SUFFIX;
    SplitOnFirst(stem, UNDERSCORE, tail);
    SplitOnFirst(s, UNDERSCORE, after);
    assert SplitOn(s, DOT) == [s];
  }

  /** A separator 0x1C-0x1F before the index makes `int()` raise, so the name
      is skipped. */
  lemma NameIndexSeparator(s: Bytes)
    requires s != [] && 28 <= s[0] <= 31 && UNDERSCORE !in s && DOT !in s
    ensures NameIndex(NAME_PREFIX + s + NAME_SUFFIX) == None
  {
    NameAtUnderscore(s);
    StemAtDot(s);
    ParseIntSeparator(s);
  }

  /** Different blocks are stored under different names. */
  lemma BlockNameInjective(i: int, j: int)
    requires BlockName(i) == BlockName(j)
    ensures i == j
  {
    NameIndexBlockName(i);
    NameIndexBlockName(j);
  }

  /** The indices read from a set of file names. */
  function IndicesOf(names: set<Bytes>): set<int>
  {
    set name | name in names && NameIndex(name).Some? :: NameIndex(name).value
  }

  lemma IndicesOfAdd(names: set<Bytes>, name: Bytes)
    ensures IndicesOf(names + {name})
      == IndicesOf(names) + (if NameIndex(name).Some? then {NameIndex(name).value} else {})
  {
  }

  /** What `load_blocks` returns for a directory. */
  function BlockIndices(files: Directory): set<int>
  {
    IndicesOf(files.Keys)
  }

  /** A block stored under its own name is listed. */
  lemma StoredIsListed(files: Directory, i: int)
    requires BlockName(i) in files
    ensures i in BlockIndices(files)
  {
    NameIndexBlockName(i);
  }

  /** Every listed index comes from a file whose name has the block form. */
  lemma ListedHasBlockName(files: Directory, i: int)
    requires i in BlockIndices(files)
    ensures exists name :: (name in files && StartsWith(name, NAME_PREFIX)
      && EndsWith(name, NAME_SUFFIX) && NameIndex(name) == Some(i))
  {
    var name :| name in files && NameIndex(name).Some? && NameIndex(name).value == i;
  }

  /** The stored content of block `i`, if its file exists. */
  function Stored(files: Directory, i: int): Option<Bytes>
  {
    if BlockName(i) in files then Some(files[BlockName(i)]) else None
  }

  /** `if data:` in `rebuild_file`: the block exists and is not empty. */
  predicate Present(files: Directory, i: int)
  {
    BlockName(i) in files && files[BlockName(i)] != []
  }

  /** The indices below `total` that `rebuild_file` reports missing, in order. */
  function Missing(files: Directory, total: int): (r: seq<int>)
    ensures forall k :: 0 <= k < |r| ==> 0 <= r[k] < total && !Present(files, r[k])
    decreases total
  {
    if total <= 0 then []
    else Missing(files, total - 1) + (if Present(files, total - 1) then [] else [total - 1])
  }

  /** What `rebuild_file` writes: the present blocks below `total`, in index order. */
  function Assembled(files: Directory, total: int): (r: Bytes)
    ensures Missing(files, total) == [] ==> |r| >= total
    decreases total
  {
    if total <= 0 then []
    else Assembled(files, total - 1) + (if Present(files, total - 1) then files[BlockName(total - 1)] else [])
  }

  /** Exactly the absent or empty blocks below `total` are missing. */
  lemma {:induction false} MissingMembers(files: Directory, total: int, j: int)
    ensures j in Missing(files, total) <==> 0 <= j < total && !Present(files, j)
    decreases total
  {
    if total > 0 {
      MissingMembers(files, total - 1, j);
    }
  }

  /** The missing list is strictly ascending: each index is reported once, in order. */
  lemma {:induction false} MissingAscending(files: Directory, total: int)
    ensures StrictlyIncreasing(Missing(files, total))
    decreases total
  {
    if total > 0 {
      MissingAscending(files, total - 1);
      var prev := Missing(files, total - 1);
      forall k | 0 <= k < |prev| ensures prev[k] < total - 1 {
        MissingMembers(files, total - 1, prev[k]);
      }
    }
  }

  /** Rebuilding succeeds exactly when every block below `total` is present. */
  lemma RebuildComplete(files: Directory, total: int)
    ensures Missing(files, total) == [] <==> forall j :: 0 <= j < total ==> Present(files, j)
  {
    if Missing(files, total) != [] {
      MissingMembers(files, total, Missing(files, total)[0]);
    }
    forall j | 0 <= j < total && !Present(files, j) ensures Missing(files, total) != [] {
      MissingMembers(files, total, j);
    }
  }

  class FileManager {
    /** The files of the peer's blocks directory. */
    var files: Directory
    /** `self.blocks`: the blocks already read or written, by index. */
    var cache: map<int, Bytes>

    /** The cache agrees with the directory. */
    ghost predicate Valid()
      reads this
    {
      forall i :: i in cache ==> Stored(files, i) == Some(cache[i])
    }

    /** A store over an existing directory, with an empty cache. */
    constructor(dir: Directory)
      ensures Valid()
      ensures files == dir && cache == map[]
    {
      files := dir;
      cache := map[];
    }

    /** `load_blocks`: the index of every file whose name has the block form. */
    method LoadBlocks() returns (blocks: set<int>)
      ensures blocks == BlockIndices(files)
    {
      blocks := {};
      var remaining := files.Keys;
      while remaining != {}
        invariant remaining <= files.Keys
        invariant blocks == IndicesOf(files.Keys - remaining)
        decreases |remaining|
      {
        ghost var some := Pick(remaining);
        var name :| name in remaining;
        IndicesOfAdd(files.Keys - remaining, name);
        assert files.Keys - (remaining - {name}) == (files.Keys - remaining) + {name};
        var index := NameIndex(name);
        if index.Some? {
          blocks := blocks + {index.value};
        }
        remaining := remaining - {name};
      }
      assert files.Keys - remaining == files.Keys;
    }

    /** `save_block`: writes the block's file, then caches the block. */
    method SaveBlock(i: int, data: Bytes)
      requires Valid()
      modifies this
      ensures Valid()
      ensures files == old(files)[BlockName(i) := data]
      ensures cache == old(cache)[i := data]
    {
      files := files[BlockName(i) := data];
      cache := cache[i := data];
      forall j | j in cache ensures Stored(files, j) == Some(cache[j]) {
        if j != i && BlockName(j) == BlockName(i) {
          BlockNameInjective(j, i);
        }
      }
    }

    /** `get_block`: the cached block, else the block's file (which is then
        cached), else nothing. */
    method GetBlock(i: int) returns (r: Option<Bytes>)
      requires Valid()
      modifies this
      ensures Valid()
      ensures r == Stored(files, i)
      ensures i in old(cache) ==> r == Some(old(cache)[i])
      ensures files == old(files)
      ensures cache == if r.Some? then old(cache)[i := r.value] else old(cache)
    {
      if i in cache {
        r := Some(cache[i]);
        assert cache == cache[i := cache[i]];
        return;
      }
      var name := BlockName(i);
      if name in files {
        var data := files[name];
        cache := cache[i := data];
        r := Some(data);
        return;
      }
      r := None;
    }

    /** `rebuild_file`: reads blocks 0 .. total-1 in order, writes the non-empty
        ones to the output and lists the rest as missing. The output is written
        whether or not anything is missing. */
    method RebuildFile(total: int) returns (ok: bool, missing: seq<int>, output: Bytes)
      requires Valid()
      modifies this
      ensures Valid()
      ensures files == old(files)
      ensures missing == Missing(files, total)
      ensures output == Assembled(files, total)
      ensures ok <==> missing == []
      ensures forall j :: j in cache <==> j in old(cache) || (0 <= j < total && BlockName(j) in files)
    {
      missing := [];
      output := [];
      var i := 0;
      while i < total
        invariant 0 <= i && (i <= total || i == 0)
        invariant Valid() && files == old(files)
        invariant missing == Missing(files, i)
        invariant output == Assembled(files, i)
        invariant forall j :: j in cache <==> j in old(cache) || (0 <= j < i && BlockName(j) in files)
      {
        var data := GetBlock(i);
        if data.Some? && data.value != [] {
          output := output + data.value;
        } else {
          missing := missing + [i];
        }
        i := i + 1;
      }
      ok := missing == [];
    }
  }

  /** Saving then reading a block gives the saved bytes back, from the cache. */
  method SaveThenGet(store: FileManager, i: int, data: Bytes) returns (r: Option<Bytes>)
    requires store.Valid()
    modifies store
    ensures r == Some(data)
    ensures store.Valid()
  {
    store.SaveBlock(i, data);
    r := store.GetBlock(i);
  }

  /** After a block is saved, listing the directory includes it. */
  lemma SavedIsListed(files: Directory, i: int, data: Bytes)
    ensures i in BlockIndices(files[BlockName(i) := data])
  {
    StoredIsListed(files[BlockName(i) := data], i);
  }

  // ---------------------------------------------------------------------------
  // Cutting a file into blocks (the read loop of split_and_distribute)
  // ---------------------------------------------------------------------------

  /** `f.read(n)` at offset `pos`: at most `n` bytes, or all the rest for a
      negative `n`. */
  function Read(content: Bytes, pos: nat, n: int): (r: Bytes)
    requires pos <= |content|
    ensures pos + |r| <= |content|
    ensures r == content[pos..pos + |r|]
    ensures n >= 0 ==> |r| == if pos + n <= |content| then n else |content| - pos
    ensures n < 0 ==> |r| == |content| - pos
  {
    if n < 0 || pos + n > |content| then content[pos..] else content[pos..pos + n]
  }

  /** The blocks of a file: they concatenate back to it, none is empty, and
      each has the block size except possibly the last, which is shorter. */
  predicate IsChunking(chunks: seq<Bytes>, content: Bytes, blockSize: int)
  {
    && Concat(chunks) == content
    && (forall k :: 0 <= k < |chunks| ==> chunks[k] != [])
    && (blockSize > 0 ==> forall k :: 0 <= k < |chunks| ==>
          |chunks[k]| <= blockSize && (k < |chunks| - 1 ==> |chunks[k]| == blockSize))
    && (blockSize < 0 ==> |chunks| <= 1)
  }

  lemma ConcatAppend(chunks: seq<Bytes>, chunk: Bytes)
    ensures Concat(chunks + [chunk]) == Concat(chunks) + chunk
  {
    assert (chunks + [chunk])[..|chunks|] == chunks;
  }

  /** What the blocks read so far satisfy once `pos` bytes have been consumed. */
  predicate ReadSoFar(chunks: seq<Bytes>, content: Bytes, pos: nat, blockSize: int)
  {
    && pos <= |content|
    && Concat(chunks) == content[..pos]
    && (forall k :: 0 <= k < |chunks| ==> chunks[k] != [])
    && (blockSize > 0 ==> forall k :: 0 <= k < |chunks| ==> |chunks[k]| <= blockSize)
    && (blockSize > 0 ==> forall k :: 0 <= k < |chunks| - 1 ==> |chunks[k]| == blockSize)
    && (blockSize > 0 && chunks != [] && |chunks[|chunks| - 1]| < blockSize ==> pos == |content|)
    && (blockSize < 0 ==> (chunks == [] && pos == 0) || (|chunks| == 1 && pos == |content|))
    && (blockSize == 0 ==> chunks == [])
  }

  /** Appending the next non-empty read keeps the blocks read so far in shape. */
  lemma ReadStep(chunks: seq<Bytes>, content: Bytes, pos: nat, blockSize: int)
    requires ReadSoFar(chunks, content, pos, blockSize)
    requires Read(content, pos, blockSize) != []
    ensures var chunk := Read(content, pos, blockSize);
      ReadSoFar(chunks + [chunk], content, pos + |chunk|, blockSize)
  {
    var chunk := Read(content, pos, blockSize);
    ConcatAppend(chunks, chunk);
    assert content[..pos] + chunk == content[..pos + |chunk|];
  }

  /** When the next read returns nothing, the blocks read are the whole file. */
  lemma ReadDone(chunks: seq<Bytes>, content: Bytes, pos: nat, blockSize: int)
    requires ReadSoFar(chunks, content, pos, blockSize)
    requires Read(content, pos, blockSize) == []
    ensures blockSize == 0 ==> chunks == []
    ensures blockSize != 0 ==> IsChunking(chunks, content, blockSize)
  {
    if blockSize != 0 {
      assert pos == |content|;
      assert content[..pos] == content;
    }
  }

  /** `while chunk := f.read(block_size)`: reads blocks until a read returns
      nothing. A block size of 0 reads nothing at all; a negative one reads the
      whole file as one block. */
  method SplitIntoBlocks(content: Bytes, blockSize: int) returns (chunks: seq<Bytes>)
    ensures blockSize == 0 ==> chunks == []
    ensures blockSize != 0 ==> IsChunking(chunks, content, blockSize)
  {
    chunks := [];
    var pos := 0;
    var chunk := Read(content, pos, blockSize);
    while chunk != []
      invariant ReadSoFar(chunks, content, pos, blockSize)
      invariant chunk == Read(content, pos, blockSize)
      decreases |content| - pos
    {
      ReadStep(chunks, content, pos, blockSize);
      chunks := chunks + [chunk];
      pos := pos + |chunk|;
      chunk := Read(content, pos, blockSize);
    }
    ReadDone(chunks, content, pos, blockSize);
  }

  lemma BlockNamesInjective()
    ensures forall i, j :: BlockName(i) == BlockName(j) ==> i == j
  {
    forall i, j | BlockName(i) == BlockName(j) ensures i == j {
      BlockNameInjective(i, j);
    }
  }

  /** The directory holding the blocks as "block_<i>.bin" files. */
  function ChunkFiles(chunks: seq<Bytes>): (files: Directory)
    ensures forall i :: 0 <= i < |chunks| ==> Stored(files, i) == Some(chunks[i])
  {
    BlockNamesInjective();
    map i | 0 <= i < |chunks| :: BlockName(i) := chunks[i]
  }

  /** Cutting a file into blocks and rebuilding from those blocks gives the file
      back, with nothing missing. */
  lemma {:induction false} SplitThenRebuild(chunks: seq<Bytes>, content: Bytes, blockSize: int)
    requires IsChunking(chunks, content, blockSize)
    ensures Missing(ChunkFiles(chunks), |chunks|) == []
    ensures Assembled(ChunkFiles(chunks), |chunks|) == content
  {
    var files := ChunkFiles(chunks);
    forall j | 0 <= j < |chunks| ensures Present(files, j) {
      assert Stored(files, j) == Some(chunks[j]);
    }
    RebuildComplete(files, |chunks|);
    AssembledChunks(files, chunks, |chunks|);
    assert chunks[..|chunks|] == chunks;
  }

  lemma {:induction false} AssembledChunks(files: Directory, chunks: seq<Bytes>, n: nat)
    requires n <= |chunks|
    requires forall j :: 0 <= j < |chunks| ==> Stored(files, j) == Some(chunks[j]) && chunks[j] != []
    ensures Assembled(files, n) == Concat(chunks[..n])
  {
    if n > 0 {
      AssembledChunks(files, chunks, n - 1);
      assert chunks[..n][..n - 1] == chunks[..n - 1];
    }
  }
}
