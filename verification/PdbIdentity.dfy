/** `ParsePdbId` of src/symbols/SymbolFetch.cpp: the age and GUID of a PDB, read out of its MSF
    container.

    `size_t` offsets cannot overflow (a block number and a block size are below 2^32), so they are
    plain naturals; the 32-bit sums that can wrap are written out. */
module PdbIdentity {
  import opened Arithmetic
  import opened Bytes
  import opened Wrappers

  datatype PdbId = PdbId(age: uint32, guid: seq<byte>)

  /** "Microsoft C/C++ MSF 7.00", CR, LF, 0x1A, "DS". */
  const MAGIC: seq<byte> := [
    0x4D, 0x69, 0x63, 0x72, 0x6F, 0x73, 0x6F, 0x66, 0x74, 0x20, 0x43, 0x2F, 0x43, 0x2B, 0x2B, 0x20,
    0x4D, 0x53, 0x46, 0x20, 0x37, 0x2E, 0x30, 0x30, 0x0D, 0x0A, 0x1A, 0x44, 0x53]

  const MAX_DIR_BYTES := 64 * 1024 * 1024
  const NO_STREAM: uint32 := 0xFFFF_FFFF

  // ----- The container, as a writer lays it out -----

  /** A stream of the directory; a deleted one has no blocks. */
  datatype Stream = Deleted | Stream(size: uint32, blocks: seq<uint32>)

  /** A container: the blocks that hold the directory, in order, and what the directory lists. */
  datatype Msf = Msf(blockSize: uint32, blockMapAddr: uint32, dirBlocks: seq<uint32>, streams: seq<Stream>)

  function SizeField(s: Stream): uint32 { if s.Deleted? then 0xFFFF_FFFF else s.size }

  function BlocksOf(s: Stream): seq<uint32> { if s.Deleted? then [] else s.blocks }

  function AllBlocks(streams: seq<Stream>): seq<uint32> {
    if streams == [] then [] else BlocksOf(streams[0]) + AllBlocks(streams[1..])
  }

  function Sizes(streams: seq<Stream>): (sizes: seq<uint32>)
    ensures |sizes| == |streams|
  {
    seq(|streams|, i requires 0 <= i < |streams| => SizeField(streams[i]))
  }

  /** The directory: the number of streams, their sizes, then their blocks. */
  function DirWords(streams: seq<Stream>): (words: seq<uint32>)
    requires |streams| < TWO_32
  {
    [|streams|] + Sizes(streams) + AllBlocks(streams)
  }

  function Words(words: seq<uint32>): (s: seq<byte>)
    ensures |s| == 4 * |words|
  {
    if words == [] then [] else ToLE32(words[0]) + Words(words[1..])
  }

  /** Where a block starts. */
  function BlockBase(block: uint32, blockSize: nat): (at: nat) { block * blockSize }

  /** The bytes are cut into blocks, which may lie anywhere and in any order. */
  predicate Spread(data: seq<byte>, blockSize: nat, bytes: seq<byte>, blocks: seq<uint32>)
    requires blockSize > 0
    decreases |bytes|
  {
    if bytes == [] then blocks == []
    else
      var n := Min(|bytes|, blockSize);
      && blocks != []
      && BlockBase(blocks[0], blockSize) + blockSize <= |data|
      && Has(data, BlockBase(blocks[0], blockSize), bytes[..n])
      && Spread(data, blockSize, bytes[n..], blocks[1..])
  }

  /** How many blocks hold `size` bytes. */
  function Ceil(size: nat, blockSize: nat): nat
    requires blockSize > 0
  {
    (size + blockSize - 1) / blockSize
  }

  predicate IsStream(s: Stream, blockSize: nat)
    requires blockSize > 0
  {
    s.Stream? ==> s.size != 0xFFFF_FFFF && |s.blocks| == Ceil(s.size, blockSize)
  }

  /** The file is a well-formed container, as `m` describes it. */
  predicate IsMsf(data: seq<byte>, m: Msf) {
    && 64 <= |data| && 64 <= m.blockSize <= |data|
    && 2 <= |m.streams| <= 1000000
    && var dir := Words(DirWords(m.streams));
       && |dir| <= |data| && |dir| <= 0x400_0000
       && Has(data, 0, MAGIC)
       && Has(data, 32, ToLE32(m.blockSize)) && Has(data, 44, ToLE32(|dir|)) && Has(data, 52, ToLE32(m.blockMapAddr))
       && Has(data, BlockBase(m.blockMapAddr, m.blockSize), Words(m.dirBlocks))
       && Spread(data, m.blockSize, dir, m.dirBlocks)
       && IsStream(m.streams[0], m.blockSize) && IsStream(m.streams[1], m.blockSize)
  }

  function TextBytes(s: string): (b: seq<byte>)
    requires forall i :: 0 <= i < |s| ==> s[i] < 128 as char
  {
    seq(|s|, i requires 0 <= i < |s| => s[i] as int)
  }

  lemma MagicText()
    ensures MAGIC == TextBytes("Microsoft C/C++ MSF 7.00\r\n") + [0x1A] + TextBytes("DS")
  {
  }

  /** The header of the PDB information stream: version, signature, age and GUID. */
  function IdHeader(version: uint32, signature: uint32, id: PdbId): (h: seq<byte>)
    requires |id.guid| == 16
    ensures |h| == 28
  {
    ToLE32(version) + ToLE32(signature) + ToLE32(id.age) + id.guid
  }

  // ----- The reader -----

  /** A little-endian word, or `otherwise` past the end. */
  function Word(s: seq<byte>, at: nat, otherwise: uint32): uint32 {
    if at + 4 > |s| then otherwise else FromLE32(s[at..at + 4])
  }

  /** The number of blocks as the 32-bit sum computes it. */
  function BlocksFor(size: uint32, blockSize: uint32): nat
    requires blockSize > 0
  {
    (size + blockSize - 1) % TWO_32 / blockSize
  }

  function Before(got: seq<byte>, rest: Option<seq<byte>>): Option<seq<byte>> {
    if rest.None? then None else Some(got + rest.value)
  }

  /** Collects up to `want` bytes from the blocks that `count` words at `at` name. */
  function Gathered(data: seq<byte>, blockSize: uint32, at: nat, count: nat, want: nat): Option<seq<byte>>
    requires blockSize > 0 && at + 4 * count <= |data|
    decreases count
  {
    if count == 0 || want == 0 then Some([])
    else
      var from := BlockBase(FromLE32(data[at..at + 4]), blockSize);
      if from + blockSize > |data| then None
      else
        var take := Min(want, blockSize);
        Before(data[from..from + take], Gathered(data, blockSize, at + 4, count - 1, want - take))
  }

  /** The walk over the gathered directory. */
  function FirstBlockOfStreamOne(dir: seq<byte>, blockSize: uint32): Option<uint32>
    requires blockSize > 0
  {
    var numStreams := Word(dir, 0, NO_STREAM);
    if |dir| < 8 || numStreams < 2 || numStreams > 1000000 || 4 + numStreams * 4 > |dir| then None
    else
      var size0, size1 := Word(dir, 4, NO_STREAM), Word(dir, 8, NO_STREAM);
      var skip := if size0 == NO_STREAM then 0 else BlocksFor(size0, blockSize);
      if size1 == 0 || size1 == NO_STREAM then None
      else Some(Word(dir, 4 + numStreams * 4 + skip * 4, NO_STREAM))
  }

  function IdAt(data: seq<byte>, blockSize: nat, block: uint32): Option<PdbId> {
    var at := BlockBase(block, blockSize);
    if at + 28 > |data| then None
    else Some(PdbId(FromLE32(data[at + 8..at + 12]), data[at + 12..at + 28]))
  }

  /** What the parser computes. */
  function Parsed(data: seq<byte>): Option<PdbId> {
    if |data| < 64 || data[..29] != MAGIC then None
    else
      var blockSize, numDirBytes, mapAddr := Word(data, 32, 0), Word(data, 44, 0), Word(data, 52, 0);
      if blockSize < 64 || blockSize > |data| || numDirBytes == 0 || numDirBytes > |data| || numDirBytes > MAX_DIR_BYTES
      then None
      else ParsedDir(data, blockSize, numDirBytes, mapAddr)
  }

  function ParsedDir(data: seq<byte>, blockSize: uint32, numDirBytes: uint32, mapAddr: uint32): Option<PdbId>
    requires blockSize > 0
  {
    var count := BlocksFor(numDirBytes, blockSize);
    if BlockBase(mapAddr, blockSize) + 4 * count > |data| then None
    else
      match Gathered(data, blockSize, BlockBase(mapAddr, blockSize), count, numDirBytes)
      case None => None
      case Some(dir) =>
        match FirstBlockOfStreamOne(dir, blockSize)
        case None => None
        case Some(block) => IdAt(data, blockSize, block)
  }

  /** What the loop still has to do after `i` blocks. */
  ghost function Remaining(data: seq<byte>, blockSize: uint32, at: nat, count: nat, want: nat, i: nat, got: seq<byte>)
    : Option<seq<byte>>
    requires blockSize > 0 && at + 4 * count <= |data| && i <= count && |got| <= want
  {
    Before(got, Gathered(data, blockSize, at + 4 * i, count - i, want - |got|))
  }

  method Gather(data: seq<byte>, blockSize: uint32, at: nat, count: nat, want: nat) returns (dir: Option<seq<byte>>)
    requires blockSize > 0 && at + 4 * count <= |data|
    ensures dir == Gathered(data, blockSize, at, count, want)
  {
    var got := [];
    var i := 0;
    BeforeEmpty(got, Gathered(data, blockSize, at, count, want));
    while i < count && |got| < want
      invariant i <= count && |got| <= want
      invariant Gathered(data, blockSize, at, count, want) == Remaining(data, blockSize, at, count, want, i, got)
    {
      var here := at + 4 * i;
      var from := BlockBase(FromLE32(data[here..here + 4]), blockSize);
      if from + blockSize > |data| { return None; }
      var take := want - |got|;
      if take > blockSize { take := blockSize; }
      GatherOne(data, blockSize, at, count, want, i, got);
      got := got + data[from..from + take];
      i := i + 1;
    }
    BeforeEmpty(got, Some([]));
    dir := Some(got);
  }

  lemma BeforeEmpty(got: seq<byte>, rest: Option<seq<byte>>)
    ensures got == [] ==> Before(got, rest) == rest
    ensures rest == Some([]) ==> Before(got, rest) == Some(got)
  {
    if rest.Some? {
      assert got == [] ==> got + rest.value == rest.value;
      assert rest.value == [] ==> got + rest.value == got;
    }
  }

  lemma BeforeBefore(got: seq<byte>, more: seq<byte>, rest: Option<seq<byte>>)
    ensures Before(got, Before(more, rest)) == Before(got + more, rest)
  {
    if rest.Some? { assert got + (more + rest.value) == got + more + rest.value; }
  }

  /** The loop's step, on the function. */
  lemma GatherOne(data: seq<byte>, blockSize: uint32, at: nat, count: nat, want: nat, i: nat, got: seq<byte>)
    requires blockSize > 0 && at + 4 * count <= |data| && i < count && |got| < want
    requires BlockBase(FromLE32(data[at + 4 * i..at + 4 * i + 4]), blockSize) + blockSize <= |data|
    ensures var from, take := BlockBase(FromLE32(data[at + 4 * i..at + 4 * i + 4]), blockSize), Min(want - |got|, blockSize);
      Remaining(data, blockSize, at, count, want, i, got)
      == Remaining(data, blockSize, at, count, want, i + 1, got + data[from..from + take])
  {
    var here := at + 4 * i;
    var from, take := BlockBase(FromLE32(data[here..here + 4]), blockSize), Min(want - |got|, blockSize);
    BeforeBefore(got, data[from..from + take], Gathered(data, blockSize, here + 4, count - i - 1, want - |got| - take));
  }

  method ParsePdbId(data: seq<byte>) returns (id: Option<PdbId>)
    ensures id == Parsed(data)
  {
    if |data| < 64 || data[..29] != MAGIC { return None; }
    var blockSize := Word(data, 32, 0);
    var numDirBytes := Word(data, 44, 0);
    var blockMapAddr := Word(data, 52, 0);
    if blockSize < 64 || blockSize > |data| { return None; }
    if numDirBytes == 0 || numDirBytes > |data| || numDirBytes > MAX_DIR_BYTES { return None; }
    id := ParseDirectory(data, blockSize, numDirBytes, blockMapAddr);
  }

  method ParseDirectory(data: seq<byte>, blockSize: uint32, numDirBytes: uint32, blockMapAddr: uint32)
    returns (id: Option<PdbId>)
    requires blockSize > 0
    ensures id == ParsedDir(data, blockSize, numDirBytes, blockMapAddr)
  {
    var numDirBlocks := BlocksFor(numDirBytes, blockSize);
    var mapBlk := BlockBase(blockMapAddr, blockSize);
    if mapBlk + 4 * numDirBlocks > |data| { return None; }
    var dir := Gather(data, blockSize, mapBlk, numDirBlocks, numDirBytes);
    if dir.None? { return None; }
    var s1first := WalkDirectory(dir.value, blockSize);
    if s1first.None? { return None; }
    var s1 := BlockBase(s1first.value, blockSize);
    if s1 + 28 > |data| { return None; }
    id := Some(PdbId(FromLE32(data[s1 + 8..s1 + 12]), data[s1 + 12..s1 + 28]));
  }

  method WalkDirectory(dir: seq<byte>, blockSize: uint32) returns (s1first: Option<uint32>)
    requires blockSize > 0
    ensures s1first == FirstBlockOfStreamOne(dir, blockSize)
  {
    if |dir| < 8 { return None; }
    var pos := 0;
    var numStreams := Word(dir, pos, NO_STREAM);
    pos := pos + 4;
    if numStreams < 2 || numStreams > 1000000 { return None; }
    if pos + numStreams * 4 > |dir| { return None; }
    var size0 := Word(dir, pos, NO_STREAM);
    var size1 := Word(dir, pos + 4, NO_STREAM);
    pos := pos + numStreams * 4;
    pos := pos + (if size0 == NO_STREAM then 0 else BlocksFor(size0, blockSize)) * 4;
    if size1 == 0 || size1 == NO_STREAM { return None; }
    s1first := Some(Word(dir, pos, NO_STREAM));
  }

  // ----- Arithmetic of blocks -----

  /** The 32-bit count of blocks is right exactly when its sum does not wrap. */
  lemma BlocksForIsCeil(size: uint32, blockSize: uint32)
    requires blockSize > 0
    ensures BlocksFor(size, blockSize) <= Ceil(size, blockSize)
    ensures BlocksFor(size, blockSize) == Ceil(size, blockSize) <==> size + blockSize - 1 < TWO_32
  {
    var x := size + blockSize - 1;
    if x >= TWO_32 {
      assert x % TWO_32 == x - TWO_32;
      DivStep(x - TWO_32, blockSize);
      DivMonotone(x - TWO_32 + blockSize, x, blockSize);
    }
  }

  // ----- Reading what a writer laid out -----

  lemma {:induction false} WordOfWords(words: seq<uint32>, i: nat, otherwise: uint32)
    requires i < |words|
    ensures Word(Words(words), 4 * i, otherwise) == words[i]
  {
    var s := Words(words);
    if i == 0 {
      assert s[0..4] == ToLE32(words[0]);
      LE32RoundTrip(words[0]);
    } else {
      WordOfWords(words[1..], i - 1, otherwise);
    }
  }

  lemma WordHere(data: seq<byte>, at: nat, word: uint32, otherwise: uint32)
    requires Has(data, at, ToLE32(word))
    ensures Word(data, at, otherwise) == word
  {
    LE32RoundTrip(word);
  }

  lemma WordsHave(words: seq<uint32>)
    requires words != []
    ensures Has(Words(words), 0, ToLE32(words[0])) && Has(Words(words), 4, Words(words[1..]))
  {
    TwoParts(ToLE32(words[0]), Words(words[1..]));
  }

  lemma TwoParts(a: seq<byte>, b: seq<byte>)
    ensures Has(a + b, 0, a) && Has(a + b, |a|, b)
  {
    assert (a + b)[..|a|] == a && (a + b)[|a|..] == b;
  }

  lemma WordsSplit(data: seq<byte>, at: nat, words: seq<uint32>)
    requires words != [] && Has(data, at, Words(words))
    ensures Has(data, at, ToLE32(words[0])) && Has(data, at + 4, Words(words[1..]))
  {
    WordsHave(words);
    HasWithin(data, at, Words(words), 0, ToLE32(words[0]));
    HasWithin(data, at, Words(words), 4, Words(words[1..]));
  }

  lemma {:induction false} SpreadCount(data: seq<byte>, blockSize: nat, bytes: seq<byte>, blocks: seq<uint32>)
    requires blockSize > 0 && Spread(data, blockSize, bytes, blocks)
    ensures |blocks| == Ceil(|bytes|, blockSize)
    decreases |bytes|
  {
    if bytes == [] {
      DivUnique(blockSize - 1, blockSize, 0, blockSize - 1);
    } else if |bytes| <= blockSize {
      DivUnique(|bytes| + blockSize - 1, blockSize, 1, |bytes| - 1);
      assert bytes[|bytes|..] == [];
    } else {
      SpreadCount(data, blockSize, bytes[blockSize..], blocks[1..]);
      DivStep(|bytes| - 1, blockSize);
    }
  }

  /** Gathering inverts spreading. */
  lemma {:induction false} GatheredSpread(data: seq<byte>, blockSize: uint32, at: nat, bytes: seq<byte>, blocks: seq<uint32>)
    requires blockSize > 0 && Has(data, at, Words(blocks)) && Spread(data, blockSize, bytes, blocks)
    ensures Gathered(data, blockSize, at, |blocks|, |bytes|) == Some(bytes)
    decreases |bytes|
  {
    if bytes != [] {
      var n := Min(|bytes|, blockSize);
      WordsSplit(data, at, blocks);
      WordHere(data, at, blocks[0], 0);
      GatheredSpread(data, blockSize, at + 4, bytes[n..], blocks[1..]);
      assert bytes == bytes[..n] + bytes[n..];
    }
  }

  /** A stream has no blocks exactly when it is empty. */
  lemma BlocksOfSize(s: Stream, blockSize: nat)
    requires blockSize > 0 && s.Stream? && IsStream(s, blockSize)
    ensures s.blocks == [] <==> s.size == 0
  {
    if s.size == 0 {
      DivUnique(blockSize - 1, blockSize, 0, blockSize - 1);
    } else {
      DivMonotone(blockSize, s.size + blockSize - 1, blockSize);
      DivUnique(blockSize, blockSize, 1, 0);
    }
  }

  /** Where the walk looks for stream 1: the number of entries it skips. */
  function Skipped(m: Msf): nat
    requires m.blockSize > 0 && m.streams != []
  {
    if m.streams[0].Deleted? then 0 else BlocksFor(m.streams[0].size, m.blockSize)
  }

  lemma SkippedInside(m: Msf)
    requires m.blockSize > 0 && |m.streams| >= 2
    requires IsStream(m.streams[0], m.blockSize) && IsStream(m.streams[1], m.blockSize)
    requires m.streams[1].Stream? && m.streams[1].size > 0
    ensures |BlocksOf(m.streams[1])| > 0
    ensures Skipped(m) <= |BlocksOf(m.streams[0])| < |AllBlocks(m.streams)|
    ensures Skipped(m) == |BlocksOf(m.streams[0])| ==> AllBlocks(m.streams)[Skipped(m)] == m.streams[1].blocks[0]
  {
    var b0, b1 := BlocksOf(m.streams[0]), BlocksOf(m.streams[1]);
    assert AllBlocks(m.streams) == b0 + (b1 + AllBlocks(m.streams[1..][1..]));
    BlocksOfSize(m.streams[1], m.blockSize);
    if m.streams[0].Stream? { BlocksForIsCeil(m.streams[0].size, m.blockSize); }
  }

  function BlockEntry(streams: seq<Stream>, k: nat): uint32 {
    if k < |AllBlocks(streams)| then AllBlocks(streams)[k] else NO_STREAM
  }

  lemma WalkOfDirectory(m: Msf)
    requires 64 <= m.blockSize && 2 <= |m.streams| <= 1000000
    requires IsStream(m.streams[0], m.blockSize) && IsStream(m.streams[1], m.blockSize)
    ensures FirstBlockOfStreamOne(Words(DirWords(m.streams)), m.blockSize)
         == if BlocksOf(m.streams[1]) == [] then None else Some(BlockEntry(m.streams, Skipped(m)))
  {
    if m.streams[1].Stream? { BlocksOfSize(m.streams[1], m.blockSize); }
    var words := DirWords(m.streams);
    WordOfWords(words, 0, NO_STREAM);
    WordOfWords(words, 1, NO_STREAM);
    WordOfWords(words, 2, NO_STREAM);
    if m.streams[1].Stream? && m.streams[1].size > 0 {
      SkippedInside(m);
      WordOfWords(words, 1 + |m.streams| + Skipped(m), NO_STREAM);
    }
  }

  /** The directory of a well-formed container is gathered exactly, wherever its blocks lie, unless
      the 32-bit count of its blocks wraps; then nothing is found. */
  lemma ParsedContainer(data: seq<byte>, m: Msf)
    requires IsMsf(data, m)
    ensures var dir := Words(DirWords(m.streams));
      Parsed(data) == if |dir| + m.blockSize - 1 >= TWO_32 then None
                      else match FirstBlockOfStreamOne(dir, m.blockSize)
                           case None => None
                           case Some(block) => IdAt(data, m.blockSize, block)
  {
    var dir := Words(DirWords(m.streams));
    HeaderOf(data, m, |dir|);
    DirectoryOf(data, m, dir);
  }

  lemma HeaderOf(data: seq<byte>, m: Msf, dirBytes: uint32)
    requires 64 <= m.blockSize <= |data| && 0 < dirBytes <= |data| && dirBytes <= MAX_DIR_BYTES
    requires Has(data, 0, MAGIC) && 64 <= |data|
    requires Has(data, 32, ToLE32(m.blockSize)) && Has(data, 44, ToLE32(dirBytes)) && Has(data, 52, ToLE32(m.blockMapAddr))
    ensures Parsed(data) == ParsedDir(data, m.blockSize, dirBytes, m.blockMapAddr)
  {
    WordHere(data, 32, m.blockSize, 0);
    WordHere(data, 44, dirBytes, 0);
    WordHere(data, 52, m.blockMapAddr, 0);
    assert data[..29] == data[0..29];
  }

  lemma DirectoryOf(data: seq<byte>, m: Msf, dir: seq<byte>)
    requires 0 < m.blockSize && 0 < |dir| <= MAX_DIR_BYTES
    requires Has(data, BlockBase(m.blockMapAddr, m.blockSize), Words(m.dirBlocks))
    requires Spread(data, m.blockSize, dir, m.dirBlocks)
    ensures ParsedDir(data, m.blockSize, |dir|, m.blockMapAddr)
         == if |dir| + m.blockSize - 1 >= TWO_32 then None
            else match FirstBlockOfStreamOne(dir, m.blockSize)
                 case None => None
                 case Some(block) => IdAt(data, m.blockSize, block)
  {
    if |dir| + m.blockSize - 1 < TWO_32 {
      DirectoryGathered(data, m, dir);
    } else {
      WrappedCount(|dir|, m.blockSize);
    }
  }

  lemma DirectoryGathered(data: seq<byte>, m: Msf, dir: seq<byte>)
    requires 0 < m.blockSize && 0 < |dir| && |dir| + m.blockSize - 1 < TWO_32
    requires Has(data, BlockBase(m.blockMapAddr, m.blockSize), Words(m.dirBlocks))
    requires Spread(data, m.blockSize, dir, m.dirBlocks)
    ensures var count, at := BlocksFor(|dir|, m.blockSize), BlockBase(m.blockMapAddr, m.blockSize);
      at + 4 * count <= |data| && Gathered(data, m.blockSize, at, count, |dir|) == Some(dir)
  {
    SpreadCount(data, m.blockSize, dir, m.dirBlocks);
    GatheredSpread(data, m.blockSize, BlockBase(m.blockMapAddr, m.blockSize), dir, m.dirBlocks);
    BlocksForIsCeil(|dir|, m.blockSize);
  }

  lemma WrappedCount(dirBytes: uint32, blockSize: uint32)
    requires 0 < dirBytes && 0 < blockSize && dirBytes + blockSize - 1 >= TWO_32
    ensures BlocksFor(dirBytes, blockSize) < Ceil(dirBytes, blockSize)
    ensures dirBytes <= blockSize ==> BlocksFor(dirBytes, blockSize) == 0
  {
    BlocksForIsCeil(dirBytes, blockSize);
    if dirBytes <= blockSize {
      var x := (dirBytes + blockSize - 1) % TWO_32;
      DivUnique(x, blockSize, 0, x);
    }
  }

  /** For every well-formed container the answer is the age and GUID at the start of stream 1's
      first block, provided that neither 32-bit block count wraps. */
  lemma ParsesWellFormed(data: seq<byte>, m: Msf)
    requires IsMsf(data, m) && |Words(DirWords(m.streams))| + m.blockSize - 1 < TWO_32
    requires m.streams[0].Stream? ==> m.streams[0].size + m.blockSize - 1 < TWO_32
    ensures Parsed(data) == if BlocksOf(m.streams[1]) == [] then None
                            else IdAt(data, m.blockSize, BlocksOf(m.streams[1])[0])
  {
    if m.streams[1].Stream? { BlocksOfSize(m.streams[1], m.blockSize); }
    ParsedContainer(data, m);
    WalkOfDirectory(m);
    if m.streams[0].Stream? { BlocksForIsCeil(m.streams[0].size, m.blockSize); }
    if m.streams[1].Stream? && m.streams[1].size > 0 { SkippedInside(m); }
  }

  lemma HeaderFields(version: uint32, signature: uint32, id: PdbId)
    requires |id.guid| == 16
    ensures var h := IdHeader(version, signature, id); FromLE32(h[8..12]) == id.age && h[12..28] == id.guid
  {
    var h := IdHeader(version, signature, id);
    assert h[8..12] == ToLE32(id.age) && h[12..28] == id.guid;
    LE32RoundTrip(id.age);
  }

  /** The header that stands in a block is read back as its age and GUID. */
  lemma IdReadsBack(data: seq<byte>, blockSize: nat, block: uint32, version: uint32, signature: uint32, id: PdbId)
    requires |id.guid| == 16 && Has(data, block * blockSize, IdHeader(version, signature, id))
    ensures IdAt(data, blockSize, block) == Some(id)
  {
    var at, h := block * blockSize, IdHeader(version, signature, id);
    HeaderFields(version, signature, id);
    assert data[at..at + 28] == h;
    assert data[at + 8..at + 12] == h[8..12] && data[at + 12..at + 28] == h[12..28];
  }

  /** So the identity a linker writes into stream 1 is the one that is found, wherever the blocks
      lie. */
  lemma WrittenIdIsFound(data: seq<byte>, m: Msf, version: uint32, signature: uint32, id: PdbId)
    requires IsMsf(data, m) && |Words(DirWords(m.streams))| + m.blockSize - 1 < TWO_32
    requires m.streams[0].Stream? ==> m.streams[0].size + m.blockSize - 1 < TWO_32
    requires BlocksOf(m.streams[1]) != [] && |id.guid| == 16
    requires Has(data, BlocksOf(m.streams[1])[0] * m.blockSize, IdHeader(version, signature, id))
    ensures Parsed(data) == Some(id)
  {
    ParsesWellFormed(data, m);
    IdReadsBack(data, m.blockSize, BlocksOf(m.streams[1])[0], version, signature, id);
  }

  /** When the count of stream 0's blocks wraps, the answer is read from one of stream 0's own
      blocks.  Together with `ParsesWellFormed`: stream 1's entry is consulted exactly when that
      count does not wrap. */
  lemma WrappedCountMisreads(data: seq<byte>, m: Msf)
    requires IsMsf(data, m) && |Words(DirWords(m.streams))| + m.blockSize - 1 < TWO_32
    requires BlocksOf(m.streams[1]) != []
    requires m.streams[0].Stream? && m.streams[0].size + m.blockSize - 1 >= TWO_32
    ensures Skipped(m) < |m.streams[0].blocks|
    ensures Parsed(data) == IdAt(data, m.blockSize, m.streams[0].blocks[Skipped(m)])
  {
    BlocksOfSize(m.streams[1], m.blockSize);
    ParsedContainer(data, m);
    WalkOfDirectory(m);
    BlocksForIsCeil(m.streams[0].size, m.blockSize);
    SkippedInside(m);
    AllBlocksStart(m.streams, Skipped(m));
  }

  lemma AllBlocksStart(streams: seq<Stream>, k: nat)
    requires streams != [] && k < |BlocksOf(streams[0])|
    ensures k < |AllBlocks(streams)| && AllBlocks(streams)[k] == BlocksOf(streams[0])[k]
  {
  }

  // ----- A container that is misread -----

  const HALF: nat := 0x8000_0000

  function Zeros(n: nat): (s: seq<byte>)
    ensures |s| == n
  {
    seq(n, i => 0)
  }

  /** A block that begins with these bytes. */
  function Block(head: seq<byte>): (s: seq<byte>)
    requires |head| <= HALF
    ensures |s| == HALF && Has(s, 0, head)
  {
    head + Zeros(HALF - |head|)
  }

  /** Two streams in blocks of 2 GiB: stream 0 of 4 GiB less two bytes, stream 1 of 28 bytes. */
  const WIDE := Msf(HALF, 1, [2], [Stream(0xFFFF_FFFE, [3, 4]), Stream(28, [5])])

  const WIDE_DIR: seq<byte> := Words([2, 0xFFFF_FFFE, 28, 3, 4, 5])

  const WIDE_HEAD: seq<byte> :=
    MAGIC + Zeros(3) + ToLE32(HALF) + Zeros(8) + ToLE32(24) + Zeros(4) + ToLE32(1) + Zeros(8)

  /** Content of stream 0 that reads as age 1, if taken for stream 1. */
  const WIDE_ZERO: seq<byte> := Zeros(8) + [1, 0, 0, 0]

  /** Header, block map, directory, the two blocks of stream 0 and the one of stream 1. */
  function WideFront(): (s: seq<byte>)
    ensures |s| == 3 * HALF
  {
    Block(WIDE_HEAD) + Block(ToLE32(2)) + Block(WIDE_DIR)
  }

  function WideFile(): (s: seq<byte>)
    ensures |s| == 6 * HALF
  {
    WideFront() + (Block(WIDE_ZERO) + Block([]) + Block([]))
  }

  lemma WideHeadHas()
    ensures |WIDE_HEAD| == 64 && Has(WIDE_HEAD, 0, MAGIC) && Has(WIDE_HEAD, 32, ToLE32(HALF))
    ensures Has(WIDE_HEAD, 44, ToLE32(24)) && Has(WIDE_HEAD, 52, ToLE32(1))
  {
  }

  /** Where the blocks of three stand. */
  lemma ThreeBlocks(a: seq<byte>, b: seq<byte>, c: seq<byte>)
    requires |a| == |b| == |c| == HALF
    ensures Has(a + b + c, 0, a) && Has(a + b + c, HALF, b) && Has(a + b + c, 2 * HALF, c)
  {
  }

  lemma WideFrontHas()
    ensures Has(WideFront(), 0, MAGIC) && Has(WideFront(), 32, ToLE32(HALF))
    ensures Has(WideFront(), 44, ToLE32(24)) && Has(WideFront(), 52, ToLE32(1))
    ensures Has(WideFront(), HALF, ToLE32(2)) && Has(WideFront(), 2 * HALF, WIDE_DIR)
  {
    WideHeadHas();
    var a, b, c := Block(WIDE_HEAD), Block(ToLE32(2)), Block(WIDE_DIR);
    ThreeBlocks(a, b, c);
    HasWithin(a + b + c, 0, a, 0, WIDE_HEAD);
    HasWithin(a + b + c, 0, WIDE_HEAD, 0, MAGIC);
    HasWithin(a + b + c, 0, WIDE_HEAD, 32, ToLE32(HALF));
    HasWithin(a + b + c, 0, WIDE_HEAD, 44, ToLE32(24));
    HasWithin(a + b + c, 0, WIDE_HEAD, 52, ToLE32(1));
    HasWithin(a + b + c, HALF, b, 0, ToLE32(2));
    HasWithin(a + b + c, 2 * HALF, c, 0, WIDE_DIR);
  }

  lemma WideFileHas(at: nat, part: seq<byte>)
    requires Has(WideFront(), at, part)
    ensures Has(WideFile(), at, part)
  {
    var back := Block(WIDE_ZERO) + Block([]) + Block([]);
    assert Has(WideFront() + back, 0, WideFront());
    HasWithin(WideFront() + back, 0, WideFront(), at, part);
  }

  lemma WideIsMsf()
    ensures IsMsf(WideFile(), WIDE) && Words(DirWords(WIDE.streams)) == WIDE_DIR
    ensures BlocksUsed(WIDE) == [0, 1, 2, 3, 4, 5]
  {
    WideFrontHas();
    WideFileHas(0, MAGIC);
    WideFileHas(32, ToLE32(HALF));
    WideFileHas(44, ToLE32(24));
    WideFileHas(52, ToLE32(1));
    WideFileHas(HALF, ToLE32(2));
    WideFileHas(2 * HALF, WIDE_DIR);
    WideStreams();
    assert |WIDE_DIR| == 24;
    assert WIDE_DIR[..24] == WIDE_DIR && WIDE_DIR[24..] == [] && [2][1..] == [];
    assert Spread(WideFile(), HALF, WIDE_DIR, [2]);
    assert Words([2]) == ToLE32(2) by { assert [2][1..] == []; }
  }

  /** The blocks of a container with a one-block map: header, map, directory, streams. */
  function BlocksUsed(m: Msf): seq<uint32> { [0, m.blockMapAddr] + m.dirBlocks + AllBlocks(m.streams) }

  lemma WideStreams()
    ensures AllBlocks(WIDE.streams) == [3, 4, 5] && DirWords(WIDE.streams) == [2, 0xFFFF_FFFE, 28, 3, 4, 5]
    ensures BlocksUsed(WIDE) == [0, 1, 2, 3, 4, 5]
  {
    assert WIDE.streams[1..] == [Stream(28, [5])] && WIDE.streams[1..][1..] == [];
    assert AllBlocks(WIDE.streams) == [3, 4, 5];
  }

  /** Bytes 8 to 11 of stream 0's first block and of stream 1's. */
  lemma WideAges()
    ensures Has(WideFile(), 3 * HALF + 8, [1, 0, 0, 0]) && Has(WideFile(), 5 * HALF + 8, [0, 0, 0, 0])
  {
    var d, e, f := Block(WIDE_ZERO), Block([]), Block([]);
    ThreeBlocks(d, e, f);
    assert Has(WIDE_ZERO, 8, [1, 0, 0, 0]) && Has(f, 8, [0, 0, 0, 0]);
    HasWithin(d + e + f, 0, d, 0, WIDE_ZERO);
    HasWithin(d + e + f, 0, WIDE_ZERO, 8, [1, 0, 0, 0]);
    HasWithin(d + e + f, 2 * HALF, f, 8, [0, 0, 0, 0]);
    WideBackHas(8, [1, 0, 0, 0]);
    WideBackHas(2 * HALF + 8, [0, 0, 0, 0]);
  }

  lemma WideBackHas(at: nat, part: seq<byte>)
    requires Has(Block(WIDE_ZERO) + Block([]) + Block([]), at, part)
    ensures Has(WideFile(), 3 * HALF + at, part)
  {
    var back := Block(WIDE_ZERO) + Block([]) + Block([]);
    assert Has(WideFront() + back, 3 * HALF, back);
    HasWithin(WideFront() + back, 3 * HALF, back, at, part);
  }

  lemma AgeAt(data: seq<byte>, blockSize: nat, block: uint32, word: seq<byte>)
    requires |word| == 4 && BlockBase(block, blockSize) + 28 <= |data|
    requires Has(data, BlockBase(block, blockSize) + 8, word)
    ensures IdAt(data, blockSize, block).Some? && IdAt(data, blockSize, block).value.age == FromLE32(word)
  {
  }

  lemma WideIdsDiffer()
    ensures IdAt(WideFile(), HALF, 3).Some? && IdAt(WideFile(), HALF, 5).Some?
    ensures IdAt(WideFile(), HALF, 3) != IdAt(WideFile(), HALF, 5)
  {
    WideAges();
    AgeAt(WideFile(), HALF, 3, [1, 0, 0, 0]);
    AgeAt(WideFile(), HALF, 5, [0, 0, 0, 0]);
  }

  lemma WideIsMisread()
    ensures Parsed(WideFile()) == IdAt(WideFile(), HALF, 3)
  {
    WideIsMsf();
    WideDirectoryFits();
    WrappedCountMisreads(WideFile(), WIDE);
    WideSkips();
  }

  lemma WideDirectoryFits()
    ensures |Words(DirWords(WIDE.streams))| == 24
  {
    WideStreams();
  }

  lemma WideSkips()
    ensures Skipped(WIDE) == 0
  {
  }

  /** The six blocks of this file are used once each, as header, block map, directory and streams, and
      the parser takes the age and GUID from stream 0's first block, not from stream 1's. */
  lemma MisreadContainer()
    ensures IsMsf(WideFile(), WIDE) && |WideFile()| == 6 * WIDE.blockSize
    ensures BlocksUsed(WIDE) == [0, 1, 2, 3, 4, 5]
    ensures Parsed(WideFile()) == IdAt(WideFile(), HALF, 3) != IdAt(WideFile(), HALF, 5)
    ensures WIDE.streams[1].blocks == [5] && IdAt(WideFile(), HALF, 3).Some? && IdAt(WideFile(), HALF, 5).Some?
  {
    WideIsMsf();
    WideIsMisread();
    WideIdsDiffer();
  }
}
