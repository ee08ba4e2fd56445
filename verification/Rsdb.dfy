/** The `.rsdb` path dictionary: the builder of analyzer/dictionary/build-dictionary.mjs and the
    binary-search reader of analyzer/dictionary/rsdb-reader.mjs.

    Which paths to keep, the hash, and the runtime's UTF-8 codec are parameters: every result
    holds for all of them. */
module Rsdb {
  import opened Bytes
  import opened PathHash
  import opened Wrappers

  // ----- Big-endian numbers -----

  function Pow256(k: nat): (p: nat)
    ensures p > 0
  {
    if k == 0 then 1 else 256 * Pow256(k - 1)
  }

  /** The number that bytes denote, most significant first. */
  function FromBE(s: seq<byte>): (n: nat) {
    if s == [] then 0 else 256 * FromBE(s[..|s| - 1]) + s[|s| - 1]
  }

  function ToBE(n: nat, k: nat): (s: seq<byte>)
    requires n < Pow256(k)
    ensures |s| == k
    decreases k
  {
    if k == 0 then [] else ToBE(n / 256, k - 1) + [n % 256]
  }

  lemma {:induction false} BERoundTrip(n: nat, k: nat)
    requires n < Pow256(k)
    ensures FromBE(ToBE(n, k)) == n
    decreases k
  {
    if k > 0 {
      BERoundTrip(n / 256, k - 1);
      var s := ToBE(n, k);
      assert s[..|s| - 1] == ToBE(n / 256, k - 1);
    }
  }

  lemma BEMeans(s: seq<byte>, b: byte)
    ensures FromBE([]) == 0 && FromBE(s + [b]) == 256 * FromBE(s) + b
  {
    assert (s + [b])[..|s|] == s;
  }

  /** Bytewise comparison, as `Buffer.compare` makes it. */
  function Compare(a: seq<byte>, b: seq<byte>): int {
    if a == [] && b == [] then 0
    else if a == [] then -1
    else if b == [] then 1
    else if a[0] < b[0] then -1
    else if a[0] > b[0] then 1
    else Compare(a[1..], b[1..])
  }

  lemma {:induction false} CompareSnoc(a: seq<byte>, b: seq<byte>, x: byte, y: byte)
    requires |a| == |b|
    ensures Compare(a + [x], b + [y]) == if Compare(a, b) != 0 then Compare(a, b) else Compare([x], [y])
  {
    if a == [] {
      assert a + [x] == [x] && b + [y] == [y];
    } else {
      assert (a + [x])[1..] == a[1..] + [x] && (b + [y])[1..] == b[1..] + [y];
      CompareSnoc(a[1..], b[1..], x, y);
    }
  }

  /** Byte order is numeric order: what lets the reader search without 64-bit arithmetic. */
  lemma {:induction false} ByteOrderIsNumericOrder(a: seq<byte>, b: seq<byte>)
    requires |a| == |b|
    ensures Compare(a, b) < 0 <==> FromBE(a) < FromBE(b)
    ensures Compare(a, b) == 0 <==> FromBE(a) == FromBE(b)
    ensures Compare(a, b) == 0 <==> a == b
  {
    if a != [] {
      var n := |a| - 1;
      ByteOrderIsNumericOrder(a[..n], b[..n]);
      CompareSnoc(a[..n], b[..n], a[n], b[n]);
      assert a == a[..n] + [a[n]] && b == b[..n] + [b[n]];
    }
  }

  const HASH_BYTES: nat := 8

  lemma EightBytes()
    ensures Pow256(HASH_BYTES) == TWO_64
  {
    assert Pow256(4) == TWO_32;
    assert Pow256(8) == TWO_64;
  }

  function HashBytes(h: uint64): (s: seq<byte>)
    ensures |s| == 8
  {
    EightBytes();
    ToBE(h, HASH_BYTES)
  }

  lemma HashBytesOrder(a: uint64, b: uint64)
    ensures Compare(HashBytes(a), HashBytes(b)) < 0 <==> a < b
    ensures Compare(HashBytes(a), HashBytes(b)) == 0 <==> a == b
  {
    EightBytes();
    BERoundTrip(a, HASH_BYTES);
    BERoundTrip(b, HASH_BYTES);
    ByteOrderIsNumericOrder(HashBytes(a), HashBytes(b));
  }

  // ----- Which paths end up in the dictionary -----

  /** White space as `String.prototype.trim` knows it. */
  predicate IsJsSpace(c: CodeUnit) {
    c == 0x09 || c == 0x0A || c == 0x0B || c == 0x0C || c == 0x0D || c == 0x20 || c == 0xA0 || c == 0x1680 ||
    0x2000 <= c <= 0x200A || c == 0x2028 || c == 0x2029 || c == 0x202F || c == 0x205F || c == 0x3000 || c == 0xFEFF
  }

  function TrimStart(s: JsString): JsString {
    if s != [] && IsJsSpace(s[0]) then TrimStart(s[1..]) else s
  }

  function TrimEnd(s: JsString): JsString {
    if s != [] && IsJsSpace(s[|s| - 1]) then TrimEnd(s[..|s| - 1]) else s
  }

  function Trim(s: JsString): JsString { TrimEnd(TrimStart(s)) }

  /** Trimming takes the white space off both ends, and nothing else. */
  lemma {:induction false} TrimMeans(s: JsString) returns (i: nat, j: nat)
    ensures i <= j <= |s| && Trim(s) == s[i..j]
    ensures forall k :: 0 <= k < i || j <= k < |s| ==> IsJsSpace(s[k])
    ensures i < j ==> !IsJsSpace(s[i]) && !IsJsSpace(s[j - 1])
  {
    i := TrimStartMeans(s);
    var t := s[i..];
    var n := TrimEndMeans(t);
    j := i + n;
    assert t[..n] == s[i..j];
    forall k | j <= k < |s| ensures IsJsSpace(s[k]) {
      assert s[k] == t[k - i];
    }
    if i < j { assert s[i] == t[0] && s[j - 1] == t[n - 1]; }
  }

  lemma {:induction false} TrimStartMeans(s: JsString) returns (i: nat)
    ensures i <= |s| && TrimStart(s) == s[i..] && (i < |s| ==> !IsJsSpace(s[i]))
    ensures forall k :: 0 <= k < i ==> IsJsSpace(s[k])
  {
    i := 0;
    if s != [] && IsJsSpace(s[0]) {
      var rest := TrimStartMeans(s[1..]);
      i := rest + 1;
      forall k | 0 <= k < i ensures IsJsSpace(s[k]) {
        if k > 0 { assert s[k] == s[1..][k - 1]; }
      }
    }
  }

  lemma {:induction false} TrimEndMeans(s: JsString) returns (n: nat)
    ensures n <= |s| && TrimEnd(s) == s[..n] && (n > 0 ==> !IsJsSpace(s[n - 1]))
    ensures forall k :: n <= k < |s| ==> IsJsSpace(s[k])
    decreases |s|
  {
    n := |s|;
    if s != [] && IsJsSpace(s[|s| - 1]) {
      n := TrimEndMeans(s[..|s| - 1]);
      assert s[..|s| - 1][..n] == s[..n];
      forall k | n <= k < |s| ensures IsJsSpace(s[k]) {
        if k < |s| - 1 { assert s[k] == s[..|s| - 1][k]; }
      }
    }
  }

  /** A line that is kept under hash `h`. */
  predicate Kept(line: JsString, keep: JsString -> bool, hash: JsString -> uint64, h: uint64) {
    Trim(line) != [] && keep(Trim(line)) && hash(Trim(line)) == h
  }

  /** The first kept path with a hash. */
  function FirstKept(lines: seq<JsString>, keep: JsString -> bool, hash: JsString -> uint64, h: uint64): Option<JsString> {
    if lines == [] then None
    else if Kept(lines[0], keep, hash, h) then Some(Trim(lines[0]))
    else FirstKept(lines[1..], keep, hash, h)
  }

  lemma {:induction false} FirstKeptSnoc(lines: seq<JsString>, line: JsString, keep: JsString -> bool,
                                         hash: JsString -> uint64, h: uint64)
    ensures FirstKept(lines + [line], keep, hash, h)
         == if FirstKept(lines, keep, hash, h).Some? then FirstKept(lines, keep, hash, h)
            else if Kept(line, keep, hash, h) then Some(Trim(line)) else None
  {
    if lines == [] {
      assert lines + [line] == [line] && [line][1..] == [];
    } else {
      assert (lines + [line])[1..] == lines[1..] + [line];
      FirstKeptSnoc(lines[1..], line, keep, hash, h);
    }
  }

  /** `None` means that no line is kept under the hash; otherwise some line is, it gives the
      path, and no earlier line is. */
  lemma {:induction false} FirstKeptIsFirst(lines: seq<JsString>, keep: JsString -> bool, hash: JsString -> uint64,
                                            h: uint64)
    returns (at: nat)
    ensures var r := FirstKept(lines, keep, hash, h);
      && (r.None? ==> at == |lines|)
      && (r.Some? ==> at < |lines| && Kept(lines[at], keep, hash, h) && r.value == Trim(lines[at]))
      && at <= |lines| && forall j :: 0 <= j < at ==> !Kept(lines[j], keep, hash, h)
  {
    if lines == [] || Kept(lines[0], keep, hash, h) {
      at := 0;
    } else {
      var rest := FirstKeptIsFirst(lines[1..], keep, hash, h);
      at := rest + 1;
      forall j | 0 <= j < at ensures !Kept(lines[j], keep, hash, h) {
        if j > 0 { assert lines[j] == lines[1..][j - 1]; }
      }
    }
  }

  // ----- The file format -----

  datatype Entry = Entry(hash: uint64, path: JsString)

  type Codec = JsString -> seq<byte>

  /** An entry with its path encoded. */
  datatype Row = Row(hash: uint64, bytes: seq<byte>)

  function Encoded(entries: seq<Entry>, utf8: Codec): (rows: seq<Row>)
    ensures |rows| == |entries|
  {
    seq(|entries|, i requires 0 <= i < |entries| => Row(entries[i].hash, utf8(entries[i].path)))
  }

  /** The first `n` parts, one after the other. */
  function Join(parts: seq<seq<byte>>, n: nat): (s: seq<byte>)
    requires n <= |parts|
  {
    if n == 0 then [] else Join(parts, n - 1) + parts[n - 1]
  }

  function Paths(rows: seq<Row>): (parts: seq<seq<byte>>)
    ensures |parts| == |rows|
  {
    seq(|rows|, i requires 0 <= i < |rows| => rows[i].bytes)
  }

  /** One index record: big-endian hash, little-endian offset and length. */
  function Record(hash: uint64, offset: uint32, len: uint32): (r: seq<byte>)
    ensures |r| == 16
  {
    HashBytes(hash) + ToLE32(offset) + ToLE32(len)
  }

  /** The offset of a path: the length of the paths before it. */
  function Offset(rows: seq<Row>, i: nat): nat
    requires i <= |rows|
  {
    |Join(Paths(rows), i)|
  }

  /** Every number fits its 32-bit field. */
  predicate RecordFits(rows: seq<Row>, i: nat)
    requires i < |rows|
  {
    Offset(rows, i) < TWO_32 && |rows[i].bytes| < TWO_32
  }

  predicate AllFit(rows: seq<Row>) {
    forall i {:trigger RecordFits(rows, i)} :: 0 <= i < |rows| ==> RecordFits(rows, i)
  }

  predicate Fits(rows: seq<Row>) {
    && 16 + 16 * |rows| < TWO_32
    && AllFit(rows)
  }

  function Records(rows: seq<Row>): (parts: seq<seq<byte>>)
    requires AllFit(rows)
    ensures |parts| == |rows|
  {
    seq(|rows|, i requires 0 <= i < |rows| && RecordFits(rows, i) => Record(rows[i].hash, Offset(rows, i), |rows[i].bytes|))
  }

  const MAGIC: seq<byte> := [0x52, 0x53, 0x44, 0x31]

  function Header(count: uint32, pathsOffset: uint32): (h: seq<byte>)
    ensures |h| == 16
  {
    MAGIC + ToLE32(count) + ToLE32(16) + ToLE32(pathsOffset)
  }

  /** Index and blob hold these rows. */
  predicate Laid(rows: seq<Row>, index: seq<byte>, blob: seq<byte>) {
    AllFit(rows) && index == Join(Records(rows), |rows|) && blob == Join(Paths(rows), |rows|)
  }

  /** The file holds these rows. */
  predicate IsDictionary(file: seq<byte>, rows: seq<Row>) {
    Fits(rows) && file == Header(|rows|, 16 + 16 * |rows|) + Join(Records(rows), |rows|) + Join(Paths(rows), |rows|)
  }

  lemma Joined(a: seq<byte>, b: seq<byte>, c: seq<byte>)
    ensures Has(a + b + c, 0, a) && Has(a + b + c, |a|, b) && Has(a + b + c, |a| + |b|, c)
  {
    var s := a + b + c;
    assert s[..|a|] == a && s[|a|..|a| + |b|] == b && s[|a| + |b|..] == c;
  }

  /** A part stands where the parts before it end. */
  lemma {:induction false} PartOfJoin(parts: seq<seq<byte>>, n: nat, i: nat)
    requires i < n <= |parts|
    ensures Has(Join(parts, n), |Join(parts, i)|, parts[i])
  {
    Joined(Join(parts, n - 1), parts[n - 1], []);
    assert Join(parts, n) == Join(parts, n - 1) + parts[n - 1] + [];
    if i < n - 1 {
      PartOfJoin(parts, n - 1, i);
      HasWithin(Join(parts, n), 0, Join(parts, n - 1), |Join(parts, i)|, parts[i]);
    }
  }

  lemma {:induction false} JoinLength(parts: seq<seq<byte>>, n: nat, size: nat)
    requires n <= |parts| && forall i :: 0 <= i < n ==> |parts[i]| == size
    ensures |Join(parts, n)| == size * n
  {
    if n > 0 {
      JoinLength(parts, n - 1, size);
      assert size * n == size * (n - 1) + size;
    }
  }

  /** Where a record stands in a file with a 16-byte header and 16-byte records. */
  lemma RecordInFile(header: seq<byte>, records: seq<seq<byte>>, blob: seq<byte>, i: nat)
    requires |header| == 16 && i < |records| && forall j :: 0 <= j < |records| ==> |records[j]| == 16
    ensures Has(header + Join(records, |records|) + blob, 16 + 16 * i, records[i])
  {
    var index := Join(records, |records|);
    Joined(header, index, blob);
    JoinLength(records, i, 16);
    PartOfJoin(records, |records|, i);
    HasWithin(header + index + blob, 16, index, 16 * i, records[i]);
  }

  /** And where a path does. */
  lemma PathInFile(front: seq<byte>, paths: seq<seq<byte>>, i: nat)
    requires i < |paths|
    ensures Has(front + Join(paths, |paths|), |front| + |Join(paths, i)|, paths[i])
  {
    var blob := Join(paths, |paths|);
    Joined(front, blob, []);
    assert front + blob + [] == front + blob;
    PartOfJoin(paths, |paths|, i);
    HasWithin(front + blob, |front|, blob, |Join(paths, i)|, paths[i]);
  }

  ghost predicate Ascending(entries: seq<Entry>) {
    forall i, j :: 0 <= i < j < |entries| ==> entries[i].hash < entries[j].hash
  }

  /** The entries are exactly the first kept paths. */
  ghost predicate Selects(entries: seq<Entry>, lines: seq<JsString>, keep: JsString -> bool, hash: JsString -> uint64) {
    && (forall e :: e in entries ==> FirstKept(lines, keep, hash, e.hash) == Some(e.path))
    && (forall h: uint64 :: FirstKept(lines, keep, hash, h).Some? ==>
          Entry(h, FirstKept(lines, keep, hash, h).value) in entries)
  }

  // ----- The builder -----

  /** De-duplicates by hash: the first path of each hash, in the order met. */
  method Collect(lines: seq<JsString>, keep: JsString -> bool, hash: JsString -> uint64) returns (entries: seq<Entry>)
    ensures Selects(entries, lines, keep, hash)
    ensures forall i, j :: 0 <= i < j < |entries| ==> entries[i].hash != entries[j].hash
  {
    var byHash: map<uint64, JsString> := map[];
    entries := [];
    for i := 0 to |lines|
      invariant forall h: uint64 :: h in byHash <==> FirstKept(lines[..i], keep, hash, h).Some?
      invariant forall h: uint64 :: h in byHash ==> FirstKept(lines[..i], keep, hash, h) == Some(byHash[h])
      invariant forall e :: e in entries <==> e.hash in byHash && byHash[e.hash] == e.path
      invariant forall j, k :: 0 <= j < k < |entries| ==> entries[j].hash != entries[k].hash
    {
      assert lines[..i + 1] == lines[..i] + [lines[i]];
      forall h: uint64 {
        FirstKeptSnoc(lines[..i], lines[i], keep, hash, h);
      }
      var path := Trim(lines[i]);
      if path == [] { continue; }
      if !keep(path) { continue; }
      var h := hash(path);
      if h in byHash { continue; }
      forall e | e in entries ensures e.hash != h {
      }
      byHash := byHash[h := path];
      entries := entries + [Entry(h, path)];
    }
    assert lines[..|lines|] == lines;
  }

  /** Puts an entry before the first one that is not smaller. */
  method Insert(sorted: seq<Entry>, e: Entry) returns (out: seq<Entry>)
    requires Ascending(sorted) && forall i :: 0 <= i < |sorted| ==> sorted[i].hash != e.hash
    ensures Ascending(out)
    ensures forall x :: x in out <==> x in sorted || x == e
  {
    var k := 0;
    while k < |sorted| && sorted[k].hash < e.hash
      invariant k <= |sorted| && forall i :: 0 <= i < k ==> sorted[i].hash < e.hash
    {
      k := k + 1;
    }
    out := sorted[..k] + [e] + sorted[k..];
    Inserted(sorted, e, k);
    InsertedMembers(sorted, e, k);
  }

  lemma Inserted(sorted: seq<Entry>, e: Entry, k: nat)
    requires Ascending(sorted) && k <= |sorted|
    requires (k > 0 ==> sorted[k - 1].hash < e.hash) && (k < |sorted| ==> e.hash < sorted[k].hash)
    ensures Ascending(sorted[..k] + [e] + sorted[k..])
  {
    var out := sorted[..k] + [e] + sorted[k..];
    forall i, j | 0 <= i < j < |out| ensures out[i].hash < out[j].hash {
      InsertedAt(sorted, e, k, i, j);
    }
  }

  lemma InsertedMembers(sorted: seq<Entry>, e: Entry, k: nat)
    requires k <= |sorted|
    ensures forall x :: x in sorted[..k] + [e] + sorted[k..] <==> x in sorted || x == e
  {
    assert sorted == sorted[..k] + sorted[k..];
  }

  lemma InsertedAt(sorted: seq<Entry>, e: Entry, k: nat, i: nat, j: nat)
    requires Ascending(sorted) && k <= |sorted| && i < j <= |sorted|
    requires (k > 0 ==> sorted[k - 1].hash < e.hash) && (k < |sorted| ==> e.hash < sorted[k].hash)
    ensures var out := sorted[..k] + [e] + sorted[k..]; out[i].hash < out[j].hash
  {
    if j == k {
      assert i < k - 1 ==> sorted[i].hash < sorted[k - 1].hash;
    } else if i == k {
      assert k < j - 1 ==> sorted[k].hash < sorted[j - 1].hash;
    } else {
      assert sorted[if i < k then i else i - 1].hash < sorted[if j < k then j else j - 1].hash;
    }
  }

  /** The library sort by hash, of which only its contract is used. */
  method SortByHash(entries: seq<Entry>) returns (sorted: seq<Entry>)
    requires forall i, j :: 0 <= i < j < |entries| ==> entries[i].hash != entries[j].hash
    ensures Ascending(sorted) && forall e :: e in sorted <==> e in entries
  {
    sorted := [];
    for n := 0 to |entries|
      invariant Ascending(sorted) && forall e :: e in sorted <==> e in entries[..n]
    {
      forall i | 0 <= i < |sorted| ensures sorted[i].hash != entries[n].hash {
        assert sorted[i] in entries[..n];
      }
      sorted := Insert(sorted, entries[n]);
      assert entries[..n + 1] == entries[..n] + [entries[n]];
    }
    assert entries[..|entries|] == entries;
  }

  /** A numeric write into a buffer; everything before it stays. */
  method WriteAt(buf: array<byte>, at: nat, bytes: seq<byte>)
    requires at + |bytes| <= buf.Length
    modifies buf
    ensures buf[..at + |bytes|] == old(buf[..at]) + bytes
  {
    ghost var before := buf[..at];
    for i := 0 to |bytes|
      invariant buf[..at + i] == before + bytes[..i]
    {
      buf[at + i] := bytes[i];
      assert buf[..at + i + 1] == buf[..at + i] + [bytes[i]];
    }
    assert bytes[..|bytes|] == bytes;
  }

  /** Writes one record at its place in the index. */
  method WriteRecord(hash: uint64, offset: uint32, len: uint32, indexBuf: array<byte>, i: nat)
    requires 16 * i + 16 <= indexBuf.Length
    modifies indexBuf
    ensures indexBuf[..16 * i + 16] == old(indexBuf[..16 * i]) + Record(hash, offset, len)
  {
    var o := i * 16;
    WriteAt(indexBuf, o, HashBytes(hash));
    WriteAt(indexBuf, o + 8, ToLE32(offset));
    WriteAt(indexBuf, o + 12, ToLE32(len));
  }

  /** Writes the index and sums the blob; fails, as the buffer writes throw, when a number does not
      fit its field. */
  method WriteIndex(entries: seq<Entry>, utf8: Codec, indexBuf: array<byte>) returns (ok: bool, blob: seq<byte>)
    requires indexBuf.Length == 16 * |entries|
    modifies indexBuf
    ensures var rows := Encoded(entries, utf8);
      && (ok <==> AllFit(rows)) && (ok ==> Laid(rows, indexBuf[..], blob))
  {
    ghost var rows := Encoded(entries, utf8);
    ghost var records: seq<seq<byte>> := [];
    blob := [];
    var i := 0;
    while i < |entries|
      invariant i <= |entries|
      invariant Written(rows, i, indexBuf[..16 * i], records, blob)
    {
      var e := entries[i];
      var pb := utf8(e.path);
      assert rows[i] == Row(e.hash, pb);
      if |blob| >= TWO_32 || |pb| >= TWO_32 {
        assert Offset(rows, i) == |blob|;
        assert !RecordFits(rows, i);
        return false, blob;
      }
      var offset, len := |blob|, |pb|;
      WrittenFits(rows, i, indexBuf[..16 * i], records, blob);
      WrittenStep(rows, i, indexBuf[..16 * i], records, blob);
      WriteRecord(e.hash, offset, len, indexBuf, i);
      records := records + [Record(e.hash, offset, len)];
      blob := blob + pb;
      i := i + 1;
    }
    ok := true;
    WrittenAll(rows, indexBuf[..16 * i], records, blob);
    assert indexBuf[..16 * i] == indexBuf[..];
  }

  ghost predicate RecordsSoFar(records: seq<seq<byte>>, rows: seq<Row>) {
    |records| <= |rows| &&
    forall j {:trigger RecordFits(rows, j)} {:trigger records[j]} :: 0 <= j < |records| ==>
      RecordFits(rows, j) && records[j] == Record(rows[j].hash, Offset(rows, j), |rows[j].bytes|)
  }

  lemma OneMoreRecord(records: seq<seq<byte>>, rows: seq<Row>)
    requires RecordsSoFar(records, rows) && |records| < |rows| && RecordFits(rows, |records|)
    ensures var i := |records|;
      RecordsSoFar(records + [Record(rows[i].hash, Offset(rows, i), |rows[i].bytes|)], rows)
  {
  }

  /** Index and blob of the first `i` rows. */
  ghost predicate Written(rows: seq<Row>, i: nat, index: seq<byte>, records: seq<seq<byte>>, blob: seq<byte>) {
    && i <= |rows| && |records| == i && RecordsSoFar(records, rows)
    && index == Join(records, i) && blob == Join(Paths(rows), i)
  }

  lemma WrittenFits(rows: seq<Row>, i: nat, index: seq<byte>, records: seq<seq<byte>>, blob: seq<byte>)
    requires Written(rows, i, index, records, blob) && i < |rows| && |blob| < TWO_32 && |rows[i].bytes| < TWO_32
    ensures RecordFits(rows, i) && Offset(rows, i) == |blob|
  {
  }

  lemma WrittenStep(rows: seq<Row>, i: nat, index: seq<byte>, records: seq<seq<byte>>, blob: seq<byte>)
    requires Written(rows, i, index, records, blob) && i < |rows| && RecordFits(rows, i)
    ensures var r := Record(rows[i].hash, Offset(rows, i), |rows[i].bytes|);
      Written(rows, i + 1, index + r, records + [r], blob + rows[i].bytes)
  {
    var r := Record(rows[i].hash, Offset(rows, i), |rows[i].bytes|);
    JoinSnoc(records, r);
    OneMoreRecord(records, rows);
  }

  lemma WrittenAll(rows: seq<Row>, index: seq<byte>, records: seq<seq<byte>>, blob: seq<byte>)
    requires Written(rows, |rows|, index, records, blob)
    ensures AllFit(rows) && Laid(rows, index, blob)
  {
    assert AllFit(rows);
    assert records == Records(rows);
  }

  lemma {:induction false} JoinPrefix(parts: seq<seq<byte>>, more: seq<seq<byte>>, n: nat)
    requires n <= |parts|
    ensures Join(parts + more, n) == Join(parts, n)
  {
    if n > 0 { JoinPrefix(parts, more, n - 1); }
  }

  lemma JoinSnoc(parts: seq<seq<byte>>, part: seq<byte>)
    ensures Join(parts + [part], |parts| + 1) == Join(parts, |parts|) + part
  {
    JoinPrefix(parts, [part], |parts|);
  }

  /** Builds the dictionary: sorted records of the first kept path of every hash. */
  method Build(lines: seq<JsString>, keep: JsString -> bool, hash: JsString -> uint64, utf8: Codec)
    returns (file: Option<seq<byte>>, ghost entries: seq<Entry>)
    ensures Selects(entries, lines, keep, hash) && Ascending(entries)
    ensures file.Some? <==> Fits(Encoded(entries, utf8))
    ensures file.Some? ==> IsDictionary(file.value, Encoded(entries, utf8))
  {
    var collected := Collect(lines, keep, hash);
    var sorted := SortByHash(collected);
    entries := sorted;
    file := Layout(sorted, utf8);
  }

  lemma IsLayout(rows: seq<Row>, index: seq<byte>, blob: seq<byte>)
    requires Fits(rows) && Laid(rows, index, blob)
    ensures IsDictionary(Header(|rows|, 16 + 16 * |rows|) + index + blob, rows)
  {
  }

  method IndexAndBlob(entries: seq<Entry>, utf8: Codec) returns (ok: bool, index: seq<byte>, blob: seq<byte>)
    ensures var rows := Encoded(entries, utf8); (ok <==> AllFit(rows)) && (ok ==> Laid(rows, index, blob))
  {
    var indexBuf := new byte[|entries| * 16];
    ok, blob := WriteIndex(entries, utf8, indexBuf);
    index := indexBuf[..];
  }

  /** Puts the header before index and blob, unless a number did not fit. */
  method Assemble(count: nat, fit: bool, index: seq<byte>, blob: seq<byte>, ghost rows: seq<Row>)
    returns (file: Option<seq<byte>>)
    requires count == |rows| && fit == AllFit(rows) && (fit ==> Laid(rows, index, blob))
    ensures file.Some? <==> Fits(rows)
    ensures file.Some? ==> IsDictionary(file.value, rows)
  {
    var pathsOffset := 16 + count * 16;
    if !fit || pathsOffset >= TWO_32 { return None; }
    IsLayout(rows, index, blob);
    file := Some(Header(count, pathsOffset) + index + blob);
  }

  method Layout(entries: seq<Entry>, utf8: Codec) returns (file: Option<seq<byte>>)
    ensures file.Some? <==> Fits(Encoded(entries, utf8))
    ensures file.Some? ==> IsDictionary(file.value, Encoded(entries, utf8))
  {
    var ok, index, blob := IndexAndBlob(entries, utf8);
    file := Assemble(|entries|, ok, index, blob, Encoded(entries, utf8));
  }

  // ----- The reader -----

  datatype Dict = Dict(file: seq<byte>, count: uint32, indexOffset: uint32, pathsOffset: uint32)

  /** `readSync` into a zeroed buffer: bytes past the end of the file stay zero. */
  function ReadAt(file: seq<byte>, at: nat, len: nat): (s: seq<byte>)
    ensures |s| == len
    ensures at + len <= |file| ==> s == file[at..at + len]
  {
    seq(len, i requires 0 <= i < len => if at + i < |file| then file[at + i] else 0)
  }

  /** Opens a dictionary; a file without the magic is refused. */
  method OpenDict(file: seq<byte>) returns (d: Option<Dict>)
    ensures d.Some? <==> ReadAt(file, 0, 16)[..4] == MAGIC
    ensures d.Some? ==> d.value.file == file
    ensures forall rows: seq<Row> | IsDictionary(file, rows) ::
              d == Some(Dict(file, |rows|, 16, 16 + 16 * |rows|))
  {
    var header := ReadAt(file, 0, 16);
    if header[..4] == MAGIC {
      d := Some(Dict(file, FromLE32(header[4..8]), FromLE32(header[8..12]), FromLE32(header[12..16])));
    } else {
      d := None;
    }
    forall rows: seq<Row> | IsDictionary(file, rows)
      ensures d == Some(Dict(file, |rows|, 16, 16 + 16 * |rows|))
    {
      HeaderRead(file, rows);
      HeaderFields(|rows|, 16 + 16 * |rows|);
    }
  }

  lemma HeaderRead(file: seq<byte>, rows: seq<Row>)
    requires IsDictionary(file, rows)
    ensures ReadAt(file, 0, 16) == Header(|rows|, 16 + 16 * |rows|)
  {
  }

  lemma HeaderFields(count: uint32, pathsOffset: uint32)
    ensures var h := Header(count, pathsOffset);
      h[..4] == MAGIC && FromLE32(h[4..8]) == count && FromLE32(h[8..12]) == 16 && FromLE32(h[12..16]) == pathsOffset
  {
    var h := Header(count, pathsOffset);
    assert h[4..8] == ToLE32(count) && h[8..12] == ToLE32(16) && h[12..16] == ToLE32(pathsOffset);
    LE32RoundTrip(count);
    LE32RoundTrip(16);
    LE32RoundTrip(pathsOffset);
  }

  lemma ReadHas(file: seq<byte>, at: nat, part: seq<byte>)
    requires Has(file, at, part)
    ensures ReadAt(file, at, |part|) == part
  {
  }

  lemma RecordAt(rows: seq<Row>, i: nat)
    requires AllFit(rows) && i < |rows|
    ensures RecordFits(rows, i) && Records(rows)[i] == Record(rows[i].hash, Offset(rows, i), |rows[i].bytes|)
  {
    assert RecordFits(rows, i);
  }

  lemma RecordHas(file: seq<byte>, rows: seq<Row>, i: nat)
    requires IsDictionary(file, rows) && i < |rows|
    ensures Has(file, 16 + 16 * i, Records(rows)[i])
  {
    RecordInFile(Header(|rows|, 16 + 16 * |rows|), Records(rows), Join(Paths(rows), |rows|), i);
  }

  /** Record and path of row `i` stand where the format puts them. */
  ghost predicate RowAt(file: seq<byte>, rows: seq<Row>, i: nat)
    requires i < |rows|
  {
    && RecordFits(rows, i) && Has(file, 16 + 16 * i, Record(rows[i].hash, Offset(rows, i), |rows[i].bytes|))
    && Has(file, 16 + 16 * |rows| + Offset(rows, i), rows[i].bytes)
  }

  ghost predicate HoldsRows(file: seq<byte>, rows: seq<Row>) {
    16 + 16 * |rows| < TWO_32 && forall i :: 0 <= i < |rows| ==> RowAt(file, rows, i)
  }

  lemma PathHas(file: seq<byte>, rows: seq<Row>, i: nat)
    requires IsDictionary(file, rows) && i < |rows|
    ensures Has(file, 16 + 16 * |rows| + Offset(rows, i), rows[i].bytes)
  {
    JoinLength(Records(rows), |rows|, 16);
    PathInFile(Header(|rows|, 16 + 16 * |rows|) + Join(Records(rows), |rows|), Paths(rows), i);
  }

  lemma DictionaryHolds(file: seq<byte>, rows: seq<Row>)
    requires IsDictionary(file, rows)
    ensures HoldsRows(file, rows)
  {
    forall i | 0 <= i < |rows| ensures RowAt(file, rows, i) {
      RecordHas(file, rows, i);
      RecordAt(rows, i);
      PathHas(file, rows, i);
    }
  }

  lemma RecordFields(hash: uint64, offset: uint32, len: uint32)
    ensures var r := Record(hash, offset, len);
      r[..8] == HashBytes(hash) && r[8..12] == ToLE32(offset) && r[12..16] == ToLE32(len)
  {
  }

  lemma EntryFields(entry: seq<byte>, hash: uint64, offset: uint32, len: uint32)
    requires entry == Record(hash, offset, len)
    ensures entry[..8] == HashBytes(hash) && FromLE32(entry[8..12]) == offset && FromLE32(entry[12..16]) == len
  {
    RecordFields(hash, offset, len);
    LE32RoundTrip(offset);
    LE32RoundTrip(len);
  }

  lemma EntryAt(file: seq<byte>, at: nat, hash: uint64, offset: uint32, len: uint32)
    requires Has(file, at, Record(hash, offset, len))
    ensures var entry := ReadAt(file, at, 16);
      entry[..8] == HashBytes(hash) && FromLE32(entry[8..12]) == offset && FromLE32(entry[12..16]) == len
  {
    ReadHas(file, at, Record(hash, offset, len));
    EntryFields(ReadAt(file, at, 16), hash, offset, len);
  }

  /** The header in bytes: "RSD1", the number of records, where they start and where the paths do. */
  lemma HeaderInBytes(file: seq<byte>, rows: seq<Row>)
    requires IsDictionary(file, rows)
    ensures |file| >= 16 && file[..4] == [0x52, 0x53, 0x44, 0x31] && FromLE32(file[4..8]) == |rows|
    ensures FromLE32(file[8..12]) == 16 && FromLE32(file[12..16]) == 16 + 16 * |rows|
  {
    var header := Header(|rows|, 16 + 16 * |rows|);
    assert file[..4] == header[..4] && file[4..8] == header[4..8] && file[8..12] == header[8..12];
    assert file[12..16] == header[12..16];
    HeaderFields(|rows|, 16 + 16 * |rows|);
  }

  /** Record and path of a row in bytes; a path starts where the one before it ends. */
  lemma RowInBytes(file: seq<byte>, rows: seq<Row>, i: nat)
    requires IsDictionary(file, rows) && i < |rows|
    ensures var at := 16 + 16 * i;
      && at + 16 <= |file| && FromBE(file[at..at + 8]) == rows[i].hash
      && FromLE32(file[at + 8..at + 12]) == Offset(rows, i) && FromLE32(file[at + 12..at + 16]) == |rows[i].bytes|
    ensures var from := 16 + 16 * |rows| + Offset(rows, i);
      from + |rows[i].bytes| <= |file| && file[from..from + |rows[i].bytes|] == rows[i].bytes
    ensures Offset(rows, 0) == 0 && Offset(rows, i + 1) == Offset(rows, i) + |rows[i].bytes|
  {
    DictionaryHolds(file, rows);
    assert RowAt(file, rows, i);
    RecordInBytes(file, 16 + 16 * i, rows[i].hash, Offset(rows, i), |rows[i].bytes|);
  }

  lemma RecordInBytes(file: seq<byte>, at: nat, hash: uint64, offset: uint32, len: uint32)
    requires Has(file, at, Record(hash, offset, len))
    ensures FromBE(file[at..at + 8]) == hash
    ensures FromLE32(file[at + 8..at + 12]) == offset && FromLE32(file[at + 12..at + 16]) == len
  {
    var entry := file[at..at + 16];
    EntryFields(entry, hash, offset, len);
    assert entry[..8] == file[at..at + 8] && entry[8..12] == file[at + 8..at + 12];
    assert entry[12..16] == file[at + 12..at + 16];
    EightBytes();
    BERoundTrip(hash, HASH_BYTES);
  }

  ghost predicate Opened(d: Dict, rows: seq<Row>) {
    HoldsRows(d.file, rows) && d == Dict(d.file, |rows|, 16, 16 + 16 * |rows|)
  }

  /** The three fields of record `i`, as the reader slices them. */
  lemma FieldsRead(d: Dict, rows: seq<Row>, i: nat)
    requires Opened(d, rows) && i < |rows|
    ensures var entry := ReadAt(d.file, d.indexOffset + i * 16, 16);
      && entry[..8] == HashBytes(rows[i].hash)
      && FromLE32(entry[8..12]) == Offset(rows, i) && FromLE32(entry[12..16]) == |rows[i].bytes|
  {
    RowFields(d.file, rows, i);
  }

  lemma RowFields(file: seq<byte>, rows: seq<Row>, i: nat)
    requires i < |rows| && RowAt(file, rows, i)
    ensures var entry := ReadAt(file, 16 + i * 16, 16);
      && entry[..8] == HashBytes(rows[i].hash)
      && FromLE32(entry[8..12]) == Offset(rows, i) && FromLE32(entry[12..16]) == |rows[i].bytes|
  {
    EntryAt(file, 16 + i * 16, rows[i].hash, Offset(rows, i), |rows[i].bytes|);
  }

  /** Reads record `mid` and compares its hash; on a match, reads the path. */
  method Probe(d: Dict, target: seq<byte>, mid: nat, ghost hash: uint64, ghost rows: seq<Row>)
    returns (cmp: int, found: seq<byte>)
    requires Opened(d, rows) && mid < |rows| && target == HashBytes(hash)
    ensures (cmp < 0 <==> rows[mid].hash < hash) && (cmp == 0 <==> rows[mid].hash == hash)
    ensures cmp == 0 ==> found == rows[mid].bytes
  {
    FieldsRead(d, rows, mid);
    var entry := ReadAt(d.file, d.indexOffset + mid * 16, 16);
    HashBytesOrder(rows[mid].hash, hash);
    cmp := Compare(entry[..8], target);
    found := [];
    if cmp == 0 { found := ReadPath(d, entry, mid, rows); }
  }

  /** The path that a record places. */
  method ReadPath(d: Dict, entry: seq<byte>, ghost mid: nat, ghost rows: seq<Row>) returns (found: seq<byte>)
    requires Opened(d, rows) && mid < |rows| && |entry| == 16
    requires FromLE32(entry[8..12]) == Offset(rows, mid) && FromLE32(entry[12..16]) == |rows[mid].bytes|
    ensures found == rows[mid].bytes
  {
    var pathOff := FromLE32(entry[8..12]);
    var pathLen := FromLE32(entry[12..16]);
    assert RowAt(d.file, rows, mid);
    ReadHas(d.file, d.pathsOffset + pathOff, rows[mid].bytes);
    found := ReadAt(d.file, d.pathsOffset + pathOff, pathLen);
  }

  predicate RowsAscend(rows: seq<Row>) {
    forall i, j :: 0 <= i < j < |rows| ==> rows[i].hash < rows[j].hash
  }

  predicate Below(rows: seq<Row>, n: nat, hash: uint64) {
    n <= |rows| && forall i :: 0 <= i < n ==> rows[i].hash < hash
  }

  predicate Above(rows: seq<Row>, n: nat, hash: uint64) {
    forall i :: n <= i < |rows| ==> hash < rows[i].hash
  }

  lemma Narrow(rows: seq<Row>, mid: nat, hash: uint64)
    requires RowsAscend(rows) && mid < |rows|
    ensures rows[mid].hash < hash ==> Below(rows, mid + 1, hash)
    ensures hash < rows[mid].hash ==> Above(rows, mid, hash)
  {
  }

  /** Binary search over the records.  The result is the bytes of the path, which the caller
      decodes; `at` is the row found. */
  method LookupBytes(d: Dict, hash: uint64, ghost rows: seq<Row>) returns (r: Option<seq<byte>>, ghost at: nat)
    requires Opened(d, rows)
    requires RowsAscend(rows)
    ensures r.Some? ==> at < |rows| && rows[at] == Row(hash, r.value)
    ensures r.None? ==> forall i :: 0 <= i < |rows| ==> rows[i].hash != hash
  {
    at := 0;
    var target := HashBytes(hash);
    var lo, hi: int := 0, d.count - 1;
    while lo <= hi
      invariant 0 <= lo <= hi + 1 <= |rows|
      invariant Below(rows, lo, hash) && Above(rows, hi + 1, hash)
    {
      assert lo + hi < 0x8000_0000;  // so that the reader's 32-bit shift halves the sum
      var mid := (lo + hi) / 2;
      var cmp, found := Probe(d, target, mid, hash, rows);
      if cmp == 0 { return Some(found), mid; }
      Narrow(rows, mid, hash);
      if cmp < 0 { lo := mid + 1; } else { hi := mid - 1; }
    }
    r := None;
  }

  /** Looking a hash up in the file built from a list of lines gives the first kept path with that
      hash, through the codec and back, and nothing when there is none. */
  method BuildAndLookup(lines: seq<JsString>, keep: JsString -> bool, hash: JsString -> uint64, utf8: Codec,
                        decode: seq<byte> -> JsString, h: uint64)
    returns (built: bool, path: Option<JsString>, ghost entries: seq<Entry>)
    ensures Selects(entries, lines, keep, hash) && Ascending(entries)
    ensures built <==> Fits(Encoded(entries, utf8))
    ensures built ==>
      path == match FirstKept(lines, keep, hash, h) case None => None case Some(p) => Some(decode(utf8(p)))
  {
    var file: Option<seq<byte>>;
    file, entries := Build(lines, keep, hash, utf8);
    if file.None? { return false, None, entries; }
    var d := OpenDict(file.value);
    ghost var rows := Encoded(entries, utf8);
    DictionaryHolds(file.value, rows);
    var r, at := LookupBytes(d.value, h, rows);
    built := true;
    path := if r.Some? then Some(decode(r.value)) else None;
    if FirstKept(lines, keep, hash, h).Some? {
      ghost var i :| 0 <= i < |entries| && entries[i] == Entry(h, FirstKept(lines, keep, hash, h).value);
      assert rows[i].hash == h;
    }
    if r.Some? { assert entries[at] in entries; }
  }
}
