/** The storage engine `DiskStorage` (disk_store.py): an append-only log and
    the KeyDir, an in-memory map from each key to the byte offset of that key's
    latest record.

    The log file is modelled as the byte sequence it holds; `seek`/`read`
    become slices of that sequence and `write` at end-of-file becomes
    concatenation. */
module DiskStore {
  import opened Wrappers
  import opened Format

  /** What the engine's calls can raise: a codec failure while encoding or
      decoding, or Python's error for I/O on a closed file. */
  datatype Error = Codec(cause: Format.Error) | ClosedFile

  type KeyDir = map<seq<Byte>, nat>

  /** The engine's state: the file's bytes, the KeyDir, and whether the file
      handle is still open. */
  datatype Store = Store(log: seq<Byte>, keyDir: KeyDir, isOpen: bool)

  /** Logs shorter than this are not scanned when the store is opened. */
  const MIN_SCAN_SIZE: nat := 10

  /** `seek(offset)` followed by `read(count)`: `count` bytes, or every
      remaining byte when the file ends first, none when `offset` lies past
      the end. */
  function ReadAt(log: seq<Byte>, offset: nat, count: nat): (r: seq<Byte>)
    ensures |r| == if offset + count <= |log| then count else if offset <= |log| then |log| - offset else 0
    ensures offset <= |log| ==> r == log[offset..offset + |r|]
    ensures |log| < offset ==> r == []
  {
    var start := if offset <= |log| then offset else |log|;
    var end := if offset + count <= |log| then offset + count else |log|;
    log[start..end]
  }

  /** Reads and decodes the record starting at `offset`, the way both `get`
      and the opening scan do: 12 header bytes, then the body size the
      header declares, then `decode_kv` of the two together. */
  function RecordAt(log: seq<Byte>, offset: nat): (r: Result<Record, Format.Error>)
    ensures r.Success? ==> offset + RecordSize(r.value) <= |log|
  {
    var headerBytes := ReadAt(log, offset, HEADER_SIZE);
    var h :- DecodeHeader(headerBytes);
    var body := ReadAt(log, offset + HEADER_SIZE, h.keySize + h.valueSize);
    DecodeKv(headerBytes + body)
  }

  /** The record at `offset` exists and belongs to `key`. */
  predicate PointsAt(log: seq<Byte>, offset: nat, key: seq<Byte>) {
    RecordAt(log, offset).Success? && RecordAt(log, offset).value.key == key
  }

  /** Every KeyDir entry points at a well-formed record of its own key. */
  predicate Sound(log: seq<Byte>, keyDir: KeyDir) {
    forall k :: k in keyDir ==> PointsAt(log, keyDir[k], k)
  }

  /** The loop of `__init_db` from `cursor` on: decode the record there,
      point its key at `cursor`, and advance past it. */
  function ScanFrom(log: seq<Byte>, cursor: nat, keyDir: KeyDir): (r: Result<KeyDir, Format.Error>)
    requires cursor <= |log|
    ensures r.Success? ==> keyDir.Keys <= r.value.Keys
    decreases |log| - cursor
  {
    if cursor < |log| then
      match RecordAt(log, cursor)
      case Failure(e) => Failure(e)
      case Success(rec) => ScanFrom(log, cursor + RecordSize(rec), keyDir[rec.key := cursor])
    else
      Success(keyDir)
  }

  /** One step of the scan: the record at `cursor` is indexed and skipped. */
  lemma ScanStep(log: seq<Byte>, cursor: nat, keyDir: KeyDir, rec: Record)
    requires cursor < |log|
    requires RecordAt(log, cursor) == Success(rec)
    ensures ScanFrom(log, cursor, keyDir) == ScanFrom(log, cursor + RecordSize(rec), keyDir[rec.key := cursor])
  {
  }

  /** A record that does not decode stops the scan with its error. */
  lemma ScanStops(log: seq<Byte>, cursor: nat, keyDir: KeyDir)
    requires cursor < |log|
    requires RecordAt(log, cursor).Failure?
    ensures ScanFrom(log, cursor, keyDir) == Failure(RecordAt(log, cursor).error)
  {
  }

  /** The scan only ever points a key at a record of that key. */
  lemma {:induction false} ScanSound(log: seq<Byte>, cursor: nat, keyDir: KeyDir)
    requires cursor <= |log|
    requires Sound(log, keyDir)
    requires ScanFrom(log, cursor, keyDir).Success?
    ensures Sound(log, ScanFrom(log, cursor, keyDir).value)
    decreases |log| - cursor
  {
    if cursor < |log| {
      var rec := RecordAt(log, cursor).value;
      ScanStep(log, cursor, keyDir, rec);
      ScanSound(log, cursor + RecordSize(rec), keyDir[rec.key := cursor]);
    }
  }

  /** `__init_db`: the KeyDir rebuilt from the log. Logs under 10 bytes are
      treated as empty; otherwise the whole log must scan as records. */
  function InitDb(log: seq<Byte>): (r: Result<KeyDir, Format.Error>)
    ensures |log| < MIN_SCAN_SIZE ==> r == Success(map[])
    ensures MIN_SCAN_SIZE <= |log| < HEADER_SIZE ==> r.Failure?
  {
    if |log| < MIN_SCAN_SIZE then Success(map[]) else ScanFrom(log, 0, map[])
  }

  /** Every entry of a rebuilt KeyDir points at a record of its own key. */
  lemma InitDbSound(log: seq<Byte>)
    requires InitDb(log).Success?
    ensures Sound(log, InitDb(log).value)
  {
    if MIN_SCAN_SIZE <= |log| {
      ScanSound(log, 0, map[]);
    }
  }

  /** `__init_db` as the source writes it: a loop over the file with a cursor
      that moves past each record by `HEADER_SIZE + key_size + value_size`. */
  method LoadKeyDir(log: seq<Byte>) returns (r: Result<KeyDir, Format.Error>)
    ensures r == InitDb(log)
  {
    if |log| < MIN_SCAN_SIZE {
      return Success(map[]);
    }
    var keyDir: KeyDir := map[];
    var cursor: nat := 0;
    ghost var scanned := ScanFrom(log, 0, map[]);
    while cursor < |log|
      invariant cursor <= |log|
      invariant ScanFrom(log, cursor, keyDir) == scanned
      decreases |log| - cursor
    {
      var record := RecordAt(log, cursor);
      if record.Failure? {
        ScanStops(log, cursor, keyDir);
        return Failure(record.error);
      }
      var rec := record.value;
      ScanStep(log, cursor, keyDir, rec);
      keyDir := keyDir[rec.key := cursor];
      cursor := cursor + HEADER_SIZE + |rec.key| + |rec.value|;
    }
    return Success(keyDir);
  }

  /** `DiskStorage(file_name)`: opening a file (an absent file is an empty
      one) rebuilds the KeyDir; a log that does not scan makes opening fail. */
  function Open(log: seq<Byte>): (r: Result<Store, Error>)
    ensures r.Success? <==> InitDb(log).Success?
    ensures r.Success? ==> r.value.isOpen && r.value.log == log && r.value.keyDir == InitDb(log).value
    ensures log == [] ==> r == Success(Store([], map[], true))
  {
    match InitDb(log)
    case Failure(e) => Failure(Codec(e))
    case Success(keyDir) => Success(Store(log, keyDir, true))
  }

  /** `close`: releases the handle; the bytes stay as they are. */
  function Close(s: Store): (r: Store)
    ensures !r.isOpen && r.log == s.log && r.keyDir == s.keyDir
  {
    s.(isOpen := false)
  }

  /** `set(key, value)` at wall-clock time `timestamp`: appends the encoded
      record at end-of-file and points `key` at the old end-of-file. */
  function Set(s: Store, timestamp: int, key: seq<Byte>, value: seq<Byte>): (r: Result<Store, Error>)
    ensures r.Success? <==> s.isOpen && Encodable(timestamp, key, value)
    ensures !s.isOpen ==> r == Failure(ClosedFile)
    ensures r.Success? ==> r.value.isOpen
    ensures r.Success? ==> |r.value.log| > |s.log| && r.value.log[..|s.log|] == s.log
    ensures r.Success? ==> r.value.log[|s.log|..] == EncodeKv(timestamp, key, value).value.1
    ensures r.Success? ==> key in r.value.keyDir && r.value.keyDir[key] == |s.log|
    ensures r.Success? ==> forall k :: k != key ==> (k in r.value.keyDir <==> k in s.keyDir)
    ensures r.Success? ==> forall k :: k != key && k in s.keyDir ==> r.value.keyDir[k] == s.keyDir[k]
  {
    if !s.isOpen then
      Failure(ClosedFile)
    else
      match EncodeKv(timestamp, key, value)
      case Failure(e) => Failure(Codec(e))
      case Success(encoded) =>
        assert (s.log + encoded.1)[..|s.log|] == s.log;
        Success(Store(s.log + encoded.1, s.keyDir[key := |s.log|], true))
  }

  /** `get(key)`: `""` for a key the KeyDir does not hold, without touching
      the file; otherwise the value of the record at the key's offset. */
  function Get(s: Store, key: seq<Byte>): (r: Result<seq<Byte>, Error>)
    ensures key !in s.keyDir ==> r == Success([])
    ensures key in s.keyDir && !s.isOpen ==> r == Failure(ClosedFile)
    ensures key in s.keyDir && s.isOpen ==>
              (r.Success? <==> RecordAt(s.log, s.keyDir[key]).Success?)
    ensures key in s.keyDir && r.Success? ==> r.value == RecordAt(s.log, s.keyDir[key]).value.value
  {
    if key !in s.keyDir then
      Success([])
    else if !s.isOpen then
      Failure(ClosedFile)
    else
      match RecordAt(s.log, s.keyDir[key])
      case Failure(e) => Failure(Codec(e))
      case Success(rec) => Success(rec.value)
  }

  // ---------------------------------------------------------------------
  // Reading records back

  /** A record read back at `offset` is exactly the bytes stored there. */
  lemma RecordAtIsEncoding(log: seq<Byte>, offset: nat)
    requires RecordAt(log, offset).Success?
    ensures var r := RecordAt(log, offset).value;
            offset + RecordSize(r) <= |log| && log[offset..offset + RecordSize(r)] == EncodeRecord(r)
  {
    var headerBytes := ReadAt(log, offset, HEADER_SIZE);
    var h := DecodeHeader(headerBytes).value;
    var data := headerBytes + ReadAt(log, offset + HEADER_SIZE, h.keySize + h.valueSize);
    DecodedIsEncoding(data);
    assert data == log[offset..offset + |data|];
  }

  /** Conversely, the encoding of `r` stored at `offset` reads back as `r`. */
  lemma EncodingIsRecordAt(log: seq<Byte>, offset: nat, r: Record)
    requires offset + RecordSize(r) <= |log|
    requires log[offset..offset + RecordSize(r)] == EncodeRecord(r)
    ensures RecordAt(log, offset) == Success(r)
  {
    var enc := EncodeRecord(r);
    var headerBytes := ReadAt(log, offset, HEADER_SIZE);
    assert headerBytes == log[offset..offset + HEADER_SIZE];
    assert log[offset..offset + HEADER_SIZE] == enc[..HEADER_SIZE];
    assert enc[..HEADER_SIZE] == HeaderBytes(HeaderOf(r));
    HeaderBytesRoundTrip(HeaderOf(r));
    var body := ReadAt(log, offset + HEADER_SIZE, |r.key| + |r.value|);
    assert body == enc[HEADER_SIZE..];
    assert headerBytes + body == enc;
    RecordRoundTrip(r);
  }

  /** The record at `offset` decodes to `r` exactly when the bytes there are
      the encoding of `r`. */
  lemma RecordAtDecodes(log: seq<Byte>, offset: nat, r: Record)
    ensures RecordAt(log, offset) == Success(r) <==>
              offset + RecordSize(r) <= |log| && log[offset..offset + RecordSize(r)] == EncodeRecord(r)
  {
    if RecordAt(log, offset) == Success(r) {
      RecordAtIsEncoding(log, offset);
    }
    if offset + RecordSize(r) <= |log| && log[offset..offset + RecordSize(r)] == EncodeRecord(r) {
      EncodingIsRecordAt(log, offset, r);
    }
  }

  /** Appending bytes never changes a record that already decodes. */
  lemma RecordAtExtend(log: seq<Byte>, rest: seq<Byte>, offset: nat)
    requires RecordAt(log, offset).Success?
    ensures RecordAt(log + rest, offset) == RecordAt(log, offset)
  {
    var r := RecordAt(log, offset).value;
    RecordAtDecodes(log, offset, r);
    assert (log + rest)[offset..offset + RecordSize(r)] == log[offset..offset + RecordSize(r)];
    RecordAtDecodes(log + rest, offset, r);
  }

  /** A record that decodes still decodes the same in any longer log with
      the same bytes. */
  lemma RecordAtPrefix(log: seq<Byte>, longer: seq<Byte>, offset: nat)
    requires log <= longer
    requires RecordAt(log, offset).Success?
    ensures RecordAt(longer, offset) == RecordAt(log, offset)
  {
    var r := RecordAt(log, offset).value;
    RecordAtIsEncoding(log, offset);
    assert longer[offset..offset + RecordSize(r)] == log[offset..offset + RecordSize(r)];
    EncodingIsRecordAt(longer, offset, r);
  }

  /** The record appended last is read back from the old end-of-file. */
  lemma RecordAtEnd(log: seq<Byte>, r: Record)
    ensures RecordAt(log + EncodeRecord(r), |log|) == Success(r)
  {
    assert (log + EncodeRecord(r))[|log|..|log| + RecordSize(r)] == EncodeRecord(r);
    RecordAtDecodes(log + EncodeRecord(r), |log|, r);
  }

  // ---------------------------------------------------------------------
  // set followed by get

  /** After `set(k, v)`, `get(k)` returns `v`, whatever the store held. */
  lemma SetThenGet(s: Store, timestamp: int, key: seq<Byte>, value: seq<Byte>)
    requires Set(s, timestamp, key, value).Success?
    ensures Get(Set(s, timestamp, key, value).value, key) == Success(value)
  {
    var rec := Record(timestamp, key, value);
    assert Set(s, timestamp, key, value).value.log == s.log + EncodeRecord(rec);
    RecordAtEnd(s.log, rec);
  }

  /** Last write wins: after `set(k, v1)` and `set(k, v2)`, `get(k)` returns
      `v2`, and both records are still in the log at their offsets. */
  lemma LastWriteWins(s: Store, t1: int, t2: int, key: seq<Byte>, v1: seq<Byte>, v2: seq<Byte>)
    requires Set(s, t1, key, v1).Success?
    requires Encodable(t2, key, v2)
    ensures var s1 := Set(s, t1, key, v1).value;
            Set(s1, t2, key, v2).Success? &&
            var s2 := Set(s1, t2, key, v2).value;
            && Get(s2, key) == Success(v2)
            && RecordAt(s2.log, |s.log|) == Success(Record(t1, key, v1))
            && RecordAt(s2.log, |s1.log|) == Success(Record(t2, key, v2))
  {
    var s1 := Set(s, t1, key, v1).value;
    var s2 := Set(s1, t2, key, v2).value;
    var rec1, rec2 := Record(t1, key, v1), Record(t2, key, v2);
    assert s1.log == s.log + EncodeRecord(rec1);
    assert s2.log == s1.log + EncodeRecord(rec2);
    RecordAtEnd(s.log, rec1);
    RecordAtExtend(s1.log, EncodeRecord(rec2), |s.log|);
    RecordAtEnd(s1.log, rec2);
    SetThenGet(s1, t2, key, v2);
  }

  /** `set(k, v)` leaves every other key's successful `get` as it was. */
  lemma SetKeepsOtherGets(s: Store, timestamp: int, key: seq<Byte>, value: seq<Byte>, other: seq<Byte>)
    requires Set(s, timestamp, key, value).Success?
    requires other != key
    requires Get(s, other).Success?
    ensures Get(Set(s, timestamp, key, value).value, other) == Get(s, other)
  {
    var s' := Set(s, timestamp, key, value).value;
    if other in s.keyDir {
      assert s'.log == s.log + EncodeKv(timestamp, key, value).value.1;
      RecordAtExtend(s.log, EncodeKv(timestamp, key, value).value.1, s.keyDir[other]);
    }
  }

  /** `set` keeps the KeyDir invariant: every entry points at a well-formed
      record of its own key. */
  lemma SetKeepsSound(s: Store, timestamp: int, key: seq<Byte>, value: seq<Byte>)
    requires Sound(s.log, s.keyDir)
    requires Set(s, timestamp, key, value).Success?
    ensures var s' := Set(s, timestamp, key, value).value;
            Sound(s'.log, s'.keyDir)
  {
    var s' := Set(s, timestamp, key, value).value;
    var rec := Record(timestamp, key, value);
    assert s'.log == s.log + EncodeRecord(rec);
    forall k | k in s'.keyDir
      ensures PointsAt(s'.log, s'.keyDir[k], k)
    {
      if k == key {
        RecordAtEnd(s.log, rec);
      } else {
        RecordAtExtend(s.log, EncodeRecord(rec), s.keyDir[k]);
      }
    }
  }

  /** A store opened from any log answers every key it indexes. */
  lemma OpenedGetSucceeds(log: seq<Byte>, key: seq<Byte>)
    requires Open(log).Success?
    requires key in Open(log).value.keyDir
    ensures Get(Open(log).value, key).Success?
  {
    var s := Open(log).value;
    InitDbSound(log);
    assert PointsAt(log, s.keyDir[key], key);
  }
}
