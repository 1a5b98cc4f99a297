/** How the log written by `set` and the KeyDir rebuilt by `__init_db` fit
    together (disk_store.py).

    A log written from an empty file is the concatenation of its records'
    encodings (`Serialize`). Its KeyDir (`IndexOf`) maps each key to the
    offset of that key's last record, and the values the store should answer
    are those of a plain dictionary updated by every write in order
    (`Contents`). The main results are that scanning such a log rebuilds
    exactly the KeyDir the writes maintained, so reopening loses nothing, and
    that every `get` answers what the dictionary holds. */
module Recovery {
  import opened Wrappers
  import opened Format
  import opened DiskStore

  /** The log holding `recs`, written in order from an empty file. */
  function Serialize(recs: seq<Record>): (log: seq<Byte>)
    ensures |log| >= HEADER_SIZE * |recs|
  {
    if recs == [] then [] else Serialize(recs[..|recs| - 1]) + EncodeRecord(recs[|recs| - 1])
  }

  /** The KeyDir `set` maintains while writing `recs`: each key at the offset
      of its last record. */
  function IndexOf(recs: seq<Record>): KeyDir {
    if recs == [] then map[]
    else
      var before := recs[..|recs| - 1];
      IndexOf(before)[recs[|recs| - 1].key := |Serialize(before)|]
  }

  /** The dictionary the writes of `recs` describe: later writes overwrite
      earlier ones. */
  function Contents(recs: seq<Record>): map<seq<Byte>, seq<Byte>> {
    if recs == [] then map[]
    else Contents(recs[..|recs| - 1])[recs[|recs| - 1].key := recs[|recs| - 1].value]
  }

  /** What `get` answers for a dictionary: the value, or `""` when absent. */
  function Lookup(m: map<seq<Byte>, seq<Byte>>, key: seq<Byte>): seq<Byte> {
    if key in m then m[key] else []
  }

  /** The store's log and KeyDir are those of writing `recs` from empty. */
  predicate Represents(s: Store, recs: seq<Record>) {
    s.log == Serialize(recs) && s.keyDir == IndexOf(recs)
  }

  lemma SerializeSnoc(recs: seq<Record>, r: Record)
    ensures Serialize(recs + [r]) == Serialize(recs) + EncodeRecord(r)
    ensures IndexOf(recs + [r]) == IndexOf(recs)[r.key := |Serialize(recs)|]
    ensures Contents(recs + [r]) == Contents(recs)[r.key := r.value]
  {
    assert (recs + [r])[..|recs|] == recs;
  }

  // ---------------------------------------------------------------------
  // Scanning

  /** A log that scans from `cursor` lets the scan of any longer log with the
      same bytes reach the old end-of-file with the same KeyDir and carry on
      from there. */
  lemma {:induction false} ScanExtends(log: seq<Byte>, longer: seq<Byte>, cursor: nat, keyDir: KeyDir)
    requires log <= longer
    requires cursor <= |log|
    requires ScanFrom(log, cursor, keyDir).Success?
    ensures ScanFrom(longer, cursor, keyDir) == ScanFrom(longer, |log|, ScanFrom(log, cursor, keyDir).value)
    decreases |log| - cursor
  {
    if cursor < |log| {
      var next, keyDir' := ScanStepBoth(log, longer, cursor, keyDir);
      ScanExtends(log, longer, next, keyDir');
    }
  }

  /** One step of the scan, taken in a log and in a longer log alike. */
  lemma ScanStepBoth(log: seq<Byte>, longer: seq<Byte>, cursor: nat, keyDir: KeyDir) returns (next: nat, keyDir': KeyDir)
    requires log <= longer
    requires cursor < |log|
    requires ScanFrom(log, cursor, keyDir).Success?
    ensures cursor < next <= |log|
    ensures ScanFrom(log, cursor, keyDir) == ScanFrom(log, next, keyDir')
    ensures ScanFrom(longer, cursor, keyDir) == ScanFrom(longer, next, keyDir')
  {
    var rec := RecordAt(log, cursor).value;
    next, keyDir' := cursor + RecordSize(rec), keyDir[rec.key := cursor];
    ScanStep(log, cursor, keyDir, rec);
    RecordAtPrefix(log, longer, cursor);
    ScanStep(longer, cursor, keyDir, rec);
  }

  /** Scanning a log written from empty yields exactly the KeyDir its writes
      maintained. */
  lemma {:induction false} ScanSerialized(recs: seq<Record>)
    ensures ScanFrom(Serialize(recs), 0, map[]) == Success(IndexOf(recs))
  {
    if recs != [] {
      var before, last := recs[..|recs| - 1], recs[|recs| - 1];
      var prefix := Serialize(before);
      ScanSerialized(before);
      ScanExtends(prefix, prefix + EncodeRecord(last), 0, map[]);
      RecordAtEnd(prefix, last);
      ScanStep(prefix + EncodeRecord(last), |prefix|, IndexOf(before), last);
    }
  }

  /** `__init_db` on a log written from empty rebuilds the writes' KeyDir. */
  lemma InitDbSerialized(recs: seq<Record>)
    ensures InitDb(Serialize(recs)) == Success(IndexOf(recs))
  {
    ScanSerialized(recs);
  }

  /** A record found right after a written prefix extends that prefix by one
      write. */
  lemma PrefixGrows(log: seq<Byte>, cursor: nat, recs: seq<Record>, rec: Record)
    requires cursor <= |log|
    requires log[..cursor] == Serialize(recs)
    requires RecordAt(log, cursor) == Success(rec)
    ensures cursor == |Serialize(recs)|
    ensures log[..cursor + RecordSize(rec)] == Serialize(recs + [rec])
    ensures IndexOf(recs + [rec]) == IndexOf(recs)[rec.key := cursor]
  {
    var next := cursor + RecordSize(rec);
    RecordAtDecodes(log, cursor, rec);
    SerializeSnoc(recs, rec);
    assert log[..next] == log[..cursor] + log[cursor..next];
  }

  /** Conversely, a log that scans from a record boundary is, as a whole, a
      sequence of records, and the scan's KeyDir is theirs. */
  lemma {:induction false} ScanComplete(log: seq<Byte>, cursor: nat, recs: seq<Record>)
    requires cursor <= |log|
    requires log[..cursor] == Serialize(recs)
    requires ScanFrom(log, cursor, IndexOf(recs)).Success?
    ensures exists all :: log == Serialize(all) && ScanFrom(log, cursor, IndexOf(recs)).value == IndexOf(all)
    decreases |log| - cursor
  {
    if cursor < |log| {
      var rec := RecordAt(log, cursor).value;
      var next := ScanCompleteStep(log, cursor, recs, rec);
      ScanComplete(log, next, recs + [rec]);
    } else {
      assert log == log[..cursor];
    }
  }

  /** One step of the scan over a log whose first `cursor` bytes are written
      records: the record found there is one more write. */
  lemma ScanCompleteStep(log: seq<Byte>, cursor: nat, recs: seq<Record>, rec: Record) returns (next: nat)
    requires cursor < |log|
    requires log[..cursor] == Serialize(recs)
    requires RecordAt(log, cursor) == Success(rec)
    ensures cursor < next <= |log|
    ensures log[..next] == Serialize(recs + [rec])
    ensures ScanFrom(log, cursor, IndexOf(recs)) == ScanFrom(log, next, IndexOf(recs + [rec]))
  {
    next := cursor + RecordSize(rec);
    ScanStep(log, cursor, IndexOf(recs), rec);
    PrefixGrows(log, cursor, recs, rec);
  }

  /** Every store opened from a log that is empty or at least 10 bytes long
      is the store of some sequence of writes. */
  lemma OpenRepresents(log: seq<Byte>)
    requires Open(log).Success?
    requires |log| == 0 || MIN_SCAN_SIZE <= |log|
    ensures exists recs :: Represents(Open(log).value, recs)
  {
    if |log| == 0 {
      assert Represents(Open(log).value, []);
    } else {
      assert log[..0] == Serialize([]);
      assert IndexOf([]) == map[];
      ScanComplete(log, 0, []);
      var all :| log == Serialize(all) && ScanFrom(log, 0, map[]).value == IndexOf(all);
      assert Represents(Open(log).value, all);
    }
  }

  /** A record cut short, with nothing after it, does not decode. */
  lemma RecordAtTruncated(prefix: seq<Byte>, r: Record, kept: nat)
    requires 0 < kept < RecordSize(r)
    ensures RecordAt(prefix + EncodeRecord(r)[..kept], |prefix|).Failure?
  {
    var log := prefix + EncodeRecord(r)[..kept];
    if RecordAt(log, |prefix|).Success? {
      var r' := RecordAt(log, |prefix|).value;
      RecordAtDecodes(log, |prefix|, r');
      assert EncodeRecord(r') == log[|prefix|..|prefix| + RecordSize(r')];
      assert EncodeRecord(r') == EncodeRecord(r)[..RecordSize(r')];
      EncodingPrefixFree(r', r);
      assert false;
    }
  }

  /** A scan that reaches a position where no record decodes fails. */
  lemma ScanFailsAfter(log: seq<Byte>, longer: seq<Byte>)
    requires log <= longer && |log| < |longer|
    requires ScanFrom(log, 0, map[]).Success?
    requires RecordAt(longer, |log|).Failure?
    ensures ScanFrom(longer, 0, map[]).Failure?
  {
    ScanExtends(log, longer, 0, map[]);
    ScanStops(longer, |log|, ScanFrom(log, 0, map[]).value);
  }

  /** A log whose last record is cut short fails to open instead of yielding
      a partial KeyDir (unless fewer than 10 bytes remain). */
  lemma TruncatedTailFails(recs: seq<Record>, cut: nat)
    requires recs != []
    requires 0 < cut < RecordSize(recs[|recs| - 1])
    requires |Serialize(recs)| - cut >= MIN_SCAN_SIZE
    ensures InitDb(Serialize(recs)[..|Serialize(recs)| - cut]).Failure?
  {
    var before, last := recs[..|recs| - 1], recs[|recs| - 1];
    var prefix, enc := Serialize(before), EncodeRecord(last);
    var kept := |enc| - cut;
    var log := Serialize(recs)[..|Serialize(recs)| - cut];
    assert log == prefix + enc[..kept];
    ScanSerialized(before);
    RecordAtTruncated(prefix, last, kept);
    ScanFailsAfter(prefix, log);
  }

  // ---------------------------------------------------------------------
  // The store against its writes

  /** Every KeyDir entry of a written log points at its key's last record,
      which holds the value the dictionary of the writes holds. */
  lemma {:induction false} IndexSound(recs: seq<Record>, key: seq<Byte>)
    ensures key in IndexOf(recs) <==> key in Contents(recs)
    ensures key in IndexOf(recs) ==>
              && PointsAt(Serialize(recs), IndexOf(recs)[key], key)
              && RecordAt(Serialize(recs), IndexOf(recs)[key]).value.value == Contents(recs)[key]
  {
    if recs != [] {
      var before, last := recs[..|recs| - 1], recs[|recs| - 1];
      IndexSound(before, key);
      if last.key == key {
        RecordAtEnd(Serialize(before), last);
      } else if key in IndexOf(before) {
        RecordAtExtend(Serialize(before), EncodeRecord(last), IndexOf(before)[key]);
      }
    }
  }

  /** An open store of a written log answers every `get` as the dictionary of
      the writes does. */
  lemma RepresentsGet(s: Store, recs: seq<Record>, key: seq<Byte>)
    requires Represents(s, recs)
    requires s.isOpen
    ensures Get(s, key) == Success(Lookup(Contents(recs), key))
  {
    IndexSound(recs, key);
  }

  /** `set` on a store of a written log gives the store of that log plus one
      more write. */
  lemma SetExtends(s: Store, recs: seq<Record>, timestamp: int, key: seq<Byte>, value: seq<Byte>)
    requires Represents(s, recs)
    requires Set(s, timestamp, key, value).Success?
    ensures Represents(Set(s, timestamp, key, value).value, recs + [Record(timestamp, key, value)])
  {
    SerializeSnoc(recs, Record(timestamp, key, value));
  }

  /** Closing and reopening a store of a written log gives the same store. */
  lemma RepresentsReopen(s: Store, recs: seq<Record>)
    requires Represents(s, recs)
    ensures Open(Close(s).log) == Success(s.(isOpen := true))
  {
    InitDbSerialized(recs);
  }

  // ---------------------------------------------------------------------
  // Sessions of writes from a fresh file

  /** One call `set(key, value)` made at time `timestamp`. */
  datatype SetCall = SetCall(timestamp: int, key: seq<Byte>, value: seq<Byte>)

  /** The store opened on a file that did not exist. */
  const Fresh: Store := Store([], map[], true)

  /** The calls made in order; a call that raises leaves the store as it was. */
  function Run(s: Store, calls: seq<SetCall>): Store {
    if calls == [] then s
    else
      var before := Run(s, calls[..|calls| - 1]);
      var c := calls[|calls| - 1];
      match Set(before, c.timestamp, c.key, c.value)
      case Success(after) => after
      case Failure(_) => before
  }

  /** The records the calls append to an open store: those `encode_kv` accepts. */
  function Written(calls: seq<SetCall>): seq<Record> {
    if calls == [] then []
    else
      var c := calls[|calls| - 1];
      Written(calls[..|calls| - 1])
        + (if Encodable(c.timestamp, c.key, c.value) then [Record(c.timestamp, c.key, c.value)] else [])
  }

  /** Any session from a fresh file keeps the store open and its log and KeyDir
      those of the records it wrote. */
  lemma {:induction false} RunRepresents(calls: seq<SetCall>)
    ensures Run(Fresh, calls).isOpen
    ensures Represents(Run(Fresh, calls), Written(calls))
  {
    if calls != [] {
      var init, c := calls[..|calls| - 1], calls[|calls| - 1];
      RunRepresents(init);
      var before := Run(Fresh, init);
      if Encodable(c.timestamp, c.key, c.value) {
        SetExtends(before, Written(init), c.timestamp, c.key, c.value);
      } else {
        assert Written(calls) == Written(init);
      }
    }
  }

  /** The reopen property: closing the store of any session from a fresh file
      and opening the file again rebuilds exactly the KeyDir the session's
      `set`s maintained, so every `get` answers as before. */
  lemma ReopenAfterRun(calls: seq<SetCall>)
    ensures Open(Close(Run(Fresh, calls)).log) == Success(Run(Fresh, calls))
  {
    RunRepresents(calls);
    RepresentsReopen(Run(Fresh, calls), Written(calls));
  }

  /** After any session from a fresh file, `get(key)` returns the value of the
      last accepted `set` of `key`, or `""` when there was none. */
  lemma GetAfterRun(calls: seq<SetCall>, key: seq<Byte>)
    ensures Get(Run(Fresh, calls), key) == Success(Lookup(Contents(Written(calls)), key))
  {
    RunRepresents(calls);
    RepresentsGet(Run(Fresh, calls), Written(calls), key);
  }
}
