# py-caskdb in Dafny

A model of the core of py-caskdb, a Bitcask-style key-value store kept in one
append-only log file, with proofs about it.

- `wrappers.dfy`, module `Wrappers`: `Result`, which stands
  for a Python call that either returns a value or raises.
- `format.dfy`, module `Format`: the record codec of `format.py`.
  - A record is a 12-byte header (timestamp, key size, value size as three
    unsigned 32-bit integers), then the key bytes, then the value bytes.
  - `EncodeHeader`, `DecodeHeader`, `EncodeKv` and `DecodeKv` follow
    `encode_header`, `decode_header`, `encode_kv` and `decode_kv`, including
    the `struct` errors.
  - Packing a field that does not fit in 32 unsigned bits raises `OutOfRange`.
  - Unpacking a buffer of the wrong length raises `SizeMismatch`.
- `disk_store.dfy`, module `DiskStore`: the engine `DiskStorage` of
  `disk_store.py`.
  - The log file is a byte sequence. The KeyDir maps each key to the offset of
    that key's latest record.
  - A `Store` is the log, the KeyDir and whether the file handle is open.
  - `Open` runs `__init_db` (`InitDb`, a function over the scan `ScanFrom`).
    `LoadKeyDir` is the same scan written as the source's cursor loop and
    proved equal to `InitDb`.
  - `Set` appends a record and points the key at the old end-of-file.
  - `Get` returns `""` for a key the KeyDir lacks and reads nothing. Otherwise
    it decodes the record at the key's offset (`RecordAt`).
  - `Close` clears the open flag. I/O on a closed file raises `ClosedFile`,
    which is Python's `ValueError`.
- `recovery.dfy`, module `Recovery`: how the log that `set` writes and the
  KeyDir that `__init_db` rebuilds fit together.
  - `Serialize(recs)` is a log written from an empty file.
  - `IndexOf(recs)` is the KeyDir `set` maintained while writing it.
  - `Contents(recs)` is the plain dictionary those writes describe.
  - The main results:
    - Reopening a closed store rebuilds exactly the store the session built (`ReopenAfterRun`).
    - After any session, `get` answers what the dictionary holds (`GetAfterRun`).
    - Every store that opens from an empty or 10-byte-plus log is the store of some writes (`OpenRepresents`).
    - A log whose last record is cut short does not open (`TruncatedTailFails`).

Bytes are integers 0..255 (`Format.Byte`). Keys and values are byte strings.
The header uses little-endian byte order.

Two behaviours of `disk_store.py` worth knowing:

- `__init_db` skips logs shorter than 10 bytes (disk_store.py:77), which is
  less than `HEADER_SIZE`. A log of 1..9 bytes opens with an empty KeyDir; a
  log of 10 or 11 bytes fails to open, because its header read comes back
  short (`InitDb`'s second `ensures`).
- `get` returns `""` for an absent key, even after `close`, because it does
  not touch the file (disk_store.py:101-103).

## Model

| member | source | states |
|---|---|---|
| Format.DecodeEncodeU32 | format.py:46 | unpacking the four bytes `struct` packs for an unsigned 32-bit integer gives the integer back |
| Format.EncodeDecodeU32 | format.py:69 | every four bytes are the packing of the integer they unpack to |
| Format.EncodeHeader | format.py:45-46 | packing succeeds exactly when all three fields fit in 32 unsigned bits, and then yields 12 bytes; otherwise it raises |
| Format.DecodeHeader | format.py:68-70 | unpacking succeeds exactly on a 12-byte buffer; any other length raises a size error naming 12 and the actual length |
| Format.HeaderRoundTrip | format.py:45-70 | `decode_header(encode_header(t, ks, vs)) == (t, ks, vs)` for every in-range triple |
| Format.HeaderDecodeEncode | format.py:45-70 | every 12-byte buffer is the encoding of the header it decodes to, so the header codec is a bijection |
| Format.HeaderBytesInjective | format.py:45-46 | different headers never share their 12 bytes |
| Format.EncodeKv | format.py:49-57 | encoding succeeds exactly when timestamp and both lengths fit; the length it returns equals the length of the bytes; those bytes are the encoded header, then the key, then the value |
| Format.DecodeKv | format.py:60-65 | decoding succeeds exactly when the buffer holds a header and then exactly the body length it declares; the result's header encodes to the first 12 bytes and its key followed by its value are the remaining bytes |
| Format.RecordRoundTrip | format.py:49-65 | decoding the bytes of any record gives that record back |
| Format.DecodedIsEncoding | format.py:49-65 | any buffer that decodes is byte-for-byte the encoding of what it decodes to |
| Format.KvRoundTrip | format.py:49-65 | `decode_kv(encode_kv(t, k, v)[1]) == (t, k, v)` whenever `encode_kv` succeeds |
| Format.KvDecodeEncode | format.py:49-65 | `encode_kv` of a decoded triple reproduces the buffer and its length |
| Format.EncodingPrefixFree | format.py:49-57 | no record's encoding is a proper prefix of another's, so consecutive records can be split apart unambiguously |
| DiskStore.ReadAt | disk_store.py:105-109 | `seek` then `read(n)` returns the bytes stored from that offset on: all n when the file is long enough, every remaining byte when it ends first, none when the offset lies past the end |
| DiskStore.RecordAt | disk_store.py:105-110 | a record read at an offset lies wholly inside the file |
| DiskStore.RecordAtIsEncoding | disk_store.py:105-110 | a record read at an offset is exactly the bytes stored there |
| DiskStore.EncodingIsRecordAt | disk_store.py:105-110 | the encoding of a record stored at an offset reads back as that record |
| DiskStore.RecordAtDecodes | disk_store.py:105-110 | reading at an offset yields record r if and only if the encoding of r is stored there |
| DiskStore.RecordAtExtend | disk_store.py:92-110 | appending bytes never changes what an existing record reads as |
| DiskStore.RecordAtPrefix | disk_store.py:92-110 | a record that reads in a log reads the same in any longer log that begins with it |
| DiskStore.RecordAtEnd | disk_store.py:92-110 | the record appended last reads back from the old end-of-file |
| DiskStore.ScanFrom | disk_store.py:80-90 | the scan never drops an entry of the KeyDir it starts from |
| DiskStore.ScanStep | disk_store.py:82-90 | when a record decodes at the cursor, the scan points its key at the cursor and continues just past it |
| DiskStore.ScanStops | disk_store.py:82-90 | a position where no record decodes stops the scan with that decoding error |
| DiskStore.ScanSound | disk_store.py:82-90 | the scan only ever points a key at a well-formed record of that key |
| DiskStore.InitDb | disk_store.py:74-90 | a log shorter than 10 bytes gives an empty KeyDir; a log of 10 or 11 bytes fails |
| DiskStore.InitDbSound | disk_store.py:74-90 | every entry of a rebuilt KeyDir points at a record of its own key |
| DiskStore.LoadKeyDir | disk_store.py:74-90 | the cursor loop of `__init_db` computes the same KeyDir or error as the scan |
| DiskStore.Open | disk_store.py:67-72 | opening succeeds exactly when the KeyDir rebuild does, and then holds the file's bytes, the rebuilt KeyDir and an open handle; an empty file opens as the empty store |
| DiskStore.Close | disk_store.py:113-114 | closing releases the handle and keeps the bytes and the KeyDir |
| DiskStore.Set | disk_store.py:92-98 | `set` succeeds exactly on an open store with an encodable record; the old log is an untouched prefix of the new one, the appended bytes are `encode_kv`'s, the key points at the old end-of-file, and no other key's entry changes; on a closed store it raises |
| DiskStore.Get | disk_store.py:100-111 | an absent key gives `""` without reading, even when closed; a present key on a closed store raises; otherwise `get` succeeds exactly when the record at the key's offset decodes, and returns its value |
| DiskStore.SetThenGet | disk_store.py:92-111 | after `set(k, v)`, `get(k)` returns v |
| DiskStore.LastWriteWins | disk_store.py:92-111 | after `set(k, v1)` and `set(k, v2)`, `get(k)` returns v2, and both records stay readable at their offsets |
| DiskStore.SetKeepsOtherGets | disk_store.py:92-111 | `set(k, v)` does not change a successful `get` of any other key |
| DiskStore.SetKeepsSound | disk_store.py:92-111 | `set` keeps the KeyDir invariant: every entry points at a well-formed record of its own key |
| DiskStore.OpenedGetSucceeds | disk_store.py:74-111 | a store opened from any log answers `get` for every key it indexed |
| Recovery.ScanExtends | disk_store.py:80-90 | scanning a longer log that begins with a scannable one reaches the old end-of-file with the same KeyDir and continues from there |
| Recovery.ScanStepBoth | disk_store.py:82-90 | the cursor strictly advances, within the log, and the step is the same in any longer log |
| Recovery.ScanSerialized | disk_store.py:74-98 | scanning a log written by `set` from an empty file rebuilds exactly the KeyDir `set` maintained: each key at the offset of its last record |
| Recovery.InitDbSerialized | disk_store.py:74-98 | `__init_db` on such a log succeeds with exactly that KeyDir |
| Recovery.PrefixGrows | disk_store.py:82-90 | a record found right after a run of written records extends the run by one write |
| Recovery.ScanCompleteStep | disk_store.py:82-90 | a scan step over written records advances the cursor and adds one write |
| Recovery.ScanComplete | disk_store.py:74-90 | a log that scans is, as a whole, a sequence of records, and the scan's KeyDir is the one those writes maintain |
| Recovery.OpenRepresents | disk_store.py:67-90 | every store opened from an empty or 10-byte-plus log is the store of some sequence of writes |
| Recovery.RecordAtTruncated | disk_store.py:83-86 | a record cut short at end-of-file does not decode |
| Recovery.ScanFailsAfter | disk_store.py:82-86 | a scan that reaches a position where nothing decodes fails |
| Recovery.TruncatedTailFails | disk_store.py:74-90 | a written log whose last record is cut short fails to open (when 10 or more bytes remain) instead of giving a partial KeyDir |
| Recovery.IndexSound | disk_store.py:92-111 | a key is indexed exactly when it was written; its entry points at its last record, which holds the last value written |
| Recovery.RepresentsGet | disk_store.py:100-111 | an open store of written records answers every `get` as the dictionary of those writes does, `""` for absent keys |
| Recovery.SetExtends | disk_store.py:92-98 | `set` on the store of some writes gives the store of those writes plus one |
| Recovery.RepresentsReopen | disk_store.py:67-90 | closing and reopening the store of some writes gives back the same store |
| Recovery.RunRepresents | disk_store.py:92-98 | any session of `set` calls from a fresh file keeps the store open and equal to the store of the records it accepted |
| Recovery.ReopenAfterRun | disk_store.py:67-114 | after any session from a fresh file, close and reopen rebuild exactly the KeyDir that `set` maintained |
| Recovery.GetAfterRun | disk_store.py:92-111 | after any session from a fresh file, `get(k)` returns the last accepted value for k, or `""` when there was none |

## Left out

- File I/O. The file is its byte sequence.
  - `open(file_name, "a")` creating a missing file is opening the empty sequence.
  - Persistence between processes is `Close` followed by `Open` on the same bytes.
  - Partial writes, I/O errors and concurrent writers are not modelled.
- `time.time()`. The timestamp is a parameter of `Set`.
  - The `int()` truncation of the float clock is not modelled.
  - A timestamp outside 32 unsigned bits makes `encode_kv` raise, as `struct.pack` would.
- Text encoding. Keys and values are byte strings, so `str.encode()`/`bytes.decode()` and UTF-8 decoding errors are out.
  - The source sizes the `{}s` formats by character count, not byte count. The two differ for non-ASCII text; that difference is not modelled.
- `struct`'s native byte order and alignment are fixed to little-endian with 4-byte fields (12-byte header).
- `__setitem__` and `__getitem__` only forward to `set` and `get`.
- `constants.py` is not part of this model. Its `HEADER_SIZE = 12` is `Format.HEADER_SIZE`.
- Recovery.TruncatedTailFails: covers a cut inside the last record of a log written from empty. It does not cover arbitrary corruption in the middle of a log.
- Recovery.OpenRepresents: excludes logs of 1..9 bytes. They open with an empty KeyDir although no sequence of writes produces them.
- DiskStore.LoadKeyDir: reads each record through `RecordAt`, the same helper `get` uses. It advances the cursor by the decoded key and value lengths, which equal the header's sizes once `decode_kv` has succeeded.
