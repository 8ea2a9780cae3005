# synergy clipboard marshalling, modelled in Dafny

This project models the static helpers of synergy's `IClipboard`. These are
the operations that move a clipboard's contents between machines and between
local clipboard instances:

- `readUInt32` and `writeUInt32` read and write the big-endian 32-bit
  integers that the wire format is built from.
- `marshall` snapshots every held format into one buffer. The buffer is a
  4-byte count, then for each format in ascending order a 4-byte id, a
  4-byte length and the payload bytes.
- `unmarshall` opens a destination clipboard, empties it and walks such a
  buffer record by record. It adds the payload of every known format and
  skips any record whose id this build does not know. It then closes the
  clipboard.
- `copy(dst, src, time)` and `copy(dst, src)` move every held format from
  one clipboard to another through the open/empty/has/get/add/close calls.

The model has four modules:

- `ByteOrder` (`byte_order.dfy`) holds the byte and 32-bit types, the
  reader as a function and the writer as a method that appends to a byte
  string in place.
- `Clipboards` (`clipboard.dfy`) holds the format set (`kNumFormats` = 3),
  the ascending walk over held formats, and a `Clipboard` class. The class
  realises the capability contract the operations rely on:
  - `open` refuses a nested open;
  - `empty` may be refused by the platform;
  - `get` is recorded in a ghost fetch log;
  - `add` stores or replaces a payload.
- `WireFormat` (`wire_format.dfy`) is the reference definition of the
  buffer. It contains the encoder, a decoder (`ScanRecords`, `Store` and
  `Decode`) and the lemmas that tie them together: round trip, layout,
  length, unknown-format skipping and the cursor walk.
- `ClipboardOps` (`clipboard_ops.dfy`) holds the operations themselves as
  imperative methods. Each source loop is a `while` loop with its
  invariants, proved against the `WireFormat` functions.

The source performs no bounds check when it reads a buffer. `Unmarshall`
models that code as written, so it requires a well-formed buffer.
`UnmarshallChecked` is the corrected version: it checks every read against
the end of the buffer and reports whether the whole buffer was read (see
"## Findings"). Both follow the code in ignoring the result of `empty()`
and storing the records on top of whatever the clipboard still holds.
Treating a failed `empty()` as fatal would be a change to the code, which
neither `Unmarshall` nor `UnmarshallChecked` makes.

## Model

| member | source | states |
|---|---|---|
| ByteOrder.EncodeUInt32 | src/lib/synergy/IClipboard.cpp:198-205 | writeUInt32 emits exactly four bytes |
| ByteOrder.EncodeUInt32Reads | src/lib/synergy/IClipboard.cpp:188-205 | reading back the four bytes written for `v` gives `v` |
| ByteOrder.ReadUInt32Encodes | src/lib/synergy/IClipboard.cpp:188-196 | any four bytes are the encoding of the value read from them, so reader and writer are inverse bijections |
| ByteOrder.ReadUInt32OfEncoded | src/lib/synergy/IClipboard.cpp:188-196 | readUInt32 depends only on the four bytes at the cursor: a buffer holding `EncodeUInt32(v)` there reads as `v` |
| ByteOrder.WriteUInt32 | src/lib/synergy/IClipboard.cpp:198-205 | appends exactly the big-endian bytes of `v` to the string and changes nothing else |
| Clipboards.HeldBelowFacts | src/lib/synergy/IClipboard.cpp:116-123 | the loop `format = 0 .. kNumFormats` gated by `has` visits exactly the held formats, each once, strictly ascending |
| Clipboards.HeldBelowBounded | src/lib/synergy/IClipboard.cpp:116-123 | the formats visited below `f` number at most `f`, and each is held and below `f` |
| Clipboards.HeldBelowAscending | src/lib/synergy/IClipboard.cpp:116-123 | the formats are visited in strictly ascending order |
| Clipboards.HeldBelowComplete | src/lib/synergy/IClipboard.cpp:116-123 | every held format below `f` is visited |
| Clipboards.HeldCount | src/lib/synergy/IClipboard.cpp:115-118 | the formats visited number exactly the formats held, which is the `numFormats` the loop counts |
| Clipboards.HeldBelowCount | src/lib/synergy/IClipboard.cpp:115-118 | after `f` iterations, the count equals the number of held formats below `f` |
| Clipboards.Clipboard.Open | src/lib/synergy/IClipboard.cpp:34 | open succeeds exactly when no session is open and the platform grants it; success opens one session at the given time, failure changes nothing |
| Clipboards.Clipboard.Close | src/lib/synergy/IClipboard.cpp:63 | close ends the open session |
| Clipboards.Clipboard.Empty | src/lib/synergy/IClipboard.cpp:36 | empty clears every format when the platform allows it and reports whether it did; otherwise the contents stay |
| Clipboards.Clipboard.Has | src/lib/synergy/IClipboard.cpp:117 | has is membership of the format |
| Clipboards.Clipboard.Get | src/lib/synergy/IClipboard.cpp:119-120 | get returns the held payload and logs the fetch |
| Clipboards.Clipboard.Add | src/lib/synergy/IClipboard.cpp:57 | add stores or replaces the payload of one format and leaves the others alone |
| Clipboards.Clipboard.GetTime | src/lib/synergy/IClipboard.cpp:149 | getTime reports the clipboard's time |
| WireFormat.EncodeRecords | src/lib/synergy/IClipboard.cpp:130-136 | the encoded records take the sum of 8 + payload length bytes |
| WireFormat.Encode | src/lib/synergy/IClipboard.cpp:113-136 | a buffer is 4 + the sum of 8 + payload length bytes long, which is the `size` marshall reserves |
| WireFormat.ScanRecords | src/lib/synergy/IClipboard.cpp:43-60 | the record walk reads at most `count` records, all `count` when it completes, each with a payload that fits a 32-bit length |
| WireFormat.WalkStart | src/lib/synergy/IClipboard.cpp:39-40 | after the count the cursor stands at offset 4 with the count's worth of records to read |
| WireFormat.WalkFits | src/lib/synergy/IClipboard.cpp:44-59 | in a well-formed buffer, every header and payload the loop reads lies inside the buffer |
| WireFormat.WalkStep | src/lib/synergy/IClipboard.cpp:44-59 | one iteration reads id and length, takes `length` payload bytes and moves the cursor past them |
| WireFormat.WalkNext | src/lib/synergy/IClipboard.cpp:44-59 | the same step, with the id, length, payload and next cursor as the loop computes them |
| WireFormat.WalkTruncated | src/lib/synergy/IClipboard.cpp:44-59 | a header or payload that runs past the end stops the walk, incomplete, with the records read so far |
| WireFormat.WalkEnd | src/lib/synergy/IClipboard.cpp:43 | when the count is used up, the walk has read the whole buffer's records, complete |
| WireFormat.StoreNext | src/lib/synergy/IClipboard.cpp:56-58 | a record with a known id adds or replaces that format; a record with an unknown id changes nothing |
| WireFormat.StoreSnoc | src/lib/synergy/IClipboard.cpp:56-58 | storing one more record applies it on top of the earlier ones |
| WireFormat.StoreAppend | src/lib/synergy/IClipboard.cpp:43-60 | storing two runs of records is storing the first, then the second |
| WireFormat.BelowStep | src/lib/synergy/IClipboard.cpp:162-169 | after one more iteration of copy's loop, the part below `g + 1` adds format `g` exactly when it is held |
| WireFormat.SnapshotFits | src/lib/synergy/IClipboard.cpp:116-123 | marshall emits at most one record per format, and every payload fits the 32-bit length field |
| WireFormat.EncodeRecordsAppend | src/lib/synergy/IClipboard.cpp:130-136 | encoding two runs of records is the concatenation of their encodings |
| WireFormat.PayloadsFitAppend | src/lib/synergy/IClipboard.cpp:130-136 | two runs of records both fit exactly when their concatenation fits |
| WireFormat.ReadEncodedRecord | src/lib/synergy/IClipboard.cpp:44-59 | a record written at a cursor reads back as its id, its length and its payload |
| WireFormat.ScanEncodedRecords | src/lib/synergy/IClipboard.cpp:43-60 | walking encoded records recovers them exactly, whatever bytes follow |
| WireFormat.ScanEncode | src/lib/synergy/IClipboard.cpp:39-60 | unmarshall's walk over an encoded buffer, with any trailing bytes, reads back exactly its records, complete |
| WireFormat.StoreSnapshotBelow | src/lib/synergy/IClipboard.cpp:56-58 | storing the records emitted for the formats below `f` into an empty clipboard rebuilds that part of the contents |
| WireFormat.MarshallRoundTrip | src/lib/synergy/IClipboard.cpp:27-141 | the buffer marshall produces for a clipboard unmarshalls to exactly the same format-to-payload map |
| WireFormat.EncodedBelowNext | src/lib/synergy/IClipboard.cpp:130-136 | one iteration of the second loop appends the record of a held format and nothing for any other format |
| WireFormat.EncodedBelowRecords | src/lib/synergy/IClipboard.cpp:113-136 | what the second loop appends is the encoding of the held formats' records, and its length is what the first loop adds to `size` |
| WireFormat.MarshalledSplit | src/lib/synergy/IClipboard.cpp:129-136 | the marshalled buffer is the count of held formats (at most kNumFormats), then their records ascending |
| WireFormat.MarshalledLength | src/lib/synergy/IClipboard.cpp:113-126 | the buffer is exactly as long as the `size` the first loop computes |
| WireFormat.SnapshotIds | src/lib/synergy/IClipboard.cpp:116-136 | the records emitted are, in order, the formats the loop visits, each with its payload verbatim |
| WireFormat.SnapshotContents | src/lib/synergy/IClipboard.cpp:116-136 | one record per held format, strictly ascending, ids below kNumFormats, payloads verbatim, and no held format missing |
| WireFormat.SnapshotComplete | src/lib/synergy/IClipboard.cpp:130-136 | every held format's record, with its payload, appears in what marshall emits |
| WireFormat.MarshalledLayout | src/lib/synergy/IClipboard.cpp:129-136 | the first word is the number of held formats, the buffer is well-formed, and it reads back as the snapshot's records |
| WireFormat.MarshalledEmpty | src/lib/synergy/IClipboard.cpp:114-129 | an empty clipboard marshalls to the four bytes of a zero count |
| WireFormat.MarshalledExample | src/lib/synergy/IClipboard.cpp:129-135 | format 0 holding "hi" marshalls to count 1, id 0, length 2, then 'h' and 'i' |
| WireFormat.SignedFormat | src/lib/synergy/IClipboard.cpp:45-46 | the id as a signed 32-bit cast yields it: the value in [-2^31, 2^31) congruent to the id modulo 2^32, negative exactly for ids of 2^31 and above |
| WireFormat.SignedCastAdmitsHugeIds | src/lib/synergy/IClipboard.cpp:45-57 | under the signed reading, every id of 2^31 or more passes `format < kNumFormats` as a negative format, although it is no known format; StoreRecord skips it |
| WireFormat.CompletesScan | src/lib/synergy/IClipboard.cpp:43-60 | whether the walk stays inside the buffer is decided by headers and lengths alone: `Completes` agrees with ScanRecords' completeness |
| WireFormat.ScanCutRecords | src/lib/synergy/IClipboard.cpp:43-60 | the walk over an encoding of records cut anywhere, in a header or in a payload, does not stay inside the buffer |
| WireFormat.CutStep | src/lib/synergy/IClipboard.cpp:44-59 | over a cut encoding, a whole first record is read with its own length and the cut lies in what follows it |
| WireFormat.CutHeader | src/lib/synergy/IClipboard.cpp:50-51 | a record cut after its header still announces its own payload length |
| WireFormat.CutRest | src/lib/synergy/IClipboard.cpp:59 | past a whole first record, the cut falls inside the remaining records |
| WireFormat.TruncatedEncodeRejected | src/lib/synergy/IClipboard.cpp:39-59 | every strict prefix of an encoded buffer, cut at any byte offset, is not well-formed, so the checked unmarshall reports failure on it |
| WireFormat.TruncatedMarshalledRejected | src/lib/synergy/IClipboard.cpp:39-59 | every strict prefix of a buffer marshall produced is not well-formed |
| WireFormat.SkipsUnknownFormat | src/lib/synergy/IClipboard.cpp:53-59 | inserting a record with an unknown id anywhere in a buffer does not change what it decodes to |
| ClipboardOps.Marshall | src/lib/synergy/IClipboard.cpp:101-141 | when open fails the result is empty and nothing is closed; otherwise the result is `Marshalled(contents)`, one session is opened at time 0 and closed, and each held payload is fetched once, ascending |
| ClipboardOps.MarshallSession | src/lib/synergy/IClipboard.cpp:106-136 | inside the session, the buffer built is `Marshalled(contents)` and each held payload is fetched once, ascending |
| ClipboardOps.FetchFormats | src/lib/synergy/IClipboard.cpp:113-123 | the first loop counts the held formats, computes the final buffer length as `size`, fetches each held payload into its slot, ascending |
| ClipboardOps.WriteRecords | src/lib/synergy/IClipboard.cpp:130-136 | the second loop appends the encoded records of the held formats, ascending |
| ClipboardOps.AppendHeld | src/lib/synergy/IClipboard.cpp:131-135 | one held format in the second loop extends the buffer by exactly that format's record |
| ClipboardOps.WriteRecord | src/lib/synergy/IClipboard.cpp:132-134 | one record appends id, length and payload |
| ClipboardOps.Unmarshall | src/lib/synergy/IClipboard.cpp:27-65 | when open fails nothing changes; otherwise the clipboard ends with the buffer's records stored on top of what `empty` left, one session opened at `time` and closed |
| ClipboardOps.AddRecords | src/lib/synergy/IClipboard.cpp:38-60 | the loop stores every record of the buffer in order, skipping unknown ids |
| ClipboardOps.AddRecord | src/lib/synergy/IClipboard.cpp:44-59 | one iteration reads the record at the cursor (its id, and the payload of the length its header gives), moves the cursor to just past that payload, stores the record if its id is known, and leaves the rest of the walk to go |
| ClipboardOps.UnmarshallChecked | src/lib/synergy/IClipboard.cpp:27-65 | the checked variant accepts any buffer: the result is true exactly when open succeeded and the buffer is well-formed; the records read before any truncation are stored, and the session is closed on every path |
| ClipboardOps.AddRecordsChecked | src/lib/synergy/IClipboard.cpp:38-60 | the checked walk reports exactly whether the whole buffer was read, having stored the records read up to that point |
| ClipboardOps.Copy | src/lib/synergy/IClipboard.cpp:152-186 | src opened, then dst, both at `time`; when both opened and dst was emptied, dst ends with exactly src's contents; the result is true exactly when that happened and src held something; every opened clipboard is closed once; src's contents never change |
| ClipboardOps.CopyFormats | src/lib/synergy/IClipboard.cpp:162-169 | copy's loop adds every held format of src to the emptied dst, fetching each once, ascending, and reports whether any was added |
| ClipboardOps.CopyAtSourceTime | src/lib/synergy/IClipboard.cpp:143-150 | copy without a time is copy at src's own time |
| ClipboardOps.Transfer | src/lib/synergy/IClipboard.cpp:27-141 | unmarshalling into `dst` the buffer marshalled from `src` leaves `dst` holding exactly what `src` holds, when `src` opened and `dst` opened and cleared; `src`'s contents never change. An empty result of marshall, which only a failed open gives, is not passed to unmarshall |
| ClipboardOps.TruncatedBufferOverreads | src/lib/synergy/IClipboard.cpp:39-51 | the buffer `[0, 0, 0, 1]` declares one record but ends after the count: it is not well-formed and the checked walk reads no record from it |

## Left out

- `dump` and the `LOG` calls are logging aids and are not modelled.
- `data.reserve(size)` only sizes an allocation. `FetchFormats` computes `size` as an unbounded integer and proves it equals the final buffer length. The source's `size` is a 32-bit `UInt32` (lines 114 and 121), so the two agree only while the buffer is shorter than 2^32 bytes; past that the source's `size` wraps and only the `reserve` hint is affected.
- Time is an opaque token: open records it as the session time and nothing more.
- The platform clipboard behind `open` and `empty` is two fixed answers on the `Clipboard` class (`lockAvailable`, `clearAllowed`). The real platform's behaviour, concurrency and locking are not modelled.
- Clipboards.Clipboard.constructor: models no line of the source, which never creates a clipboard. It stands in for the platform clipboard: it fixes those two answers and starts closed and empty.
- IClipboard.h is not part of this model. The number of formats, `kNumFormats`, is fixed at 3 here.
- ClipboardOps.Marshall: requires every payload to be shorter than 2^32 bytes, because the source's `(UInt32)` cast of a payload size (line 133; also line 121) would wrap beyond that and that wrap-around is not modelled. `numFormats` is at most kNumFormats and cannot wrap. The requires bounds each payload, not their total: the source's 32-bit `size` wraps once 4 plus the sum of 8 + payload length reaches 2^32 (three payloads of 2^31 bytes, say), which the requires allows. The model's `size` is an unbounded integer there, and the only effect in the source is on the `reserve` hint.
- ClipboardOps.Unmarshall: requires a well-formed buffer. The source reads past the end of a truncated buffer, which has no defined result to model. `UnmarshallChecked` covers every buffer.
- ClipboardOps.Copy: requires `dst` and `src` to be different clipboards. Copying a clipboard onto itself, where `empty` would clear the source too, is not modelled.
- ClipboardOps.CopyAtSourceTime: requires `dst` and `src` to be different clipboards, for the same reason.
- ClipboardOps.Copy: the order of the two close calls is not in the contract. The source closes `dst` (line 176) before `src` (line 180), and the body does the same, but the ghost counters count sessions, not their order.
- The C++ standard fixes no value for the cast of an id outside EFormat's enumerators (lines 45-46), so whether `format < kNumFormats` (line 56) rejects an id of 2^31 or more depends on the compiler. Where the enumeration is a signed 32-bit int, as MSVC makes it, the id turns negative and passes the test. The model's `StoreRecord` compares the id unsigned, so ids of 2^31 and above are unknown formats and are skipped. The signed reading is modelled separately by `SignedFormat` and recorded under "## Findings".
- Update in place of the byte buffer is modelled as a `ByteString` object whose sequence is replaced. Aliasing with other strings is not modelled.

## Findings

| source | as written | input that shows it | evidently intended | confidence | as-written member | corrected member |
|---|---|---|---|---|---|---|
| src/lib/synergy/IClipboard.cpp:39-59 | unmarshall reads the count, each header and each payload without comparing the cursor with the buffer's length | `[0, 0, 0, 1]`: the count is 1, so the header is read at offsets 4 to 11 of a 4-byte buffer | every read is checked against the end of the buffer; a truncated buffer stops the walk, the session is closed and the call reports failure | not executed | ClipboardOps.Unmarshall (its precondition must exclude this buffer; ClipboardOps.TruncatedBufferOverreads shows it is not well-formed) | ClipboardOps.UnmarshallChecked |
| src/lib/synergy/IClipboard.cpp:45-57 | the id is cast to EFormat before the range test; where that cast yields a signed 32-bit value, an id of 2^31 or more becomes negative, passes `format < kNumFormats` and reaches `add` as a negative format | a record whose id bytes are `0x80, 0, 0, 0` (id 2^31) | ids of 2^31 and above are unknown formats, skipped like any id of kNumFormats or more, as the comment at lines 53-55 describes | not executed; depends on the compiler | WireFormat.SignedFormat (with WireFormat.SignedCastAdmitsHugeIds) | WireFormat.StoreRecord (with WireFormat.StoreNext and WireFormat.SkipsUnknownFormat) |
