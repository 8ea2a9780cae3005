/** The marshalled clipboard buffer:
      [u32 count] then count times [u32 format id][u32 length][payload]
    with every integer big-endian. Encoding, the cursor walk that reads a
    buffer back, and what a destination clipboard holds afterwards. */
module WireFormat {
  import opened ByteOrder
  import opened Clipboards

  datatype Option<T> = None | Some(value: T)

  /** One record of the buffer. The id is whatever 32-bit value the peer
      sent; it need not be a format this build knows. */
  datatype Record = Record(id: uint32, payload: Payload)

  /** Every payload length fits the 32-bit length field. */
  predicate PayloadsFit(rs: seq<Record>)
  {
    forall i :: 0 <= i < |rs| ==> |rs[i].payload| < 0x1_0000_0000
  }

  /** The count and every length fit their 32-bit fields. */
  predicate Encodable(rs: seq<Record>)
  {
    |rs| < 0x1_0000_0000 && PayloadsFit(rs)
  }

  /** The wire size of the records alone: the sum of 8 + |payload|. */
  function RecordsSize(rs: seq<Record>): (n: nat)
  {
    if rs == [] then 0 else 8 + |rs[0].payload| + RecordsSize(rs[1..])
  }

  function EncodeRecord(r: Record): (bytes: seq<byte>)
    requires |r.payload| < 0x1_0000_0000
  {
    EncodeUInt32(r.id) + EncodeUInt32(|r.payload|) + r.payload
  }

  function EncodeRecords(rs: seq<Record>): (bytes: seq<byte>)
    requires PayloadsFit(rs)
    ensures |bytes| == RecordsSize(rs)
  {
    if rs == [] then [] else EncodeRecord(rs[0]) + EncodeRecords(rs[1..])
  }

  /** A whole buffer: the record count, then the records. Its length is
      4 + the sum of 8 + |payload|. */
  function Encode(rs: seq<Record>): (bytes: seq<byte>)
    requires Encodable(rs)
    ensures |bytes| == 4 + RecordsSize(rs)
  {
    EncodeUInt32(|rs|) + EncodeRecords(rs)
  }

  /** The outcome of walking a buffer: the records read, in order, and
      whether every declared record fitted in the buffer. */
  datatype Scan = Scan(records: seq<Record>, complete: bool)

  /** Reads `count` records starting at offset `at`: a header of id and
      length, then `length` payload bytes, whether or not the id is known.
      Stops, incomplete, at the first header or payload that would run past
      the end of `data`. Bytes after the last record are never looked at. */
  function ScanRecords(data: seq<byte>, at: nat, count: nat): (s: Scan)
    ensures PayloadsFit(s.records)
    ensures |s.records| <= count
    ensures s.complete ==> |s.records| == count
    decreases count
  {
    if count == 0 then Scan([], true)
    else if |data| < at + 8 then Scan([], false)
    else
      var len := ReadUInt32(data, at + 4);
      if |data| - (at + 8) < len then Scan([], false)
      else
        var rest := ScanRecords(data, at + 8 + len, count - 1);
        Scan([Record(ReadUInt32(data, at), data[at + 8..at + 8 + len])] + rest.records, rest.complete)
  }

  /** Reads the count, then that many records. */
  function ScanBuffer(data: seq<byte>): (s: Scan)
  {
    if |data| < 4 then Scan([], false) else ScanRecords(data, 4, ReadUInt32(data, 0))
  }

  /** The count, every header and every payload lie inside the buffer. */
  predicate WellFormed(data: seq<byte>)
  {
    ScanBuffer(data).complete
  }

  /** The records `done` already read, followed by the rest of a walk. */
  function Resume(done: seq<Record>, s: Scan): (s': Scan)
  {
    Scan(done + s.records, s.complete)
  }

  /** A cursor walk over `data` that has read `done` and stands at `at`
      with `count` records still to read: finishing it from here gives what
      ScanBuffer gives. */
  ghost predicate WalkAt(data: seq<byte>, at: nat, count: nat, done: seq<Record>)
  {
    Resume(done, ScanRecords(data, at, count)) == ScanBuffer(data)
  }

  /** The walk before its first record: just after the count. */
  lemma WalkStart(data: seq<byte>)
    requires 4 <= |data|
    ensures WalkAt(data, 4, ReadUInt32(data, 0), [])
  {
    assert [] + ScanRecords(data, 4, ReadUInt32(data, 0)).records == ScanRecords(data, 4, ReadUInt32(data, 0)).records;
  }

  /** A whole record header, and the payload it announces, lie at `at`. */
  predicate RecordFits(data: seq<byte>, at: nat)
  {
    at + 8 <= |data| && ReadUInt32(data, at + 4) <= |data| - (at + 8)
  }

  /** Where the record at `at` ends: past its 8-byte header and the
      payload length the header announces. */
  function RecordEnd(data: seq<byte>, at: nat): (next: nat)
    requires RecordFits(data, at)
    ensures at + 8 <= next <= |data|
  {
    at + 8 + ReadUInt32(data, at + 4)
  }

  /** The record at `at`: the id in its header and the payload after it. */
  function RecordAt(data: seq<byte>, at: nat): (r: Record)
    requires RecordFits(data, at)
    ensures r.id == ReadUInt32(data, at) && |r.payload| == ReadUInt32(data, at + 4)
  {
    Record(ReadUInt32(data, at), data[at + 8..RecordEnd(data, at)])
  }

  /** In a well-formed buffer, a walk with records still to read has a
      whole header and payload ahead of it. */
  lemma WalkFits(data: seq<byte>, at: nat, count: nat, done: seq<Record>)
    requires WalkAt(data, at, count, done) && WellFormed(data) && 0 < count
    ensures RecordFits(data, at)
  {
    assert ScanRecords(data, at, count).complete;
  }

  /** One step of the cursor walk: with a whole header and payload ahead,
      the record there is the next one read, and the walk resumes after
      its payload. */
  lemma WalkStep(data: seq<byte>, at: nat, count: nat, done: seq<Record>)
    requires 0 < count && RecordFits(data, at)
    ensures var next := at + 8 + ReadUInt32(data, at + 4);
      var r := Record(ReadUInt32(data, at), data[at + 8..next]);
      Resume(done, ScanRecords(data, at, count)) == Resume(done + [r], ScanRecords(data, next, count - 1))
  {
    var next := at + 8 + ReadUInt32(data, at + 4);
    var r := Record(ReadUInt32(data, at), data[at + 8..next]);
    var rest := ScanRecords(data, next, count - 1);
    assert ScanRecords(data, at, count).records == [r] + rest.records;
    assert done + ([r] + rest.records) == (done + [r]) + rest.records;
  }

  /** WalkStep with the header fields, the payload and the next cursor
      given by name. */
  lemma WalkNext(data: seq<byte>, at: nat, count: nat, done: seq<Record>, id: uint32, len: uint32, payload: Payload, next: nat)
    requires WalkAt(data, at, count, done) && 0 < count && at + 8 <= next <= |data|
    requires id == ReadUInt32(data, at) && len == ReadUInt32(data, at + 4)
    requires next == at + 8 + len && payload == data[at + 8..next]
    ensures WalkAt(data, next, count - 1, done + [Record(id, payload)])
  {
    WalkStep(data, at, count, done);
  }

  /** A walk with records still to read stops, incomplete and without
      another record, at a header or payload that runs past the end. */
  lemma WalkTruncated(data: seq<byte>, at: nat, count: nat, done: seq<Record>)
    requires WalkAt(data, at, count, done) && 0 < count && !RecordFits(data, at)
    ensures ScanBuffer(data) == Scan(done, false)
  {
    assert done + [] == done;
  }

  /** A walk with no records left to read is complete. */
  lemma WalkEnd(data: seq<byte>, at: nat, done: seq<Record>)
    requires WalkAt(data, at, 0, done)
    ensures ScanBuffer(data) == Scan(done, true)
  {
    assert done + [] == done;
  }

  /** What `add` does with one record: store it if its id is a known
      format, otherwise leave the clipboard as it is. */
  function StoreRecord(m: map<Format, Payload>, r: Record): (m': map<Format, Payload>)
  {
    if r.id < NumFormats then m[r.id := r.payload] else m
  }

  /** The id as the source's cast to EFormat yields it where that
      enumeration is a signed 32-bit integer: the same bits read in two's
      complement, so ids of 2^31 and above become negative. */
  function SignedFormat(id: uint32): (f: int)
    ensures -0x8000_0000 <= f < 0x8000_0000
    ensures (f - id) % 0x1_0000_0000 == 0
    ensures f < 0 <==> 0x8000_0000 <= id
  {
    if id < 0x8000_0000 then id else id - 0x1_0000_0000
  }

  /** The source's test `format < kNumFormats`, applied to the signed
      reading of the id. */
  predicate KnownAsSigned(id: uint32)
  {
    SignedFormat(id) < NumFormats
  }

  /** Under the signed reading, every id of 2^31 or more passes the test
      and would reach add as a negative format, although it is not a format
      this build knows; StoreRecord skips it. */
  lemma SignedCastAdmitsHugeIds(m: map<Format, Payload>, id: uint32, p: Payload)
    requires 0x8000_0000 <= id
    ensures KnownAsSigned(id) && SignedFormat(id) < 0
    ensures NumFormats <= id && StoreRecord(m, Record(id, p)) == m
  {
  }

  /** The records applied to `m` in buffer order; a later record for the
      same format replaces an earlier one. */
  function Store(m: map<Format, Payload>, rs: seq<Record>): (m': map<Format, Payload>)
    decreases |rs|
  {
    if rs == [] then m else StoreRecord(Store(m, rs[..|rs| - 1]), rs[|rs| - 1])
  }

  /** The format-to-payload map a well-formed buffer carries. */
  function Decode(data: seq<byte>): (decoded: Option<map<Format, Payload>>)
  {
    var s := ScanBuffer(data);
    if s.complete then Some(Store(map[], s.records)) else None
  }

  /** The records of the formats of `m` below `f`, ascending by format:
      what marshall's loops emit after `f` iterations. */
  function SnapshotBelow(m: map<Format, Payload>, f: nat): (rs: seq<Record>)
  {
    if f == 0 then []
    else SnapshotBelow(m, f - 1) + (if f - 1 in m then [Record(f - 1, m[f - 1])] else [])
  }

  /** The records marshall emits for a clipboard holding `m`. */
  function Snapshot(m: map<Format, Payload>): (rs: seq<Record>)
  {
    SnapshotBelow(m, NumFormats)
  }

  /** Every payload length fits the 32-bit length field. */
  predicate Marshallable(m: map<Format, Payload>)
  {
    forall f :: f in m ==> |m[f]| < 0x1_0000_0000
  }

  /** The buffer marshall returns for a clipboard holding `m`. */
  function Marshalled(m: map<Format, Payload>): (bytes: seq<byte>)
    requires Marshallable(m)
  {
    SnapshotFits(m, NumFormats);
    Encode(Snapshot(m))
  }

  /** At most one record per format, each of whose payloads fits. */
  lemma {:induction false} SnapshotFits(m: map<Format, Payload>, f: nat)
    requires Marshallable(m)
    ensures |SnapshotBelow(m, f)| <= f
    ensures PayloadsFit(SnapshotBelow(m, f))
    decreases f
  {
    if f > 0 {
      SnapshotFits(m, f - 1);
      var s := SnapshotBelow(m, f - 1);
      assert forall i :: 0 <= i < |s| ==> SnapshotBelow(m, f)[i] == s[i];
    }
  }

  /** The running `size` of marshall's first loop, less the 4 bytes of the
      count: 8 + |payload| for every held format below `f`. */
  function SizeBelow(m: map<Format, Payload>, f: nat): (n: nat)
  {
    if f == 0 then 0 else SizeBelow(m, f - 1) + (if f - 1 in m then 8 + |m[f - 1]| else 0)
  }

  lemma {:induction false} EncodeRecordsAppend(a: seq<Record>, b: seq<Record>)
    requires PayloadsFit(a) && PayloadsFit(b)
    ensures PayloadsFit(a + b)
    ensures EncodeRecords(a + b) == EncodeRecords(a) + EncodeRecords(b)
  {
    PayloadsFitAppend(a, b);
    if a == [] {
      assert a + b == b;
    } else {
      var ab := a + b;
      assert ab[0] == a[0];
      assert ab[1..] == a[1..] + b;
      PayloadsFitAppend([a[0]], a[1..]);
      assert [a[0]] + a[1..] == a;
      EncodeRecordsAppend(a[1..], b);
    }
  }

  /** Two lists of fitting records join into one, and split back. */
  lemma PayloadsFitAppend(a: seq<Record>, b: seq<Record>)
    ensures PayloadsFit(a + b) <==> PayloadsFit(a) && PayloadsFit(b)
  {
    assert forall i :: 0 <= i < |a| ==> (a + b)[i] == a[i];
    assert forall i :: 0 <= i < |b| ==> (a + b)[|a| + i] == b[i];
  }

  /** `data` holds `piece` at offset `at`. */
  predicate HoldsAt(data: seq<byte>, at: nat, piece: seq<byte>)
  {
    at + |piece| <= |data| && data[at..at + |piece|] == piece
  }

  /** The header and payload of a record encoded at offset `at` read back
      as its id, its length and its payload. */
  lemma ReadEncodedRecord(data: seq<byte>, at: nat, r: Record)
    requires |r.payload| < 0x1_0000_0000
    requires HoldsAt(data, at, EncodeRecord(r))
    ensures at + 8 + |r.payload| <= |data|
    ensures ReadUInt32(data, at) == r.id
    ensures ReadUInt32(data, at + 4) == |r.payload|
    ensures data[at + 8..at + 8 + |r.payload|] == r.payload
  {
    var len := |r.payload|;
    var enc := EncodeRecord(r);
    var window := data[at..at + |enc|];
    assert window == enc;
    assert data[at..at + 4] == window[..4] == enc[..4] == EncodeUInt32(r.id);
    assert |enc| == 8 + len;
    assert forall k :: 0 <= k < |enc| ==> data[at + k] == enc[k];
    assert data[at + 4..at + 8] == window[4..8];
    assert data[at + 4..at + 8] == enc[4..8] == EncodeUInt32(len);
    assert data[at + 8..at + 8 + len] == enc[8..] == r.payload;
    ReadUInt32OfEncoded(data, at, r.id);
    ReadUInt32OfEncoded(data, at + 4, len);
  }

  /** Walking the encoding of `rs`, wherever it sits in a larger buffer,
      yields exactly `rs`. */
  lemma {:induction false} ScanEncodedRecords(data: seq<byte>, at: nat, rs: seq<Record>)
    requires PayloadsFit(rs)
    requires HoldsAt(data, at, EncodeRecords(rs))
    ensures ScanRecords(data, at, |rs|) == Scan(rs, true)
    decreases |rs|
  {
    if rs != [] {
      var r := rs[0];
      var head, rest := EncodeRecord(r), EncodeRecords(rs[1..]);
      var next := at + |head|;
      assert EncodeRecords(rs) == head + rest;
      assert HoldsAt(data, at, head) by {
        assert data[at..next] == (head + rest)[..|head|];
      }
      assert HoldsAt(data, next, rest) by {
        assert data[next..next + |rest|] == (head + rest)[|head|..];
      }
      ReadEncodedRecord(data, at, r);
      ScanEncodedRecords(data, next, rs[1..]);
      assert [r] + rs[1..] == rs;
    }
  }

  /** Reading back an encoded buffer, with any trailing bytes, recovers the
      records exactly. */
  lemma ScanEncode(rs: seq<Record>, tail: seq<byte>)
    requires Encodable(rs)
    ensures ScanBuffer(Encode(rs) + tail) == Scan(rs, true)
  {
    var data := Encode(rs) + tail;
    var count, body := EncodeUInt32(|rs|), EncodeRecords(rs);
    assert data == count + body + tail;
    assert data[..4] == count;
    ReadUInt32OfEncoded(data, 0, |rs|);
    assert data[4..4 + |body|] == body;
    ScanEncodedRecords(data, 4, rs);
  }

  /** `data` ends inside `piece`, which starts at offset `at`: only a
      strict prefix of it is there. */
  predicate CutAt(data: seq<byte>, at: nat, piece: seq<byte>)
  {
    at <= |data| < at + |piece| && data[at..] == piece[..|data| - at]
  }

  /** Whether a walk of `count` records from `at` stays inside `data`:
      ScanRecords' completeness alone, without the records. */
  predicate Completes(data: seq<byte>, at: nat, count: nat)
    decreases count
  {
    count == 0 || (RecordFits(data, at) && Completes(data, at + 8 + ReadUInt32(data, at + 4), count - 1))
  }

  /** Completes is exactly whether ScanRecords completes. */
  lemma {:induction false} CompletesScan(data: seq<byte>, at: nat, count: nat)
    ensures Completes(data, at, count) == ScanRecords(data, at, count).complete
    decreases count
  {
    if 0 < count && RecordFits(data, at) {
      CompletesScan(data, at + 8 + ReadUInt32(data, at + 4), count - 1);
    }
  }

  /** Walking the encoding of `rs` cut short anywhere, in the middle of a
      header or of a payload, stops incomplete. */
  lemma {:induction false} ScanCutRecords(data: seq<byte>, at: nat, rs: seq<Record>)
    requires PayloadsFit(rs)
    requires CutAt(data, at, EncodeRecords(rs))
    ensures !Completes(data, at, |rs|)
    decreases |rs|
  {
    var r := rs[0];
    var head, rest := EncodeRecord(r), EncodeRecords(rs[1..]);
    assert EncodeRecords(rs) == head + rest;
    if RecordFits(data, at) {
      CutStep(data, at, r, rest);
      ScanCutRecords(data, at + |head|, rs[1..]);
    }
  }

  /** A walk over a cut encoding that finds a whole first record moves
      past exactly that record, and the cut falls in what follows. */
  lemma CutStep(data: seq<byte>, at: nat, r: Record, rest: seq<byte>)
    requires |r.payload| < 0x1_0000_0000
    requires CutAt(data, at, EncodeRecord(r) + rest) && RecordFits(data, at)
    ensures at + 8 + ReadUInt32(data, at + 4) == at + |EncodeRecord(r)|
    ensures CutAt(data, at + |EncodeRecord(r)|, rest)
  {
    CutHeader(data, at, r, rest);
    CutRest(data, at, EncodeRecord(r), rest);
  }

  /** A record cut after its header still announces its own length. */
  lemma CutHeader(data: seq<byte>, at: nat, r: Record, rest: seq<byte>)
    requires |r.payload| < 0x1_0000_0000
    requires CutAt(data, at, EncodeRecord(r) + rest) && at + 8 <= |data|
    ensures ReadUInt32(data, at + 4) == |r.payload|
  {
    var head := EncodeRecord(r);
    var w := data[at..];
    assert w == (head + rest)[..|data| - at];
    assert data[at + 4..at + 8] == w[4..8] == (head + rest)[4..8];
    assert (head + rest)[4..8] == head[4..8] == EncodeUInt32(|r.payload|);
    ReadUInt32OfEncoded(data, at + 4, |r.payload|);
  }

  /** Past a whole first piece, the cut falls inside the rest. */
  lemma CutRest(data: seq<byte>, at: nat, head: seq<byte>, rest: seq<byte>)
    requires CutAt(data, at, head + rest) && at + |head| <= |data|
    ensures CutAt(data, at + |head|, rest)
  {
    var n, next := |data| - at, at + |head|;
    var w := data[at..];
    assert w == (head + rest)[..n];
    assert data[next..] == w[|head|..] == (head + rest)[|head|..n];
    assert (head + rest)[|head|..n] == rest[..n - |head|];
  }

  /** Every strict prefix of an encoded buffer, cut at any byte offset, is
      rejected: its count, a header or a payload runs past its end. */
  lemma TruncatedEncodeRejected(rs: seq<Record>, k: nat)
    requires Encodable(rs) && k < |Encode(rs)|
    ensures !WellFormed(Encode(rs)[..k])
  {
    var d := Encode(rs)[..k];
    if 4 <= k {
      var count, body := EncodeUInt32(|rs|), EncodeRecords(rs);
      assert Encode(rs) == count + body;
      assert d[..4] == count;
      ReadUInt32OfEncoded(d, 0, |rs|);
      assert CutAt(d, 4, body) by {
        assert d[4..] == body[..k - 4];
      }
      ScanCutRecords(d, 4, rs);
      CompletesScan(d, 4, |rs|);
    }
  }

  /** Every strict prefix of the buffer marshall produces is rejected. */
  lemma TruncatedMarshalledRejected(m: map<Format, Payload>, k: nat)
    requires Marshallable(m) && k < |Marshalled(m)|
    ensures !WellFormed(Marshalled(m)[..k])
  {
    SnapshotFits(m, NumFormats);
    TruncatedEncodeRejected(Snapshot(m), k);
  }

  lemma {:induction false} StoreAppend(m: map<Format, Payload>, a: seq<Record>, b: seq<Record>)
    ensures Store(m, a + b) == Store(Store(m, a), b)
    decreases |b|
  {
    if b == [] {
      assert a + b == a;
    } else {
      assert (a + b)[..|a + b| - 1] == a + b[..|b| - 1];
      StoreAppend(m, a, b[..|b| - 1]);
    }
  }

  /** Storing one more record: a known format is added or replaced, an
      unknown one changes nothing. */
  lemma StoreNext(m: map<Format, Payload>, rs: seq<Record>, id: uint32, p: Payload)
    ensures Store(m, rs + [Record(id, p)]) == if id < NumFormats then Store(m, rs)[id := p] else Store(m, rs)
  {
    StoreSnoc(m, rs, Record(id, p));
  }

  lemma StoreSnoc(m: map<Format, Payload>, rs: seq<Record>, r: Record)
    ensures Store(m, rs + [r]) == StoreRecord(Store(m, rs), r)
  {
    assert (rs + [r])[..|rs|] == rs;
  }

  lemma BelowStep(m: map<Format, Payload>, g: Format)
    ensures Below(m, g + 1) == if g in m then Below(m, g)[g := m[g]] else Below(m, g)
  {
  }

  /** Storing the snapshot of `m` below `f` into an empty clipboard
      rebuilds that part of `m`. */
  lemma {:induction false} StoreSnapshotBelow(m: map<Format, Payload>, f: nat)
    requires f <= NumFormats
    ensures Store(map[], SnapshotBelow(m, f)) == Below(m, f)
    decreases f
  {
    if f == 0 {
      assert Below(m, 0) == map[];
    } else {
      var g: Format := f - 1;
      StoreSnapshotBelow(m, g);
      BelowStep(m, g);
      if g in m {
        var r := Record(g, m[g]);
        assert SnapshotBelow(m, f) == SnapshotBelow(m, g) + [r];
        StoreSnoc(map[], SnapshotBelow(m, g), r);
      } else {
        assert SnapshotBelow(m, f) == SnapshotBelow(m, g) + [];
        assert SnapshotBelow(m, g) + [] == SnapshotBelow(m, g);
      }
    }
  }

  /** Round trip: the buffer marshall produces for `m` decodes to `m`. */
  lemma MarshallRoundTrip(m: map<Format, Payload>)
    requires Marshallable(m)
    ensures Decode(Marshalled(m)) == Some(m)
  {
    var rs := Snapshot(m);
    SnapshotFits(m, NumFormats);
    ScanEncode(rs, []);
    assert Encode(rs) + [] == Encode(rs);
    StoreSnapshotBelow(m, NumFormats);
    assert Below(m, NumFormats) == m;
  }

  /** The records of the formats of `m` below `f`, ascending, encoded:
      what marshall's second loop has appended after `f` iterations. */
  function EncodedBelow(m: map<Format, Payload>, f: nat): (bytes: seq<byte>)
    requires Marshallable(m)
  {
    if f == 0 then []
    else EncodedBelow(m, f - 1) + (if f - 1 in m then EncodeRecord(Record(f - 1, m[f - 1])) else [])
  }

  /** One iteration of marshall's second loop: format `f` appends its
      record when it is held and nothing otherwise. */
  lemma EncodedBelowNext(m: map<Format, Payload>, f: Format)
    requires Marshallable(m)
    ensures EncodedBelow(m, f + 1) ==
      if f in m then EncodedBelow(m, f) + EncodeRecord(Record(f, m[f])) else EncodedBelow(m, f)
  {
    assert EncodedBelow(m, f) + [] == EncodedBelow(m, f);
  }

  /** EncodedBelow is the encoding of the snapshot below `f`, and as long
      as the running size marshall's first loop adds up. */
  lemma {:induction false} EncodedBelowRecords(m: map<Format, Payload>, f: nat)
    requires Marshallable(m)
    ensures PayloadsFit(SnapshotBelow(m, f))
    ensures EncodedBelow(m, f) == EncodeRecords(SnapshotBelow(m, f))
    ensures |EncodedBelow(m, f)| == SizeBelow(m, f)
    decreases f
  {
    SnapshotFits(m, f);
    if f > 0 {
      var g := f - 1;
      EncodedBelowRecords(m, g);
      if g in m {
        var r := Record(g, m[g]);
        SnapshotFits(m, g);
        assert SnapshotBelow(m, f) == SnapshotBelow(m, g) + [r];
        EncodeRecordsAppend(SnapshotBelow(m, g), [r]);
        assert EncodeRecords([r]) == EncodeRecord(r) + [] == EncodeRecord(r);
        assert |EncodeRecord(r)| == 8 + |m[g]|;
      } else {
        assert SnapshotBelow(m, f) == SnapshotBelow(m, g) + [] == SnapshotBelow(m, g);
        assert EncodedBelow(m, f) == EncodedBelow(m, g) + [] == EncodedBelow(m, g);
      }
    }
  }

  /** The marshalled buffer is the count of held formats followed by
      their records in ascending order. */
  lemma MarshalledSplit(m: map<Format, Payload>)
    requires Marshallable(m)
    ensures |m| <= NumFormats
    ensures Marshalled(m) == EncodeUInt32(|m|) + EncodedBelow(m, NumFormats)
  {
    SnapshotContents(m);
    EncodedBelowRecords(m, NumFormats);
  }

  /** The buffer is 4 + sum of (8 + |payload|) bytes long, the value
      marshall's first loop computes as `size`. */
  lemma MarshalledLength(m: map<Format, Payload>)
    requires Marshallable(m)
    ensures |Marshalled(m)| == 4 + SizeBelow(m, NumFormats)
  {
    MarshalledSplit(m);
    EncodedBelowRecords(m, NumFormats);
  }

  /** The snapshot below `f` lists, in order, the formats HeldBelow lists,
      each with its payload verbatim. */
  lemma {:induction false} SnapshotIds(m: map<Format, Payload>, f: nat)
    requires f <= NumFormats
    ensures |SnapshotBelow(m, f)| == |HeldBelow(m, f)|
    ensures forall i :: 0 <= i < |SnapshotBelow(m, f)| ==>
      SnapshotBelow(m, f)[i].id == HeldBelow(m, f)[i] && SnapshotBelow(m, f)[i].id in m &&
      SnapshotBelow(m, f)[i].payload == m[SnapshotBelow(m, f)[i].id]
    decreases f
  {
    if f > 0 {
      var g: Format := f - 1;
      SnapshotIds(m, g);
      var s, ids := SnapshotBelow(m, g), HeldBelow(m, g);
      if g in m {
        assert HeldBelow(m, f) == ids + [g];
        assert forall i :: 0 <= i < |s| ==> SnapshotBelow(m, f)[i] == s[i] && HeldBelow(m, f)[i] == ids[i];
      } else {
        assert HeldBelow(m, f) == ids;
      }
    }
  }

  /** What the snapshot holds: one record per held format, in strictly
      ascending format order, each with that format's payload verbatim. */
  lemma SnapshotContents(m: map<Format, Payload>)
    ensures |Snapshot(m)| == |m| <= NumFormats
    ensures forall i, j :: 0 <= i < j < |Snapshot(m)| ==> Snapshot(m)[i].id < Snapshot(m)[j].id
    ensures forall i :: 0 <= i < |Snapshot(m)| ==>
      Snapshot(m)[i].id < NumFormats && Snapshot(m)[i].id in m && Snapshot(m)[i].payload == m[Snapshot(m)[i].id]
    ensures forall f :: f in m ==> Record(f, m[f]) in Snapshot(m)
  {
    HeldBelowFacts(m, NumFormats);
    HeldCount(m);
    SnapshotIds(m, NumFormats);
    SnapshotComplete(m);
  }

  /** No held format is missing from the snapshot. */
  lemma SnapshotComplete(m: map<Format, Payload>)
    ensures forall f :: f in m ==> Record(f, m[f]) in Snapshot(m)
  {
    var ids := Held(m);
    HeldBelowFacts(m, NumFormats);
    SnapshotIds(m, NumFormats);
    forall f | f in m
      ensures Record(f, m[f]) in Snapshot(m)
    {
      assert f in ids;
      var i :| 0 <= i < |ids| && ids[i] == f;
      assert Snapshot(m)[i] == Record(f, m[f]);
    }
  }

  /** The layout of marshall's output: the first word is the number of
      held formats (at most kNumFormats), and the buffer holds exactly the
      snapshot's records, every one of which fits. */
  lemma MarshalledLayout(m: map<Format, Payload>)
    requires Marshallable(m)
    ensures ReadUInt32(Marshalled(m), 0) == |m| <= NumFormats
    ensures WellFormed(Marshalled(m))
    ensures ScanBuffer(Marshalled(m)).records == Snapshot(m)
  {
    SnapshotContents(m);
    SnapshotFits(m, NumFormats);
    ScanEncode(Snapshot(m), []);
    assert Marshalled(m) + [] == Marshalled(m);
  }

  /** A clipboard holding nothing marshalls to a zero count and nothing
      else. */
  lemma MarshalledEmpty()
    ensures Marshalled(map[]) == [0, 0, 0, 0]
  {
    assert Snapshot(map[]) == [];
  }

  /** Format 0 holding "hi" marshalls to count 1, id 0, length 2, 'h', 'i'. */
  lemma MarshalledExample()
    ensures Marshalled(map[0 := [0x68, 0x69]]) == [0, 0, 0, 1, 0, 0, 0, 0, 0, 0, 0, 2, 0x68, 0x69]
  {
    ExampleSnapshot();
    ExampleEncoding();
  }

  /** The encoding of the single record (0, "hi"). */
  lemma ExampleEncoding()
    ensures Encode([Record(0, [0x68, 0x69])]) == [0, 0, 0, 1, 0, 0, 0, 0, 0, 0, 0, 2, 0x68, 0x69]
  {
    var r := Record(0, [0x68, 0x69]);
    assert EncodeRecords([r]) == EncodeRecord(r) + [];
    assert EncodeUInt32(0) == [0, 0, 0, 0] && EncodeUInt32(1) == [0, 0, 0, 1] && EncodeUInt32(2) == [0, 0, 0, 2];
  }

  /** The snapshot of a clipboard holding "hi" as format 0 alone. */
  lemma ExampleSnapshot()
    ensures Snapshot(map[0 := [0x68, 0x69]]) == [Record(0, [0x68, 0x69])]
  {
    var m: map<Format, Payload> := map[0 := [0x68, 0x69]];
    var r := Record(0, [0x68, 0x69]);
    assert SnapshotBelow(m, 1) == [r];
    assert SnapshotBelow(m, 2) == [r];
  }

  /** Forward compatibility: a record whose id this build does not know is
      read past, is not stored, and leaves the records after it intact, so
      inserting one anywhere does not change what the buffer decodes to. */
  lemma SkipsUnknownFormat(a: seq<Record>, u: uint32, p: Payload, b: seq<Record>)
    requires NumFormats <= u
    requires Encodable(a + [Record(u, p)] + b)
    ensures Encodable(a + b)
    ensures Decode(Encode(a + [Record(u, p)] + b)) == Decode(Encode(a + b))
  {
    var x := Record(u, p);
    var with, without := a + [x] + b, a + b;
    forall i | 0 <= i < |without|
      ensures |without[i].payload| < 0x1_0000_0000
    {
      if i < |a| {
        assert without[i] == with[i];
      } else {
        assert without[i] == with[i + 1];
      }
    }
    ScanEncode(with, []);
    ScanEncode(without, []);
    assert Encode(with) + [] == Encode(with);
    assert Encode(without) + [] == Encode(without);
    StoreAppend(map[], a + [x], b);
    StoreAppend(map[], a, b);
    assert (a + [x])[..|a|] == a;
  }
}
