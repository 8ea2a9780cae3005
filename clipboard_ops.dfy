/** The static IClipboard operations: marshall, unmarshall and copy, each
    driving clipboards only through their open/close/empty/has/get/add
    contract. */
module ClipboardOps {
  import opened ByteOrder
  import opened Clipboards
  import opened WireFormat

  /** marshall: snapshots every held format, ascending, into one buffer.
      If the clipboard cannot be opened the result is the empty buffer and
      close is not called; otherwise the session is closed once. Each
      payload is fetched exactly once. */
  method Marshall(clipboard: Clipboard) returns (data: seq<byte>)
    requires clipboard.Valid()
    requires Marshallable(clipboard.contents)
    modifies clipboard`isOpen, clipboard`opens, clipboard`closes, clipboard`sessionTime, clipboard`fetchLog
    ensures clipboard.Valid() && clipboard.isOpen == old(clipboard.isOpen)
    ensures data == if old(clipboard.CanOpen()) then Marshalled(clipboard.contents) else []
    ensures old(clipboard.CanOpen()) ==>
      && clipboard.opens == old(clipboard.opens) + 1
      && clipboard.closes == old(clipboard.closes) + 1
      && clipboard.sessionTime == 0
      && clipboard.fetchLog == old(clipboard.fetchLog) + Held(clipboard.contents)
    ensures !old(clipboard.CanOpen()) ==>
      && clipboard.opens == old(clipboard.opens)
      && clipboard.closes == old(clipboard.closes)
      && clipboard.sessionTime == old(clipboard.sessionTime)
      && clipboard.fetchLog == old(clipboard.fetchLog)
  {
    data := [];
    var acquired := clipboard.Open(0);
    if acquired {
      data := MarshallSession(clipboard);
      clipboard.Close();
    }
  }

  /** The body of marshall's session: count and fetch the held formats,
      then write the count and every record into a fresh buffer. */
  method MarshallSession(clipboard: Clipboard) returns (data: seq<byte>)
    requires clipboard.isOpen
    requires Marshallable(clipboard.contents)
    modifies clipboard`fetchLog
    ensures data == Marshalled(clipboard.contents)
    ensures clipboard.fetchLog == old(clipboard.fetchLog) + Held(clipboard.contents)
  {
    var buf := new ByteString();
    var formatData := new Payload[NumFormats];
    var size, numFormats := FetchFormats(clipboard, formatData);
    // size only sizes the allocation of the buffer
    WriteUInt32(buf, numFormats);
    WriteRecords(clipboard, formatData, buf);
    MarshalledSplit(clipboard.contents);
    data := buf.bytes;
  }

  /** marshall's first loop: visit the formats in ascending order, fetch the
      payload of every held one into its slot of `formatData`, and count
      the held formats and the bytes the buffer will take. */
  method FetchFormats(clipboard: Clipboard, formatData: array<Payload>) returns (size: int, numFormats: uint32)
    requires clipboard.isOpen && formatData.Length == NumFormats
    requires Marshallable(clipboard.contents)
    modifies clipboard`fetchLog, formatData
    ensures numFormats == |clipboard.contents| && size == |Marshalled(clipboard.contents)|
    ensures forall g: Format :: g in clipboard.contents ==> formatData[g] == clipboard.contents[g]
    ensures clipboard.fetchLog == old(clipboard.fetchLog) + Held(clipboard.contents)
  {
    ghost var m := clipboard.contents;
    ghost var log0 := clipboard.fetchLog;
    size := 4;
    numFormats := 0;
    var format := 0;
    while format != NumFormats
      invariant 0 <= format <= NumFormats
      invariant numFormats == |HeldBelow(m, format)|
      invariant size == 4 + SizeBelow(m, format)
      invariant forall g: Format :: g < format && g in m ==> formatData[g] == m[g]
      invariant clipboard.fetchLog == log0 + HeldBelow(m, format)
    {
      var has := clipboard.Has(format);
      if has {
        numFormats := numFormats + 1;
        formatData[format] := clipboard.Get(format);
        size := size + 4 + 4 + |formatData[format]|;
      }
      format := format + 1;
    }
    HeldCount(m);
    MarshalledLength(m);
  }

  /** marshall's second loop: append, for every held format in ascending
      order, its id, its length and its payload as fetched. */
  method WriteRecords(clipboard: Clipboard, formatData: array<Payload>, buf: ByteString)
    requires clipboard.isOpen && formatData.Length == NumFormats
    requires Marshallable(clipboard.contents)
    requires forall g: Format :: g in clipboard.contents ==> formatData[g] == clipboard.contents[g]
    modifies buf
    ensures buf.bytes == old(buf.bytes) + EncodedBelow(clipboard.contents, NumFormats)
  {
    ghost var m := clipboard.contents;
    ghost var header := buf.bytes;
    var format := 0;
    while format != NumFormats
      invariant 0 <= format <= NumFormats
      invariant buf.bytes == header + EncodedBelow(m, format)
    {
      var has := clipboard.Has(format);
      if has {
        AppendHeld(buf, format, formatData[format], m, header);
      } else {
        EncodedBelowNext(m, format);
      }
      format := format + 1;
    }
  }

  /** One held format in marshall's second loop: its record extends what
      the loop has appended so far by exactly that format's record. */
  method AppendHeld(buf: ByteString, format: Format, payload: Payload,
                    ghost m: map<Format, Payload>, ghost header: seq<byte>)
    requires Marshallable(m) && format in m && payload == m[format]
    requires buf.bytes == header + EncodedBelow(m, format)
    modifies buf
    ensures buf.bytes == header + EncodedBelow(m, format + 1)
  {
    ghost var before := EncodedBelow(m, format);
    WriteRecord(buf, format, payload);
    assert buf.bytes == header + (before + EncodeRecord(Record(format, payload)));
    EncodedBelowNext(m, format);
  }

  /** One record: the format, the payload's length, the payload. */
  method WriteRecord(buf: ByteString, format: Format, payload: Payload)
    requires |payload| < 0x1_0000_0000
    modifies buf
    ensures buf.bytes == old(buf.bytes) + EncodeRecord(Record(format, payload))
  {
    WriteUInt32(buf, format);
    WriteUInt32(buf, |payload|);
    buf.bytes := buf.bytes + payload;
  }

  /** unmarshall, as the source has it: open the destination, empty it
      (ignoring whether that worked), add the buffer's records, close.
      The source reads the buffer without any bounds check, so the buffer
      must be well-formed. If open fails nothing happens; otherwise the
      session is closed once. */
  method Unmarshall(clipboard: Clipboard, data: seq<byte>, time: Time)
    requires clipboard.Valid()
    requires WellFormed(data)
    modifies clipboard`isOpen, clipboard`opens, clipboard`closes, clipboard`sessionTime, clipboard`contents
    ensures clipboard.Valid() && clipboard.isOpen == old(clipboard.isOpen)
    ensures old(clipboard.CanOpen()) ==>
      && clipboard.opens == old(clipboard.opens) + 1
      && clipboard.closes == old(clipboard.closes) + 1
      && clipboard.sessionTime == time
      && clipboard.contents ==
           Store(if clipboard.clearAllowed then map[] else old(clipboard.contents), ScanBuffer(data).records)
    ensures !old(clipboard.CanOpen()) ==>
      && clipboard.opens == old(clipboard.opens)
      && clipboard.closes == old(clipboard.closes)
      && clipboard.sessionTime == old(clipboard.sessionTime)
      && clipboard.contents == old(clipboard.contents)
  {
    var acquired := clipboard.Open(time);
    if acquired {
      // clear existing data
      var _ := clipboard.Empty();
      AddRecords(clipboard, data);
      clipboard.Close();
    }
  }

  /** The body of unmarshall's session: read the count, then walk the
      records. Nothing is checked against the end of the buffer. */
  method AddRecords(clipboard: Clipboard, data: seq<byte>)
    requires clipboard.isOpen && WellFormed(data)
    modifies clipboard`contents
    ensures clipboard.contents == Store(old(clipboard.contents), ScanBuffer(data).records)
  {
    ghost var base := clipboard.contents;
    var index: nat := 0;
    var numFormats := ReadUInt32(data, index);
    index := index + 4;
    ghost var done: seq<Record> := [];
    ghost var count: nat := numFormats;
    WalkStart(data);

    var i := 0;
    while i < numFormats
      invariant 0 <= i <= numFormats && count == numFormats - i
      invariant WalkAt(data, index, count, done)
      invariant clipboard.contents == Store(base, done)
    {
      WalkFits(data, index, count, done);
      // the record at the cursor joins those read; AddRecord stores it
      done := done + [RecordAt(data, index)];
      index := AddRecord(clipboard, data, index, count, base, done[..|done| - 1]);
      count := count - 1;
      i := i + 1;
    }
    WalkEnd(data, index, done);
  }

  /** One pass of unmarshall's loop: read the format and the size, add the
      payload if the format is known (a newer peer's formats are skipped),
      and move past the payload either way. */
  method AddRecord(clipboard: Clipboard, data: seq<byte>, at: nat, ghost count: nat,
                   ghost base: map<Format, Payload>, ghost done: seq<Record>)
    returns (next: nat)
    requires clipboard.isOpen && 0 < count && WalkAt(data, at, count, done)
    requires RecordFits(data, at)
    requires clipboard.contents == Store(base, done)
    modifies clipboard`contents
    ensures next == RecordEnd(data, at)
    ensures WalkAt(data, next, count - 1, done + [RecordAt(data, at)])
    ensures clipboard.contents == Store(base, done + [RecordAt(data, at)])
  {
    var index: nat := at;
    var format := ReadUInt32(data, index);
    index := index + 4;
    var size := ReadUInt32(data, index);
    index := index + 4;
    var payload := data[index..index + size];
    if format < NumFormats {
      clipboard.Add(format, payload);
    }
    index := index + size;
    WalkNext(data, at, count, done, format, size, payload, index);
    StoreNext(base, done, format, payload);
    next := index;
  }

  /** unmarshall with every read checked against the end of the buffer.
      A buffer whose count, header or payload runs past its end stops the
      walk: the session is still closed and the result is false. Records
      read before that point have been added. */
  method UnmarshallChecked(clipboard: Clipboard, data: seq<byte>, time: Time) returns (ok: bool)
    requires clipboard.Valid()
    modifies clipboard`isOpen, clipboard`opens, clipboard`closes, clipboard`sessionTime, clipboard`contents
    ensures clipboard.Valid() && clipboard.isOpen == old(clipboard.isOpen)
    ensures ok == (old(clipboard.CanOpen()) && WellFormed(data))
    ensures old(clipboard.CanOpen()) ==>
      && clipboard.opens == old(clipboard.opens) + 1
      && clipboard.closes == old(clipboard.closes) + 1
      && clipboard.sessionTime == time
      && clipboard.contents ==
           Store(if clipboard.clearAllowed then map[] else old(clipboard.contents), ScanBuffer(data).records)
    ensures !old(clipboard.CanOpen()) ==>
      && clipboard.opens == old(clipboard.opens)
      && clipboard.closes == old(clipboard.closes)
      && clipboard.sessionTime == old(clipboard.sessionTime)
      && clipboard.contents == old(clipboard.contents)
  {
    ok := false;
    var acquired := clipboard.Open(time);
    if acquired {
      var _ := clipboard.Empty();
      // the count itself must fit
      if 4 <= |data| {
        ok := AddRecordsChecked(clipboard, data);
      }
      clipboard.Close();
    }
  }

  /** AddRecords with a bounds check before every read: the walk stops at
      the first count, header or payload that runs past the end, and the
      result says whether the whole buffer was read. */
  method AddRecordsChecked(clipboard: Clipboard, data: seq<byte>) returns (ok: bool)
    requires clipboard.isOpen && 4 <= |data|
    modifies clipboard`contents
    ensures ok == WellFormed(data)
    ensures clipboard.contents == Store(old(clipboard.contents), ScanBuffer(data).records)
  {
    ghost var base := clipboard.contents;
    var index: nat := 0;
    var numFormats := ReadUInt32(data, index);
    index := index + 4;
    ghost var done: seq<Record> := [];
    ghost var count: nat := numFormats;
    WalkStart(data);

    var i := 0;
    while i < numFormats
      invariant 0 <= i <= numFormats && count == numFormats - i
      invariant WalkAt(data, index, count, done)
      invariant clipboard.contents == Store(base, done)
    {
      if !RecordFits(data, index) {
        WalkTruncated(data, index, count, done);
        return false;
      }
      // the record at the cursor joins those read; AddRecord stores it
      done := done + [RecordAt(data, index)];
      index := AddRecord(clipboard, data, index, count, base, done[..|done| - 1]);
      count := count - 1;
      i := i + 1;
    }
    WalkEnd(data, index, done);
    return true;
  }

  /** copy(dst, src, time): open src, then dst, with the same time; empty
      dst and add every format src holds, ascending. The result is true
      exactly when dst was emptied and at least one format was copied.
      Each clipboard that was opened is closed exactly once; src's contents
      never change. */
  method Copy(dst: Clipboard, src: Clipboard, time: Time) returns (success: bool)
    requires dst != src
    requires dst.Valid() && src.Valid()
    modifies dst`isOpen, dst`opens, dst`closes, dst`sessionTime, dst`contents
    modifies src`isOpen, src`opens, src`closes, src`sessionTime, src`fetchLog
    ensures dst.Valid() && src.Valid()
    ensures dst.isOpen == old(dst.isOpen) && src.isOpen == old(src.isOpen)
    ensures
      var srcOpened := old(src.CanOpen());
      var dstOpened := srcOpened && old(dst.CanOpen());
      var populated := dstOpened && dst.clearAllowed;
      && src.opens == old(src.opens) + (if srcOpened then 1 else 0)
      && src.closes == old(src.closes) + (if srcOpened then 1 else 0)
      && dst.opens == old(dst.opens) + (if dstOpened then 1 else 0)
      && dst.closes == old(dst.closes) + (if dstOpened then 1 else 0)
      && src.sessionTime == (if srcOpened then time else old(src.sessionTime))
      && dst.sessionTime == (if dstOpened then time else old(dst.sessionTime))
      && dst.contents == (if populated then src.contents else old(dst.contents))
      && src.fetchLog == old(src.fetchLog) + (if populated then Held(src.contents) else [])
      && success == (populated && src.contents != map[])
  {
    success := false;
    var srcOpened := src.Open(time);
    if srcOpened {
      var dstOpened := dst.Open(time);
      if dstOpened {
        var emptied := dst.Empty();
        if emptied {
          success := CopyFormats(dst, src);
        }
        dst.Close();
      }
      src.Close();
    }
  }

  /** copy's loop over the formats: add to the emptied dst every format src
      holds, ascending, fetching each payload once. The result says whether
      anything was added. */
  method CopyFormats(dst: Clipboard, src: Clipboard) returns (success: bool)
    requires dst != src && dst.isOpen && src.isOpen && dst.contents == map[]
    modifies dst`contents, src`fetchLog
    ensures dst.contents == src.contents
    ensures src.fetchLog == old(src.fetchLog) + Held(src.contents)
    ensures success == (src.contents != map[])
  {
    success := false;
    ghost var log0 := src.fetchLog;
    var format := 0;
    while format != NumFormats
      invariant 0 <= format <= NumFormats
      invariant dst.contents == Below(src.contents, format)
      invariant src.fetchLog == log0 + HeldBelow(src.contents, format)
      invariant success == (dst.contents != map[])
    {
      var has := src.Has(format);
      if has {
        var payload := src.Get(format);
        dst.Add(format, payload);
        assert format in dst.contents;
        success := true;
      }
      BelowStep(src.contents, format);
      format := format + 1;
    }
    assert Below(src.contents, NumFormats) == src.contents;
  }

  /** copy(dst, src): copy at src's own time. */
  method CopyAtSourceTime(dst: Clipboard, src: Clipboard) returns (success: bool)
    requires dst != src
    requires dst.Valid() && src.Valid()
    modifies dst`isOpen, dst`opens, dst`closes, dst`sessionTime, dst`contents
    modifies src`isOpen, src`opens, src`closes, src`sessionTime, src`fetchLog
    ensures dst.Valid() && src.Valid()
    ensures dst.isOpen == old(dst.isOpen) && src.isOpen == old(src.isOpen)
    ensures
      var srcOpened := old(src.CanOpen());
      var dstOpened := srcOpened && old(dst.CanOpen());
      var populated := dstOpened && dst.clearAllowed;
      && src.opens == old(src.opens) + (if srcOpened then 1 else 0)
      && src.closes == old(src.closes) + (if srcOpened then 1 else 0)
      && dst.opens == old(dst.opens) + (if dstOpened then 1 else 0)
      && dst.closes == old(dst.closes) + (if dstOpened then 1 else 0)
      && src.sessionTime == (if srcOpened then src.time else old(src.sessionTime))
      && dst.sessionTime == (if dstOpened then src.time else old(dst.sessionTime))
      && dst.contents == (if populated then src.contents else old(dst.contents))
      && src.fetchLog == old(src.fetchLog) + (if populated then Held(src.contents) else [])
      && success == (populated && src.contents != map[])
  {
    var time := src.GetTime();
    success := Copy(dst, src, time);
  }

  /** The transfer of src's contents to dst through marshall and
      unmarshall: when src could be read and dst could be opened and
      cleared, dst ends holding exactly what src holds. An empty result of
      marshall (src could not be opened; a marshalled buffer is never
      empty) is not passed on, since unmarshall would read past it. */
  method Transfer(src: Clipboard, dst: Clipboard, time: Time)
    requires src != dst && src.Valid() && dst.Valid()
    requires Marshallable(src.contents)
    modifies src`isOpen, src`opens, src`closes, src`sessionTime, src`fetchLog
    modifies dst`isOpen, dst`opens, dst`closes, dst`sessionTime, dst`contents
    ensures src.contents == old(src.contents)
    ensures old(src.CanOpen()) && old(dst.CanOpen()) && dst.clearAllowed ==> dst.contents == src.contents
  {
    var data := Marshall(src);
    if data != [] {
      MarshalledLayout(src.contents);
      MarshallRoundTrip(src.contents);
      Unmarshall(dst, data, time);
    } else {
      MarshalledLength(src.contents);
    }
  }

  /** A buffer that declares one record but ends right after the count:
      the source's unmarshall would read the record header at offsets 4 to
      11 of a 4-byte buffer. The checked walk rejects it. */
  lemma TruncatedBufferOverreads()
    ensures var d: seq<byte> := [0, 0, 0, 1];
      && ReadUInt32(d, 0) == 1
      && |d| < 4 + 8
      && !WellFormed(d)
      && ScanBuffer(d).records == []
  {
  }
}
