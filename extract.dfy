/**
 * `decodeData`: peel frames off the byte stream of `decodeBytes`, using the
 * per-run byte counts to resynchronise after a bad frame.
 *
 * Reads past the end of the stream behave as in the source: a missing byte
 * reads as 0 in the VLQ scan, `header[4]` is undefined (None) on a stream of
 * at most six bytes, and every slice clamps its bounds to the stream.
 */
module Extract {
  import opened Alphabet
  import opened Vlq
  import opened Crc32
  import opened Runs
  import opened Encoder
  import opened Decoder
  import opened Filter
  import opened Frame

  /** One element of `dataObjs`. */
  datatype Entry =
    | NoMessage
    | ProtocolMismatch(details: seq<Byte>)
    | Message(crcMatch: bool, crc: nat, dataType: Option<Byte>, data: seq<Byte>)

  /** Every run count is positive and together they cover the stream. */
  predicate Covers(bytes: seq<Byte>, lens: seq<nat>)
  {
    (forall n :: n in lens ==> n > 0) && Sum(lens) >= |bytes|
  }

  function Min(a: nat, b: nat): nat
  {
    if a <= b then a else b
  }

  /** `bytes.subarray(k)`. */
  function Drop(bytes: seq<Byte>, k: nat): (r: seq<Byte>)
    ensures |r| == |bytes| - Min(k, |bytes|)
  {
    bytes[Min(k, |bytes|)..]
  }

  /** The stream starts with the protocol signature and version. */
  predicate Signed(bytes: seq<Byte>)
  {
    |bytes| >= 2 && bytes[0] == 0x44 && bytes[1] == 0x00
  }

  /** `dataStart`: past the signature, CRC, flag and the VLQ field that starts at byte 7. */
  function DataStart(bytes: seq<Byte>): (start: nat)
    ensures start >= 8
  {
    7 + FieldLen(bytes, 7)
  }

  /** `header = bytes.subarray(2, dataStart)`. */
  function Header(bytes: seq<Byte>): seq<Byte>
    requires |bytes| >= 2
  {
    bytes[2..Min(DataStart(bytes), |bytes|)]
  }

  /** `header[4]`, the flag byte. */
  function DataType(bytes: seq<Byte>): Option<Byte>
  {
    if |bytes| > 6 then Some(bytes[6]) else None
  }

  /** `dataEnd = dataStart + decodeLength(header.subarray(5))`. */
  function DataEnd(bytes: seq<Byte>): (end: nat)
    ensures end >= DataStart(bytes)
  {
    DataStart(bytes) + VlqValue(bytes[Min(7, |bytes|)..Min(DataStart(bytes), |bytes|)])
  }

  /** `data = bytes.subarray(dataStart, dataEnd)`. */
  function Data(bytes: seq<Byte>): seq<Byte>
  {
    bytes[Min(DataStart(bytes), |bytes|)..Min(DataEnd(bytes), |bytes|)]
  }

  /** The four CRC bytes of the data equal the first four header bytes; a missing header byte never matches. */
  predicate CrcMatch(bytes: seq<Byte>)
    requires |bytes| >= 2
  {
    var header := Header(bytes);
    |header| >= 4 && header[..4] == BigEndian4(CrcValue(Data(bytes)))
  }

  /** The entry a signed stream yields. */
  function FrameEntry(bytes: seq<Byte>): Entry
    requires |bytes| >= 2
  {
    Message(CrcMatch(bytes), CrcValue(Data(bytes)) as nat, DataType(bytes), Data(bytes))
  }

  /** What one iteration of the loop produces and leaves behind. */
  datatype Next = Next(entry: Entry, bytes: seq<Byte>, lens: seq<nat>)

  /**
   * One iteration on a non-empty stream. A protocol mismatch and a CRC
   * mismatch both drop the first run; a good frame is cut off the stream and
   * shortens the first run's count, or discards it when the frame used it up.
   */
  function Step(bytes: seq<Byte>, lens: seq<nat>): (r: Next)
    requires |bytes| > 0 && Covers(bytes, lens)
    ensures Covers(r.bytes, r.lens)
    ensures Sum(r.lens) < Sum(lens)
  {
    assert lens != [] && lens[0] in lens;
    assert forall n :: n in lens[1..] ==> n in lens;
    if !Signed(bytes) then
      Next(ProtocolMismatch(Drop(bytes, lens[0])), Drop(bytes, lens[0]), lens[1..])
    else if CrcMatch(bytes) then
      var end := DataEnd(bytes);
      if end < lens[0] then
        var lens' := [lens[0] - end] + lens[1..];
        assert Sum(lens') == Sum(lens) - end;
        Next(FrameEntry(bytes), Drop(bytes, end), lens')
      else
        Next(FrameEntry(bytes), Drop(bytes, end), lens[1..])
    else
      Next(FrameEntry(bytes), Drop(bytes, lens[0]), lens[1..])
  }

  /** The entries of a stream, one per iteration until the stream is used up. */
  function Entries(bytes: seq<Byte>, lens: seq<nat>): seq<Entry>
    requires Covers(bytes, lens)
    decreases Sum(lens)
  {
    if bytes == [] then []
    else
      var next := Step(bytes, lens);
      [next.entry] + Entries(next.bytes, next.lens)
  }

  /** The do-while: an empty stream yields the single "No message detected" entry. */
  function Frames(bytes: seq<Byte>, lens: seq<nat>): seq<Entry>
    requires Covers(bytes, lens)
  {
    if bytes == [] then [NoMessage] else Entries(bytes, lens)
  }

  /** The result of `decodeData(str)`. */
  datatype Decoded = Decoded(cover: string, entries: seq<Entry>)

  lemma ScanCovers(str: string)
    ensures Covers(DecodeBytesSpec(str).bytes, DecodeBytesSpec(str).seqLens)
  {
    SeqLensAccount(str);
  }

  /** `decodeData(str)` as a function of str. */
  function DecodeDataSpec(str: string): Decoded
  {
    var scan := DecodeBytesSpec(str);
    ScanCovers(str);
    Decoded(scan.cover, Frames(scan.bytes, scan.seqLens))
  }

  /** The VLQ field scan `while (bytes[6 + ++VLQLen] & 0x80) {}`. */
  method MeasureVlq(bytes: seq<Byte>) returns (vlqLen: nat)
    ensures vlqLen == FieldLen(bytes, 7)
  {
    vlqLen := 1;
    while At(bytes, 6 + vlqLen) >= 128
      invariant vlqLen >= 1
      invariant FieldLen(bytes, 7) == vlqLen - 1 + FieldLen(bytes, 6 + vlqLen)
      decreases |bytes| - vlqLen
    {
      vlqLen := vlqLen + 1;
    }
  }

  /** The field bounds of a signed stream: `dataStart` and `dataEnd`. */
  method FrameBounds(bytes: seq<Byte>) returns (dataStart: nat, dataEnd: nat)
    requires Signed(bytes)
    ensures dataStart == DataStart(bytes) && dataEnd == DataEnd(bytes)
  {
    var n := |bytes|;
    var vlqLen := MeasureVlq(bytes);
    dataStart := 7 + vlqLen;
    // `header.subarray(5)`: the bytes of `header` from index 5 on.
    var lenField := bytes[Min(7, n)..Min(dataStart, n)];
    var len := DecodeLength(lenField);
    dataEnd := dataStart + len;
  }

  /** The frame fields of a signed stream, and the CRC check. */
  method ReadFrame(table: seq<bv32>, bytes: seq<Byte>) returns (entry: Entry, dataEnd: nat)
    requires IsCrcTable(table) && Signed(bytes)
    ensures entry == FrameEntry(bytes) && dataEnd == DataEnd(bytes)
  {
    var n := |bytes|;
    var dataStart;
    dataStart, dataEnd := FrameBounds(bytes);
    var header := bytes[2..Min(dataStart, n)];
    assert header == Header(bytes);
    var dataType := if |header| > 4 then Some(header[4]) else None;
    assert dataType == DataType(bytes);
    var data := bytes[Min(dataStart, n)..Min(dataEnd, n)];
    assert data == Data(bytes);
    var crc, crcBytes := Crc32.Crc32(table, data);
    var crcMatch := |header| >= 4 && header[..4] == crcBytes;
    entry := Message(crcMatch, crc, dataType, data);
  }

  /** The body of the loop of `decodeData`. */
  method StepOnce(table: seq<bv32>, bytes: seq<Byte>, lens: seq<nat>) returns (r: Next)
    requires IsCrcTable(table)
    requires |bytes| > 0 && Covers(bytes, lens)
    ensures r == Step(bytes, lens)
  {
    assert lens != [];
    if |bytes| < 2 || bytes[0] != 0x44 || bytes[1] != 0x00 {
      assert !Signed(bytes);
      var rest := bytes[Min(lens[0], |bytes|)..];
      r := Next(ProtocolMismatch(rest), rest, lens[1..]);
    } else {
      var entry, dataEnd := ReadFrame(table, bytes);
      assert entry.crcMatch == CrcMatch(bytes);
      var lens' := lens;
      if entry.crcMatch {
        if dataEnd < lens'[0] {
          lens' := [lens'[0] - dataEnd] + lens'[1..];
        } else {
          lens' := lens'[1..];
        }
        r := Next(entry, bytes[Min(dataEnd, |bytes|)..], lens');
      } else {
        r := Next(entry, bytes[Min(lens'[0], |bytes|)..], lens'[1..]);
      }
    }
  }

  /** `decodeData(str)`. */
  method DecodeData(table: seq<bv32>, str: string) returns (r: Decoded)
    requires IsCrcTable(table)
    ensures r == DecodeDataSpec(str)
  {
    var scan := DecodeBytes(str);
    ScanCovers(str);
    var bytes, lens := scan.bytes, scan.seqLens;
    var entries: seq<Entry> := [];
    if |bytes| == 0 {
      entries := [NoMessage];
    } else {
      while |bytes| > 0
        invariant Covers(bytes, lens)
        invariant entries + Entries(bytes, lens) == Entries(scan.bytes, scan.seqLens)
        decreases Sum(lens)
      {
        var next := StepOnce(table, bytes, lens);
        entries := entries + [next.entry];
        bytes, lens := next.bytes, next.lens;
      }
    }
    r := Decoded(scan.cover, entries);
  }

  /** Where the fields of a stream laid out as a frame start and end. */
  lemma LayoutBounds(bytes: seq<Byte>, pre: seq<Byte>, payload: seq<Byte>, rest: seq<Byte>)
    requires |pre| == 7
    requires bytes == pre + VlqBytes(|payload|) + (payload + rest)
    ensures DataStart(bytes) == 7 + |VlqBytes(|payload|)|
    ensures DataEnd(bytes) == 7 + |VlqBytes(|payload|)| + |payload|
  {
    var v := VlqBytes(|payload|);
    FieldLenOfVlq(pre, |payload|, payload + rest);
    assert bytes[7..7 + |v|] == v;
    VlqRoundTrip(|payload|);
  }

  /** The fixed seven-byte prefix of a stream decides its signature, flag and CRC field. */
  lemma LayoutHead(bytes: seq<Byte>, pre: seq<Byte>)
    requires |pre| == 7 && |bytes| >= 8 && bytes[..7] == pre
    ensures Signed(bytes) == (pre[0] == 0x44 && pre[1] == 0x00)
    ensures DataType(bytes) == Some(pre[6])
    ensures |Header(bytes)| >= 5 && Header(bytes)[..4] == pre[2..6]
  {
    assert bytes[0] == pre[0] && bytes[1] == pre[1] && bytes[6] == pre[6];
    var m := Min(DataStart(bytes), |bytes|);
    var h := bytes[2..m];
    assert m >= 8 && Header(bytes) == h;
    forall k | 0 <= k < 4
      ensures h[k] == pre[2..6][k]
    {
      assert h[k] == bytes[2 + k] == bytes[..7][2 + k];
    }
    assert h[..4] == pre[2..6];
  }

  /** The data field of a stream laid out as a frame is the payload. */
  lemma LayoutData(bytes: seq<Byte>, pre: seq<Byte>, payload: seq<Byte>, rest: seq<Byte>)
    requires |pre| == 7
    requires bytes == pre + VlqBytes(|payload|) + (payload + rest)
    ensures bytes[..7] == pre && |bytes| >= 8
    ensures DataEnd(bytes) == 7 + |VlqBytes(|payload|)| + |payload|
    ensures Data(bytes) == payload
  {
    var v := VlqBytes(|payload|);
    LayoutBounds(bytes, pre, payload, rest);
    var start, end := 7 + |v|, 7 + |v| + |payload|;
    assert |bytes| >= end && |v| >= 1;
    assert Data(bytes) == bytes[start..end];
    assert bytes[start..end] == payload;
    assert bytes[..7] == pre;
  }

  /** A frame at the head of the stream, whatever follows it, parses field by field. */
  lemma FrameParse(flag: Byte, payload: seq<Byte>, rest: seq<Byte>)
    ensures var bytes := FrameBytes(flag, payload) + rest;
      Signed(bytes) && DataEnd(bytes) == |FrameBytes(flag, payload)| &&
      CrcMatch(bytes) && FrameEntry(bytes) == Message(true, CrcValue(payload) as nat, Some(flag), payload)
  {
    var bytes := FrameBytes(flag, payload) + rest;
    var pre := Signature + BigEndian4(CrcValue(payload)) + [flag];
    FrameLayout(flag, payload);
    assert bytes == pre + VlqBytes(|payload|) + (payload + rest);
    assert pre[2..6] == BigEndian4(CrcValue(payload));
    LayoutData(bytes, pre, payload, rest);
    LayoutHead(bytes, pre);
    assert Data(bytes) == payload;
    assert Header(bytes)[..4] == BigEndian4(CrcValue(Data(bytes)));
    assert CrcMatch(bytes);
    assert FrameEntry(bytes) == Message(true, CrcValue(payload) as nat, Some(flag), payload);
  }

  /** A CRC-matched frame whose run covers it. */
  lemma StepOnGood(bytes: seq<Byte>, lens: seq<nat>)
    requires |bytes| > 0 && Covers(bytes, lens)
    requires Signed(bytes) && CrcMatch(bytes)
    requires lens != [] && lens[0] >= DataEnd(bytes)
    ensures var end := DataEnd(bytes);
      Step(bytes, lens) ==
      Next(FrameEntry(bytes), Drop(bytes, end), if end < lens[0] then [lens[0] - end] + lens[1..] else lens[1..])
  {
  }

  /**
   * A good frame at the head of the stream becomes one CRC-matched entry; the
   * stream continues after it and the first run's count shrinks by the frame,
   * or goes when the frame filled the run.
   */
  lemma StepOnFrame(flag: Byte, payload: seq<Byte>, rest: seq<Byte>, lens: seq<nat>)
    requires Covers(FrameBytes(flag, payload) + rest, lens)
    requires lens != [] && lens[0] >= |FrameBytes(flag, payload)|
    ensures var len := |FrameBytes(flag, payload)|;
      Step(FrameBytes(flag, payload) + rest, lens) ==
      Next(Message(true, CrcValue(payload) as nat, Some(flag), payload), rest,
           if len < lens[0] then [lens[0] - len] + lens[1..] else lens[1..])
  {
    var f := FrameBytes(flag, payload);
    var bytes := f + rest;
    FrameParse(flag, payload, rest);
    StepOnGood(bytes, lens);
    assert Drop(bytes, |f|) == rest;
  }

  /**
   * A protocol mismatch or a CRC mismatch drops exactly the first run's bytes
   * and its count; only a CRC-matched frame keeps the rest of its run.
   */
  lemma MismatchDropsRun(bytes: seq<Byte>, lens: seq<nat>)
    requires |bytes| > 0 && Covers(bytes, lens)
    ensures lens != []
    ensures var next := Step(bytes, lens);
      (next.entry.ProtocolMismatch? || (next.entry.Message? && !next.entry.crcMatch)) ==>
        next.bytes == Drop(bytes, lens[0]) && next.lens == lens[1..]
    ensures var next := Step(bytes, lens);
      next.entry.ProtocolMismatch? <==> !Signed(bytes)
    ensures var next := Step(bytes, lens);
      next.entry.Message? && next.entry.crcMatch ==> next.bytes == Drop(bytes, DataEnd(bytes))
  {
    assert lens != [];
  }

  /** The payload of one frame. */
  datatype Payload = Payload(flag: Byte, data: seq<Byte>)

  function FrameOf(p: Payload): seq<Byte>
  {
    FrameBytes(p.flag, p.data)
  }

  /** Frames back to back. */
  function Packed(ps: seq<Payload>): seq<Byte>
  {
    FlatMap(ps, FrameOf)
  }

  /** The entry a good frame yields. */
  function Good(p: Payload): Entry
  {
    Message(true, CrcValue(p.data) as nat, Some(p.flag), p.data)
  }

  function Goods(ps: seq<Payload>): (es: seq<Entry>)
    ensures |es| == |ps| && forall k :: 0 <= k < |ps| ==> es[k] == Good(ps[k])
  {
    if ps == [] then [] else [Good(ps[0])] + Goods(ps[1..])
  }

  /** A single run over the whole stream, none for an empty stream. */
  function OneRun(bytes: seq<Byte>): seq<nat>
  {
    if bytes == [] then [] else [|bytes|]
  }

  /** One run per frame. */
  function FrameLens(ps: seq<Payload>): (lens: seq<nat>)
    ensures |lens| == |ps|
  {
    if ps == [] then [] else [|FrameOf(ps[0])|] + FrameLens(ps[1..])
  }

  /** One iteration, then the rest. */
  lemma EntriesFront(bytes: seq<Byte>, lens: seq<nat>)
    requires bytes != [] && Covers(bytes, lens)
    ensures var next := Step(bytes, lens);
      Entries(bytes, lens) == [next.entry] + Entries(next.bytes, next.lens)
  {
  }

  lemma PackedFront(ps: seq<Payload>)
    requires ps != []
    ensures Packed(ps) == FrameOf(ps[0]) + Packed(ps[1..])
    ensures |Packed(ps)| >= 8
  {
    FrameLayout(ps[0].flag, ps[0].data);
  }

  lemma OneRunCovers(bytes: seq<Byte>)
    ensures Covers(bytes, OneRun(bytes))
  {
  }

  /** A frame that fills its own run: one good entry, then the following runs. */
  lemma EntriesAfterOwnRun(p: Payload, rest: seq<Byte>, lens: seq<nat>)
    requires Covers(rest, lens)
    ensures Covers(FrameOf(p) + rest, [|FrameOf(p)|] + lens)
    ensures Entries(FrameOf(p) + rest, [|FrameOf(p)|] + lens) == [Good(p)] + Entries(rest, lens)
  {
    var f := FrameOf(p);
    var all := [|f|] + lens;
    FrameLayout(p.flag, p.data);
    assert all[1..] == lens;
    assert Sum(all) == |f| + Sum(lens);
    StepOnFrame(p.flag, p.data, rest, all);
    EntriesFront(f + rest, all);
  }

  /** A frame at the start of a run that holds more: one good entry, then the rest of the run. */
  lemma EntriesAfterFrameInRun(p: Payload, rest: seq<Byte>)
    ensures Covers(FrameOf(p) + rest, OneRun(FrameOf(p) + rest))
    ensures Entries(FrameOf(p) + rest, OneRun(FrameOf(p) + rest)) == [Good(p)] + Entries(rest, OneRun(rest))
  {
    var f := FrameOf(p);
    var all := OneRun(f + rest);
    FrameLayout(p.flag, p.data);
    assert all == [|f| + |rest|] && all[1..] == [];
    OneRunCovers(f + rest);
    OneRunCovers(rest);
    StepOnFrame(p.flag, p.data, rest, all);
    var next := Step(f + rest, all);
    assert next.entry == Good(p) && next.bytes == rest;
    assert next.lens == OneRun(rest);
    EntriesFront(f + rest, all);
  }

  /** Frames packed into one run decode as one good entry each, in order. */
  lemma {:induction false} EntriesOfOneRun(ps: seq<Payload>)
    ensures Covers(Packed(ps), OneRun(Packed(ps)))
    ensures Entries(Packed(ps), OneRun(Packed(ps))) == Goods(ps)
  {
    OneRunCovers(Packed(ps));
    if ps != [] {
      var p, rest := ps[0], Packed(ps[1..]);
      PackedFront(ps);
      EntriesOfOneRun(ps[1..]);
      EntriesAfterFrameInRun(p, rest);
      calc {
        Entries(Packed(ps), OneRun(Packed(ps)));
        Entries(FrameOf(p) + rest, OneRun(FrameOf(p) + rest));
        [Good(p)] + Entries(rest, OneRun(rest));
        [Good(p)] + Goods(ps[1..]);
      }
    }
  }

  /** Frames in runs of their own decode as one good entry each, in order. */
  lemma {:induction false} EntriesOfSeparateRuns(ps: seq<Payload>)
    ensures Covers(Packed(ps), FrameLens(ps))
    ensures Entries(Packed(ps), FrameLens(ps)) == Goods(ps)
  {
    if ps != [] {
      var p, rest, lens := ps[0], Packed(ps[1..]), FrameLens(ps[1..]);
      PackedFront(ps);
      assert FrameLens(ps) == [|FrameOf(p)|] + lens;
      EntriesOfSeparateRuns(ps[1..]);
      EntriesAfterOwnRun(p, rest, lens);
      calc {
        Entries(Packed(ps), FrameLens(ps));
        Entries(FrameOf(p) + rest, [|FrameOf(p)|] + lens);
        [Good(p)] + Entries(rest, lens);
        [Good(p)] + Goods(ps[1..]);
      }
    }
  }

  /** Text with no alphabet character holds no message. */
  lemma DecodePlain(s: string)
    requires NoEnc(s)
    ensures DecodeBytesSpec(s) == Scan(s, [], [])
    ensures DecodeDataSpec(s) == Decoded(s, [NoMessage])
  {
    TokensOfPlainPrefix(s, []);
    assert s + [] == s && Plains(s) + [] == Plains(s);
    ScanPlains(s);
  }

  /** `decodeData('')` reports only that no message was detected. */
  lemma DecodeEmpty()
    ensures DecodeDataSpec("") == Decoded("", [NoMessage])
  {
    DecodePlain("");
  }

  /** A filtered string decodes to no message. */
  lemma DecodeFiltered(s: string)
    ensures DecodeDataSpec(Filtered(s)).entries == [NoMessage]
  {
    FilteredCarriesNothing(s);
  }

  /**
   * Frames encoded back to back between two stretches of ordinary text
   * decode as one good entry per frame, in order, and the cover is the text.
   */
  lemma DecodePacked(c1: string, ps: seq<Payload>, c2: string)
    requires NoEnc(c1) && NoEnc(c2) && ps != []
    ensures DecodeDataSpec(c1 + Encoding(Packed(ps)) + c2) == Decoded(c1 + c2, Goods(ps))
  {
    PackedFront(ps);
    DecodeEncoded(c1, Packed(ps), c2);
    EntriesOfOneRun(ps);
  }

  /** The frame round trip: one frame decodes as exactly one CRC-matched entry with its flag and payload. */
  lemma DecodeFrame(c1: string, flag: Byte, payload: seq<Byte>, c2: string)
    requires NoEnc(c1) && NoEnc(c2)
    ensures DecodeDataSpec(c1 + Encoding(FrameBytes(flag, payload)) + c2) ==
      Decoded(c1 + c2, [Message(true, CrcValue(payload) as nat, Some(flag), payload)])
  {
    var ps := [Payload(flag, payload)];
    assert Packed(ps) == FrameBytes(flag, payload) + Packed([]) by {
      PackedFront(ps);
      assert ps[1..] == [];
    }
    assert Packed(ps) == FrameBytes(flag, payload);
    DecodePacked(c1, ps, c2);
  }

  /** Two frames packed into one run decode as two entries, in order. */
  lemma DecodeTwoFrames(c1: string, p1: Payload, p2: Payload, c2: string)
    requires NoEnc(c1) && NoEnc(c2)
    ensures DecodeDataSpec(c1 + Encoding(FrameOf(p1) + FrameOf(p2)) + c2) == Decoded(c1 + c2, [Good(p1), Good(p2)])
  {
    var ps := [p1, p2];
    PackedFront(ps);
    PackedFront(ps[1..]);
    assert ps[1..][1..] == [];
    assert Packed(ps) == FrameOf(p1) + FrameOf(p2);
    DecodePacked(c1, ps, c2);
  }

  /**
   * `encodeText` then `decodeData`: the filtered text's UTF-8 bytes come back
   * in one CRC-matched text entry; an empty payload leaves no message.
   */
  lemma TextRoundTrip(c1: string, str: string, c2: string, utf8: string -> seq<Byte>)
    requires NoEnc(c1) && NoEnc(c2)
    ensures var payload := utf8(Filtered(str));
      DecodeDataSpec(c1 + TextCarrier(str, utf8) + c2) ==
      if payload == [] then Decoded(c1 + c2, [NoMessage])
      else Decoded(c1 + c2, [Message(true, CrcValue(payload) as nat, Some(TextFlag), payload)])
  {
    var payload := utf8(Filtered(str));
    if payload == [] {
      assert c1 + TextCarrier(str, utf8) + c2 == c1 + c2;
      DecodePlain(c1 + c2);
    } else {
      DecodeFrame(c1, TextFlag, payload, c2);
    }
  }

  /** `encodeFile` then `decodeData`: one CRC-matched file entry holding `type NUL name NUL bytes`. */
  lemma FileRoundTrip(c1: string, fileType: string, name: string, bytes: seq<Byte>, c2: string, utf8: string -> seq<Byte>)
    requires NoEnc(c1) && NoEnc(c2)
    ensures var pack := utf8(fileType + ['\0'] + name + ['\0']) + bytes;
      DecodeDataSpec(c1 + FileCarrier(fileType, name, bytes, utf8) + c2) ==
      Decoded(c1 + c2, [Message(true, CrcValue(pack) as nat, Some(FileFlag), pack)])
  {
    DecodeFrame(c1, FileFlag, utf8(fileType + ['\0'] + name + ['\0']) + bytes, c2);
  }

  /** Every call yields at least one entry, and "No message detected" only when the stream is empty. */
  lemma {:induction false} EntriesNoMessage(bytes: seq<Byte>, lens: seq<nat>)
    requires Covers(bytes, lens)
    ensures NoMessage !in Entries(bytes, lens)
    ensures |Frames(bytes, lens)| >= 1
    ensures NoMessage in Frames(bytes, lens) <==> bytes == []
    decreases Sum(lens)
  {
    if bytes != [] {
      var next := Step(bytes, lens);
      EntriesNoMessage(next.bytes, next.lens);
    }
  }

  /**
   * Two frames with cover text between them are two runs, and both come
   * back in order: the run counts are one per frame.
   */
  lemma DecodeSeparateFrames(c0: string, p1: Payload, c1: string, p2: Payload, c2: string)
    requires NoEnc(c0) && NoEnc(c1) && NoEnc(c2) && c1 != []
    ensures DecodeDataSpec(c0 + Encoding(FrameOf(p1)) + c1 + Encoding(FrameOf(p2)) + c2) ==
      Decoded(c0 + c1 + c2, [Good(p1), Good(p2)])
  {
    var f1, f2 := FrameOf(p1), FrameOf(p2);
    FrameLayout(p1.flag, p1.data);
    FrameLayout(p2.flag, p2.data);
    DecodeTwoEncoded(c0, f1, c1, f2, c2);
    var ps := [p1, p2];
    PackedFront(ps);
    PackedFront(ps[1..]);
    assert ps[1..] == [p2] && ps[1..][1..] == [];
    assert Packed(ps) == f1 + f2;
    assert FrameLens(ps) == [|f1|, |f2|];
    EntriesOfSeparateRuns(ps);
  }

  /**
   * A stream whose first run of `run` bytes fails its signature or CRC check
   * yields one entry for that run, then the entries of what follows the run.
   */
  lemma MismatchThenRest(s: seq<Byte>, run: nat, tail: seq<Byte>, tailLens: seq<nat>)
    requires 0 < run <= |s| && s[run..] == tail && Covers(tail, tailLens)
    requires !Signed(s) || !CrcMatch(s)
    ensures Covers(s, [run] + tailLens)
    ensures Entries(s, [run] + tailLens) ==
      [if Signed(s) then FrameEntry(s) else ProtocolMismatch(tail)] + Entries(tail, tailLens)
  {
    var lens := [run] + tailLens;
    assert lens[0] == run && lens[1..] == tailLens;
    assert forall n :: n in lens ==> n == run || n in tailLens;
    assert Sum(lens) == run + Sum(tailLens);
    assert Drop(s, run) == tail;
    EntriesFront(s, lens);
  }

  /**
   * Resynchronisation after a bad frame: when the stream fails its signature
   * or its CRC check, the whole first run goes, including any good frames
   * packed behind the bad one in that run (`ps`); the frames in the runs
   * after it (`qs`) all decode.
   */
  lemma MismatchResync(bad: seq<Byte>, ps: seq<Payload>, qs: seq<Payload>)
    requires bad != []
    requires var s := bad + Packed(ps) + Packed(qs); !Signed(s) || !CrcMatch(s)
    ensures var s := bad + Packed(ps) + Packed(qs);
      var lens := [|bad| + |Packed(ps)|] + FrameLens(qs);
      Covers(s, lens) &&
      Entries(s, lens) == [if Signed(s) then FrameEntry(s) else ProtocolMismatch(Packed(qs))] + Goods(qs)
  {
    var s := bad + Packed(ps) + Packed(qs);
    EntriesOfSeparateRuns(qs);
    assert s[|bad| + |Packed(ps)|..] == Packed(qs);
    MismatchThenRest(s, |bad| + |Packed(ps)|, Packed(qs), FrameLens(qs));
  }

  /**
   * A noise run in cover text: the cover gets its nibble values as
   * comma-joined decimals, and the only entry is "No message detected".
   */
  lemma DecodeNoise(c1: string, r: string, c2: string)
    requires NoEnc(c1) && NoEnc(c2)
    requires 0 < |r| < MinRun && AllEnc(r)
    ensures DecodeDataSpec(c1 + r + c2) == Decoded(c1 + Decimals(Nibbles(r)) + c2, [NoMessage])
  {
    DecodeShortRun(c1, r, c2);
  }
}
