/**
 * The plaintext frame and the two encoders that emit it:
 *
 *   0x44 0x00 | CRC-32 of the payload, big-endian | flag | VLQ(payload length) | payload
 *
 * `0x44 0x00` ('D' and version 0) is the protocol signature. Text frames carry
 * flag 0x1, file frames 0x2. The UTF-8 encoder is a parameter of the model.
 */
module Frame {
  import opened Alphabet
  import opened Vlq
  import opened Crc32
  import opened Runs
  import opened Encoder
  import opened Filter

  /** Protocol signature and version. */
  const Signature: seq<Byte> := [0x44, 0x00]

  /** Data type flags of an unencrypted frame. */
  const TextFlag: Byte := 0x1
  const FileFlag: Byte := 0x2

  /** The bytes of one frame. */
  function FrameBytes(flag: Byte, payload: seq<Byte>): (f: seq<Byte>)
  {
    Signature + BigEndian4(CrcValue(payload)) + [flag] + VlqBytes(|payload|) + payload
  }

  /** The table `crc32` is called with. */
  predicate IsCrcTable(table: seq<bv32>)
  {
    |table| == 256 && forall n: Byte :: table[n] == TableEntry(n)
  }

  /** A frame, field by field: its length and where each field sits. */
  lemma FrameLayout(flag: Byte, payload: seq<Byte>)
    ensures var f := FrameBytes(flag, payload); var v := VlqBytes(|payload|);
      |f| == 7 + |v| + |payload| && |f| >= 8 &&
      f[..2] == Signature && f[2..6] == BigEndian4(CrcValue(payload)) && f[6] == flag &&
      f[7..7 + |v|] == v && f[7 + |v|..] == payload
  {
    VlqShape(|payload|);
  }

  /**
   * `encodeText(str)` without a master key: the filtered text's UTF-8 bytes in
   * a text frame, or no characters at all when those bytes are empty.
   */
  function TextCarrier(str: string, utf8: string -> seq<Byte>): string
  {
    var payload := utf8(Filtered(str));
    if payload == [] then "" else Encoding(FrameBytes(TextFlag, payload))
  }

  /** `encodeFile(type, name, bytes)`: `type NUL name NUL` in UTF-8, then the file bytes, in a file frame. */
  function FileCarrier(fileType: string, name: string, bytes: seq<Byte>, utf8: string -> seq<Byte>): string
  {
    Encoding(FrameBytes(FileFlag, utf8(fileType + ['\0'] + name + ['\0']) + bytes))
  }

  /** The first argument's bytes come first. */
  lemma PresentFront(args: seq<Option<seq<Byte>>>)
    requires args != []
    ensures Present(args) == Given(args[0]) + Present(args[1..])
  {
  }

  /** The arguments `encodeText` passes to `encodeBytes`: the two salt arguments are absent. */
  lemma PresentTextArgs(a: seq<Byte>, b: seq<Byte>, c: seq<Byte>, d: seq<Byte>, e: seq<Byte>)
    ensures Present([Some(a), Some(b), Some(c), Some(d), None, None, Some(e)]) == a + b + c + d + e
  {
    var s0 := [Some(a), Some(b), Some(c), Some(d), None, None, Some(e)];
    var s1 := s0[1..]; var s2 := s1[1..]; var s3 := s2[1..]; var s4 := s3[1..];
    var s5 := s4[1..]; var s6 := s5[1..];
    assert s6 == [Some(e)] && s6[1..] == [];
    PresentFront(s6);
    PresentFront(s5);
    PresentFront(s4);
    assert Present(s4) == e;
    calc {
      Present(s0);
      a + Present(s1);
      a + (b + Present(s2));
      a + (b + (c + Present(s3)));
      a + (b + (c + (d + Present(s4))));
      a + b + c + d + e;
    }
  }

  /** The arguments `encodeFile` passes to `encodeBytes`. */
  lemma PresentFileArgs(a: seq<Byte>, b: seq<Byte>, c: seq<Byte>, d: seq<Byte>, e: seq<Byte>)
    ensures Present([Some(a), Some(b), Some(c), Some(d), Some(e)]) == a + b + c + d + e
  {
    var s0 := [Some(a), Some(b), Some(c), Some(d), Some(e)];
    var s1 := s0[1..]; var s2 := s1[1..]; var s3 := s2[1..]; var s4 := s3[1..];
    assert s4 == [Some(e)] && s4[1..] == [];
    PresentFront(s4);
    assert Present(s4) == e;
    calc {
      Present(s0);
      a + Present(s1);
      a + (b + Present(s2));
      a + (b + (c + Present(s3)));
      a + (b + (c + (d + Present(s4))));
      a + b + c + d + e;
    }
  }

  /** `encodeText(str)`. */
  method EncodeText(table: seq<bv32>, str: string, utf8: string -> seq<Byte>) returns (out: string)
    requires IsCrcTable(table)
    ensures out == TextCarrier(str, utf8)
  {
    var filtered := FilterStr(str);
    var bytes := utf8(filtered);
    if |bytes| > 0 {
      var crc, crcBytes := Crc32.Crc32(table, bytes);
      var len := EncodeLength(|bytes|);
      // `salt && [0x0]` and `salt` are both undefined here, so they are skipped.
      out := EncodeBytes([Some(Signature), Some(crcBytes), Some([TextFlag]), Some(len), None, None, Some(bytes)]);
      PresentTextArgs(Signature, crcBytes, [TextFlag], len, bytes);
    } else {
      out := "";
    }
  }

  /** `encodeFile(type, name, bytes)`. */
  method EncodeFile(table: seq<bv32>, fileType: string, name: string, bytes: seq<Byte>, utf8: string -> seq<Byte>)
    returns (out: string)
    requires IsCrcTable(table)
    ensures out == FileCarrier(fileType, name, bytes, utf8)
  {
    var head := utf8(fileType + ['\0'] + name + ['\0']);
    var pack := head + bytes;
    var crc, crcBytes := Crc32.Crc32(table, pack);
    var len := EncodeLength(|pack|);
    out := EncodeBytes([Some(Signature), Some(crcBytes), Some([FileFlag]), Some(len), Some(pack)]);
    PresentFileArgs(Signature, crcBytes, [FileFlag], len, pack);
  }

  /** An empty payload gives no characters; otherwise two alphabet characters per frame byte. */
  lemma TextCarrierShape(str: string, utf8: string -> seq<Byte>)
    ensures var payload := utf8(Filtered(str));
      (TextCarrier(str, utf8) == "" <==> payload == []) &&
      AllEnc(TextCarrier(str, utf8)) &&
      (payload != [] ==> |TextCarrier(str, utf8)| == 2 * |FrameBytes(TextFlag, payload)|)
  {
    var payload := utf8(Filtered(str));
    if payload != [] {
      FrameLayout(TextFlag, payload);
      EncodingShape(FrameBytes(TextFlag, payload));
    }
  }
}
