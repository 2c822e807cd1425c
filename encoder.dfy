/**
 * `encodeBytes`: every byte of every present argument becomes two alphabet
 * characters, the high nibble first.
 */
module Encoder {
  import opened Alphabet
  import opened Runs

  /** The two nibbles of a byte: `b >> 4` then `b & 0xF`. */
  function Halves(b: Byte): seq<Nibble>
  {
    [b / 16, b % 16]
  }

  /** The nibbles of a byte sequence, two per byte, high first. */
  function ByteNibbles(bytes: seq<Byte>): seq<Nibble>
  {
    FlatMap(bytes, Halves)
  }

  /** The two characters `encChars[b >> 4] + encChars[b & 0xF]`. */
  function EncodeByte(b: Byte): string
  {
    [CharOf(b / 16), CharOf(b % 16)]
  }

  /** The carrier characters for a byte sequence. */
  function Encoding(bytes: seq<Byte>): string
  {
    FlatMap(bytes, EncodeByte)
  }

  /** An argument of `encodeBytes`: a byte array, or a falsy value that is skipped. */
  function Given(arg: Option<seq<Byte>>): seq<Byte>
  {
    match arg
    case None => []
    case Some(bytes) => bytes
  }

  /** The bytes of all present arguments, in order. */
  function Present(args: seq<Option<seq<Byte>>>): seq<Byte>
  {
    FlatMap(args, Given)
  }

  /** `encodeBytes(...args)`. */
  method EncodeBytes(args: seq<Option<seq<Byte>>>) returns (out: string)
    ensures out == Encoding(Present(args))
  {
    out := "";
    for a := 0 to |args|
      invariant out == Encoding(Present(args[..a]))
    {
      assert args[..a + 1] == args[..a] + [args[a]];
      FlatMapSnoc(args[..a], args[a], Given);
      ghost var before := Present(args[..a]);
      assert Present(args[..a + 1]) == before + Given(args[a]);
      if args[a].None? {
        assert before + Given(args[a]) == before;
      } else {
        var arg := args[a].value;
        assert before + arg[..0] == before;
        for i := 0 to |arg|
          invariant out == Encoding(before + arg[..i])
        {
          assert arg[..i + 1] == arg[..i] + [arg[i]];
          assert before + arg[..i + 1] == (before + arg[..i]) + [arg[i]];
          FlatMapSnoc(before + arg[..i], arg[i], EncodeByte);
          out := out + [CharOf(arg[i] / 16), CharOf(arg[i] % 16)];
        }
        assert arg[..|arg|] == arg;
        assert Given(args[a]) == arg;
      }
    }
    assert args[..|args|] == args;
  }

  /** Two characters per byte, all from the alphabet; position 2k and 2k+1 spell byte k. */
  lemma {:induction false} EncodingShape(bytes: seq<Byte>)
    ensures |Encoding(bytes)| == 2 * |bytes|
    ensures AllEnc(Encoding(bytes))
    ensures forall k :: 0 <= k < |bytes| ==>
      Encoding(bytes)[2 * k] == CharOf(bytes[k] / 16) && Encoding(bytes)[2 * k + 1] == CharOf(bytes[k] % 16)
  {
    if bytes != [] {
      EncodingShape(bytes[1..]);
      var e := Encoding(bytes);
      assert e == EncodeByte(bytes[0]) + Encoding(bytes[1..]);
      forall k | 1 <= k < |bytes|
        ensures e[2 * k] == CharOf(bytes[k] / 16) && e[2 * k + 1] == CharOf(bytes[k] % 16)
      {
        assert bytes[1..][k - 1] == bytes[k];
        assert e[2 * k] == Encoding(bytes[1..])[2 * (k - 1)];
        assert e[2 * k + 1] == Encoding(bytes[1..])[2 * (k - 1) + 1];
      }
    }
  }

  /** The nibble sequence has the same shape: 2k and 2k+1 are the halves of byte k. */
  lemma {:induction false} ByteNibblesShape(bytes: seq<Byte>)
    ensures |ByteNibbles(bytes)| == 2 * |bytes|
    ensures forall k :: 0 <= k < |bytes| ==>
      ByteNibbles(bytes)[2 * k] == bytes[k] / 16 && ByteNibbles(bytes)[2 * k + 1] == bytes[k] % 16
  {
    if bytes != [] {
      ByteNibblesShape(bytes[1..]);
      var ns := ByteNibbles(bytes);
      assert ns == Halves(bytes[0]) + ByteNibbles(bytes[1..]);
      forall k | 1 <= k < |bytes|
        ensures ns[2 * k] == bytes[k] / 16 && ns[2 * k + 1] == bytes[k] % 16
      {
        assert bytes[1..][k - 1] == bytes[k];
        assert ns[2 * k] == ByteNibbles(bytes[1..])[2 * (k - 1)];
        assert ns[2 * k + 1] == ByteNibbles(bytes[1..])[2 * (k - 1) + 1];
      }
    }
  }

  /** The carrier characters of a byte sequence read back as exactly its nibbles. */
  lemma EncodingNibbles(bytes: seq<Byte>)
    ensures AllEnc(Encoding(bytes))
    ensures Nibbles(Encoding(bytes)) == ByteNibbles(bytes)
  {
    EncodingShape(bytes);
    ByteNibblesShape(bytes);
    var e, ns := Encoding(bytes), ByteNibbles(bytes);
    forall j | 0 <= j < |e| ensures Nibbles(e)[j] == ns[j] {
      var k := j / 2;
      assert j == 2 * k || j == 2 * k + 1;
      if j == 2 * k {
        AlphabetBijection(e[j], bytes[k] / 16);
      } else {
        AlphabetBijection(e[j], bytes[k] % 16);
      }
    }
  }

  /** Encoding distributes over concatenation, so separate arguments encode back to back. */
  lemma EncodingConcat(a: seq<Byte>, b: seq<Byte>)
    ensures Encoding(a + b) == Encoding(a) + Encoding(b)
  {
    FlatMapConcat(a, b, EncodeByte);
  }
}
