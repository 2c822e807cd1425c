/**
 * `decodeBytes`: split a carrier string into its cover text, the bytes hidden
 * in its long runs, and the byte count of each long run (`seqLens`).
 *
 * A run shorter than `MinRun` characters is noise: it goes to the cover, and
 * since it is appended as a number array (`cover += seq`) what lands there is
 * the comma-joined decimal values of its nibbles. A longer run feeds its
 * nibbles to the byte stream, its last nibble dropped when the run is odd.
 */
module Decoder {
  import opened Alphabet
  import opened Runs
  import opened Encoder

  /** Runs shorter than this are ignored as noise. */
  const MinRun: nat := 16

  /** The decimal digit character for d. */
  function Digit(d: int): (c: char)
    requires 0 <= d < 10
    ensures '0' <= c <= '9'
  {
    ('0' as int + d) as char
  }

  /** `String(n)` for a nibble: one or two decimal digits. */
  function Decimal(n: Nibble): (s: string)
    ensures 1 <= |s| <= 2 && forall k :: 0 <= k < |s| ==> '0' <= s[k] <= '9'
  {
    if n < 10 then [Digit(n)] else ['1', Digit(n - 10)]
  }

  /** `Array.prototype.toString` on a number array: the values joined by commas. */
  function Decimals(ns: seq<Nibble>): string
  {
    if ns == [] then []
    else if |ns| == 1 then Decimal(ns[0])
    else Decimal(ns[0]) + [','] + Decimals(ns[1..])
  }

  /** What one token adds to `cover`. */
  function CoverPiece(t: Token): string
  {
    match t
    case Plain(c) => [c]
    case Run(ns) => if |ns| < MinRun then Decimals(ns) else []
  }

  /** What one token adds to `nybles`: a long run's nibbles up to an even count. */
  function KeptNibbles(t: Token): (r: seq<Nibble>)
    ensures |r| % 2 == 0
  {
    match t
    case Plain(_) => []
    case Run(ns) => if |ns| < MinRun then [] else ns[..|ns| - |ns| % 2]
  }

  /** What one token adds to `seqLens`: a long run's byte count `seq.length >> 1`. */
  function LenPiece(t: Token): seq<nat>
  {
    match t
    case Plain(_) => []
    case Run(ns) => if |ns| < MinRun then [] else [|ns| / 2]
  }

  /** The three accumulators after scanning the tokens ts. */
  function CoverOf(ts: seq<Token>): string { FlatMap(ts, CoverPiece) }
  function NybblesOf(ts: seq<Token>): seq<Nibble> { FlatMap(ts, KeptNibbles) }
  function LensOf(ts: seq<Token>): seq<nat> { FlatMap(ts, LenPiece) }

  /** The byte `hi << 4 | lo`. */
  function Combine(hi: Nibble, lo: Nibble): Byte
  {
    hi as int * 16 + lo as int
  }

  /** The byte of every consecutive pair of nibbles. */
  function Pairs(ns: seq<Nibble>): seq<Byte>
    requires |ns| % 2 == 0
  {
    seq(|ns| / 2, k requires 0 <= k < |ns| / 2 => Combine(ns[2 * k], ns[2 * k + 1]))
  }

  lemma {:induction false} NybblesEven(ts: seq<Token>)
    ensures |NybblesOf(ts)| % 2 == 0
  {
    if ts != [] {
      NybblesEven(ts[1..]);
    }
  }

  /** The result of `decodeBytes(str)`. */
  datatype Scan = Scan(cover: string, bytes: seq<Byte>, seqLens: seq<nat>)

  /** `decodeBytes(str)` as a function of the tokens of str. */
  function DecodeBytesSpec(str: string): Scan
  {
    var ts := Tokens(str);
    NybblesEven(ts);
    Scan(CoverOf(ts), Pairs(NybblesOf(ts)), LensOf(ts))
  }

  /** Scanning one more token appends its three pieces. */
  lemma ScanStep(done: seq<Token>, t: Token)
    ensures CoverOf(done + [t]) == CoverOf(done) + CoverPiece(t)
    ensures NybblesOf(done + [t]) == NybblesOf(done) + KeptNibbles(t)
    ensures LensOf(done + [t]) == LensOf(done) + LenPiece(t)
  {
    FlatMapSnoc(done, t, CoverPiece);
    FlatMapSnoc(done, t, KeptNibbles);
    FlatMapSnoc(done, t, LenPiece);
  }

  /** What one plain character contributes to the three outputs. */
  lemma PlainPieces(c: char)
    ensures CoverPiece(Plain(c)) == [c] && KeptNibbles(Plain(c)) == [] && LenPiece(Plain(c)) == []
  {
  }

  /** What one run contributes: a short run goes to the cover, a long one to the data. */
  lemma RunPieces(ns: seq<Nibble>)
    ensures |ns| < MinRun ==> CoverPiece(Run(ns)) == Decimals(ns) && KeptNibbles(Run(ns)) == [] && LenPiece(Run(ns)) == []
    ensures |ns| >= MinRun ==>
      CoverPiece(Run(ns)) == [] && KeptNibbles(Run(ns)) == ns[..|ns| - |ns| % 2] && LenPiece(Run(ns)) == [|ns| / 2]
  {
  }

  /**
   * The inner do-while of `decodeBytes`: from an alphabet character at
   * `start`, collect nibble values up to the first character outside the
   * alphabet or the end of the string.
   */
  method TakeRun(str: string, start: nat) returns (run: seq<Nibble>, i: nat)
    requires start < |str| && IsEncChar(str[start])
    ensures start < i <= |str| && AllEnc(str[start..i])
    ensures i == |str| || !IsEncChar(str[i])
    ensures run == Nibbles(str[start..i])
  {
    var val := ValOf(str[start]);
    i := start;
    run := [];
    while val.Some?
      invariant start <= i < |str| || (start < i == |str|)
      invariant AllEnc(str[start..i]) && run == Nibbles(str[start..i])
      invariant val == (if i < |str| then ValOf(str[i]) else None)
      decreases |str| - i
    {
      assert str[start..i + 1] == str[start..i] + [str[i]];
      run := run + [val.value];
      i := i + 1;
      val := if i < |str| then ValOf(str[i]) else None;
    }
  }

  /**
   * The scanning loop of `decodeBytes`: one character outside the alphabet,
   * or one maximal run, per iteration.
   */
  method ScanRuns(str: string) returns (cover: string, nybles: seq<Nibble>, seqLens: seq<nat>)
    ensures cover == CoverOf(Tokens(str))
    ensures nybles == NybblesOf(Tokens(str))
    ensures seqLens == LensOf(Tokens(str))
  {
    cover, nybles, seqLens := "", [], [];
    var i := 0;
    ghost var done: seq<Token> := [];
    while i < |str|
      invariant i <= |str|
      invariant done + Tokens(str[i..]) == Tokens(str)
      invariant cover == CoverOf(done)
      invariant nybles == NybblesOf(done)
      invariant seqLens == LensOf(done)
    {
      ghost var t: Token;
      var next: nat;
      if ValOf(str[i]).None? {
        t := Plain(str[i]);
        TokensAtPlainFrom(str, i);
        PlainPieces(str[i]);
        cover := cover + [str[i]];
        next := i + 1;
      } else {
        var run;
        run, next := TakeRun(str, i);
        t := Run(run);
        TokensAtRunFrom(str, i, next);
        RunPieces(run);
        if |run| < MinRun {
          cover := cover + Decimals(run);
        } else {
          if |run| % 2 == 1 {
            run := run[..|run| - 1];
          }
          assert KeptNibbles(t) == run && LenPiece(t) == [|run| / 2];
          nybles := nybles + run;
          seqLens := seqLens + [|run| / 2];
        }
      }
      Advance(str, done, i, next, t);
      ScanStep(done, t);
      done := done + [t];
      i := next;
    }
    assert done + [] == done;
  }

  /** The pairing loop of `decodeBytes`: `nybles[i] << 4 | nybles[i + 1]` for even i. */
  method PairUp(nybles: seq<Nibble>) returns (bytes: seq<Byte>)
    requires |nybles| % 2 == 0
    ensures bytes == Pairs(nybles)
  {
    bytes := [];
    var i := 0;
    while i < |nybles|
      invariant i <= |nybles| && i % 2 == 0
      invariant |bytes| == i / 2
      invariant forall k :: 0 <= k < i / 2 ==> bytes[k] == Combine(nybles[2 * k], nybles[2 * k + 1])
    {
      bytes := bytes + [Combine(nybles[i], nybles[i + 1])];
      i := i + 2;
    }
  }

  /** `decodeBytes(str)`. */
  method DecodeBytes(str: string) returns (r: Scan)
    ensures r == DecodeBytesSpec(str)
  {
    var cover, nybles, seqLens := ScanRuns(str);
    NybblesEven(Tokens(str));
    var bytes := PairUp(nybles);
    r := Scan(cover, bytes, seqLens);
  }

  /** The accumulators distribute over concatenation of token sequences. */
  lemma ScanConcat(a: seq<Token>, b: seq<Token>)
    ensures CoverOf(a + b) == CoverOf(a) + CoverOf(b)
    ensures NybblesOf(a + b) == NybblesOf(a) + NybblesOf(b)
    ensures LensOf(a + b) == LensOf(a) + LensOf(b)
  {
    FlatMapConcat(a, b, CoverPiece);
    FlatMapConcat(a, b, KeptNibbles);
    FlatMapConcat(a, b, LenPiece);
  }

  /** The accumulators of a single token are its pieces. */
  lemma ScanOne(t: Token)
    ensures CoverOf([t]) == CoverPiece(t)
    ensures NybblesOf([t]) == KeptNibbles(t)
    ensures LensOf([t]) == LenPiece(t)
  {
    ScanStep([], t);
    assert [] + [t] == [t];
  }

  /** Text outside the alphabet goes to the cover unchanged and adds no bytes. */
  lemma {:induction false} ScanPlains(c: string)
    ensures CoverOf(Plains(c)) == c
    ensures NybblesOf(Plains(c)) == [] && LensOf(Plains(c)) == []
  {
    if c != [] {
      ScanPlains(c[1..]);
      assert Plains(c)[1..] == Plains(c[1..]);
      assert CoverOf(Plains(c)) == [c[0]] + CoverOf(Plains(c[1..]));
    }
  }

  /** Each long run contributes half its length in bytes, and at least MinRun / 2 of them. */
  lemma {:induction false} LensAccount(ts: seq<Token>)
    ensures 2 * Sum(LensOf(ts)) == |NybblesOf(ts)|
    ensures forall n :: n in LensOf(ts) ==> n >= MinRun / 2
  {
    if ts != [] {
      LensAccount(ts[1..]);
      SumConcat(LenPiece(ts[0]), LensOf(ts[1..]));
    }
  }

  /**
   * `decodeBytes` accounting: the run byte counts add up to the byte count,
   * and every entry is at least 8.
   */
  lemma SeqLensAccount(str: string)
    ensures Sum(DecodeBytesSpec(str).seqLens) == |DecodeBytesSpec(str).bytes|
    ensures forall n :: n in DecodeBytesSpec(str).seqLens ==> n >= 8
  {
    LensAccount(Tokens(str));
  }

  /** Nothing in the cover is an alphabet character: noise becomes digits and commas. */
  lemma {:induction false} DecimalsNoEnc(ns: seq<Nibble>)
    ensures NoEnc(Decimals(ns))
  {
    if |ns| > 1 {
      DecimalsNoEnc(ns[1..]);
      var d := Decimal(ns[0]);
      assert Decimals(ns) == d + [','] + Decimals(ns[1..]);
      forall k | 0 <= k < |Decimals(ns)| ensures !IsEncChar(Decimals(ns)[k]) {
        if k > |d| {
          assert Decimals(ns)[k] == Decimals(ns[1..])[k - |d| - 1];
        }
      }
    }
  }

  lemma {:induction false} CoverNoEncOf(ts: seq<Token>)
    requires WellFormed(ts)
    ensures NoEnc(CoverOf(ts))
  {
    if ts != [] {
      assert WellFormed(ts[1..]) by {
        forall k | 0 <= k < |ts| - 1 ensures ts[1..][k] == ts[k + 1] { }
      }
      CoverNoEncOf(ts[1..]);
      match ts[0]
      case Plain(c) =>
      case Run(ns) => DecimalsNoEnc(ns);
      assert CoverOf(ts) == CoverPiece(ts[0]) + CoverOf(ts[1..]);
    }
  }

  /** The cover `decodeBytes` returns never holds an alphabet character. */
  lemma CoverNoEnc(str: string)
    ensures NoEnc(DecodeBytesSpec(str).cover)
  {
    TokensWellFormed(str);
    CoverNoEncOf(Tokens(str));
  }

  /** Combining the two halves of a byte gives the byte back. */
  lemma PairsOfByteNibbles(bytes: seq<Byte>)
    ensures |ByteNibbles(bytes)| % 2 == 0
    ensures Pairs(ByteNibbles(bytes)) == bytes
  {
    ByteNibblesShape(bytes);
    var ns := ByteNibbles(bytes);
    var p := Pairs(ns);
    assert |p| == |bytes|;
    forall k | 0 <= k < |bytes|
      ensures p[k] == bytes[k]
    {
      var hi, lo := ns[2 * k], ns[2 * k + 1];
      assert p[k] == Combine(hi, lo);
      assert hi == bytes[k] / 16 && lo == bytes[k] % 16;
    }
  }

  /**
   * A run of at least MinRun characters between two stretches of ordinary
   * text: the cover is the text, the bytes are the run's nibbles paired up to
   * an even count, and there is one length entry.
   */
  lemma DecodeLongRun(c1: string, r: string, c2: string)
    requires NoEnc(c1) && NoEnc(c2)
    requires |r| >= MinRun && AllEnc(r)
    ensures var ns := Nibbles(r)[..|r| - |r| % 2];
      DecodeBytesSpec(c1 + r + c2) == Scan(c1 + c2, Pairs(ns), [|r| / 2])
  {
    TokensOfIsolatedRun(c1, r, c2);
    ScanConcat(Plains(c1) + [Run(Nibbles(r))], Plains(c2));
    ScanConcat(Plains(c1), [Run(Nibbles(r))]);
    ScanPlains(c1);
    ScanPlains(c2);
    ScanOne(Run(Nibbles(r)));
  }

  /** A run shorter than MinRun: its values land in the cover as decimals, and no bytes come out. */
  lemma DecodeShortRun(c1: string, r: string, c2: string)
    requires NoEnc(c1) && NoEnc(c2)
    requires 0 < |r| < MinRun && AllEnc(r)
    ensures DecodeBytesSpec(c1 + r + c2) == Scan(c1 + Decimals(Nibbles(r)) + c2, [], [])
  {
    TokensOfIsolatedRun(c1, r, c2);
    ScanConcat(Plains(c1) + [Run(Nibbles(r))], Plains(c2));
    ScanConcat(Plains(c1), [Run(Nibbles(r))]);
    ScanPlains(c1);
    ScanPlains(c2);
    ScanOne(Run(Nibbles(r)));
  }

  /** The trailing character of an odd run carries no data: dropping it changes no byte. */
  lemma OddRunDropsLastNibble(c1: string, r: string, c2: string)
    requires NoEnc(c1) && NoEnc(c2)
    requires |r| > MinRun && |r| % 2 == 1 && AllEnc(r)
    ensures DecodeBytesSpec(c1 + r + c2).bytes == DecodeBytesSpec(c1 + r[..|r| - 1] + c2).bytes
    ensures |DecodeBytesSpec(c1 + r + c2).bytes| == (|r| - 1) / 2
  {
    var r' := r[..|r| - 1];
    DecodeLongRun(c1, r, c2);
    DecodeLongRun(c1, r', c2);
    assert Nibbles(r)[..|r| - 1] == Nibbles(r');
    assert Nibbles(r')[..|r'|] == Nibbles(r');
  }

  /**
   * The scanner inverts the encoder: bytes hidden between two stretches of
   * ordinary text come back out, as one run of |b| bytes, and the cover is
   * the text around them.
   */
  lemma DecodeEncoded(c1: string, b: seq<Byte>, c2: string)
    requires NoEnc(c1) && NoEnc(c2)
    requires |b| >= MinRun / 2
    ensures DecodeBytesSpec(c1 + Encoding(b) + c2) == Scan(c1 + c2, b, [|b|])
  {
    EncodingShape(b);
    EncodingNibbles(b);
    DecodeLongRun(c1, Encoding(b), c2);
    PairsOfByteNibbles(b);
    var ns := Nibbles(Encoding(b));
    assert ns[..|ns| - |ns| % 2] == ns;
  }

  /** Pairing distributes over concatenation at an even boundary. */
  lemma PairsConcat(a: seq<Nibble>, b: seq<Nibble>)
    requires |a| % 2 == 0 && |b| % 2 == 0
    ensures Pairs(a + b) == Pairs(a) + Pairs(b)
  {
    var l, r := Pairs(a + b), Pairs(a) + Pairs(b);
    assert |l| == |r|;
    forall k | 0 <= k < |l|
      ensures l[k] == r[k]
    {
      if k < |a| / 2 {
        assert (a + b)[2 * k] == a[2 * k] && (a + b)[2 * k + 1] == a[2 * k + 1];
      } else {
        var j := k - |a| / 2;
        assert (a + b)[2 * k] == b[2 * j] && (a + b)[2 * k + 1] == b[2 * j + 1];
      }
    }
  }

  /** When a string scans as its two parts side by side, it decodes as them side by side. */
  lemma ScanSplit(a: string, b: string)
    requires Tokens(a + b) == Tokens(a) + Tokens(b)
    ensures var x, y := DecodeBytesSpec(a), DecodeBytesSpec(b);
      DecodeBytesSpec(a + b) == Scan(x.cover + y.cover, x.bytes + y.bytes, x.seqLens + y.seqLens)
  {
    ScanConcat(Tokens(a), Tokens(b));
    NybblesEven(Tokens(a));
    NybblesEven(Tokens(b));
    PairsConcat(NybblesOf(Tokens(a)), NybblesOf(Tokens(b)));
  }

  /**
   * Two encodings kept apart by cover text are two runs: the cover is the
   * text around them, the bytes are both byte sequences in order, and there
   * is one count per run.
   */
  lemma DecodeTwoEncoded(c0: string, b1: seq<Byte>, c1: string, b2: seq<Byte>, c2: string)
    requires NoEnc(c0) && NoEnc(c1) && NoEnc(c2) && c1 != []
    requires |b1| >= MinRun / 2 && |b2| >= MinRun / 2
    ensures DecodeBytesSpec(c0 + Encoding(b1) + c1 + Encoding(b2) + c2) == Scan(c0 + c1 + c2, b1 + b2, [|b1|, |b2|])
  {
    var e1, e2 := Encoding(b1), Encoding(b2);
    var a, b := c0 + e1, c1 + e2 + c2;
    assert c0 + e1 + c1 + e2 + c2 == a + b;
    EncodingShape(b1);
    assert b[0] == c1[0];
    TokensAfterRun(c0, e1, b);
    ScanSplit(a, b);
    DecodeEncoded(c0, b1, []);
    assert c0 + e1 + [] == a && c0 + [] == c0;
    DecodeEncoded(c1, b2, c2);
    assert c1 + e2 + c2 == b;
  }
}
