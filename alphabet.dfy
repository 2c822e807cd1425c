/**
 * The fixed nibble alphabet: sixteen invisible BMP code points, each standing
 * for one 4-bit value. The order of the table is part of the wire format.
 */
module Alphabet {

  /** A byte as the source handles it: a number in 0..255. */
  type Byte = b: int | 0 <= b < 256

  /** A half-byte, one alphabet character's worth of data. */
  type Nibble = n: int | 0 <= n < 16

  datatype Option<+T> = None | Some(value: T)

  /** `encChars`: the alphabet characters in value order. */
  const EncChars: seq<char> := [
    '\U{200C}', // zero-width non-joiner
    '\U{200D}', // zero-width joiner
    '\U{2060}', // word joiner
    '\U{2061}', // function application
    '\U{2062}', // invisible times
    '\U{2063}', // invisible separator
    '\U{2064}', // invisible plus
    '\U{206A}', // inhibit symmetric swapping
    '\U{206B}', // activate symmetric swapping
    '\U{206C}', // inhibit Arabic form shaping
    '\U{206D}', // activate Arabic form shaping
    '\U{206E}', // national digit shapes
    '\U{206F}', // nominal digit shapes
    '\U{FE00}', // variation selector-1
    '\U{FE01}', // variation selector-2
    '\U{FEFF}'  // zero-width non-breaking space
  ]

  /** `encVals[c]`: the value of an alphabet character, None (undefined) for any other. */
  function ValOf(c: char): Option<Nibble>
  {
    match c
    case '\U{200C}' => Some(0x0)
    case '\U{200D}' => Some(0x1)
    case '\U{2060}' => Some(0x2)
    case '\U{2061}' => Some(0x3)
    case '\U{2062}' => Some(0x4)
    case '\U{2063}' => Some(0x5)
    case '\U{2064}' => Some(0x6)
    case '\U{206A}' => Some(0x7)
    case '\U{206B}' => Some(0x8)
    case '\U{206C}' => Some(0x9)
    case '\U{206D}' => Some(0xA)
    case '\U{206E}' => Some(0xB)
    case '\U{206F}' => Some(0xC)
    case '\U{FE00}' => Some(0xD)
    case '\U{FE01}' => Some(0xE)
    case '\U{FEFF}' => Some(0xF)
    case _ => None
  }

  predicate IsEncChar(c: char)
  {
    ValOf(c).Some?
  }

  /** Every character of `s` belongs to the alphabet. */
  predicate AllEnc(s: string)
  {
    forall k :: 0 <= k < |s| ==> IsEncChar(s[k])
  }

  /** No character of `s` belongs to the alphabet. */
  predicate NoEnc(s: string)
  {
    forall k :: 0 <= k < |s| ==> !IsEncChar(s[k])
  }

  /** The character for a nibble, `encChars[v]`. */
  function CharOf(v: Nibble): (c: char)
    ensures ValOf(c) == Some(v)
  {
    EncChars[v]
  }

  /** The two lookups are inverse to each other, in both directions. */
  lemma AlphabetBijection(c: char, v: Nibble)
    ensures ValOf(c) == Some(v) <==> CharOf(v) == c
  {
  }

  /** The nibble values of a run of alphabet characters. */
  function Nibbles(s: string): seq<Nibble>
    requires AllEnc(s)
  {
    seq(|s|, k requires 0 <= k < |s| => ValOf(s[k]).value)
  }

  /** The alphabet characters that spell out nibbles `ns`, in order. */
  function Chars(ns: seq<Nibble>): (s: string)
    ensures |s| == |ns| && AllEnc(s)
    ensures forall k :: 0 <= k < |ns| ==> s[k] == CharOf(ns[k])
  {
    seq(|ns|, k requires 0 <= k < |ns| => CharOf(ns[k]))
  }

  /** Spelling out nibbles and reading them back are inverse. */
  lemma CharsNibbles(s: string, ns: seq<Nibble>)
    ensures AllEnc(s) ==> Chars(Nibbles(s)) == s
    ensures Nibbles(Chars(ns)) == ns
  {
    if AllEnc(s) {
      forall k | 0 <= k < |s| ensures Chars(Nibbles(s))[k] == s[k] {
        AlphabetBijection(s[k], Nibbles(s)[k]);
      }
    }
  }
}
