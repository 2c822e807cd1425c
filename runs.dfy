/**
 * How `decodeBytes` and `filterStr` see a carrier string: a sequence of
 * tokens, each either one character outside the alphabet or one maximal run
 * of alphabet characters. Both scanners walk the string left to right and
 * treat every maximal run as a unit; their outputs are token-by-token maps
 * of this sequence.
 */
module Runs {
  import opened Alphabet

  /** The concatenation of f(t) over ts, in order. */
  function FlatMap<T, U>(ts: seq<T>, f: T -> seq<U>): seq<U>
  {
    if ts == [] then [] else f(ts[0]) + FlatMap(ts[1..], f)
  }

  lemma {:induction false} FlatMapConcat<T, U>(a: seq<T>, b: seq<T>, f: T -> seq<U>)
    ensures FlatMap(a + b, f) == FlatMap(a, f) + FlatMap(b, f)
  {
    if a == [] {
      assert a + b == b;
    } else {
      FlatMapConcat(a[1..], b, f);
      var ab := a + b;
      assert ab[0] == a[0] && ab[1..] == a[1..] + b;
      assert FlatMap(ab, f) == f(a[0]) + FlatMap(a[1..] + b, f);
      assert FlatMap(a, f) == f(a[0]) + FlatMap(a[1..], f);
    }
  }

  /** Appending one element appends its image; this is how the scanning loops grow their outputs. */
  lemma FlatMapSnoc<T, U>(a: seq<T>, t: T, f: T -> seq<U>)
    ensures FlatMap(a + [t], f) == FlatMap(a, f) + f(t)
  {
    FlatMapConcat(a, [t], f);
    assert FlatMap([t], f) == f(t) + FlatMap([t][1..], f);
  }

  function Sum(xs: seq<nat>): nat
  {
    if xs == [] then 0 else xs[0] + Sum(xs[1..])
  }

  lemma {:induction false} SumConcat(a: seq<nat>, b: seq<nat>)
    ensures Sum(a + b) == Sum(a) + Sum(b)
  {
    if a == [] {
      assert a + b == b;
    } else {
      SumConcat(a[1..], b);
      assert (a + b)[0] == a[0];
      assert (a + b)[1..] == a[1..] + b;
    }
  }

  /** A scanned unit: a character outside the alphabet, or a maximal run's nibble values. */
  datatype Token = Plain(c: char) | Run(ns: seq<Nibble>)

  /** Length of the run of alphabet characters at the start of s. */
  function RunLen(s: string): (k: nat)
    ensures k <= |s|
    ensures forall j :: 0 <= j < k ==> IsEncChar(s[j])
    ensures k < |s| ==> !IsEncChar(s[k])
  {
    if s == [] || !IsEncChar(s[0]) then 0 else 1 + RunLen(s[1..])
  }

  /** The tokens of s, left to right; every run is maximal. */
  function Tokens(s: string): seq<Token>
    decreases |s|
  {
    if s == [] then []
    else if !IsEncChar(s[0]) then [Plain(s[0])] + Tokens(s[1..])
    else
      var k := RunLen(s);
      assert AllEnc(s[..k]) by {
        forall j | 0 <= j < k ensures IsEncChar(s[..k][j]) {
          assert s[..k][j] == s[j];
        }
      }
      [Run(Nibbles(s[..k]))] + Tokens(s[k..])
  }

  /** The shape every token sequence of a string has. */
  predicate WellFormed(ts: seq<Token>)
  {
    (forall k :: 0 <= k < |ts| && ts[k].Plain? ==> !IsEncChar(ts[k].c)) &&
    (forall k :: 0 <= k < |ts| && ts[k].Run? ==> |ts[k].ns| > 0) &&
    (forall k :: 0 <= k < |ts| - 1 && ts[k].Run? ==> ts[k + 1].Plain?)
  }

  /** WellFormed, one token at a time from the front. */
  lemma WellFormedCons(t: Token, ts: seq<Token>)
    ensures WellFormed([t] + ts) <==>
      (t.Plain? ==> !IsEncChar(t.c)) && (t.Run? ==> |t.ns| > 0) &&
      (t.Run? && ts != [] ==> ts[0].Plain?) && WellFormed(ts)
  {
    var all := [t] + ts;
    assert forall k :: 0 <= k < |ts| ==> ts[k] == all[k + 1];
    if WellFormed(all) {
      assert all[0] == t;
      forall k | 0 <= k < |ts| - 1 && ts[k].Run? ensures ts[k + 1].Plain? {
        assert all[k + 1].Run?;
      }
    }
    if (t.Plain? ==> !IsEncChar(t.c)) && (t.Run? ==> |t.ns| > 0) &&
      (t.Run? && ts != [] ==> ts[0].Plain?) && WellFormed(ts) {
      forall k | 0 <= k < |all| - 1 && all[k].Run? ensures all[k + 1].Plain? {
        if k > 0 {
          assert all[k] == ts[k - 1];
        }
      }
    }
  }

  /** The characters a token stands for. */
  function Spell(t: Token): string
  {
    match t
    case Plain(c) => [c]
    case Run(ns) => Chars(ns)
  }

  /** The string a token sequence stands for. */
  function Render(ts: seq<Token>): string
  {
    FlatMap(ts, Spell)
  }

  /** The characters outside the alphabet, in order. */
  function Visible(s: string): string
  {
    if s == [] then []
    else (if IsEncChar(s[0]) then [] else [s[0]]) + Visible(s[1..])
  }

  lemma {:induction false} VisibleConcat(a: string, b: string)
    ensures Visible(a + b) == Visible(a) + Visible(b)
  {
    if a == [] {
      assert a + b == b;
    } else {
      VisibleConcat(a[1..], b);
      var ab := a + b;
      assert ab[0] == a[0] && ab[1..] == a[1..] + b;
      var head := if IsEncChar(a[0]) then [] else [a[0]];
      calc {
        Visible(ab);
        head + Visible(a[1..] + b);
        head + (Visible(a[1..]) + Visible(b));
        (head + Visible(a[1..])) + Visible(b);
      }
    }
  }

  lemma {:induction false} VisibleOfRun(s: string)
    requires AllEnc(s)
    ensures Visible(s) == []
  {
    if s != [] {
      VisibleOfRun(s[1..]);
    }
  }

  /** The run at the start of s is exactly k characters long. */
  lemma {:induction false} RunLenExact(s: string, k: nat)
    requires k <= |s| && AllEnc(s[..k])
    requires k == |s| || !IsEncChar(s[k])
    ensures RunLen(s) == k
  {
    if k > 0 {
      assert s[..k][0] == s[0];
      assert s[1..][..k - 1] == s[..k][1..];
      RunLenExact(s[1..], k - 1);
    }
  }

  /** Scanning a string that starts with a maximal run of length k. */
  lemma TokensAtRun(s: string, k: nat)
    requires 0 < k <= |s| && AllEnc(s[..k])
    requires k == |s| || !IsEncChar(s[k])
    ensures Tokens(s) == [Run(Nibbles(s[..k]))] + Tokens(s[k..])
  {
    assert s[..k][0] == s[0];
    RunLenExact(s, k);
  }

  /**
   * The bookkeeping of a scanning loop: once the tokens before i are `done`
   * and the suffix at i starts with t, the tokens before `next` are done + [t].
   */
  lemma Advance(s: string, done: seq<Token>, i: nat, next: nat, t: Token)
    requires i <= next <= |s|
    requires done + Tokens(s[i..]) == Tokens(s)
    requires Tokens(s[i..]) == [t] + Tokens(s[next..])
    ensures (done + [t]) + Tokens(s[next..]) == Tokens(s)
  {
  }

  /** Scanning the suffix from i, where a maximal run occupies i..j. */
  lemma TokensAtRunFrom(s: string, i: nat, j: nat)
    requires i < j <= |s| && AllEnc(s[i..j])
    requires j == |s| || !IsEncChar(s[j])
    ensures Tokens(s[i..]) == [Run(Nibbles(s[i..j]))] + Tokens(s[j..])
  {
    assert s[i..][..j - i] == s[i..j];
    assert s[i..][j - i..] == s[j..];
    TokensAtRun(s[i..], j - i);
  }

  /** Scanning the suffix from i, where a character outside the alphabet sits at i. */
  lemma TokensAtPlainFrom(s: string, i: nat)
    requires i < |s| && !IsEncChar(s[i])
    ensures Tokens(s[i..]) == [Plain(s[i])] + Tokens(s[i + 1..])
  {
    assert s[i..][1..] == s[i + 1..];
  }

  /** Scanning a string that starts with a character outside the alphabet. */
  lemma TokensAtPlain(s: string)
    requires |s| > 0 && !IsEncChar(s[0])
    ensures Tokens(s) == [Plain(s[0])] + Tokens(s[1..])
  {
  }

  /** Every string scans to a well-formed token sequence. */
  lemma {:induction false} TokensWellFormed(s: string)
    ensures WellFormed(Tokens(s))
    decreases |s|
  {
    if s != [] {
      if !IsEncChar(s[0]) {
        TokensWellFormed(s[1..]);
      } else {
        var k := RunLen(s);
        TokensWellFormed(s[k..]);
        var rest := Tokens(s[k..]);
        assert Tokens(s) == [Run(Nibbles(s[..k]))] + rest;
        if rest != [] {
          assert s[k..] != [];
          assert !IsEncChar(s[k..][0]);
          assert rest[0] == Plain(s[k..][0]);
        }
      }
    }
  }

  /** Scanning loses nothing: spelling out the tokens gives the string back. */
  lemma {:induction false} RenderTokens(s: string)
    ensures Render(Tokens(s)) == s
    decreases |s|
  {
    if s != [] {
      var ts := Tokens(s);
      assert Render(ts) == Spell(ts[0]) + Render(ts[1..]);
      if !IsEncChar(s[0]) {
        RenderTokens(s[1..]);
        assert s == [s[0]] + s[1..];
      } else {
        var k := RunLen(s);
        RenderTokens(s[k..]);
        CharsNibbles(s[..k], []);
        assert s == s[..k] + s[k..];
      }
    }
  }

  lemma RenderStartsWith(ts: seq<Token>, c: char)
    requires |ts| > 0 && ts[0] == Plain(c)
    ensures Render(ts) == [c] + Render(ts[1..])
  {
  }

  /** A run followed by a non-alphabet character or by nothing is one maximal run. */
  lemma RunThenRest(r: string, rest: string)
    requires |r| > 0 && AllEnc(r)
    requires rest == [] || !IsEncChar(rest[0])
    ensures Tokens(r + rest) == [Run(Nibbles(r))] + Tokens(rest)
  {
    var s := r + rest;
    assert s[..|r|] == r;
    assert s[|r|..] == rest;
    TokensAtRun(s, |r|);
  }

  /** A well-formed token sequence is exactly what its spelling scans to. */
  lemma {:induction false} TokensRender(ts: seq<Token>)
    requires WellFormed(ts)
    ensures Tokens(Render(ts)) == ts
  {
    if ts != [] {
      var rest := ts[1..];
      assert WellFormed(rest) by {
        forall k | 0 <= k < |rest| ensures rest[k] == ts[k + 1] { }
      }
      TokensRender(rest);
      assert Render(ts) == Spell(ts[0]) + Render(rest);
      match ts[0]
      case Plain(c) =>
        assert (Render(ts))[1..] == Render(rest);
        TokensAtPlain(Render(ts));
      case Run(ns) =>
        if rest != [] {
          RenderStartsWith(rest, rest[0].c);
        }
        CharsNibbles([], ns);
        RunThenRest(Chars(ns), Render(rest));
    }
  }

  /** The tokens of a string with no alphabet character: one Plain per character. */
  function Plains(s: string): (ts: seq<Token>)
    ensures |ts| == |s|
    ensures forall k :: 0 <= k < |s| ==> ts[k] == Plain(s[k])
  {
    seq(|s|, k requires 0 <= k < |s| => Plain(s[k]))
  }

  lemma {:induction false} TokensOfPlainPrefix(c: string, rest: string)
    requires NoEnc(c)
    ensures Tokens(c + rest) == Plains(c) + Tokens(rest)
  {
    if c != [] {
      TokensOfPlainPrefix(c[1..], rest);
      assert (c + rest)[1..] == c[1..] + rest;
      TokensAtPlain(c + rest);
      assert Plains(c) == [Plain(c[0])] + Plains(c[1..]);
    } else {
      assert c + rest == rest;
    }
  }

  /** A single maximal run between two stretches of text with no alphabet character. */
  lemma TokensOfIsolatedRun(c1: string, r: string, c2: string)
    requires NoEnc(c1) && NoEnc(c2)
    requires |r| > 0 && AllEnc(r)
    ensures Tokens(c1 + r + c2) == Plains(c1) + [Run(Nibbles(r))] + Plains(c2)
  {
    assert c1 + r + c2 == c1 + (r + c2);
    TokensOfPlainPrefix(c1, r + c2);
    RunThenRest(r, c2);
    TokensOfPlainPrefix(c2, []);
    assert c2 + [] == c2;
    assert Plains(c2) + [] == Plains(c2);
  }

  /** Every run among ts is shorter than `bound`. */
  predicate ShortRuns(ts: seq<Token>, bound: nat)
  {
    forall t :: t in ts && t.Run? ==> |t.ns| < bound
  }

  /**
   * If every maximal run of s is shorter than `bound`, no window of `bound`
   * consecutive characters of s lies wholly in the alphabet.
   */
  lemma {:induction false} NoLongWindow(s: string, bound: nat, i: nat)
    requires bound > 0 && ShortRuns(Tokens(s), bound)
    requires i + bound <= |s|
    ensures !AllEnc(s[i..i + bound])
    decreases |s|
  {
    var ts := Tokens(s);
    if !IsEncChar(s[0]) {
      if i == 0 {
        assert s[i..i + bound][0] == s[0];
      } else {
        NoLongWindow(s[1..], bound, i - 1);
        assert s[1..][i - 1..i - 1 + bound] == s[i..i + bound];
      }
    } else {
      var k := RunLen(s);
      assert ts[0] == Run(Nibbles(s[..k])) && ts[0] in ts;
      if i < k {
        assert s[i..i + bound][k - i] == s[k];
      } else {
        NoLongWindow(s[k..], bound, i - k);
        assert s[k..][i - k..i - k + bound] == s[i..i + bound];
      }
    }
  }

  /** Alphabet-free text followed by one run scans as its characters, then the run. */
  lemma TokensEndingInRun(c: string, r: string)
    requires NoEnc(c) && |r| > 0 && AllEnc(r)
    ensures Tokens(c + r) == Plains(c) + [Run(Nibbles(r))]
  {
    TokensOfIsolatedRun(c, r, []);
    assert c + r + [] == c + r;
    assert Plains([]) == [];
  }

  /**
   * Text ending in a run scans as itself followed by what comes after,
   * when that starts outside the alphabet: the run cannot reach into it.
   */
  lemma TokensAfterRun(c: string, r: string, rest: string)
    requires NoEnc(c) && |r| > 0 && AllEnc(r)
    requires rest != [] && !IsEncChar(rest[0])
    ensures Tokens(c + r + rest) == Tokens(c + r) + Tokens(rest)
  {
    var x := r + rest;
    assert c + r + rest == c + x;
    TokensOfPlainPrefix(c, x);
    RunThenRest(r, rest);
    TokensEndingInRun(c, r);
  }
}
