/**
 * `filterStr`: remove hidden messages from a string. Every run of at least
 * `MinRun` alphabet characters is dropped; every other character, including
 * the characters of shorter runs, is kept verbatim and in order.
 */
module Filter {
  import opened Alphabet
  import opened Runs
  import opened Decoder

  /** What one token adds to the output. */
  function FilterPiece(t: Token): string
  {
    match t
    case Plain(c) => [c]
    case Run(ns) => if |ns| < MinRun then Chars(ns) else []
  }

  /** `filterStr(str)` as a function of the tokens of str. */
  function Filtered(str: string): string
  {
    FlatMap(Tokens(str), FilterPiece)
  }

  /** A token survives filtering unless it is a long run. */
  function KeepShort(t: Token): seq<Token>
  {
    if t.Run? && |t.ns| >= MinRun then [] else [t]
  }

  /** The token sequence with every long run removed. */
  function RemoveLong(ts: seq<Token>): seq<Token>
  {
    FlatMap(ts, KeepShort)
  }

  /**
   * The inner loop of `filterStr`: from an alphabet character at `start`,
   * collect characters up to the first one outside the alphabet or the end.
   */
  method TakeChars(str: string, start: nat) returns (run: string, i: nat)
    requires start < |str| && IsEncChar(str[start])
    ensures start < i <= |str| && AllEnc(str[start..i])
    ensures i == |str| || !IsEncChar(str[i])
    ensures run == str[start..i]
  {
    run := [str[start]];
    i := start + 1;
    while i < |str| && ValOf(str[i]).Some?
      invariant start < i <= |str|
      invariant AllEnc(str[start..i]) && run == str[start..i]
    {
      assert str[start..i + 1] == str[start..i] + [str[i]];
      run := run + [str[i]];
      i := i + 1;
    }
  }

  /** `filterStr(str)`. */
  method FilterStr(str: string) returns (out: string)
    ensures out == Filtered(str)
  {
    out := "";
    var i := 0;
    ghost var done: seq<Token> := [];
    while i < |str|
      invariant i <= |str|
      invariant done + Tokens(str[i..]) == Tokens(str)
      invariant out == FlatMap(done, FilterPiece)
    {
      ghost var t: Token;
      var next: nat;
      if ValOf(str[i]).None? {
        t := Plain(str[i]);
        TokensAtPlainFrom(str, i);
        assert FilterPiece(t) == [str[i]];
        out := out + [str[i]];
        next := i + 1;
      } else {
        var run;
        run, next := TakeChars(str, i);
        t := Run(Nibbles(run));
        TokensAtRunFrom(str, i, next);
        CharsNibbles(run, []);
        if |run| < MinRun {
          assert FilterPiece(t) == run;
          out := out + run;
        } else {
          assert FilterPiece(t) == [];
        }
      }
      Advance(str, done, i, next, t);
      FlatMapSnoc(done, t, FilterPiece);
      done := done + [t];
      i := next;
    }
    assert done + [] == done;
  }

  /** Filtering spells out the tokens that survive. */
  lemma {:induction false} FilterIsRender(ts: seq<Token>)
    ensures FlatMap(ts, FilterPiece) == Render(RemoveLong(ts))
  {
    if ts != [] {
      FilterIsRender(ts[1..]);
      FlatMapConcat(KeepShort(ts[0]), RemoveLong(ts[1..]), Spell);
      if KeepShort(ts[0]) == [ts[0]] {
        assert Render([ts[0]]) == Spell(ts[0]) + Render([]);
      }
    }
  }

  /** Removing long runs keeps a token sequence well formed: what followed a kept run still follows it. */
  lemma {:induction false} RemoveLongWellFormed(ts: seq<Token>)
    requires WellFormed(ts)
    ensures WellFormed(RemoveLong(ts))
  {
    if ts != [] {
      var t, rest := ts[0], ts[1..];
      assert ts == [t] + rest;
      WellFormedCons(t, rest);
      RemoveLongWellFormed(rest);
      if KeepShort(t) == [t] {
        if t.Run? && rest != [] {
          assert RemoveLong(rest) == [rest[0]] + RemoveLong(rest[1..]);
        }
        WellFormedCons(t, RemoveLong(rest));
      }
    }
  }

  /** The tokens of the output are exactly the input's tokens minus its long runs, in order. */
  lemma TokensOfFiltered(s: string)
    ensures Tokens(Filtered(s)) == RemoveLong(Tokens(s))
  {
    FilterIsRender(Tokens(s));
    TokensWellFormed(s);
    RemoveLongWellFormed(Tokens(s));
    TokensRender(RemoveLong(Tokens(s)));
  }

  lemma {:induction false} RemoveLongShort(ts: seq<Token>)
    ensures ShortRuns(RemoveLong(ts), MinRun)
    ensures RemoveLong(RemoveLong(ts)) == RemoveLong(ts)
  {
    if ts != [] {
      RemoveLongShort(ts[1..]);
      FlatMapConcat(KeepShort(ts[0]), RemoveLong(ts[1..]), KeepShort);
      if KeepShort(ts[0]) == [ts[0]] {
        assert RemoveLong([ts[0]]) == KeepShort(ts[0]) + RemoveLong([]);
      }
    }
  }

  /** `filterStr(filterStr(s)) == filterStr(s)`. */
  lemma FilterIdempotent(s: string)
    ensures Filtered(Filtered(s)) == Filtered(s)
  {
    TokensOfFiltered(s);
    RemoveLongShort(Tokens(s));
    FilterIsRender(Tokens(Filtered(s)));
    FilterIsRender(Tokens(s));
  }

  /** The output holds no stretch of MinRun consecutive alphabet characters. */
  lemma FilteredNoLongRun(s: string, i: nat)
    requires i + MinRun <= |Filtered(s)|
    ensures !AllEnc(Filtered(s)[i..i + MinRun])
  {
    TokensOfFiltered(s);
    RemoveLongShort(Tokens(s));
    NoLongWindow(Filtered(s), MinRun, i);
  }

  /** What the filter drops is all hidden: the visible characters are unchanged. */
  lemma {:induction false} FilterVisibleOf(ts: seq<Token>)
    ensures Visible(FlatMap(ts, FilterPiece)) == Visible(Render(ts))
  {
    if ts != [] {
      FilterVisibleOf(ts[1..]);
      VisibleConcat(FilterPiece(ts[0]), FlatMap(ts[1..], FilterPiece));
      VisibleConcat(Spell(ts[0]), Render(ts[1..]));
      if ts[0].Run? {
        VisibleOfRun(Chars(ts[0].ns));
        VisibleOfRun(FilterPiece(ts[0]));
      }
    }
  }

  lemma FilterKeepsVisible(s: string)
    ensures Visible(Filtered(s)) == Visible(s)
  {
    FilterVisibleOf(Tokens(s));
    RenderTokens(s);
  }

  lemma {:induction false} FilterKeepsShortOf(ts: seq<Token>)
    requires ShortRuns(ts, MinRun)
    ensures FlatMap(ts, FilterPiece) == Render(ts)
  {
    if ts != [] {
      assert ts[0] in ts;
      FilterKeepsShortOf(ts[1..]);
    }
  }

  /** A string with no run of MinRun characters passes through unchanged. */
  lemma FilterKeepsShort(s: string)
    requires ShortRuns(Tokens(s), MinRun)
    ensures Filtered(s) == s
  {
    FilterKeepsShortOf(Tokens(s));
    RenderTokens(s);
  }

  lemma {:induction false} NothingLongOf(ts: seq<Token>)
    requires ShortRuns(ts, MinRun)
    ensures NybblesOf(ts) == [] && LensOf(ts) == []
  {
    if ts != [] {
      assert ts[0] in ts;
      NothingLongOf(ts[1..]);
    }
  }

  /** A filtered string carries no message: `decodeBytes` finds no bytes in it. */
  lemma FilteredCarriesNothing(s: string)
    ensures DecodeBytesSpec(Filtered(s)).bytes == []
    ensures DecodeBytesSpec(Filtered(s)).seqLens == []
  {
    TokensOfFiltered(s);
    RemoveLongShort(Tokens(s));
    NothingLongOf(Tokens(Filtered(s)));
  }
}
