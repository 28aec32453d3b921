/** The short-code generator: a fixed number of symbols, each picked by one
    draw of the random source from a 32-symbol alphabet. */
module RandomUrl {

  /** Number of symbols in a short code. */
  const ShortUrlLength: nat := 8

  /** The alphabet. It leaves out the look-alike symbols 0, 1, l and o. */
  const Chars: string := "23456789abcdefghijkmnpqrstuvwxyz"

  /** One value of the random source: an index into Chars. */
  type Draw = d: int | 0 <= d < 32

  /** True when every symbol of s belongs to the alphabet. */
  predicate InAlphabet(s: string) {
    forall i :: 0 <= i < |s| ==> s[i] in Chars
  }

  /** The alphabet has 32 entries, listed in strictly increasing order. */
  lemma AlphabetAscending()
    ensures |Chars| == 32
    ensures forall i :: 0 <= i < |Chars| - 1 ==> Chars[i] < Chars[i + 1]
  {
  }

  /** None of the look-alike symbols 0, 1, l and o is in the alphabet. */
  lemma AlphabetExcludesLookalikes()
    ensures '0' !in Chars && '1' !in Chars && 'l' !in Chars && 'o' !in Chars
  {
    AlphabetAscending();
    forall i | 0 <= i < |Chars|
      ensures Chars[i] != '0' && Chars[i] != '1' && Chars[i] != 'l' && Chars[i] != 'o'
    {
      // '2' opens the alphabet, 'l' falls between 'k' and 'm', 'o' between 'n' and 'p'.
      assert Chars[0] == '2' && Chars[18] == 'k' && Chars[19] == 'm';
      assert Chars[20] == 'n' && Chars[21] == 'p';
      if 0 < i { AscendingBetween(0, i); }
      if i < 18 { AscendingBetween(i, 18); }
      if 19 < i { AscendingBetween(19, i); }
      if i < 20 { AscendingBetween(i, 20); }
      if 21 < i { AscendingBetween(21, i); }
    }
  }

  lemma {:induction false} AscendingBetween(i: int, j: int)
    requires 0 <= i < j < |Chars|
    ensures Chars[i] < Chars[j]
    decreases j - i
  {
    AlphabetAscending();
    if i + 1 < j {
      AscendingBetween(i + 1, j);
    }
  }

  /** The 32 symbols are pairwise distinct, so a symbol names exactly one draw. */
  lemma AlphabetDistinct()
    ensures forall i, j :: 0 <= i < |Chars| && 0 <= j < |Chars| && i != j ==> Chars[i] != Chars[j]
  {
    forall i, j | 0 <= i < |Chars| && 0 <= j < |Chars| && i != j
      ensures Chars[i] != Chars[j]
    {
      if i < j {
        AscendingBetween(i, j);
      } else {
        AscendingBetween(j, i);
      }
    }
  }

  /** The symbols the draws pick, in draw order: the generator's append loop. */
  function Encode(draws: seq<Draw>): (code: string)
    ensures |code| == |draws|
    ensures forall i :: 0 <= i < |draws| ==> code[i] == Chars[draws[i]]
  {
    if draws == [] then "" else [Chars[draws[0]]] + Encode(draws[1..])
  }

  /** One call of generate(): it consumes exactly ShortUrlLength draws and
      returns the code they pick together with the unread rest of the source. */
  function Generate(draws: seq<Draw>): (r: (string, seq<Draw>))
    requires |draws| >= ShortUrlLength
    ensures |r.0| == ShortUrlLength
    ensures forall i :: 0 <= i < ShortUrlLength ==> r.0[i] == Chars[draws[i]]
    ensures r.1 == draws[ShortUrlLength..]
  {
    (Encode(draws[..ShortUrlLength]), draws[ShortUrlLength..])
  }

  /** Every code generate() returns is spelled over the alphabet. */
  lemma GenerateInAlphabet(draws: seq<Draw>)
    requires |draws| >= ShortUrlLength
    ensures InAlphabet(Generate(draws).0)
  {
  }

  /** The draw that picks symbol c, searching the alphabet from position k. */
  function IndexFrom(c: char, k: nat): (d: Draw)
    requires k < |Chars| && c in Chars[k..]
    ensures k <= d && Chars[d] == c
    decreases |Chars| - k
  {
    AlphabetAscending();
    if Chars[k] == c then k else IndexFrom(c, k + 1)
  }

  /** Recovers the draws from a code over the alphabet. */
  function Decode(code: string): (draws: seq<Draw>)
    requires InAlphabet(code)
    ensures |draws| == |code|
    ensures forall i :: 0 <= i < |code| ==> Chars[draws[i]] == code[i]
  {
    if code == [] then []
    else
      assert Chars[0..] == Chars;
      [IndexFrom(code[0], 0)] + Decode(code[1..])
  }

  /** Decoding undoes encoding: distinct draw sequences give distinct codes. */
  lemma DecodeEncode(draws: seq<Draw>)
    ensures InAlphabet(Encode(draws))
    ensures Decode(Encode(draws)) == draws
  {
    var code := Encode(draws);
    var back := Decode(code);
    AlphabetDistinct();
    forall i | 0 <= i < |draws|
      ensures back[i] == draws[i]
    {
      assert Chars[back[i]] == Chars[draws[i]];
    }
  }

  /** Encoding undoes decoding: every code over the alphabet is reachable. */
  lemma EncodeDecode(code: string)
    requires InAlphabet(code)
    ensures Encode(Decode(code)) == code
  {
  }

  /** Two calls that return the same code read the same eight draws. */
  lemma GenerateInjective(a: seq<Draw>, b: seq<Draw>)
    requires |a| >= ShortUrlLength && |b| >= ShortUrlLength
    requires Generate(a).0 == Generate(b).0
    ensures a[..ShortUrlLength] == b[..ShortUrlLength]
  {
    DecodeEncode(a[..ShortUrlLength]);
    DecodeEncode(b[..ShortUrlLength]);
  }

  /** Every eight-symbol code over the alphabet is the output of some draws,
      so the output space is all 32^8 such codes. */
  lemma GenerateOnto(code: string)
    requires |code| == ShortUrlLength && InAlphabet(code)
    ensures |Decode(code)| == ShortUrlLength
    ensures Generate(Decode(code)).0 == code
  {
    var draws := Decode(code);
    assert draws[..ShortUrlLength] == draws;
    EncodeDecode(code);
  }

  /** The codes returned by n successive calls of generate(), each call
      reading the draws the previous one left. */
  function Calls(draws: seq<Draw>, n: nat): (codes: seq<string>)
    requires |draws| >= ShortUrlLength * n
    ensures |codes| == n
    ensures forall i :: 0 <= i < n ==> |codes[i]| == ShortUrlLength
  {
    if n == 0 then []
    else
      var (code, rest) := Generate(draws);
      [code] + Calls(rest, n - 1)
  }

  /** The first call reads the first block; the remaining calls read what
      it left. */
  lemma CallsStep(draws: seq<Draw>, n: nat)
    requires |draws| >= ShortUrlLength * n && n > 0
    ensures Calls(draws, n)[0] == Generate(draws).0
    ensures Calls(draws, n)[1..] == Calls(draws[ShortUrlLength..], n - 1)
  {
  }

  /** Call number i (from 0) reads the i-th block of ShortUrlLength draws. */
  lemma {:induction false} CallReadsItsBlock(draws: seq<Draw>, n: nat, i: nat)
    requires |draws| >= ShortUrlLength * n && i < n
    ensures Calls(draws, n)[i] == Generate(draws[ShortUrlLength * i..]).0
  {
    CallsStep(draws, n);
    if i > 0 {
      var rest := draws[ShortUrlLength..];
      CallReadsItsBlock(rest, n - 1, i - 1);
      assert Calls(draws, n)[i] == Calls(rest, n - 1)[i - 1];
      assert rest[ShortUrlLength * (i - 1)..] == draws[ShortUrlLength * i..];
    } else {
      assert draws[ShortUrlLength * i..] == draws;
    }
  }
}
