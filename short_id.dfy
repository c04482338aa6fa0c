/** `generateShortId`: six characters drawn from a 36-symbol alphabet, one
    `Math.random()` value per character. The random values are inputs here. */
module ShortId {

  const Chars := "abcdefghijklmnopqrstuvwxyz0123456789"
  const IdLength := 6

  /** What `Math.random()` promises: a value in [0, 1). */
  predicate IsRandom(r: real) {
    0.0 <= r < 1.0
  }

  predicate AllRandom(draws: seq<real>) {
    forall i :: 0 <= i < |draws| ==> IsRandom(draws[i])
  }

  /** `Math.floor(r * chars.length)`. */
  function CharIndex(r: real): (k: int)
    requires IsRandom(r)
    ensures 0 <= k < |Chars|
  {
    (r * 36.0).Floor
  }

  predicate IsIdChar(c: char) {
    'a' <= c <= 'z' || '0' <= c <= '9'
  }

  /** A well-formed short id: six lower-case letters or digits. */
  predicate IsShortId(s: string) {
    |s| == IdLength && forall i :: 0 <= i < |s| ==> IsIdChar(s[i])
  }

  /** The alphabet, position by position. */
  function AlphabetAt(k: int): (c: char)
    requires 0 <= k < 36
  {
    if k < 26 then ('a' as int + k) as char else ('0' as int + k - 26) as char
  }

  /** The position of an alphabet character. */
  function AlphabetIndex(c: char): (k: int)
    requires IsIdChar(c)
    ensures 0 <= k < 36 && AlphabetAt(k) == c
  {
    if 'a' <= c <= 'z' then c as int - 'a' as int else c as int - '0' as int + 26
  }

  lemma CharsAt(k: int)
    requires 0 <= k < 36
    ensures Chars[k] == AlphabetAt(k)
  {
    assert Chars == seq(36, i requires 0 <= i < 36 => AlphabetAt(i));
  }

  /** The alphabet string holds exactly the lower-case letters and the digits. */
  lemma CharsAreIdChars(c: char)
    ensures c in Chars <==> IsIdChar(c)
  {
    if c in Chars {
      var k :| 0 <= k < |Chars| && Chars[k] == c;
      CharsAt(k);
    }
    if IsIdChar(c) {
      CharsAt(AlphabetIndex(c));
    }
  }

  /** Each character gets an interval of `Math.random()` values of width 1/36,
      so the six characters are uniform when `Math.random()` is. */
  lemma CharIndexInterval(r: real, k: int)
    requires IsRandom(r) && 0 <= k < 36
    ensures CharIndex(r) == k <==> k as real / 36.0 <= r < (k + 1) as real / 36.0
  {
  }

  /** `id` is the short id the random values `draws` select: six alphabet
      characters, character i being `chars[floor(draws[i] * 36)]`. */
  predicate Generated(id: string, draws: seq<real>)
    requires |draws| == IdLength && AllRandom(draws)
  {
    IsShortId(id) && forall i :: 0 <= i < IdLength ==> id[i] == Chars[CharIndex(draws[i])]
  }

  method GenerateShortId(draws: seq<real>) returns (id: string)
    requires |draws| == IdLength && AllRandom(draws)
    ensures Generated(id, draws)
  {
    id := "";
    for i := 0 to IdLength
      invariant |id| == i
      invariant forall j :: 0 <= j < i ==> id[j] == Chars[CharIndex(draws[j])]
      invariant forall j :: 0 <= j < i ==> IsIdChar(id[j])
    {
      var k := CharIndex(draws[i]);
      CharsAt(k);
      id := id + [Chars[k]];
    }
  }

  /** One choice of random values per character of `s`. */
  function DrawsFor(s: string): (draws: seq<real>)
    requires IsShortId(s)
    ensures |draws| == IdLength && AllRandom(draws)
  {
    seq(IdLength, i requires 0 <= i < IdLength => AlphabetIndex(s[i]) as real / 36.0)
  }

  /** Every well-formed short id can come out of the generator: with the values
      `DrawsFor(s)` it produces `s`. */
  lemma EveryShortIdReachable(s: string)
    requires IsShortId(s)
    ensures forall i :: 0 <= i < IdLength ==> Chars[CharIndex(DrawsFor(s)[i])] == s[i]
  {
    var draws := DrawsFor(s);
    forall i | 0 <= i < IdLength
      ensures Chars[CharIndex(draws[i])] == s[i]
    {
      var k := AlphabetIndex(s[i]);
      CharIndexInterval(draws[i], k);
      CharsAt(k);
    }
  }
}
