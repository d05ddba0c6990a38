/**
 The rolling hash of localename.c that chooses the bucket of a pooled string.

 A C string is modelled by the sequence of its characters before the NUL.
 `size_t` has 64 bits, and plain `char` is signed, so a character with code 128
 or more enters the sum as a negative number modulo 2^64.
 */
module StringHash {

  const WORD: nat := 0x1_0000_0000_0000_0000
  const HIGH: nat := 0x80_0000_0000_0000  // 2^55, that is, 2^(SIZE_BITS - 9)

  type Word = h: nat | h < WORD

  /** The value that `*s` contributes to the sum, as a `size_t`. */
  function CharValue(c: char): Word {
    if c < 128 as char then c as nat else (c as nat + WORD - 256) % WORD
  }

  /** `(h << 9) | (h >> (SIZE_BITS - 9))`; the two halves share no bit. */
  function RotateLeft9(h: Word): Word {
    (h * 512) % WORD + h / HIGH
  }

  function Mix(h: Word, c: char): Word {
    (CharValue(c) + RotateLeft9(h)) % WORD
  }

  function HashFrom(h: Word, s: string): Word
    decreases |s|
  {
    if s == [] then h else HashFrom(Mix(h, s[0]), s[1..])
  }

  function Hash(s: string): Word {
    HashFrom(0, s)
  }

  lemma {:induction false} HashFromAppend(h: Word, s: string, t: string)
    ensures HashFrom(h, s + t) == HashFrom(HashFrom(h, s), t)
    decreases |s|
  {
    if s == [] {
      assert s + t == t;
    } else {
      assert (s + t)[1..] == s[1..] + t;
      HashFromAppend(Mix(h, s[0]), s[1..], t);
    }
  }

  /** The loop of `string_hash`. */
  method ComputeHash(s: string) returns (h: Word)
    ensures h == Hash(s)
  {
    h := 0;
    var i := 0;
    while i < |s|
      invariant 0 <= i <= |s|
      invariant h == HashFrom(0, s[..i])
    {
      assert s[..i + 1] == s[..i] + [s[i]];
      HashFromAppend(0, s[..i], [s[i]]);
      h := Mix(h, s[i]);
      i := i + 1;
    }
    assert s[..i] == s;
  }

  // ----- The hash as a number -----

  /** One more character: the code turns left by 9 bits and the signed character is
      added, modulo 2^64. */
  lemma HashOneMore(s: string, c: char)
    requires c < 256 as char
    ensures var top := Hash(s) / 0x80_0000_0000_0000;
            var rest := Hash(s) % 0x80_0000_0000_0000;
            var signed := if c < 128 as char then c as int else c as int - 256;
            Hash(s + [c]) == (rest * 512 + top + signed) % 0x1_0000_0000_0000_0000
  {
    HashFromAppend(0, s, [c]);
    assert [c][1..] == [];
    RotateParts(Hash(s));
    var h := RotateLeft9(Hash(s));
    var signed := if c < 128 as char then c as int else c as int - 256;
    assert h == Hash(s) % HIGH * 512 + Hash(s) / HIGH;
    assert c >= 128 as char ==> CharValue(c) == signed + WORD;
    ModPeriod(h + signed);
  }

  lemma ModPeriod(x: int)
    ensures (x + WORD) % WORD == x % WORD
  {
    var q, r := x / WORD, x % WORD;
    assert x + WORD == (q + 1) * WORD + r;
  }

  /** The number with the digits `s` to the base 512. */
  function Base512(s: string): nat {
    if s == [] then 0 else 512 * Base512(s[..|s| - 1]) + s[|s| - 1] as nat
  }

  predicate Ascii(s: string) {
    forall i | 0 <= i < |s| :: s[i] < 128 as char
  }

  function Power512(n: nat): nat {
    if n == 0 then 1 else 512 * Power512(n - 1)
  }

  lemma {:induction false} Base512Bound(s: string)
    requires Ascii(s)
    ensures Base512(s) < Power512(|s|)
    decreases |s|
  {
    if s != [] { Base512Bound(s[..|s| - 1]); }
  }

  lemma SixDigits(n: nat)
    requires n <= 6
    ensures Power512(n) <= 0x40_0000_0000_0000
    decreases 6 - n
  {
    if n < 6 {
      SixDigits(n + 1);
    } else {
      assert Power512(2) == 0x4_0000;
      assert Power512(4) == 0x10_0000_0000;
    }
  }

  /** Up to seven ASCII characters are hashed to the number that they spell, so no
      two such strings of one length collide. */
  lemma {:induction false} ShortAsciiHash(s: string)
    requires Ascii(s) && |s| <= 7
    ensures Hash(s) == Base512(s)
    decreases |s|
  {
    if s != [] {
      var init := s[..|s| - 1];
      ShortAsciiHash(init);
      Base512Bound(init);
      SixDigits(|init|);
      assert s == init + [s[|s| - 1]];
      HashOneMore(init, s[|s| - 1]);
    }
  }

  // ----- The hash separates strings that differ in one character -----

  lemma RotateInjective(h: Word, k: Word)
    requires RotateLeft9(h) == RotateLeft9(k)
    ensures h == k
  {
    RotateParts(h);
    RotateParts(k);
  }

  lemma RotateParts(h: Word)
    ensures RotateLeft9(h) % 512 == h / HIGH
    ensures RotateLeft9(h) / 512 == h % HIGH
  {
    var q, r := h / HIGH, h % HIGH;
    assert h == q * HIGH + r && q < 512;
    assert h * 512 == q * WORD + r * 512;
    assert (h * 512) % WORD == r * 512;
  }

  lemma MixInjective(h: Word, k: Word, c: char)
    requires Mix(h, c) == Mix(k, c)
    ensures h == k
  {
    ModCancel(CharValue(c), RotateLeft9(h), RotateLeft9(k));
    RotateInjective(h, k);
  }

  lemma ModCancel(c: Word, x: Word, y: Word)
    requires (c + x) % WORD == (c + y) % WORD
    ensures x == y
  {
    assert (c + x) % WORD == if c + x < WORD then c + x else c + x - WORD;
    assert (c + y) % WORD == if c + y < WORD then c + y else c + y - WORD;
  }

  lemma {:induction false} HashFromInjective(h: Word, k: Word, s: string)
    requires HashFrom(h, s) == HashFrom(k, s)
    ensures h == k
    decreases |s|
  {
    if s != [] {
      HashFromInjective(Mix(h, s[0]), Mix(k, s[0]), s[1..]);
      MixInjective(h, k, s[0]);
    }
  }

  lemma MixSeparates(h: Word, c: char, d: char)
    requires c < 256 as char && d < 256 as char && c != d
    ensures Mix(h, c) != Mix(h, d)
  {
    assert CharValue(c) != CharValue(d);
  }

  lemma HashAround(a: string, c: char, b: string)
    ensures Hash(a + [c] + b) == HashFrom(Mix(Hash(a), c), b)
  {
    HashFromAppend(0, a + [c], b);
    HashFromAppend(0, a, [c]);
  }

  /** Strings of one length that differ in exactly one position never collide in
      the full hash code: every round is a bijection of the accumulator. */
  lemma OneCharacterChangesHash(a: string, c: char, d: char, b: string)
    requires c < 256 as char && d < 256 as char && c != d
    ensures Hash(a + [c] + b) != Hash(a + [d] + b)
  {
    HashAround(a, c, b);
    HashAround(a, d, b);
    var x, y := Mix(Hash(a), c), Mix(Hash(a), d);
    if HashFrom(x, b) == HashFrom(y, b) {
      HashFromInjective(x, y, b);
      MixSeparates(Hash(a), c, d);
      assert false;
    }
  }
}
