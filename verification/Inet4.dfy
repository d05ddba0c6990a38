/**
 `inet_pton4` of inet_pton.c: dotted quads.

 `src` stands for the characters before the terminating NUL.  The specification
 is the printer: the parser accepts exactly the printed quads and inverts it.
 */
module Inet4 {
  import opened Options

  type Byte = x: nat | x < 256

  // ----- Canonical decimal numbers and the quads printed with them -----

  predicate IsDigit(c: char) {
    '0' <= c <= '9'
  }

  function DigitValue(c: char): (d: nat)
    requires IsDigit(c)
    ensures d < 10
  {
    c as int - '0' as int
  }

  function Digit(d: nat): char
    requires d < 10
  {
    ('0' as int + d) as char
  }

  /** Decimal without leading zeros. */
  function Decimal(n: nat): string {
    if n < 10 then [Digit(n)] else Decimal(n / 10) + [Digit(n % 10)]
  }

  function PrintBytes(bs: seq<Byte>): string
    requires bs != []
  {
    if |bs| == 1 then Decimal(bs[0]) else Decimal(bs[0]) + "." + PrintBytes(bs[1..])
  }

  function PrintQuad(q: seq<Byte>): string
    requires |q| == 4
  {
    PrintBytes(q)
  }

  /** The number that a string of digits denotes. */
  function NumberOf(s: string): nat
    requires forall i | 0 <= i < |s| :: IsDigit(s[i])
  {
    if s == [] then 0 else NumberOf(s[..|s| - 1]) * 10 + DigitValue(s[|s| - 1])
  }

  /** Decimal(n) denotes n and has no leading zero. */
  lemma {:induction false} DecimalDenotes(n: nat)
    ensures forall i | 0 <= i < |Decimal(n)| :: IsDigit(Decimal(n)[i])
    ensures NumberOf(Decimal(n)) == n
    ensures Decimal(n) != [] && (Decimal(n)[0] == '0' <==> n == 0)
  {
    DecimalDigits(n);
    var s := Decimal(n);
    if n >= 10 {
      DecimalDenotes(n / 10);
      assert s[..|s| - 1] == Decimal(n / 10);
      assert s[0] == Decimal(n / 10)[0];
    } else {
      assert s[..0] == [];
    }
  }

  /** The text of a quad: its numbers with three dots between them. */
  lemma {:induction false} QuadText(a: Byte, b: Byte, c: Byte, d: Byte)
    ensures PrintQuad([a, b, c, d]) == Decimal(a) + "." + (Decimal(b) + "." + (Decimal(c) + "." + Decimal(d)))
  {
    PrintCons(a, [b, c, d]);
    PrintCons(b, [c, d]);
    PrintCons(c, [d]);
  }

  lemma {:induction false} PrintCons(b: Byte, rest: seq<Byte>)
    requires rest != []
    ensures PrintBytes([b] + rest) == Decimal(b) + "." + PrintBytes(rest)
  {
    assert ([b] + rest)[1..] == rest;
  }

  lemma {:induction false} DigitText(n: nat)
    requires n < 10
    ensures Decimal(n) == ["0123456789"[n]]
  {
  }

  lemma {:induction false} PrintShape(bs: seq<Byte>)
    requires bs != []
    ensures var first, text := Decimal(bs[0]), PrintBytes(bs);
            && first <= text
            && (|bs| == 1 ==> text == first)
            && (|bs| > 1 ==> text == first + ("." + PrintBytes(bs[1..])))
  {
    if |bs| > 1 {
      assert PrintBytes(bs) == Decimal(bs[0]) + ("." + PrintBytes(bs[1..]));
    }
  }

  lemma {:induction false} DecimalDigits(n: nat)
    ensures Decimal(n) != []
    ensures forall i | 0 <= i < |Decimal(n)| :: IsDigit(Decimal(n)[i])
    ensures |Decimal(n)| == 1 <==> n < 10
  {
    if n >= 10 { DecimalDigits(n / 10); }
  }

  lemma {:induction false} DecimalInjective(m: nat, n: nat)
    requires Decimal(m) == Decimal(n)
    ensures m == n
  {
    DecimalDigits(m);
    DecimalDigits(n);
    if m >= 10 {
      var k := |Decimal(m)| - 1;
      assert Decimal(m)[..k] == Decimal(m / 10) && Decimal(n)[..k] == Decimal(n / 10);
      assert Decimal(m)[k] == Digit(m % 10) && Decimal(n)[k] == Digit(n % 10);
      DecimalInjective(m / 10, n / 10);
    } else {
      assert Decimal(m)[0] == Digit(m) && Decimal(n)[0] == Digit(n);
    }
  }

  /** A non-empty prefix of a canonical number is a canonical number, not larger. */
  lemma {:induction false} DecimalPrefix(n: nat, len: nat) returns (m: nat)
    requires 0 < len <= |Decimal(n)|
    ensures m <= n && Decimal(m) == Decimal(n)[..len]
  {
    if len == |Decimal(n)| {
      m := n;
      assert Decimal(n)[..len] == Decimal(n);
    } else {
      m := DecimalPrefix(n / 10, len);
      assert Decimal(n)[..len] == Decimal(n / 10)[..len];
    }
  }

  // ----- The scan as a function of what is left to read -----

  function Prepended(done: seq<Byte>, rest: Option<seq<Byte>>): Option<seq<Byte>> {
    if rest.None? then None else Some(done + rest.v)
  }

  lemma PrependedTwice(done: seq<Byte>, b: Byte, rest: Option<seq<Byte>>)
    ensures Prepended(done + [b], rest) == Prepended(done, Prepended([b], rest))
    ensures Prepended([], rest) == rest
  {
    if rest.Some? {
      assert (done + [b]) + rest.v == done + ([b] + rest.v);
      assert [] + rest.v == rest.v;
    }
  }

  /** The bytes that the rest `s` completes, where `octets` have been started and
      `cur` is the value of the one being read, if any. */
  function Octets(s: string, octets: nat, cur: Option<Byte>): Option<seq<Byte>>
    decreases |s|
  {
    if s == [] then
      if octets < 4 || cur.None? then None else Some([cur.v])
    else if IsDigit(s[0]) then
      var d := DigitValue(s[0]);
      if cur.None? then
        if octets >= 4 then None else Octets(s[1..], octets + 1, Some(d))
      else if cur.v == 0 || cur.v * 10 + d > 255 then None
      else Octets(s[1..], octets, Some(cur.v * 10 + d))
    else if s[0] == '.' && cur.Some? && octets != 4 then
      Prepended([cur.v], Octets(s[1..], octets, None))
    else None
  }

  function Lead(cur: Option<Byte>): string {
    if cur.Some? then Decimal(cur.v) else ""
  }

  function Remaining(octets: nat, cur: Option<Byte>): int {
    4 - octets + (if cur.Some? then 1 else 0)
  }

  lemma AppendDigit(cur: Option<Byte>, c: char, v: Byte)
    requires IsDigit(c)
    requires v == if cur.None? then DigitValue(c) else cur.v * 10 + DigitValue(c)
    requires cur.Some? ==> cur.v != 0
    ensures Decimal(v) == Lead(cur) + [c]
  {
    assert Digit(DigitValue(c)) == c;
    if cur.Some? {
      assert v / 10 == cur.v && v % 10 == DigitValue(c);
    }
  }

  lemma {:induction false} OctetsSound(s: string, octets: nat, cur: Option<Byte>)
    requires octets <= 4 && Octets(s, octets, cur).Some?
    ensures var bs := Octets(s, octets, cur).v;
            |bs| == Remaining(octets, cur) && bs != [] && Lead(cur) + s == PrintBytes(bs)
    decreases |s|
  {
    if s == [] {
      assert Lead(cur) + s == Lead(cur);
    } else if IsDigit(s[0]) {
      var d := DigitValue(s[0]);
      var v: Byte := if cur.None? then d else cur.v * 10 + d;
      OctetsSound(s[1..], if cur.None? then octets + 1 else octets, Some(v));
      AppendDigit(cur, s[0], v);
      assert Lead(cur) + s == Decimal(v) + s[1..];
    } else {
      OctetsSound(s[1..], octets, None);
      DotSound(s, cur.v, Octets(s[1..], octets, None).v);
    }
  }

  lemma DotSound(s: string, v: Byte, rest: seq<Byte>)
    requires s != [] && s[0] == '.' && rest != [] && Lead(None) + s[1..] == PrintBytes(rest)
    ensures Decimal(v) + s == PrintBytes([v] + rest)
  {
    PrintShape([v] + rest);
    assert ([v] + rest)[1..] == rest;
    assert Lead(None) + s[1..] == s[1..];
    assert s == "." + s[1..];
  }

  /** The character after `Lead(cur)` in a printed sequence: it extends the first
      number, or it is the dot after it. */
  lemma NextCharacter(s: string, cur: Option<Byte>, bs: seq<Byte>) returns (m: Byte)
    requires bs != [] && s != [] && Lead(cur) + s == PrintBytes(bs)
    ensures IsDigit(s[0]) ==> Decimal(m) == Lead(cur) + [s[0]]
    ensures !IsDigit(s[0]) ==> |bs| > 1 && cur == Some(bs[0]) && s == "." + PrintBytes(bs[1..])
  {
    var lead, first, text := Lead(cur), Decimal(bs[0]), PrintBytes(bs);
    DecimalDigits(bs[0]);
    if cur.Some? { DecimalDigits(cur.v); }
    PrintShape(bs);
    m := 0;
    assert lead == text[..|lead|];
    assert |lead| > |first| ==> IsDigit(text[|first|]);
    assert s[0] == text[|lead|];
    if |lead| < |first| {
      m := DecimalPrefix(bs[0], |lead| + 1);
      assert first[..|lead| + 1] == lead + [s[0]];
    } else {
      DecimalInjective(cur.v, bs[0]);
      assert s == text[|lead|..];
    }
  }

  /** Reading a digit that makes the current value `m`. */
  lemma {:induction false} OctetsDigit(s: string, octets: nat, cur: Option<Byte>, m: Byte)
    requires s != [] && IsDigit(s[0]) && (cur.None? ==> octets < 4)
    requires cur.None? ==> m == DigitValue(s[0])
    requires cur.Some? ==> cur.v != 0 && m == cur.v * 10 + DigitValue(s[0])
    ensures Octets(s, octets, cur) == Octets(s[1..], if cur.None? then octets + 1 else octets, Some(m))
  {
  }

  /** Reading the dot after the octet `b`. */
  lemma {:induction false} OctetsDot(s: string, octets: nat, b: Byte, rest: seq<Byte>)
    requires s != [] && s[0] == '.' && octets != 4 && Octets(s[1..], octets, None) == Some(rest)
    ensures Octets(s, octets, Some(b)) == Some([b] + rest)
  {
  }

  lemma {:induction false} OctetsComplete(s: string, octets: nat, cur: Option<Byte>, bs: seq<Byte>)
    requires octets <= 4 && bs != [] && |bs| == Remaining(octets, cur)
    requires Lead(cur) + s == PrintBytes(bs)
    ensures Octets(s, octets, cur) == Some(bs)
    decreases |s|
  {
    if s == [] {
      EndOfQuad(cur, bs);
      assert bs == [bs[0]];
    } else {
      var m := NextCharacter(s, cur, bs);
      if IsDigit(s[0]) {
        NextValue(cur, s[0], m);
        OctetsDigit(s, octets, cur, m);
        assert Lead(Some(m)) + s[1..] == Lead(cur) + s;
        OctetsComplete(s[1..], if cur.None? then octets + 1 else octets, Some(m), bs);
      } else {
        assert Lead(None) + s[1..] == PrintBytes(bs[1..]);
        OctetsComplete(s[1..], octets, None, bs[1..]);
        OctetsDot(s, octets, bs[0], bs[1..]);
        assert bs == [bs[0]] + bs[1..];
      }
    }
  }

  lemma {:induction false} DotInText(bs: seq<Byte>)
    requires |bs| > 1
    ensures '.' in PrintBytes(bs)
  {
    PrintShape(bs);
    assert PrintBytes(bs)[|Decimal(bs[0])|] == '.';
  }

  lemma {:induction false} EndOfQuad(cur: Option<Byte>, bs: seq<Byte>)
    requires bs != [] && Lead(cur) + [] == PrintBytes(bs)
    ensures cur == Some(bs[0]) && |bs| == 1
  {
    PrintShape(bs);
    DecimalDigits(bs[0]);
    assert Lead(cur) == PrintBytes(bs);
    if cur.Some? { DecimalDigits(cur.v); }
    assert '.' !in Lead(cur);
    if |bs| > 1 { DotInText(bs); }
    DecimalInjective(cur.v, bs[0]);
  }

  /** Reading a digit of a canonical number never trips the checks of the loop. */
  lemma NextValue(cur: Option<Byte>, c: char, m: Byte)
    requires IsDigit(c) && Decimal(m) == Lead(cur) + [c]
    ensures cur.None? ==> m == DigitValue(c)
    ensures cur.Some? ==> cur.v != 0 && m == cur.v * 10 + DigitValue(c)
  {
    DecimalDigits(m);
    var k := |Decimal(m)| - 1;
    if cur.Some? {
      DecimalDigits(cur.v);
      assert Decimal(m)[..k] == Decimal(m / 10) == Decimal(cur.v);
      assert Decimal(m)[k] == Digit(m % 10);
      DecimalInjective(m / 10, cur.v);
    } else {
      assert Decimal(m)[0] == Digit(m);
    }
  }

  // ----- Quads -----

  ghost predicate IsQuad(s: string) {
    exists q: seq<Byte> :: |q| == 4 && PrintQuad(q) == s
  }

  lemma QuadScan(s: string)
    ensures IsQuad(s) <==> Octets(s, 0, None).Some?
    ensures Octets(s, 0, None).Some? ==> |Octets(s, 0, None).v| == 4 && PrintQuad(Octets(s, 0, None).v) == s
    ensures forall q: seq<Byte> | |q| == 4 && PrintQuad(q) == s :: Octets(s, 0, None) == Some(q)
  {
    assert Lead(None) + s == s;
    if Octets(s, 0, None).Some? {
      OctetsSound(s, 0, None);
    }
    forall q: seq<Byte> | |q| == 4 && PrintQuad(q) == s ensures Octets(s, 0, None) == Some(q) {
      OctetsComplete(s, 0, None, q);
    }
  }

  /** Different addresses print differently. */
  lemma PrintQuadInjective(p: seq<Byte>, q: seq<Byte>)
    requires |p| == 4 && |q| == 4 && PrintQuad(p) == PrintQuad(q)
    ensures p == q
  {
    QuadScan(PrintQuad(p));
  }

  // ----- The parser -----

  /** The loop of `inet_pton4`, which fills the local buffer `tmp`. */
  method ScanQuad(src: string, tmp: array<Byte>) returns (ok: bool)
    requires tmp.Length == 4
    modifies tmp
    ensures ok <==> Octets(src, 0, None).Some?
    ensures ok ==> Octets(src, 0, None) == Some(tmp[..])
  {
    ghost var all := Octets(src, 0, None);
    var sawDigit, octets, tp, i := false, 0, 0, 0;
    tmp[0] := 0;
    assert src[0..] == src;
    PrependedTwice([], 0, all);
    while i < |src|
      invariant 0 <= i <= |src| && octets == tp + (if sawDigit then 1 else 0) && tp < 4
      invariant sawDigit || tmp[tp] == 0
      invariant all == Prepended(tmp[..tp], Octets(src[i..], octets, if sawDigit then Some(tmp[tp]) else None))
    {
      var ch := src[i];
      assert src[i..][1..] == src[i + 1..];
      if IsDigit(ch) {
        var next := tmp[tp] * 10 + DigitValue(ch);
        if sawDigit && tmp[tp] == 0 { return false; }
        if next > 255 { return false; }
        ghost var done := tmp[..tp];
        tmp[tp] := next;
        assert tmp[..tp] == done;
        if !sawDigit {
          octets := octets + 1;
          if octets > 4 { return false; }
          sawDigit := true;
        }
      } else if ch == '.' && sawDigit {
        if octets == 4 { return false; }
        ghost var done := tmp[..tp + 1];
        PrependedTwice(tmp[..tp], tmp[tp], Octets(src[i + 1..], octets, None));
        assert done == tmp[..tp] + [tmp[tp]];
        tp := tp + 1;
        tmp[tp] := 0;
        assert tmp[..tp] == done;
        sawDigit := false;
      } else {
        return false;
      }
      i := i + 1;
    }
    assert src[i..] == [];
    if octets < 4 { return false; }
    assert tmp[..] == tmp[..3] + [tmp[3]];
    return true;
  }

  /** `inet_pton4 (src, dst + at)`. */
  method InetPton4(src: string, dst: array<Byte>, at: nat) returns (ok: bool)
    requires at + 4 <= dst.Length
    modifies dst
    ensures ok <==> IsQuad(src)
    ensures ok ==> PrintQuad(dst[at..at + 4]) == src
    ensures ok ==> dst[..at] == old(dst[..at]) && dst[at + 4..] == old(dst[at + 4..])
    ensures !ok ==> dst[..] == old(dst[..])
  {
    var tmp := new Byte[4];
    ok := ScanQuad(src, tmp);
    QuadScan(src);
    if ok {
      ghost var quad := tmp[..];
      forall k | 0 <= k < 4 {
        dst[at + k] := tmp[k];
      }
      assert dst[at..at + 4] == quad;
    }
  }
}
