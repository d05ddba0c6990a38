/**
 `inet_pton6` and `inet_pton` of inet_pton.c.
 */
module Inet6 {
  import opened Options
  import opened Inet4
  import opened Inet6Grammar
  import opened Inet6Scan

  /** What the shift makes of a buffer. */
  function Opened(a: seq<Byte>, colon: nat, tp: nat): seq<Byte>
    requires colon <= tp <= |a|
  {
    a[..colon] + Zeros(|a| - tp) + a[colon..tp]
  }

  lemma OpenedNothing(a: seq<Byte>, tp: nat)
    requires tp <= |a| && forall k | tp <= k < |a| :: a[k] == 0
    ensures a == Opened(a, tp, tp)
  {
  }

  lemma OpenedStep(a: seq<Byte>, c: nat, tp: nat)
    requires 0 < c <= tp < |a|
    ensures |Opened(a, c, tp)| == |a| && Opened(a, c, tp)[c - 1] == a[c - 1]
    ensures Opened(a, c, tp)[c - 1 + (|a| - tp) := a[c - 1]][c - 1 := 0] == Opened(a, c - 1, tp)
  {
    assert a[c - 1..tp] == [a[c - 1]] + a[c..tp];
    assert a[..c] == a[..c - 1] + [a[c - 1]];
  }

  /** One round of the shift: the byte read is not one written before. */
  method MoveByte(a: array<Byte>, from: nat, to: nat, ghost was: seq<Byte>, ghost tp: nat)
    requires from < tp < a.Length == |was| && to == from + (a.Length - tp)
    requires a[..] == Opened(was, from + 1, tp)
    modifies a
    ensures a[..] == Opened(was, from, tp)
  {
    OpenedStep(was, from + 1, tp);
    ghost var now := a[..];
    assert a[from] == now[from] == was[from];
    a[to] := a[from];
    a[from] := 0;
    assert a[..] == now[to := was[from]][from := 0];
  }

  /** The shift by hand: the bytes from `colon` to `tp` move to the end of the
      buffer and leave zeros behind, last byte first. */
  method OpenGap(a: array<Byte>, colon: nat, tp: nat)
    requires colon <= tp < a.Length
    requires forall k | tp <= k < a.Length :: a[k] == 0
    modifies a
    ensures a[..] == Opened(old(a[..]), colon, tp)
  {
    var n, end := tp - colon, a.Length;
    ghost var was := a[..];
    OpenedNothing(was, tp);
    var i := 1;
    while i <= n
      invariant 1 <= i <= n + 1
      invariant a[..] == Opened(was, tp - i + 1, tp)
    {
      MoveByte(a, tp - i, end - i, was, tp);
      i := i + 1;
    }
  }

  /** The buffer after `bytes` were written into it. */
  function Padded(bytes: seq<Byte>): (b: seq<Byte>)
    requires |bytes| <= ADDRESS_SIZE
    ensures |b| == ADDRESS_SIZE
  {
    bytes + Zeros(ADDRESS_SIZE - |bytes|)
  }

  method Store(tmp: array<Byte>, tp: nat, val: nat, ghost bytes: seq<Byte>)
    requires tmp.Length == ADDRESS_SIZE && tp + 2 <= ADDRESS_SIZE && val <= GROUP_MAX
    requires tp == |bytes| && tmp[..] == Padded(bytes)
    modifies tmp
    ensures tmp[..] == Padded(bytes + GroupBytes(val))
  {
    tmp[tp] := (val / 256) % 256;
    tmp[tp + 1] := val % 256;
    assert tmp[..] == Padded(bytes)[tp := val / 256][tp + 1 := val % 256];
  }

  lemma OpenedPadded(bytes: seq<Byte>, colon: nat)
    requires colon <= |bytes| < ADDRESS_SIZE
    ensures Finish(Scanned(bytes, Some(colon))) == Some(Opened(Padded(bytes), colon, |bytes|))
  {
    assert Padded(bytes)[..colon] == bytes[..colon];
    assert Padded(bytes)[colon..|bytes|] == bytes[colon..];
  }

  /** Before reading `s[i]`, with the token begun at `curtok` and `bytes` written:
      the whole scan is what the scan from here on yields. */
  ghost predicate Reading(all: Option<Scanned>, s: string, curtok: nat, i: nat, val: nat,
                          bytes: seq<Byte>, colon: Option<nat>)
  {
    && curtok <= i <= |s|
    && AllHex(s[curtok..i]) && val == HexValue(s[curtok..i]) <= GROUP_MAX
    && all == Scan(s[curtok..i], s[i..], bytes, colon)
  }

  lemma ReadHex(all: Option<Scanned>, s: string, curtok: nat, i: nat, val: nat, bytes: seq<Byte>, colon: Option<nat>)
    requires Reading(all, s, curtok, i, val, bytes, colon) && i < |s| && IsHex(s[i])
    ensures var v := val * 16 + HexDigit(s[i]).v;
            if v > GROUP_MAX then all.None? else Reading(all, s, curtok, i + 1, v, bytes, colon)
  {
    HexAppend(s[curtok..i], s[i]);
    assert s[curtok..i + 1] == s[curtok..i] + [s[i]];
    assert s[i..][1..] == s[i + 1..];
  }

  lemma ReadColon(all: Option<Scanned>, s: string, curtok: nat, i: nat, val: nat, bytes: seq<Byte>, colon: Option<nat>)
    requires Reading(all, s, curtok, i, val, bytes, colon) && i < |s| && s[i] == ':'
    ensures curtok == i ==>
              if colon.Some? then all.None? else Reading(all, s, i + 1, i + 1, 0, bytes, Some(|bytes|))
    ensures curtok < i ==>
              if i + 1 == |s| || |bytes| + 2 > ADDRESS_SIZE then all.None?
              else Reading(all, s, i + 1, i + 1, 0, bytes + GroupBytes(val), colon)
  {
    assert s[i..][1..] == s[i + 1..];
    assert s[i + 1..i + 1] == [];
  }

  lemma ReadOther(all: Option<Scanned>, s: string, curtok: nat, i: nat, val: nat, bytes: seq<Byte>, colon: Option<nat>)
    requires Reading(all, s, curtok, i, val, bytes, colon) && i < |s| && !IsHex(s[i]) && s[i] != ':'
    ensures all == if s[i] == '.' && |bytes| + 4 <= ADDRESS_SIZE && Octets(s[curtok..], 0, None).Some?
                   then Some(Scanned(bytes + Octets(s[curtok..], 0, None).v, colon)) else None
  {
    assert s[curtok..i] + s[i..] == s[curtok..];
  }

  lemma ReadEnd(all: Option<Scanned>, s: string, curtok: nat, val: nat, bytes: seq<Byte>, colon: Option<nat>)
    requires Reading(all, s, curtok, |s|, val, bytes, colon)
    ensures all == if curtok == |s| then Some(Scanned(bytes, colon))
                   else if |bytes| + 2 > ADDRESS_SIZE then None
                   else Some(Scanned(bytes + GroupBytes(val), colon))
  {
    assert s[|s|..] == [];
  }

  /** The loop of `inet_pton6` over `s`, together with the last group. */
  method ScanInto(s: string, tmp: array<Byte>)
      returns (ok: bool, tp: nat, colon: Option<nat>, ghost bytes: seq<Byte>)
    requires tmp.Length == ADDRESS_SIZE && tmp[..] == Zeros(ADDRESS_SIZE)
    modifies tmp
    ensures ok <==> Scan([], s, [], None).Some?
    ensures ok ==> Scan([], s, [], None) == Some(Scanned(bytes, colon))
    ensures ok ==> tp == |bytes| <= ADDRESS_SIZE && tmp[..] == Padded(bytes)
  {
    ghost var all := Scan([], s, [], None);
    var sawXdigit := false;
    var val: nat, curtok: nat, i: nat := 0, 0, 0;
    ok, tp, colon, bytes := true, 0, None, [];
    assert s[0..] == s && s[0..0] == [] && Padded([]) == tmp[..];
    while i < |s|
      invariant i <= |s| && (sawXdigit <==> curtok < i)
      invariant Reading(all, s, curtok, i, val, bytes, colon)
      invariant tp == |bytes| <= ADDRESS_SIZE && tmp[..] == Padded(bytes)
    {
      var ch := s[i];
      i := i + 1;
      if IsHex(ch) {
        ReadHex(all, s, curtok, i - 1, val, bytes, colon);
        val := val * 16 + HexDigit(ch).v;
        if val > GROUP_MAX { return false, tp, colon, bytes; }
        sawXdigit := true;
      } else if ch == ':' {
        ReadColon(all, s, curtok, i - 1, val, bytes, colon);
        curtok := i;
        if !sawXdigit {
          if colon.Some? { return false, tp, colon, bytes; }
          colon := Some(tp);
        } else {
          if i == |s| { return false, tp, colon, bytes; }
          if tp + 2 > ADDRESS_SIZE { return false, tp, colon, bytes; }
          Store(tmp, tp, val, bytes);
          bytes := bytes + GroupBytes(val);
          tp, sawXdigit, val := tp + 2, false, 0;
        }
      } else {
        ReadOther(all, s, curtok, i - 1, val, bytes, colon);
        if ch == '.' && tp + 4 <= ADDRESS_SIZE {
          ok := QuadInto(s[curtok..], tmp, tp, bytes);
          if ok {
            tp := tp + 4;
            bytes := bytes + Octets(s[curtok..], 0, None).v;
          }
          return;
        }
        return false, tp, colon, bytes;
      }
    }
    ReadEnd(all, s, curtok, val, bytes, colon);
    if sawXdigit {
      if tp + 2 > ADDRESS_SIZE { return false, tp, colon, bytes; }
      Store(tmp, tp, val, bytes);
      bytes := bytes + GroupBytes(val);
      tp := tp + 2;
    }
  }

  lemma ThreeParts(s: seq<Byte>, i: nat, j: nat)
    requires i <= j <= |s|
    ensures s == s[..i] + s[i..j] + s[j..]
  {
    assert s[..i] + s[i..j] == s[..j];
  }

  /** The call `inet_pton4 (curtok, tp)` on the current token. */
  method QuadInto(tok: string, tmp: array<Byte>, tp: nat, ghost bytes: seq<Byte>) returns (ok: bool)
    requires tmp.Length == ADDRESS_SIZE && tp + 4 <= ADDRESS_SIZE
    requires tp == |bytes| && tmp[..] == Padded(bytes)
    modifies tmp
    ensures ok <==> Octets(tok, 0, None).Some?
    ensures ok ==> |Octets(tok, 0, None).v| == 4 && tmp[..] == Padded(bytes + Octets(tok, 0, None).v)
  {
    ok := InetPton4(tok, tmp, tp);
    QuadScan(tok);
    if ok {
      ghost var was, now := old(tmp[..]), tmp[..];
      assert now[..tp] == was[..tp] == bytes;
      assert now[tp..tp + 4] == Octets(tok, 0, None).v;
      assert now[tp + 4..] == was[tp + 4..] == Zeros(ADDRESS_SIZE - (tp + 4));
      ThreeParts(now, tp, tp + 4);
    }
  }

  /** `inet_pton6 (src, dst)`: accepts exactly the legal spellings, stores exactly
      the address denoted, and touches `dst` only when it accepts. */
  method InetPton6(src: string, dst: array<Byte>) returns (ok: bool)
    requires dst.Length >= ADDRESS_SIZE
    modifies dst
    ensures ok <==> IsAddress(src)
    ensures forall sp | Legal(sp) && Text(sp) == src :: dst[..ADDRESS_SIZE] == Denotes(sp)
    ensures ok ==> dst[ADDRESS_SIZE..] == old(dst[ADDRESS_SIZE..])
    ensures !ok ==> dst[..] == old(dst[..])
  {
    var tmp := new Byte[ADDRESS_SIZE](_ => 0);
    assert tmp[..] == Zeros(ADDRESS_SIZE);
    var parsed := ParseInto(src, tmp);
    ParseDecides(src);
    if !parsed { return false; }
    ghost var address := tmp[..];
    forall k | 0 <= k < ADDRESS_SIZE {
      dst[k] := tmp[k];
    }
    assert dst[..ADDRESS_SIZE] == address;
    return true;
  }

  method ParseInto(src: string, tmp: array<Byte>) returns (ok: bool)
    requires tmp.Length == ADDRESS_SIZE && tmp[..] == Zeros(ADDRESS_SIZE)
    modifies tmp
    ensures ok <==> Parse(src).Some?
    ensures ok ==> Parse(src) == Some(tmp[..])
  {
    var start := 0;
    if 0 < |src| && src[0] == ':' {
      start := 1;
      if !(1 < |src| && src[1] == ':') { return false; }
    }
    assert src[0..] == src;
    var tp, colon;
    ghost var bytes;
    ok, tp, colon, bytes := ScanInto(src[start..], tmp);
    if !ok { return false; }
    ColonInside([], src[start..], [], None);
    if colon.Some? {
      if tp == ADDRESS_SIZE { return false; }
      assert forall k | tp <= k < ADDRESS_SIZE :: tmp[k] == tmp[..][k] == 0;
      OpenGap(tmp, colon.v, tp);
      OpenedPadded(bytes, colon.v);
      tp := ADDRESS_SIZE;
    }
    if tp != ADDRESS_SIZE { return false; }
    assert |bytes| == ADDRESS_SIZE ==> Padded(bytes) == bytes;
    return true;
  }

  datatype Family = AfInet | AfInet6 | OtherFamily
  datatype Status = Accepted | Rejected | Unsupported   // 1, 0, and -1 with EAFNOSUPPORT

  /** `inet_pton (af, src, dst)`. */
  method InetPton(af: Family, src: string, dst: array<Byte>) returns (r: Status)
    requires dst.Length >= match af case AfInet => 4 case AfInet6 => ADDRESS_SIZE case OtherFamily => 0
    modifies dst
    ensures r == Accepted <==> (af.AfInet? && IsQuad(src)) || (af.AfInet6? && IsAddress(src))
    ensures r == Unsupported <==> af.OtherFamily?
    ensures r == Accepted && af.AfInet? ==> PrintQuad(dst[..4]) == src
    ensures r == Accepted && af.AfInet6? ==>
              forall sp | Legal(sp) && Text(sp) == src :: dst[..ADDRESS_SIZE] == Denotes(sp)
    ensures r != Accepted ==> dst[..] == old(dst[..])
  {
    var ok;
    match af {
      case AfInet =>
        ok := InetPton4(src, dst, 0);
        assert dst[0..4] == dst[..4];
      case AfInet6 =>
        ok := InetPton6(src, dst);
      case OtherFamily =>
        return Unsupported;
    }
    r := if ok then Accepted else Rejected;
  }

  // ----- Round trips -----

  /** The 16-bit group `i` of an address. */
  function GroupAt(a: seq<Byte>, i: nat): (v: nat)
    requires |a| == ADDRESS_SIZE && i < 8
    ensures v <= GROUP_MAX
  {
    a[2 * i] as int * 256 + a[2 * i + 1] as int
  }

  /** `gs` spells the eight groups of `a`, in any case and with any leading zeros. */
  ghost predicate Spells(gs: seq<string>, a: seq<Byte>)
    requires |a| == ADDRESS_SIZE
  {
    |gs| == 8 && LegalGroups(gs) && forall i | 0 <= i < 8 :: HexValue(gs[i]) == GroupAt(a, i)
  }

  lemma {:induction false} BytesOfSlice(gs: seq<string>, a: seq<Byte>, lo: nat, hi: nat)
    requires |a| == ADDRESS_SIZE && Spells(gs, a) && lo <= hi <= 8
    ensures LegalGroups(gs[lo..hi]) && Bytes(gs[lo..hi]) == a[2 * lo..2 * hi]
    decreases hi - lo
  {
    if lo < hi {
      BytesOfSlice(gs, a, lo + 1, hi);
      assert gs[lo..hi] == [gs[lo]] + gs[lo + 1..hi];
      BytesCons(gs[lo], gs[lo + 1..hi]);
      PairOfBytes(gs, a, lo);
      assert a[2 * lo..2 * hi] == a[2 * lo..2 * lo + 2] + a[2 * lo + 2..2 * hi];
    }
  }

  lemma PairOfBytes(gs: seq<string>, a: seq<Byte>, i: nat)
    requires |a| == ADDRESS_SIZE && Spells(gs, a) && i < 8
    ensures GroupBytes(HexValue(gs[i])) == a[2 * i..2 * i + 2]
  {
    var hi, lo := a[2 * i] as int, a[2 * i + 1] as int;
    assert HexValue(gs[i]) == GroupAt(a, i) == hi * 256 + lo;
    assert (hi * 256 + lo) / 256 == hi && (hi * 256 + lo) % 256 == lo;
  }

  /** Full form: all eight groups, or six and a dotted quad. */
  lemma FullFormRoundTrip(a: seq<Byte>, gs: seq<string>, dotted: bool)
    requires |a| == ADDRESS_SIZE && Spells(gs, a)
    ensures var sp := if dotted then Full(gs[..6], Some(a[12..])) else Full(gs, None);
            Legal(sp) && Denotes(sp) == a && Parse(Text(sp)) == Some(a)
  {
    var sp := if dotted then Full(gs[..6], Some(a[12..])) else Full(gs, None);
    if dotted {
      BytesOfSlice(gs, a, 0, 6);
      assert gs[0..6] == gs[..6] && a[0..12] + a[12..] == a;
    } else {
      BytesOfSlice(gs, a, 0, 8);
      assert gs[0..8] == gs && a[0..16] == a;
      assert a + [] == a;
    }
    ParseComplete(sp);
  }

  lemma GapDenotes(a: seq<Byte>, l: seq<string>, r: seq<string>, q: Tail, lo: nat, hi: nat)
    requires |a| == ADDRESS_SIZE && lo < hi <= ADDRESS_SIZE && a[lo..hi] == Zeros(hi - lo)
    requires WellFormed(Gap(l, r, q)) && Bytes(l) == a[..lo] && Bytes(r) + TailBytes(q) == a[hi..]
    ensures Legal(Gap(l, r, q)) && Denotes(Gap(l, r, q)) == a
  {
    ThreeParts(a, lo, hi);
  }

  /** Any one run of zero groups written as "::", with or without a dotted quad. */
  lemma GapRoundTrip(a: seq<Byte>, gs: seq<string>, lo: nat, hi: nat, dotted: bool)
    requires |a| == ADDRESS_SIZE && Spells(gs, a)
    requires lo < hi <= (if dotted then 6 else 8)
    requires a[2 * lo..2 * hi] == Zeros(2 * (hi - lo))
    ensures var sp := if dotted then Gap(gs[..lo], gs[hi..6], Some(a[12..])) else Gap(gs[..lo], gs[hi..8], None);
            Legal(sp) && Denotes(sp) == a && Parse(Text(sp)) == Some(a)
  {
    var end := if dotted then 6 else 8;
    var q: Tail := if dotted then Some(a[12..]) else None;
    var sp := Gap(gs[..lo], gs[hi..end], q);
    BytesOfSlice(gs, a, 0, lo);
    BytesOfSlice(gs, a, hi, end);
    assert gs[0..lo] == gs[..lo];
    assert a[0..2 * lo] == a[..2 * lo];
    assert a[2 * hi..2 * end] + TailBytes(q) == a[2 * hi..] by {
      if dotted { assert a[2 * hi..12] + a[12..] == a[2 * hi..]; }
    }
    GapDenotes(a, gs[..lo], gs[hi..end], q, 2 * lo, 2 * hi);
    ParseComplete(sp);
  }

  function HexChar(d: nat, upper: bool): char
    requires d < 16
  {
    if d < 10 then ('0' as int + d) as char
    else if upper then ('A' as int + d - 10) as char
    else ('a' as int + d - 10) as char
  }

  /** Hex without leading zeros, in the chosen case. */
  function Hex(v: nat, upper: bool): string {
    if v < 16 then [HexChar(v, upper)] else Hex(v / 16, upper) + [HexChar(v % 16, upper)]
  }

  /** Every group has a spelling, in either case. */
  lemma {:induction false} HexSpells(v: nat, upper: bool)
    ensures Hex(v, upper) != [] && AllHex(Hex(v, upper)) && HexValue(Hex(v, upper)) == v
  {
    if v >= 16 {
      HexSpells(v / 16, upper);
      HexAppend(Hex(v / 16, upper), HexChar(v % 16, upper));
    } else {
      HexAppend([], HexChar(v, upper));
      assert [] + [HexChar(v, upper)] == [HexChar(v, upper)];
    }
  }

  lemma AddressHasSpelling(a: seq<Byte>, upper: bool)
    requires |a| == ADDRESS_SIZE
    ensures Spells(seq(8, i requires 0 <= i < 8 => Hex(GroupAt(a, i), upper)), a)
  {
    var gs := seq(8, i requires 0 <= i < 8 => Hex(GroupAt(a, i), upper));
    forall i | 0 <= i < 8 ensures LegalGroup(gs[i]) && HexValue(gs[i]) == GroupAt(a, i) {
      HexSpells(GroupAt(a, i), upper);
    }
  }

  lemma {:induction false} OneGroup(v: nat)
    requires v <= GROUP_MAX
    ensures LegalGroups([Hex(v, false)]) && Bytes([Hex(v, false)]) == [v / 256, v % 256]
  {
    HexSpells(v, false);
    BytesCons(Hex(v, false), []);
    assert [Hex(v, false)] + [] == [Hex(v, false)];
    assert GroupBytes(v) + Bytes([]) == GroupBytes(v);
  }

  /** Two well-known forms: the loopback address, and an IPv4 address mapped. */
  lemma LoopbackAndMapped(q: seq<Byte>)
    requires |q| == 4
    ensures Parse("::1") == Some(Zeros(15) + [1])
    ensures Parse("::ffff:" + PrintQuad(q)) == Some(Zeros(10) + [255, 255] + q)
  {
    assert Hex(1, false) == "1";
    assert Hex(0xf, false) == "f" && Hex(0xff, false) == "ff" && Hex(0xfff, false) == "fff";
    assert Hex(0xffff, false) == "ffff";
    OneGroup(1);
    OneGroup(0xffff);
    var one, mapped := Gap([], ["1"], None), Gap([], ["ffff"], Some(q));
    Loopback(one);
    Mapped(mapped, q);
    ParseComplete(one);
    ParseComplete(mapped);
  }

  lemma {:induction false} Loopback(sp: Spelling)
    requires sp == Gap([], ["1"], None) && LegalGroups(["1"]) && Bytes(["1"]) == [0, 1]
    ensures Legal(sp) && Text(sp) == "::1" && Denotes(sp) == Zeros(15) + [1]
  {
    assert Written(sp) == [0, 1];
    assert Zeros(14) + [0, 1] == Zeros(15) + [1];
    assert ["1"] + [] == ["1"];
  }

  lemma {:induction false} Mapped(sp: Spelling, q: seq<Byte>)
    requires |q| == 4 && sp == Gap([], ["ffff"], Some(q)) && LegalGroups(["ffff"]) && Bytes(["ffff"]) == [255, 255]
    ensures Legal(sp) && Text(sp) == "::ffff:" + PrintQuad(q) && Denotes(sp) == Zeros(10) + [255, 255] + q
  {
    assert Written(sp) == [255, 255] + q;
    JoinCons("ffff", [PrintQuad(q)]);
    assert "::" + ("ffff" + (":" + PrintQuad(q))) == "::ffff:" + PrintQuad(q);
    assert Zeros(10) + ([255, 255] + q) == Zeros(10) + [255, 255] + q;
  }

  /** The comment in the source says that "::" in a full address is ignored; the
      code rejects it: a text with "::" is an address exactly when fewer than
      sixteen bytes are written beside it. */
  lemma GapNeedsRoom(l: seq<string>, r: seq<string>, q: Tail)
    requires WellFormed(Gap(l, r, q))
    ensures IsAddress(Text(Gap(l, r, q))) <==> |Written(Gap(l, r, q))| < ADDRESS_SIZE
  {
    ParseDecides(Text(Gap(l, r, q)));
    if |Written(Gap(l, r, q))| < ADDRESS_SIZE {
      assert Legal(Gap(l, r, q));
    } else {
      GapOverflows(l, r, q);
    }
  }
}
