/**
 The text forms of IPv6 addresses (section 2.2 of RFC 1884), as the C code bounds
 them: a group is any non-empty run of hex digits of either case whose value is
 at most 0xffff, and "::" stands for at least one zero byte.
 */
module Inet6Grammar {
  import opened Options
  import opened Inet4

  // ----- Groups of hex digits -----

  /** `c_tolower`. */
  function Lower(c: char): char {
    if 'A' <= c <= 'Z' then (c as int - 'A' as int + 'a' as int) as char else c
  }

  /** The index of the lower-cased character in "0123456789abcdef". */
  function HexDigit(c: char): Option<nat> {
    var l := Lower(c);
    if '0' <= l <= '9' then Some(l as int - '0' as int)
    else if 'a' <= l <= 'f' then Some(l as int - 'a' as int + 10)
    else None
  }

  predicate IsHex(c: char) {
    HexDigit(c).Some?
  }

  predicate AllHex(s: string) {
    forall i | 0 <= i < |s| :: IsHex(s[i])
  }

  function HexValue(s: string): nat
    requires AllHex(s)
  {
    if s == [] then 0 else HexValue(s[..|s| - 1]) * 16 + HexDigit(s[|s| - 1]).v
  }

  const GROUP_MAX: nat := 0xffff

  predicate LegalGroup(g: string) {
    g != [] && AllHex(g) && HexValue(g) <= GROUP_MAX
  }

  /** The two bytes of a group, high byte first. */
  function GroupBytes(v: nat): (b: seq<Byte>)
    requires v <= GROUP_MAX
    ensures |b| == 2
  {
    [v / 256, v % 256]
  }

  predicate LegalGroups(gs: seq<string>) {
    forall i | 0 <= i < |gs| :: LegalGroup(gs[i])
  }

  function Bytes(gs: seq<string>): (b: seq<Byte>)
    requires LegalGroups(gs)
    ensures |b| == 2 * |gs|
  {
    if gs == [] then [] else GroupBytes(HexValue(gs[0])) + Bytes(gs[1..])
  }

  // ----- Spellings -----

  type Tail = Option<seq<Byte>>

  /** An address in full, or with one "::"; either may end in a dotted quad. */
  datatype Spelling =
    | Full(groups: seq<string>, quad: Tail)
    | Gap(left: seq<string>, right: seq<string>, quad: Tail)

  predicate LegalTail(q: Tail) {
    q.Some? ==> |q.v| == 4
  }

  function TailBytes(q: Tail): (b: seq<Byte>)
    requires LegalTail(q)
    ensures |b| == if q.Some? then 4 else 0
  {
    if q.Some? then q.v else []
  }

  function Zeros(n: nat): (b: seq<Byte>)
    ensures |b| == n
  {
    seq(n, _ => 0)
  }

  const ADDRESS_SIZE: nat := 16

  /** The bytes that are written out. */
  function Written(sp: Spelling): (b: seq<Byte>)
    requires WellFormed(sp)
  {
    match sp
    case Full(gs, q) => Bytes(gs) + TailBytes(q)
    case Gap(l, r, q) => Bytes(l) + Bytes(r) + TailBytes(q)
  }

  predicate WellFormed(sp: Spelling) {
    && LegalTail(sp.quad)
    && match sp
       case Full(gs, _) => LegalGroups(gs)
       case Gap(l, r, _) => LegalGroups(l) && LegalGroups(r)
  }

  predicate Legal(sp: Spelling) {
    && WellFormed(sp)
    && (if sp.Full? then |Written(sp)| == ADDRESS_SIZE else |Written(sp)| < ADDRESS_SIZE)
  }

  /** The address that a spelling denotes. */
  function Denotes(sp: Spelling): (a: seq<Byte>)
    requires Legal(sp)
    ensures |a| == ADDRESS_SIZE
  {
    match sp
    case Full(gs, q) => Written(sp)
    case Gap(l, r, q) => Bytes(l) + Zeros(ADDRESS_SIZE - |Written(sp)|) + (Bytes(r) + TailBytes(q))
  }

  function Join(fields: seq<string>): string {
    if fields == [] then ""
    else if |fields| == 1 then fields[0]
    else fields[0] + ":" + Join(fields[1..])
  }

  function Fields(gs: seq<string>, q: Tail): seq<string>
    requires LegalTail(q)
  {
    gs + (if q.Some? then [PrintQuad(q.v)] else [])
  }

  function Text(sp: Spelling): string
    requires WellFormed(sp)
  {
    match sp
    case Full(gs, q) => Join(Fields(gs, q))
    case Gap(l, r, q) => Join(l) + "::" + Join(Fields(r, q))
  }

  ghost predicate IsAddress(s: string) {
    exists sp :: Legal(sp) && Text(sp) == s
  }

  // ----- The characters of the grammar -----

  /** The digits of a group, in either case, and their values. */
  lemma HexDigitIsIndex(c: char, i: nat)
    ensures HexDigit(c) == Some(i) <==> i < 16 && (c == "0123456789abcdef"[i] || c == "0123456789ABCDEF"[i])
  {
  }

  /** The fields, each followed by a colon. */
  function Closed(fields: seq<string>): string {
    if fields == [] then "" else Closed(fields[..|fields| - 1]) + fields[|fields| - 1] + ":"
  }

  lemma {:induction false} JoinEnd(fields: seq<string>, last: seq<string>)
    requires last != []
    ensures Join(fields + last) == Closed(fields) + Join(last)
    decreases |fields|
  {
    if fields == [] {
      assert fields + last == last && "" + Join(last) == Join(last);
    } else {
      var init, f := fields[..|fields| - 1], fields[|fields| - 1];
      assert fields + last == init + ([f] + last);
      JoinEnd(init, [f] + last);
      JoinCons(f, last);
      assert Closed(init) + (f + (":" + Join(last))) == Closed(init) + f + ":" + Join(last);
    }
  }

  /** The text of an address in full: a colon between groups, and before a dotted
      quad. */
  lemma FullText(gs: seq<string>, g: string, q: seq<Byte>)
    requires LegalGroups(gs) && LegalGroup(g) && |q| == 4
    ensures Text(Full(gs + [g], None)) == Closed(gs) + g
    ensures Text(Full(gs, Some(q))) == Closed(gs) + PrintQuad(q)
  {
    JoinEnd(gs, [g]);
    JoinEnd(gs, [PrintQuad(q)]);
    assert gs + [g] + [] == gs + [g];
  }

  // ----- Facts about groups -----

  lemma {:induction false} HexPrefix(g: string, h: string)
    requires AllHex(g + h)
    ensures AllHex(g) && HexValue(g) <= HexValue(g + h)
    decreases |h|
  {
    assert forall i | 0 <= i < |g| :: g[i] == (g + h)[i];
    if h == [] {
      assert g + h == g;
    } else {
      var h' := h[..|h| - 1];
      assert (g + h)[..|g + h| - 1] == g + h';
      HexPrefix(g, h');
    }
  }

  lemma HexAppend(g: string, c: char)
    requires AllHex(g) && IsHex(c)
    ensures AllHex(g + [c]) && HexValue(g + [c]) == HexValue(g) * 16 + HexDigit(c).v
  {
    assert (g + [c])[..|g|] == g;
  }

  /** A decimal byte read as hex stays far below the bound of a group. */
  lemma DecimalAsHex(n: Byte)
    ensures AllHex(Decimal(n)) && HexValue(Decimal(n)) <= GROUP_MAX
  {
    DecimalDigits(n);
    assert forall c | IsDigit(c) :: IsHex(c) && HexDigit(c).v < 10;
    assert |Decimal(n)| <= 3 by {
      var tens := n / 10;
      assert tens >= 10 ==> |Decimal(tens)| == |Decimal(tens / 10)| + 1;
    }
    HexBound(Decimal(n));
  }

  lemma HexBound(s: string)
    requires AllHex(s) && |s| <= 3
    ensures HexValue(s) <= GROUP_MAX
  {
    if |s| > 0 {
      var t := s[..|s| - 1];
      if |t| > 0 {
        var u := t[..|t| - 1];
        assert |u| > 0 ==> HexValue(u[..|u| - 1]) == 0;
      }
    }
  }

  lemma JoinCons(g: string, fields: seq<string>)
    ensures fields == [] ==> Join([g] + fields) == g
    ensures fields != [] ==> Join([g] + fields) == g + (":" + Join(fields))
  {
    assert ([g] + fields)[1..] == fields;
    if fields != [] {
      assert g + ":" + Join(fields) == g + (":" + Join(fields));
    }
  }

  lemma FieldsCons(g: string, gs: seq<string>, q: Tail)
    requires LegalTail(q)
    ensures Fields([g] + gs, q) == [g] + Fields(gs, q)
  {
  }

  lemma BytesCons(g: string, gs: seq<string>)
    requires LegalGroup(g) && LegalGroups(gs)
    ensures LegalGroups([g] + gs) && Bytes([g] + gs) == GroupBytes(HexValue(g)) + Bytes(gs)
  {
    assert ([g] + gs)[1..] == gs;
  }
}
