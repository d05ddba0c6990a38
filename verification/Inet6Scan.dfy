/**
 The scan of `inet_pton6` as a function of what is left to read, and the proof
 that it decides the grammar.
 */
module Inet6Scan {
  import opened Options
  import opened Inet4
  import opened Inet6Grammar

  /** What the loop leaves behind: the bytes written and where "::" was, if seen. */
  datatype Scanned = Scanned(bytes: seq<Byte>, colon: Option<nat>)

  /** `g` is the run of hex digits read since the last colon (the token begins
      there), `rest` is unread, `out` has been written. */
  function Scan(g: string, rest: string, out: seq<Byte>, colon: Option<nat>): Option<Scanned>
    requires AllHex(g) && HexValue(g) <= GROUP_MAX
    decreases |rest|
  {
    if rest == [] then
      if g == [] then Some(Scanned(out, colon))
      else if |out| + 2 > ADDRESS_SIZE then None
      else Some(Scanned(out + GroupBytes(HexValue(g)), colon))
    else if IsHex(rest[0]) then
      HexAppend(g, rest[0]);
      if HexValue(g + [rest[0]]) > GROUP_MAX then None
      else Scan(g + [rest[0]], rest[1..], out, colon)
    else if rest[0] == ':' then
      if g == [] then
        if colon.Some? then None else Scan([], rest[1..], out, Some(|out|))
      else if |rest| == 1 || |out| + 2 > ADDRESS_SIZE then None
      else Scan([], rest[1..], out + GroupBytes(HexValue(g)), colon)
    else if rest[0] == '.' && |out| + 4 <= ADDRESS_SIZE && Octets(g + rest, 0, None).Some? then
      Some(Scanned(out + Octets(g + rest, 0, None).v, colon))
    else None
  }

  /** What follows the loop: the shift that opens the gap, and the size check. */
  function Finish(r: Scanned): Option<seq<Byte>>
    requires r.colon.Some? ==> r.colon.v <= |r.bytes|
  {
    if r.colon.None? then
      if |r.bytes| == ADDRESS_SIZE then Some(r.bytes) else None
    else if |r.bytes| >= ADDRESS_SIZE then None
    else Some(r.bytes[..r.colon.v] + Zeros(ADDRESS_SIZE - |r.bytes|) + r.bytes[r.colon.v..])
  }

  /** The scan starts at the second colon of a leading "::". */
  function Start(src: string): Option<string> {
    if src != [] && src[0] == ':' then
      if |src| > 1 && src[1] == ':' then Some(src[1..]) else None
    else Some(src)
  }

  function Parse(src: string): Option<seq<Byte>> {
    var s := Start(src);
    if s.None? then None
    else
      var r := Scan([], s.v, [], None);
      if r.None? then None
      else
        ColonInside([], s.v, [], None);
        Finish(r.v)
  }

  lemma {:induction false} ColonInside(g: string, rest: string, out: seq<Byte>, colon: Option<nat>)
    requires AllHex(g) && HexValue(g) <= GROUP_MAX
    requires colon.Some? ==> colon.v <= |out|
    requires Scan(g, rest, out, colon).Some?
    ensures var r := Scan(g, rest, out, colon).v;
            |out| <= |r.bytes| && (r.colon.Some? ==> r.colon.v <= |r.bytes|)
    decreases |rest|
  {
    if rest != [] {
      if IsHex(rest[0]) {
        HexAppend(g, rest[0]);
        ColonInside(g + [rest[0]], rest[1..], out, colon);
      } else if rest[0] == ':' {
        if g == [] { ColonInside([], rest[1..], out, Some(|out|)); }
        else { ColonInside([], rest[1..], out + GroupBytes(HexValue(g)), colon); }
      }
    }
  }

  // ----- Completeness: every legal spelling is scanned to what it denotes -----

  lemma {:induction false} ScanDigits(g: string, h: string, rest: string, out: seq<Byte>, colon: Option<nat>)
    requires AllHex(g + h) && HexValue(g + h) <= GROUP_MAX
    ensures AllHex(g) && HexValue(g) <= GROUP_MAX
    ensures Scan(g, h + rest, out, colon) == Scan(g + h, rest, out, colon)
    decreases |h|
  {
    HexPrefix(g, h);
    if h == [] {
      assert h + rest == rest && g + h == g;
    } else {
      var c := h[0];
      assert c == (g + h)[|g|];
      assert (g + [c]) + h[1..] == g + h;
      HexPrefix(g + [c], h[1..]);
      assert (h + rest)[1..] == h[1..] + rest;
      ScanDigits(g + [c], h[1..], rest, out, colon);
    }
  }

  lemma {:induction false} ScanGroupEnd(g: string, out: seq<Byte>, colon: Option<nat>)
    requires LegalGroup(g) && |out| + 2 <= ADDRESS_SIZE
    ensures Scan([], g, out, colon) == Some(Scanned(out + GroupBytes(HexValue(g)), colon))
  {
    assert [] + g == g && g + [] == g;
    ScanDigits([], g, [], out, colon);
  }

  lemma {:induction false} ScanGroupColon(g: string, rest: string, out: seq<Byte>, colon: Option<nat>)
    requires LegalGroup(g) && |out| + 2 <= ADDRESS_SIZE && rest != []
    ensures Scan([], g + (":" + rest), out, colon) == Scan([], rest, out + GroupBytes(HexValue(g)), colon)
  {
    assert [] + g == g;
    ScanDigits([], g, ":" + rest, out, colon);
    assert (":" + rest)[1..] == rest;
  }

  /** The digits before the first dot are read as hex first; the quad is then read
      again from the start of the token and the hex value is dropped. */
  lemma {:induction false} ScanQuadTail(q: seq<Byte>, out: seq<Byte>, colon: Option<nat>)
    requires |q| == 4 && |out| + 4 <= ADDRESS_SIZE
    ensures Scan([], PrintQuad(q), out, colon) == Some(Scanned(out + q, colon))
  {
    var first, rest := Decimal(q[0]), "." + PrintBytes(q[1..]);
    PrintShape(q);
    DecimalAsHex(q[0]);
    assert [] + first == first;
    ScanDigits([], first, rest, out, colon);
    QuadScan(PrintQuad(q));
  }

  lemma {:induction false} ScanTail(gs: seq<string>, q: Tail, out: seq<Byte>, colon: Option<nat>)
    requires LegalGroups(gs) && LegalTail(q)
    requires |out| + |Bytes(gs)| + |TailBytes(q)| <= ADDRESS_SIZE
    ensures Scan([], Join(Fields(gs, q)), out, colon) == Some(Scanned(out + (Bytes(gs) + TailBytes(q)), colon))
    decreases |gs|
  {
    if gs == [] {
      if q.Some? {
        assert Fields(gs, q) == [PrintQuad(q.v)];
        ScanQuadTail(q.v, out, colon);
        assert Bytes(gs) + TailBytes(q) == q.v;
      } else {
        assert out + (Bytes(gs) + TailBytes(q)) == out;
      }
    } else {
      var g, more := gs[0], gs[1..];
      var fields := Fields(more, q);
      assert gs == [g] + more;
      FieldsCons(g, more, q);
      JoinCons(g, fields);
      var b := GroupBytes(HexValue(g));
      Regroup(out, b, Bytes(more), TailBytes(q));
      if fields == [] {
        ScanGroupEnd(g, out, colon);
        assert (out + b) + (Bytes(more) + TailBytes(q)) == out + b;
      } else {
        JoinNonEmpty(more, q);
        ScanGroupColon(g, Join(fields), out, colon);
        ScanTail(more, q, out + b, colon);
      }
    }
  }

  lemma {:induction false} JoinNonEmpty(gs: seq<string>, q: Tail)
    requires LegalGroups(gs) && LegalTail(q) && Fields(gs, q) != []
    ensures Join(Fields(gs, q)) != [] && IsHex(Join(Fields(gs, q))[0])
  {
    var fields := Fields(gs, q);
    var first := fields[0];
    assert fields == [first] + fields[1..];
    JoinCons(first, fields[1..]);
    if gs == [] {
      PrintShape(q.v);
      DecimalDigits(q.v[0]);
      assert forall c | IsDigit(c) :: IsHex(c);
    }
  }

  /** The text from the first colon of "::" on, when the groups `left` come first;
      without groups only the second colon is left. */
  function FromGap(left: seq<string>, tail: string): string {
    (if left == [] then ":" else Join(left) + "::") + tail
  }

  lemma {:induction false} FromGapCons(g: string, left: seq<string>, tail: string)
    ensures FromGap([g] + left, tail) == g + (":" + FromGap(left, tail))
  {
    JoinCons(g, left);
    if left == [] {
      assert g + "::" + tail == g + (":" + (":" + tail));
    } else {
      var j := Join(left);
      assert (g + (":" + j)) + "::" + tail == g + (":" + (j + "::" + tail));
    }
  }

  /** The groups before "::". */
  lemma {:induction false} ScanLeft(left: seq<string>, tail: string, out: seq<Byte>)
    requires LegalGroups(left) && |out| + |Bytes(left)| <= ADDRESS_SIZE
    ensures Scan([], FromGap(left, tail), out, None) == Scan([], tail, out + Bytes(left), Some(|out| + |Bytes(left)|))
    decreases |left|
  {
    if left == [] {
      assert (":" + tail)[1..] == tail;
      assert out + Bytes(left) == out;
    } else {
      var g, more := left[0], left[1..];
      var b := GroupBytes(HexValue(g));
      assert left == [g] + more;
      FromGapCons(g, more, tail);
      assert out + Bytes(left) == (out + b) + Bytes(more);
      ScanGroupColon(g, FromGap(more, tail), out, None);
      ScanLeft(more, tail, out + b);
    }
  }

  // ----- Spellings that write too much -----

  lemma {:induction false} GroupOverflows(g: string, rest: string, out: seq<Byte>, colon: Option<nat>)
    requires LegalGroup(g) && |out| + 2 > ADDRESS_SIZE && (rest == [] || rest[0] == ':')
    ensures Scan([], g + rest, out, colon).None?
  {
    assert [] + g == g;
    ScanDigits([], g, rest, out, colon);
  }

  lemma {:induction false} QuadOverflows(q: seq<Byte>, out: seq<Byte>, colon: Option<nat>)
    requires |q| == 4 && |out| + 4 > ADDRESS_SIZE
    ensures Scan([], PrintQuad(q), out, colon).None?
  {
    var first, rest := Decimal(q[0]), "." + PrintBytes(q[1..]);
    PrintShape(q);
    DecimalAsHex(q[0]);
    assert [] + first == first;
    ScanDigits([], first, rest, out, colon);
  }

  lemma {:induction false} TailOverflows(gs: seq<string>, q: Tail, out: seq<Byte>, colon: Option<nat>)
    requires LegalGroups(gs) && LegalTail(q)
    requires |out| <= ADDRESS_SIZE < |out| + |Bytes(gs)| + |TailBytes(q)|
    ensures Scan([], Join(Fields(gs, q)), out, colon).None?
    decreases |gs|
  {
    if gs == [] {
      assert Fields(gs, q) == [PrintQuad(q.v)];
      QuadOverflows(q.v, out, colon);
    } else {
      var g, more := gs[0], gs[1..];
      var fields := Fields(more, q);
      assert gs == [g] + more;
      FieldsCons(g, more, q);
      JoinCons(g, fields);
      if |out| + 2 > ADDRESS_SIZE {
        assert fields == [] ==> g + [] == g;
        GroupOverflows(g, if fields == [] then [] else ":" + Join(fields), out, colon);
      } else {
        JoinNonEmpty(more, q);
        ScanGroupColon(g, Join(fields), out, colon);
        TailOverflows(more, q, out + GroupBytes(HexValue(g)), colon);
      }
    }
  }

  lemma {:induction false} LeftOverflows(left: seq<string>, tail: string, out: seq<Byte>)
    requires LegalGroups(left) && |out| <= ADDRESS_SIZE < |out| + |Bytes(left)|
    ensures Scan([], FromGap(left, tail), out, None).None?
    decreases |left|
  {
    var g, more := left[0], left[1..];
    assert left == [g] + more;
    FromGapCons(g, more, tail);
    if |out| + 2 > ADDRESS_SIZE {
      GroupOverflows(g, ":" + FromGap(more, tail), out, None);
    } else {
      ScanGroupColon(g, FromGap(more, tail), out, None);
      LeftOverflows(more, tail, out + GroupBytes(HexValue(g)));
    }
  }

  lemma ParseFull(gs: seq<string>, q: Tail)
    requires Legal(Full(gs, q))
    ensures Parse(Text(Full(gs, q))) == Some(Denotes(Full(gs, q)))
  {
    ScanTail(gs, q, [], None);
    assert [] + (Bytes(gs) + TailBytes(q)) == Bytes(gs) + TailBytes(q);
    JoinNonEmpty(gs, q);
  }

  /** The scan of a text with "::" starts after a leading colon. */
  lemma {:induction false} StartOfGap(l: seq<string>, tail: string)
    requires LegalGroups(l)
    ensures Start(Join(l) + "::" + tail) == Some(FromGap(l, tail))
  {
    var text := Join(l) + "::" + tail;
    if l == [] {
      assert text == "::" + tail;
      assert text[1..] == FromGap(l, tail);
    } else {
      assert Fields(l, None) == l;
      JoinNonEmpty(l, None);
      assert text[0] == Join(l)[0];
    }
  }

  /** Up to "::", wherever it stands. */
  lemma {:induction false} ScanToGap(l: seq<string>, tail: string)
    requires LegalGroups(l) && |Bytes(l)| <= ADDRESS_SIZE
    ensures Scan([], FromGap(l, tail), [], None) == Scan([], tail, Bytes(l), Some(|Bytes(l)|))
  {
    ScanLeft(l, tail, []);
    assert [] + Bytes(l) == Bytes(l);
  }

  lemma {:induction false} ScanGap(l: seq<string>, r: seq<string>, q: Tail)
    requires WellFormed(Gap(l, r, q)) && |Written(Gap(l, r, q))| <= ADDRESS_SIZE
    ensures var text, out := Text(Gap(l, r, q)), Bytes(l);
            Start(text).Some? &&
            Scan([], Start(text).v, [], None) == Some(Scanned(out + (Bytes(r) + TailBytes(q)), Some(|out|)))
  {
    StartOfGap(l, Join(Fields(r, q)));
    ScanToGap(l, Join(Fields(r, q)));
    ScanTail(r, q, Bytes(l), Some(|Bytes(l)|));
  }

  /** "::" beside sixteen written bytes or more is rejected. */
  lemma {:induction false} GapOverflows(l: seq<string>, r: seq<string>, q: Tail)
    requires WellFormed(Gap(l, r, q)) && |Written(Gap(l, r, q))| >= ADDRESS_SIZE
    ensures Parse(Text(Gap(l, r, q))).None?
  {
    var tail := Join(Fields(r, q));
    StartOfGap(l, tail);
    if |Bytes(l)| > ADDRESS_SIZE {
      LeftOverflows(l, tail, []);
    } else if |Written(Gap(l, r, q))| > ADDRESS_SIZE {
      ScanToGap(l, tail);
      TailOverflows(r, q, Bytes(l), Some(|Bytes(l)|));
    } else {
      ScanGap(l, r, q);
    }
  }

  lemma {:induction false} FinishGap(out: seq<Byte>, rest: seq<Byte>)
    requires |out| + |rest| < ADDRESS_SIZE
    ensures Finish(Scanned(out + rest, Some(|out|))) == Some(out + Zeros(ADDRESS_SIZE - |out + rest|) + rest)
  {
    assert (out + rest)[..|out|] == out;
    assert (out + rest)[|out|..] == rest;
  }

  lemma {:induction false} ParseGap(l: seq<string>, r: seq<string>, q: Tail)
    requires Legal(Gap(l, r, q))
    ensures Parse(Text(Gap(l, r, q))) == Some(Denotes(Gap(l, r, q)))
  {
    ScanGap(l, r, q);
    var out, rest := Bytes(l), Bytes(r) + TailBytes(q);
    FinishGap(out, rest);
    assert |Written(Gap(l, r, q))| == |out + rest|;
    assert Denotes(Gap(l, r, q)) == out + Zeros(ADDRESS_SIZE - |out + rest|) + rest;
  }

  /** Every legal spelling of an address parses to that address. */
  lemma ParseComplete(sp: Spelling)
    requires Legal(sp)
    ensures Parse(Text(sp)) == Some(Denotes(sp))
  {
    match sp
    case Full(gs, q) => ParseFull(gs, q);
    case Gap(l, r, q) => ParseGap(l, r, q);
  }

  // ----- Soundness: whatever the scan accepts is a legal spelling -----

  /** What the unread text must look like: fields, or groups and then "::" and
      fields.  Without groups only the second colon of "::" is still unread. */
  function Pending(gap: bool, left: seq<string>, right: seq<string>, q: Tail): string
    requires LegalTail(q)
  {
    if !gap then Join(Fields(right, q)) else FromGap(left, Join(Fields(right, q)))
  }

  ghost predicate Explains(gap: bool, left: seq<string>, right: seq<string>, q: Tail,
                           text: string, out: seq<Byte>, colon: Option<nat>, r: Scanned)
  {
    && LegalGroups(left) && LegalGroups(right) && LegalTail(q)
    && text == Pending(gap, left, right, q)
    && (!gap ==> left == [] && r == Scanned(out + (Bytes(right) + TailBytes(q)), colon))
    && (gap ==> colon.None? &&
                r == Scanned(out + (Bytes(left) + (Bytes(right) + TailBytes(q))), Some(|out| + |Bytes(left)|)))
  }

  lemma {:induction false} ScanSound(g: string, rest: string, out: seq<Byte>, colon: Option<nat>)
      returns (gap: bool, left: seq<string>, right: seq<string>, q: Tail)
    requires AllHex(g) && HexValue(g) <= GROUP_MAX && Scan(g, rest, out, colon).Some?
    ensures Explains(gap, left, right, q, g + rest, out, colon, Scan(g, rest, out, colon).v)
    decreases |rest|, 1
  {
    gap, left, right, q := false, [], [], None;
    if rest == [] {
      right := if g == [] then [] else [g];
      EndExplained(g, right, out, colon);
    } else if IsHex(rest[0]) {
      HexAppend(g, rest[0]);
      assert (g + [rest[0]]) + rest[1..] == g + rest;
      gap, left, right, q := ScanSound(g + [rest[0]], rest[1..], out, colon);
    } else if rest[0] == ':' {
      assert g + rest == g + (":" + rest[1..]);
      assert [] + rest[1..] == rest[1..];
      gap, left, right, q := ColonSound(g, rest, out, colon);
    } else {
      q := Octets(g + rest, 0, None);
      QuadExplained(g + rest, out, colon);
    }
  }

  lemma {:induction false} QuadExplained(text: string, out: seq<Byte>, colon: Option<nat>)
    requires Octets(text, 0, None).Some?
    ensures var q := Octets(text, 0, None);
            Explains(false, [], [], q, text, out, colon, Scanned(out + q.v, colon))
  {
    QuadScan(text);
    var q := Octets(text, 0, None);
    assert Fields([], q) == [PrintQuad(q.v)];
    assert Bytes([]) + TailBytes(q) == q.v;
  }

  lemma {:induction false} EndExplained(g: string, right: seq<string>, out: seq<Byte>, colon: Option<nat>)
    requires AllHex(g) && HexValue(g) <= GROUP_MAX && Scan(g, [], out, colon).Some?
    requires right == if g == [] then [] else [g]
    ensures Explains(false, [], right, None, g + [], out, colon, Scan(g, [], out, colon).v)
  {
    assert g + [] == g;
    assert Fields(right, None) == right;
    if g == [] {
      assert out + (Bytes(right) + TailBytes(None)) == out;
    } else {
      BytesCons(g, []);
      assert [g] + [] == [g];
      assert Bytes(right) + TailBytes(None) == GroupBytes(HexValue(g));
    }
  }

  lemma {:induction false} ColonSound(g: string, rest: string, out: seq<Byte>, colon: Option<nat>)
      returns (gap: bool, left: seq<string>, right: seq<string>, q: Tail)
    requires AllHex(g) && HexValue(g) <= GROUP_MAX && Scan(g, rest, out, colon).Some?
    requires rest != [] && rest[0] == ':'
    ensures Explains(gap, left, right, q, g + (":" + rest[1..]), out, colon, Scan(g, rest, out, colon).v)
    decreases |rest|, 0
  {
    assert [] + rest[1..] == rest[1..];
    var r := Scan(g, rest, out, colon).v;
    if g == [] {
      gap, left, right, q := ScanSound([], rest[1..], out, Some(|out|));
      GapExplained(left, right, q, rest[1..], out, r);
      gap := true;
      assert [] + (":" + rest[1..]) == ":" + rest[1..];
    } else {
      gap, left, right, q := ScanSound([], rest[1..], out + GroupBytes(HexValue(g)), colon);
      if gap {
        ColonGap(g, left, right, q, rest[1..], out, r);
        left := [g] + left;
      } else {
        ColonPlain(g, right, q, rest[1..], out, colon, r);
        right := [g] + right;
      }
    }
  }

  lemma {:induction false} GapExplained(left: seq<string>, right: seq<string>, q: Tail, rest: string, out: seq<Byte>, r: Scanned)
    requires Explains(false, left, right, q, rest, out, Some(|out|), r)
    ensures Explains(true, left, right, q, ":" + rest, out, None, r)
  {
    assert out + (Bytes([]) + (Bytes(right) + TailBytes(q))) == out + (Bytes(right) + TailBytes(q));
  }

  lemma {:induction false} ColonGap(g: string, left: seq<string>, right: seq<string>, q: Tail,
                                    rest: string, out: seq<Byte>, r: Scanned)
    requires LegalGroup(g) && Explains(true, left, right, q, rest, out + GroupBytes(HexValue(g)), None, r)
    ensures Explains(true, [g] + left, right, q, g + (":" + rest), out, None, r)
  {
    BytesCons(g, left);
    FromGapCons(g, left, Join(Fields(right, q)));
    Regroup(out, GroupBytes(HexValue(g)), Bytes(left), Bytes(right) + TailBytes(q));
  }

  lemma Regroup(a: seq<Byte>, b: seq<Byte>, c: seq<Byte>, d: seq<Byte>)
    ensures (a + b) + (c + d) == a + ((b + c) + d)
  {
  }

  lemma {:induction false} ColonPlain(g: string, right: seq<string>, q: Tail,
                                      rest: string, out: seq<Byte>, colon: Option<nat>, r: Scanned)
    requires LegalGroup(g) && rest != []
    requires Explains(false, [], right, q, rest, out + GroupBytes(HexValue(g)), colon, r)
    ensures Explains(false, [], [g] + right, q, g + (":" + rest), out, colon, r)
  {
    var b := GroupBytes(HexValue(g));
    BytesCons(g, right);
    FieldsCons(g, right, q);
    JoinCons(g, Fields(right, q));
    Regroup(out, b, Bytes(right), TailBytes(q));
  }

  /** Where the text does not begin with a colon. */
  lemma {:induction false} PendingStart(gap: bool, left: seq<string>, right: seq<string>, q: Tail)
    requires LegalGroups(left) && LegalGroups(right) && LegalTail(q)
    requires var t := Pending(gap, left, right, q); t != [] && t[0] == ':'
    ensures gap && left == []
  {
    if !gap {
      JoinNonEmpty(right, q);
    } else if left != [] {
      assert Fields(left, None) == left;
      JoinNonEmpty(left, None);
    }
  }

  lemma {:induction false} LegalWhenFinished(gap: bool, left: seq<string>, right: seq<string>, q: Tail,
                                            text: string, r: Scanned)
    requires Explains(gap, left, right, q, text, [], None, r)
    requires r.colon.Some? ==> r.colon.v <= |r.bytes|
    requires Finish(r).Some?
    ensures Legal(if gap then Gap(left, right, q) else Full(right, q))
  {
  }

  lemma ParseSound(src: string) returns (sp: Spelling)
    requires Parse(src).Some?
    ensures Legal(sp) && Text(sp) == src
  {
    var s := Start(src).v;
    var r := Scan([], s, [], None).v;
    var gap, left, right, q := ScanSound([], s, [], None);
    assert [] + s == s;
    LegalWhenFinished(gap, left, right, q, s, r);
    sp := if gap then Gap(left, right, q) else Full(right, q);
    TextOfSource(src, s, gap, left, right, q);
  }

  lemma {:induction false} TextOfSource(src: string, s: string, gap: bool, left: seq<string>, right: seq<string>, q: Tail)
    requires LegalGroups(left) && LegalGroups(right) && LegalTail(q)
    requires Start(src) == Some(s) && s == Pending(gap, left, right, q)
    ensures Text(if gap then Gap(left, right, q) else Full(right, q)) == src
  {
    var fields := Join(Fields(right, q));
    if src != [] && src[0] == ':' {
      PendingStart(gap, left, right, q);
      assert src == ":" + s;
      assert Join([]) + "::" + fields == ":" + (":" + fields);
    } else if gap {
      assert left != [];
    }
  }

  /** The scan accepts exactly the addresses and yields exactly what they denote. */
  lemma ParseDecides(src: string)
    ensures Parse(src).Some? <==> IsAddress(src)
    ensures forall sp | Legal(sp) && Text(sp) == src :: Parse(src) == Some(Denotes(sp))
  {
    if Parse(src).Some? {
      var sp := ParseSound(src);
    }
    forall sp | Legal(sp) && Text(sp) == src ensures Parse(src) == Some(Denotes(sp)) {
      ParseComplete(sp);
    }
  }
}
