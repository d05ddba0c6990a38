/**
 `gl_locale_name_canonicalize` for Mac OS X (localename.c): locale names rewritten
 in place with three sorted tables.
 */
module Canonicalize {
  import opened Options
  import opened CText

  datatype Rename = Rename(from: string, unixy: string)

  datatype Tables = Tables(legacy: seq<Rename>, langtag: seq<Rename>, script: seq<Rename>)

  // ----- Specification: linear lookups -----

  function Lookup(table: seq<Rename>, key: string): Option<string> {
    if table == [] then None
    else if table[0].from == key then Some(table[0].unixy)
    else Lookup(table[1..], key)
  }

  function Dashes(s: string): (r: string)
    ensures |r| == |s|
    ensures forall i | 0 <= i < |s| :: r[i] == if s[i] == '-' then '_' else s[i]
  {
    seq(|s|, i requires 0 <= i < |s| => if s[i] == '-' then '_' else s[i])
  }

  /** A language of two characters and a script: ll-Ssss. */
  predicate TagShape(s: string) {
    |s| == 7 && s[2] == '-'
  }

  function Canonical(t: Tables, name: string): string {
    if Lookup(t.legacy, name).Some? then Lookup(t.legacy, name).v
    else if Lookup(t.langtag, name).Some? then Lookup(t.langtag, name).v
    else if TagShape(name) && Lookup(t.script, name[3..]).Some? then
      name[..2] + "@" + Lookup(t.script, name[3..]).v
    else Dashes(name)
  }

  // ----- The same, row by row -----

  ghost predicate HasRow(table: seq<Rename>, key: string) {
    exists i | 0 <= i < |table| :: table[i].from == key
  }

  /** `r` is what the rows make of `name`: a legacy row before a language-tag row
      before a script row, and dashes only for lack of any. */
  ghost predicate RowsGive(t: Tables, name: string, r: string) {
    && (forall i | 0 <= i < |t.legacy| && t.legacy[i].from == name :: r == t.legacy[i].unixy)
    && (!HasRow(t.legacy, name) ==>
          forall i | 0 <= i < |t.langtag| && t.langtag[i].from == name :: r == t.langtag[i].unixy)
    && (!HasRow(t.legacy, name) && !HasRow(t.langtag, name) && |name| == 7 && name[2] == '-' ==>
          forall i | 0 <= i < |t.script| && t.script[i].from == name[3..] :: r == name[..2] + "@" + t.script[i].unixy)
    && (!HasRow(t.legacy, name) && !HasRow(t.langtag, name)
        && !(|name| == 7 && name[2] == '-' && HasRow(t.script, name[3..])) ==>
          |r| == |name| && forall k | 0 <= k < |name| :: r[k] == if name[k] == '-' then '_' else name[k])
  }

  lemma LookupRow(table: seq<Rename>, key: string)
    requires StrictlySorted(table)
    ensures Lookup(table, key).Some? <==> HasRow(table, key)
    ensures forall i | 0 <= i < |table| && table[i].from == key :: Lookup(table, key) == Some(table[i].unixy)
  {
    if HasRow(table, key) {
      forall i | 0 <= i < |table| && table[i].from == key ensures Lookup(table, key) == Some(table[i].unixy) {
        LookupAt(table, key, i);
      }
    } else {
      LookupNone(table, key);
    }
  }

  /** The rows leave no choice. */
  lemma CanonicalByRows(t: Tables, name: string, r: string)
    requires TablesOk(t)
    ensures RowsGive(t, name, r) <==> r == Canonical(t, name)
  {
    LookupRow(t.legacy, name);
    LookupRow(t.langtag, name);
    if TagShape(name) { LookupRow(t.script, name[3..]); }
    if RowsGive(t, name, r) {
      if Lookup(t.legacy, name).Some? {
        var i := LookupSome(t.legacy, name);
      } else if Lookup(t.langtag, name).Some? {
        var i := LookupSome(t.langtag, name);
      } else if TagShape(name) && Lookup(t.script, name[3..]).Some? {
        var i := LookupSome(t.script, name[3..]);
      } else {
        assert r == Dashes(name);
      }
    }
  }

  // ----- What the tables must be -----

  ghost predicate StrictlySorted(table: seq<Rename>) {
    forall i, j | 0 <= i < j < |table| :: StrCmp(table[i].from, table[j].from) < 0
  }

  ghost predicate CStrings(table: seq<Rename>) {
    forall i | 0 <= i < |table| :: NoNul(table[i].unixy)
  }

  predicate UpperStart(s: string) {
    s != [] && 'A' <= s[0] <= 'Z'
  }

  /** The tables are not empty, are strictly sorted, and hold the kinds of names
      that the guards of the code look for. */
  ghost predicate TablesOk(t: Tables) {
    && t.legacy != [] && t.langtag != [] && t.script != []
    && StrictlySorted(t.legacy) && StrictlySorted(t.langtag) && StrictlySorted(t.script)
    && CStrings(t.legacy) && CStrings(t.langtag) && CStrings(t.script)
    && (forall i | 0 <= i < |t.legacy| :: UpperStart(t.legacy[i].from))
    && (forall i | 0 <= i < |t.langtag| :: TagShape(t.langtag[i].from))
  }

  /** "A sufficiently large buffer". */
  ghost predicate LargeEnough(t: Tables, size: nat) {
    && (forall i | 0 <= i < |t.legacy| :: |t.legacy[i].unixy| < size)
    && (forall i | 0 <= i < |t.langtag| :: |t.langtag[i].unixy| < size)
    && (forall i | 0 <= i < |t.script| :: 3 + |t.script[i].unixy| < size)
  }

  // ----- Binary search finds what linear search finds -----

  lemma {:induction false} LookupAt(table: seq<Rename>, key: string, i: nat)
    requires StrictlySorted(table) && i < |table| && table[i].from == key
    ensures Lookup(table, key) == Some(table[i].unixy)
    decreases |table|
  {
    StrCmpEqual(table[0].from, key);
    if i > 0 {
      assert StrCmp(table[0].from, table[i].from) < 0;
      LookupAt(table[1..], key, i - 1);
    }
  }

  lemma {:induction false} LookupNone(table: seq<Rename>, key: string)
    requires forall i | 0 <= i < |table| :: table[i].from != key
    ensures Lookup(table, key).None?
    decreases |table|
  {
    if table != [] { LookupNone(table[1..], key); }
  }

  lemma {:induction false} LookupSome(table: seq<Rename>, key: string) returns (i: nat)
    requires Lookup(table, key).Some?
    ensures i < |table| && table[i].from == key && Lookup(table, key) == Some(table[i].unixy)
    decreases |table|
  {
    if table[0].from == key {
      i := 0;
    } else {
      i := LookupSome(table[1..], key);
      i := i + 1;
    }
  }

  /** The half-open search: `key` can only be at the index returned. */
  method Find(table: seq<Rename>, key: string) returns (i1: nat)
    requires table != [] && StrictlySorted(table)
    ensures i1 < |table|
    ensures table[i1].from == key <==> exists i | 0 <= i < |table| :: table[i].from == key
    ensures Lookup(table, key) == if table[i1].from == key then Some(table[i1].unixy) else None
  {
    i1 := 0;
    var i2 := |table|;
    while i2 - i1 > 1
      invariant i1 < i2 <= |table|
      invariant forall i | 0 <= i < i1 :: table[i].from != key
      invariant forall i | i2 <= i < |table| :: table[i].from != key
    {
      var i := (i1 + i2) / 2;
      if StrCmp(key, table[i].from) < 0 {
        forall k | i <= k < |table| ensures table[k].from != key { NotAbove(table, key, i, k); }
        i2 := i;
      } else {
        forall k | 0 <= k < i ensures table[k].from != key { NotBelow(table, key, k, i); }
        i1 := i;
      }
    }
    if table[i1].from == key {
      LookupAt(table, key, i1);
    } else {
      LookupNone(table, key);
    }
  }

  lemma NotAbove(table: seq<Rename>, key: string, i: nat, k: nat)
    requires StrictlySorted(table) && i <= k < |table| && StrCmp(key, table[i].from) < 0
    ensures table[k].from != key
  {
    StrCmpEqual(key, table[k].from);
    if i < k {
      assert StrCmp(table[i].from, table[k].from) < 0;
      StrCmpTransitive(key, table[i].from, table[k].from);
    }
  }

  lemma NotBelow(table: seq<Rename>, key: string, k: nat, i: nat)
    requires StrictlySorted(table) && k < i < |table| && StrCmp(key, table[i].from) >= 0
    ensures table[k].from != key
  {
    assert StrCmp(table[k].from, table[i].from) < 0;
  }

  // ----- The guards hide no match -----

  lemma LegacyGuard(t: Tables, name: string)
    requires TablesOk(t) && !UpperStart(name)
    ensures Lookup(t.legacy, name).None?
  {
    LookupNone(t.legacy, name);
  }

  lemma LangtagGuard(t: Tables, name: string)
    requires TablesOk(t) && !TagShape(name)
    ensures Lookup(t.langtag, name).None?
  {
    LookupNone(t.langtag, name);
  }

  // ----- The rewriting in place -----

  /** `strcpy (name + at, s)` on a buffer whose first `at` characters stay. */
  method Overwrite(buf: array<char>, at: nat, s: string)
    requires at + |s| < buf.Length && NoNul(s) && NoNul(buf[..at])
    modifies buf
    ensures Contents(buf[..]) == old(buf[..at]) + s
  {
    StrCpy(buf, at, s);
    ghost var want := old(buf[..at]) + s;
    assert buf[..|want|] == want;
    HeldContents(buf[..], want);
  }

  /** Step 3: the loop over the whole name. */
  method ReplaceDashes(buf: array<char>, ghost name: string)
    requires Holds(buf[..], name) && NoNul(name)
    modifies buf
    ensures Contents(buf[..]) == Dashes(name)
  {
    var p := 0;
    assert forall k | 0 <= k < |name| :: buf[k] == buf[..][..|name|][k];
    while buf[p] != '\0'
      invariant 0 <= p <= |name| && buf[|name|] == '\0'
      invariant forall k | 0 <= k < p :: buf[k] == Dashes(name)[k]
      invariant forall k | p <= k < |name| :: buf[k] == name[k]
      decreases |name| - p
    {
      if buf[p] == '-' { buf[p] := '_'; }
      p := p + 1;
    }
    assert buf[..|name|] == Dashes(name);
    HeldContents(buf[..], Dashes(name));
  }

  lemma ContentsHeld(buf: seq<char>)
    requires '\0' in buf
    ensures Holds(buf, Contents(buf)) && NoNul(Contents(buf))
  {
    var i :| 0 <= i < |buf| && buf[i] == '\0';
  }

  /** `gl_locale_name_canonicalize (name)`. */
  method CanonicalizeName(t: Tables, buf: array<char>)
    requires TablesOk(t) && LargeEnough(t, buf.Length) && '\0' in buf[..]
    modifies buf
    ensures Contents(buf[..]) == Canonical(t, old(Contents(buf[..])))
    ensures RowsGive(t, old(Contents(buf[..])), Contents(buf[..]))
  {
    var name := Contents(buf[..]);
    CanonicalByRows(t, name, Canonical(t, name));
    ContentsHeld(buf[..]);
    assert buf[0] == '\0' || buf[0] == name[0];
    if 'A' <= buf[0] <= 'Z' {
      var i1 := Find(t.legacy, name);
      if name == t.legacy[i1].from {
        Overwrite(buf, 0, t.legacy[i1].unixy);
        assert buf[..0] + t.legacy[i1].unixy == t.legacy[i1].unixy;
        return;
      }
    } else {
      LegacyGuard(t, name);
    }
    if |name| == 7 && name[2] == '-' {
      var i1 := Find(t.langtag, name);
      if name == t.langtag[i1].from {
        Overwrite(buf, 0, t.langtag[i1].unixy);
        assert buf[..0] + t.langtag[i1].unixy == t.langtag[i1].unixy;
        return;
      }
      i1 := Find(t.script, name[3..]);
      if name[3..] == t.script[i1].from {
        assert forall k | 0 <= k < 2 :: buf[k] == name[k];
        buf[2] := '@';
        assert buf[..3] == name[..2] + "@";
        Overwrite(buf, 3, t.script[i1].unixy);
        return;
      }
    } else {
      LangtagGuard(t, name);
    }
    ReplaceDashes(buf, name);
  }

  // ----- Idempotence -----

  predicate Free(s: string, c: char) {
    c !in s
  }

  /** Facts about the names in the tables: legacy names have no '-', '_' or '@',
      results have no '-' and are no legacy names. */
  ghost predicate TidyTables(t: Tables) {
    && (forall i | 0 <= i < |t.legacy| ::
          Free(t.legacy[i].from, '-') && Free(t.legacy[i].from, '_') && Free(t.legacy[i].from, '@'))
    && (forall i | 0 <= i < |t.legacy| ::
          Free(t.legacy[i].unixy, '-') && Lookup(t.legacy, t.legacy[i].unixy).None?)
    && (forall i | 0 <= i < |t.langtag| ::
          Free(t.langtag[i].unixy, '-') && Lookup(t.legacy, t.langtag[i].unixy).None?)
    && (forall i | 0 <= i < |t.script| :: Free(t.script[i].unixy, '-'))
  }

  lemma NoDashIsFixed(t: Tables, s: string)
    requires TablesOk(t) && Free(s, '-') && Lookup(t.legacy, s).None?
    ensures Canonical(t, s) == s
  {
    LangtagGuard(t, s);
    assert Dashes(s) == s;
  }

  lemma NotLegacy(t: Tables, s: string, c: char)
    requires TidyTables(t) && c in s && (c == '-' || c == '_' || c == '@')
    ensures Lookup(t.legacy, s).None?
  {
    if Lookup(t.legacy, s).Some? {
      var i := LookupSome(t.legacy, s);
      assert false;
    }
  }

  /** The branch that writes ll@script. */
  predicate ScriptCase(t: Tables, name: string) {
    && Lookup(t.legacy, name).None? && Lookup(t.langtag, name).None?
    && TagShape(name) && Lookup(t.script, name[3..]).Some?
  }

  lemma DashesIdempotent(t: Tables, name: string)
    requires TablesOk(t) && TidyTables(t) && Lookup(t.legacy, name).None?
    ensures Canonical(t, Dashes(name)) == Dashes(name)
  {
    var r := Dashes(name);
    if Free(name, '-') {
      assert r == name;
    } else {
      var i :| 0 <= i < |name| && name[i] == '-';
      assert r[i] == '_';
      NotLegacy(t, r, '_');
    }
    NoDashIsFixed(t, r);
  }

  lemma ScriptIdempotentExactlyWhen(t: Tables, name: string)
    requires TablesOk(t) && TidyTables(t) && ScriptCase(t, name)
    ensures Canonical(t, Canonical(t, name)) == Canonical(t, name) <==> Free(name[..2], '-')
  {
    var i := LookupSome(t.script, name[3..]);
    var u := t.script[i].unixy;
    var r := Canonical(t, name);
    assert r == name[..2] + "@" + u && r[2] == '@';
    NotLegacy(t, r, '@');
    if Free(name[..2], '-') {
      NoDashIsFixed(t, r);
    } else {
      LangtagGuard(t, r);
      var k :| 0 <= k < 2 && name[k] == '-';
      assert r[k] == '-' && Dashes(r)[k] == '_';
    }
  }

  /** Canonicalising twice is the same as once, except exactly for a name of the
      form ll-Ssss with a known script and a '-' among its first two characters. */
  lemma IdempotentExactlyWhen(t: Tables, name: string)
    requires TablesOk(t) && TidyTables(t)
    ensures Canonical(t, Canonical(t, name)) == Canonical(t, name) <==>
            !(ScriptCase(t, name) && !Free(name[..2], '-'))
  {
    if Lookup(t.legacy, name).Some? {
      var i := LookupSome(t.legacy, name);
      NoDashIsFixed(t, t.legacy[i].unixy);
    } else if Lookup(t.langtag, name).Some? {
      var i := LookupSome(t.langtag, name);
      NoDashIsFixed(t, t.langtag[i].unixy);
    } else if ScriptCase(t, name) {
      ScriptIdempotentExactlyWhen(t, name);
    } else {
      DashesIdempotent(t, name);
    }
  }

  /** Tables of one row each. */
  function SampleTables(): Tables {
    Tables([Rename("Dutch", "nl")], [Rename("az-Latn", "az")], [Rename("Arab", "arabic")])
  }

  lemma SampleTablesOk()
    ensures TablesOk(SampleTables())
  {
  }

  lemma SampleTablesTidy()
    ensures TidyTables(SampleTables())
  {
    var t := SampleTables();
    LookupNone(t.legacy, "nl");
    LookupNone(t.legacy, "az");
  }

  /** "a--Arab" becomes "a-@arabic", which becomes "a_@arabic". */
  lemma NotAlwaysIdempotent()
    ensures var t := SampleTables();
            && TablesOk(t) && TidyTables(t)
            && Canonical(t, "a--Arab") == "a-@arabic"
            && Canonical(t, "a-@arabic") == "a_@arabic"
  {
    var t := SampleTables();
    SampleTablesOk();
    SampleTablesTidy();
    LookupNone(t.legacy, "a--Arab");
    LookupNone(t.langtag, "a--Arab");
    LookupNone(t.legacy, "a-@arabic");
    LookupNone(t.langtag, "a-@arabic");
    assert "a--Arab"[3..] == "Arab";
    assert Dashes("a-@arabic") == "a_@arabic";
  }
}
