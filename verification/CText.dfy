/**
 C strings: comparison, search, and strings held in character buffers.
 A C string is modelled by its characters before the NUL.
 */
module CText {

  // ----- strcmp -----

  /** The sign of `strcmp (a, b)`. */
  function StrCmp(a: string, b: string): int {
    if a == [] then (if b == [] then 0 else -1)
    else if b == [] then 1
    else if a[0] < b[0] then -1
    else if a[0] > b[0] then 1
    else StrCmp(a[1..], b[1..])
  }

  lemma {:induction false} StrCmpEqual(a: string, b: string)
    ensures StrCmp(a, b) == 0 <==> a == b
    decreases |a|
  {
    if a != [] && b != [] {
      StrCmpEqual(a[1..], b[1..]);
      assert a == [a[0]] + a[1..] && b == [b[0]] + b[1..];
    }
  }

  lemma {:induction false} StrCmpOpposite(a: string, b: string)
    ensures StrCmp(a, b) == -StrCmp(b, a)
    decreases |a|
  {
    if a != [] && b != [] { StrCmpOpposite(a[1..], b[1..]); }
  }

  lemma {:induction false} StrCmpTransitive(a: string, b: string, c: string)
    requires StrCmp(a, b) <= 0 && StrCmp(b, c) <= 0
    ensures StrCmp(a, c) <= 0
    ensures StrCmp(a, b) < 0 || StrCmp(b, c) < 0 ==> StrCmp(a, c) < 0
    decreases |a|
  {
    if a != [] && b != [] && c != [] && a[0] == b[0] == c[0] {
      StrCmpTransitive(a[1..], b[1..], c[1..]);
    }
  }

  /** `a` and `b` agree before index `i`, where `a` ends or has the smaller character. */
  ghost predicate SmallerAt(a: string, b: string, i: nat) {
    && i <= |a| && i < |b| && a[..i] == b[..i]
    && (i == |a| || a[i] < b[i])
  }

  /** The order is that of dictionaries: decided by the first difference, and a proper
      prefix comes first. */
  lemma {:induction false} StrCmpFirstDifference(a: string, b: string)
    ensures StrCmp(a, b) < 0 <==> exists i: nat :: SmallerAt(a, b, i)
    decreases |a|
  {
    if a == [] {
      assert b != [] ==> SmallerAt(a, b, 0);
    } else if b != [] {
      StrCmpFirstDifference(a[1..], b[1..]);
      if a[0] < b[0] { assert SmallerAt(a, b, 0); }
      if a[0] == b[0] && StrCmp(a[1..], b[1..]) < 0 {
        var i: nat :| SmallerAt(a[1..], b[1..], i);
        assert a[..i + 1] == [a[0]] + a[1..][..i] && b[..i + 1] == [b[0]] + b[1..][..i];
        assert SmallerAt(a, b, i + 1);
      }
      if i: nat :| SmallerAt(a, b, i) {
        if i > 0 {
          assert a[..i][0] == b[..i][0];
          assert a[1..][..i - 1] == a[..i][1..] && b[1..][..i - 1] == b[..i][1..];
          assert SmallerAt(a[1..], b[1..], i - 1);
        }
      }
    }
  }

  // ----- strchr -----

  /** The first index at or after `from` that holds `c`, or the length. */
  function IndexOf(s: string, c: char, from: nat): (i: nat)
    requires from <= |s|
    ensures from <= i <= |s|
    ensures i < |s| ==> s[i] == c
    ensures forall k | from <= k < i :: s[k] != c
    decreases |s| - from
  {
    if from == |s| || s[from] == c then from else IndexOf(s, c, from + 1)
  }

  /** What the contract of IndexOf says determines it. */
  lemma IndexOfIs(s: string, c: char, from: nat, i: nat)
    requires from <= i <= |s| && (i < |s| ==> s[i] == c)
    requires forall k | from <= k < i :: s[k] != c
    ensures IndexOf(s, c, from) == i
  {
  }

  // ----- Buffers -----

  predicate NoNul(s: string) {
    forall i | 0 <= i < |s| :: s[i] != '\0'
  }

  /** The string that a buffer holds: its characters before the first NUL. */
  function Contents(buf: seq<char>): string {
    buf[..IndexOf(buf, '\0', 0)]
  }

  /** `buf` holds `s`, properly terminated inside the buffer. */
  predicate Holds(buf: seq<char>, s: string) {
    |s| < |buf| && buf[..|s|] == s && buf[|s|] == '\0'
  }

  lemma HeldContents(buf: seq<char>, s: string)
    requires Holds(buf, s) && NoNul(s)
    ensures Contents(buf) == s
  {
    assert forall k | 0 <= k < |s| :: buf[k] == buf[..|s|][k];
    IndexOfIs(buf, '\0', 0, |s|);
  }

  /** `strcpy (buf + at, s)`. */
  method StrCpy(buf: array<char>, at: nat, s: string)
    requires at + |s| < buf.Length
    modifies buf
    ensures buf[..at] == old(buf[..at]) && buf[at..at + |s|] == s && buf[at + |s|] == '\0'
    ensures buf[at + |s| + 1..] == old(buf[at + |s| + 1..])
  {
    forall k | 0 <= k < |s| {
      buf[at + k] := s[k];
    }
    buf[at + |s|] := '\0';
  }

  /** `strncpy (buf, s, n)`: at most `n` characters, padded with NULs. */
  method StrNCpy(buf: array<char>, s: string, n: nat)
    requires n <= buf.Length
    modifies buf
    ensures forall k | 0 <= k < n :: buf[k] == (if k < |s| then s[k] else '\0')
    ensures buf[n..] == old(buf[n..])
  {
    forall k | 0 <= k < n {
      buf[k] := if k < |s| then s[k] else '\0';
    }
  }
}
