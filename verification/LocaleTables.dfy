/**
 The sorted name tables of setlocale.c and the search for an equal range.
 */
module LocaleTables {
  import opened CText

  datatype Entry = Entry(code: string, english: string)

  /** Sorted by code; equal codes may repeat. */
  ghost predicate Sorted(table: seq<Entry>) {
    forall i, j | 0 <= i < j < |table| :: StrCmp(table[i].code, table[j].code) <= 0
  }

  /** The entries for `key`, in table order. */
  function Matches(table: seq<Entry>, key: string): seq<Entry> {
    if table == [] then []
    else (if table[0].code == key then [table[0]] else []) + Matches(table[1..], key)
  }

  /** [lo, hi) is the set of indices whose code is `key`. */
  ghost predicate IsRange(table: seq<Entry>, key: string, lo: nat, hi: nat) {
    && lo <= hi <= |table|
    && forall i | 0 <= i < |table| :: table[i].code == key <==> lo <= i < hi
  }

  lemma {:induction false} RangeMatches(table: seq<Entry>, key: string, lo: nat, hi: nat)
    requires IsRange(table, key, lo, hi)
    ensures table[lo..hi] == Matches(table, key)
    decreases |table|
  {
    if table != [] {
      var rest := table[1..];
      var lo', hi' := if lo == 0 then 0 else lo - 1, if hi == 0 then 0 else hi - 1;
      forall i | 0 <= i < |rest| ensures rest[i].code == key <==> lo' <= i < hi' {
        assert rest[i] == table[i + 1];
      }
      RangeMatches(rest, key, lo', hi');
      if lo == 0 && hi > 0 {
        assert table[lo..hi] == [table[0]] + rest[lo'..hi'];
      } else {
        assert table[lo..hi] == rest[lo'..hi'];
      }
    }
  }

  lemma BelowStaysBelow(table: seq<Entry>, key: string, i: nat, j: nat)
    requires Sorted(table) && i <= j < |table| && StrCmp(table[j].code, key) < 0
    ensures StrCmp(table[i].code, key) < 0
  {
    if i < j { StrCmpTransitive(table[i].code, table[j].code, key); }
  }

  lemma AboveStaysAbove(table: seq<Entry>, key: string, i: nat, j: nat)
    requires Sorted(table) && i <= j < |table| && StrCmp(table[i].code, key) > 0
    ensures StrCmp(table[j].code, key) > 0
  {
    StrCmpOpposite(table[i].code, key);
    StrCmpOpposite(table[j].code, key);
    if i < j { StrCmpTransitive(key, table[i].code, table[j].code); }
  }

  /** Between two entries that equal the key every entry does. */
  lemma BetweenIsEqual(table: seq<Entry>, key: string, i: nat, m: nat, j: nat)
    requires Sorted(table) && i <= m <= j < |table|
    requires StrCmp(table[i].code, key) >= 0 && StrCmp(table[j].code, key) <= 0
    ensures table[m].code == key
  {
    StrCmpEqual(table[m].code, key);
    if StrCmp(table[m].code, key) < 0 {
      BelowStaysBelow(table, key, i, m);
    } else if StrCmp(table[m].code, key) > 0 {
      AboveStaysAbove(table, key, m, j);
    }
  }

  /** `search`: binary search for one match, then linear search for its ends. */
  method Search(table: seq<Entry>, key: string) returns (lo: nat, hi: nat)
    requires Sorted(table)
    ensures IsRange(table, key, lo, hi)
    ensures lo == hi <==> forall i | 0 <= i < |table| :: table[i].code != key
  {
    lo, hi := 0, |table|;
    while lo < hi
      invariant lo <= hi <= |table|
      invariant forall i | 0 <= i < lo :: StrCmp(table[i].code, key) < 0
      invariant forall i | hi <= i < |table| :: StrCmp(table[i].code, key) > 0
    {
      var mid := (hi + lo) / 2;
      var cmp := StrCmp(table[mid].code, key);
      if cmp < 0 {
        forall i | 0 <= i < mid + 1 ensures StrCmp(table[i].code, key) < 0 { BelowStaysBelow(table, key, i, mid); }
        lo := mid + 1;
      } else if cmp > 0 {
        forall i | mid <= i < |table| ensures StrCmp(table[i].code, key) > 0 { AboveStaysAbove(table, key, mid, i); }
        hi := mid;
      } else {
        lo := FirstEqual(table, key, lo, mid);
        hi := LastEqual(table, key, mid, hi);
        break;
      }
    }
    forall i | 0 <= i < |table| ensures table[i].code == key <==> lo <= i < hi {
      StrCmpEqual(table[i].code, key);
    }
  }

  /** The loop that walks down from `mid`. */
  method FirstEqual(table: seq<Entry>, key: string, lo: nat, mid: nat) returns (first: nat)
    requires Sorted(table) && lo <= mid < |table| && StrCmp(table[mid].code, key) == 0
    requires forall i | 0 <= i < lo :: StrCmp(table[i].code, key) < 0
    ensures first <= mid
    ensures forall i | 0 <= i < first :: StrCmp(table[i].code, key) < 0
    ensures forall i | first <= i <= mid :: StrCmp(table[i].code, key) == 0
  {
    first := lo;
    var i := mid;
    while i > lo
      invariant lo <= i <= mid && first == lo
      invariant forall k | i <= k <= mid :: StrCmp(table[k].code, key) == 0
    {
      i := i - 1;
      if StrCmp(table[i].code, key) < 0 {
        forall k | 0 <= k <= i ensures StrCmp(table[k].code, key) < 0 { BelowStaysBelow(table, key, k, i); }
        return i + 1;
      }
      BetweenIsEqual(table, key, i, i, mid);
      StrCmpEqual(table[i].code, key);
    }
  }

  /** The loop that walks up from `mid`. */
  method LastEqual(table: seq<Entry>, key: string, mid: nat, hi: nat) returns (end: nat)
    requires Sorted(table) && mid < hi <= |table| && StrCmp(table[mid].code, key) == 0
    requires forall i | hi <= i < |table| :: StrCmp(table[i].code, key) > 0
    ensures mid < end <= |table|
    ensures forall i | mid <= i < end :: StrCmp(table[i].code, key) == 0
    ensures forall i | end <= i < |table| :: StrCmp(table[i].code, key) > 0
  {
    end := hi;
    var i := mid;
    while i < hi
      invariant mid <= i <= hi && end == hi
      invariant forall k | mid <= k < i :: StrCmp(table[k].code, key) == 0
    {
      if StrCmp(table[i].code, key) > 0 {
        forall k | i <= k < |table| ensures StrCmp(table[k].code, key) > 0 { AboveStaysAbove(table, key, i, k); }
        return i;
      }
      BetweenIsEqual(table, key, mid, i, i);
      StrCmpEqual(table[i].code, key);
      i := i + 1;
    }
  }
}
