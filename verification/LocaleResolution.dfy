/**
 What `setlocale_unixlike` promises, in terms of table rows: which name it settles
 on, for every locale name, stated without the list of candidates.
 */
module LocaleResolution {
  import opened LocaleTables
  import opened LocaleParts
  import opened LocaleSystem

  /** One request: the C library, the category, and the state on entry. */
  datatype Request = Request(sys: System, target: Target, st: Names)

  predicate Works(q: Request, name: string) {
    Apply(q.sys, q.st, q.target, name).Some?
  }

  /** The request was served with `name`. */
  function Taken(q: Request, name: string): Attempt
    requires Works(q, name)
  {
    Hit(Apply(q.sys, q.st, q.target, name).v)
  }

  function Result(q: Request, cs: seq<Candidate>): Attempt {
    First(q.sys, q.target, q.st, cs)
  }

  // ----- Rows of the language table -----

  predicate RowWorks(q: Request, table: seq<Entry>, key: string, i: nat) {
    i < |table| && table[i].code == key && Works(q, table[i].english)
  }

  /** Row `i` is the first for `key` whose English name is accepted. */
  ghost predicate FirstRowIs(q: Request, table: seq<Entry>, key: string, i: nat) {
    RowWorks(q, table, key, i) && forall k: nat | k < i :: !RowWorks(q, table, key, k)
  }

  ghost predicate NoRow(q: Request, table: seq<Entry>, key: string) {
    forall k: nat :: !RowWorks(q, table, key, k)
  }

  lemma {:induction false} SomeRowIsFirst(q: Request, table: seq<Entry>, key: string, i: nat) returns (first: nat)
    requires RowWorks(q, table, key, i)
    ensures FirstRowIs(q, table, key, first)
  {
    first := i;
    if k: nat :| k < i && RowWorks(q, table, key, k) {
      first := SomeRowIsFirst(q, table, key, k);
    }
  }

  lemma {:induction false} SkipRow(q: Request, table: seq<Entry>, key: string)
    requires table != [] && !RowWorks(q, table, key, 0)
    ensures Result(q, Englishes(Matches(table, key))) == Result(q, Englishes(Matches(table[1..], key)))
  {
    var rest := Matches(table[1..], key);
    if table[0].code == key {
      assert ([table[0]] + rest)[1..] == rest;
      assert Englishes([table[0]] + rest)[1..] == Englishes(rest);
    } else {
      assert [] + rest == rest;
    }
  }

  lemma {:induction false} FirstRowTaken(q: Request, table: seq<Entry>, key: string, i: nat)
    requires FirstRowIs(q, table, key, i)
    ensures Result(q, Englishes(Matches(table, key))) == Taken(q, table[i].english)
    decreases i
  {
    if i == 0 {
      assert Englishes(Matches(table, key))[0] == Try(table[0].english);
    } else {
      assert !RowWorks(q, table, key, 0);
      forall k: nat | k < i - 1 ensures !RowWorks(q, table[1..], key, k) {
        assert !RowWorks(q, table, key, k + 1);
      }
      SkipRow(q, table, key);
      FirstRowTaken(q, table[1..], key, i - 1);
    }
  }

  lemma {:induction false} NoRowTaken(q: Request, table: seq<Entry>, key: string)
    requires NoRow(q, table, key)
    ensures Result(q, Englishes(Matches(table, key))).NoHit?
    decreases |table|
  {
    if table != [] {
      forall k: nat ensures !RowWorks(q, table[1..], key, k) {
        assert !RowWorks(q, table, key, k + 1);
      }
      SkipRow(q, table, key);
      NoRowTaken(q, table[1..], key);
    }
  }

  // ----- Pairs of a language row and a country row -----

  /** The joined name does not fit into 128 characters. */
  predicate Overlong(language: string, country: string) {
    |language + "_" + country| >= 128
  }

  /** The country row ends the search: it is accepted, or the program aborts. */
  predicate Stops(q: Request, language: string, countries: seq<Entry>, key: string, j: nat) {
    && j < |countries| && countries[j].code == key
    && (Overlong(language, countries[j].english) || Works(q, language + "_" + countries[j].english))
  }

  function Stopped(q: Request, language: string, country: string): Attempt
    requires Overlong(language, country) || Works(q, language + "_" + country)
  {
    if Overlong(language, country) then Abort else Taken(q, language + "_" + country)
  }

  ghost predicate FirstStopIs(q: Request, language: string, countries: seq<Entry>, key: string, j: nat) {
    Stops(q, language, countries, key, j) && forall k: nat | k < j :: !Stops(q, language, countries, key, k)
  }

  ghost predicate NoStop(q: Request, language: string, countries: seq<Entry>, key: string) {
    forall k: nat :: !Stops(q, language, countries, key, k)
  }

  lemma {:induction false} SomeStopIsFirst(q: Request, l: string, cs: seq<Entry>, key: string, j: nat) returns (first: nat)
    requires Stops(q, l, cs, key, j)
    ensures FirstStopIs(q, l, cs, key, first)
  {
    first := j;
    if k: nat :| k < j && Stops(q, l, cs, key, k) {
      first := SomeStopIsFirst(q, l, cs, key, k);
    }
  }

  lemma {:induction false} SkipCountry(q: Request, l: string, cs: seq<Entry>, key: string)
    requires cs != [] && !Stops(q, l, cs, key, 0)
    ensures Result(q, Row(l, Matches(cs, key))) == Result(q, Row(l, Matches(cs[1..], key)))
  {
    var rest := Matches(cs[1..], key);
    if cs[0].code == key {
      assert ([cs[0]] + rest)[1..] == rest;
      assert Row(l, [cs[0]] + rest)[1..] == Row(l, rest);
    } else {
      assert [] + rest == rest;
    }
  }

  lemma {:induction false} FirstStopTaken(q: Request, l: string, cs: seq<Entry>, key: string, j: nat)
    requires FirstStopIs(q, l, cs, key, j)
    ensures Result(q, Row(l, Matches(cs, key))) == Stopped(q, l, cs[j].english)
    decreases j
  {
    if j == 0 {
      assert Row(l, Matches(cs, key))[0] == Pair(l, cs[0].english);
    } else {
      assert !Stops(q, l, cs, key, 0);
      forall k: nat | k < j - 1 ensures !Stops(q, l, cs[1..], key, k) {
        assert !Stops(q, l, cs, key, k + 1);
      }
      SkipCountry(q, l, cs, key);
      FirstStopTaken(q, l, cs[1..], key, j - 1);
    }
  }

  lemma {:induction false} NoStopTaken(q: Request, l: string, cs: seq<Entry>, key: string)
    requires NoStop(q, l, cs, key)
    ensures Result(q, Row(l, Matches(cs, key))).NoHit?
    decreases |cs|
  {
    if cs != [] {
      forall k: nat ensures !Stops(q, l, cs[1..], key, k) {
        assert !Stops(q, l, cs, key, k + 1);
      }
      SkipCountry(q, l, cs, key);
      NoStopTaken(q, l, cs[1..], key);
    }
  }

  /** Language row `i`, for `ll`, ends the search with some country row for `cc`. */
  ghost predicate LanguageStops(q: Request, ls: seq<Entry>, ll: string, cs: seq<Entry>, cc: string, i: nat) {
    i < |ls| && ls[i].code == ll && !NoStop(q, ls[i].english, cs, cc)
  }

  /** Row `i` of the languages and row `j` of the countries end the search: least `i`,
      and least `j` for it. */
  ghost predicate FirstPairIs(q: Request, ls: seq<Entry>, ll: string, cs: seq<Entry>, cc: string, i: nat, j: nat) {
    && LanguageStops(q, ls, ll, cs, cc, i) && (forall k: nat | k < i :: !LanguageStops(q, ls, ll, cs, cc, k))
    && FirstStopIs(q, ls[i].english, cs, cc, j)
  }

  ghost predicate NoPair(q: Request, ls: seq<Entry>, ll: string, cs: seq<Entry>, cc: string) {
    forall k: nat :: !LanguageStops(q, ls, ll, cs, cc, k)
  }

  lemma {:induction false} SomePairIsFirst(q: Request, ls: seq<Entry>, ll: string, cs: seq<Entry>, cc: string, i: nat)
      returns (first: nat, j: nat)
    requires LanguageStops(q, ls, ll, cs, cc, i)
    ensures FirstPairIs(q, ls, ll, cs, cc, first, j)
  {
    if k: nat :| k < i && LanguageStops(q, ls, ll, cs, cc, k) {
      first, j := SomePairIsFirst(q, ls, ll, cs, cc, k);
    } else {
      first := i;
      j :| Stops(q, ls[i].english, cs, cc, j);
      j := SomeStopIsFirst(q, ls[i].english, cs, cc, j);
    }
  }

  lemma {:induction false} SkipLanguage(q: Request, ls: seq<Entry>, ll: string, cs: seq<Entry>, cc: string)
    requires ls != [] && !LanguageStops(q, ls, ll, cs, cc, 0)
    ensures Result(q, Rows(Matches(ls, ll), Matches(cs, cc))) == Result(q, Rows(Matches(ls[1..], ll), Matches(cs, cc)))
  {
    var rest := Matches(ls[1..], ll);
    if ls[0].code == ll {
      NoStopTaken(q, ls[0].english, cs, cc);
      FirstRows(q.sys, q.target, q.st, [ls[0]] + rest, Matches(cs, cc));
      assert ([ls[0]] + rest)[1..] == rest;
    } else {
      assert [] + rest == rest;
    }
  }

  lemma {:induction false} FirstPairTaken(q: Request, ls: seq<Entry>, ll: string, cs: seq<Entry>, cc: string, i: nat, j: nat)
    requires FirstPairIs(q, ls, ll, cs, cc, i, j)
    ensures Result(q, Rows(Matches(ls, ll), Matches(cs, cc))) == Stopped(q, ls[i].english, cs[j].english)
    decreases i
  {
    if i == 0 {
      FirstStopTaken(q, ls[0].english, cs, cc, j);
      FirstRows(q.sys, q.target, q.st, Matches(ls, ll), Matches(cs, cc));
    } else {
      assert !LanguageStops(q, ls, ll, cs, cc, 0);
      forall k: nat | k < i - 1 ensures !LanguageStops(q, ls[1..], ll, cs, cc, k) {
        assert !LanguageStops(q, ls, ll, cs, cc, k + 1);
      }
      SkipLanguage(q, ls, ll, cs, cc);
      FirstPairTaken(q, ls[1..], ll, cs, cc, i - 1, j);
    }
  }

  lemma {:induction false} NoPairTaken(q: Request, ls: seq<Entry>, ll: string, cs: seq<Entry>, cc: string)
    requires NoPair(q, ls, ll, cs, cc)
    ensures Result(q, Rows(Matches(ls, ll), Matches(cs, cc))).NoHit?
    decreases |ls|
  {
    if ls != [] {
      forall k: nat ensures !LanguageStops(q, ls[1..], ll, cs, cc, k) {
        assert !LanguageStops(q, ls, ll, cs, cc, k + 1);
      }
      SkipLanguage(q, ls, ll, cs, cc);
      NoPairTaken(q, ls[1..], ll, cs, cc);
    }
  }

  // ----- The whole search -----

  /** `a` is the first accepted English name for `key`, or nothing is accepted. */
  ghost predicate ByLanguage(q: Request, ls: seq<Entry>, key: string, a: Attempt) {
    if NoRow(q, ls, key) then a.NoHit?
    else exists i: nat :: FirstRowIs(q, ls, key, i) && a == Taken(q, ls[i].english)
  }

  /** Language and country together come before the language alone. */
  ghost predicate ByTerritory(q: Request, ls: seq<Entry>, cs: seq<Entry>, ll: string, cc: string, a: Attempt) {
    if NoPair(q, ls, ll, cs, cc) then ByLanguage(q, ls, ll, a)
    else exists i: nat, j: nat :: FirstPairIs(q, ls, ll, cs, cc, i, j) && a == Stopped(q, ls[i].english, cs[j].english)
  }

  /** What becomes of a request for `locale`: the name as it is; without its codeset;
      the language rows for that; language and country rows; language rows alone. */
  ghost predicate Resolves(q: Request, ls: seq<Entry>, cs: seq<Entry>, locale: string, a: Attempt) {
    var cut := RemoveCodeset(locale);
    if Works(q, locale) then a == Taken(q, locale)
    else if |locale| >= 64 then a.NoHit?
    else if Works(q, cut) then a == Taken(q, cut)
    else if !NoRow(q, ls, cut) then ByLanguage(q, ls, cut, a)
    else if !HasTerritory(cut) then a.NoHit?
    else ByTerritory(q, ls, cs, LanguagePart(cut), TerritoryPart(cut), a)
  }

  lemma LanguageResult(q: Request, ls: seq<Entry>, key: string)
    ensures ByLanguage(q, ls, key, Result(q, Englishes(Matches(ls, key))))
  {
    if NoRow(q, ls, key) {
      NoRowTaken(q, ls, key);
    } else {
      var k: nat :| RowWorks(q, ls, key, k);
      var i := SomeRowIsFirst(q, ls, key, k);
      FirstRowTaken(q, ls, key, i);
    }
  }

  lemma TerritoryResult(q: Request, ls: seq<Entry>, cs: seq<Entry>, cut: string)
    requires HasTerritory(cut)
    ensures ByTerritory(q, ls, cs, LanguagePart(cut), TerritoryPart(cut), Result(q, SplitCandidates(ls, cs, cut)))
  {
    var ll, cc := LanguagePart(cut), TerritoryPart(cut);
    FirstAppend(q.sys, q.target, q.st, Rows(Matches(ls, ll), Matches(cs, cc)), Englishes(Matches(ls, ll)));
    if NoPair(q, ls, ll, cs, cc) {
      NoPairTaken(q, ls, ll, cs, cc);
      LanguageResult(q, ls, ll);
    } else {
      var k: nat :| LanguageStops(q, ls, ll, cs, cc, k);
      var i, j := SomePairIsFirst(q, ls, ll, cs, cc, k);
      FirstPairTaken(q, ls, ll, cs, cc, i, j);
    }
  }

  /** The list of candidates does just that, for every locale name. */
  lemma CandidatesResolve(q: Request, ls: seq<Entry>, cs: seq<Entry>, locale: string)
    ensures Resolves(q, ls, cs, locale, Result(q, Candidates(ls, cs, locale)))
  {
    var cut := RemoveCodeset(locale);
    var second := if cut == locale then [] else [Try(cut)];
    var found, split := Englishes(Matches(ls, cut)), SplitCandidates(ls, cs, cut);
    var rest := if |locale| >= BUFFER_SIZE then [] else second + (found + split);
    FirstAppend(q.sys, q.target, q.st, [Try(locale)], rest);
    FirstSingle(q.sys, q.target, q.st, Try(locale));
    FirstAppend(q.sys, q.target, q.st, second, found + split);
    FirstSingle(q.sys, q.target, q.st, Try(cut));
    FirstAppend(q.sys, q.target, q.st, found, split);
    LanguageResult(q, ls, cut);
    if HasTerritory(cut) { TerritoryResult(q, ls, cs, cut); }
  }

  /** For ll_CC, which the C library itself does not know: the pair with the least
      language row and then the least country row, before any language alone. */
  lemma CountryIsHonoured(q: Request, ls: seq<Entry>, cs: seq<Entry>, language: string, territory: string)
    requires Plain(language) && Plain(territory)
    requires var locale := language + "_" + territory;
             |locale| < 64 && !Works(q, locale) && NoRow(q, ls, locale)
    ensures var a := Result(q, Candidates(ls, cs, language + "_" + territory));
            ByTerritory(q, ls, cs, language, territory, a)
  {
    var locale := language + "_" + territory;
    CandidatesResolve(q, ls, cs, locale);
    NothingToCut(locale);
    TerritorySplit(language, territory, "");
    assert locale + "" == locale && language + "" == language;
  }

  lemma ByLanguageOnce(q: Request, ls: seq<Entry>, key: string, a: Attempt, b: Attempt)
    requires ByLanguage(q, ls, key, a) && ByLanguage(q, ls, key, b)
    ensures a == b
  {
    if !NoRow(q, ls, key) {
      var i: nat :| FirstRowIs(q, ls, key, i) && a == Taken(q, ls[i].english);
      var j: nat :| FirstRowIs(q, ls, key, j) && b == Taken(q, ls[j].english);
      assert i == j;
    }
  }

  lemma ByTerritoryOnce(q: Request, ls: seq<Entry>, cs: seq<Entry>, ll: string, cc: string, a: Attempt, b: Attempt)
    requires ByTerritory(q, ls, cs, ll, cc, a) && ByTerritory(q, ls, cs, ll, cc, b)
    ensures a == b
  {
    if NoPair(q, ls, ll, cs, cc) {
      ByLanguageOnce(q, ls, ll, a, b);
    } else {
      var i: nat, j: nat :| FirstPairIs(q, ls, ll, cs, cc, i, j) && a == Stopped(q, ls[i].english, cs[j].english);
      var k: nat, m: nat :| FirstPairIs(q, ls, ll, cs, cc, k, m) && b == Stopped(q, ls[k].english, cs[m].english);
      assert i == k;
      assert j == m;
    }
  }

  /** The rows leave no choice: there is exactly one result. */
  lemma ResolvesOnce(q: Request, ls: seq<Entry>, cs: seq<Entry>, locale: string, a: Attempt)
    ensures Resolves(q, ls, cs, locale, a) <==> a == Result(q, Candidates(ls, cs, locale))
  {
    var b := Result(q, Candidates(ls, cs, locale));
    CandidatesResolve(q, ls, cs, locale);
    if Resolves(q, ls, cs, locale, a) {
      var cut := RemoveCodeset(locale);
      if !NoRow(q, ls, cut) && ByLanguage(q, ls, cut, a) && ByLanguage(q, ls, cut, b) {
        ByLanguageOnce(q, ls, cut, a, b);
      } else if HasTerritory(cut) && ByTerritory(q, ls, cs, LanguagePart(cut), TerritoryPart(cut), a)
                && ByTerritory(q, ls, cs, LanguagePart(cut), TerritoryPart(cut), b) {
        ByTerritoryOnce(q, ls, cs, LanguagePart(cut), TerritoryPart(cut), a, b);
      }
    }
  }
}
