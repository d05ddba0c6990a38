/**
 The C library's locale state behind `setlocale`, and the ordered list of names
 that `setlocale_unixlike` tries.

 The library itself is abstract: for each category it accepts some names and
 stores a value for them; for LC_ALL it accepts some names and stores a value for
 every category.  A call that does not accept changes nothing.
 */
module LocaleSystem {
  import opened Options
  import opened LocaleTables
  import opened LocaleParts

  datatype Category = Ctype | Numeric | Time | Collate | Monetary | Messages
  datatype Target = All | One(c: Category)

  type Names = map<Category, string>

  datatype System = System(accept: (Category, string) -> Option<string>,
                           acceptAll: string -> Option<Names>,
                           show: Names -> string)

  /** `setlocale (target, name)` for a name that is not NULL. */
  function Apply(sys: System, st: Names, target: Target, name: string): Option<Names> {
    match target
    case All => sys.acceptAll(name)
    case One(c) =>
      match sys.accept(c, name)
      case None => None
      case Some(v) => Some(st[c := v])
  }

  /** The string that `setlocale (LC_ALL, NULL)` yields in `st` brings `st` back
      (section 7.11.1.1 of ISO C99). */
  ghost predicate Restorable(sys: System, st: Names) {
    sys.acceptAll(sys.show(st)) == Some(st)
  }

  // ----- First success over a list of candidates -----

  /** A name to try, or the call of `abort` when the name would not fit. */
  datatype Candidate = Try(name: string) | Overflow

  datatype Attempt = Hit(names: Names) | NoHit | Abort

  function First(sys: System, target: Target, st: Names, cs: seq<Candidate>): Attempt {
    if cs == [] then NoHit
    else if cs[0].Overflow? then Abort
    else
      match Apply(sys, st, target, cs[0].name)
      case Some(st') => Hit(st')
      case None => First(sys, target, st, cs[1..])
  }

  lemma {:induction false} FirstAppend(sys: System, target: Target, st: Names, cs: seq<Candidate>, ds: seq<Candidate>)
    ensures First(sys, target, st, cs + ds) ==
            if First(sys, target, st, cs).NoHit? then First(sys, target, st, ds) else First(sys, target, st, cs)
    decreases |cs|
  {
    if cs == [] {
      assert cs + ds == ds;
    } else {
      assert (cs + ds)[1..] == cs[1..] + ds;
      FirstAppend(sys, target, st, cs[1..], ds);
    }
  }

  /** Setting one category never touches another, and the value it gets does not
      depend on the state. */
  lemma {:induction false} FirstOneIsLocal(sys: System, c: Category, st: Names, st': Names, cs: seq<Candidate>)
    ensures match First(sys, One(c), st, cs)
            case Hit(n) => c in n && n == st[c := n[c]] && First(sys, One(c), st', cs) == Hit(st'[c := n[c]])
            case NoHit => First(sys, One(c), st', cs).NoHit?
            case Abort => First(sys, One(c), st', cs).Abort?
    decreases |cs|
  {
    if cs != [] && cs[0].Try? && sys.accept(c, cs[0].name).None? {
      FirstOneIsLocal(sys, c, st, st', cs[1..]);
    }
  }

  lemma {:induction false} FirstAllIgnoresState(sys: System, st: Names, st': Names, cs: seq<Candidate>)
    ensures First(sys, All, st, cs) == First(sys, All, st', cs)
    decreases |cs|
  {
    if cs != [] { FirstAllIgnoresState(sys, st, st', cs[1..]); }
  }

  // ----- The candidates -----

  const PAIR_SIZE: nat := 64 + 64

  function Englishes(es: seq<Entry>): seq<Candidate> {
    if es == [] then [] else [Try(es[0].english)] + Englishes(es[1..])
  }

  function Pair(language: string, country: string): Candidate {
    if |language| + 1 + (|country| + 1) <= PAIR_SIZE then Try(language + "_" + country) else Overflow
  }

  function Row(language: string, cs: seq<Entry>): seq<Candidate> {
    if cs == [] then [] else [Pair(language, cs[0].english)] + Row(language, cs[1..])
  }

  function Rows(ls: seq<Entry>, cs: seq<Entry>): seq<Candidate> {
    if ls == [] then [] else Row(ls[0].english, cs) + Rows(ls[1..], cs)
  }

  function SplitCandidates(language: seq<Entry>, country: seq<Entry>, cut: string): seq<Candidate> {
    if !HasTerritory(cut) then []
    else
      var ls := Matches(language, LanguagePart(cut));
      Rows(ls, Matches(country, TerritoryPart(cut))) + Englishes(ls)
  }

  /** Original; codeset removed; language-table matches; language and country
      pairs row by row; language only. */
  function Candidates(language: seq<Entry>, country: seq<Entry>, locale: string): seq<Candidate> {
    var cut := RemoveCodeset(locale);
    [Try(locale)] +
    (if |locale| >= BUFFER_SIZE then []
     else (if cut == locale then [] else [Try(cut)]) +
          (Englishes(Matches(language, cut)) + SplitCandidates(language, country, cut)))
  }

  lemma FirstSingle(sys: System, target: Target, st: Names, c: Candidate)
    ensures First(sys, target, st, [c]) ==
            if c.Overflow? then Abort
            else if Apply(sys, st, target, c.name).Some? then Hit(Apply(sys, st, target, c.name).v) else NoHit
  {
    assert [c][1..] == [];
  }

  lemma {:induction false} FirstRow(sys: System, target: Target, st: Names, l: string, cs: seq<Entry>)
    requires cs != []
    ensures First(sys, target, st, Row(l, cs)) ==
            var a := First(sys, target, st, [Pair(l, cs[0].english)]);
            if a.NoHit? then First(sys, target, st, Row(l, cs[1..])) else a
  {
    FirstAppend(sys, target, st, [Pair(l, cs[0].english)], Row(l, cs[1..]));
  }

  lemma {:induction false} FirstRows(sys: System, target: Target, st: Names, ls: seq<Entry>, cs: seq<Entry>)
    requires ls != []
    ensures First(sys, target, st, Rows(ls, cs)) ==
            var a := First(sys, target, st, Row(ls[0].english, cs));
            if a.NoHit? then First(sys, target, st, Rows(ls[1..], cs)) else a
  {
    FirstAppend(sys, target, st, Row(ls[0].english, cs), Rows(ls[1..], cs));
  }

  lemma {:induction false} RowsEmpty(ls: seq<Entry>)
    ensures Rows(ls, []) == []
    decreases |ls|
  {
    if ls != [] { RowsEmpty(ls[1..]); }
  }

  // ----- The abort is unreachable with short names -----

  predicate ShortNames(table: seq<Entry>) {
    forall i | 0 <= i < |table| :: |table[i].english| < 64
  }

  predicate NoOverflow(cs: seq<Candidate>) {
    forall i | 0 <= i < |cs| :: cs[i].Try?
  }

  lemma {:induction false} MatchesShort(table: seq<Entry>, key: string)
    requires ShortNames(table)
    ensures ShortNames(Matches(table, key))
    decreases |table|
  {
    if table != [] { MatchesShort(table[1..], key); }
  }

  lemma {:induction false} RowShort(language: string, cs: seq<Entry>)
    requires |language| < 64 && ShortNames(cs)
    ensures NoOverflow(Row(language, cs))
    decreases |cs|
  {
    if cs != [] { RowShort(language, cs[1..]); }
  }

  lemma {:induction false} RowsShort(ls: seq<Entry>, cs: seq<Entry>)
    requires ShortNames(ls) && ShortNames(cs)
    ensures NoOverflow(Rows(ls, cs))
    decreases |ls|
  {
    if ls != [] {
      RowShort(ls[0].english, cs);
      RowsShort(ls[1..], cs);
    }
  }

  lemma {:induction false} NamesFit(es: seq<Entry>)
    ensures NoOverflow(Englishes(es))
    decreases |es|
  {
    if es != [] { NamesFit(es[1..]); }
  }

  lemma {:induction false} NoAbort(sys: System, target: Target, st: Names, cs: seq<Candidate>)
    requires NoOverflow(cs)
    ensures !First(sys, target, st, cs).Abort?
    decreases |cs|
  {
    if cs != [] { NoAbort(sys, target, st, cs[1..]); }
  }

  lemma AppendFits(cs: seq<Candidate>, ds: seq<Candidate>)
    requires NoOverflow(cs) && NoOverflow(ds)
    ensures NoOverflow(cs + ds)
  {
  }

  lemma SplitFits(language: seq<Entry>, country: seq<Entry>, cut: string)
    requires ShortNames(language) && ShortNames(country)
    ensures NoOverflow(SplitCandidates(language, country, cut))
  {
    if HasTerritory(cut) {
      var ls, cs := Matches(language, LanguagePart(cut)), Matches(country, TerritoryPart(cut));
      MatchesShort(language, LanguagePart(cut));
      MatchesShort(country, TerritoryPart(cut));
      RowsShort(ls, cs);
      NamesFit(ls);
      AppendFits(Rows(ls, cs), Englishes(ls));
    }
  }

  lemma AbortUnreachable(sys: System, target: Target, st: Names, language: seq<Entry>, country: seq<Entry>, locale: string)
    requires ShortNames(language) && ShortNames(country)
    ensures !First(sys, target, st, Candidates(language, country, locale)).Abort?
  {
    var cut := RemoveCodeset(locale);
    NamesFit(Matches(language, cut));
    SplitFits(language, country, cut);
    AppendFits(Englishes(Matches(language, cut)), SplitCandidates(language, country, cut));
    NoAbort(sys, target, st, Candidates(language, country, locale));
  }
}
