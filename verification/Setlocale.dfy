/**
 `setlocale_unixlike`, `setlocale_single` and `rpl_setlocale` of setlocale.c.
 */
module Setlocale {
  import opened Options
  import opened CText
  import opened LocaleTables
  import opened LocaleParts
  import opened LocaleSystem
  import opened LocaleResolution
  import opened LocaleEnvironment
  import opened SetlocaleSteps

  ghost predicate CNames(table: seq<Entry>) {
    forall i | 0 <= i < |table| :: NoNul(table[i].english)
  }

  /** The tables are sorted and hold C strings. */
  ghost predicate TablesOk(cfg: Config) {
    Sorted(cfg.language) && Sorted(cfg.country) && CNames(cfg.language) && CNames(cfg.country)
  }

  /** What a call that tries `cs` in order must do to the state. */
  ghost predicate Does(r: Outcome, before: Names, after: Names, a: Attempt) {
    match a
    case Hit(names) => r == Succeeded && after == names
    case NoHit => r == Failed && after == before
    case Abort => r == Aborted && after == before
  }

  /** What a call did to the C library's state. */
  function Achieved(r: Outcome, after: Names): Attempt {
    match r
    case Succeeded => Hit(after)
    case Failed => NoHit
    case Aborted => Abort
  }

  /** A request for one name, in terms of the table rows: on native Windows the rows
      decide, elsewhere the name itself is accepted or not. */
  ghost predicate Serves(cfg: Config, target: Target, locale: string, before: Names, r: Outcome, after: Names) {
    var q := Request(cfg.sys, target, before);
    && (cfg.native ==> Resolves(q, cfg.language, cfg.country, locale, Achieved(r, after)))
    && (!cfg.native ==> Achieved(r, after) == if Works(q, locale) then Taken(q, locale) else NoHit)
    && (r != Succeeded ==> after == before)
  }

  class Process {
    const cfg: Config
    var names: Names                  // the C library's state
    const messages: array<char>       // lc_messages_name

    ghost predicate Valid()
      reads this, messages
    {
      && TablesOk(cfg)
      && messages.Length == BUFFER_SIZE && messages[BUFFER_SIZE - 1] == '\0'
    }

    constructor (cfg: Config, names: Names)
      requires TablesOk(cfg)
      ensures Valid() && this.cfg == cfg && this.names == names && Contents(messages[..]) == "C"
      ensures fresh(messages)
    {
      this.cfg := cfg;
      this.names := names;
      var m := new char[BUFFER_SIZE](_ => '\0');
      m[0] := 'C';
      this.messages := m;
      assert m[..1] == "C";
      HeldContents(m[..], "C");
    }

    /** The C library's `setlocale (target, name)`. */
    method SystemSetlocale(target: Target, name: string) returns (ok: bool)
      modifies this
      ensures ok <==> Apply(cfg.sys, old(names), target, name).Some?
      ensures names == if ok then Apply(cfg.sys, old(names), target, name).v else old(names)
    {
      var st := Apply(cfg.sys, names, target, name);
      ok := st.Some?;
      if ok { names := st.v; }
    }

    /** The loops that try the English names of a range of the language table. */
    method TryLanguages(target: Target, lo: nat, hi: nat) returns (r: Outcome)
      requires lo <= hi <= |cfg.language|
      modifies this
      ensures Does(r, old(names), names, First(cfg.sys, target, old(names), Englishes(cfg.language[lo..hi])))
    {
      var i := lo;
      while i < hi
        invariant lo <= i <= hi && names == old(names)
        invariant First(cfg.sys, target, names, Englishes(cfg.language[lo..hi])) ==
                  First(cfg.sys, target, names, Englishes(cfg.language[i..hi]))
      {
        assert cfg.language[i..hi] == [cfg.language[i]] + cfg.language[i + 1..hi];
        var ok := SystemSetlocale(target, cfg.language[i].english);
        if ok { return Succeeded; }
        i := i + 1;
      }
      return Failed;
    }

    /** One concatenated pair, built in a fixed buffer. */
    method TryPair(target: Target, part1: string, part2: string) returns (r: Outcome)
      requires NoNul(part1) && NoNul(part2)
      modifies this
      ensures Does(r, old(names), names, First(cfg.sys, target, old(names), [Pair(part1, part2)]))
    {
      FirstSingle(cfg.sys, target, names, Pair(part1, part2));
      var buf := new char[PAIR_SIZE];
      var len1, len2 := |part1|, |part2| + 1;
      if !(len1 + 1 + len2 <= PAIR_SIZE) { return Aborted; }
      StrCpy(buf, 0, part1);
      buf[len1] := '_';
      StrCpy(buf, len1 + 1, part2);
      ghost var name := part1 + "_" + part2;
      assert buf[..|name|] == name;
      HeldContents(buf[..], name);
      var ok := SystemSetlocale(target, Contents(buf[..]));
      r := if ok then Succeeded else Failed;
    }

    /** The inner loop over the countries. */
    method TryRow(target: Target, i: nat, lo: nat, hi: nat) returns (r: Outcome)
      requires TablesOk(cfg) && i < |cfg.language| && lo <= hi <= |cfg.country|
      modifies this
      ensures Does(r, old(names), names, First(cfg.sys, target, old(names), Row(cfg.language[i].english, cfg.country[lo..hi])))
    {
      ghost var l := cfg.language[i].english;
      ghost var all := First(cfg.sys, target, names, Row(l, cfg.country[lo..hi]));
      var j := lo;
      while j < hi
        invariant lo <= j <= hi && names == old(names)
        invariant all == First(cfg.sys, target, names, Row(l, cfg.country[j..hi]))
      {
        FirstRow(cfg.sys, target, names, l, cfg.country[j..hi]);
        assert cfg.country[j..hi][1..] == cfg.country[j + 1..hi];
        r := TryPair(target, cfg.language[i].english, cfg.country[j].english);
        if r != Failed { return; }
        j := j + 1;
      }
      return Failed;
    }

    /** The outer loop over the languages. */
    method TryRows(target: Target, llo: nat, lhi: nat, lo: nat, hi: nat) returns (r: Outcome)
      requires TablesOk(cfg) && llo <= lhi <= |cfg.language| && lo <= hi <= |cfg.country|
      modifies this
      ensures Does(r, old(names), names, First(cfg.sys, target, old(names), Rows(cfg.language[llo..lhi], cfg.country[lo..hi])))
    {
      ghost var cs, ls := cfg.country[lo..hi], cfg.language[llo..lhi];
      ghost var all := First(cfg.sys, target, names, Rows(ls, cs));
      var i := llo;
      while i < lhi
        invariant llo <= i <= lhi && names == old(names)
        invariant ls == cfg.language[i..lhi] && all == First(cfg.sys, target, names, Rows(ls, cs))
      {
        FirstRows(cfg.sys, target, names, ls, cs);
        assert ls[0] == cfg.language[i] && ls[1..] == cfg.language[i + 1..lhi];
        ls := ls[1..];
        r := TryRow(target, i, lo, hi);
        if r != Failed { return; }
        i := i + 1;
      }
      assert ls == [];
      return Failed;
    }

    /** The part that splits off the territory. */
    method TrySplit(target: Target, cut: string) returns (r: Outcome)
      requires TablesOk(cfg) && |cut| < BUFFER_SIZE && NoNul(cut)
      modifies this
      ensures Does(r, old(names), names, First(cfg.sys, target, old(names), SplitCandidates(cfg.language, cfg.country, cut)))
      ensures HasTerritory(cut) ==>
                ByTerritory(Request(cfg.sys, target, old(names)), cfg.language, cfg.country,
                            LanguagePart(cut), TerritoryPart(cut), Achieved(r, names))
    {
      if HasTerritory(cut) {
        TerritoryResult(Request(cfg.sys, target, names), cfg.language, cfg.country, cut);
      }
      if IndexOf(cut, '_', 0) == |cut| { return Failed; }
      var ll := new char[BUFFER_SIZE];
      var cc := new char[BUFFER_SIZE];
      SplitTerritory(cut, ll, cc);
      ghost var ls, cs := Matches(cfg.language, LanguagePart(cut)), Matches(cfg.country, TerritoryPart(cut));
      FirstAppend(cfg.sys, target, names, Rows(ls, cs), Englishes(ls));
      var llo, lhi := Search(cfg.language, Contents(ll[..]));
      RangeMatches(cfg.language, LanguagePart(cut), llo, lhi);
      if llo < lhi {
        var clo, chi := Search(cfg.country, Contents(cc[..]));
        RangeMatches(cfg.country, TerritoryPart(cut), clo, chi);
        if clo < chi {
          r := TryRows(target, llo, lhi, clo, chi);
          if r != Failed { return; }
        } else {
          RowsEmpty(ls);
        }
        r := TryLanguages(target, llo, lhi);
      } else {
        r := Failed;
      }
    }

    /** The part that removes the codeset and looks the rest up. */
    method TryTables(target: Target, locale: string) returns (r: Outcome)
      requires TablesOk(cfg) && |locale| < BUFFER_SIZE && NoNul(locale)
      modifies this
      ensures var cut := RemoveCodeset(locale);
              Does(r, old(names), names,
                   First(cfg.sys, target, old(names),
                         (if cut == locale then [] else [Try(cut)]) +
                         (Englishes(Matches(cfg.language, cut)) + SplitCandidates(cfg.language, cfg.country, cut))))
    {
      var llCC := new char[BUFFER_SIZE];
      CopyWithoutCodeset(locale, llCC);
      var cut := Contents(llCC[..]);
      ghost var found, split := Englishes(Matches(cfg.language, cut)), SplitCandidates(cfg.language, cfg.country, cut);
      FirstAppend(cfg.sys, target, names, if cut == locale then [] else [Try(cut)], found + split);
      FirstAppend(cfg.sys, target, names, found, split);
      if cut != locale {
        var ok := SystemSetlocale(target, cut);
        if ok { return Succeeded; }
      }
      var lo, hi := Search(cfg.language, cut);
      RangeMatches(cfg.language, cut, lo, hi);
      r := TryLanguages(target, lo, hi);
      if r != Failed { return; }
      r := TrySplit(target, cut);
    }

    /** `setlocale_unixlike`: the first success over one ordered list of names. */
    method SetlocaleUnixlike(target: Target, locale: string) returns (r: Outcome)
      requires TablesOk(cfg) && NoNul(locale)
      modifies this
      ensures Serves(cfg, target, locale, old(names), r, names)
      ensures Does(r, old(names), names, First(cfg.sys, target, old(names), Tries(cfg, locale)))
    {
      TriesServe(cfg, target, locale, names);
      ghost var rest := if cfg.native then Tries(cfg, locale)[1..] else [];
      assert Tries(cfg, locale) == [Try(locale)] + rest;
      FirstAppend(cfg.sys, target, names, [Try(locale)], rest);
      var ok := SystemSetlocale(target, locale);
      if ok { return Succeeded; }
      if cfg.native && |locale| < BUFFER_SIZE {
        r := TryTables(target, locale);
      } else {
        r := Failed;
      }
    }

    // ----- One category -----

    ghost function View(): World
      reads this, messages
    {
      World(names, Contents(messages[..]))
    }

    /** `setlocale_single (LC_MESSAGES, locale)` where the buffer is kept here. */
    method SetMessages(locale: string)
      requires Valid() && NoNul(locale)
      modifies messages
      ensures Valid() && Contents(messages[..]) == Truncated(locale)
      ensures Contents(messages[..]) <= locale
      ensures |Contents(messages[..])| == if |locale| <= 63 then |locale| else 63
    {
      messages[BUFFER_SIZE - 1] := '\0';
      StrNCpy(messages, locale, BUFFER_SIZE - 1);
      assert messages[BUFFER_SIZE - 1..][0] == '\0';
      assert messages[..|Truncated(locale)|] == Truncated(locale);
      HeldContents(messages[..], Truncated(locale));
    }

    /** `setlocale_single` for one category. */
    method SetlocaleSingle(c: Category, locale: string) returns (r: Outcome)
      requires Valid() && NoNul(locale)
      modifies this, messages
      ensures Valid() && Effect(r, View()) == SetSingle(cfg, old(View()), c, locale)
      ensures !Own(cfg, c) ==> Serves(cfg, One(c), locale, old(names), r, names) && messages[..] == old(messages[..])
    {
      if Own(cfg, c) {
        SetMessages(locale);
        r := Succeeded;
      } else {
        r := SetlocaleUnixlike(One(c), locale);
      }
    }

    // ----- All categories from the environment -----

    /** The loop over the other categories. */
    method SetOthers(env: Env, base: string, cats: seq<Category>) returns (r: Outcome)
      requires Valid() && base == Name(cfg, env, Ctype)
      requires forall c :: NoNul(Name(cfg, env, c))
      modifies this, messages
      ensures Valid()
      ensures Effect(r, View()) == SetEach(cfg, env, old(View()), Unsettled(cfg, env, cats))
    {
      var i := 0;
      ghost var all := SetEach(cfg, env, View(), Unsettled(cfg, env, cats));
      assert cats[0..] == cats;
      while i < |cats|
        invariant 0 <= i <= |cats| && Valid()
        invariant all == SetEach(cfg, env, View(), Unsettled(cfg, env, cats[i..]))
      {
        var cat := cats[i];
        var name := Name(cfg, env, cat);
        SetEachStep(cfg, env, View(), cats[i..]);
        assert cats[i..][1..] == cats[i + 1..];
        if name != base || Own(cfg, cat) {
          r := SetlocaleSingle(cat, name);
          if r != Succeeded { return; }
        }
        i := i + 1;
      }
      assert cats[i..] == [];
      return Succeeded;
    }

    /** The steps that may fail, before any rollback. */
    method TryAll(env: Env) returns (r: Outcome)
      requires Valid()
      requires forall c :: NoNul(Name(cfg, env, c))
      modifies this, messages
      ensures Valid() && Effect(r, View()) == AllSteps(cfg, env, old(View()))
    {
      var base := Name(cfg, env, Ctype);
      r := SetlocaleUnixlike(All, base);
      if r != Succeeded { return; }
      if cfg.native && '.' in base && Ctype in names && names[Ctype] == "C" { return Failed; }
      r := SetOthers(env, base, CATEGORIES);
    }

    /** `rpl_setlocale (LC_ALL, "")`.  A failed request leaves every category and
        `lc_messages_name` as they were, but for the one exception that
        AllOrNothingExactlyWhen states. */
    method SetDefaultLocale(env: Env, saveFails: bool) returns (r: Outcome)
      requires Valid()
      requires forall c :: NoNul(Name(cfg, env, c))
      modifies this, messages
      ensures Valid()
      ensures saveFails ==> r == Failed && View() == old(View())
      ensures Effect(r, View()) == DefaultRequest(cfg, env, saveFails, old(View()))
      ensures r == Failed && Restorable(cfg.sys, old(names)) ==>
                (View() == old(View()) <==>
                 saveFails || cfg.sys.show(old(names)) != "" || NothingToUndo(cfg, env, old(View())))
      ensures r == Succeeded && SameEverywhere(cfg, Name(cfg, env, Ctype)) ==> AllChosen(cfg, env, old(View()), View())
    {
      ghost var before := View();
      if Restorable(cfg.sys, names) && DefaultRequest(cfg, env, saveFails, before).r == Failed {
        AllOrNothingExactlyWhen(cfg, env, saveFails, before);
      }
      if saveFails { return Failed; }
      var saved := cfg.sys.show(names);
      r := TryAll(env);
      if r == Failed && saved != "" {
        var ok := SystemSetlocale(All, saved);
      }
      if r == Succeeded && SameEverywhere(cfg, Name(cfg, env, Ctype)) {
        SuccessSetsChosenNames(cfg, env, before);
      }
    }

    /** `rpl_setlocale (LC_ALL, name)` for a name that is not empty. */
    method SetAll(name: string, saveFails: bool) returns (r: Outcome)
      requires Valid() && NoNul(name)
      modifies this
      ensures Valid()
      ensures NamedRequest(cfg, name, saveFails, old(names), r, names)
      ensures cfg.native && '.' in name && saveFails ==> r == Failed && names == old(names)
      // without the test of the encoding it is one request for one name
      ensures !cfg.native || '.' !in name ==> Serves(cfg, All, name, old(names), r, names)
      // with it, success means that LC_CTYPE is not left at "C"
      ensures cfg.native && '.' in name && r == Succeeded ==>
                Serves(cfg, All, name, old(names), r, names) && !(Ctype in names && names[Ctype] == "C")
    {
      var saved := cfg.sys.show(names);
      if cfg.native && '.' in name && saveFails { return Failed; }
      r := SetlocaleUnixlike(All, name);
      if r == Succeeded && cfg.native && '.' in name && Ctype in names && names[Ctype] == "C" {
        if saved != "" {
          var ok := SystemSetlocale(All, saved);
        }
        r := Failed;
      }
    }

    // ----- The whole of rpl_setlocale -----

    /** `rpl_setlocale (category, locale)`; `locale` is None for NULL, a query. */
    method RplSetlocale(target: Target, locale: Option<string>, env: Env, saveFails: bool) returns (r: Outcome)
      requires Valid()
      requires forall c :: NoNul(Name(cfg, env, c))
      requires locale.Some? ==> NoNul(locale.v)
      modifies this, messages
      ensures Valid()
      ensures locale.None? ==> r == Succeeded && View() == old(View())
      ensures target.One? && locale.Some? ==>
                Effect(r, View()) ==
                SetSingle(cfg, old(View()), target.c, if locale.v == "" then Name(cfg, env, target.c) else locale.v)
      ensures target.One? && locale.Some? && !Own(cfg, target.c) ==>
                Serves(cfg, target, if locale.v == "" then Name(cfg, env, target.c) else locale.v, old(names), r, names)
      ensures target.All? && locale == Some("") ==>
                Effect(r, View()) == DefaultRequest(cfg, env, saveFails, old(View()))
      ensures target.All? && locale.Some? && locale.v != "" ==>
                NamedRequest(cfg, locale.v, saveFails, old(names), r, names) && View().messages == old(View()).messages
      // what that means: all or nothing, and on success the chosen names
      ensures r == Failed && Restorable(cfg.sys, old(names)) && cfg.sys.show(old(names)) != "" ==> View() == old(View())
      ensures target.All? && locale == Some("") && r == Succeeded && SameEverywhere(cfg, Name(cfg, env, Ctype)) ==>
                AllChosen(cfg, env, old(View()), View())
    {
      match locale
      case None => r := Succeeded;
      case Some(name) =>
        if target.One? {
          r := SetlocaleSingle(target.c, if name == "" then Name(cfg, env, target.c) else name);
        } else if name == "" {
          r := SetDefaultLocale(env, saveFails);
        } else {
          r := SetAll(name, saveFails);
        }
    }
  }

  /** What a request for LC_ALL with an explicit name amounts to: it takes effect as
      its first accepted candidate, unless that leaves a bad encoding. */
  ghost predicate NamedRequest(cfg: Config, name: string, saveFails: bool, before: Names, r: Outcome, after: Names) {
    if cfg.native && '.' in name && saveFails then r == Failed && after == before
    else
      match First(cfg.sys, All, before, Tries(cfg, name))
      case Abort => r == Aborted && after == before
      case NoHit => r == Failed && after == before
      case Hit(names) =>
        if BadEncoding(cfg, name, names) then r == Failed && after == RolledBack(cfg.sys, before, names)
        else r == Succeeded && after == names
  }

  /** An explicit name for LC_ALL on native Windows, in terms of the rows: what they
      decide on takes effect, unless the name asks for an encoding and LC_CTYPE is
      left at "C". */
  lemma NamedRequestByRows(cfg: Config, name: string, before: Names, r: Outcome, after: Names, n: Names)
    requires cfg.native && NamedRequest(cfg, name, false, before, r, after)
    requires Resolves(Request(cfg.sys, All, before), cfg.language, cfg.country, name, Hit(n))
    ensures r == Succeeded <==> !('.' in name && Ctype in n && n[Ctype] == "C")
    ensures r == Succeeded ==> after == n
    ensures r != Succeeded ==> r == Failed && (cfg.sys.show(before) == "" ==> after == n)
    ensures r != Succeeded && cfg.sys.show(before) != "" && Restorable(cfg.sys, before) ==> after == before
  {
    ResolvesOnce(Request(cfg.sys, All, before), cfg.language, cfg.country, name, Hit(n));
  }

  /** The value that a category gets for a name is the one that the rows decide on. */
  lemma ValueByRows(cfg: Config, c: Category, name: string, v: string)
    requires cfg.native
    ensures Value(cfg, c, name) == Some(v) <==>
            Resolves(Request(cfg.sys, One(c), map[]), cfg.language, cfg.country, name, Hit(map[c := v]))
  {
    FirstOneIsLocal(cfg.sys, c, map[], map[], Tries(cfg, name));
    ResolvesOnce(Request(cfg.sys, One(c), map[]), cfg.language, cfg.country, name, Hit(map[c := v]));
    assert map[c := v][c] == v;
  }

  lemma TriesServe(cfg: Config, target: Target, locale: string, before: Names)
    ensures forall r, after | Does(r, before, after, First(cfg.sys, target, before, Tries(cfg, locale))) ::
              Serves(cfg, target, locale, before, r, after)
  {
    CandidatesResolve(Request(cfg.sys, target, before), cfg.language, cfg.country, locale);
    FirstSingle(cfg.sys, target, before, Try(locale));
  }

  lemma {:induction false} SetEachStep(cfg: Config, env: Env, w: World, cats: seq<Category>)
    requires cats != []
    ensures SetEach(cfg, env, w, Unsettled(cfg, env, cats)) ==
            var c, rest := cats[0], Unsettled(cfg, env, cats[1..]);
            if Name(cfg, env, c) != Name(cfg, env, Ctype) || Own(cfg, c) then
              var e := SetSingle(cfg, w, c, Name(cfg, env, c));
              if e.r != Succeeded then e else SetEach(cfg, env, e.w, rest)
            else SetEach(cfg, env, w, rest)
  {
    var c, rest := cats[0], Unsettled(cfg, env, cats[1..]);
    assert ([c] + rest)[1..] == rest && [] + rest == rest;
  }
}
