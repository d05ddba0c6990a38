/**
 The decomposition of language[_territory][.codeset][@modifier] in
 `setlocale_unixlike`, done in three fixed buffers.
 */
module LocaleParts {
  import opened Options
  import opened CText

  const BUFFER_SIZE: nat := 64

  // ----- What the buffers are to hold -----

  /** Without the part from the first '.' up to the next '@'. */
  function RemoveCodeset(s: string): (r: string)
    ensures |r| <= |s|
    ensures NoNul(s) ==> NoNul(r)
  {
    var dot := IndexOf(s, '.', 0);
    s[..dot] + s[IndexOf(s, '@', dot)..]
  }

  /** Where the territory of language_territory[@modifier] starts and ends. */
  predicate HasTerritory(s: string) {
    IndexOf(s, '_', 0) < |s|
  }

  function LanguagePart(s: string): (r: string)
    requires HasTerritory(s)
    ensures |r| < |s|
    ensures NoNul(s) ==> NoNul(r)
  {
    var u := IndexOf(s, '_', 0);
    s[..u] + s[IndexOf(s, '@', u + 1)..]
  }

  function TerritoryPart(s: string): (r: string)
    requires HasTerritory(s)
    ensures |r| < |s|
    ensures NoNul(s) ==> NoNul(r)
  {
    var u := IndexOf(s, '_', 0);
    s[u + 1..IndexOf(s, '@', u + 1)]
  }

  // ----- They are the intended parts -----

  predicate Plain(s: string) {
    forall i | 0 <= i < |s| :: s[i] != '_' && s[i] != '.' && s[i] != '@'
  }

  function Opt(sep: char, part: Option<string>): string {
    if part.None? then "" else [sep] + part.v
  }

  /** language[_territory][.codeset][@modifier] */
  function Locale(language: string, territory: Option<string>, codeset: Option<string>, modifier: Option<string>): string {
    language + Opt('_', territory) + Opt('.', codeset) + Opt('@', modifier)
  }

  predicate PlainPart(part: Option<string>) {
    part.Some? ==> Plain(part.v)
  }

  /** For every name made of parts without separators, removing the codeset and
      splitting give back exactly the parts. */
  lemma PartsAreIntended(language: string, territory: Option<string>, codeset: Option<string>, modifier: Option<string>)
    requires Plain(language) && PlainPart(territory) && PlainPart(codeset) && PlainPart(modifier)
    ensures var cut := RemoveCodeset(Locale(language, territory, codeset, modifier));
            && cut == Locale(language, territory, None, modifier)
            && (HasTerritory(cut) <==> territory.Some?)
            && (territory.Some? ==> LanguagePart(cut) == Locale(language, None, None, modifier)
                                    && TerritoryPart(cut) == territory.v)
  {
    CodesetCut(language, territory, codeset, modifier);
    SplitIsIntended(language, territory, modifier);
  }

  lemma CodesetCut(language: string, territory: Option<string>, codeset: Option<string>, modifier: Option<string>)
    requires Plain(language) && PlainPart(territory) && PlainPart(codeset) && PlainPart(modifier)
    ensures RemoveCodeset(Locale(language, territory, codeset, modifier)) == Locale(language, territory, None, modifier)
  {
    var front := language + Opt('_', territory);
    CodesetRemoved(front, codeset, modifier);
    assert front + Opt('.', None) == front;
  }

  lemma SplitIsIntended(language: string, territory: Option<string>, modifier: Option<string>)
    requires Plain(language) && PlainPart(territory) && PlainPart(modifier)
    ensures var cut := Locale(language, territory, None, modifier);
            && (HasTerritory(cut) <==> territory.Some?)
            && (territory.Some? ==> LanguagePart(cut) == Locale(language, None, None, modifier)
                                    && TerritoryPart(cut) == territory.v)
  {
    var m := Opt('@', modifier);
    assert Locale(language, None, None, modifier) == language + m;
    if territory.Some? {
      TerritoryShape(language, territory.v, modifier);
      TerritorySplit(language, territory.v, m);
    } else {
      IndexOfIs(language + m, '_', 0, |language + m|);
    }
  }

  lemma TerritoryShape(language: string, territory: string, modifier: Option<string>)
    ensures Locale(language, Some(territory), None, modifier) == language + "_" + territory + Opt('@', modifier)
  {
    assert language + ("_" + territory) == language + "_" + territory;
    assert language + "_" + territory + "" == language + "_" + territory;
  }

  lemma CodesetRemoved(front: string, codeset: Option<string>, modifier: Option<string>)
    requires forall i | 0 <= i < |front| :: front[i] != '.' && front[i] != '@'
    requires PlainPart(codeset) && PlainPart(modifier)
    ensures RemoveCodeset(front + Opt('.', codeset) + Opt('@', modifier)) == front + Opt('@', modifier)
  {
    var m := Opt('@', modifier);
    if codeset.Some? {
      assert front + ("." + codeset.v) == front + "." + codeset.v;
      CutAtFirstDot(front, codeset.v, m);
    } else {
      assert front + "" + m == front + m;
      NothingToCut(front + m);
    }
  }

  /** Any name with a '.': the part from the first '.' up to the '@' after it, or to
      the end, is left out, whatever else the name holds. */
  lemma CutAtFirstDot(front: string, codeset: string, rest: string)
    requires '.' !in front && '@' !in codeset && (rest == "" || rest[0] == '@')
    ensures RemoveCodeset(front + "." + codeset + rest) == front + rest
  {
    var s := front + "." + codeset + rest;
    var at := |front| + 1 + |codeset|;
    IndexOfIs(s, '.', 0, |front|);
    IndexOfIs(s, '@', |front|, at);
    assert s[..|front|] == front && s[at..] == rest;
  }

  lemma NothingToCut(s: string)
    requires '.' !in s
    ensures RemoveCodeset(s) == s
  {
    IndexOfIs(s, '.', 0, |s|);
    assert s[..|s|] + s[|s|..] == s;
  }

  lemma UnderscoreDecides(s: string)
    ensures HasTerritory(s) <==> '_' in s
  {
    if '_' in s {
      var i :| 0 <= i < |s| && s[i] == '_';
    }
  }

  /** Any name with a '_': the first one starts the territory, which ends before the
      '@' after it, or at the end. */
  lemma TerritorySplit(language: string, territory: string, m: string)
    requires '_' !in language && '@' !in territory && (m == "" || m[0] == '@')
    ensures var cut := language + "_" + territory + m;
            HasTerritory(cut) && LanguagePart(cut) == language + m && TerritoryPart(cut) == territory
  {
    var cut := language + "_" + territory + m;
    var u, e := |language|, |language| + 1 + |territory|;
    IndexOfIs(cut, '_', 0, u);
    IndexOfIs(cut, '@', u + 1, e);
    assert cut[..u] == language && cut[u + 1..e] == territory && cut[e..] == m;
  }

  // ----- Filling the buffers -----

  /** `for (; *p != '\0' && *p != stop; p++, q++) *q = *p;` on `s` from `p`. */
  method CopyUntil(s: string, p: nat, stop: char, buf: array<char>, q: nat) returns (p': nat, q': nat)
    requires p <= |s| && q + (|s| - p) < buf.Length
    modifies buf
    ensures p' == IndexOf(s, stop, p) && q' == q + (p' - p)
    ensures buf[..q'] == old(buf[..q]) + s[p..p']
  {
    p', q' := p, q;
    ghost var end := IndexOf(s, stop, p);
    while p' < |s| && s[p'] != stop
      invariant p <= p' <= end && q' == q + (p' - p)
      invariant buf[..q'] == old(buf[..q]) + s[p..p']
    {
      assert s[p..p' + 1] == s[p..p'] + [s[p']];
      buf[q'] := s[p'];
      p', q' := p' + 1, q' + 1;
    }
  }

  /** The three loops that copy `locale` without its codeset. */
  method CopyWithoutCodeset(locale: string, buf: array<char>)
    requires buf.Length == BUFFER_SIZE && |locale| < BUFFER_SIZE && NoNul(locale)
    modifies buf
    ensures Contents(buf[..]) == RemoveCodeset(locale)
  {
    var p, q := CopyUntil(locale, 0, '.', buf, 0);
    assert buf[..q] == locale[..p];
    ghost var at := IndexOf(locale, '@', p);
    if p < |locale| && locale[p] == '.' {
      while p < |locale| && locale[p] != '@'
        invariant IndexOf(locale, '.', 0) <= p <= at
      {
        p := p + 1;
      }
    }
    assert p == at;
    p, q := CopyUntil(locale, p, '\0', buf, q);
    assert p == |locale|;
    buf[q] := '\0';
    assert buf[..q] == RemoveCodeset(locale);
    HeldContents(buf[..], RemoveCodeset(locale));
  }

  /** Splits `cut` into the language buffer and the territory buffer. */
  method SplitTerritory(cut: string, ll: array<char>, cc: array<char>)
    requires ll.Length == BUFFER_SIZE && cc.Length == BUFFER_SIZE && ll != cc
    requires |cut| < BUFFER_SIZE && NoNul(cut) && HasTerritory(cut)
    modifies ll, cc
    ensures Contents(ll[..]) == LanguagePart(cut)
    ensures Contents(cc[..]) == TerritoryPart(cut)
  {
    var underscore := IndexOf(cut, '_', 0);
    var territoryStart := underscore + 1;
    var territoryEnd := IndexOf(cut, '@', territoryStart);
    forall k | 0 <= k < underscore {
      ll[k] := cut[k];
    }
    StrCpy(ll, underscore, cut[territoryEnd..]);
    StrCpy(cc, 0, cut[territoryStart..territoryEnd]);
    assert ll[..|LanguagePart(cut)|] == LanguagePart(cut);
    HeldContents(ll[..], LanguagePart(cut));
    HeldContents(cc[..], TerritoryPart(cut));
  }
}
