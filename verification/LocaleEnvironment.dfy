/**
 `gl_locale_name_environ` of localename.c: which name the environment asks for.
 */
module LocaleEnvironment {
  import opened Options
  import opened LocaleSystem

  datatype Platform = Platform(mac: bool, cygwin: bool)

  function CategoryToName(c: Category): string {
    match c
    case Collate => "LC_COLLATE"
    case Ctype => "LC_CTYPE"
    case Monetary => "LC_MONETARY"
    case Numeric => "LC_NUMERIC"
    case Time => "LC_TIME"
    case Messages => "LC_MESSAGES"
  }

  /** `getenv`, with an empty value treated as unset. */
  function NonEmpty(env: map<string, string>, variable: string): Option<string> {
    if variable in env && env[variable] != "" then Some(env[variable]) else None
  }

  /** A LANG value that the platform sets by itself and that must be ignored. */
  predicate Ignored(p: Platform, lang: string) {
    (p.mac && lang == "UTF-8") || (p.cygwin && lang == "C.UTF-8")
  }

  function Environ(env: map<string, string>, p: Platform, c: Category): (r: Option<string>)
    ensures r.Some? ==> r.v != "" && r.v in env.Values
  {
    if NonEmpty(env, "LC_ALL").Some? then assert "LC_ALL" in env.Keys; NonEmpty(env, "LC_ALL")
    else if NonEmpty(env, CategoryToName(c)).Some? then
      assert CategoryToName(c) in env.Keys; NonEmpty(env, CategoryToName(c))
    else if NonEmpty(env, "LANG").Some? && !Ignored(p, env["LANG"]) then
      assert "LANG" in env.Keys; NonEmpty(env, "LANG")
    else None
  }

  /** The name for a category, with the default locale for lack of one. */
  function Chosen(env: map<string, string>, p: Platform, default: string, c: Category): string {
    match Environ(env, p, c)
    case Some(n) => n
    case None => default
  }

  // ----- The order of the variables, stated without the branches -----

  /** The variables that may name the locale of a category, strongest first. */
  function Sources(c: Category): seq<string> {
    ["LC_ALL", CategoryToName(c), "LANG"]
  }

  predicate Usable(env: map<string, string>, p: Platform, variable: string) {
    variable in env && env[variable] != "" && !(variable == "LANG" && Ignored(p, env[variable]))
  }

  /** Source `i` is usable, has the value `v`, and no stronger one is usable. */
  predicate Decides(env: map<string, string>, p: Platform, c: Category, i: nat, v: string)
    requires i < |Sources(c)|
  {
    && Usable(env, p, Sources(c)[i]) && env[Sources(c)[i]] == v
    && forall j | 0 <= j < i :: !Usable(env, p, Sources(c)[j])
  }

  /** The name is the value of the strongest usable variable, and there is none
      exactly when no variable is usable. */
  lemma EnvironIsStrongest(env: map<string, string>, p: Platform, c: Category)
    ensures forall v :: Environ(env, p, c) == Some(v) <==> exists i: nat | i < |Sources(c)| :: Decides(env, p, c, i, v)
    ensures Environ(env, p, c).None? <==> forall i | 0 <= i < |Sources(c)| :: !Usable(env, p, Sources(c)[i])
  {
    var r := Environ(env, p, c);
    assert CategoryToName(c)[0] == 'L' && CategoryToName(c)[2] == '_' && CategoryToName(c) != "LANG";
    if r.Some? {
      var i := if Usable(env, p, "LC_ALL") then 0 else if Usable(env, p, CategoryToName(c)) then 1 else 2;
      assert Decides(env, p, c, i, r.v);
    }
    forall v, i: nat | i < |Sources(c)| && Decides(env, p, c, i, v) ensures r == Some(v) {
      assert i == 0 || !Usable(env, p, Sources(c)[0]);
      assert i <= 1 || !Usable(env, p, Sources(c)[1]);
    }
  }

  // ----- Which variable names what: the effect of setting one -----

  /** In `env`, where LC_ALL is not set, setting `variable` to `v` names the locale of
      category `c` and changes that of no other. */
  ghost predicate NamesOnly(env: map<string, string>, p: Platform, variable: string, v: string, c: Category) {
    forall d :: Environ(env[variable := v], p, d) == if d == c then Some(v) else Environ(env, p, d)
  }

  ghost predicate Governs(variable: string, c: Category) {
    forall env, p, v | NonEmpty(env, "LC_ALL").None? && v != "" :: NamesOnly(env, p, variable, v, c)
  }

  lemma GovernsIs(c: Category)
    ensures Governs(CategoryToName(c), c)
  {
    var variable := CategoryToName(c);
    assert variable[0] == 'L' && variable[2] == '_' && variable != "LANG";
    assert |variable| > |"LC_ALL"|;
    forall env, p, v | NonEmpty(env, "LC_ALL").None? && v != "" ensures NamesOnly(env, p, variable, v, c) {
      forall d | d != c ensures CategoryToName(d) != variable { NamesDiffer(c, d); }
    }
  }

  lemma NamesDiffer(c: Category, d: Category)
    requires c != d
    ensures CategoryToName(c) != CategoryToName(d)
  {
    // among names of one length these characters tell them apart
    assert CategoryToName(c)[3] != CategoryToName(d)[3] || CategoryToName(c)[4] != CategoryToName(d)[4]
           || |CategoryToName(c)| != |CategoryToName(d)|;
  }

  lemma EachCategoryHasItsVariable()
    ensures Governs("LC_COLLATE", Collate) && Governs("LC_CTYPE", Ctype) && Governs("LC_MONETARY", Monetary)
    ensures Governs("LC_NUMERIC", Numeric) && Governs("LC_TIME", Time) && Governs("LC_MESSAGES", Messages)
  {
    GovernsIs(Collate);
    GovernsIs(Ctype);
    GovernsIs(Monetary);
    GovernsIs(Numeric);
    GovernsIs(Time);
    GovernsIs(Messages);
  }

  /** LC_ALL overrides everything. */
  lemma LcAllOverrides(env: map<string, string>, p: Platform, v: string, c: Category)
    requires v != ""
    ensures Environ(env["LC_ALL" := v], p, c) == Some(v)
  {
  }

  /** LANG counts only for lack of anything else, and not when it is the value that
      the Mac OS X terminal or the Cygwin profile sets by itself. */
  lemma LangIsLastResort(env: map<string, string>, p: Platform, v: string, c: Category)
    requires v != ""
    ensures Environ(env["LANG" := v], p, c) ==
            if Environ(env - {"LANG"}, p, c).Some? then Environ(env - {"LANG"}, p, c)
            else if v == "UTF-8" && p.mac then None
            else if v == "C.UTF-8" && p.cygwin then None
            else Some(v)
  {
    var variable := CategoryToName(c);
    assert variable[0] == 'L' && variable[2] == '_' && variable != "LANG";
    assert "LC_ALL"[2] != "LANG"[2];
  }

  /** An empty value is as good as none. */
  lemma EmptyIsUnset(env: map<string, string>, p: Platform, variable: string, c: Category)
    ensures Environ(env[variable := ""], p, c) == Environ(env - {variable}, p, c)
  {
  }

  /** The default locale is chosen exactly for lack of a name in the environment. */
  lemma DefaultForLackOfName(env: map<string, string>, p: Platform, c: Category)
    ensures Environ(env, p, c).None? ==> forall d :: Chosen(env, p, d, c) == d
    ensures Environ(env, p, c).Some? ==> forall d :: Some(Chosen(env, p, d, c)) == Environ(env, p, c)
    ensures Environ(map[], p, c).None?
  {
  }
}
