/**
 What a request for the default locale is to do, as a function of the state, and
 what the short cut through LC_ALL is worth.
 */
module SetlocaleSteps {
  import opened Options
  import opened LocaleTables
  import opened LocaleParts
  import opened LocaleSystem
  import opened LocaleEnvironment

  /** How the program was built, and the platform it runs on.
      `native`: native Windows, where the name tables are used.
      `ownMessages`: LC_MESSAGES is kept here, not by the C library. */
  datatype Config = Config(sys: System, native: bool, ownMessages: bool, platform: Platform,
                           language: seq<Entry>, country: seq<Entry>, default: string)

  type Env = map<string, string>

  datatype Outcome = Succeeded | Failed | Aborted

  /** The C library's categories, and the buffer `lc_messages_name`. */
  datatype World = World(names: Names, messages: string)

  datatype Effect = Effect(r: Outcome, w: World)

  function Tries(cfg: Config, locale: string): seq<Candidate> {
    if cfg.native then Candidates(cfg.language, cfg.country, locale) else [Try(locale)]
  }

  /** The categories other than LC_CTYPE, in the order they are set. */
  const CATEGORIES: seq<Category> := [Numeric, Time, Collate, Monetary, Messages]

  predicate Own(cfg: Config, c: Category) {
    cfg.ownMessages && c == Messages
  }

  function Name(cfg: Config, env: Env, c: Category): string {
    Chosen(env, cfg.platform, cfg.default, c)
  }

  /** What fits into `lc_messages_name`. */
  function Truncated(name: string): (r: string)
    ensures r <= name && |r| == if |name| <= 63 then |name| else 63
  {
    if |name| < BUFFER_SIZE then name else name[..BUFFER_SIZE - 1]
  }

  function SetSingle(cfg: Config, w: World, c: Category, name: string): Effect {
    if Own(cfg, c) then Effect(Succeeded, w.(messages := Truncated(name)))
    else
      match First(cfg.sys, One(c), w.names, Tries(cfg, name))
      case Hit(names) => Effect(Succeeded, w.(names := names))
      case NoHit => Effect(Failed, w)
      case Abort => Effect(Aborted, w)
  }

  /** Sets each category to its own name, stopping at the first failure. */
  function SetEach(cfg: Config, env: Env, w: World, cats: seq<Category>): Effect
    decreases |cats|
  {
    if cats == [] then Effect(Succeeded, w)
    else
      var e := SetSingle(cfg, w, cats[0], Name(cfg, env, cats[0]));
      if e.r != Succeeded then e else SetEach(cfg, env, e.w, cats[1..])
  }

  /** The categories that the call for LC_ALL has not settled already. */
  function Unsettled(cfg: Config, env: Env, cats: seq<Category>): seq<Category> {
    if cats == [] then []
    else (if Name(cfg, env, cats[0]) != Name(cfg, env, Ctype) || Own(cfg, cats[0]) then [cats[0]] else [])
         + Unsettled(cfg, env, cats[1..])
  }

  /** On native Windows a call for LC_ALL with an unsupported encoding may
      succeed and leave LC_CTYPE at "C". */
  predicate BadEncoding(cfg: Config, base: string, names: Names) {
    cfg.native && '.' in base && Ctype in names && names[Ctype] == "C"
  }

  /** LC_ALL first, then the other categories; no rollback yet. */
  function AllSteps(cfg: Config, env: Env, w: World): Effect {
    var base := Name(cfg, env, Ctype);
    match First(cfg.sys, All, w.names, Tries(cfg, base))
    case NoHit => Effect(Failed, w)
    case Abort => Effect(Aborted, w)
    case Hit(names) =>
      var w' := w.(names := names);
      if BadEncoding(cfg, base, names) then Effect(Failed, w')
      else SetEach(cfg, env, w', Unsettled(cfg, env, CATEGORIES))
  }

  /** The plain way: every category on its own. */
  function SeparateSteps(cfg: Config, env: Env, w: World): Effect {
    SetEach(cfg, env, w, [Ctype] + CATEGORIES)
  }

  // ----- What setting a list of categories does -----

  /** The value that category `c` gets for `name`, if any candidate is accepted. */
  function Value(cfg: Config, c: Category, name: string): Option<string> {
    FirstOneIsLocal(cfg.sys, c, map[], map[], Tries(cfg, name));
    match First(cfg.sys, One(c), map[], Tries(cfg, name))
    case Hit(names) => Some(names[c])
    case NoHit => None
    case Abort => None
  }

  predicate Accepts(cfg: Config, env: Env, c: Category) {
    Own(cfg, c) || Value(cfg, c, Name(cfg, env, c)).Some?
  }

  ghost predicate AllAccept(cfg: Config, env: Env, cats: seq<Category>) {
    forall i | 0 <= i < |cats| :: Accepts(cfg, env, cats[i])
  }

  /** `w'` is `w` with exactly the categories of `cats` at their chosen names. */
  ghost predicate Sets(cfg: Config, env: Env, w: World, cats: seq<Category>, w': World) {
    && (forall c :: c in w'.names <==> c in w.names || (c in cats && !Own(cfg, c)))
    && (forall c | c in w'.names ::
          if c in cats && !Own(cfg, c) then Value(cfg, c, Name(cfg, env, c)) == Some(w'.names[c])
          else c in w.names && w'.names[c] == w.names[c])
    && w'.messages == if cfg.ownMessages && Messages in cats then Truncated(Name(cfg, env, Messages)) else w.messages
  }

  lemma SetSingleResult(cfg: Config, env: Env, w: World, c: Category)
    ensures var e := SetSingle(cfg, w, c, Name(cfg, env, c));
            && (e.r == Succeeded <==> Accepts(cfg, env, c))
            && (e.r == Succeeded ==> Sets(cfg, env, w, [c], e.w))
            && (e.r != Succeeded ==> e.w == w)
  {
    FirstOneIsLocal(cfg.sys, c, map[], w.names, Tries(cfg, Name(cfg, env, c)));
  }

  lemma SetsCompose(cfg: Config, env: Env, w: World, c: Category, w1: World, cats: seq<Category>, w2: World)
    requires Sets(cfg, env, w, [c], w1) && Sets(cfg, env, w1, cats, w2)
    ensures Sets(cfg, env, w, [c] + cats, w2)
  {
  }

  /** The categories before the first that rejects its name. */
  function Reached(cfg: Config, env: Env, cats: seq<Category>): seq<Category> {
    if cats == [] || !Accepts(cfg, env, cats[0]) then []
    else [cats[0]] + Reached(cfg, env, cats[1..])
  }

  lemma {:induction false} ReachedIsPrefix(cfg: Config, env: Env, cats: seq<Category>)
    ensures var k := |Reached(cfg, env, cats)|;
            && k <= |cats| && Reached(cfg, env, cats) == cats[..k]
            && (forall i | 0 <= i < k :: Accepts(cfg, env, cats[i]))
            && (k < |cats| ==> !Accepts(cfg, env, cats[k]))
    decreases |cats|
  {
    if cats != [] && Accepts(cfg, env, cats[0]) {
      ReachedIsPrefix(cfg, env, cats[1..]);
      var k := |Reached(cfg, env, cats[1..])|;
      assert cats[..k + 1] == [cats[0]] + cats[1..][..k];
    }
  }

  lemma {:induction false} ReachedAll(cfg: Config, env: Env, cats: seq<Category>)
    ensures Reached(cfg, env, cats) == cats <==> AllAccept(cfg, env, cats)
  {
    ReachedIsPrefix(cfg, env, cats);
    assert |Reached(cfg, env, cats)| == |cats| ==> Reached(cfg, env, cats) == cats;
  }

  /** Success means that every category accepts; either way exactly the categories
      before the first rejection have been set. */
  lemma {:induction false} SetEachResult(cfg: Config, env: Env, w: World, cats: seq<Category>)
    ensures SetEach(cfg, env, w, cats).r == Succeeded <==> AllAccept(cfg, env, cats)
    ensures Sets(cfg, env, w, Reached(cfg, env, cats), SetEach(cfg, env, w, cats).w)
    ensures AllAccept(cfg, env, cats) ==> Reached(cfg, env, cats) == cats
    decreases |cats|
  {
    ReachedAll(cfg, env, cats);
    if cats != [] {
      var c, rest := cats[0], cats[1..];
      var e := SetSingle(cfg, w, c, Name(cfg, env, c));
      SetSingleResult(cfg, env, w, c);
      assert AllAccept(cfg, env, cats) <==> Accepts(cfg, env, c) && AllAccept(cfg, env, rest) by {
        assert cats == [c] + rest;
      }
      if e.r == Succeeded {
        SetEachResult(cfg, env, e.w, rest);
        SetsCompose(cfg, env, w, c, e.w, Reached(cfg, env, rest), SetEach(cfg, env, e.w, rest).w);
      }
    }
  }

  /** After LC_ALL the categories are set in the order LC_NUMERIC, LC_TIME, LC_COLLATE,
      LC_MONETARY, LC_MESSAGES: one that rejects its name leaves the later ones at
      what LC_ALL gave them. */
  lemma RejectionStopsTheRest(cfg: Config, env: Env, w: World, names: Names, i: nat, j: nat)
    requires i < j < 5 && First(cfg.sys, All, w.names, Tries(cfg, Name(cfg, env, Ctype))) == Hit(names)
    requires var c := [Numeric, Time, Collate, Monetary, Messages][i];
             Name(cfg, env, c) != Name(cfg, env, Ctype) && !Accepts(cfg, env, c)
    ensures var d, w' := [Numeric, Time, Collate, Monetary, Messages][j], AllSteps(cfg, env, w).w;
            && (d in w'.names <==> d in names)
            && (d in names ==> w'.names[d] == names[d])
  {
    var order := [Numeric, Time, Collate, Monetary, Messages];
    ReachedBefore(cfg, env, order, i, j);
    NotReachedNotSet(cfg, env, w, names, order[j]);
  }

  lemma NotReachedNotSet(cfg: Config, env: Env, w: World, names: Names, d: Category)
    requires First(cfg.sys, All, w.names, Tries(cfg, Name(cfg, env, Ctype))) == Hit(names)
    requires d !in Reached(cfg, env, Unsettled(cfg, env, CATEGORIES))
    ensures var w' := AllSteps(cfg, env, w).w;
            (d in w'.names <==> d in names) && (d in names ==> w'.names[d] == names[d])
  {
    SetEachResult(cfg, env, w.(names := names), Unsettled(cfg, env, CATEGORIES));
  }

  /** Nothing behind a category that rejects its name is reached. */
  lemma {:induction false} ReachedBefore(cfg: Config, env: Env, order: seq<Category>, i: nat, j: nat)
    requires i < j < |order| && (forall m, k | 0 <= m < k < |order| :: order[m] != order[k])
    requires Name(cfg, env, order[i]) != Name(cfg, env, Ctype) && !Accepts(cfg, env, order[i])
    ensures order[j] !in Reached(cfg, env, Unsettled(cfg, env, order))
    decreases |order|
  {
    var rest := Unsettled(cfg, env, order[1..]);
    var u := Unsettled(cfg, env, order);
    if i == 0 {
      assert u[0] == order[0];
    } else {
      ReachedBefore(cfg, env, order[1..], i - 1, j - 1);
      assert u == [order[0]] + rest || u == rest;
      assert u == [order[0]] + rest ==> u[1..] == rest;
    }
  }

  lemma {:induction false} UnsettledMembers(cfg: Config, env: Env, cats: seq<Category>)
    ensures forall c :: c in Unsettled(cfg, env, cats) <==>
                        c in cats && (Name(cfg, env, c) != Name(cfg, env, Ctype) || Own(cfg, c))
    decreases |cats|
  {
    if cats != [] { UnsettledMembers(cfg, env, cats[1..]); }
  }

  // ----- A failed request has not touched lc_messages_name -----

  /** LC_MESSAGES is not before another category. */
  ghost predicate MessagesLast(cats: seq<Category>) {
    forall i | 0 <= i < |cats| - 1 :: cats[i] != Messages
  }

  lemma {:induction false} FailureKeepsMessages(cfg: Config, env: Env, w: World, cats: seq<Category>)
    requires MessagesLast(cats)
    ensures SetEach(cfg, env, w, cats).r != Succeeded ==> SetEach(cfg, env, w, cats).w.messages == w.messages
    decreases |cats|
  {
    if cats != [] {
      var e := SetSingle(cfg, w, cats[0], Name(cfg, env, cats[0]));
      FailureKeepsMessages(cfg, env, e.w, cats[1..]);
    }
  }

  lemma {:induction false} UnsettledMessagesLast(cfg: Config, env: Env, cats: seq<Category>)
    requires MessagesLast(cats)
    ensures MessagesLast(Unsettled(cfg, env, cats))
    decreases |cats|
  {
    if |cats| > 1 {
      UnsettledMessagesLast(cfg, env, cats[1..]);
      var u, rest := Unsettled(cfg, env, cats), Unsettled(cfg, env, cats[1..]);
      assert u == [cats[0]] + rest || u == rest;
      forall i | 0 <= i < |u| - 1 ensures u[i] != Messages {
        assert i > 0 && u != rest ==> u[i] == rest[i - 1];
      }
    }
  }

  lemma FailureIsRecoverable(cfg: Config, env: Env, w: World)
    requires AllSteps(cfg, env, w).r != Succeeded
    ensures AllSteps(cfg, env, w).w.messages == w.messages
  {
    var cats := CATEGORIES;
    assert MessagesLast(cats);
    UnsettledMessagesLast(cfg, env, cats);
    match First(cfg.sys, All, w.names, Tries(cfg, Name(cfg, env, Ctype)))
    case Hit(names) => FailureKeepsMessages(cfg, env, w.(names := names), Unsettled(cfg, env, cats));
    case _ =>
  }

  // ----- A successful request sets every category -----

  ghost predicate Kept(cfg: Config, c: Category) {
    !Own(cfg, c)
  }

  predicate IsUnsettled(cfg: Config, env: Env, c: Category) {
    Name(cfg, env, c) != Name(cfg, env, Ctype) || Own(cfg, c)
  }

  lemma UnsettledAre(cfg: Config, env: Env)
    ensures forall c :: c in Unsettled(cfg, env, CATEGORIES) <==> IsUnsettled(cfg, env, c)
  {
    UnsettledMembers(cfg, env, CATEGORIES);
    forall c ensures c in Unsettled(cfg, env, CATEGORIES) <==> IsUnsettled(cfg, env, c) { EveryCategory(c); }
  }

  /** The domain of the C library's state. */
  ghost predicate HasCategories(cfg: Config, names: Names) {
    forall c :: c in names <==> Kept(cfg, c)
  }

  /** Where LC_ALL accepts a name, every category accepts it, with the same value. */
  ghost predicate SameEverywhere(cfg: Config, name: string) {
    match First(cfg.sys, All, map[], Tries(cfg, name))
    case Hit(names) => HasCategories(cfg, names) && forall c | c in names :: Value(cfg, c, name) == Some(names[c])
    case _ => true
  }

  /** Every category has the value of its own environment-chosen name, and
      `lc_messages_name` has what fits of its. */
  ghost predicate AllChosen(cfg: Config, env: Env, w: World, w': World) {
    && HasCategories(cfg, w'.names)
    && (forall c | c in w'.names :: Value(cfg, c, Name(cfg, env, c)) == Some(w'.names[c]))
    && w'.messages == if cfg.ownMessages then Truncated(Name(cfg, env, Messages)) else w.messages
  }

  lemma AllChosenUnique(cfg: Config, env: Env, w: World, a: World, b: World)
    requires AllChosen(cfg, env, w, a) && AllChosen(cfg, env, w, b)
    ensures a == b
  {
    assert a.names.Keys == b.names.Keys;
    assert a.names == b.names;
  }

  /** For the C library alone: LC_ALL acceptance implies acceptance by each
      category with the same value. */
  ghost predicate AllImpliesEach(cfg: Config) {
    forall n, c | cfg.sys.acceptAll(n).Some? && Kept(cfg, c) ::
      c in cfg.sys.acceptAll(n).v && cfg.sys.accept(c, n) == Some(cfg.sys.acceptAll(n).v[c])
  }

  ghost predicate AllHasCategories(cfg: Config) {
    forall n | cfg.sys.acceptAll(n).Some? :: HasCategories(cfg, cfg.sys.acceptAll(n).v)
  }

  /** ... and with candidate lists, a name that one category accepts, all do. */
  ghost predicate EachImpliesAll(cfg: Config) {
    forall n, c | Kept(cfg, c) && cfg.sys.accept(c, n).Some? :: cfg.sys.acceptAll(n).Some?
  }

  lemma {:induction false} FirstSameEverywhere(cfg: Config, c: Category, cs: seq<Candidate>)
    requires AllImpliesEach(cfg) && EachImpliesAll(cfg) && Kept(cfg, c)
    ensures match First(cfg.sys, All, map[], cs)
            case Hit(names) => c in names && First(cfg.sys, One(c), map[], cs) == Hit(map[c := names[c]])
            case _ => true
    decreases |cs|
  {
    if cs != [] && cs[0].Try? && cfg.sys.acceptAll(cs[0].name).None? {
      assert cfg.sys.accept(c, cs[0].name).None?;
      FirstSameEverywhere(cfg, c, cs[1..]);
    }
  }

  /** When the assumption on LC_ALL holds of the names that are tried. */
  lemma SystemGivesSameEverywhere(cfg: Config, name: string)
    requires AllImpliesEach(cfg) && AllHasCategories(cfg)
    requires cfg.native ==> EachImpliesAll(cfg)
    ensures SameEverywhere(cfg, name)
  {
    var cs := Tries(cfg, name);
    FirstHasCategories(cfg, cs);
    forall c | Kept(cfg, c) && First(cfg.sys, All, map[], cs).Hit?
      ensures c in First(cfg.sys, All, map[], cs).names && Value(cfg, c, name) == Some(First(cfg.sys, All, map[], cs).names[c])
    {
      if cfg.native {
        FirstSameEverywhere(cfg, c, cs);
      } else {
        FirstSingle(cfg.sys, All, map[], Try(name));
        FirstSingle(cfg.sys, One(c), map[], Try(name));
      }
    }
  }

  lemma {:induction false} FirstHasCategories(cfg: Config, cs: seq<Candidate>)
    requires AllHasCategories(cfg)
    ensures First(cfg.sys, All, map[], cs).Hit? ==> HasCategories(cfg, First(cfg.sys, All, map[], cs).names)
    decreases |cs|
  {
    if cs != [] { FirstHasCategories(cfg, cs[1..]); }
  }

  lemma EveryCategory(c: Category)
    ensures c == Ctype || c in CATEGORIES
    ensures c in [Ctype] + CATEGORIES
  {
    match c
    case Ctype => assert ([Ctype] + CATEGORIES)[0] == c;
    case Numeric => assert CATEGORIES[0] == c && ([Ctype] + CATEGORIES)[1] == c;
    case Time => assert CATEGORIES[1] == c && ([Ctype] + CATEGORIES)[2] == c;
    case Collate => assert CATEGORIES[2] == c && ([Ctype] + CATEGORIES)[3] == c;
    case Monetary => assert CATEGORIES[3] == c && ([Ctype] + CATEGORIES)[4] == c;
    case Messages => assert CATEGORIES[4] == c && ([Ctype] + CATEGORIES)[5] == c;
  }

  lemma SuccessSetsChosenNames(cfg: Config, env: Env, w: World)
    requires SameEverywhere(cfg, Name(cfg, env, Ctype)) && AllSteps(cfg, env, w).r == Succeeded
    ensures AllChosen(cfg, env, w, AllSteps(cfg, env, w).w)
  {
    var base := Name(cfg, env, Ctype);
    FirstAllIgnoresState(cfg.sys, w.names, map[], Tries(cfg, base));
    var names := First(cfg.sys, All, w.names, Tries(cfg, base)).names;
    var cats := Unsettled(cfg, env, CATEGORIES);
    SetEachResult(cfg, env, w.(names := names), cats);
    UnsettledAre(cfg, env);
    SettledAreChosen(cfg, env, w, names, cats, AllSteps(cfg, env, w).w);
  }

  lemma SettledAreChosen(cfg: Config, env: Env, w: World, names: Names, cats: seq<Category>, w': World)
    requires forall c :: c in cats <==> IsUnsettled(cfg, env, c)
    requires Sets(cfg, env, w.(names := names), cats, w')
    requires HasCategories(cfg, names)
    requires forall c | c in names :: Value(cfg, c, Name(cfg, env, Ctype)) == Some(names[c])
    ensures AllChosen(cfg, env, w, w')
  {
    assert cfg.ownMessages ==> IsUnsettled(cfg, env, Messages);
  }

  // ----- The short cut through LC_ALL against setting every category -----

  ghost predicate Agree(e: Effect, f: Effect) {
    && (e.r == Succeeded <==> f.r == Succeeded)
    && (e.r == Succeeded ==> e.w == f.w)
  }

  ghost predicate LcAllAccepts(cfg: Config, name: string) {
    First(cfg.sys, All, map[], Tries(cfg, name)).Hit?
  }

  lemma SeparateResult(cfg: Config, env: Env, w: World)
    ensures SeparateSteps(cfg, env, w).r == Succeeded <==> forall c :: Accepts(cfg, env, c)
    ensures SeparateSteps(cfg, env, w).r == Succeeded && HasCategories(cfg, w.names) ==>
              AllChosen(cfg, env, w, SeparateSteps(cfg, env, w).w)
  {
    var cats := [Ctype] + CATEGORIES;
    forall c: Category ensures c in cats { EveryCategory(c); }
    SetEachResult(cfg, env, w, cats);
    AcceptAllCategories(cfg, env, cats);
    if SetEach(cfg, env, w, cats).r == Succeeded && HasCategories(cfg, w.names) {
      SetsAllCategories(cfg, env, w, cats, SetEach(cfg, env, w, cats).w);
    }
  }

  lemma AcceptAllCategories(cfg: Config, env: Env, cats: seq<Category>)
    requires forall c: Category :: c in cats
    ensures AllAccept(cfg, env, cats) <==> forall c :: Accepts(cfg, env, c)
  {
    if AllAccept(cfg, env, cats) {
      forall c: Category ensures Accepts(cfg, env, c) {
        assert c in cats;
        var i :| 0 <= i < |cats| && cats[i] == c;
      }
    }
  }

  lemma SetsAllCategories(cfg: Config, env: Env, w: World, cats: seq<Category>, w': World)
    requires forall c: Category :: c in cats
    requires Sets(cfg, env, w, cats, w') && HasCategories(cfg, w.names)
    ensures AllChosen(cfg, env, w, w')
  {
  }

  /** LC_ALL accepts the name and does not leave LC_CTYPE with a bad encoding. */
  ghost predicate LcAllSettles(cfg: Config, name: string) {
    LcAllAccepts(cfg, name) && !BadEncoding(cfg, name, First(cfg.sys, All, map[], Tries(cfg, name)).names)
  }

  /** The short cut succeeds exactly when LC_ALL settles the base name and every
      category accepts its own name. */
  lemma FastResult(cfg: Config, env: Env, w: World)
    requires SameEverywhere(cfg, Name(cfg, env, Ctype))
    ensures AllSteps(cfg, env, w).r == Succeeded <==>
            LcAllSettles(cfg, Name(cfg, env, Ctype)) && forall c :: Accepts(cfg, env, c)
  {
    var base := Name(cfg, env, Ctype);
    FirstAllIgnoresState(cfg.sys, w.names, map[], Tries(cfg, base));
    if LcAllSettles(cfg, base) {
      var names := First(cfg.sys, All, w.names, Tries(cfg, base)).names;
      var cats := Unsettled(cfg, env, CATEGORIES);
      SetEachResult(cfg, env, w.(names := names), cats);
      UnsettledAre(cfg, env);
      if AllAccept(cfg, env, cats) {
        UnsettledSuffice(cfg, env, cats, names);
      }
    }
  }

  lemma UnsettledSuffice(cfg: Config, env: Env, cats: seq<Category>, names: Names)
    requires (forall c :: c in cats <==> IsUnsettled(cfg, env, c)) && AllAccept(cfg, env, cats)
    requires HasCategories(cfg, names)
    requires forall c | c in names :: Value(cfg, c, Name(cfg, env, Ctype)) == Some(names[c])
    ensures forall c :: Accepts(cfg, env, c)
  {
    forall c ensures Accepts(cfg, env, c) {
      assert c in cats <==> IsUnsettled(cfg, env, c);
      if c in cats {
        var i :| 0 <= i < |cats| && cats[i] == c;
      } else if !Own(cfg, c) {
        assert Kept(cfg, c) && c in names;
      }
    }
  }

  /** On native Windows, when everything is accepted, the request fails exactly if the
      name asks for an encoding and LC_CTYPE was left at "C". */
  lemma EncodingDecides(cfg: Config, env: Env, w: World, names: Names)
    requires SameEverywhere(cfg, Name(cfg, env, Ctype)) && cfg.native && forall c :: Accepts(cfg, env, c)
    requires First(cfg.sys, All, w.names, Tries(cfg, Name(cfg, env, Ctype))) == Hit(names)
    ensures AllSteps(cfg, env, w).r == Succeeded <==>
            !('.' in Name(cfg, env, Ctype) && Ctype in names && names[Ctype] == "C")
  {
    FirstAllIgnoresState(cfg.sys, w.names, map[], Tries(cfg, Name(cfg, env, Ctype)));
    FastResult(cfg, env, w);
  }

  /** The short cut agrees with setting every category separately exactly when
      LC_ALL settles the LC_CTYPE name or some category rejects its own. */
  lemma ShortCutAgreesExactlyWhen(cfg: Config, env: Env, w: World)
    requires SameEverywhere(cfg, Name(cfg, env, Ctype)) && HasCategories(cfg, w.names)
    ensures Agree(AllSteps(cfg, env, w), SeparateSteps(cfg, env, w)) <==>
            LcAllSettles(cfg, Name(cfg, env, Ctype)) || exists c :: !Accepts(cfg, env, c)
  {
    SeparateResult(cfg, env, w);
    FastResult(cfg, env, w);
    if AllSteps(cfg, env, w).r == Succeeded {
      SameFinalState(cfg, env, w);
    }
  }

  lemma SameFinalState(cfg: Config, env: Env, w: World)
    requires SameEverywhere(cfg, Name(cfg, env, Ctype)) && HasCategories(cfg, w.names)
    requires AllSteps(cfg, env, w).r == Succeeded && SeparateSteps(cfg, env, w).r == Succeeded
    ensures AllSteps(cfg, env, w).w == SeparateSteps(cfg, env, w).w
  {
    SuccessSetsChosenNames(cfg, env, w);
    SeparateResult(cfg, env, w);
    AllChosenUnique(cfg, env, w, AllSteps(cfg, env, w).w, SeparateSteps(cfg, env, w).w);
  }

  function Everywhere(name: string): Names {
    map[Ctype := name, Numeric := name, Time := name, Collate := name, Monetary := name, Messages := name]
  }

  /** They do differ: LC_CTYPE may accept a name that LC_ALL rejects. */
  lemma ShortCutCanFailAlone() returns (cfg: Config, env: Env, w: World)
    ensures SameEverywhere(cfg, Name(cfg, env, Ctype)) && HasCategories(cfg, w.names)
    ensures AllSteps(cfg, env, w).r == Failed && SeparateSteps(cfg, env, w).r == Succeeded
  {
    var sys := System((c: Category, n: string) => if c != Ctype && n == "x" then None else Some(n),
                      (n: string) => if n == "x" then None else Some(Everywhere(n)),
                      (names: Names) => "y");
    cfg := Config(sys, false, false, Platform(false, false), [], [], "C");
    env := map["LC_CTYPE" := "x", "LANG" := "y"];
    w := World(Everywhere("C"), "C");
    assert Name(cfg, env, Ctype) == "x";
    FirstSingle(sys, All, map[], Try("x"));
    FirstSingle(sys, All, w.names, Try("x"));
    forall c ensures Accepts(cfg, env, c) {
      assert c != Ctype ==> Name(cfg, env, c) == "y";
      FirstSingle(sys, One(c), map[], Try(Name(cfg, env, c)));
    }
    SeparateResult(cfg, env, w);
  }

  lemma OriginalNameFirst(cfg: Config, target: Target, st: Names, name: string)
    requires Apply(cfg.sys, st, target, name).Some?
    ensures First(cfg.sys, target, st, Tries(cfg, name)) == Hit(Apply(cfg.sys, st, target, name).v)
  {
    assert Tries(cfg, name)[0] == Try(name);
  }

  /** A C library that turns every name into "C". */
  ghost predicate OnlyC(sys: System) {
    && (forall c, n :: sys.accept(c, n) == Some("C"))
    && (forall n :: sys.acceptAll(n) == Some(Everywhere("C")))
  }

  lemma OnlyCResult(cfg: Config, env: Env, w: World)
    requires cfg.native && !cfg.ownMessages && OnlyC(cfg.sys) && '.' in Name(cfg, env, Ctype)
    ensures SameEverywhere(cfg, Name(cfg, env, Ctype))
    ensures LcAllAccepts(cfg, Name(cfg, env, Ctype)) && forall c :: Accepts(cfg, env, c)
    ensures AllSteps(cfg, env, w).r == Failed
  {
    var base := Name(cfg, env, Ctype);
    OriginalNameFirst(cfg, All, w.names, base);
    OriginalNameFirst(cfg, All, map[], base);
    forall c, n ensures Value(cfg, c, n) == Some("C") {
      OriginalNameFirst(cfg, One(c), map[], n);
    }
    forall c ensures Kept(cfg, c) && c in Everywhere("C") && Everywhere("C")[c] == "C" {
      match c case Ctype => case _ =>
    }
  }

  /** On native Windows also a name that LC_ALL accepts with the wrong encoding. */
  lemma ShortCutCanFailOnEncoding() returns (cfg: Config, env: Env, w: World)
    ensures SameEverywhere(cfg, Name(cfg, env, Ctype)) && HasCategories(cfg, w.names)
    ensures LcAllAccepts(cfg, Name(cfg, env, Ctype)) && forall c :: Accepts(cfg, env, c)
    ensures AllSteps(cfg, env, w).r == Failed && SeparateSteps(cfg, env, w).r == Succeeded
  {
    var sys := System((c: Category, n: string) => Some("C"), (n: string) => Some(Everywhere("C")), (names: Names) => "C");
    cfg := Config(sys, true, false, Platform(false, false), [], [], "de.UTF-8");
    env := map[];
    w := World(Everywhere("C"), "C");
    assert Name(cfg, env, Ctype) == "de.UTF-8";
    assert "de.UTF-8"[2] == '.';
    OnlyCResult(cfg, env, w);
    SeparateResult(cfg, env, w);
  }

  // ----- Rollback -----

  /** What the restoring call makes of the C library's state; the code does not
      make it when the saved name is empty. */
  function RolledBack(sys: System, before: Names, now: Names): Names {
    if sys.show(before) == "" || sys.acceptAll(sys.show(before)).None? then now
    else sys.acceptAll(sys.show(before)).v
  }

  /** The whole request for the default locale.  `saveFails` says whether the old
      locale could not be queried or copied. */
  function DefaultRequest(cfg: Config, env: Env, saveFails: bool, w: World): Effect {
    var e := AllSteps(cfg, env, w);
    if saveFails then Effect(Failed, w)
    else if e.r != Failed then e
    else Effect(Failed, e.w.(names := RolledBack(cfg.sys, w.names, e.w.names)))
  }

  /** What the steps before a failure have set is what was there already: LC_ALL
      rejects the base name, or its values, and those of the categories set one by
      one before the first rejection, are the old ones. */
  ghost predicate NothingToUndo(cfg: Config, env: Env, w: World) {
    var base := Name(cfg, env, Ctype);
    match First(cfg.sys, All, map[], Tries(cfg, base))
    case NoHit => true
    case Abort => true
    case Hit(names) =>
      var done := if BadEncoding(cfg, base, names) then [] else Reached(cfg, env, Unsettled(cfg, env, CATEGORIES));
      forall c :: LeftAlone(cfg, env, names, done, w.names, c)
  }

  /** After LC_ALL set `names` and the categories `done` were set, `c` is as in `old'`. */
  ghost predicate LeftAlone(cfg: Config, env: Env, names: Names, done: seq<Category>, old': Names, c: Category) {
    if c in done && !Own(cfg, c) then c in old' && Value(cfg, c, Name(cfg, env, c)) == Some(old'[c])
    else (c in old' <==> c in names) && (c in names ==> names[c] == old'[c])
  }

  lemma SetsLeavesAlone(cfg: Config, env: Env, w: World, names: Names, done: seq<Category>, w': World)
    requires Sets(cfg, env, w.(names := names), done, w') && w'.messages == w.messages
    ensures w' == w <==> forall c :: LeftAlone(cfg, env, names, done, w.names, c)
  {
    if forall c :: LeftAlone(cfg, env, names, done, w.names, c) {
      forall c ensures c in w'.names <==> c in w.names
               ensures c in w.names && c in w'.names ==> w.names[c] == w'.names[c]
      {
        assert LeftAlone(cfg, env, names, done, w.names, c);
      }
      assert w'.names == w.names;
    }
  }

  lemma StepsLeaveNothing(cfg: Config, env: Env, w: World)
    requires AllSteps(cfg, env, w).r == Failed
    ensures AllSteps(cfg, env, w).w == w <==> NothingToUndo(cfg, env, w)
  {
    var base, cats := Name(cfg, env, Ctype), Unsettled(cfg, env, CATEGORIES);
    FailureIsRecoverable(cfg, env, w);
    FirstAllIgnoresState(cfg.sys, w.names, map[], Tries(cfg, base));
    match First(cfg.sys, All, w.names, Tries(cfg, base))
    case Hit(names) =>
      var w' := AllSteps(cfg, env, w).w;
      var done := if BadEncoding(cfg, base, names) then [] else Reached(cfg, env, cats);
      SetEachResult(cfg, env, w.(names := names), cats);
      assert Sets(cfg, env, w.(names := names), done, w');
      SetsLeavesAlone(cfg, env, w, names, done, w');
    case _ =>
  }

  /** A failed request for the default locale leaves every category and
      `lc_messages_name` as they were exactly when the old locale could not be
      saved, or its name is not empty, or nothing had changed. */
  lemma AllOrNothingExactlyWhen(cfg: Config, env: Env, saveFails: bool, w: World)
    requires Restorable(cfg.sys, w.names) && DefaultRequest(cfg, env, saveFails, w).r == Failed
    ensures DefaultRequest(cfg, env, saveFails, w).w == w <==>
            saveFails || cfg.sys.show(w.names) != "" || NothingToUndo(cfg, env, w)
  {
    if !saveFails {
      FailureIsRecoverable(cfg, env, w);
      StepsLeaveNothing(cfg, env, w);
    }
  }

  lemma RejectedAtOnce(cfg: Config, env: Env, w: World, names: Names)
    requires !cfg.native && cfg.sys.acceptAll(Name(cfg, env, Ctype)) == Some(names)
    requires Name(cfg, env, Numeric) != Name(cfg, env, Ctype)
    requires cfg.sys.accept(Numeric, Name(cfg, env, Numeric)).None?
    ensures AllSteps(cfg, env, w) == Effect(Failed, w.(names := names))
  {
    var base := Name(cfg, env, Ctype);
    FirstSingle(cfg.sys, All, w.names, Try(base));
    FirstSingle(cfg.sys, One(Numeric), names, Try(Name(cfg, env, Numeric)));
    assert Unsettled(cfg, env, CATEGORIES)[0] == Numeric;
  }

  /** The exception is real: with a C library that shows its state as "", a failed
      request can leave LC_CTYPE changed. */
  lemma EmptyNameCanLeaveChanges() returns (cfg: Config, env: Env, w: World)
    ensures Restorable(cfg.sys, w.names) && cfg.sys.show(w.names) == ""
    ensures var e := DefaultRequest(cfg, env, false, w);
            e.r == Failed && Ctype in e.w.names && Ctype in w.names && e.w.names[Ctype] != w.names[Ctype]
  {
    var sys := System((c: Category, n: string) => if n == "bad" then None else Some(n),
                      (n: string) => if n == "bad" then None else Some(if n == "" then Everywhere("C") else Everywhere(n)),
                      (names: Names) => "");
    cfg := Config(sys, false, false, Platform(false, false), [], [], "C");
    env := map["LC_NUMERIC" := "bad", "LANG" := "y"];
    w := World(Everywhere("C"), "C");
    assert Name(cfg, env, Ctype) == "y" && Name(cfg, env, Numeric) == "bad";
    RejectedAtOnce(cfg, env, w, Everywhere("y"));
  }
}
