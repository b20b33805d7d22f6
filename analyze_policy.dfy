/**
  The execution-policy trait resolver of Kokkos (core/src/impl/Kokkos_AnalyzePolicy.hpp).

  A policy such as `RangePolicy<Serial, IndexType<int>, TagA>` is analysed by
  peeling its template arguments one at a time.  `void` arguments are skipped;
  every other argument is offered to the catalog of trait specifications in
  catalog order, and the first specification whose matcher accepts it mixes
  its setting in on top of the analysis of the arguments that follow.  An
  argument no specification accepts is a compile error.  Once the arguments
  are exhausted, every specification contributes its defaults.  Finally the
  index type is derived: a defaulted index type is the execution space's
  `size_type`.

  The C++ recursion is over types; here it is over a sequence of arguments.
  The catalog's order, its matcher and the facts about concrete types live in
  headers that are not part of this model, so they are parameters.
*/
module AnalyzePolicy {
  import opened Wrappers

  /** The trait categories the library recognises, one per trait specification. */
  datatype Category =
    | ExecutionSpace
    | GraphKernel
    | IndexType
    | IterationPattern
    | LaunchBounds
    | OccupancyControl
    | Schedule
    | WorkItemProperty
    | WorkTag

  /** One template argument of a policy: `void`, or any other type `t`. */
  datatype Arg<T> = Void | Trait(t: T)

  /** What the analysis knows about one category: still the default of its
      `base_traits` (its `*_is_defaulted` flag is true), or set from argument `t`. */
  datatype Setting<T> = Defaulted | Given(t: T)

  /** The composed analysis: one setting per category of the catalog. */
  type Config<T> = map<Category, Setting<T>>

  /** `execution_policy_trait_specifications`, in its declared order, and
      `PolicyTraitMatcher<Spec, Trait>::value` as `matches(spec, trait)`. */
  datatype Catalog<!T> = Catalog(specs: seq<Category>, matches: (Category, T) -> bool)

  function Categories(specs: seq<Category>): set<Category>
  {
    set c | c in specs
  }

  //============================================================================
  // The analysis, one function per group of specialisations
  //============================================================================

  /** `AnalyzeExecPolicyBaseTraits<type_list<Specs...>>`: inherit every
      specification's `base_traits`, so every category starts out defaulted. */
  function AnalyzeExecPolicyBaseTraits<T>(specs: seq<Category>): (cfg: Config<T>)
    ensures cfg.Keys == Categories(specs)
    ensures forall c | c in cfg :: cfg[c] == Defaulted
  {
    map c | c in specs :: Defaulted
  }

  /** `TraitSpec::mixin_matching_trait<Trait, Base>`: a class derived from
      `Base` whose members for category `c` hide those of `Base`. */
  function MixinMatchingTrait<T>(c: Category, t: T, base: Config<T>): (cfg: Config<T>)
    ensures cfg.Keys == base.Keys + {c}
    ensures cfg[c] == Given(t)
    ensures forall d | d in base && d != c :: cfg[d] == base[d]
  {
    base[c := Given(t)]
  }

  /** Mixing in on top of an analysis that may itself have failed. */
  function Layered<T>(c: Category, t: T, base: Option<Config<T>>): Option<Config<T>>
  {
    match base
    case None => None
    case Some(b) => Some(MixinMatchingTrait(c, t, b))
  }

  /** `AnalyzeExecPolicy<void, Traits...>` in its three forms: no arguments left
      (the base traits), a leading `void` (skipped), and any other leading
      argument (handed to the matcher together with the whole catalog). */
  function AnalyzeExecPolicy<T>(cat: Catalog<T>, args: seq<Arg<T>>): (r: Option<Config<T>>)
    ensures r.Some? ==> r.value.Keys == Categories(cat.specs)
    decreases |args|, 0, 0
  {
    if args == [] then Some(AnalyzeExecPolicyBaseTraits(cat.specs))
    else if args[0].Void? then AnalyzeExecPolicy(cat, args[1..])
    else AnalyzeExecPolicyUseMatcher(cat, cat.specs, args[0].t, args[1..])
  }

  /** `AnalyzeExecPolicyUseMatcher<void, type_list<Specs...>, Trait, Traits...>`:
      `specs` is what is left of the catalog for argument `t`.  No
      specification left is the "unknown execution policy trait" error; an
      accepting head mixes `t` over the analysis of `rest`, which starts again
      from the full catalog; a rejecting head is dropped. */
  function AnalyzeExecPolicyUseMatcher<T>(cat: Catalog<T>, specs: seq<Category>, t: T, rest: seq<Arg<T>>)
    : (r: Option<Config<T>>)
    requires Categories(specs) <= Categories(cat.specs)
    ensures r.Some? ==> r.value.Keys == Categories(cat.specs)
    ensures r.Some? ==> exists k :: 0 <= k < |specs| && cat.matches(specs[k], t) && r.value[specs[k]] == Given(t)
    decreases |rest|, 1, |specs|
  {
    if specs == [] then None
    else if cat.matches(specs[0], t) then Layered(specs[0], t, AnalyzeExecPolicy(cat, rest))
    else AnalyzeExecPolicyUseMatcher(cat, specs[1..], t, rest)
  }

  //============================================================================
  // Defaults that depend on other results, and the deprecation warning
  //============================================================================

  /** What the model needs to know about concrete types, all defined outside
      this file:
      - `defaultOf(c)`: the member type category `c`'s `base_traits` installs;
      - `sizeType(s)`: `s::size_type` for an execution space `s`;
      - `indexTypeOf(t)`: `index_type::type` once the index-type trait has
        been mixed in from argument `t` (for `IndexType<I>` that is `I`);
      - `isVoid`, `isEmpty`: `std::is_void`, `std::is_empty`. */
  datatype TypeFacts<!T> = TypeFacts(
    defaultOf: Category -> T,
    sizeType: T -> T,
    indexTypeOf: T -> T,
    isVoid: T -> bool,
    isEmpty: T -> bool)

  /** The member type a resolved category exposes: the argument that set it,
      or its default. */
  function MemberType<T>(facts: TypeFacts<T>, cfg: Config<T>, c: Category): T
    requires c in cfg
  {
    match cfg[c]
    case Given(t) => t
    case Defaulted => facts.defaultOf(c)
  }

  /** The settings of the analysis plus the derived integral `index_type`. */
  datatype Traits<T> = Traits(settings: Config<T>, indexType: T)

  /** `ExecPolicyTraitsWithDefaults<Analysis>`: the `index_type` is
      `IndexType<execution_space::size_type>::type` when the index type was
      defaulted and the stored `index_type::type` otherwise.  Both branches
      name `execution_space` and `index_type`, so a catalog without either
      category does not compile. */
  function ExecPolicyTraitsWithDefaults<T>(facts: TypeFacts<T>, cfg: Config<T>): (r: Option<Traits<T>>)
    ensures r.Some? <==> ExecutionSpace in cfg && IndexType in cfg
    ensures r.Some? ==> r.value.settings == cfg
  {
    if ExecutionSpace !in cfg || IndexType !in cfg then None
    else
      var index :=
        if cfg[IndexType].Defaulted? then facts.sizeType(MemberType(facts, cfg, ExecutionSpace))
        else facts.indexTypeOf(cfg[IndexType].t);
      Some(Traits(cfg, index))
  }

  /** `warn_if_deprecated`: both overloads return true; choosing the deprecated
      one (argument `true`) is what makes the compiler warn. */
  function WarnIfDeprecated(isDeprecated: bool): (ok: bool)
    ensures ok
  {
    true
  }

  /** The outcome of `KOKKOS_IMPL_STATIC_WARNING(cond)`: whether its
      `static_assert` holds and whether a deprecation warning is printed. */
  datatype StaticCheck = StaticCheck(passes: bool, warns: bool)

  function StaticWarning(cond: bool): (s: StaticCheck)
    ensures s.passes
    ensures s.warns == cond
  {
    StaticCheck(WarnIfDeprecated(cond), cond)
  }

  /** A fully analysed policy and whether it drew the deprecated work-tag warning. */
  datatype Policy<T> = Policy(traits: Traits<T>, warnsDeprecatedWorkTag: bool)

  /** `PolicyTraits<Traits...>`: analyse, derive the defaults, and, when the
      deprecated-code switch `deprecatedCode3` is on, check the work tag. */
  function PolicyTraits<T>(cat: Catalog<T>, facts: TypeFacts<T>, deprecatedCode3: bool, args: seq<Arg<T>>)
    : (r: Option<Policy<T>>)
    ensures r.Some? ==> AnalyzeExecPolicy(cat, args).Some?
    ensures r.Some? ==> Some(r.value.traits) == ExecPolicyTraitsWithDefaults(facts, AnalyzeExecPolicy(cat, args).value)
    ensures r.Some? && !deprecatedCode3 ==> !r.value.warnsDeprecatedWorkTag
  {
    match AnalyzeExecPolicy(cat, args)
    case None => None
    case Some(cfg) =>
      match ExecPolicyTraitsWithDefaults(facts, cfg)
      case None => None
      case Some(traits) =>
        if !deprecatedCode3 then Some(Policy(traits, false))
        else if WorkTag !in cfg then None
        else
          var tag := MemberType(facts, cfg, WorkTag);
          var check := StaticWarning(!facts.isEmpty(tag) && !facts.isVoid(tag));
          if check.passes then Some(Policy(traits, check.warns)) else None
  }

  //============================================================================
  // A reference description of the resolution
  //============================================================================

  /** The index of the first catalog entry whose matcher accepts `t`. */
  function FirstMatchIndex<T>(matches: (Category, T) -> bool, specs: seq<Category>, t: T): (r: Option<nat>)
    ensures r.Some? ==> r.value < |specs| && matches(specs[r.value], t)
    ensures r.Some? ==> forall j | 0 <= j < r.value :: !matches(specs[j], t)
    ensures r.None? ==> forall j | 0 <= j < |specs| :: !matches(specs[j], t)
  {
    if specs == [] then None
    else if matches(specs[0], t) then Some(0)
    else
      match FirstMatchIndex(matches, specs[1..], t)
      case None => None
      case Some(k) => Some(k + 1)
  }

  /** The category argument type `t` is filed under, if any. */
  function Resolve<T>(cat: Catalog<T>, t: T): Option<Category>
  {
    match FirstMatchIndex(cat.matches, cat.specs, t)
    case None => None
    case Some(k) => Some(cat.specs[k])
  }

  predicate ResolvesTo<T>(cat: Catalog<T>, a: Arg<T>, c: Category)
  {
    a.Trait? && Resolve(cat, a.t) == Some(c)
  }

  /** Some specification of the catalog accepts `t`. */
  ghost predicate Recognised<T>(cat: Catalog<T>, t: T)
  {
    exists k :: 0 <= k < |cat.specs| && cat.matches(cat.specs[k], t)
  }

  /** `args[i]` is the first argument filed under category `c`. */
  ghost predicate IsEarliestFor<T>(cat: Catalog<T>, args: seq<Arg<T>>, c: Category, i: int)
  {
    && 0 <= i < |args|
    && ResolvesTo(cat, args[i], c)
    && forall j | 0 <= j < i :: !ResolvesTo(cat, args[j], c)
  }

  ghost function ExpectedSetting<T>(cat: Catalog<T>, args: seq<Arg<T>>, c: Category): Setting<T>
  {
    if exists i :: IsEarliestFor(cat, args, c, i) then
      var i :| IsEarliestFor(cat, args, c, i);
      Given(args[i].t)
    else Defaulted
  }

  /** Resolution stated without recursion over layers: it succeeds exactly when
      every non-void argument is recognised, and then each catalog category is
      set by the first argument filed under it, or defaulted. */
  ghost function Expected<T>(cat: Catalog<T>, args: seq<Arg<T>>): Option<Config<T>>
  {
    if forall i | 0 <= i < |args| :: args[i].Trait? ==> Recognised(cat, args[i].t) then
      Some(map c | c in cat.specs :: ExpectedSetting(cat, args, c))
    else None
  }

  //============================================================================
  // Properties of the analysis
  //============================================================================

  lemma ResolvedIffRecognised<T>(cat: Catalog<T>, t: T)
    ensures Resolve(cat, t).Some? <==> Recognised(cat, t)
  {
    if Resolve(cat, t).Some? {
      var k := FirstMatchIndex(cat.matches, cat.specs, t).value;
      assert cat.matches(cat.specs[k], t);
    }
  }

  /** Each argument is offered to the remaining specifications in order; the
      first one that accepts it is the one applied, the ones before it are
      skipped, and none accepting is a failure. */
  lemma {:induction false} UseMatcherAppliesFirstMatch<T>(cat: Catalog<T>, specs: seq<Category>, t: T, rest: seq<Arg<T>>)
    requires Categories(specs) <= Categories(cat.specs)
    ensures AnalyzeExecPolicyUseMatcher(cat, specs, t, rest) ==
              match FirstMatchIndex(cat.matches, specs, t)
              case None => None
              case Some(k) => Layered(specs[k], t, AnalyzeExecPolicy(cat, rest))
    decreases |specs|
  {
    if specs != [] && !cat.matches(specs[0], t) {
      UseMatcherAppliesFirstMatch(cat, specs[1..], t, rest);
    }
  }

  /** After an argument is matched, the arguments after it are analysed against
      the whole catalog again, not against the specifications that followed
      the one that matched. */
  lemma AnalyzeTraitArgument<T>(cat: Catalog<T>, t: T, rest: seq<Arg<T>>)
    ensures AnalyzeExecPolicy(cat, [Trait(t)] + rest) ==
              match Resolve(cat, t)
              case None => None
              case Some(c) => Layered(c, t, AnalyzeExecPolicy(cat, rest))
  {
    assert ([Trait(t)] + rest)[1..] == rest;
    UseMatcherAppliesFirstMatch(cat, cat.specs, t, rest);
  }

  /** An argument filed under category `c` layers `c` over the rest. */
  lemma AnalyzeResolvedArgument<T>(cat: Catalog<T>, t: T, c: Category, rest: seq<Arg<T>>)
    requires Resolve(cat, t) == Some(c)
    ensures AnalyzeExecPolicy(cat, [Trait(t)] + rest) == Layered(c, t, AnalyzeExecPolicy(cat, rest))
  {
    AnalyzeTraitArgument(cat, t, rest);
  }

  lemma FirstMatchIndexIs<T>(matches: (Category, T) -> bool, specs: seq<Category>, t: T, k: nat)
    requires k < |specs| && matches(specs[k], t)
    requires forall j | 0 <= j < k :: !matches(specs[j], t)
    ensures FirstMatchIndex(matches, specs, t) == Some(k)
  {
  }

  /** Concretely: an argument accepted only by a specification that comes
      earlier in the catalog than the one that took the previous argument is
      still recognised. */
  lemma LaterArgumentMayUseEarlierCategory<T>(cat: Catalog<T>, t: T, u: T, i: nat, j: nat)
    requires i < j < |cat.specs|
    requires cat.matches(cat.specs[j], t) && forall k | 0 <= k < j :: !cat.matches(cat.specs[k], t)
    requires cat.matches(cat.specs[i], u) && forall k | 0 <= k < i :: !cat.matches(cat.specs[k], u)
    ensures AnalyzeExecPolicy(cat, [Trait(t), Trait(u)]).Some?
    ensures AnalyzeExecPolicy(cat, [Trait(t), Trait(u)]).value[cat.specs[j]] == Given(t)
    ensures AnalyzeExecPolicy(cat, [Trait(t), Trait(u)]).value[cat.specs[i]] == Given(u)
  {
    FirstMatchIndexIs(cat.matches, cat.specs, t, j);
    FirstMatchIndexIs(cat.matches, cat.specs, u, i);
    var ci, cj := cat.specs[i], cat.specs[j];
    assert ci != cj by {
      assert !cat.matches(ci, t);
    }
    AnalyzeResolvedArgument(cat, u, ci, []);
    AnalyzeResolvedArgument(cat, t, cj, [Trait(u)]);
    assert [Trait(u)] + [] == [Trait(u)];
    assert [Trait(t)] + [Trait(u)] == [Trait(t), Trait(u)];
  }

  /** A `void` argument is ignored wherever it stands. */
  lemma {:induction false} VoidArgumentIgnored<T>(cat: Catalog<T>, front: seq<Arg<T>>, back: seq<Arg<T>>)
    ensures AnalyzeExecPolicy(cat, front + [Void] + back) == AnalyzeExecPolicy(cat, front + back)
    decreases |front|
  {
    if front == [] {
      assert front + [Void] + back == [Void] + back;
      assert front + back == back;
      assert ([Void] + back)[1..] == back;
    } else {
      var tail := front[1..];
      VoidArgumentIgnored(cat, tail, back);
      assert (front + [Void] + back)[0] == front[0] == (front + back)[0];
      assert (front + [Void] + back)[1..] == tail + [Void] + back;
      assert (front + back)[1..] == tail + back;
      if front[0].Trait? {
        UseMatcherAppliesFirstMatch(cat, cat.specs, front[0].t, tail + [Void] + back);
        UseMatcherAppliesFirstMatch(cat, cat.specs, front[0].t, tail + back);
      }
    }
  }

  /** An argument list of nothing but `void` (in particular the empty list)
      resolves, with every catalog category at its default. */
  lemma {:induction false} AllVoidArgumentsGiveDefaults<T>(cat: Catalog<T>, args: seq<Arg<T>>)
    requires forall i | 0 <= i < |args| :: args[i].Void?
    ensures AnalyzeExecPolicy(cat, args).Some?
    ensures AnalyzeExecPolicy(cat, args).value.Keys == Categories(cat.specs)
    ensures forall c | c in cat.specs :: AnalyzeExecPolicy(cat, args).value[c] == Defaulted
    decreases |args|
  {
    if args != [] {
      AllVoidArgumentsGiveDefaults(cat, args[1..]);
    }
  }

  /** The analysis fails exactly when some non-void argument, wherever it
      stands, is accepted by no specification of the catalog. */
  lemma {:induction false} FailsIffUnrecognisedArgument<T>(cat: Catalog<T>, args: seq<Arg<T>>)
    ensures AnalyzeExecPolicy(cat, args).None? <==>
              exists i :: 0 <= i < |args| && args[i].Trait? && !Recognised(cat, args[i].t)
    decreases |args|
  {
    if args != [] {
      var rest := args[1..];
      FailsIffUnrecognisedArgument(cat, rest);
      assert forall i | 0 <= i < |rest| :: rest[i] == args[i + 1];
      if args[0].Trait? {
        UseMatcherAppliesFirstMatch(cat, cat.specs, args[0].t, rest);
        ResolvedIffRecognised(cat, args[0].t);
      }
      if exists i :: 0 <= i < |args| && args[i].Trait? && !Recognised(cat, args[i].t) {
        var i :| 0 <= i < |args| && args[i].Trait? && !Recognised(cat, args[i].t);
        if i > 0 {
          assert rest[i - 1] == args[i];
        }
      }
    }
  }

  /** One step of the analysis, seen from category `c`: the first argument
      sets `c` if it is filed under `c`, and otherwise `c` keeps the setting
      the rest of the arguments give it. */
  lemma HeadStep<T>(cat: Catalog<T>, args: seq<Arg<T>>, c: Category)
    requires args != [] && AnalyzeExecPolicy(cat, args).Some?
    requires c in cat.specs
    ensures AnalyzeExecPolicy(cat, args[1..]).Some?
    ensures AnalyzeExecPolicy(cat, args).value[c] ==
              if ResolvesTo(cat, args[0], c) then Given(args[0].t)
              else AnalyzeExecPolicy(cat, args[1..]).value[c]
  {
    if args[0].Trait? {
      var t, rest := args[0].t, args[1..];
      UseMatcherAppliesFirstMatch(cat, cat.specs, t, rest);
      assert args == [Trait(t)] + rest;
      AnalyzeResolvedArgument(cat, t, Resolve(cat, t).value, rest);
    }
  }

  /** The setting a successful analysis records for a catalog category: it is
      defaulted exactly when no argument is filed under it, and otherwise it is
      the first such argument, whose layer is the outermost. */
  lemma {:induction false} SettingOfCategory<T>(cat: Catalog<T>, args: seq<Arg<T>>, c: Category)
    requires AnalyzeExecPolicy(cat, args).Some?
    requires c in cat.specs
    ensures AnalyzeExecPolicy(cat, args).value[c] == Defaulted <==>
              forall i | 0 <= i < |args| :: !ResolvesTo(cat, args[i], c)
    ensures forall i | IsEarliestFor(cat, args, c, i) :: AnalyzeExecPolicy(cat, args).value[c] == Given(args[i].t)
    decreases |args|
  {
    if args != [] {
      var cfg, rest := AnalyzeExecPolicy(cat, args).value, args[1..];
      HeadStep(cat, args, c);
      if !ResolvesTo(cat, args[0], c) {
        SettingOfCategory(cat, rest, c);
        assert forall i | 0 <= i < |rest| :: rest[i] == args[i + 1];
        forall i | IsEarliestFor(cat, args, c, i)
          ensures cfg[c] == Given(args[i].t)
        {
          assert IsEarliestFor(cat, rest, c, i - 1);
        }
      }
    }
  }

  lemma {:induction false} EarliestExists<T>(cat: Catalog<T>, args: seq<Arg<T>>, c: Category, i: int)
    requires 0 <= i < |args| && ResolvesTo(cat, args[i], c)
    ensures exists e :: IsEarliestFor(cat, args, c, e)
    decreases i
  {
    if j :| 0 <= j < i && ResolvesTo(cat, args[j], c) {
      EarliestExists(cat, args, c, j);
    } else {
      assert IsEarliestFor(cat, args, c, i);
    }
  }

  /** The layered, recursive analysis agrees with the reference description. */
  lemma AnalyzeMatchesReference<T>(cat: Catalog<T>, args: seq<Arg<T>>)
    ensures AnalyzeExecPolicy(cat, args) == Expected(cat, args)
  {
    FailsIffUnrecognisedArgument(cat, args);
    var r := AnalyzeExecPolicy(cat, args);
    if r.Some? {
      var cfg := r.value;
      var expected := map c | c in cat.specs :: ExpectedSetting(cat, args, c);
      forall c | c in cat.specs
        ensures cfg[c] == expected[c]
      {
        SettingOfCategory(cat, args, c);
        if !exists i :: IsEarliestFor(cat, args, c, i) {
          forall i | 0 <= i < |args|
            ensures !ResolvesTo(cat, args[i], c)
          {
            if ResolvesTo(cat, args[i], c) {
              EarliestExists(cat, args, c, i);
            }
          }
        }
      }
      assert cfg == expected;
    }
  }

  lemma AppendRecognisedKeepsOutcome<T>(cat: Catalog<T>, args: seq<Arg<T>>, u: T)
    requires Resolve(cat, u).Some?
    ensures AnalyzeExecPolicy(cat, args + [Trait(u)]).Some? == AnalyzeExecPolicy(cat, args).Some?
  {
    var longer := args + [Trait(u)];
    assert forall j | 0 <= j < |args| :: longer[j] == args[j];
    FailsIffUnrecognisedArgument(cat, args);
    FailsIffUnrecognisedArgument(cat, longer);
    ResolvedIffRecognised(cat, u);
    if j :| 0 <= j < |longer| && longer[j].Trait? && !Recognised(cat, longer[j].t) {
      assert j < |args|;
    }
  }

  lemma DuplicateKeepsSetting<T>(cat: Catalog<T>, args: seq<Arg<T>>, u: T, c: Category, i: int, d: Category)
    requires 0 <= i < |args| && ResolvesTo(cat, args[i], c)
    requires Resolve(cat, u) == Some(c)
    requires AnalyzeExecPolicy(cat, args).Some? && AnalyzeExecPolicy(cat, args + [Trait(u)]).Some?
    requires d in cat.specs
    ensures AnalyzeExecPolicy(cat, args + [Trait(u)]).value[d] == AnalyzeExecPolicy(cat, args).value[d]
  {
    var longer := args + [Trait(u)];
    assert forall j | 0 <= j < |args| :: longer[j] == args[j];
    SettingOfCategory(cat, args, d);
    SettingOfCategory(cat, longer, d);
    if j :| 0 <= j < |args| && ResolvesTo(cat, args[j], d) {
      EarliestExists(cat, args, d, j);
      var e :| IsEarliestFor(cat, args, d, e);
      assert IsEarliestFor(cat, longer, d, e);
    } else {
      assert !ResolvesTo(cat, longer[|args|], d);
    }
  }

  /** Appending an argument filed under a category that an earlier argument
      already set changes nothing: the earlier argument's layer hides it. */
  lemma LaterDuplicateIsHidden<T>(cat: Catalog<T>, args: seq<Arg<T>>, u: T, c: Category, i: int)
    requires 0 <= i < |args| && ResolvesTo(cat, args[i], c)
    requires Resolve(cat, u) == Some(c)
    ensures AnalyzeExecPolicy(cat, args + [Trait(u)]) == AnalyzeExecPolicy(cat, args)
  {
    AppendRecognisedKeepsOutcome(cat, args, u);
    var r, r' := AnalyzeExecPolicy(cat, args), AnalyzeExecPolicy(cat, args + [Trait(u)]);
    if r.Some? {
      forall d | d in cat.specs
        ensures r'.value[d] == r.value[d]
      {
        DuplicateKeepsSetting(cat, args, u, c, i, d);
      }
      assert r'.value == r.value;
    }
  }

  lemma LayersCommute<T>(ca: Category, a: T, cb: Category, b: T, base: Option<Config<T>>)
    requires ca != cb
    ensures Layered(ca, a, Layered(cb, b, base)) == Layered(cb, b, Layered(ca, a, base))
  {
    if base.Some? {
      assert base.value[cb := Given(b)][ca := Given(a)] == base.value[ca := Given(a)][cb := Given(b)];
    }
  }

  /** Two neighbouring arguments filed under different categories may be given
      in either order. */
  lemma AdjacentArgumentsCommute<T>(cat: Catalog<T>, a: T, b: T, rest: seq<Arg<T>>)
    requires Resolve(cat, a).Some? && Resolve(cat, b).Some?
    requires Resolve(cat, a) != Resolve(cat, b)
    ensures AnalyzeExecPolicy(cat, [Trait(a), Trait(b)] + rest) ==
            AnalyzeExecPolicy(cat, [Trait(b), Trait(a)] + rest)
  {
    var ca, cb := Resolve(cat, a).value, Resolve(cat, b).value;
    var base := AnalyzeExecPolicy(cat, rest);
    var ar, br := [Trait(a)] + rest, [Trait(b)] + rest;
    calc {
      AnalyzeExecPolicy(cat, [Trait(a), Trait(b)] + rest);
      { assert [Trait(a), Trait(b)] + rest == [Trait(a)] + br; }
      AnalyzeExecPolicy(cat, [Trait(a)] + br);
      { AnalyzeResolvedArgument(cat, a, ca, br); }
      Layered(ca, a, AnalyzeExecPolicy(cat, br));
      { AnalyzeResolvedArgument(cat, b, cb, rest); }
      Layered(ca, a, Layered(cb, b, base));
      { LayersCommute(ca, a, cb, b, base); }
      Layered(cb, b, Layered(ca, a, base));
      { AnalyzeResolvedArgument(cat, a, ca, rest); }
      Layered(cb, b, AnalyzeExecPolicy(cat, ar));
      { AnalyzeResolvedArgument(cat, b, cb, ar); }
      AnalyzeExecPolicy(cat, [Trait(b)] + ar);
      { assert [Trait(b), Trait(a)] + rest == [Trait(b)] + ar; }
      AnalyzeExecPolicy(cat, [Trait(b), Trait(a)] + rest);
    }
  }

  //============================================================================
  // Properties of the final traits
  //============================================================================

  /** With no argument filed under the index-type category, the index type is
      the `size_type` of the execution space: the first argument filed under
      the execution-space category, or the default execution space. */
  lemma DefaultedIndexTypeFollowsExecutionSpace<T>(
    cat: Catalog<T>, facts: TypeFacts<T>, deprecatedCode3: bool, args: seq<Arg<T>>)
    requires ExecutionSpace in cat.specs && IndexType in cat.specs
    requires deprecatedCode3 ==> WorkTag in cat.specs
    requires AnalyzeExecPolicy(cat, args).Some?
    requires forall i | 0 <= i < |args| :: !ResolvesTo(cat, args[i], IndexType)
    ensures PolicyTraits(cat, facts, deprecatedCode3, args).Some?
    ensures (forall i | 0 <= i < |args| :: !ResolvesTo(cat, args[i], ExecutionSpace)) ==>
              PolicyTraits(cat, facts, deprecatedCode3, args).value.traits.indexType
                == facts.sizeType(facts.defaultOf(ExecutionSpace))
    ensures forall e | IsEarliestFor(cat, args, ExecutionSpace, e) ::
              PolicyTraits(cat, facts, deprecatedCode3, args).value.traits.indexType
                == facts.sizeType(args[e].t)
  {
    SettingOfCategory(cat, args, IndexType);
    SettingOfCategory(cat, args, ExecutionSpace);
  }

  /** With an argument filed under the index-type category, the index type is
      the integral type unwrapped from the first such argument. */
  lemma GivenIndexTypeIsUnwrapped<T>(
    cat: Catalog<T>, facts: TypeFacts<T>, deprecatedCode3: bool, args: seq<Arg<T>>, e: int)
    requires ExecutionSpace in cat.specs && IndexType in cat.specs
    requires deprecatedCode3 ==> WorkTag in cat.specs
    requires AnalyzeExecPolicy(cat, args).Some?
    requires IsEarliestFor(cat, args, IndexType, e)
    ensures PolicyTraits(cat, facts, deprecatedCode3, args).Some?
    ensures PolicyTraits(cat, facts, deprecatedCode3, args).value.traits.indexType == facts.indexTypeOf(args[e].t)
  {
    SettingOfCategory(cat, args, IndexType);
  }

  /** The deprecated work-tag check never rejects a policy and changes none of
      its traits: with the switch on, the policy resolves exactly when it does
      with the switch off, and it warns exactly when its work tag is neither
      an empty class nor `void`. */
  lemma DeprecationCheckNeverRejects<T>(cat: Catalog<T>, facts: TypeFacts<T>, args: seq<Arg<T>>)
    requires WorkTag in cat.specs
    ensures PolicyTraits(cat, facts, true, args).Some? <==> PolicyTraits(cat, facts, false, args).Some?
    ensures PolicyTraits(cat, facts, true, args).Some? ==>
              && PolicyTraits(cat, facts, true, args).value.traits == PolicyTraits(cat, facts, false, args).value.traits
              && var tag := MemberType(facts, AnalyzeExecPolicy(cat, args).value, WorkTag);
                 PolicyTraits(cat, facts, true, args).value.warnsDeprecatedWorkTag == (!facts.isEmpty(tag) && !facts.isVoid(tag))
  {
  }
}
