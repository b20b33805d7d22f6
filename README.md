# Kokkos execution-policy trait analysis, modelled in Dafny

Kokkos execution policies such as `RangePolicy<Serial, IndexType<int>, TagA>`
take a variadic list of template arguments. `Kokkos_AnalyzePolicy.hpp` turns that
list into one composed traits type. The composition works like this:

- `void` arguments are skipped.
- Every other argument is offered to the catalog of trait specifications
  (`execution_policy_trait_specifications`) in catalog order. The first
  specification whose `PolicyTraitMatcher` accepts it mixes its setting in
  (`mixin_matching_trait`) over the analysis of the arguments that follow.
  That analysis starts again from the head of the catalog.
- An argument that no specification accepts is a compile error.
- With no arguments left, every specification contributes its `base_traits`
  defaults.
- `ExecPolicyTraitsWithDefaults` then derives the integral `index_type`. A
  defaulted index type is the execution space's `size_type`.
- `PolicyTraits` puts this together. When `KOKKOS_ENABLE_DEPRECATED_CODE_3` is
  on, it also warns about a work tag that is neither an empty class nor `void`.

The model is in two files:

- `wrappers.dfy` holds `Option`. `None` stands for a policy the compiler
  rejects.
- `analyze_policy.dfy` holds module `AnalyzePolicy`. It has one recursive
  function per group of template specialisations, a reference description of
  the result that does not recurse over layers, and lemmas connecting the two.

How the C++ maps onto the model:

- Template arguments become `Arg<T> = Void | Trait(t)`, where `T` stands for
  C++ types.
- The composed class becomes a map from `Category` to
  `Setting = Defaulted | Given(t)`.
- `Defaulted` is the `*_is_defaulted` flag.
- A mixin is a map override. The derived class's members hide the base's, so
  the earliest argument's layer is the outermost one.
- The catalog's order and its matcher are the parameter `Catalog(specs, matches)`.
- The facts about concrete types come from headers outside this model. They are
  the parameter `TypeFacts`: each category's default member type,
  `size_type`, `IndexType<I>::type`, `std::is_void` and `std::is_empty`.

Source and model differ in three places:

- The "all traits matched" specialisation `AnalyzeExecPolicyUseMatcher<void, type_list<>>`
  derives from `AnalyzeExecPolicy<void>`. It is only reachable with no
  argument, and the empty-list case of `AnalyzeExecPolicy` already handles
  that, so the model folds the two together.
- `AnalyzeExecPolicyUseMatcher` with catalog entries left but no argument has
  no specialisation, so it is an incomplete type in C++. The model never forms
  it, because its matcher function always receives an argument.
- A catalog without the execution-space or index-type category (or, with the
  deprecated-code switch on, the work-tag category) leaves the members that
  `ExecPolicyTraitsWithDefaults` or `PolicyTraits` name undefined. The model
  reports this as failure.

## Model

| member | source | states |
|---|---|---|
| `AnalyzePolicy.AnalyzeExecPolicy` | core/src/impl/Kokkos_AnalyzePolicy.hpp:94-139 | A successful analysis holds exactly one setting for each category of the catalog, no more and no fewer. |
| `AnalyzePolicy.AnalyzeExecPolicyUseMatcher` | core/src/impl/Kokkos_AnalyzePolicy.hpp:160-197 | On success, some remaining catalog entry accepted the argument, and the result records the argument as given for that category. Success also yields exactly one setting per catalog category. |
| `AnalyzePolicy.AnalyzeExecPolicyBaseTraits` | core/src/impl/Kokkos_AnalyzePolicy.hpp:74-79 | The base traits hold every catalog category and no other, each marked defaulted. |
| `AnalyzePolicy.MixinMatchingTrait` | core/src/impl/Kokkos_AnalyzePolicy.hpp:164-167 | Mixing in sets the argument's category to the argument and leaves every other category of the base as it was. |
| `AnalyzePolicy.FirstMatchIndex` | core/src/impl/Kokkos_AnalyzePolicy.hpp:160-182 | Returns the index of the first catalog entry that accepts the argument, where every entry before it rejects the argument. Returns nothing exactly when no entry accepts it. |
| `AnalyzePolicy.UseMatcherAppliesFirstMatch` | core/src/impl/Kokkos_AnalyzePolicy.hpp:160-197 | Rejecting entries are skipped, and the first accepting entry is the one applied, over the analysis of the remaining arguments. No accepting entry means failure. |
| `AnalyzePolicy.AnalyzeTraitArgument` | core/src/impl/Kokkos_AnalyzePolicy.hpp:94-102 | A leading argument is resolved against the whole catalog. Its layer wraps the analysis of the remaining arguments, which also uses the whole catalog. |
| `AnalyzePolicy.LaterArgumentMayUseEarlierCategory` | core/src/impl/Kokkos_AnalyzePolicy.hpp:164-167 | Suppose one argument matches a catalog entry and the next argument is accepted only by an earlier entry. Both are still recognised and both settings are recorded. |
| `AnalyzePolicy.VoidArgumentIgnored` | core/src/impl/Kokkos_AnalyzePolicy.hpp:108-117 | Inserting `void` anywhere in the argument list does not change the result. |
| `AnalyzePolicy.AllVoidArgumentsGiveDefaults` | core/src/impl/Kokkos_AnalyzePolicy.hpp:123-128 | An empty or all-`void` argument list succeeds with every catalog category defaulted. |
| `AnalyzePolicy.FailsIffUnrecognisedArgument` | core/src/impl/Kokkos_AnalyzePolicy.hpp:184-197 | The analysis fails if and only if some non-void argument, at any position, is accepted by no catalog entry. |
| `AnalyzePolicy.SettingOfCategory` | core/src/impl/Kokkos_AnalyzePolicy.hpp:160-169 | A category is defaulted if and only if no argument resolves to it. Otherwise it holds the earliest argument that resolves to it. |
| `AnalyzePolicy.AnalyzeMatchesReference` | core/src/impl/Kokkos_AnalyzePolicy.hpp:94-207 | The recursive analysis equals the reference description. That description succeeds exactly when every argument is recognised, and then sets each category to its earliest resolving argument or to its default. |
| `AnalyzePolicy.LaterDuplicateIsHidden` | core/src/impl/Kokkos_AnalyzePolicy.hpp:160-169 | Appending an argument for a category that an earlier argument already set leaves the result unchanged. |
| `AnalyzePolicy.AdjacentArgumentsCommute` | core/src/impl/Kokkos_AnalyzePolicy.hpp:160-169 | Two neighbouring arguments that resolve to different categories can be swapped without changing the result. |
| `AnalyzePolicy.ExecPolicyTraitsWithDefaults` | core/src/impl/Kokkos_AnalyzePolicy.hpp:214-226 | Derivation succeeds if and only if the analysis has both the execution-space and the index-type category, and it keeps the analysis's settings. |
| `AnalyzePolicy.DefaultedIndexTypeFollowsExecutionSpace` | core/src/impl/Kokkos_AnalyzePolicy.hpp:222-225 | With no index-type argument, the index type is the `size_type` of the execution space: the first execution-space argument if there is one, otherwise the default execution space. |
| `AnalyzePolicy.GivenIndexTypeIsUnwrapped` | core/src/impl/Kokkos_AnalyzePolicy.hpp:222-225 | With an index-type argument, the index type is the `::type` unwrapped from the first such argument. |
| `AnalyzePolicy.WarnIfDeprecated` | core/src/impl/Kokkos_AnalyzePolicy.hpp:230-233 | Both overloads return true. |
| `AnalyzePolicy.StaticWarning` | core/src/impl/Kokkos_AnalyzePolicy.hpp:234-236 | The static warning's assertion always holds, and it warns exactly when its condition is true. |
| `AnalyzePolicy.PolicyTraits` | core/src/impl/Kokkos_AnalyzePolicy.hpp:245-255 | A resolved policy comes from a successful analysis, and its traits are that analysis with the derived defaults. With the deprecated-code switch off, it never warns. |
| `AnalyzePolicy.DeprecationCheckNeverRejects` | core/src/impl/Kokkos_AnalyzePolicy.hpp:251-254 | The deprecated work-tag check leaves success and the traits unchanged. It warns exactly when the work tag is neither an empty class nor `void`. |

## Left out

- The concrete trait specifications, `PolicyTraitMatcher`, the bodies of each `mixin_matching_trait` and the catalog's contents and order: they are defined in `traits/*.hpp`, which is not part of this model. They are parameters here. A mixin is modelled only as overriding its own category, so checks a concrete mixin may make (such as rejecting a second execution space) are not modelled.
- The member types a mixin installs: the model assumes a given category exposes the argument itself, except for `index_type`, whose `::type` is the parameter `indexTypeOf`.
- The MSVC empty-base-optimisation workaround, the inherited constructors, and the converting constructor and assignment of `AnalyzeExecPolicy<void>` (lines 126-138). These concern C++ object layout and conversion, not resolution.
- Compiler diagnostics: the text of the unknown-trait `static_assert` and the `show_name_of_invalid_execution_policy_trait` helper, and the deprecation attribute's message. These are modelled only as failure (`None`) or a warning flag.
- `KOKKOS_ENABLE_DEPRECATED_CODE_3`, a build switch, is the parameter `deprecatedCode3`.
- `core/src/.ycm_extra_conf.py`: editor configuration, with no logic.
