# Bundler platform selection (`Bundler::GemHelpers`)

A gem can ship several builds. Each build targets a platform: a cpu/os/version
triple such as `x86_64-linux`, or the portable `RUBY` platform. Bundler must
pick which build to install for a target platform. `Bundler::GemHelpers` does
this in four steps:

- It keeps the builds that are compatible with the target. When asked, it keeps
  only the lockfile ones among them.
- It prefers the builds made for exactly the target platform.
- Otherwise it sorts the builds by a specificity score and keeps the leading
  run that ties the best one, on score and on dependencies.
- It maps a platform to its generic bucket (`java`, one of the Windows
  platforms, or `RUBY`) and memoizes that bucket in `GENERIC_CACHE`.

The model is split into modules:

- `Platforms`: the platform datatype and the `GENERICS` constants.
- `PlatformMatch`: the specificity scorer, with its arithmetic lemmas.
- `Sequences`: generic sequence tools. These are `select`, `filter_map`, a
  subsequence relation, and a sort by an integer key.
- `GemHelpers`: the selection pipeline.
- `Generics`: `generic` and the cache. The cache is a class with a `map` field
  that `GenericOf` updates in place.
- `Scenarios`: worked cases on concrete platforms.

Three spec methods come from RubyGems and Bundler code outside this file. They
are `match_platform`, `force_ruby_platform!` and `materialized_for_installation`.
The model gives them as function-valued fields of `GemHelpers.SpecOps` and
assumes nothing about them. `Gem::Platform#===` is likewise the `matches`
field of the cache.

The scorer tests equality (line 93 of `lib/bundler/gem_helpers.rb`) before
it tests for `RUBY` (line 94). So `RUBY` against `RUBY` scores -1, not the
portable sentinel, as `Scenarios.RubyAgainstRubyIsExact` states.

## Model

| member | source | states |
|---|---|---|
| PlatformMatch.OsMatch | lib/bundler/gem_helpers.rb:101-107 | the os component is 0 or 1, and 0 exactly when the two os strings are equal |
| PlatformMatch.CpuMatch | lib/bundler/gem_helpers.rb:109-119 | the cpu component is at most 2; it is 0 exactly for equal cpus or the "arm" case (spec "arm", user cpu text starting with "arm"); it is 2 exactly when the cpus differ, the spec cpu is neither nil nor "universal" and it is not the "arm" case; so 1 exactly for a differing nil or "universal" spec cpu |
| PlatformMatch.PlatformVersionMatch | lib/bundler/gem_helpers.rb:121-129 | the version component is 0 exactly for equal versions, 1 exactly for unequal versions with a nil spec version, and at most 2 |
| PlatformMatch.SpecificityScore | lib/bundler/gem_helpers.rb:92-99 | -1 exactly for an exact match; 1_000_000 exactly for unequal pairs with a nil spec platform or `RUBY` on either side; every other pair scores between 0 and 222 |
| PlatformMatch.Components | lib/bundler/gem_helpers.rb:96-98 | the three components of a concrete pair are bounded by 2, 2 and 1 |
| PlatformMatch.ScoreDigits | lib/bundler/gem_helpers.rb:96-98 | the score of a concrete pair holds os, cpu and version as its units, tens and hundreds digits |
| PlatformMatch.ScoreIsLexicographic | lib/bundler/gem_helpers.rb:96-98 | comparing two concrete scores is comparing their (version, cpu, os) mismatches lexicographically, in both directions, and equal scores mean equal components |
| PlatformMatch.VersionDominates | lib/bundler/gem_helpers.rb:96-129 | a concrete pair with equal versions scores below any concrete pair with different versions, whatever the os and cpu |
| PlatformMatch.ConcreteBeatsPortable | lib/bundler/gem_helpers.rb:93-98 | an exact match scores below a non-exact concrete pair, which scores below any portable pair |
| PlatformMatch.ArmSubArchitecture | lib/bundler/gem_helpers.rb:112-113 | a spec cpu of "arm" costs nothing against any user cpu whose text starts with "arm" |
| Scenarios.RubyAgainstRubyIsExact | lib/bundler/gem_helpers.rb:93-94 | `RUBY` against `RUBY` scores -1, not the sentinel |
| Scenarios.ArmCpuComponent | lib/bundler/gem_helpers.rb:109-119 | "arm" against "arm64" costs 0 and "x86" costs 2; linux-arm against linux-arm64 scores 0 and x86-linux scores 20 |
| GemHelpers.PlatformSpecificityMatch | lib/bundler/gem_helpers.rb:36-40 | the score of a spec platform against the user platform: -1 exactly when they are equal, the sentinel when one of them is `RUBY`, otherwise between 0 and 222 |
| GemHelpers.CompatibleSpecs | lib/bundler/gem_helpers.rb:44-48 | the compatible specs as a subsequence of the input; each one passes the test; every compatible spec keeps its multiplicity |
| GemHelpers.LockedOriginally | lib/bundler/gem_helpers.rb:51 | the locked specs as a subsequence with their multiplicities; empty exactly when none is locked |
| GemHelpers.LockedOriginallyWin | lib/bundler/gem_helpers.rb:50-52 | when a compatible locked spec exists, the locked compatible specs form the selection |
| GemHelpers.AllCompatibleKept | lib/bundler/gem_helpers.rb:55 | with no locked preference in force, all compatible specs form the selection |
| GemHelpers.SelectAllPlatformMatch | lib/bundler/gem_helpers.rb:43-56 | the result is a subsequence of the specs in input order and every element is compatible; with `RUBY` compatibility and a successful `force_ruby_platform!` under force_ruby; if preferLocked and a compatible spec is locked, it holds every locked compatible spec and only those, otherwise every compatible spec |
| GemHelpers.SomeCompatibleKept | lib/bundler/gem_helpers.rb:43-56 | if some spec is compatible, the selection is non-empty, whether or not the locked preference is in force |
| GemHelpers.SortBestPlatformMatch | lib/bundler/gem_helpers.rb:86-88 | a permutation of the input, non-decreasing by score; no order among equal scores is promised |
| GemHelpers.SameSpecificity | lib/bundler/gem_helpers.rb:132-134 | when two specs score the same against a platform, either both are built for exactly that platform or neither is |
| GemHelpers.SameSpecificityMeansSameMismatch | lib/bundler/gem_helpers.rb:92-134 | two specs have the same specificity exactly when both are exact matches, or both are non-exact portable pairs, or both are concrete pairs with the same os, cpu and version mismatches |
| GemHelpers.SameDeps | lib/bundler/gem_helpers.rb:137-141 | specs with the same dependencies have dependency lists of the same length and with the same members |
| GemHelpers.SameDepsIsSortedEquality | lib/bundler/gem_helpers.rb:137-141 | for every total order on dependencies, given as an injective key, `same_deps` holds exactly when the two sorted dependency lists are equal and both required versions are equal |
| GemHelpers.SameDepsIsEquivalence | lib/bundler/gem_helpers.rb:137-141 | `same_deps` is reflexive, symmetric and transitive |
| GemHelpers.TiesReflexive | lib/bundler/gem_helpers.rb:132-141 | every spec ties with itself on score and dependencies |
| GemHelpers.TakeTies | lib/bundler/gem_helpers.rb:82-141 | the `take_while`: a prefix of the sorted list whose every element has the exemplar's score and dependencies, stopping at the first element that does not |
| GemHelpers.TakeTiesStopsAt | lib/bundler/gem_helpers.rb:82 | if the first k specs tie and the next one does not, `take_while` returns exactly the first k specs |
| GemHelpers.ExactMatches | lib/bundler/gem_helpers.rb:76 | the specs built for exactly the platform, as a subsequence with their multiplicities; empty exactly when there is none |
| GemHelpers.OnePlatformAnyOrder | lib/bundler/gem_helpers.rb:86-88 | when all specs are built for one platform, every permutation of them is an order `sort_by` may produce |
| GemHelpers.SortedHeadIsBest | lib/bundler/gem_helpers.rb:79-80 | in every permutation sorted by score, whichever order among equal scores it takes, the first spec has the lowest score of all |
| GemHelpers.TieGroupIsPrefix | lib/bundler/gem_helpers.rb:79-82 | in every permutation sorted by score, the tie group is a non-empty prefix that starts with the first element, and a sub-multiset of the input |
| GemHelpers.TieGroupIsBest | lib/bundler/gem_helpers.rb:79-82 | in every permutation sorted by score, the tie group is maximal, every member ties with the first spec, that spec has the best score of all, and the group is a sub-multiset of the input |
| GemHelpers.SortAndFilterBestPlatformMatch | lib/bundler/gem_helpers.rb:73-83 | a one-element input comes back unchanged; otherwise all exact matches in input order if there is one; otherwise the maximal leading tie group of the sorted list; always a sub-multiset of the input, non-empty when the input is |
| GemHelpers.UniqueExactIsChosen | lib/bundler/gem_helpers.rb:76-77 | when exactly one of several specs is built for the platform, it alone is chosen |
| GemHelpers.ChoiceIsLeadingTies | lib/bundler/gem_helpers.rb:79-82 | with several specs and none exact, the choice is the tie run behind the first sorted spec |
| GemHelpers.TakeTiesAll | lib/bundler/gem_helpers.rb:82 | `take_while` keeps a list whose every element ties with the exemplar |
| GemHelpers.AllTiedAreKept | lib/bundler/gem_helpers.rb:73-83 | when none is exact and all specs tie with each other, none of them is dropped |
| GemHelpers.SelectAllKeepsAll | lib/bundler/gem_helpers.rb:43-56 | with no forced ruby and no locked preference, a list of compatible specs is kept whole and in order |
| GemHelpers.AllTiedCompatibleKept | lib/bundler/gem_helpers.rb:59-83 | compatible specs, none built for exactly the platform and all tying with each other, all come back, each as often as it was given |
| GemHelpers.SelectBestPlatformMatch | lib/bundler/gem_helpers.rb:59-63 | the best choice among the selected compatible specs: every element is compatible, it is a sub-multiset of the specs, and it is non-empty when some spec is compatible |
| GemHelpers.BestChoiceIsCompatible | lib/bundler/gem_helpers.rb:59-63 | narrowing to the best choice keeps only compatible specs |
| GemHelpers.InstallableAreMaterialized | lib/bundler/gem_helpers.rb:67 | everything `filter_map(&:materialized_for_installation)` yields is what some compatible spec materializes into |
| GemHelpers.MaterializedAreInstallable | lib/bundler/gem_helpers.rb:67 | every compatible spec that materializes contributes its materialized spec |
| GemHelpers.SelectBestLocalPlatformMatch | lib/bundler/gem_helpers.rb:66-70 | sorted by score against the local platform; every element comes from a compatible spec, and every compatible spec that materializes contributes its materialized spec |
| Generics.Generic | lib/bundler/gem_helpers.rb:11-18 | the bucket of a platform is `RUBY` or an entry of `GENERICS`, and the bucket of `RUBY` is `RUBY` |
| Generics.FirstMatchIndex | lib/bundler/gem_helpers.rb:13-15 | `find`: the index of the first entry the platform matches, or the length when none does; no earlier entry matches |
| Generics.GenericIsFirstMatch | lib/bundler/gem_helpers.rb:5-18 | `generic(RUBY)` is `RUBY`; otherwise the result is the first entry of `GENERICS` the platform matches, or `RUBY` when it matches none |
| Generics.GenericIsIdempotent | lib/bundler/gem_helpers.rb:6-18 | when each entry of `GENERICS` matches itself and no earlier entry, a bucket is its own bucket |
| Generics.GenericCache.constructor | lib/bundler/gem_helpers.rb:5 | the cache starts with the `RUBY => RUBY` seed only |
| Generics.GenericCache.GenericOf | lib/bundler/gem_helpers.rb:11-18 | returns the bucket of the platform and stores it under that key; no other entry changes; a key already cached is returned as stored and leaves the cache unchanged; the cache invariant is kept |
| Generics.GenericCache.CachedValuesAreBuckets | lib/bundler/gem_helpers.rb:5-18 | every cached value is `RUBY` or an entry of `GENERICS` |
| Scenarios.ExactBuildIsChosen | lib/bundler/gem_helpers.rb:59-83 | among compatible linux-x86_64, linux-arm64 and `RUBY` builds, the linux-arm64 build alone is chosen for linux-arm64 |
| Scenarios.PortableBuildIsChosen | lib/bundler/gem_helpers.rb:59-83 | for x86-mingw32, with only the `RUBY` build compatible beside a java build, the `RUBY` build is chosen |
| Scenarios.EquivalentArmBuildsTie | lib/bundler/gem_helpers.rb:73-141 | two linux-arm builds with the same dependencies both come back for linux-arm64 |
| Scenarios.ArmBuildsTie | lib/bundler/gem_helpers.rb:109-141 | two linux-arm builds with the same dependencies tie with each other against linux-arm64 |
| Scenarios.LinuxArmScoresZero | lib/bundler/gem_helpers.rb:109-119 | a linux-arm build scores 0 against linux-arm64 |
| Scenarios.TieGroupDependsOnOrder | lib/bundler/gem_helpers.rb:79-88 | three specs for one platform where only the third shares the first's dependencies: both `[a, b, c]` and `[a, c, b]` are score orders, and `take_while` yields `[a]` from the first and `[a, c]` from the second |
| Scenarios.EitherOrderIsScoreOrder | lib/bundler/gem_helpers.rb:86-88 | for specs built for one platform, `[a, b, c]` and `[a, c, b]` are both orders `sort_by` may produce |
| Scenarios.OnlyCTiesWithA | lib/bundler/gem_helpers.rb:132-141 | on one platform, a spec ties with itself and with a spec of the same dependencies, but not with one of different dependencies |

## Left out

- `local_platform`, `generic_local_platform` and `generic_local_platform_is_ruby?` read the running environment through `Bundler.local_platform`. `SelectBestLocalPlatformMatch` takes the local platform as a parameter instead.
- `Gem::Platform.new` parses platform strings. It is treated as the identity on already-built platform values, so `PlatformSpecificityMatch` passes its argument through.
- Gem platform parsing and `Gem::Platform#===` belong to RubyGems, which is not part of this model. The values of `JAVA`, `MSWIN`, `MSWIN64` and `UNIVERSAL_MINGW` are the ones RubyGems parses from "java", "mswin32", "mswin64" and "universal-mingw". For "mswin32" that parse fills in the cpu "x86", because no cpu is given and the os ends in "32".
- `spec.match_platform` and `Gem::Platform#===` are uninterpreted parameters. Nothing about which platforms are compatible is modelled.
- `force_ruby_platform!` changes the spec it is called on. Only its boolean result is modelled, through `SpecOps.forceRubyPlatform`.
- `materialized_for_installation` is an abstract function from a spec to an optional spec.
- `same_deps` compares `dependencies.sort` lists. The model compares the dependency lists as multisets. `GemHelpers.SameDepsIsSortedEquality` shows this is the same test as comparing sorted lists, for any total order given as an injective integer key. The order RubyGems defines on dependencies is not modelled.
- A nil user platform is not modelled. A nil spec platform is modelled in `PlatformMatch.SpecificityScore` only, because every spec record carries a platform.
- `GENERIC_CACHE` is a process-wide mutable hash. The model has a single-threaded cache object, so concurrent access is out of scope.
- `GemHelpers.SortBestPlatformMatch`: the model sorts by insertion sort, which happens to be stable. Ruby's `sort_by` is not stable, so the contract promises no order among equal scores.
- GemHelpers.SortAndFilterBestPlatformMatch: its result is computed on the one order the model's sort produces. Ruby's `sort_by` may order equal-score specs differently. When equal-score specs with different dependencies interleave, `take_while` may then return a different tie run, as `Scenarios.TieGroupDependsOnOrder` shows. The facts about the tie run (maximal, tying with the first spec, best score, sub-multiset) are proved for every score order in `GemHelpers.TieGroupIsBest`.
- `GemHelpers.SelectBestLocalPlatformMatch`: membership is stated in both directions, but not how often each materialized spec occurs.
- `GemHelpers.SelectBestPlatformMatch`: the side effect `force_ruby_platform!` has on the chosen specs is not represented.
