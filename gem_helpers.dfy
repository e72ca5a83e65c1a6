/**
 * `Bundler::GemHelpers`: choosing, among the builds of a gem, the ones to
 * install for a target platform. The RubyGems and Bundler methods the pipeline
 * calls on a spec are the fields of `SpecOps`; nothing is assumed about them.
 */
module GemHelpers {
  import opened Wrappers
  import opened Platforms
  import opened PlatformMatch
  import opened Sequences

  /** A runtime dependency of a spec (a `Gem::Dependency`). */
  datatype Dep = Dep(name: string, requirement: string)

  /**
   * A build of a gem. `isLocked` stands for being a `LazySpecification`, a
   * spec that comes from the lockfile; `reqRuby` and `reqRubygems` are its
   * `required_ruby_version` and `required_rubygems_version`.
   */
  datatype Spec = Spec(
    name: string,
    platform: Platform,
    isLocked: bool,
    deps: seq<Dep>,
    reqRuby: string,
    reqRubygems: string)

  /**
   * The spec methods the pipeline calls and does not define:
   * `spec.match_platform(p)`, `spec.force_ruby_platform!` and
   * `spec.materialized_for_installation` (`None` for nil).
   */
  datatype SpecOps = SpecOps(
    matchPlatform: (Spec, Platform) -> bool,
    forceRubyPlatform: Spec -> bool,
    materializedForInstallation: Spec -> Option<Spec>)

  /** `platform_specificity_match`; building the platform with `Gem::Platform.new` is the identity here. */
  function PlatformSpecificityMatch(specPlatform: Platform, userPlatform: Platform): (r: int)
    ensures r == EXACT_SCORE <==> specPlatform == userPlatform
    ensures specPlatform != userPlatform && (specPlatform == Ruby || userPlatform == Ruby) ==> r == PORTABLE_SCORE
    ensures specPlatform != userPlatform && specPlatform != Ruby && userPlatform != Ruby ==> 0 <= r <= MAX_CONCRETE_SCORE
  {
    SpecificityScore(Some(specPlatform), userPlatform)
  }

  /** The score the pipeline sorts a spec by when installing for `platform`. */
  function Score(platform: Platform, spec: Spec): int
  {
    PlatformSpecificityMatch(spec.platform, platform)
  }

  /**
   * The test `select_all_platform_match` keeps a spec by. With `forceRuby`
   * the spec must match `RUBY` and `force_ruby_platform!` must succeed on it.
   */
  predicate Compatible(spec: Spec, platform: Platform, forceRuby: bool, ops: SpecOps)
  {
    if forceRuby then ops.matchPlatform(spec, Ruby) && ops.forceRubyPlatform(spec)
    else ops.matchPlatform(spec, platform)
  }

  /** Whether `prefer_locked` narrows the compatible specs of `specs` to the locked ones. */
  predicate LockedWins(specs: seq<Spec>, platform: Platform, forceRuby: bool, preferLocked: bool, ops: SpecOps)
  {
    preferLocked && exists i :: 0 <= i < |specs| && specs[i].isLocked && Compatible(specs[i], platform, forceRuby, ops)
  }

  /**
   * What `select_all_platform_match` promises: a subsequence of `specs` made
   * of compatible specs; if `prefer_locked` applies, exactly the locked
   * compatible specs, otherwise exactly the compatible specs.
   */
  ghost predicate IsPlatformMatchSelection(r: seq<Spec>, specs: seq<Spec>, platform: Platform, forceRuby: bool, preferLocked: bool, ops: SpecOps)
  {
    && IsSubsequence(r, specs)
    && (forall i :: 0 <= i < |r| ==> Compatible(r[i], platform, forceRuby, ops))
    && if LockedWins(specs, platform, forceRuby, preferLocked, ops) then
         && (forall i :: 0 <= i < |r| ==> r[i].isLocked)
         && forall x: Spec {:trigger multiset(r)[x]} :: x.isLocked && Compatible(x, platform, forceRuby, ops)
              ==> multiset(r)[x] == multiset(specs)[x]
       else
         forall x: Spec {:trigger multiset(r)[x]} :: Compatible(x, platform, forceRuby, ops)
           ==> multiset(r)[x] == multiset(specs)[x]
  }

  /** The first `select` of `select_all_platform_match` (its local `matching`). */
  function CompatibleSpecs(specs: seq<Spec>, platform: Platform, forceRuby: bool, ops: SpecOps): (r: seq<Spec>)
    ensures IsSubsequence(r, specs)
    ensures |r| <= |specs| && multiset(r) <= multiset(specs)
    ensures forall i :: 0 <= i < |r| ==> Compatible(r[i], platform, forceRuby, ops)
    ensures forall x: Spec {:trigger multiset(r)[x]} :: Compatible(x, platform, forceRuby, ops)
              ==> multiset(r)[x] == multiset(specs)[x]
  {
    Select(specs, (spec: Spec) => Compatible(spec, platform, forceRuby, ops))
  }

  /** The locked specs of `matching` (the local `locked_originally`); empty exactly when none is locked. */
  function LockedOriginally(matching: seq<Spec>): (r: seq<Spec>)
    ensures IsSubsequence(r, matching)
    ensures |r| <= |matching| && multiset(r) <= multiset(matching)
    ensures forall i :: 0 <= i < |r| ==> r[i].isLocked
    ensures forall x: Spec {:trigger multiset(r)[x]} :: x.isLocked ==> multiset(r)[x] == multiset(matching)[x]
    ensures |r| == 0 <==> forall i :: 0 <= i < |matching| ==> !matching[i].isLocked
  {
    SelectEmpty(matching, (spec: Spec) => spec.isLocked);
    Select(matching, (spec: Spec) => spec.isLocked)
  }

  lemma LockedOriginallyWin(specs: seq<Spec>, platform: Platform, forceRuby: bool, ops: SpecOps)
    requires |LockedOriginally(CompatibleSpecs(specs, platform, forceRuby, ops))| > 0
    ensures IsPlatformMatchSelection(LockedOriginally(CompatibleSpecs(specs, platform, forceRuby, ops)),
                                     specs, platform, forceRuby, true, ops)
  {
    var matching := CompatibleSpecs(specs, platform, forceRuby, ops);
    var lockedOriginally := LockedOriginally(matching);
    SubsequenceTransitive(lockedOriginally, matching, specs);
    forall i | 0 <= i < |lockedOriginally| ensures lockedOriginally[i] in matching {
      assert lockedOriginally[i] in multiset(lockedOriginally);
    }
    assert LockedWins(specs, platform, forceRuby, true, ops) by {
      assert lockedOriginally[0] in multiset(specs);
    }
  }

  lemma AllCompatibleKept(specs: seq<Spec>, platform: Platform, forceRuby: bool, preferLocked: bool, ops: SpecOps)
    requires preferLocked ==> |LockedOriginally(CompatibleSpecs(specs, platform, forceRuby, ops))| == 0
    ensures IsPlatformMatchSelection(CompatibleSpecs(specs, platform, forceRuby, ops),
                                     specs, platform, forceRuby, preferLocked, ops)
  {
    var matching := CompatibleSpecs(specs, platform, forceRuby, ops);
    forall i | preferLocked && 0 <= i < |specs| && specs[i].isLocked
      ensures !Compatible(specs[i], platform, forceRuby, ops)
    {
      var x := specs[i];
      assert multiset(specs)[x] > 0;
      assert Compatible(x, platform, forceRuby, ops) ==> multiset(matching)[x] > 0;
    }
  }

  /**
   * `select_all_platform_match`: the compatible specs in input order; with
   * `preferLocked`, only the locked ones among them if there are any.
   */
  function SelectAllPlatformMatch(specs: seq<Spec>, platform: Platform, forceRuby: bool, preferLocked: bool, ops: SpecOps): (r: seq<Spec>)
    ensures IsPlatformMatchSelection(r, specs, platform, forceRuby, preferLocked, ops)
    ensures |r| <= |specs| && multiset(r) <= multiset(specs)
  {
    var matching := CompatibleSpecs(specs, platform, forceRuby, ops);
    if preferLocked && |LockedOriginally(matching)| > 0 then
      LockedOriginallyWin(specs, platform, forceRuby, ops);
      LockedOriginally(matching)
    else
      AllCompatibleKept(specs, platform, forceRuby, preferLocked, ops);
      matching
  }

  /** The sort key of `sort_best_platform_match`. */
  function ScoreKey(platform: Platform): Spec -> int
  {
    (spec: Spec) => Score(platform, spec)
  }

  /**
   * The orders Ruby's `sort_by` may produce for `matching`: a permutation of
   * it, ordered by score. `sort_by` is not stable, so specs with equal scores
   * may come in any order.
   */
  ghost predicate IsScoreOrder(sorted: seq<Spec>, matching: seq<Spec>, platform: Platform)
  {
    && multiset(sorted) == multiset(matching)
    && forall i, j :: 0 <= i < j < |sorted| ==> Score(platform, sorted[i]) <= Score(platform, sorted[j])
  }

  /**
   * `sort_best_platform_match`: the specs reordered best first. The model
   * sorts stably, but nothing is promised about the order of specs with
   * equal scores.
   */
  function SortBestPlatformMatch(matching: seq<Spec>, platform: Platform): (r: seq<Spec>)
    ensures forall i, j :: 0 <= i < j < |r| ==> Score(platform, r[i]) <= Score(platform, r[j])
    ensures |r| == |matching| && multiset(r) == multiset(matching)
    ensures forall x :: x in r <==> x in matching
  {
    SortBy(matching, ScoreKey(platform))
  }

  /**
   * `same_specificity`: both specs score the same against `platform`. Only
   * an exact build scores like an exact build.
   */
  predicate SameSpecificity(platform: Platform, spec: Spec, exemplarySpec: Spec)
    ensures SameSpecificity(platform, spec, exemplarySpec) ==>
              (spec.platform == platform <==> exemplarySpec.platform == platform)
  {
    Score(platform, spec) == Score(platform, exemplarySpec)
  }

  /**
   * `same_deps`: the same runtime dependencies in any order, the same
   * required Ruby version and the same required RubyGems version.
   */
  predicate SameDeps(spec: Spec, exemplarySpec: Spec)
    ensures SameDeps(spec, exemplarySpec) ==>
              |spec.deps| == |exemplarySpec.deps| && forall d :: d in spec.deps <==> d in exemplarySpec.deps
  {
    assert forall d :: d in spec.deps <==> d in multiset(spec.deps);
    assert forall d :: d in exemplarySpec.deps <==> d in multiset(exemplarySpec.deps);
    && multiset(spec.deps) == multiset(exemplarySpec.deps)
    && spec.reqRuby == exemplarySpec.reqRuby
    && spec.reqRubygems == exemplarySpec.reqRubygems
  }

  /**
   * Equal scores mean the same kind of match: both exact, both portable, or
   * both concrete with the same os, cpu and version mismatches.
   */
  lemma SameSpecificityMeansSameMismatch(platform: Platform, spec: Spec, exemplarySpec: Spec)
    ensures SameSpecificity(platform, spec, exemplarySpec) <==>
              || (spec.platform == platform && exemplarySpec.platform == platform)
              || (&& spec.platform != platform && IsPortablePair(Some(spec.platform), platform)
                  && exemplarySpec.platform != platform && IsPortablePair(Some(exemplarySpec.platform), platform))
              || (&& IsConcretePair(spec.platform, platform) && IsConcretePair(exemplarySpec.platform, platform)
                  && Components(spec.platform, platform) == Components(exemplarySpec.platform, platform))
  {
    if IsConcretePair(spec.platform, platform) && IsConcretePair(exemplarySpec.platform, platform) {
      ScoreIsLexicographic(spec.platform, platform, exemplarySpec.platform, platform);
    }
  }

  /**
   * `same_deps` compares the sorted dependency lists. For any total order on
   * dependencies, given as an injective integer key, comparing the sorted
   * lists is comparing them as multisets.
   */
  lemma SameDepsIsSortedEquality(spec: Spec, exemplarySpec: Spec, depKey: Dep -> int)
    requires forall d, e :: depKey(d) == depKey(e) ==> d == e
    ensures SameDeps(spec, exemplarySpec) <==>
              && SortBy(spec.deps, depKey) == SortBy(exemplarySpec.deps, depKey)
              && spec.reqRuby == exemplarySpec.reqRuby
              && spec.reqRubygems == exemplarySpec.reqRubygems
  {
    SortIsCanonical(spec.deps, exemplarySpec.deps, depKey);
  }

  /** `SameDeps` is an equivalence, so a tie group does not depend on which member is the exemplar. */
  lemma SameDepsIsEquivalence(a: Spec, b: Spec, c: Spec)
    ensures SameDeps(a, a)
    ensures SameDeps(a, b) ==> SameDeps(b, a)
    ensures SameDeps(a, b) && SameDeps(b, c) ==> SameDeps(a, c)
  {
  }

  /** The condition of the `take_while` in `sort_and_filter_best_platform_match`. */
  predicate Ties(platform: Platform, spec: Spec, exemplarySpec: Spec)
  {
    SameSpecificity(platform, spec, exemplarySpec) && SameDeps(spec, exemplarySpec)
  }

  lemma TiesReflexive(platform: Platform, spec: Spec)
    ensures Ties(platform, spec, spec)
  {
  }

  /** `take_while` over `Ties`: the longest prefix of `sorted` that ties `exemplarySpec`. */
  function TakeTies(sorted: seq<Spec>, platform: Platform, exemplarySpec: Spec): (r: seq<Spec>)
    ensures |r| <= |sorted| && r == sorted[..|r|]
    ensures forall i :: 0 <= i < |r| ==> Ties(platform, r[i], exemplarySpec)
    ensures |r| < |sorted| ==> !Ties(platform, sorted[|r|], exemplarySpec)
    decreases |sorted|
  {
    if sorted == [] || !Ties(platform, sorted[0], exemplarySpec) then []
    else [sorted[0]] + TakeTies(sorted[1..], platform, exemplarySpec)
  }

  /** `take_while` stops exactly at the first spec that does not tie. */
  lemma {:induction false} TakeTiesStopsAt(sorted: seq<Spec>, platform: Platform, exemplarySpec: Spec, k: nat)
    requires k <= |sorted|
    requires forall i :: 0 <= i < k ==> Ties(platform, sorted[i], exemplarySpec)
    requires k < |sorted| ==> !Ties(platform, sorted[k], exemplarySpec)
    ensures TakeTies(sorted, platform, exemplarySpec) == sorted[..k]
    decreases k
  {
    if k > 0 {
      assert Ties(platform, sorted[0], exemplarySpec);
      TakeTiesStopsAt(sorted[1..], platform, exemplarySpec, k - 1);
      assert sorted[..k] == [sorted[0]] + sorted[1..][..k - 1];
    }
  }

  /** Some spec of `matching` is built for exactly `platform`. */
  predicate HasExact(matching: seq<Spec>, platform: Platform)
  {
    exists i :: 0 <= i < |matching| && matching[i].platform == platform
  }

  /** The specs of `matching` built for exactly `platform` (the local `exact`); empty exactly when there are none. */
  function ExactMatches(matching: seq<Spec>, platform: Platform): (r: seq<Spec>)
    ensures IsSubsequence(r, matching)
    ensures |r| <= |matching| && multiset(r) <= multiset(matching)
    ensures forall i :: 0 <= i < |r| ==> r[i].platform == platform
    ensures forall x: Spec {:trigger multiset(r)[x]} :: x.platform == platform ==> multiset(r)[x] == multiset(matching)[x]
    ensures |r| == 0 <==> !HasExact(matching, platform)
  {
    SelectEmpty(matching, (spec: Spec) => spec.platform == platform);
    Select(matching, (spec: Spec) => spec.platform == platform)
  }

  /** Builds for one platform all score alike, so every order of them is a score order. */
  lemma OnePlatformAnyOrder(sorted: seq<Spec>, matching: seq<Spec>, platform: Platform)
    requires multiset(sorted) == multiset(matching)
    requires forall i :: 0 <= i < |sorted| ==> sorted[i].platform == sorted[0].platform
    ensures IsScoreOrder(sorted, matching, platform)
  {
    forall i, j | 0 <= i < j < |sorted| ensures Score(platform, sorted[i]) <= Score(platform, sorted[j]) {
      assert sorted[i].platform == sorted[j].platform;
    }
  }

  /**
   * `r` is the run line 82 takes from `sorted`: the leading specs that tie
   * the first one on score and dependencies, up to the first that does not.
   * The first one has the best score of all.
   */
  ghost predicate IsTieGroupOf(r: seq<Spec>, sorted: seq<Spec>, matching: seq<Spec>, platform: Platform)
  {
    && 0 < |r| <= |sorted|
    && r == sorted[..|r|]
    && (forall i :: 0 <= i < |r| ==> Ties(platform, r[i], r[0]))
    && (|r| < |sorted| ==> !Ties(platform, sorted[|r|], r[0]))
    && forall x :: x in matching ==> Score(platform, r[0]) <= Score(platform, x)
  }

  /**
   * The last rule of `sort_and_filter_best_platform_match`, on the order the
   * model sorts into. `TieGroupIsBest` proves the same facts for every order
   * `sort_by` may produce.
   */
  ghost predicate IsBestTieGroup(r: seq<Spec>, matching: seq<Spec>, platform: Platform)
  {
    IsTieGroupOf(r, SortBestPlatformMatch(matching, platform), matching, platform)
  }

  /**
   * What `sort_and_filter_best_platform_match` promises: a single spec comes
   * back as it is; otherwise all exact matches, in order, if there are any;
   * otherwise the best tie group.
   */
  ghost predicate IsBestPlatformChoice(r: seq<Spec>, matching: seq<Spec>, platform: Platform)
  {
    if |matching| == 1 then r == matching
    else if HasExact(matching, platform) then
      && IsSubsequence(r, matching)
      && (forall i :: 0 <= i < |r| ==> r[i].platform == platform)
      && forall x: Spec {:trigger multiset(r)[x]} :: x.platform == platform ==> multiset(r)[x] == multiset(matching)[x]
    else if |matching| == 0 then r == []
    else IsBestTieGroup(r, matching, platform)
  }

  /** The first spec of any score order has the best score of all. */
  lemma SortedHeadIsBest(matching: seq<Spec>, platform: Platform, sorted: seq<Spec>)
    requires |matching| > 0 && IsScoreOrder(sorted, matching, platform)
    ensures |sorted| == |matching|
    ensures forall x :: x in matching ==> Score(platform, sorted[0]) <= Score(platform, x)
  {
    assert |sorted| == |matching| by {
      assert |multiset(sorted)| == |multiset(matching)|;
    }
    forall x | x in matching ensures Score(platform, sorted[0]) <= Score(platform, x) {
      assert x in multiset(sorted);
      var k :| 0 <= k < |sorted| && sorted[k] == x;
    }
  }

  /** In any score order, the tie group is a non-empty prefix. */
  lemma TieGroupIsPrefix(matching: seq<Spec>, platform: Platform, sorted: seq<Spec>)
    requires |sorted| > 0 && IsScoreOrder(sorted, matching, platform)
    ensures var r := TakeTies(sorted, platform, sorted[0]);
            && 0 < |r| <= |sorted| && r == sorted[..|r|] && r[0] == sorted[0]
            && multiset(r) <= multiset(matching)
  {
    var r := TakeTies(sorted, platform, sorted[0]);
    TiesReflexive(platform, sorted[0]);
    PrefixMultiset(sorted, |r|);
  }

  /** In any score order, `take_while` yields a best tie group. */
  lemma {:induction false} TieGroupIsBest(matching: seq<Spec>, platform: Platform, sorted: seq<Spec>)
    requires |matching| > 0 && IsScoreOrder(sorted, matching, platform)
    ensures |sorted| == |matching|
    ensures var r := TakeTies(sorted, platform, sorted[0]);
            IsTieGroupOf(r, sorted, matching, platform) && multiset(r) <= multiset(matching)
  {
    SortedHeadIsBest(matching, platform, sorted);
    TieGroupIsPrefix(matching, platform, sorted);
  }

  /**
   * `sort_and_filter_best_platform_match`. A single spec is returned as it
   * is. Otherwise the specs built for exactly `platform` win, all of them, in
   * input order. Otherwise the specs are sorted best first and the leading
   * run that ties the first one on score and dependencies is returned.
   */
  function SortAndFilterBestPlatformMatch(matching: seq<Spec>, platform: Platform): (r: seq<Spec>)
    ensures IsBestPlatformChoice(r, matching, platform)
    ensures multiset(r) <= multiset(matching)
    ensures |matching| > 0 ==> |r| > 0
  {
    if |matching| == 1 then matching
    else
      var exact := ExactMatches(matching, platform);
      if |exact| > 0 then exact
      else
        var sortedMatching := SortBestPlatformMatch(matching, platform);
        if sortedMatching == [] then []
        else
          var exemplarySpec := sortedMatching[0];
          TieGroupIsBest(matching, platform, sortedMatching);
          TakeTies(sortedMatching, platform, exemplarySpec)
  }

  /** When exactly one of several specs is built for `platform`, that spec alone is chosen. */
  lemma UniqueExactIsChosen(matching: seq<Spec>, platform: Platform, i: nat)
    requires |matching| != 1 && i < |matching| && matching[i].platform == platform
    requires forall j :: 0 <= j < |matching| && j != i ==> matching[j].platform != platform
    ensures SortAndFilterBestPlatformMatch(matching, platform) == [matching[i]]
  {
    var r := SortAndFilterBestPlatformMatch(matching, platform);
    var m := matching[i];
    assert HasExact(matching, platform);
    CountOfUnique(matching, i);
    forall x ensures multiset(r)[x] == multiset{m}[x] {
      if x.platform != platform {
        assert x !in r;
      } else if x != m {
        assert x !in matching;
      }
    }
    assert multiset(r) == multiset{m};
    SingletonMultiset(r, m);
  }

  /** Several specs, none exact: the choice is the leading tie group of the sorted list. */
  lemma ChoiceIsLeadingTies(matching: seq<Spec>, platform: Platform)
    requires |matching| > 1 && !HasExact(matching, platform)
    ensures var sorted := SortBestPlatformMatch(matching, platform);
      SortAndFilterBestPlatformMatch(matching, platform) == TakeTies(sorted, platform, sorted[0])
  {
    assert |ExactMatches(matching, platform)| == 0;
  }

  /** A list whose every spec ties with the exemplar is taken whole. */
  lemma TakeTiesAll(sorted: seq<Spec>, platform: Platform, exemplarySpec: Spec)
    requires forall i :: 0 <= i < |sorted| ==> Ties(platform, sorted[i], exemplarySpec)
    ensures TakeTies(sorted, platform, exemplarySpec) == sorted
  {
  }

  /** When no spec is exact and all of them tie with each other, none is dropped. */
  lemma AllTiedAreKept(matching: seq<Spec>, platform: Platform)
    requires |matching| != 1 && !HasExact(matching, platform)
    requires forall x, y :: x in matching && y in matching ==> Ties(platform, x, y)
    ensures multiset(SortAndFilterBestPlatformMatch(matching, platform)) == multiset(matching)
  {
    if |matching| > 0 {
      var sorted := SortBestPlatformMatch(matching, platform);
      forall i | 0 <= i < |sorted| ensures Ties(platform, sorted[i], sorted[0]) {
        assert sorted[i] in matching && sorted[0] in matching;
      }
      TakeTiesAll(sorted, platform, sorted[0]);
      ChoiceIsLeadingTies(matching, platform);
    }
  }

  /** With no locked spec in play, a list of compatible specs is kept whole. */
  lemma SelectAllKeepsAll(specs: seq<Spec>, platform: Platform, ops: SpecOps)
    requires forall i :: 0 <= i < |specs| ==> ops.matchPlatform(specs[i], platform)
    ensures SelectAllPlatformMatch(specs, platform, false, false, ops) == specs
  {
    var r := SelectAllPlatformMatch(specs, platform, false, false, ops);
    assert multiset(r) == multiset(specs) by {
      forall x ensures multiset(r)[x] == multiset(specs)[x] {
        if x in specs {
          var i :| 0 <= i < |specs| && specs[i] == x;
        } else {
          assert x !in multiset(r);
        }
      }
    }
    SubsequenceOfSameSize(r, specs);
  }

  /** Compatible specs, none exact, all tying with each other: all of them are chosen. */
  lemma AllTiedCompatibleKept(specs: seq<Spec>, platform: Platform, ops: SpecOps)
    requires forall i :: 0 <= i < |specs| ==> ops.matchPlatform(specs[i], platform)
    requires |specs| != 1 && !HasExact(specs, platform)
    requires forall x, y :: x in specs && y in specs ==> Ties(platform, x, y)
    ensures multiset(SelectBestPlatformMatch(specs, platform, false, false, ops)) == multiset(specs)
  {
    SelectAllKeepsAll(specs, platform, ops);
    AllTiedAreKept(specs, platform);
  }

  /**
   * `select_best_platform_match`: the compatible specs narrowed to the best
   * ones. The result is never empty when some spec is compatible.
   */
  function SelectBestPlatformMatch(specs: seq<Spec>, platform: Platform, forceRuby: bool, preferLocked: bool, ops: SpecOps): (r: seq<Spec>)
    ensures IsBestPlatformChoice(r, SelectAllPlatformMatch(specs, platform, forceRuby, preferLocked, ops), platform)
    ensures multiset(r) <= multiset(specs)
    ensures forall i :: 0 <= i < |r| ==> Compatible(r[i], platform, forceRuby, ops)
    ensures (exists i :: 0 <= i < |specs| && Compatible(specs[i], platform, forceRuby, ops)) ==> |r| > 0
  {
    var matching := SelectAllPlatformMatch(specs, platform, forceRuby, preferLocked, ops);
    BestChoiceIsCompatible(matching, platform, forceRuby, ops);
    SomeCompatibleKept(specs, platform, forceRuby, preferLocked, ops);
    SortAndFilterBestPlatformMatch(matching, platform)
  }

  lemma BestChoiceIsCompatible(matching: seq<Spec>, platform: Platform, forceRuby: bool, ops: SpecOps)
    requires forall i :: 0 <= i < |matching| ==> Compatible(matching[i], platform, forceRuby, ops)
    ensures var r := SortAndFilterBestPlatformMatch(matching, platform);
            forall i :: 0 <= i < |r| ==> Compatible(r[i], platform, forceRuby, ops)
  {
    var r := SortAndFilterBestPlatformMatch(matching, platform);
    forall i | 0 <= i < |r| ensures Compatible(r[i], platform, forceRuby, ops) {
      assert r[i] in multiset(matching);
      var k :| 0 <= k < |matching| && matching[k] == r[i];
    }
  }

  /** `select_all_platform_match` keeps something whenever some spec is compatible. */
  lemma SomeCompatibleKept(specs: seq<Spec>, platform: Platform, forceRuby: bool, preferLocked: bool, ops: SpecOps)
    ensures (exists i :: 0 <= i < |specs| && Compatible(specs[i], platform, forceRuby, ops)) ==>
              |SelectAllPlatformMatch(specs, platform, forceRuby, preferLocked, ops)| > 0
  {
    var matching := SelectAllPlatformMatch(specs, platform, forceRuby, preferLocked, ops);
    if !exists i :: 0 <= i < |specs| && Compatible(specs[i], platform, forceRuby, ops) {
    } else if LockedWins(specs, platform, forceRuby, preferLocked, ops) {
      var j :| 0 <= j < |specs| && specs[j].isLocked && Compatible(specs[j], platform, forceRuby, ops);
      assert multiset(matching)[specs[j]] == multiset(specs)[specs[j]] > 0;
    } else {
      var i :| 0 <= i < |specs| && Compatible(specs[i], platform, forceRuby, ops);
      assert multiset(matching)[specs[i]] == multiset(specs)[specs[i]] > 0;
    }
  }

  /** `installed` is what a compatible spec of `specs` materializes into. */
  predicate MaterializedFrom(installed: Spec, specs: seq<Spec>, platform: Platform, forceRuby: bool, ops: SpecOps)
  {
    exists j :: 0 <= j < |specs| && Compatible(specs[j], platform, forceRuby, ops)
                && ops.materializedForInstallation(specs[j]) == Some(installed)
  }

  /** Everything `filter_map(&:materialized_for_installation)` yields comes from a compatible spec. */
  lemma InstallableAreMaterialized(specs: seq<Spec>, localPlatform: Platform, forceRuby: bool, ops: SpecOps)
    ensures var matching := SelectAllPlatformMatch(specs, localPlatform, forceRuby, false, ops);
            var installable := FilterMap(matching, ops.materializedForInstallation);
            && |installable| <= |specs|
            && forall y :: y in installable ==> MaterializedFrom(y, specs, localPlatform, forceRuby, ops)
  {
    var matching := SelectAllPlatformMatch(specs, localPlatform, forceRuby, false, ops);
    var installable := FilterMap(matching, ops.materializedForInstallation);
    forall y | y in installable ensures MaterializedFrom(y, specs, localPlatform, forceRuby, ops) {
      var i :| 0 <= i < |installable| && installable[i] == y;
      var m :| 0 <= m < |matching| && ops.materializedForInstallation(matching[m]) == Some(installable[i]);
      assert matching[m] in multiset(specs);
      var j :| 0 <= j < |specs| && specs[j] == matching[m];
    }
  }

  /** Every compatible spec that materializes contributes its materialized spec. */
  lemma MaterializedAreInstallable(specs: seq<Spec>, localPlatform: Platform, forceRuby: bool, ops: SpecOps)
    ensures var matching := SelectAllPlatformMatch(specs, localPlatform, forceRuby, false, ops);
            var installable := FilterMap(matching, ops.materializedForInstallation);
            forall j :: 0 <= j < |specs| && Compatible(specs[j], localPlatform, forceRuby, ops)
              && ops.materializedForInstallation(specs[j]).Some?
              ==> ops.materializedForInstallation(specs[j]).value in installable
  {
    var matching := SelectAllPlatformMatch(specs, localPlatform, forceRuby, false, ops);
    forall j | 0 <= j < |specs| && Compatible(specs[j], localPlatform, forceRuby, ops)
      ensures specs[j] in matching
    {
      assert multiset(matching)[specs[j]] == multiset(specs)[specs[j]] > 0;
    }
  }

  /**
   * `select_best_local_platform_match`, with the local platform passed in:
   * every compatible spec that materializes for installation, materialized,
   * best first against the local platform.
   */
  function SelectBestLocalPlatformMatch(specs: seq<Spec>, localPlatform: Platform, forceRuby: bool, ops: SpecOps): (r: seq<Spec>)
    ensures forall i, j :: 0 <= i < j < |r| ==> Score(localPlatform, r[i]) <= Score(localPlatform, r[j])
    ensures |r| <= |specs|
    ensures forall i :: 0 <= i < |r| ==> MaterializedFrom(r[i], specs, localPlatform, forceRuby, ops)
    ensures forall j :: 0 <= j < |specs| && Compatible(specs[j], localPlatform, forceRuby, ops)
              && ops.materializedForInstallation(specs[j]).Some?
              ==> ops.materializedForInstallation(specs[j]).value in r
  {
    var matching := SelectAllPlatformMatch(specs, localPlatform, forceRuby, false, ops);
    var installable := FilterMap(matching, ops.materializedForInstallation);
    InstallableAreMaterialized(specs, localPlatform, forceRuby, ops);
    MaterializedAreInstallable(specs, localPlatform, forceRuby, ops);
    SortBestPlatformMatch(installable, localPlatform)
  }
}
