/**
 * Worked cases of the selection rules on concrete platforms. The compatibility
 * test stays a parameter; each lemma states only what it needs of it.
 */
module Scenarios {
  import opened Wrappers
  import opened Platforms
  import opened PlatformMatch
  import opened GemHelpers

  const LINUX_X86_64: Platform := Concrete(Some("x86_64"), "linux", None)
  const LINUX_ARM64: Platform := Concrete(Some("arm64"), "linux", None)
  const LINUX_ARM: Platform := Concrete(Some("arm"), "linux", None)
  const X86_MINGW32: Platform := Concrete(Some("x86"), "mingw32", None)

  /** `RUBY` against `RUBY` is an exact match, not the portable sentinel. */
  lemma RubyAgainstRubyIsExact()
    ensures SpecificityScore(Some(Ruby), Ruby) == EXACT_SCORE
  {
  }

  /** An "arm" build costs nothing on the cpu component against "arm64"; an "x86" build costs 2. */
  lemma ArmCpuComponent()
    ensures CpuMatch(Some("arm"), Some("arm64")) == 0
    ensures CpuMatch(Some("x86"), Some("arm64")) == 2
    ensures SpecificityScore(Some(LINUX_ARM), LINUX_ARM64) == 0
    ensures SpecificityScore(Some(Concrete(Some("x86"), "linux", None)), LINUX_ARM64) == 20
  {
    assert "arm" <= "arm64";
  }

  /**
   * Builds for linux-x86_64, linux-arm64 and `RUBY`, all compatible with
   * linux-arm64: the exact linux-arm64 build is the one chosen.
   */
  lemma ExactBuildIsChosen(x86: Spec, arm64: Spec, portable: Spec, ops: SpecOps)
    requires x86.platform == LINUX_X86_64 && arm64.platform == LINUX_ARM64 && portable.platform == Ruby
    requires ops.matchPlatform(x86, LINUX_ARM64)
    requires ops.matchPlatform(arm64, LINUX_ARM64)
    requires ops.matchPlatform(portable, LINUX_ARM64)
    ensures SelectBestPlatformMatch([x86, arm64, portable], LINUX_ARM64, false, false, ops) == [arm64]
  {
    var specs := [x86, arm64, portable];
    SelectAllKeepsAll(specs, LINUX_ARM64, ops);
    UniqueExactIsChosen(specs, LINUX_ARM64, 1);
  }

  /**
   * Builds for java and `RUBY` against x86-mingw32, where only the `RUBY`
   * build is compatible: the `RUBY` build is chosen.
   */
  lemma PortableBuildIsChosen(java: Spec, portable: Spec, ops: SpecOps)
    requires java.platform == JAVA && portable.platform == Ruby
    requires !ops.matchPlatform(java, X86_MINGW32)
    requires ops.matchPlatform(portable, X86_MINGW32)
    ensures SelectBestPlatformMatch([java, portable], X86_MINGW32, false, false, ops) == [portable]
  {
    var specs := [java, portable];
    var matching := SelectAllPlatformMatch(specs, X86_MINGW32, false, false, ops);
    forall x ensures multiset(matching)[x] == multiset{portable}[x] {
      if x != portable {
        assert x !in matching;
      }
    }
    assert multiset(matching) == multiset{portable};
    Sequences.SingletonMultiset(matching, portable);
  }

  /**
   * Two linux-arm builds with the same dependencies against linux-arm64 tie:
   * both come back.
   */
  lemma EquivalentArmBuildsTie(arm1: Spec, arm2: Spec, ops: SpecOps)
    requires arm1.platform == LINUX_ARM && arm2.platform == LINUX_ARM && SameDeps(arm1, arm2)
    requires ops.matchPlatform(arm1, LINUX_ARM64) && ops.matchPlatform(arm2, LINUX_ARM64)
    ensures multiset(SelectBestPlatformMatch([arm1, arm2], LINUX_ARM64, false, false, ops)) == multiset{arm1, arm2}
  {
    ArmBuildsTie(arm1, arm2);
    AllTiedCompatibleKept([arm1, arm2], LINUX_ARM64, ops);
  }

  /**
   * Three builds for the same platform, where `a` and `c` share dependencies
   * and `b` does not: both `[a, b, c]` and `[a, c, b]` are orders `sort_by`
   * may produce, and line 82 takes `[a]` from the first but `[a, c]` from
   * the second. The tie group depends on the order among equal scores.
   */
  lemma TieGroupDependsOnOrder(a: Spec, b: Spec, c: Spec, platform: Platform)
    requires a.platform == b.platform && b.platform == c.platform
    requires SameDeps(a, c) && !SameDeps(a, b)
    ensures IsScoreOrder([a, b, c], [a, b, c], platform) && IsScoreOrder([a, c, b], [a, b, c], platform)
    ensures TakeTies([a, b, c], platform, a) == [a]
    ensures TakeTies([a, c, b], platform, a) == [a, c]
  {
    EitherOrderIsScoreOrder(a, b, c, platform);
    OnlyCTiesWithA(a, b, c, platform);
    TakeTiesStopsAt([a, b, c], platform, a, 1);
    TakeTiesStopsAt([a, c, b], platform, a, 2);
  }

  lemma EitherOrderIsScoreOrder(a: Spec, b: Spec, c: Spec, platform: Platform)
    requires a.platform == b.platform && b.platform == c.platform
    ensures IsScoreOrder([a, b, c], [a, b, c], platform) && IsScoreOrder([a, c, b], [a, b, c], platform)
  {
    OnePlatformAnyOrder([a, b, c], [a, b, c], platform);
    Sequences.SwapLastTwo(a, b, c);
    OnePlatformAnyOrder([a, c, b], [a, b, c], platform);
  }

  lemma OnlyCTiesWithA(a: Spec, b: Spec, c: Spec, platform: Platform)
    requires a.platform == b.platform && b.platform == c.platform
    requires SameDeps(a, c) && !SameDeps(a, b)
    ensures Ties(platform, a, a) && Ties(platform, c, a) && !Ties(platform, b, a)
  {
    SameDepsIsEquivalence(a, c, a);
    SameDepsIsEquivalence(b, a, b);
  }

  /** Two linux-arm builds with the same dependencies tie with each other against linux-arm64. */
  lemma ArmBuildsTie(arm1: Spec, arm2: Spec)
    requires arm1.platform == LINUX_ARM && arm2.platform == LINUX_ARM && SameDeps(arm1, arm2)
    ensures forall x, y :: x in [arm1, arm2] && y in [arm1, arm2] ==> Ties(LINUX_ARM64, x, y)
  {
    LinuxArmScoresZero(arm1);
    LinuxArmScoresZero(arm2);
    SameDepsIsEquivalence(arm1, arm2, arm1);
  }

  /** A linux-arm build scores 0 against linux-arm64. */
  lemma LinuxArmScoresZero(spec: Spec)
    requires spec.platform == LINUX_ARM
    ensures Score(LINUX_ARM64, spec) == 0
  {
    assert "arm" <= "arm64";
  }
}
