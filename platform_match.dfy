/**
 * The specificity score of `Bundler::GemHelpers::PlatformMatch`: how close a
 * spec's platform is to the platform the user installs for. Lower is better.
 */
module PlatformMatch {
  import opened Wrappers
  import opened Platforms

  /** Score of a spec platform equal to the user's platform. */
  const EXACT_SCORE: int := -1

  /** Score when the spec has no platform or either side is `RUBY`. */
  const PORTABLE_SCORE: int := 1_000_000

  /** Largest score two unequal concrete platforms can get: 1 + 2 * 10 + 2 * 100. */
  const MAX_CONCRETE_SCORE: int := 222

  /** `os_match`: 0 for the same os, 1 otherwise. */
  function OsMatch(specOs: string, userOs: string): (r: nat)
    ensures r <= 1
    ensures r == 0 <==> specOs == userOs
  {
    if specOs == userOs then 0 else 1
  }

  /** Ruby's `cpu.to_s`: nil becomes the empty string. */
  function CpuText(cpu: Option<string>): string
  {
    match cpu
    case None => ""
    case Some(c) => c
  }

  /**
   * `cpu_match`: 0 for the same cpu, and also for a spec built for plain "arm"
   * when the user's cpu names an ARM sub-architecture; 1 for a spec without a
   * cpu or built for "universal"; 2 for any other cpu.
   */
  function CpuMatch(specCpu: Option<string>, userCpu: Option<string>): (r: nat)
    ensures r <= 2
    ensures r == 0 <==> specCpu == userCpu || (specCpu == Some("arm") && "arm" <= CpuText(userCpu))
    ensures r == 2 <==> specCpu != userCpu && specCpu.Some? && specCpu.value != "universal"
                        && !(specCpu.value == "arm" && "arm" <= CpuText(userCpu))
  {
    if specCpu == userCpu then 0
    else if specCpu == Some("arm") && "arm" <= CpuText(userCpu) then 0
    else if specCpu.None? || specCpu == Some("universal") then 1
    else 2
  }

  /** `platform_version_match`: 0 for the same version, 1 for a spec without one, 2 otherwise. */
  function PlatformVersionMatch(specVersion: Option<string>, userVersion: Option<string>): (r: nat)
    ensures r <= 2
    ensures r == 0 <==> specVersion == userVersion
    ensures r == 1 <==> specVersion != userVersion && specVersion.None?
  {
    if specVersion == userVersion then 0
    else if specVersion.None? then 1
    else 2
  }

  /** The pairs the sentinel applies to: no spec platform, or `RUBY` on either side. */
  predicate IsPortablePair(spec: Option<Platform>, user: Platform)
  {
    spec.None? || spec == Some(Ruby) || user == Ruby
  }

  /**
   * `specificity_score`. `spec == None` stands for a nil spec platform. The
   * exact-match test comes first, so `RUBY` against `RUBY` scores -1.
   */
  function SpecificityScore(spec: Option<Platform>, user: Platform): (r: int)
    ensures r == EXACT_SCORE <==> spec == Some(user)
    ensures r == PORTABLE_SCORE <==> spec != Some(user) && IsPortablePair(spec, user)
    ensures spec != Some(user) && !IsPortablePair(spec, user) ==> 0 <= r <= MAX_CONCRETE_SCORE
  {
    if spec == Some(user) then -1
    else if spec.None? || spec.value == Ruby || user == Ruby then 1_000_000
    else
      var s := spec.value;
      OsMatch(s.os, user.os)
      + CpuMatch(s.cpu, user.cpu) * 10
      + PlatformVersionMatch(s.version, user.version) * 100
  }

  /** The three component mismatches of a concrete pair, most significant first. */
  datatype Mismatch = Mismatch(version: nat, cpu: nat, os: nat)

  function Components(spec: Platform, user: Platform): (m: Mismatch)
    requires spec.Concrete? && user.Concrete?
    ensures m.version <= 2 && m.cpu <= 2 && m.os <= 1
  {
    Mismatch(PlatformVersionMatch(spec.version, user.version),
             CpuMatch(spec.cpu, user.cpu),
             OsMatch(spec.os, user.os))
  }

  /** Lexicographic order on mismatches: version first, then cpu, then os. */
  predicate LexLess(a: Mismatch, b: Mismatch)
  {
    a.version < b.version
    || (a.version == b.version && a.cpu < b.cpu)
    || (a.version == b.version && a.cpu == b.cpu && a.os < b.os)
  }

  /** A pair of unequal concrete platforms, the pairs the weighted sum applies to. */
  predicate IsConcretePair(spec: Platform, user: Platform)
  {
    spec.Concrete? && user.Concrete? && spec != user
  }

  /**
   * The score of a concrete pair encodes its three components as decimal
   * digits, so the components can be read back from it.
   */
  lemma {:induction false} ScoreDigits(spec: Platform, user: Platform)
    requires IsConcretePair(spec, user)
    ensures var r := SpecificityScore(Some(spec), user);
            var m := Components(spec, user);
            r % 10 == m.os && (r / 10) % 10 == m.cpu && r / 100 == m.version
  {
    var m := Components(spec, user);
    var r := SpecificityScore(Some(spec), user);
    assert r == m.os + m.cpu * 10 + m.version * 100;
    DigitsOf(m.os, m.cpu, m.version);
  }

  lemma DigitsOf(o: nat, c: nat, v: nat)
    requires o <= 1 && c <= 2 && v <= 2
    ensures var r := o + c * 10 + v * 100;
            r % 10 == o && (r / 10) % 10 == c && r / 100 == v
  {
  }

  /**
   * Ranking concrete pairs by score is ranking them lexicographically by
   * (version, cpu, os) mismatch.
   */
  lemma {:induction false} ScoreIsLexicographic(spec1: Platform, user1: Platform, spec2: Platform, user2: Platform)
    requires IsConcretePair(spec1, user1) && IsConcretePair(spec2, user2)
    ensures SpecificityScore(Some(spec1), user1) < SpecificityScore(Some(spec2), user2)
            <==> LexLess(Components(spec1, user1), Components(spec2, user2))
    ensures SpecificityScore(Some(spec1), user1) == SpecificityScore(Some(spec2), user2)
            <==> Components(spec1, user1) == Components(spec2, user2)
  {
    ScoreDigits(spec1, user1);
    ScoreDigits(spec2, user2);
  }

  /**
   * Version dominates: a concrete pair whose versions agree always beats one
   * whose versions differ, whatever their os and cpu.
   */
  lemma {:induction false} VersionDominates(spec1: Platform, user1: Platform, spec2: Platform, user2: Platform)
    requires IsConcretePair(spec1, user1) && IsConcretePair(spec2, user2)
    requires spec1.version == user1.version && spec2.version != user2.version
    ensures SpecificityScore(Some(spec1), user1) < SpecificityScore(Some(spec2), user2)
  {
    ScoreIsLexicographic(spec1, user1, spec2, user2);
  }

  /** Every non-exact concrete pair beats a portable build, and an exact match beats both. */
  lemma ConcreteBeatsPortable(spec: Platform, user: Platform, other: Option<Platform>, otherUser: Platform)
    requires IsConcretePair(spec, user)
    requires other != Some(otherUser) && IsPortablePair(other, otherUser)
    ensures EXACT_SCORE < SpecificityScore(Some(spec), user) < SpecificityScore(other, otherUser)
  {
  }

  /** A spec built for plain "arm" fits every ARM sub-architecture as well as an equal cpu. */
  lemma ArmSubArchitecture(userCpu: Option<string>)
    requires "arm" <= CpuText(userCpu)
    ensures CpuMatch(Some("arm"), userCpu) == 0
  {
  }
}
