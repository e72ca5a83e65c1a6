/**
 * Platform values as RubyGems builds them (`Gem::Platform`): either the
 * portable `RUBY` platform or a concrete cpu/os/version triple. Parsing a
 * platform from its string form belongs to RubyGems and is not part of this
 * model; every value here is an already-built platform.
 */
module Platforms {
  import opened Wrappers

  /**
   * `Ruby` is `Gem::Platform::RUBY`, the build that runs everywhere.
   * `Concrete` is any other platform; `cpu` and `version` may be nil.
   * Equality is structural, as `Gem::Platform#==` compares cpu, os and version.
   */
  datatype Platform =
    | Ruby
    | Concrete(cpu: Option<string>, os: string, version: Option<string>)

  /** `Gem::Platform::JAVA` (parsed from "java"). */
  const JAVA: Platform := Concrete(None, "java", None)

  /**
   * `Gem::Platform::MSWIN`, parsed from "mswin32": with no cpu given and an
   * os ending in "32", RubyGems fills in the cpu "x86".
   */
  const MSWIN: Platform := Concrete(Some("x86"), "mswin32", None)

  /** `Gem::Platform::MSWIN64` (parsed from "mswin64"). */
  const MSWIN64: Platform := Concrete(None, "mswin64", None)

  /** `Gem::Platform::UNIVERSAL_MINGW` (parsed from "universal-mingw"). */
  const UNIVERSAL_MINGW: Platform := Concrete(Some("universal"), "mingw", None)

  /** `Gem::Platform::WINDOWS`. */
  const WINDOWS: seq<Platform> := [MSWIN, MSWIN64, UNIVERSAL_MINGW]

  /** The ordered list of generic buckets a platform may fall into, before `RUBY`. */
  const GENERICS: seq<Platform> := [JAVA] + WINDOWS
}
