/**
 * `Bundler::GemHelpers.generic`: the generic bucket of a platform, the first
 * entry of `GENERICS` the platform matches, or `RUBY`, memoized in the
 * process-wide `GENERIC_CACHE`. The match test (`Gem::Platform#===`) belongs
 * to RubyGems and is a parameter here.
 */
module Generics {
  import opened Platforms

  /**
   * The position of the first entry of `generics` that `p` matches, or
   * `|generics|` when there is none (Ruby's `find`).
   */
  function FirstMatchIndex(generics: seq<Platform>, p: Platform, matches: (Platform, Platform) -> bool): (k: nat)
    ensures k <= |generics|
    ensures k < |generics| ==> matches(p, generics[k])
    ensures forall j :: 0 <= j < k ==> !matches(p, generics[j])
    decreases |generics|
  {
    if generics == [] then 0
    else if matches(p, generics[0]) then 0
    else 1 + FirstMatchIndex(generics[1..], p, matches)
  }

  /**
   * The value `generic(p)` returns. `RUBY` maps to itself because the cache
   * is seeded with that entry; any other platform gets the first generic
   * platform it matches, or `RUBY`.
   */
  function Generic(p: Platform, matches: (Platform, Platform) -> bool): (r: Platform)
    ensures r == Ruby || r in GENERICS
    ensures p == Ruby ==> r == Ruby
  {
    if p == Ruby then Ruby
    else
      var k := FirstMatchIndex(GENERICS, p, matches);
      if k < |GENERICS| then GENERICS[k] else Ruby
  }

  /**
   * What `generic` promises: its result is `RUBY` or an entry of `GENERICS`;
   * an entry is the first one `p` matches; `RUBY` for any platform other than
   * `RUBY` means that `p` matches none of them.
   */
  lemma GenericIsFirstMatch(p: Platform, matches: (Platform, Platform) -> bool)
    ensures Generic(p, matches) == Ruby || Generic(p, matches) in GENERICS
    ensures p == Ruby ==> Generic(p, matches) == Ruby
    ensures p != Ruby && Generic(p, matches) == Ruby ==>
              forall g :: g in GENERICS ==> !matches(p, g)
    ensures forall k :: 0 <= k < |GENERICS| && Generic(p, matches) == GENERICS[k] ==>
              p != Ruby && matches(p, GENERICS[k]) && forall j :: 0 <= j < k ==> !matches(p, GENERICS[j])
  {
    var k := FirstMatchIndex(GENERICS, p, matches);
    if p != Ruby && k < |GENERICS| {
      forall k' | 0 <= k' < |GENERICS| && GENERICS[k] == GENERICS[k'] ensures k' == k {
        assert GENERICS == [JAVA, MSWIN, MSWIN64, UNIVERSAL_MINGW];
      }
    }
  }

  /**
   * The buckets are fixed points: when every entry of `GENERICS` matches
   * itself and none of the entries before it, `generic` is idempotent.
   */
  lemma GenericIsIdempotent(p: Platform, matches: (Platform, Platform) -> bool)
    requires forall k :: 0 <= k < |GENERICS| ==> matches(GENERICS[k], GENERICS[k])
    requires forall k, j :: 0 <= j < k < |GENERICS| ==> !matches(GENERICS[k], GENERICS[j])
    ensures Generic(Generic(p, matches), matches) == Generic(p, matches)
  {
    var g := Generic(p, matches);
    if g != Ruby {
      var k := FirstMatchIndex(GENERICS, p, matches);
      assert g == GENERICS[k];
      assert matches(g, GENERICS[k]);
      assert forall j :: 0 <= j < k ==> !matches(g, GENERICS[j]);
    }
  }

  /** `GENERIC_CACHE` together with the `===` test its entries were computed with. */
  class GenericCache {
    const matches: (Platform, Platform) -> bool
    var cache: map<Platform, Platform>

    /** Every entry holds the bucket of its key, and the `RUBY => RUBY` seed is present. */
    ghost predicate Valid()
      reads this
    {
      && Ruby in cache && cache[Ruby] == Ruby
      && forall q :: q in cache ==> cache[q] == Generic(q, matches)
    }

    /** The cache as the constant initializer builds it: only the `RUBY => RUBY` seed. */
    constructor (matches: (Platform, Platform) -> bool)
      ensures Valid()
      ensures this.matches == matches
      ensures cache == map[Ruby := Ruby]
    {
      this.matches := matches;
      cache := map[Ruby := Ruby];
    }

    /**
     * `generic(p)`: `GENERIC_CACHE[p] ||= ...`. A cached value is returned
     * as it is; otherwise the bucket is computed and stored under `p`. No
     * other entry changes.
     */
    method GenericOf(p: Platform) returns (r: Platform)
      requires Valid()
      modifies this
      ensures Valid()
      ensures r == Generic(p, matches)
      ensures cache == old(cache)[p := r]
      ensures p in old(cache) ==> r == old(cache)[p] && cache == old(cache)
    {
      if p in cache {
        r := cache[p];
      } else {
        var k := FirstMatchIndex(GENERICS, p, matches);
        r := if k < |GENERICS| then GENERICS[k] else Ruby;
        cache := cache[p := r];
      }
    }

    /** Every cached value is `RUBY` or an entry of `GENERICS`. */
    lemma CachedValuesAreBuckets()
      requires Valid()
      ensures forall q :: q in cache ==> cache[q] == Ruby || cache[q] in GENERICS
    {
      forall q | q in cache ensures cache[q] == Ruby || cache[q] in GENERICS {
        GenericIsFirstMatch(q, matches);
      }
    }
  }
}
