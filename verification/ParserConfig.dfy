/**
 The parser configuration: three independent knobs (timing on/off, the advisory
 AST-cache flag, and the maximum recursion depth, clamped to at least 1).

 The source object is mutable and every setter returns the object itself so that
 calls can be chained. Here a configuration is an immutable value and every setter
 returns the updated value, so `SetMaxRecursionDepth(SetCacheAst(c, false), 25)`
 plays the role of the fluent chain.
 */
module ParserConfig {

  datatype Config = Config(enableStopwatch: bool, cacheAst: bool, maxRecursionDepth: int)

  /** The depth a fresh configuration carries. */
  const DefaultMaxRecursionDepth: int := 100

  /** The smallest depth a configuration can hold. */
  const MinRecursionDepth: int := 1

  /** Every configuration reachable from `Default` through the setters satisfies this. */
  predicate Valid(c: Config) {
    c.maxRecursionDepth >= MinRecursionDepth
  }

  function IsStopwatchEnabled(c: Config): bool {
    c.enableStopwatch
  }

  function IsCacheAstEnabled(c: Config): bool {
    c.cacheAst
  }

  function GetMaxRecursionDepth(c: Config): int {
    c.maxRecursionDepth
  }

  /** A freshly constructed configuration. */
  function Default(): (c: Config)
    ensures Valid(c)
    ensures IsStopwatchEnabled(c) && IsCacheAstEnabled(c)
    ensures GetMaxRecursionDepth(c) == 100
  {
    Config(true, true, DefaultMaxRecursionDepth)
  }

  function SetEnableStopwatch(c: Config, enable: bool): (r: Config)
    ensures IsStopwatchEnabled(r) == enable
    ensures IsCacheAstEnabled(r) == IsCacheAstEnabled(c)
    ensures GetMaxRecursionDepth(r) == GetMaxRecursionDepth(c)
  {
    c.(enableStopwatch := enable)
  }

  function SetCacheAst(c: Config, cache: bool): (r: Config)
    ensures IsCacheAstEnabled(r) == cache
    ensures IsStopwatchEnabled(r) == IsStopwatchEnabled(c)
    ensures GetMaxRecursionDepth(r) == GetMaxRecursionDepth(c)
  {
    c.(cacheAst := cache)
  }

  /** Stores `max(1, depth)`: smaller requests are raised to the minimum. */
  function SetMaxRecursionDepth(c: Config, depth: int): (r: Config)
    ensures Valid(r)
    ensures depth >= 1 ==> GetMaxRecursionDepth(r) == depth
    ensures depth < 1 ==> GetMaxRecursionDepth(r) == 1
    ensures GetMaxRecursionDepth(r) >= depth
    ensures IsStopwatchEnabled(r) == IsStopwatchEnabled(c)
    ensures IsCacheAstEnabled(r) == IsCacheAstEnabled(c)
  {
    c.(maxRecursionDepth := if depth < MinRecursionDepth then MinRecursionDepth else depth)
  }

  /** Every setter keeps a valid configuration valid, so the depth getter never reports less than 1. */
  lemma SettersPreserveValid(c: Config, enable: bool, cache: bool, depth: int)
    requires Valid(c)
    ensures Valid(SetEnableStopwatch(c, enable))
    ensures Valid(SetCacheAst(c, cache))
    ensures Valid(SetMaxRecursionDepth(c, depth))
    ensures GetMaxRecursionDepth(SetEnableStopwatch(c, enable)) >= 1
    ensures GetMaxRecursionDepth(SetCacheAst(c, cache)) >= 1
  {
  }

  /**
   The three setters touch disjoint fields, so the order of a chain does not
   matter, and the chain sets all three values at once.
   */
  lemma SettersCommute(c: Config, enable: bool, cache: bool, depth: int)
    ensures SetCacheAst(SetEnableStopwatch(c, enable), cache) == SetEnableStopwatch(SetCacheAst(c, cache), enable)
    ensures SetMaxRecursionDepth(SetEnableStopwatch(c, enable), depth) == SetEnableStopwatch(SetMaxRecursionDepth(c, depth), enable)
    ensures SetMaxRecursionDepth(SetCacheAst(c, cache), depth) == SetCacheAst(SetMaxRecursionDepth(c, depth), cache)
  {
  }

  /** Setting a knob twice keeps only the second value. */
  lemma LastSetWins(c: Config, e1: bool, e2: bool, c1: bool, c2: bool, d1: int, d2: int)
    ensures SetEnableStopwatch(SetEnableStopwatch(c, e1), e2) == SetEnableStopwatch(c, e2)
    ensures SetCacheAst(SetCacheAst(c, c1), c2) == SetCacheAst(c, c2)
    ensures SetMaxRecursionDepth(SetMaxRecursionDepth(c, d1), d2) == SetMaxRecursionDepth(c, d2)
  {
  }

  /** A chain of all three setters on a fresh configuration yields exactly the requested knobs. */
  lemma FluentChain(enable: bool, cache: bool, depth: int)
    requires depth >= 1
    ensures SetMaxRecursionDepth(SetCacheAst(SetEnableStopwatch(Default(), enable), cache), depth)
         == Config(enable, cache, depth)
  {
  }
}
