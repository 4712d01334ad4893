/**
 The PSR-4 loader: a table from namespace prefix to the directories registered
 under it, read from Composer's generated `composer/autoload_psr4.php`, and the
 resolution of a fully qualified name to candidate file paths following section 2
 of the PHP-FIG PSR-4 recommendation (longest matching prefix, sub-namespaces as
 sub-directories, `.php` suffix).

 Reading the file is abstracted: the caller supplies what the read produced
 (`Missing`, `NotArray`, or a `Table`).
 */
module Psr4Loader {

  datatype Option<T> = None | Some(value: T)

  /** Namespace prefix (with its trailing `\`) to base directories, in registration order. */
  type Psr4Map = map<string, seq<string>>

  datatype Loader = Loader(psr4Map: Psr4Map)

  /** What evaluating the autoload file gave: no file, a non-array value, or an array. */
  datatype AutoloadContent = Missing | NotArray | Table(table: Psr4Map)

  datatype LoaderException = LoaderException(message: string)

  datatype Result<T> = Ok(value: T) | Err(error: LoaderException)

  const AutoloadSuffix: string := "/composer/autoload_psr4.php"
  const InvalidMapMessage: string := "Invalid PSR-4 map in "
  const SourceExtension: string := ".php"

  // ---------------------------------------------------------------------------
  // Loading the table
  // ---------------------------------------------------------------------------

  /** `rtrim($s, '/')`: drops every trailing `/` and nothing else. */
  function RTrimSlash(s: string): (r: string)
    ensures r <= s
    ensures |r| > 0 ==> r[|r| - 1] != '/'
    ensures forall i :: |r| <= i < |s| ==> s[i] == '/'
  {
    if |s| > 0 && s[|s| - 1] == '/' then RTrimSlash(s[..|s| - 1]) else s
  }

  /**
   Where the generated table lives under a vendor directory: the directory with its
   trailing `/` dropped, then the fixed suffix.
   */
  function AutoloadFile(vendorPath: string): (file: string)
    ensures |AutoloadSuffix| <= |file| && file[|file| - |AutoloadSuffix|..] == AutoloadSuffix
    ensures var dir := file[..|file| - |AutoloadSuffix|];
            && dir <= vendorPath
            && (|dir| > 0 ==> dir[|dir| - 1] != '/')
            && forall i :: |dir| <= i < |vendorPath| ==> vendorPath[i] == '/'
  {
    var dir := RTrimSlash(vendorPath);
    assert (dir + AutoloadSuffix)[..|dir|] == dir;
    dir + AutoloadSuffix
  }

  /** A vendor path given with or without a trailing `/` names the same file. */
  lemma AutoloadFileIgnoresTrailingSlash(vendorPath: string)
    ensures AutoloadFile(vendorPath + "/") == AutoloadFile(vendorPath)
  {
    assert (vendorPath + "/")[..|vendorPath|] == vendorPath;
  }

  /**
   `loadPsr4Map`: a missing file leaves the loader as it was (the source only logs a
   warning), a non-array value is an error naming the file, and an array replaces the
   table wholesale.
   */
  function LoadPsr4Map(l: Loader, vendorPath: string, content: AutoloadContent): (r: Result<Loader>)
    ensures content.Missing? ==> r == Ok(l)
    ensures content.NotArray? <==> r.Err?
    ensures r.Err? ==> r.error.message == InvalidMapMessage + AutoloadFile(vendorPath)
    ensures content.Table? ==> r.Ok? && r.value.psr4Map == content.table
  {
    match content
    case Missing => Ok(l)
    case NotArray => Err(LoaderException(InvalidMapMessage + AutoloadFile(vendorPath)))
    case Table(m) => Ok(Loader(m))
  }

  /** The constructor: an empty table, then a load when a vendor path is given. */
  function NewLoader(vendorPath: Option<string>, content: AutoloadContent): (r: Result<Loader>)
    ensures vendorPath.None? ==> r == Ok(Loader(map[]))
    ensures content.Missing? ==> r == Ok(Loader(map[]))
    ensures r.Err? <==> vendorPath.Some? && content.NotArray?
    ensures vendorPath.Some? && content.Table? ==> r == Ok(Loader(content.table))
  {
    var initial := Loader(map[]);
    match vendorPath
    case None => Ok(initial)
    case Some(path) => LoadPsr4Map(initial, path, content)
  }

  function GetPsr4Map(l: Loader): Psr4Map {
    l.psr4Map
  }

  // ---------------------------------------------------------------------------
  // Path construction
  // ---------------------------------------------------------------------------

  /** `str_replace('\\', '/', $s)`: every `\` becomes `/`, every other character stays. */
  function ReplaceBackslashes(s: string): (r: string)
    ensures |r| == |s|
    ensures forall i :: 0 <= i < |s| && s[i] == '\\' ==> r[i] == '/'
    ensures forall i :: 0 <= i < |s| && s[i] != '\\' ==> r[i] == s[i]
    ensures '\\' !in r
  {
    seq(|s|, i requires 0 <= i < |s| => if s[i] == '\\' then '/' else s[i])
  }

  /** Replacing commutes with dropping a prefix. */
  lemma ReplaceBackslashesSuffix(s: string, j: nat)
    requires j <= |s|
    ensures ReplaceBackslashes(s)[j..] == ReplaceBackslashes(s[j..])
  {
  }

  /** `ltrim($s, '/')`: drops every leading `/` and nothing else. */
  function LTrimSlash(s: string): (r: string)
    ensures |r| <= |s| && r == s[|s| - |r|..]
    ensures |r| > 0 ==> r[0] != '/'
    ensures forall i :: 0 <= i < |s| - |r| ==> s[i] == '/'
  {
    if |s| > 0 && s[0] == '/' then LTrimSlash(s[1..]) else s
  }

  /**
   The part of `ns` after `prefix`, as a relative path: the rest of the name from some
   position `k` on, with `\` turned into `/`, where everything between the prefix and `k`
   is a separator (`/` or `\`) and `k` is not followed by one.
   */
  function RelativePath(ns: string, prefix: string): (r: string)
    requires prefix <= ns
    ensures exists k :: |prefix| <= k <= |ns| && r == ReplaceBackslashes(ns[k..])
              && (forall i :: |prefix| <= i < k ==> ns[i] == '/' || ns[i] == '\\')
    ensures '\\' !in r
    ensures |r| > 0 ==> r[0] != '/' && r[0] != '\\'
    ensures |r| <= |ns| - |prefix|
  {
    var rest := ns[|prefix|..];
    var replaced := ReplaceBackslashes(rest);
    var r := LTrimSlash(replaced);
    var k := |ns| - |r|;
    ReplaceBackslashesSuffix(rest, |rest| - |r|);
    assert rest[|rest| - |r|..] == ns[k..];
    assert forall i :: |prefix| <= i < k ==> replaced[i - |prefix|] == '/' && rest[i - |prefix|] == ns[i];
    r
  }

  /** The file a class with relative path `rel` would occupy under base directory `dir`. */
  function CandidatePath(dir: string, rel: string): string {
    dir + "/" + rel + SourceExtension
  }

  /** One candidate per directory, in the directories' order. */
  function CandidatePaths(dirs: seq<string>, rel: string): (r: seq<string>)
    ensures |r| == |dirs|
  {
    seq(|dirs|, i requires 0 <= i < |dirs| => CandidatePath(dirs[i], rel))
  }

  // ---------------------------------------------------------------------------
  // Longest-prefix matching: the reference definition
  // ---------------------------------------------------------------------------

  predicate NoPrefixMatches(m: Psr4Map, ns: string) {
    forall p :: p in m ==> !(p <= ns)
  }

  /** `p` is a registered prefix of `ns` and no registered prefix of `ns` is longer. */
  ghost predicate IsLongestMatch(m: Psr4Map, ns: string, p: string) {
    && p in m
    && p <= ns
    && forall q :: q in m && q <= ns ==> |q| <= |p|
  }

  /**
   The largest `j <= k` such that the first `j` characters of `ns` are a registered
   prefix, if any: a search over the namespace's own prefixes, independent of the
   order or number of keys in the table.
   */
  function LongestPrefixLength(m: Psr4Map, ns: string, k: nat): (r: Option<nat>)
    requires k <= |ns|
    ensures r.Some? ==> r.value <= k && ns[..r.value] in m
    ensures r.Some? ==> forall j :: r.value < j <= k ==> ns[..j] !in m
    ensures r.None? ==> forall j :: 0 <= j <= k ==> ns[..j] !in m
    decreases k
  {
    if ns[..k] in m then Some(k)
    else if k == 0 then None
    else LongestPrefixLength(m, ns, k - 1)
  }

  /** The candidates of the longest registered prefix of `ns`, or none. */
  function ResolvePaths(m: Psr4Map, ns: string): seq<string> {
    match LongestPrefixLength(m, ns, |ns|)
    case None => []
    case Some(k) => CandidatePaths(m[ns[..k]], RelativePath(ns, ns[..k]))
  }

  /** Two equal-length strings that are both prefixes of one namespace are the same string. */
  lemma EqualLengthPrefixesAgree(ns: string, p: string, q: string)
    requires p <= ns && q <= ns && |p| == |q|
    ensures p == q
  {
    assert p == ns[..|p|];
    assert q == ns[..|q|];
  }

  /** The longest matching prefix is unique, whatever order the keys were registered in. */
  lemma LongestMatchUnique(m: Psr4Map, ns: string, p: string, q: string)
    requires IsLongestMatch(m, ns, p) && IsLongestMatch(m, ns, q)
    ensures p == q
  {
    EqualLengthPrefixesAgree(ns, p, q);
  }

  /** The reference search finds exactly the longest match, and finds nothing exactly when no key matches. */
  lemma LongestPrefixLengthIsLongestMatch(m: Psr4Map, ns: string)
    ensures LongestPrefixLength(m, ns, |ns|).None? <==> NoPrefixMatches(m, ns)
    ensures forall p :: IsLongestMatch(m, ns, p) <==> LongestPrefixLength(m, ns, |ns|) == Some(|p|) && p == ns[..|p|]
  {
    var r := LongestPrefixLength(m, ns, |ns|);
    forall p | p in m && p <= ns
      ensures r.Some? && |p| <= r.value
    {
      assert ns[..|p|] == p;
    }
    forall p | IsLongestMatch(m, ns, p)
      ensures r == Some(|p|) && p == ns[..|p|]
    {
      assert p == ns[..|p|];
      var k := r.value;
      assert ns[..k] <= ns;
      assert |ns[..k]| <= |p|;
    }
  }

  /** Whenever some key is a prefix of `ns`, a longest one exists. */
  lemma LongestMatchExists(m: Psr4Map, ns: string)
    requires !NoPrefixMatches(m, ns)
    ensures exists p :: IsLongestMatch(m, ns, p)
  {
    LongestPrefixLengthIsLongestMatch(m, ns);
    var k := LongestPrefixLength(m, ns, |ns|).value;
    var p := ns[..k];
    forall q | q in m && q <= ns
      ensures |q| <= |p|
    {
      assert ns[..|q|] == q;
    }
    assert IsLongestMatch(m, ns, p);
  }

  // ---------------------------------------------------------------------------
  // `findPossiblePaths` as written: sort the keys by length, take the first match
  // ---------------------------------------------------------------------------

  predicate LengthDescending(s: seq<string>) {
    forall i, j :: 0 <= i < j < |s| ==> |s[i]| >= |s[j]|
  }

  /** Inserts `x` before the first element that is strictly shorter (stable for equal lengths). */
  function InsertByLength(x: string, s: seq<string>): (r: seq<string>)
    requires LengthDescending(s)
    ensures LengthDescending(r)
    ensures multiset(r) == multiset(s) + multiset{x}
    ensures forall y :: y in r ==> y == x || y in s
  {
    if s == [] then [x]
    else if |x| >= |s[0]| then [x] + s
    else
      var rest := InsertByLength(x, s[1..]);
      HeadIsLongest(s);
      MultisetCons(s);
      [s[0]] + rest
  }

  /** In a longest-first sequence no later element is longer than the first. */
  lemma HeadIsLongest(s: seq<string>)
    requires LengthDescending(s) && s != []
    ensures forall y :: y in s[1..] ==> |y| <= |s[0]|
  {
    forall y | y in s[1..] ensures |y| <= |s[0]| {
      var j :| 0 <= j < |s[1..]| && s[1..][j] == y;
      assert s[j + 1] == y;
    }
  }

  lemma MultisetCons<T>(s: seq<T>)
    requires s != []
    ensures multiset(s) == multiset{s[0]} + multiset(s[1..])
    ensures forall y :: y in s[1..] ==> y in s
  {
    assert s == [s[0]] + s[1..];
  }

  /**
   The `usort` by `strlen($b) - strlen($a)`: longest keys first. The sort is stable, as
   PHP 8's `usort` is; with distinct keys this does not affect the outcome.
   */
  function SortByLength(s: seq<string>): (r: seq<string>)
    ensures LengthDescending(r)
    ensures multiset(r) == multiset(s)
  {
    if s == [] then []
    else
      MultisetCons(s);
      InsertByLength(s[0], SortByLength(s[1..]))
  }

  /** `array_keys`: every key once, in some order (PHP's insertion order is not tracked). */
  method ArrayKeys(m: Psr4Map) returns (keys: seq<string>)
    ensures forall k :: k in keys <==> k in m
    ensures |keys| == |m|
  {
    keys := [];
    var rest := m.Keys;
    while rest != {}
      invariant rest <= m.Keys
      invariant forall k :: k in keys <==> k in m.Keys - rest
      invariant |keys| + |rest| == |m.Keys|
      decreases |rest|
    {
      var k :| k in rest;
      keys := keys + [k];
      rest := rest - {k};
    }
  }

  /**
   `findPossiblePaths`: scan the keys longest first and expand the first one that is
   a prefix of `ns`; the scan stops there, so shorter matching prefixes never contribute.
   */
  method FindPossiblePaths(l: Loader, ns: string) returns (paths: seq<string>)
    ensures NoPrefixMatches(l.psr4Map, ns) ==> paths == []
    ensures forall p :: IsLongestMatch(l.psr4Map, ns, p) ==>
              && |paths| == |l.psr4Map[p]|
              && forall i :: 0 <= i < |paths| ==> paths[i] == CandidatePath(l.psr4Map[p][i], RelativePath(ns, p))
    ensures paths == ResolvePaths(l.psr4Map, ns)
  {
    var m := l.psr4Map;
    var keys := ArrayKeys(m);
    var prefixes := SortByLength(keys);
    SortKeepsMembers(keys);
    var i := FirstMatch(prefixes, ns);
    if i < |prefixes| {
      paths := ExpandCandidates(m[prefixes[i]], RelativePath(ns, prefixes[i]));
      FirstInLengthOrderIsLongest(m, ns, prefixes, i);
      ExpansionOfLongestMatch(m, ns, prefixes[i]);
    } else {
      paths := [];
      NoneInListingMatches(m, ns, prefixes);
      NoMatchResolvesEmpty(m, ns);
    }
    ResolveSummary(m, ns);
  }

  /** The scan with `break`: the position of the first key that is a prefix of `ns`, or the length when none is. */
  method FirstMatch(prefixes: seq<string>, ns: string) returns (i: nat)
    ensures i <= |prefixes|
    ensures i < |prefixes| ==> prefixes[i] <= ns
    ensures forall j :: 0 <= j < i ==> !(prefixes[j] <= ns)
  {
    i := 0;
    while i < |prefixes|
      invariant 0 <= i <= |prefixes|
      invariant forall j :: 0 <= j < i ==> !(prefixes[j] <= ns)
    {
      if prefixes[i] <= ns {
        return;
      }
      i := i + 1;
    }
  }

  /** When no key of a complete listing matches, no key of the table matches. */
  lemma NoneInListingMatches(m: Psr4Map, ns: string, prefixes: seq<string>)
    requires forall k :: k in prefixes <==> k in m
    requires forall j :: 0 <= j < |prefixes| ==> !(prefixes[j] <= ns)
    ensures NoPrefixMatches(m, ns)
  {
    forall p | p in m ensures !(p <= ns) {
      var j :| 0 <= j < |prefixes| && prefixes[j] == p;
    }
  }

  /** The inner loop of `findPossiblePaths`: one candidate per directory, in order. */
  method ExpandCandidates(dirs: seq<string>, rel: string) returns (paths: seq<string>)
    ensures |paths| == |dirs|
    ensures forall k :: 0 <= k < |dirs| ==> paths[k] == dirs[k] + "/" + rel + SourceExtension
    ensures paths == CandidatePaths(dirs, rel)
  {
    paths := [];
    var k := 0;
    while k < |dirs|
      invariant 0 <= k <= |dirs|
      invariant |paths| == k
      invariant forall j :: 0 <= j < k ==> paths[j] == CandidatePath(dirs[j], rel)
    {
      paths := paths + [CandidatePath(dirs[k], rel)];
      k := k + 1;
    }
  }

  /** Sorting neither loses nor invents keys. */
  lemma SortKeepsMembers(keys: seq<string>)
    ensures forall k :: k in SortByLength(keys) <==> k in keys
  {
    var sorted := SortByLength(keys);
    forall k ensures k in sorted <==> k in keys {
      assert k in sorted <==> k in multiset(sorted);
      assert k in keys <==> k in multiset(keys);
    }
  }

  /** Expanding the longest match is the reference resolution, whichever key is named. */
  lemma ExpansionOfLongestMatch(m: Psr4Map, ns: string, prefix: string)
    requires IsLongestMatch(m, ns, prefix)
    ensures forall p :: IsLongestMatch(m, ns, p) ==> p == prefix
    ensures CandidatePaths(m[prefix], RelativePath(ns, prefix)) == ResolvePaths(m, ns)
  {
    ResolvesToLongestMatch(m, ns, prefix);
    forall p | IsLongestMatch(m, ns, p) ensures p == prefix {
      LongestMatchUnique(m, ns, p, prefix);
    }
  }

  /** In a longest-first listing of every key, the first key that matches is a longest match. */
  lemma FirstInLengthOrderIsLongest(m: Psr4Map, ns: string, prefixes: seq<string>, i: nat)
    requires LengthDescending(prefixes)
    requires forall k :: k in prefixes <==> k in m
    requires i < |prefixes| && prefixes[i] <= ns
    requires forall j :: 0 <= j < i ==> !(prefixes[j] <= ns)
    ensures IsLongestMatch(m, ns, prefixes[i])
  {
    forall q | q in m && q <= ns
      ensures |q| <= |prefixes[i]|
    {
      var j :| 0 <= j < |prefixes| && prefixes[j] == q;
      assert i <= j;
    }
  }

  /** Given the longest match `p`, the reference definition expands exactly `p`. */
  lemma ResolvesToLongestMatch(m: Psr4Map, ns: string, p: string)
    requires IsLongestMatch(m, ns, p)
    ensures ResolvePaths(m, ns) == CandidatePaths(m[p], RelativePath(ns, p))
  {
    LongestPrefixLengthIsLongestMatch(m, ns);
  }

  // ---------------------------------------------------------------------------
  // Properties of the resolution
  // ---------------------------------------------------------------------------

  /**
   Every candidate is `dir + "/" + rel + ".php"` for a directory registered under the
   winning prefix, in registration order, where `rel` has no `\` and no leading `/`.
   */
  lemma ResolvedPathShape(m: Psr4Map, ns: string, p: string)
    requires IsLongestMatch(m, ns, p)
    ensures |ResolvePaths(m, ns)| == |m[p]|
    ensures forall i :: 0 <= i < |m[p]| ==>
              ResolvePaths(m, ns)[i] == CandidatePath(m[p][i], RelativePath(ns, p))
    ensures '\\' !in RelativePath(ns, p)
    ensures |RelativePath(ns, p)| > 0 ==> RelativePath(ns, p)[0] != '/'
  {
    ResolvesToLongestMatch(m, ns, p);
    CandidatePathsIndex(m[p], RelativePath(ns, p), ResolvePaths(m, ns));
  }

  /** Indexing the candidate list. */
  lemma CandidatePathsIndex(dirs: seq<string>, rel: string, r: seq<string>)
    requires r == CandidatePaths(dirs, rel)
    ensures |r| == |dirs|
    ensures forall i :: 0 <= i < |dirs| ==> r[i] == CandidatePath(dirs[i], rel)
  {
  }

  /** The resolution is empty without a match, and otherwise expands the longest match. */
  lemma ResolveSummary(m: Psr4Map, ns: string)
    ensures NoPrefixMatches(m, ns) ==> ResolvePaths(m, ns) == []
    ensures forall p :: IsLongestMatch(m, ns, p) ==>
              && |ResolvePaths(m, ns)| == |m[p]|
              && forall i :: 0 <= i < |ResolvePaths(m, ns)| ==> ResolvePaths(m, ns)[i] == CandidatePath(m[p][i], RelativePath(ns, p))
  {
    if NoPrefixMatches(m, ns) {
      NoMatchResolvesEmpty(m, ns);
    }
    forall p | IsLongestMatch(m, ns, p)
      ensures |ResolvePaths(m, ns)| == |m[p]|
      ensures forall i :: 0 <= i < |ResolvePaths(m, ns)| ==> ResolvePaths(m, ns)[i] == CandidatePath(m[p][i], RelativePath(ns, p))
    {
      ResolvedPathShape(m, ns, p);
    }
  }

  /** Registering a shorter matching prefix never changes the outcome. */
  lemma ShorterPrefixNeverConsulted(m: Psr4Map, ns: string, p: string, q: string, dirs: seq<string>)
    requires IsLongestMatch(m, ns, p)
    requires q <= ns && |q| < |p|
    ensures ResolvePaths(m[q := dirs], ns) == ResolvePaths(m, ns)
  {
    var m' := m[q := dirs];
    assert q != p;
    assert IsLongestMatch(m', ns, p);
    ResolvesToLongestMatch(m, ns, p);
    ResolvesToLongestMatch(m', ns, p);
  }

  /** Without any matching key the resolution is empty. */
  lemma NoMatchResolvesEmpty(m: Psr4Map, ns: string)
    requires NoPrefixMatches(m, ns)
    ensures ResolvePaths(m, ns) == []
  {
    LongestPrefixLengthIsLongestMatch(m, ns);
  }

  /** A freshly constructed loader without a vendor path resolves nothing. */
  lemma DefaultLoaderResolvesNothing(ns: string)
    ensures NewLoader(None, Missing).Ok?
    ensures ResolvePaths(GetPsr4Map(NewLoader(None, Missing).value), ns) == []
  {
    NoMatchResolvesEmpty(map[], ns);
  }

  /** Loading a table and reading it back gives the table verbatim, whatever was loaded before. */
  lemma LoadThenGetRoundTrip(l: Loader, vendorPath: string, m: Psr4Map)
    ensures LoadPsr4Map(l, vendorPath, Table(m)).Ok?
    ensures GetPsr4Map(LoadPsr4Map(l, vendorPath, Table(m)).value) == m
  {
  }

  /** The repository's own example table: two prefixes, one nested in the other and backed by two directories. */
  const CorePrefix: string := "PhpPacker\\"
  const TestsPrefix: string := CorePrefix + "Tests\\"
  const ParserClass: string := CorePrefix + "Parser" + "\\" + "CodeParser"
  const TestClass: string := TestsPrefix + "Unit" + "\\" + "ParserTest"

  function ExampleMap(src: string, lib: string, tests: string): Psr4Map {
    map[CorePrefix := [src, lib], TestsPrefix := [tests]]
  }

  /** A `\\` between two separator-free segments becomes a `/`. */
  lemma ReplaceOneSeparator(a: string, b: string)
    requires '\\' !in a && '\\' !in b
    ensures ReplaceBackslashes(a + "\\" + b) == a + "/" + b
  {
    var s := a + "\\" + b;
    var r := ReplaceBackslashes(s);
    forall i | 0 <= i < |s| ensures r[i] == (a + "/" + b)[i] {
      if i < |a| {
        assert s[i] == a[i];
      } else if i > |a| {
        assert s[i] == b[i - |a| - 1];
      }
    }
  }

  /** Under `prefix`, the name `prefix + a\\b` is the relative path `a/b`. */
  lemma RelativePathOfTwoSegments(prefix: string, a: string, b: string)
    requires '\\' !in a && '\\' !in b && |a| > 0 && a[0] != '/'
    ensures RelativePath(prefix + a + "\\" + b, prefix) == a + "/" + b
  {
    var ns := prefix + a + "\\" + b;
    assert ns[|prefix|..] == a + "\\" + b;
    ReplaceOneSeparator(a, b);
    assert (a + "/" + b)[0] == a[0];
  }

  lemma ExampleRelativePathParser()
    ensures RelativePath(ParserClass, CorePrefix) == "Parser" + "/" + "CodeParser"
  {
    RelativePathOfTwoSegments(CorePrefix, "Parser", "CodeParser");
  }

  lemma ExampleRelativePathTests()
    ensures RelativePath(TestClass, TestsPrefix) == "Unit" + "/" + "ParserTest"
  {
    RelativePathOfTwoSegments(TestsPrefix, "Unit", "ParserTest");
  }

  /** `dir + "/" + rel + ".php"` regrouped as `dir` followed by one fixed tail. */
  lemma CandidateRegroup(dir: string, rel: string, tail: string)
    requires tail == "/" + rel + SourceExtension
    ensures CandidatePath(dir, rel) == dir + tail
  {
  }

  lemma ExampleParserTail()
    ensures "/" + ("Parser" + "/" + "CodeParser") + SourceExtension == "/Parser/CodeParser.php"
  {
  }

  lemma ExampleTestTail()
    ensures "/" + ("Unit" + "/" + "ParserTest") + SourceExtension == "/Unit/ParserTest.php"
  {
  }

  /** Every candidate is its directory followed by one tail, the same for every directory. */
  lemma CandidatePathsWithTail(dirs: seq<string>, rel: string, tail: string)
    requires tail == "/" + rel + SourceExtension
    ensures forall i :: 0 <= i < |dirs| ==> CandidatePaths(dirs, rel)[i] == dirs[i] + tail
  {
    forall i | 0 <= i < |dirs| ensures CandidatePaths(dirs, rel)[i] == dirs[i] + tail {
      CandidateRegroup(dirs[i], rel, tail);
    }
  }

  lemma CandidatePairWithTail(dirs: seq<string>, rel: string, tail: string)
    requires |dirs| == 2 && tail == "/" + rel + SourceExtension
    ensures CandidatePaths(dirs, rel) == [dirs[0] + tail, dirs[1] + tail]
  {
    CandidatePathsWithTail(dirs, rel, tail);
  }

  lemma CandidateSingleWithTail(dirs: seq<string>, rel: string, tail: string)
    requires |dirs| == 1 && tail == "/" + rel + SourceExtension
    ensures CandidatePaths(dirs, rel) == [dirs[0] + tail]
  {
    CandidatePathsWithTail(dirs, rel, tail);
  }

  /** A winning prefix backed by two directories yields exactly two candidates, in order. */
  lemma ResolveTwoDirectories(m: Psr4Map, ns: string, p: string, tail: string)
    requires IsLongestMatch(m, ns, p) && |m[p]| == 2
    requires tail == "/" + RelativePath(ns, p) + SourceExtension
    ensures ResolvePaths(m, ns) == [m[p][0] + tail, m[p][1] + tail]
  {
    ResolvesToLongestMatch(m, ns, p);
    CandidatePairWithTail(m[p], RelativePath(ns, p), tail);
  }

  /** A winning prefix backed by one directory yields exactly one candidate. */
  lemma ResolveOneDirectory(m: Psr4Map, ns: string, p: string, tail: string)
    requires IsLongestMatch(m, ns, p) && |m[p]| == 1
    requires tail == "/" + RelativePath(ns, p) + SourceExtension
    ensures ResolvePaths(m, ns) == [m[p][0] + tail]
  {
    ResolvesToLongestMatch(m, ns, p);
    CandidateSingleWithTail(m[p], RelativePath(ns, p), tail);
  }

  lemma ExampleWinners(src: string, lib: string, tests: string)
    ensures IsLongestMatch(ExampleMap(src, lib, tests), ParserClass, CorePrefix)
    ensures IsLongestMatch(ExampleMap(src, lib, tests), TestClass, TestsPrefix)
  {
    assert !(TestsPrefix <= ParserClass) by { assert ParserClass[10] != TestsPrefix[10]; }
  }

  /** A class under the short prefix fans out over both of its directories, in order. */
  lemma ExampleFanOut(src: string, lib: string, tests: string)
    ensures ResolvePaths(ExampleMap(src, lib, tests), ParserClass)
         == [src + "/Parser/CodeParser.php", lib + "/Parser/CodeParser.php"]
  {
    ExampleWinners(src, lib, tests);
    ExampleRelativePathParser();
    ExampleParserTail();
    ResolveTwoDirectories(ExampleMap(src, lib, tests), ParserClass, CorePrefix, "/Parser/CodeParser.php");
  }

  /** A namespace outside every prefix resolves to nothing. */
  lemma ExampleNoMatch(src: string, lib: string, tests: string)
    ensures ResolvePaths(ExampleMap(src, lib, tests), "App\\Something") == []
  {
    var ns := "App\\Something";
    assert !(CorePrefix <= ns) by { assert ns[0] != CorePrefix[0]; }
    assert !(TestsPrefix <= ns) by { assert ns[0] != TestsPrefix[0]; }
    NoMatchResolvesEmpty(ExampleMap(src, lib, tests), ns);
  }

  /** A sub-namespace with its own prefix maps to that prefix's directory, not under the shorter one's. */
  lemma ExampleLongerPrefixWins(src: string, lib: string, tests: string)
    ensures ResolvePaths(ExampleMap(src, lib, tests), TestClass) == [tests + "/Unit/ParserTest.php"]
  {
    ExampleWinners(src, lib, tests);
    ExampleRelativePathTests();
    ExampleTestTail();
    ResolveOneDirectory(ExampleMap(src, lib, tests), TestClass, TestsPrefix, "/Unit/ParserTest.php");
  }
}
