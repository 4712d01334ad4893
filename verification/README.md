# php-packer-parser core, in Dafny

A model of the dependency-resolution core of the PHP packer's parser package:

- **CodeParser** (`CodeParser.dfy`, with `CodeParserProperties.dfy` and
  `CodeParserExamples.dfy`): the recursive `parse` traversal. It starts from an entry
  file, parses it, appends it to the processed list, asks the dependency analyzer for
  the files it depends on, records that list, and recurses into each dependency in
  order. Any failure leaves every recursion level wrapped in a `ParserException` that
  names the file that level was parsing. The AST parser and the dependency analyzer are
  parameters: two pure functions in an `Env`, each either producing a value or raising.
  Every path the analyzer can name lies in a finite universe; termination rests on the
  number of unvisited files of that universe.
- **Psr4Loader** (`Psr4Loader.dfy`): the prefix table and `findPossiblePaths`. The
  longest registered namespace prefix of a class name wins. The rest of the name
  becomes a relative path: `\` turns into `/` and leading `/` are stripped. The result
  is one `dir/rel.php` candidate per directory registered under that prefix. The
  method follows the source: it takes the keys, sorts them longest first, scans with
  `break`, and runs the inner loop over the directories. It is proved equal to an
  independent reference, `ResolvePaths`, which searches the name's own prefixes from
  the longest down. The outcome of reading `autoload_psr4.php` is an input to
  `loadPsr4Map` (`Missing`, `NotArray` or `Table`).
- **ParserConfig** (`ParserConfig.dfy`): three knobs with their defaults, getters and
  setters. The depth setter clamps to at least 1.

The state of `CodeParser` is a value `Parser(processedFiles, dependencies)`. A call of
`parse` returns a `Run`: the new state, how the call ended (`Completed` or
`Threw(error)`), and the collaborator calls it made, in order. The invariant of every
reachable state, `Valid`, says two things: no file is listed twice, and only processed
files have a dependency entry.

To check the proofs:

    dafny verify --resource-limit 2000000 --verification-time-limit 0 --warn-contradictory-assumptions *.dfy

### Failure handling

A file is appended to the processed list right after its AST parse succeeds, before the
dependency analyzer runs (src/CodeParser.php:86-91). When the analyzer raises, the file
therefore stays processed without a dependency entry, and a later `parse` of it returns
at once (src/CodeParser.php:74-76). See `ParseOwnStep` and
`DiscoveryFailureIsNotRetried`.

Every level of the recursion catches and rethrows (src/CodeParser.php:108-119). The
exception that leaves `parse(f)` names `f`, and the exception of the dependency that
failed is its previous exception. See `Wrap` and `ParseFailureNamesFile`.

## Model

| member | source | states |
|---|---|---|
| ParserConfig.Default | src/Config/ParserConfig.php:13-23 | a fresh configuration has the stopwatch on, the AST cache on, depth 100, and satisfies the depth invariant |
| ParserConfig.SetEnableStopwatch | src/Config/ParserConfig.php:31-45 | the stopwatch getter returns the value just set; the other two knobs are unchanged |
| ParserConfig.SetCacheAst | src/Config/ParserConfig.php:53-67 | the cache getter returns the value just set; the other two knobs are unchanged |
| ParserConfig.SetMaxRecursionDepth | src/Config/ParserConfig.php:75-89 | the stored depth is the request when it is at least 1 and 1 otherwise, so it is never below 1 or below the request; the other knobs are unchanged |
| ParserConfig.SettersPreserveValid | src/Config/ParserConfig.php:31-79 | every setter keeps the depth getter at 1 or more |
| ParserConfig.SettersCommute | src/Config/ParserConfig.php:31-79 | the setters touch disjoint fields, so any two of them commute |
| ParserConfig.LastSetWins | src/Config/ParserConfig.php:31-79 | setting a knob twice keeps only the second value |
| ParserConfig.FluentChain | src/Config/ParserConfig.php:31-79 | the chain stopwatch, cache, depth on a fresh configuration yields exactly the three requested values |
| Psr4Loader.RTrimSlash | src/Psr4Loader.php:50 | the result is a prefix of the input, does not end in `/`, and only `/` were dropped |
| Psr4Loader.AutoloadFile | src/Psr4Loader.php:50 | the autoload file is the vendor path with its trailing `/` dropped, then `/composer/autoload_psr4.php` |
| Psr4Loader.AutoloadFileIgnoresTrailingSlash | src/Psr4Loader.php:50 | a vendor path with or without a trailing `/` names the same autoload file |
| Psr4Loader.LoadPsr4Map | src/Psr4Loader.php:48-68 | a missing file leaves the loader unchanged; a non-array value is the only error, and its message names the autoload file; an array replaces the table |
| Psr4Loader.NewLoader | src/Psr4Loader.php:19-39 | without a vendor path, or with a missing file, the table is empty; construction fails exactly when a vendor path is given and its file is not an array |
| Psr4Loader.LoadThenGetRoundTrip | src/Psr4Loader.php:57-78 | loading a table and reading it back gives that table, whatever was loaded before |
| Psr4Loader.DefaultLoaderResolvesNothing | src/Psr4Loader.php:19-39 | a loader built without a vendor path resolves every name to no candidates |
| Psr4Loader.ReplaceBackslashes | src/Psr4Loader.php:98 | position by position, each `\` becomes `/` and every other character is kept |
| Psr4Loader.LTrimSlash | src/Psr4Loader.php:99 | the result is a suffix of the input, does not start with `/`, and only `/` were dropped |
| Psr4Loader.RelativePath | src/Psr4Loader.php:97-99 | the relative path is the name from some position on, with `\` turned into `/`, where everything between the prefix and that position is a `/` or `\`; it has no `\` and does not start with a separator |
| Psr4Loader.ArrayKeys | src/Psr4Loader.php:91 | the key list holds exactly the table's keys, each once |
| Psr4Loader.SortByLength | src/Psr4Loader.php:92-94 | the sorted keys are longest first and are a permutation of the input |
| Psr4Loader.SortKeepsMembers | src/Psr4Loader.php:91-94 | sorting neither loses nor invents a key |
| Psr4Loader.FirstMatch | src/Psr4Loader.php:96-107 | the scan stops at the first key that is a prefix of the name, and no earlier key is one |
| Psr4Loader.ExpandCandidates | src/Psr4Loader.php:101-103 | one candidate per directory, in order, each `dir + "/" + rel + ".php"` |
| Psr4Loader.FindPossiblePaths | src/Psr4Loader.php:86-111 | no matching prefix gives no candidates; otherwise one candidate per directory of the longest matching prefix, in registration order; the result equals the reference resolution |
| Psr4Loader.FirstInLengthOrderIsLongest | src/Psr4Loader.php:90-97 | in a longest-first listing of all keys, the first key that matches is a longest match |
| Psr4Loader.LongestPrefixLength | src/Psr4Loader.php:90-97 | the reference search returns a length whose prefix of the name is a key and no longer prefix is one, or nothing when no prefix is a key |
| Psr4Loader.LongestPrefixLengthIsLongestMatch | src/Psr4Loader.php:90-97 | the reference search finds nothing exactly when no key matches, and otherwise finds exactly the longest match |
| Psr4Loader.EqualLengthPrefixesAgree | src/Psr4Loader.php:96-97 | two equal-length prefixes of one name are the same string |
| Psr4Loader.LongestMatchUnique | src/Psr4Loader.php:90-97 | the longest matching key is unique, so the outcome does not depend on key order |
| Psr4Loader.LongestMatchExists | src/Psr4Loader.php:90-97 | when some key matches, a longest matching key exists |
| Psr4Loader.ExpansionOfLongestMatch | src/Psr4Loader.php:96-106 | expanding a longest match is the reference resolution, and no other key is a longest match |
| Psr4Loader.ResolvesToLongestMatch | src/Psr4Loader.php:96-106 | the reference resolution expands the longest match |
| Psr4Loader.ResolvedPathShape | src/Psr4Loader.php:98-103 | one candidate per directory of the winning prefix, in order, built from a relative path without `\` and without a leading `/` |
| Psr4Loader.ResolveSummary | src/Psr4Loader.php:96-110 | no candidates without a match; otherwise the candidates of the longest match, index by index |
| Psr4Loader.ShorterPrefixNeverConsulted | src/Psr4Loader.php:104-106 | registering any directories under a shorter matching prefix leaves the result unchanged |
| Psr4Loader.NoMatchResolvesEmpty | src/Psr4Loader.php:96-110 | without a matching key the resolution is empty |
| Psr4Loader.NoneInListingMatches | src/Psr4Loader.php:96-97 | when no key of a complete listing matches, no key of the table matches |
| Psr4Loader.InsertByLength | src/Psr4Loader.php:92-94 | inserting a key keeps the list longest first and adds exactly that key |
| Psr4Loader.ReplaceOneSeparator | src/Psr4Loader.php:98 | a `\` between two separator-free segments becomes a `/` |
| Psr4Loader.RelativePathOfTwoSegments | src/Psr4Loader.php:98-99 | under its prefix, the name `a\b` becomes the relative path `a/b` |
| Psr4Loader.ExampleWinners | tests/Unit/Psr4LoaderTest.php:106-112 | in the two-prefix example table, `PhpPacker\Parser\CodeParser` is won by `PhpPacker\` and `PhpPacker\Tests\Unit\ParserTest` by `PhpPacker\Tests\` |
| Psr4Loader.ExampleFanOut | tests/Unit/Psr4LoaderTest.php:123-130 | a class under the short prefix yields the `src` candidate and then the `lib` candidate |
| Psr4Loader.ExampleNoMatch | tests/Unit/Psr4LoaderTest.php:133-134 | a name outside every prefix resolves to nothing |
| Psr4Loader.ExampleLongerPrefixWins | tests/Unit/Psr4LoaderTest.php:137-142 | a tests class resolves only under the tests directory, not under `src/Tests` |
| CodeParser.GetProcessedFiles | src/CodeParser.php:126-129 | the returned list holds exactly the files `isFileProcessed` accepts, each once |
| CodeParser.GetDependencies | src/CodeParser.php:134-137 | every file with a dependency entry is processed |
| CodeParser.Parse | src/CodeParser.php:72-121 | the state stays valid and extends the old one even on failure; a processed file returns at once with no calls; on success the file is processed; a failure is a parser exception naming the file |
| CodeParser.ParseEach | src/CodeParser.php:94-96 | the loop keeps the state valid and extending; on success every dependency is processed; a failure names one of the dependencies |
| CodeParser.Wrap | src/CodeParser.php:108-119 | success passes through; a failure from below becomes an exception whose message is `解析文件失败: ` and this level's file, and whose chain of files is this file followed by the chain below |
| CodeParser.VisitStep | src/CodeParser.php:87-91 | appending an unprocessed file, with or without its dependency list, keeps the invariant and adds exactly that file |
| CodeParser.VisitReducesUnvisited | src/CodeParser.php:87 | appending a file of the universe strictly reduces the number of unvisited files, which bounds the recursion |
| CodeParser.ExtendsTransitive | src/CodeParser.php:87-96 | the processed list only ever grows at the end, and recorded dependency entries are never changed, across any number of steps |
| CodeParser.AddedSplit | src/CodeParser.php:87-96 | the files added over two steps are those of the first followed by those of the second |
| CodeParserProperties.ParseCalls | src/CodeParser.php:86-96 | a call of `parse` makes one AST parse and then one dependency lookup for every file it appends, in order, plus the single failed AST parse if there was one |
| CodeParserProperties.ParseEachCalls | src/CodeParser.php:94-96 | the same accounting of collaborator calls holds for the loop over dependencies |
| CodeParserProperties.PairsAppend | src/CodeParser.php:86-96 | the call trace of two runs of visits is the concatenation of their traces |
| CodeParserProperties.PairsCount | src/CodeParser.php:86-90 | each call on `g` appears in the trace as often as `g` was visited |
| CodeParserProperties.CallCounts | src/CodeParser.php:86-90 | from an accounted trace: one lookup for each added file and none for others, and at most one AST parse per file |
| CodeParserProperties.CollaboratorsRunOncePerFile | src/CodeParser.php:74-96 | the analyzer runs exactly once for each newly processed file and never for others; the AST parser runs at most once per file and never for a file processed beforehand |
| CodeParserProperties.ChainShape | src/CodeParser.php:119 | an exception chain starts at the outer file and ends at the file whose collaborator raised |
| CodeParserProperties.ParseFailureChain | src/CodeParser.php:94-119 | a failed `parse(f)` raises a chain that starts at `f`; each file in it lists the next among its recorded dependencies; it ends at a file without an entry |
| CodeParserProperties.ParseEachFailureChain | src/CodeParser.php:94-96 | a failing dependency loop raises such a chain starting at one of the dependencies |
| CodeParserProperties.ParseFailureNamesFile | src/CodeParser.php:108-119 | the exception leaving a failed `parse(f)` has the message `解析文件失败: f` and wraps the chain down to the failing file |
| CodeParserProperties.ParseOwnStep | src/CodeParser.php:84-96 | an AST failure records nothing and makes one call; a discovery failure leaves the file processed with no entry; once the list is obtained, the file is appended right after the old list and keeps that exact list, even if a dependency later fails |
| CodeParserProperties.DiscoveryFailureIsNotRetried | src/CodeParser.php:86-91 | after a discovery failure the file counts as processed without an entry, and parsing it again does nothing |
| CodeParserProperties.ParseClosesAdded | src/CodeParser.php:90-96 | after a successful `parse`, every newly processed file has an entry, and every file listed there is processed |
| CodeParserProperties.ParseEachClosesAdded | src/CodeParser.php:94-96 | the same closure holds after a successful dependency loop |
| CodeParserProperties.CompleteExtends | src/CodeParser.php:87-96 | a complete state stays complete when the files added in between are closed over |
| CodeParserProperties.ParseKeepsComplete | src/CodeParser.php:72-121 | a fresh parser is complete, and a successful `parse` keeps a complete state complete with the file processed |
| CodeParserProperties.ParseDiscoveryOrder | src/CodeParser.php:87-96 | discovery order, also for failed runs: the first file a `parse(f)` appends is `f`, and every later one was listed as a dependency by a file appended before it |
| CodeParserProperties.ParseEachDiscoveryOrder | src/CodeParser.php:94-96 | every file the loop appends is a dependency of the loop or listed by a file appended before it |
| CodeParserProperties.DfsBlockExtends | src/CodeParser.php:87-96 | a completed block of the processed list stays one as later calls extend the state |
| CodeParserProperties.ParseDepthFirst | src/CodeParser.php:72-121 | depth-first pre-order exactly: what `parse(f)` appends is `f` followed by one whole block per recorded dependency, in list order; an empty block completed exactly when the dependency was processed already; an empty failed block is a dependency whose AST parse raised, and a failure ends every enclosing block |
| CodeParserProperties.ParseEachDepthFirst | src/CodeParser.php:94-96 | the loop appends one whole block per dependency, in list order, and stops at the first failure |
| CodeParserProperties.ParseKeepsProcessed | src/CodeParser.php:72-121 | `parse` never un-processes a file: afterwards a file is processed exactly when it was before or the call appended it |
| CodeParserProperties.ParseIsIdempotent | src/CodeParser.php:74-76 | a second `parse` of a completed file changes nothing and makes no call |
| CodeParserExamples.ParseVisitsDependency | tests/Unit/CodeParserTest.php:37-84 | entry file plus one dependency: both are processed, `getProcessedFiles` lists them in that order, `getDependencies` holds their exact lists, and each collaborator is called once per file |
| CodeParserExamples.ParseFailureMessage | tests/Unit/CodeParserTest.php:86-113 | an AST failure on the entry file raises `解析文件失败: /path/to/test.php` around the collaborator's error and records nothing |
| CodeParserExamples.SecondParseSkipsFile | tests/Unit/CodeParserTest.php:115-150 | parsing the same file twice processes it once and calls each collaborator once |
| CodeParserExamples.CycleTerminates | tests/Unit/CodeParserTest.php:152-206 | the cycle A, B, C, A terminates with the three files processed once in discovery order, their lists recorded, and two calls per file |
| CodeParserProperties.VisitLeaf | src/CodeParser.php:74-96 | visiting a file whose dependencies are all processed makes its two calls and records its list |
| CodeParserProperties.ParseEachAllProcessed | src/CodeParser.php:74-76 | a loop over already processed dependencies does nothing |
| CodeParserExamples.TreeParseIsDepthFirst | src/CodeParser.php:87-96 | with A listing B, C and B listing D, parsing A processes A, B, D, C: B's whole subtree comes before C |
| CodeParserExamples.BreadthFirstOrderIsNotDepthFirst | src/CodeParser.php:87-96 | for that tree, the breadth-first order A, B, C, D is not a completed block of A |

## Left out

- Stopwatch timing and all logger calls (src/CodeParser.php:78-80, 98-107, 109-117; src/Psr4Loader.php:53, 64-67). They are side effects with no influence on results.
- The AST parser and the dependency analyzer themselves. They are pure functions in `Env` that either return a value or raise. The AST is opaque, and `iterator_to_array`'s key handling is not modelled: the dependency list is a sequence.
- Every dependency path is assumed to lie in the finite universe `env.universe` (`Closed`). The source needs no such bound. It is what gives termination of the model, and is not a limit on which graphs are covered.
- File I/O in `loadPsr4Map`: `file_exists` and `require` become the three-way `AutoloadContent` input.
- The PHP-side shape of a loaded table (values that are not lists of strings, numeric-string key coercion). A `Table` is a map from strings to string sequences.
- The order of keys in a PHP array. `ArrayKeys` returns the keys in an arbitrary order, and the result is proved not to depend on that order.
- `strlen` counts bytes, and the model's length counts characters. Two keys that are both prefixes of one name are prefixes of each other, so both measures order them the same way and the chosen prefix is the same.
- `getAstManager`, the constructor wiring of `CodeParser`, ParserFactory, CodeParserInterface and the exception classes. They carry no logic. The stored `psr4Loader` is never used by `parse`.
- `maxRecursionDepth` and `cacheAst` are stored and read back but are never consulted by `parse`, so the model imposes no depth limit.
- ParserConfig setters return the updated value instead of the same mutable instance. Object identity (`assertSame($config, $result)`) is not modelled; chaining is function composition.
- A call-stack overflow on very deep dependency graphs is not modelled.
- Psr4Loader.LoadPsr4Map: the error is a value, not an exception; the loader's state after the error is not represented.
