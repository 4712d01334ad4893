/**
 The dependency traversal of the code parser: starting from an entry file, parse it,
 record it as processed, ask the dependency analyzer for the files it depends on,
 record that list, and recurse into each dependency in order. A file is recorded as
 processed before its dependencies are explored, so a cycle re-enters an already
 processed file and stops there.

 The AST parser and the dependency analyzer are outside this model: they appear as
 pure functions in an `Env`, each either producing a value or raising. Termination
 rests on a finite universe of paths that contains every path the analyzer can return.
 */
module CodeParser {

  /** What a collaborator call did: produced a value, or raised with a message. */
  datatype Attempt<T> = Done(value: T) | Raised(reason: string)

  /** The two collaborators, and the finite set of paths the analyzer can ever name. */
  datatype Env<!Ast> = Env(
    universe: set<string>,
    parseFile: string -> Attempt<Ast>,
    findDependencies: (string, Ast) -> Attempt<seq<string>>)

  /** Every dependency list the analyzer can produce stays inside the universe. */
  ghost predicate Closed<Ast(!new)>(env: Env<Ast>) {
    forall file, ast, d ::
      env.findDependencies(file, ast).Done? && d in env.findDependencies(file, ast).value ==> d in env.universe
  }

  /** The parser's state: processed files in first-visit order, and each file's dependency list. */
  datatype Parser = Parser(processedFiles: seq<string>, dependencies: map<string, seq<string>>)

  /** The state of a freshly constructed parser. */
  const Initial: Parser := Parser([], map[])

  /**
   What `parse` raises: the collaborator's own exception at the bottom, wrapped once
   per recursion level in a parser exception naming the file that level was parsing.
   */
  datatype Error = Cause(reason: string) | ParserException(file: string, previous: Error)

  /** The fixed part of a parser exception's message, followed by the file path. */
  const FailurePrefix: string := "解析文件失败: "

  function Message(e: Error): string {
    match e
    case Cause(reason) => reason
    case ParserException(file, _) => FailurePrefix + file
  }

  /** The files named by an exception chain, outermost first. */
  function ExceptionChain(e: Error): seq<string> {
    match e
    case Cause(_) => []
    case ParserException(file, previous) => [file] + ExceptionChain(previous)
  }

  /** How a call to `parse` ended. */
  datatype Status = Completed | Threw(exception: Error)

  /** A call made to a collaborator, recorded in the order it happened. */
  datatype Call = ParseFileCall(path: string) | FindDependenciesCall(path: string)

  /** The state after a call, how it ended, and the collaborator calls it made. */
  datatype Run = Run(parser: Parser, status: Status, calls: seq<Call>)

  /** `isFileProcessed`: strict membership in the processed list. */
  function IsFileProcessed(p: Parser, file: string): bool {
    file in p.processedFiles
  }

  /** The processed list: exactly the files `isFileProcessed` accepts, each once in a valid state. */
  function GetProcessedFiles(p: Parser): (files: seq<string>)
    ensures forall f :: f in files <==> IsFileProcessed(p, f)
    ensures Valid(p) ==> Distinct(files)
  {
    p.processedFiles
  }

  /** The dependency map: in a valid state only processed files have an entry. */
  function GetDependencies(p: Parser): (deps: map<string, seq<string>>)
    ensures Valid(p) ==> forall f :: f in deps ==> IsFileProcessed(p, f)
  {
    p.dependencies
  }

  ghost predicate Distinct(s: seq<string>) {
    forall i, j :: 0 <= i < j < |s| ==> s[i] != s[j]
  }

  /**
   The invariant of every reachable state: no file is listed twice, and only processed
   files have a dependency entry.
   */
  ghost predicate Valid(p: Parser) {
    && Distinct(p.processedFiles)
    && forall f :: f in p.dependencies ==> f in p.processedFiles
  }

  function Visited(p: Parser): set<string> {
    set f | f in p.processedFiles
  }

  /** The files `after` processed that `before` had not: the suffix appended in between. */
  function Added(before: Parser, after: Parser): seq<string>
    requires |before.processedFiles| <= |after.processedFiles|
  {
    after.processedFiles[|before.processedFiles|..]
  }

  /**
   `q` extends `p`: the old processed list is a prefix of the new one, old dependency
   entries are untouched, and new entries belong only to newly processed files.
   */
  ghost predicate Extends(p: Parser, q: Parser) {
    && p.processedFiles <= q.processedFiles
    && (forall f :: f in p.dependencies ==> f in q.dependencies && q.dependencies[f] == p.dependencies[f])
    && (forall f :: f in q.dependencies && f !in p.dependencies ==> f in Added(p, q))
  }

  /** A subset of a set is no larger. */
  lemma SubsetNoLarger<T>(a: set<T>, b: set<T>)
    requires a <= b
    ensures |a| <= |b|
    decreases |b|
  {
    if a != {} {
      var x :| x in a;
      SubsetNoLarger(a - {x}, b - {x});
    }
  }

  /** Processing more files never increases the number of unvisited files of the universe. */
  lemma UnvisitedShrinks(universe: set<string>, p: Parser, q: Parser)
    requires p.processedFiles <= q.processedFiles
    ensures |universe - Visited(q)| <= |universe - Visited(p)|
  {
    SubsetNoLarger(universe - Visited(q), universe - Visited(p));
  }

  /** Visiting a file of the universe not yet visited strictly reduces the unvisited count. */
  lemma VisitReducesUnvisited(universe: set<string>, p: Parser, file: string, deps: seq<string>)
    requires file !in p.processedFiles
    ensures file in universe ==> |universe - Visited(Record(p, file, deps))| < |universe - Visited(p)|
    ensures |universe - Visited(Record(p, file, deps))| <= |universe - Visited(p)|
  {
    assert universe - Visited(Record(p, file, deps)) == (universe - Visited(p)) - {file};
  }

  /** The files added over two steps are those of the first step followed by those of the second. */
  lemma AddedSplit(p: Parser, q: Parser, r: Parser)
    requires p.processedFiles <= q.processedFiles <= r.processedFiles
    ensures Added(p, r) == Added(p, q) + Added(q, r)
  {
    var a, b := Added(p, q), Added(q, r);
    assert forall k :: 0 <= k < |a| ==> Added(p, r)[k] == a[k];
    assert forall k :: 0 <= k < |b| ==> Added(p, r)[|a| + k] == b[k];
  }

  /** Extension is transitive. */
  lemma ExtendsTransitive(p: Parser, q: Parser, r: Parser)
    requires Extends(p, q) && Extends(q, r)
    ensures Extends(p, r)
  {
    AddedSplit(p, q, r);
  }

  /** A state extends itself. */
  lemma ExtendsReflexive(p: Parser)
    ensures Extends(p, p)
  {
  }

  /** Appending an unprocessed file, and then recording its dependency list, keeps the invariant. */
  lemma VisitStep(p: Parser, file: string, deps: seq<string>)
    requires Valid(p) && file !in p.processedFiles
    ensures Valid(Visit(p, file)) && Extends(p, Visit(p, file)) && Added(p, Visit(p, file)) == [file]
    ensures Valid(Record(p, file, deps)) && Extends(p, Record(p, file, deps)) && Added(p, Record(p, file, deps)) == [file]
  {
    assert Added(p, Visit(p, file)) == [file];
    assert Added(p, Record(p, file, deps)) == [file];
  }

  /**
   Wraps a failure coming out of a dependency in a parser exception naming `file`: its
   message names `file`, and its chain is `file` followed by the chain from below.
   */
  function Wrap(file: string, s: Status): (r: Status)
    ensures r.Completed? <==> s.Completed?
    ensures r.Threw? ==> Message(r.exception) == FailurePrefix + file
    ensures r.Threw? ==> ExceptionChain(r.exception) == [file] + ExceptionChain(s.exception)
    ensures r.Threw? ==> r.exception.ParserException? && r.exception.previous == s.exception
  {
    match s
    case Completed => Completed
    case Threw(e) => Threw(ParserException(file, e))
  }

  /** `p` with `file` appended to the processed list. */
  function Visit(p: Parser, file: string): Parser {
    p.(processedFiles := p.processedFiles + [file])
  }

  /** `p` with `file` appended and its dependency list recorded. */
  function Record(p: Parser, file: string, deps: seq<string>): Parser {
    p.(processedFiles := p.processedFiles + [file], dependencies := p.dependencies[file := deps])
  }

  /** The calls one successful visit of `file` makes: parse it, then ask for its dependencies. */
  function VisitCalls(file: string): seq<Call> {
    [ParseFileCall(file), FindDependenciesCall(file)]
  }

  /**
   The end of a `parse` that reached its dependency loop: the loop's state, its outcome
   wrapped at this level, and this level's two calls before the loop's.
   */
  function Descend(file: string, rest: Run): Run {
    Run(rest.parser, Wrap(file, rest.status), VisitCalls(file) + rest.calls)
  }

  /** One dependency parsed successfully, followed by the rest of the loop. */
  function Sequence(first: Run, rest: Run): Run {
    Run(rest.parser, rest.status, first.calls + rest.calls)
  }

  /**
   `parse`. An already processed file returns at once. Otherwise the AST parser runs;
   if it raises, nothing is recorded. On success the file is appended to the processed
   list before the analyzer runs; if the analyzer raises, the file stays processed
   without a dependency entry. Otherwise the entry is stored and every dependency is
   parsed in order. Any failure leaves this level as a parser exception naming `file`.
   */
  function Parse<Ast(!new)>(env: Env<Ast>, p: Parser, file: string): (r: Run)
    requires Closed(env) && Valid(p)
    ensures Valid(r.parser) && Extends(p, r.parser)
    ensures IsFileProcessed(p, file) ==> r == Run(p, Completed, [])
    ensures r.status.Completed? ==> IsFileProcessed(r.parser, file)
    ensures r.status.Threw? ==> r.status.exception.ParserException? && r.status.exception.file == file
    decreases |env.universe - Visited(p)|, if file in env.universe then 0 else 1, 0
  {
    if IsFileProcessed(p, file) then Run(p, Completed, [])
    else
      VisitStep(p, file, []);
      match env.parseFile(file)
      case Raised(reason) =>
        Run(p, Threw(ParserException(file, Cause(reason))), [ParseFileCall(file)])
      case Done(ast) =>
        match env.findDependencies(file, ast)
        case Raised(reason) =>
          Run(Visit(p, file), Threw(ParserException(file, Cause(reason))), VisitCalls(file))
        case Done(deps) =>
          VisitStep(p, file, deps);
          VisitReducesUnvisited(env.universe, p, file, deps);
          var rest := ParseEach(env, Record(p, file, deps), deps);
          ExtendsTransitive(p, Record(p, file, deps), rest.parser);
          Descend(file, rest)
  }

  /**
   The loop over a file's dependencies: parse each in order and stop at the first
   failure, which propagates unchanged to the enclosing `Parse`.
   */
  function ParseEach<Ast(!new)>(env: Env<Ast>, p: Parser, deps: seq<string>): (r: Run)
    requires Closed(env) && Valid(p)
    requires forall d :: d in deps ==> d in env.universe
    ensures Valid(r.parser) && Extends(p, r.parser)
    ensures r.status.Completed? ==> forall d :: d in deps ==> IsFileProcessed(r.parser, d)
    ensures r.status.Threw? ==> r.status.exception.ParserException? && r.status.exception.file in deps
    decreases |env.universe - Visited(p)|, 0, |deps|
  {
    if deps == [] then Run(p, Completed, [])
    else
      var first := Parse(env, p, deps[0]);
      if first.status.Threw? then first
      else
        UnvisitedShrinks(env.universe, p, first.parser);
        var rest := ParseEach(env, first.parser, deps[1..]);
        ExtendsTransitive(p, first.parser, rest.parser);
        Sequence(first, rest)
  }

  /** Unfolding of `Parse` when both collaborators succeed on an unprocessed file. */
  lemma ParseDescends<Ast(!new)>(env: Env<Ast>, p: Parser, file: string)
    requires Closed(env) && Valid(p) && !IsFileProcessed(p, file)
    requires env.parseFile(file).Done? && env.findDependencies(file, env.parseFile(file).value).Done?
    ensures var deps := env.findDependencies(file, env.parseFile(file).value).value;
            && Valid(Record(p, file, deps))
            && Parse(env, p, file) == Descend(file, ParseEach(env, Record(p, file, deps), deps))
  {
    VisitStep(p, file, env.findDependencies(file, env.parseFile(file).value).value);
  }

  /** Unfolding of `ParseEach` when its first dependency completes. */
  lemma ParseEachContinues<Ast(!new)>(env: Env<Ast>, p: Parser, deps: seq<string>)
    requires Closed(env) && Valid(p) && deps != []
    requires forall d :: d in deps ==> d in env.universe
    ensures Parse(env, p, deps[0]).status.Completed? ==>
              ParseEach(env, p, deps) == Sequence(Parse(env, p, deps[0]), ParseEach(env, Parse(env, p, deps[0]).parser, deps[1..]))
  {
  }
}
