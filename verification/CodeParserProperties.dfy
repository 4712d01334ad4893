/**
 What the traversal guarantees: the exact sequence of collaborator calls (each
 collaborator runs at most once per file), the chain of wrapped exceptions on failure,
 closure of the dependency map after a successful run, and the discovery order of the
 processed list.

 Each property is proved by an induction that follows `Parse` and `ParseEach` call for
 call. The step from a dependency loop to its enclosing `Parse` (`Descend`) and the step
 from one dependency to the next (`Sequence`) each get a lemma of their own, so the
 inductions only have to connect them.
 */
module CodeParserProperties {
  import opened CodeParser

  // ---------------------------------------------------------------------------
  // Collaborator calls
  // ---------------------------------------------------------------------------

  /** The calls a successful visit of each file makes, in order. */
  function Pairs(files: seq<string>): seq<Call> {
    if files == [] then [] else VisitCalls(files[0]) + Pairs(files[1..])
  }

  /** The file whose collaborator raised: the innermost file of the exception chain. */
  function FailingFile(e: Error): string
    requires e.ParserException?
  {
    if e.previous.ParserException? then FailingFile(e.previous) else e.file
  }

  /**
   The call that ended a run whose AST parse failed: the failing file was never
   appended, so its parse is the one call not accounted for by `Pairs`.
   */
  function TrailingCall(r: Run): seq<Call> {
    if r.status.Threw? && r.status.exception.ParserException?
       && FailingFile(r.status.exception) !in r.parser.processedFiles
    then [ParseFileCall(FailingFile(r.status.exception))]
    else []
  }

  /**
   Starting from `p`, run `r` made, in order, one AST parse and one dependency lookup for
   every file it appended, followed by the failed AST parse if there was one.
   */
  ghost predicate CallsAccounted(p: Parser, r: Run) {
    && p.processedFiles <= r.parser.processedFiles
    && r.calls == Pairs(Added(p, r.parser)) + TrailingCall(r)
  }

  lemma {:induction false} PairsAppend(a: seq<string>, b: seq<string>)
    ensures Pairs(a + b) == Pairs(a) + Pairs(b)
    decreases |a|
  {
    if a == [] {
      assert a + b == b;
    } else {
      assert (a + b)[1..] == a[1..] + b;
      PairsAppend(a[1..], b);
    }
  }

  lemma PairsSingle(file: string)
    ensures Pairs([file]) == VisitCalls(file)
  {
    assert [file][1..] == [];
  }

  /** Entering a dependency loop adds this level's two calls in front of the loop's calls. */
  lemma DescendCalls(p: Parser, file: string, deps: seq<string>, rest: Run)
    requires CallsAccounted(Record(p, file, deps), rest)
    requires rest.status.Threw? ==> rest.status.exception.ParserException?
    ensures CallsAccounted(p, Descend(file, rest))
  {
    var tail := Added(Record(p, file, deps), rest.parser);
    AddedSplit(p, Record(p, file, deps), rest.parser);
    assert Added(p, Record(p, file, deps)) == [file];
    PairsAppend([file], tail);
    PairsSingle(file);
    assert TrailingCall(Descend(file, rest)) == TrailingCall(rest);
  }

  /** A successful dependency followed by the rest of the loop: the calls concatenate. */
  lemma SequenceCalls(p: Parser, first: Run, rest: Run)
    requires CallsAccounted(p, first) && first.status.Completed?
    requires CallsAccounted(first.parser, rest)
    ensures CallsAccounted(p, Sequence(first, rest))
  {
    AddedSplit(p, first.parser, rest.parser);
    PairsAppend(Added(p, first.parser), Added(first.parser, rest.parser));
  }

  /**
   The calls of a `parse` are exactly: for every newly processed file, in order, one AST
   parse and one dependency lookup; plus, when an AST parse failed, that one parse.
   */
  lemma {:induction false} ParseCalls<Ast(!new)>(env: Env<Ast>, p: Parser, file: string)
    requires Closed(env) && Valid(p)
    ensures CallsAccounted(p, Parse(env, p, file))
    decreases |env.universe - Visited(p)|, if file in env.universe then 0 else 1, 0
  {
    if !IsFileProcessed(p, file) && env.parseFile(file).Done?
       && env.findDependencies(file, env.parseFile(file).value).Done?
    {
      var deps := env.findDependencies(file, env.parseFile(file).value).value;
      VisitStep(p, file, deps);
      VisitReducesUnvisited(env.universe, p, file, deps);
      ParseEachCalls(env, Record(p, file, deps), deps);
      DescendCalls(p, file, deps, ParseEach(env, Record(p, file, deps), deps));
    } else {
      ShortCalls(env, p, file);
    }
  }

  /** The runs that never reach the dependency loop. */
  lemma ShortCalls<Ast(!new)>(env: Env<Ast>, p: Parser, file: string)
    requires Closed(env) && Valid(p)
    requires IsFileProcessed(p, file) || env.parseFile(file).Raised?
             || env.findDependencies(file, env.parseFile(file).value).Raised?
    ensures CallsAccounted(p, Parse(env, p, file))
  {
    assert Added(p, p) == [];
    if !IsFileProcessed(p, file) {
      VisitStep(p, file, []);
      PairsSingle(file);
    }
  }

  lemma {:induction false} ParseEachCalls<Ast(!new)>(env: Env<Ast>, p: Parser, deps: seq<string>)
    requires Closed(env) && Valid(p)
    requires forall d :: d in deps ==> d in env.universe
    ensures CallsAccounted(p, ParseEach(env, p, deps))
    decreases |env.universe - Visited(p)|, 0, |deps|
  {
    if deps == [] {
      assert Added(p, p) == [];
    } else {
      ParseCalls(env, p, deps[0]);
      var first := Parse(env, p, deps[0]);
      if first.status.Completed? {
        UnvisitedShrinks(env.universe, p, first.parser);
        ParseEachCalls(env, first.parser, deps[1..]);
        SequenceCalls(p, first, ParseEach(env, first.parser, deps[1..]));
      }
    }
  }

  /** One visit makes each of its two calls once and no other call. */
  lemma VisitCallsCount(f: string, c: Call)
    ensures multiset(VisitCalls(f))[c] == if c.path == f then 1 else 0
  {
  }

  lemma PairsHead(files: seq<string>)
    requires files != []
    ensures multiset(Pairs(files)) == multiset(VisitCalls(files[0])) + multiset(Pairs(files[1..]))
  {
  }

  lemma MultisetHead(s: seq<string>)
    requires s != []
    ensures multiset(s) == multiset{s[0]} + multiset(s[1..])
  {
    assert s == [s[0]] + s[1..];
  }

  /** `Pairs` calls each collaborator once per occurrence of a file. */
  lemma {:induction false} PairsCount(files: seq<string>, c: Call)
    ensures multiset(Pairs(files))[c] == multiset(files)[c.path]
    decreases |files|
  {
    if files != [] {
      PairsCount(files[1..], c);
      PairsHead(files);
      MultisetHead(files);
      VisitCallsCount(files[0], c);
    }
  }

  lemma {:induction false} DistinctCount(s: seq<string>, g: string)
    requires Distinct(s)
    ensures multiset(s)[g] == if g in s then 1 else 0
    decreases |s|
  {
    if s != [] {
      assert s == [s[0]] + s[1..];
      DistinctCount(s[1..], g);
    }
  }

  /** The two halves of a list without repetitions share no element. */
  lemma DistinctSplit(a: seq<string>, b: seq<string>)
    requires Distinct(a + b)
    ensures Distinct(b)
    ensures forall x :: x in a ==> x !in b
  {
    forall i, j | 0 <= i < j < |b| ensures b[i] != b[j] {
      assert (a + b)[|a| + i] == b[i] && (a + b)[|a| + j] == b[j];
    }
    forall x | x in a ensures x !in b {
      var i :| 0 <= i < |a| && a[i] == x;
      forall k | 0 <= k < |b| ensures b[k] != x {
        assert (a + b)[i] == a[i] && (a + b)[|a| + k] == b[k];
      }
    }
  }

  /** The counting consequences of `CallsAccounted` for a run that keeps the invariant. */
  lemma CallCounts(p: Parser, r: Run, g: string)
    requires CallsAccounted(p, r) && Valid(r.parser)
    ensures multiset(r.calls)[FindDependenciesCall(g)] == (if g in Added(p, r.parser) then 1 else 0)
    ensures multiset(r.calls)[ParseFileCall(g)] <= 1
    ensures g in Added(p, r.parser) ==> multiset(r.calls)[ParseFileCall(g)] == 1
    ensures g in p.processedFiles ==> multiset(r.calls)[ParseFileCall(g)] == 0
  {
    var added := Added(p, r.parser);
    assert r.parser.processedFiles == p.processedFiles + added;
    DistinctSplit(p.processedFiles, added);
    PairsCount(added, ParseFileCall(g));
    PairsCount(added, FindDependenciesCall(g));
    DistinctCount(added, g);
    assert multiset(r.calls) == multiset(Pairs(added)) + multiset(TrailingCall(r));
  }

  /**
   Each collaborator runs at most once per file in a call of `parse`: the analyzer runs
   exactly for the newly processed files, the AST parser for those and at most one more
   (the file whose parse failed), and neither runs for a file processed beforehand.
   */
  lemma CollaboratorsRunOncePerFile<Ast(!new)>(env: Env<Ast>, p: Parser, file: string, g: string)
    requires Closed(env) && Valid(p)
    ensures var r := Parse(env, p, file);
            && multiset(r.calls)[FindDependenciesCall(g)] == (if g in Added(p, r.parser) then 1 else 0)
            && multiset(r.calls)[ParseFileCall(g)] <= 1
            && (g in Added(p, r.parser) ==> multiset(r.calls)[ParseFileCall(g)] == 1)
            && (IsFileProcessed(p, g) ==> multiset(r.calls)[ParseFileCall(g)] == 0)
  {
    ParseCalls(env, p, file);
    CallCounts(p, Parse(env, p, file), g);
  }

  // ---------------------------------------------------------------------------
  // Failures
  // ---------------------------------------------------------------------------

  /**
   A chain of parser exceptions that starts at one of `roots`, where each file lists the
   next one among its recorded dependencies, and that ends at a file with no recorded
   entry (the file whose collaborator raised).
   */
  ghost predicate ChainThrough(q: Parser, e: Error, roots: seq<string>) {
    var c := ExceptionChain(e);
    && e.ParserException?
    && |c| >= 1
    && c[0] in roots
    && (forall j :: 0 <= j < |c| - 1 ==> c[j] in q.dependencies && c[j + 1] in q.dependencies[c[j]])
    && c[|c| - 1] == FailingFile(e)
    && FailingFile(e) !in q.dependencies
  }

  /** A failed run raised a chain through its final state starting at one of `roots`. */
  ghost predicate FailureChained(r: Run, roots: seq<string>) {
    r.status.Threw? ==> ChainThrough(r.parser, r.status.exception, roots)
  }

  lemma {:induction false} ChainShape(e: Error)
    requires e.ParserException?
    ensures |ExceptionChain(e)| >= 1 && ExceptionChain(e)[0] == e.file
    ensures ExceptionChain(e)[|ExceptionChain(e)| - 1] == FailingFile(e)
    decreases e
  {
    if e.previous.ParserException? {
      ChainShape(e.previous);
    }
  }

  lemma ChainRootsWiden(r: Run, roots: seq<string>, roots': seq<string>)
    requires FailureChained(r, roots)
    requires forall x :: x in roots ==> x in roots'
    ensures FailureChained(r, roots')
  {
  }

  /** Wrapping a loop's failure at this level puts `file` in front of the chain. */
  lemma DescendChain(p: Parser, file: string, deps: seq<string>, rest: Run)
    requires Extends(Record(p, file, deps), rest.parser)
    requires FailureChained(rest, deps)
    ensures FailureChained(Descend(file, rest), [file])
  {
    if rest.status.Threw? {
      var inner := rest.status.exception;
      var e := ParserException(file, inner);
      var ci, c := ExceptionChain(inner), ExceptionChain(e);
      assert c == [file] + ci;
      ChainShape(inner);
      assert file in rest.parser.dependencies && rest.parser.dependencies[file] == deps;
      forall j | 0 <= j < |c| - 1
        ensures c[j] in rest.parser.dependencies && c[j + 1] in rest.parser.dependencies[c[j]]
      {
        if j > 0 {
          assert c[j] == ci[j - 1] && c[j + 1] == ci[j];
        }
      }
    }
  }

  /**
   Inside the exception of a failed `parse(file)`, each level wraps the exception of the
   dependency it was parsing, down to the file whose collaborator raised, which has no
   dependency entry.
   */
  lemma {:induction false} ParseFailureChain<Ast(!new)>(env: Env<Ast>, p: Parser, file: string)
    requires Closed(env) && Valid(p)
    ensures FailureChained(Parse(env, p, file), [file])
    decreases |env.universe - Visited(p)|, if file in env.universe then 0 else 1, 0
  {
    if !IsFileProcessed(p, file) && env.parseFile(file).Done?
       && env.findDependencies(file, env.parseFile(file).value).Done?
    {
      var deps := env.findDependencies(file, env.parseFile(file).value).value;
      VisitStep(p, file, deps);
      VisitReducesUnvisited(env.universe, p, file, deps);
      ParseEachFailureChain(env, Record(p, file, deps), deps);
      DescendChain(p, file, deps, ParseEach(env, Record(p, file, deps), deps));
    } else {
      ShortFailureChain(env, p, file);
    }
  }

  /** A run that never reaches the dependency loop fails, if at all, at `file` itself. */
  lemma ShortFailureChain<Ast(!new)>(env: Env<Ast>, p: Parser, file: string)
    requires Closed(env) && Valid(p)
    requires IsFileProcessed(p, file) || env.parseFile(file).Raised?
             || env.findDependencies(file, env.parseFile(file).value).Raised?
    ensures FailureChained(Parse(env, p, file), [file])
  {
    if !IsFileProcessed(p, file) {
      VisitStep(p, file, []);
      match env.parseFile(file)
      case Raised(reason) =>
        LeafChain(p, file, reason);
      case Done(ast) =>
        LeafChain(Visit(p, file), file, env.findDependencies(file, ast).reason);
    }
  }

  /** A collaborator failure at a file without an entry is a chain of one. */
  lemma LeafChain(q: Parser, file: string, reason: string)
    requires file !in q.dependencies
    ensures ChainThrough(q, ParserException(file, Cause(reason)), [file])
  {
    assert ExceptionChain(ParserException(file, Cause(reason))) == [file];
  }

  /**
   A failed `parse(file)` raises a parser exception whose message names `file` and whose
   chain runs through recorded dependency lists down to the file whose collaborator raised.
   */
  lemma ParseFailureNamesFile<Ast(!new)>(env: Env<Ast>, p: Parser, file: string)
    requires Closed(env) && Valid(p)
    ensures var r := Parse(env, p, file);
            r.status.Threw? ==>
              && Message(r.status.exception) == FailurePrefix + file
              && ChainThrough(r.parser, r.status.exception, [file])
  {
    ParseFailureChain(env, p, file);
  }

  lemma {:induction false} ParseEachFailureChain<Ast(!new)>(env: Env<Ast>, p: Parser, deps: seq<string>)
    requires Closed(env) && Valid(p)
    requires forall d :: d in deps ==> d in env.universe
    ensures FailureChained(ParseEach(env, p, deps), deps)
    decreases |env.universe - Visited(p)|, 0, |deps|
  {
    if deps != [] {
      ParseFailureChain(env, p, deps[0]);
      var first := Parse(env, p, deps[0]);
      if first.status.Completed? {
        UnvisitedShrinks(env.universe, p, first.parser);
        ParseEachFailureChain(env, first.parser, deps[1..]);
        ChainRootsWiden(ParseEach(env, first.parser, deps[1..]), deps[1..], deps);
      } else {
        ChainRootsWiden(first, [deps[0]], deps);
      }
    }
  }

  /**
   The three ways a `parse` of an unprocessed file can go at its own level. An AST failure
   records nothing. A dependency-discovery failure leaves the file processed but without
   an entry. Once the dependency list is obtained, the file is appended at the end of the
   old list and keeps that exact list as its entry, even if one of its dependencies then
   fails.
   */
  lemma ParseOwnStep<Ast(!new)>(env: Env<Ast>, p: Parser, file: string)
    requires Closed(env) && Valid(p) && !IsFileProcessed(p, file)
    ensures var r := Parse(env, p, file);
            env.parseFile(file).Raised? ==>
              && r.parser == p
              && r.status == Threw(ParserException(file, Cause(env.parseFile(file).reason)))
              && r.calls == [ParseFileCall(file)]
    ensures var r := Parse(env, p, file);
            env.parseFile(file).Done? && env.findDependencies(file, env.parseFile(file).value).Raised? ==>
              && r.parser.processedFiles == p.processedFiles + [file]
              && r.parser.dependencies == p.dependencies
              && file !in r.parser.dependencies
              && r.status == Threw(ParserException(file, Cause(env.findDependencies(file, env.parseFile(file).value).reason)))
    ensures var r := Parse(env, p, file);
            env.parseFile(file).Done? && env.findDependencies(file, env.parseFile(file).value).Done? ==>
              && |r.parser.processedFiles| > |p.processedFiles|
              && r.parser.processedFiles[|p.processedFiles|] == file
              && file in r.parser.dependencies
              && r.parser.dependencies[file] == env.findDependencies(file, env.parseFile(file).value).value
  {
    VisitStep(p, file, []);
    match env.parseFile(file)
    case Raised(_) =>
    case Done(ast) =>
      match env.findDependencies(file, ast)
      case Raised(_) =>
      case Done(deps) =>
        VisitStep(p, file, deps);
        var r := Parse(env, p, file);
        assert Record(p, file, deps).processedFiles <= r.parser.processedFiles;
        assert r.parser.processedFiles[|p.processedFiles|] == Record(p, file, deps).processedFiles[|p.processedFiles|];
  }

  /**
   After a dependency-discovery failure the file counts as processed, so parsing it
   again returns at once: it never gets a dependency entry and the analyzer is not
   asked again.
   */
  lemma DiscoveryFailureIsNotRetried<Ast(!new)>(env: Env<Ast>, p: Parser, file: string)
    requires Closed(env) && Valid(p) && !IsFileProcessed(p, file)
    requires env.parseFile(file).Done? && env.findDependencies(file, env.parseFile(file).value).Raised?
    ensures var r := Parse(env, p, file);
            && IsFileProcessed(r.parser, file)
            && file !in r.parser.dependencies
            && Parse(env, r.parser, file) == Run(r.parser, Completed, [])
  {
    ParseOwnStep(env, p, file);
  }

  // ---------------------------------------------------------------------------
  // Closure of a successful run
  // ---------------------------------------------------------------------------

  /** Every file of `files` has an entry in `q`, and every dependency listed there is processed in `q`. */
  ghost predicate ClosedOver(q: Parser, files: seq<string>) {
    forall g :: g in files ==>
      g in q.dependencies && forall d :: d in q.dependencies[g] ==> d in q.processedFiles
  }

  /** After a successful run, every file it appended is closed over in its final state. */
  ghost predicate ClosesAdded(p: Parser, r: Run)
    requires p.processedFiles <= r.parser.processedFiles
  {
    r.status.Completed? ==> ClosedOver(r.parser, Added(p, r.parser))
  }

  lemma ClosedOverExtends(q: Parser, r: Parser, files: seq<string>)
    requires ClosedOver(q, files) && Extends(q, r)
    ensures ClosedOver(r, files)
  {
  }

  lemma DescendClosed(p: Parser, file: string, deps: seq<string>, rest: Run)
    requires Extends(Record(p, file, deps), rest.parser)
    requires ClosesAdded(Record(p, file, deps), rest)
    requires rest.status.Completed? ==> forall d :: d in deps ==> IsFileProcessed(rest.parser, d)
    ensures ClosesAdded(p, Descend(file, rest))
  {
    AddedSplit(p, Record(p, file, deps), rest.parser);
    assert Added(p, Record(p, file, deps)) == [file];
  }

  lemma SequenceClosed(p: Parser, first: Run, rest: Run)
    requires p.processedFiles <= first.parser.processedFiles && first.status.Completed?
    requires ClosesAdded(p, first) && Extends(first.parser, rest.parser)
    requires ClosesAdded(first.parser, rest)
    ensures ClosesAdded(p, Sequence(first, rest))
  {
    AddedSplit(p, first.parser, rest.parser);
    ClosedOverExtends(first.parser, rest.parser, Added(p, first.parser));
  }

  /**
   A successful `parse` leaves every newly processed file with an entry, and every file
   such an entry lists is itself processed.
   */
  lemma {:induction false} ParseClosesAdded<Ast(!new)>(env: Env<Ast>, p: Parser, file: string)
    requires Closed(env) && Valid(p)
    ensures ClosesAdded(p, Parse(env, p, file))
    decreases |env.universe - Visited(p)|, if file in env.universe then 0 else 1, 0
  {
    if IsFileProcessed(p, file) {
      assert Added(p, p) == [];
    } else {
      VisitStep(p, file, []);
      match env.parseFile(file)
      case Raised(_) =>
      case Done(ast) =>
        match env.findDependencies(file, ast)
        case Raised(_) =>
        case Done(deps) =>
          VisitStep(p, file, deps);
          VisitReducesUnvisited(env.universe, p, file, deps);
          ParseEachClosesAdded(env, Record(p, file, deps), deps);
          DescendClosed(p, file, deps, ParseEach(env, Record(p, file, deps), deps));
    }
  }

  lemma {:induction false} ParseEachClosesAdded<Ast(!new)>(env: Env<Ast>, p: Parser, deps: seq<string>)
    requires Closed(env) && Valid(p)
    requires forall d :: d in deps ==> d in env.universe
    ensures ClosesAdded(p, ParseEach(env, p, deps))
    decreases |env.universe - Visited(p)|, 0, |deps|
  {
    if deps == [] {
      assert Added(p, p) == [];
    } else {
      ParseClosesAdded(env, p, deps[0]);
      var first := Parse(env, p, deps[0]);
      if first.status.Completed? {
        UnvisitedShrinks(env.universe, p, first.parser);
        ParseEachClosesAdded(env, first.parser, deps[1..]);
        SequenceClosed(p, first, ParseEach(env, first.parser, deps[1..]));
      }
    }
  }

  /**
   A complete state: the invariant holds, every processed file has an entry, and every
   listed dependency is processed.
   */
  ghost predicate Complete(q: Parser) {
    && Valid(q)
    && (forall g :: g in q.processedFiles ==> g in q.dependencies)
    && (forall g, d :: g in q.dependencies && d in q.dependencies[g] ==> d in q.processedFiles)
  }

  lemma CompleteExtends(p: Parser, q: Parser)
    requires Complete(p) && Valid(q) && Extends(p, q)
    requires ClosedOver(q, Added(p, q))
    ensures Complete(q)
  {
    assert q.processedFiles == p.processedFiles + Added(p, q);
  }

  /** A fresh parser is complete, and a successful `parse` keeps a complete state complete. */
  lemma ParseKeepsComplete<Ast(!new)>(env: Env<Ast>, p: Parser, file: string)
    requires Closed(env) && Complete(p)
    ensures Complete(Initial)
    ensures var r := Parse(env, p, file);
            r.status.Completed? ==> Complete(r.parser) && IsFileProcessed(r.parser, file)
  {
    var r := Parse(env, p, file);
    ParseClosesAdded(env, p, file);
    if r.status.Completed? {
      CompleteExtends(p, r.parser);
    }
  }

  // ---------------------------------------------------------------------------
  // Discovery order
  // ---------------------------------------------------------------------------

  /** `parent` is recorded in `q` with `child` among its dependencies. */
  ghost predicate Lists(q: Parser, parent: string, child: string) {
    parent in q.dependencies && child in q.dependencies[parent]
  }

  /**
   Every file of `files` is one of `roots` or is listed as a dependency by a file that
   comes earlier in `files`.
   */
  ghost predicate DiscoveredInOrder(q: Parser, files: seq<string>, roots: seq<string>) {
    forall i :: 0 <= i < |files| ==>
      files[i] in roots || exists j :: 0 <= j < i && Lists(q, files[j], files[i])
  }

  lemma DiscoveredInOrderExtends(q: Parser, r: Parser, files: seq<string>, roots: seq<string>, roots': seq<string>)
    requires DiscoveredInOrder(q, files, roots) && Extends(q, r)
    requires forall x :: x in roots ==> x in roots'
    ensures DiscoveredInOrder(r, files, roots')
  {
    forall i | 0 <= i < |files| && files[i] !in roots'
      ensures exists j :: 0 <= j < i && Lists(r, files[j], files[i])
    {
      var j :| 0 <= j < i && Lists(q, files[j], files[i]);
      assert Lists(r, files[j], files[i]);
    }
  }

  lemma DiscoveredInOrderAppend(q: Parser, a: seq<string>, b: seq<string>, roots: seq<string>)
    requires DiscoveredInOrder(q, a, roots) && DiscoveredInOrder(q, b, roots)
    ensures DiscoveredInOrder(q, a + b, roots)
  {
    var s := a + b;
    forall i | 0 <= i < |s| && s[i] !in roots
      ensures exists j :: 0 <= j < i && Lists(q, s[j], s[i])
    {
      if i < |a| {
        var j :| 0 <= j < i && Lists(q, a[j], a[i]);
        assert s[j] == a[j];
      } else {
        var k := i - |a|;
        assert s[i] == b[k];
        var j :| 0 <= j < k && Lists(q, b[j], b[k]);
        assert s[|a| + j] == b[j];
      }
    }
  }

  /** Starting from `p`, run `r` appended `root` first, and every later file was listed by an earlier one. */
  ghost predicate DiscoveryOrder(p: Parser, r: Run, root: string)
    requires p.processedFiles <= r.parser.processedFiles
  {
    && (|Added(p, r.parser)| > 0 ==> Added(p, r.parser)[0] == root)
    && DiscoveredInOrder(r.parser, Added(p, r.parser), [root])
  }

  lemma DescendDiscovery(p: Parser, file: string, deps: seq<string>, rest: Run)
    requires Extends(Record(p, file, deps), rest.parser)
    requires DiscoveredInOrder(rest.parser, Added(Record(p, file, deps), rest.parser), deps)
    ensures DiscoveryOrder(p, Descend(file, rest), file)
  {
    var tail := Added(Record(p, file, deps), rest.parser);
    var added := Added(p, rest.parser);
    AddedSplit(p, Record(p, file, deps), rest.parser);
    assert Added(p, Record(p, file, deps)) == [file];
    assert added == [file] + tail;
    forall i | 0 <= i < |added| && added[i] !in [file]
      ensures exists j :: 0 <= j < i && Lists(rest.parser, added[j], added[i])
    {
      assert added[i] == tail[i - 1];
      if tail[i - 1] in deps {
        assert Lists(rest.parser, added[0], added[i]);
      } else {
        var j :| 0 <= j < i - 1 && Lists(rest.parser, tail[j], tail[i - 1]);
        assert added[j + 1] == tail[j];
      }
    }
  }

  lemma SequenceDiscovery(p: Parser, first: Run, rest: Run, deps: seq<string>)
    requires deps != [] && p.processedFiles <= first.parser.processedFiles
    requires DiscoveryOrder(p, first, deps[0]) && Extends(first.parser, rest.parser)
    requires DiscoveredInOrder(rest.parser, Added(first.parser, rest.parser), deps[1..])
    ensures DiscoveredInOrder(rest.parser, Added(p, rest.parser), deps)
  {
    DiscoveredInOrderExtends(first.parser, rest.parser, Added(p, first.parser), [deps[0]], deps);
    ExtendsReflexive(rest.parser);
    DiscoveredInOrderExtends(rest.parser, rest.parser, Added(first.parser, rest.parser), deps[1..], deps);
    DiscoveredInOrderAppend(rest.parser, Added(p, first.parser), Added(first.parser, rest.parser), deps);
    AddedSplit(p, first.parser, rest.parser);
  }

  /**
   Discovery order, for failed runs too: the first file a `parse(file)` appends is `file`
   itself, and every later one was listed as a dependency by a file appended before it.
   `ParseDepthFirst` pins the order down further.
   */
  lemma {:induction false} ParseDiscoveryOrder<Ast(!new)>(env: Env<Ast>, p: Parser, file: string)
    requires Closed(env) && Valid(p)
    ensures DiscoveryOrder(p, Parse(env, p, file), file)
    decreases |env.universe - Visited(p)|, if file in env.universe then 0 else 1, 0
  {
    if !IsFileProcessed(p, file) && env.parseFile(file).Done?
       && env.findDependencies(file, env.parseFile(file).value).Done?
    {
      var deps := env.findDependencies(file, env.parseFile(file).value).value;
      VisitStep(p, file, deps);
      VisitReducesUnvisited(env.universe, p, file, deps);
      ParseEachDiscoveryOrder(env, Record(p, file, deps), deps);
      DescendDiscovery(p, file, deps, ParseEach(env, Record(p, file, deps), deps));
    } else {
      ShortDiscoveryOrder(env, p, file);
    }
  }

  /** A run that never reaches the dependency loop appends at most `file` itself. */
  lemma ShortDiscoveryOrder<Ast(!new)>(env: Env<Ast>, p: Parser, file: string)
    requires Closed(env) && Valid(p)
    requires IsFileProcessed(p, file) || env.parseFile(file).Raised?
             || env.findDependencies(file, env.parseFile(file).value).Raised?
    ensures DiscoveryOrder(p, Parse(env, p, file), file)
  {
    assert Added(p, p) == [];
    if !IsFileProcessed(p, file) {
      VisitStep(p, file, []);
    }
  }

  lemma {:induction false} ParseEachDiscoveryOrder<Ast(!new)>(env: Env<Ast>, p: Parser, deps: seq<string>)
    requires Closed(env) && Valid(p)
    requires forall d :: d in deps ==> d in env.universe
    ensures DiscoveredInOrder(ParseEach(env, p, deps).parser, Added(p, ParseEach(env, p, deps).parser), deps)
    decreases |env.universe - Visited(p)|, 0, |deps|
  {
    if deps == [] {
      assert Added(p, p) == [];
    } else {
      ParseDiscoveryOrder(env, p, deps[0]);
      var first := Parse(env, p, deps[0]);
      ExtendsReflexive(first.parser);
      if first.status.Threw? {
        DiscoveredInOrderExtends(first.parser, first.parser, Added(p, first.parser), [deps[0]], deps);
      } else {
        UnvisitedShrinks(env.universe, p, first.parser);
        ParseEachDiscoveryOrder(env, first.parser, deps[1..]);
        SequenceDiscovery(p, first, ParseEach(env, first.parser, deps[1..]), deps);
      }
    }
  }

  // ---------------------------------------------------------------------------
  // Depth-first order
  // ---------------------------------------------------------------------------

  /**
   Positions `lo` to `hi` of `q`'s processed list are what a `parse(f)` appended that
   started when `lo` files were processed, and it completed exactly when `ok` holds.
   An empty block means `f` was processed already (a completed call) or its AST parse
   failed (a failed one). Otherwise the block starts with `f`; either `f` has no entry
   (its dependency discovery failed) and the block is `[f]`, or the rest of the block
   is made of one block per dependency listed under `f`, in list order.
   */
  ghost predicate DfsBlock(q: Parser, f: string, lo: nat, hi: nat, ok: bool)
    requires lo <= hi <= |q.processedFiles|
    decreases hi - lo, 0, 0
  {
    if lo == hi then (ok <==> f in q.processedFiles[..lo])
    else
      && q.processedFiles[lo] == f
      && if f in q.dependencies then DfsBlocks(q, q.dependencies[f], lo + 1, hi, ok)
         else !ok && hi == lo + 1
  }

  /**
   Positions `lo` to `hi` are consecutive blocks for `deps`, in order: each completed
   block is followed by the block of the next dependency, and a failed block ends the
   sequence.
   */
  ghost predicate DfsBlocks(q: Parser, deps: seq<string>, lo: nat, hi: nat, ok: bool)
    requires lo <= hi <= |q.processedFiles|
    decreases hi - lo, 1, |deps|
  {
    if deps == [] then ok && lo == hi
    else
      || (!ok && DfsBlock(q, deps[0], lo, hi, false))
      || exists mid :: lo <= mid <= hi && DfsBlock(q, deps[0], lo, mid, true) && DfsBlocks(q, deps[1..], mid, hi, ok)
  }

  /** A completed block stays one as the state is extended. */
  lemma {:induction false} DfsBlockExtends(q: Parser, q': Parser, f: string, lo: nat, hi: nat)
    requires Extends(q, q') && lo <= hi <= |q.processedFiles|
    requires DfsBlock(q, f, lo, hi, true)
    ensures hi <= |q'.processedFiles| && DfsBlock(q', f, lo, hi, true)
    decreases hi - lo, 0, 0
  {
    assert q'.processedFiles[..hi] == q.processedFiles[..hi];
    if lo == hi {
      assert q'.processedFiles[..lo] == q.processedFiles[..lo];
    } else {
      assert q'.processedFiles[lo] == q.processedFiles[lo];
      DfsBlocksExtends(q, q', q.dependencies[f], lo + 1, hi);
    }
  }

  lemma {:induction false} DfsBlocksExtends(q: Parser, q': Parser, deps: seq<string>, lo: nat, hi: nat)
    requires Extends(q, q') && lo <= hi <= |q.processedFiles|
    requires DfsBlocks(q, deps, lo, hi, true)
    ensures hi <= |q'.processedFiles| && DfsBlocks(q', deps, lo, hi, true)
    decreases hi - lo, 1, |deps|
  {
    if deps != [] {
      var mid :| lo <= mid <= hi && DfsBlock(q, deps[0], lo, mid, true) && DfsBlocks(q, deps[1..], mid, hi, true);
      DfsBlockExtends(q, q', deps[0], lo, mid);
      DfsBlocksExtends(q, q', deps[1..], mid, hi);
    }
  }

  lemma DescendDepthFirst(p: Parser, file: string, deps: seq<string>, rest: Run)
    requires Valid(p) && file !in p.processedFiles
    requires Extends(Record(p, file, deps), rest.parser)
    requires DfsBlocks(rest.parser, deps, |p.processedFiles| + 1, |rest.parser.processedFiles|, rest.status.Completed?)
    ensures DfsBlock(rest.parser, file, |p.processedFiles|, |rest.parser.processedFiles|, Descend(file, rest).status.Completed?)
  {
    var q := Record(p, file, deps);
    assert q.processedFiles[|p.processedFiles|] == file;
    assert rest.parser.processedFiles[|p.processedFiles|] == file;
    assert file in rest.parser.dependencies && rest.parser.dependencies[file] == deps;
  }

  /** A run that never reaches the dependency loop is an empty block or the block `[file]`. */
  lemma ShortDepthFirst<Ast(!new)>(env: Env<Ast>, p: Parser, file: string)
    requires Closed(env) && Valid(p)
    requires IsFileProcessed(p, file) || env.parseFile(file).Raised?
             || env.findDependencies(file, env.parseFile(file).value).Raised?
    ensures var r := Parse(env, p, file);
            DfsBlock(r.parser, file, |p.processedFiles|, |r.parser.processedFiles|, r.status.Completed?)
  {
    assert p.processedFiles[..|p.processedFiles|] == p.processedFiles;
    if !IsFileProcessed(p, file) && env.parseFile(file).Done? {
      var q := Visit(p, file);
      assert q.processedFiles[|p.processedFiles|] == file;
      assert file !in q.dependencies;
    }
  }

  lemma SequenceDepthFirst(p: Parser, first: Run, rest: Run, deps: seq<string>)
    requires deps != [] && first.status.Completed?
    requires Extends(p, first.parser) && Extends(first.parser, rest.parser)
    requires DfsBlock(first.parser, deps[0], |p.processedFiles|, |first.parser.processedFiles|, true)
    requires DfsBlocks(rest.parser, deps[1..], |first.parser.processedFiles|, |rest.parser.processedFiles|, rest.status.Completed?)
    ensures DfsBlocks(rest.parser, deps, |p.processedFiles|, |rest.parser.processedFiles|, rest.status.Completed?)
  {
    DfsBlockExtends(first.parser, rest.parser, deps[0], |p.processedFiles|, |first.parser.processedFiles|);
  }

  /**
   Depth-first pre-order, exactly: what `parse(file)` appends is the block of `file`, so
   `file` comes first, followed by the whole block of its first dependency, then the
   whole block of the second, and so on. An empty block completed exactly when the
   dependency was processed already; an empty failed block is a dependency whose AST
   parse raised, and a failure ends every enclosing block.
   */
  lemma {:induction false} ParseDepthFirst<Ast(!new)>(env: Env<Ast>, p: Parser, file: string)
    requires Closed(env) && Valid(p)
    ensures var r := Parse(env, p, file);
            DfsBlock(r.parser, file, |p.processedFiles|, |r.parser.processedFiles|, r.status.Completed?)
    decreases |env.universe - Visited(p)|, if file in env.universe then 0 else 1, 0
  {
    if !IsFileProcessed(p, file) && env.parseFile(file).Done?
       && env.findDependencies(file, env.parseFile(file).value).Done?
    {
      var deps := env.findDependencies(file, env.parseFile(file).value).value;
      VisitStep(p, file, deps);
      VisitReducesUnvisited(env.universe, p, file, deps);
      ParseEachDepthFirst(env, Record(p, file, deps), deps);
      DescendDepthFirst(p, file, deps, ParseEach(env, Record(p, file, deps), deps));
      ParseDescends(env, p, file);
    } else {
      ShortDepthFirst(env, p, file);
    }
  }

  /** The loop appends one block per dependency, in list order, up to the first failure. */
  lemma {:induction false} ParseEachDepthFirst<Ast(!new)>(env: Env<Ast>, p: Parser, deps: seq<string>)
    requires Closed(env) && Valid(p)
    requires forall d :: d in deps ==> d in env.universe
    ensures var r := ParseEach(env, p, deps);
            DfsBlocks(r.parser, deps, |p.processedFiles|, |r.parser.processedFiles|, r.status.Completed?)
    decreases |env.universe - Visited(p)|, 0, |deps|
  {
    if deps != [] {
      ParseDepthFirst(env, p, deps[0]);
      var first := Parse(env, p, deps[0]);
      if first.status.Completed? {
        UnvisitedShrinks(env.universe, p, first.parser);
        ParseEachDepthFirst(env, first.parser, deps[1..]);
        SequenceDepthFirst(p, first, ParseEach(env, first.parser, deps[1..]), deps);
      }
    }
  }

  // ---------------------------------------------------------------------------
  // Processed files
  // ---------------------------------------------------------------------------

  /**
   A call of `parse` never forgets a file: afterwards a file counts as processed exactly
   when it did before or the call appended it.
   */
  lemma ParseKeepsProcessed<Ast(!new)>(env: Env<Ast>, p: Parser, file: string, g: string)
    requires Closed(env) && Valid(p)
    ensures var r := Parse(env, p, file);
            IsFileProcessed(r.parser, g) <==> IsFileProcessed(p, g) || g in Added(p, r.parser)
  {
    var r := Parse(env, p, file);
    assert r.parser.processedFiles == p.processedFiles + Added(p, r.parser);
  }

  // ---------------------------------------------------------------------------
  // Short dependency lists
  // ---------------------------------------------------------------------------

  /** A loop over dependencies that are all processed already does nothing. */
  lemma {:induction false} ParseEachAllProcessed<Ast(!new)>(env: Env<Ast>, q: Parser, deps: seq<string>)
    requires Closed(env) && Valid(q)
    requires forall d :: d in deps ==> d in env.universe && IsFileProcessed(q, d)
    ensures ParseEach(env, q, deps) == Run(q, Completed, [])
    decreases |deps|
  {
    if deps != [] {
      ParseEachAllProcessed(env, q, deps[1..]);
    }
  }

  /** Visiting a file whose dependencies are all processed already (or itself): two calls, one entry. */
  lemma VisitLeaf<Ast(!new)>(env: Env<Ast>, p: Parser, file: string, deps: seq<string>)
    requires Closed(env) && Valid(p) && !IsFileProcessed(p, file)
    requires env.parseFile(file).Done? && env.findDependencies(file, env.parseFile(file).value) == Done(deps)
    requires forall d :: d in deps ==> d == file || IsFileProcessed(p, d)
    ensures Parse(env, p, file) == Run(Record(p, file, deps), Completed, VisitCalls(file))
  {
    ParseDescends(env, p, file);
    ParseEachAllProcessed(env, Record(p, file, deps), deps);
  }

  /** A loop over a single dependency that completes is that dependency's run. */
  lemma ParseEachSingle<Ast(!new)>(env: Env<Ast>, q: Parser, dep: string)
    requires Closed(env) && Valid(q) && dep in env.universe
    ensures var first := Parse(env, q, dep);
            first.status.Completed? ==> ParseEach(env, q, [dep]) == first
  {
    var first := Parse(env, q, dep);
    if first.status.Completed? {
      assert [dep][0] == dep && [dep][1..] == [];
      ParseEachContinues(env, q, [dep]);
      assert first.calls + [] == first.calls;
    }
  }

  /** Visiting a file with a single dependency: this level's two calls, then that dependency's run. */
  lemma VisitOneDependency<Ast(!new)>(env: Env<Ast>, p: Parser, file: string, dep: string)
    requires Closed(env) && Valid(p) && !IsFileProcessed(p, file)
    requires env.parseFile(file).Done? && env.findDependencies(file, env.parseFile(file).value) == Done([dep])
    requires Valid(Record(p, file, [dep]))
    ensures var rest := Parse(env, Record(p, file, [dep]), dep);
            rest.status.Completed? ==>
              Parse(env, p, file) == Run(rest.parser, Completed, VisitCalls(file) + rest.calls)
  {
    ParseDescends(env, p, file);
    ParseEachSingle(env, Record(p, file, [dep]), dep);
  }

  // ---------------------------------------------------------------------------
  // Idempotence
  // ---------------------------------------------------------------------------

  /** A second `parse` of a file the first one completed changes nothing and calls nobody. */
  lemma ParseIsIdempotent<Ast(!new)>(env: Env<Ast>, p: Parser, file: string)
    requires Closed(env) && Valid(p)
    ensures var r := Parse(env, p, file);
            r.status.Completed? ==> Parse(env, r.parser, file) == Run(r.parser, Completed, [])
  {
  }
}
