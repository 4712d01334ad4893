/**
 Concrete traversals: the scenarios the parser's own tests exercise, stated as lemmas
 about the model with stub collaborators. The AST is a single placeholder value, since the
 traversal never looks inside it.
 */
module CodeParserExamples {
  import opened CodeParser
  import opened CodeParserProperties

  /** The placeholder AST every stub parse returns. */
  datatype Nodes = Nodes

  const TestFile: string := "/path/to/test.php"
  const DependencyFile: string := "/path/to/dependency.php"
  const FileA: string := "/path/to/fileA.php"
  const FileB: string := "/path/to/fileB.php"
  const FileC: string := "/path/to/fileC.php"
  const FileD: string := "/path/to/fileD.php"

  /** The entry file depends on one file, which depends on nothing. */
  function TwoFileEnv(): Env<Nodes> {
    Env({TestFile, DependencyFile},
        f => Done(Nodes),
        (f, n) => if f == TestFile then Done([DependencyFile]) else Done([]))
  }

  /** Every AST parse raises. */
  function FailingEnv(): Env<Nodes> {
    Env({TestFile}, f => Raised("Test parse error"), (f, n) => Done([]))
  }

  /** Every file parses and has no dependencies. */
  function LeafEnv(): Env<Nodes> {
    Env({TestFile}, f => Done(Nodes), (f, n) => Done([]))
  }

  /** A -> B -> C -> A. */
  function CycleEnv(): Env<Nodes> {
    Env({FileA, FileB, FileC},
        f => Done(Nodes),
        (f, n) => if f == FileA then Done([FileB]) else if f == FileB then Done([FileC]) else Done([FileA]))
  }

  /** A -> [B, C] and B -> [D]: a depth-first walk visits D before C. */
  function TreeEnv(): Env<Nodes> {
    Env({FileA, FileB, FileC, FileD},
        f => Done(Nodes),
        (f, n) => if f == FileA then Done([FileB, FileC]) else if f == FileB then Done([FileD]) else Done([]))
  }

  lemma PathsDistinct()
    ensures TestFile != DependencyFile
    ensures FileA != FileB && FileB != FileC && FileA != FileC
    ensures FileD != FileA && FileD != FileB && FileD != FileC
  {
    assert TestFile[9] != DependencyFile[9];
    assert FileA[13] != FileB[13] && FileB[13] != FileC[13] && FileA[13] != FileC[13];
    assert FileD[13] != FileA[13] && FileD[13] != FileB[13] && FileD[13] != FileC[13];
  }

  lemma TwoFileEnvClosed()
    ensures Closed(TwoFileEnv())
  {
  }

  lemma CycleEnvClosed()
    ensures Closed(CycleEnv())
  {
  }

  /** The states the two-file traversal passes through. */
  const AfterTest: Parser := Parser([TestFile], map[TestFile := [DependencyFile]])
  const AfterDependency: Parser := Parser([TestFile, DependencyFile], map[TestFile := [DependencyFile], DependencyFile := []])

  lemma TwoFileStates()
    ensures Valid(AfterTest) && Valid(AfterDependency)
    ensures Record(Initial, TestFile, [DependencyFile]) == AfterTest
    ensures Record(AfterTest, DependencyFile, []) == AfterDependency
  {
    PathsDistinct();
  }

  lemma DependencyIsLeaf()
    ensures Closed(TwoFileEnv()) && Valid(AfterTest)
    ensures Parse(TwoFileEnv(), AfterTest, DependencyFile) == Run(AfterDependency, Completed, VisitCalls(DependencyFile))
  {
    TwoFileEnvClosed();
    TwoFileStates();
    PathsDistinct();
    VisitLeaf(TwoFileEnv(), AfterTest, DependencyFile, []);
  }

  /**
   Parsing the entry file visits it and then its dependency, records both dependency
   lists, and calls each collaborator exactly twice, once per file.
   */
  lemma ParseVisitsDependency()
    ensures Closed(TwoFileEnv())
    ensures var r := Parse(TwoFileEnv(), Initial, TestFile);
            && r.status == Completed
            && IsFileProcessed(r.parser, TestFile)
            && IsFileProcessed(r.parser, DependencyFile)
            && GetProcessedFiles(r.parser) == [TestFile, DependencyFile]
            && GetDependencies(r.parser) == map[TestFile := [DependencyFile], DependencyFile := []]
            && r.calls == VisitCalls(TestFile) + VisitCalls(DependencyFile)
  {
    DependencyIsLeaf();
    TwoFileStates();
    PathsDistinct();
    VisitOneDependency(TwoFileEnv(), Initial, TestFile, DependencyFile);
  }

  lemma TestFileMessage()
    ensures FailurePrefix + TestFile == "解析文件失败: /path/to/test.php"
  {
  }

  /** An AST failure on the entry file surfaces as a parser exception naming it. */
  lemma ParseFailureMessage()
    ensures Closed(FailingEnv())
    ensures var r := Parse(FailingEnv(), Initial, TestFile);
            && r.status == Threw(ParserException(TestFile, Cause("Test parse error")))
            && Message(r.status.exception) == "解析文件失败: /path/to/test.php"
            && r.parser == Initial
            && r.calls == [ParseFileCall(TestFile)]
  {
    TestFileMessage();
  }

  /** Parsing the same file twice processes it once and calls each collaborator once. */
  lemma SecondParseSkipsFile()
    ensures Closed(LeafEnv())
    ensures var r1 := Parse(LeafEnv(), Initial, TestFile);
            var r2 := Parse(LeafEnv(), r1.parser, TestFile);
            && r2.status == Completed
            && r2.parser == Parser([TestFile], map[TestFile := []])
            && r1.calls + r2.calls == VisitCalls(TestFile)
  {
    VisitLeaf(LeafEnv(), Initial, TestFile, []);
    assert Record(Initial, TestFile, []) == Parser([TestFile], map[TestFile := []]);
  }

  /** The states the cycle passes through: after A, after B, and after C. */
  const AfterA: Parser := Parser([FileA], map[FileA := [FileB]])
  const AfterB: Parser := Parser([FileA, FileB], map[FileA := [FileB], FileB := [FileC]])
  const AfterC: Parser := Parser([FileA, FileB, FileC], map[FileA := [FileB], FileB := [FileC], FileC := [FileA]])

  lemma CycleStates()
    ensures Valid(AfterA) && Valid(AfterB) && Valid(AfterC)
    ensures Record(Initial, FileA, [FileB]) == AfterA
    ensures Record(AfterA, FileB, [FileC]) == AfterB
    ensures Record(AfterB, FileC, [FileA]) == AfterC
  {
    PathsDistinct();
  }

  /** C's only dependency, A, is already processed: the cycle closes here. */
  lemma CycleClosesAtC()
    ensures Closed(CycleEnv()) && Valid(AfterB)
    ensures Parse(CycleEnv(), AfterB, FileC) == Run(AfterC, Completed, VisitCalls(FileC))
  {
    CycleEnvClosed();
    CycleStates();
    PathsDistinct();
    VisitLeaf(CycleEnv(), AfterB, FileC, [FileA]);
  }

  lemma CycleFromB()
    ensures Closed(CycleEnv()) && Valid(AfterA)
    ensures Parse(CycleEnv(), AfterA, FileB) == Run(AfterC, Completed, VisitCalls(FileB) + VisitCalls(FileC))
  {
    CycleClosesAtC();
    CycleStates();
    PathsDistinct();
    VisitOneDependency(CycleEnv(), AfterA, FileB, FileC);
  }

  /**
   A cycle A -> B -> C -> A terminates: the dependency of C on A finds A already
   processed. All three files are processed once, in discovery order, with three calls
   to each collaborator.
   */
  lemma CycleTerminates()
    ensures Closed(CycleEnv())
    ensures var r := Parse(CycleEnv(), Initial, FileA);
            && r.status == Completed
            && GetProcessedFiles(r.parser) == [FileA, FileB, FileC]
            && GetDependencies(r.parser) == map[FileA := [FileB], FileB := [FileC], FileC := [FileA]]
            && r.calls == VisitCalls(FileA) + (VisitCalls(FileB) + VisitCalls(FileC))
  {
    CycleFromB();
    CycleStates();
    PathsDistinct();
    VisitOneDependency(CycleEnv(), Initial, FileA, FileB);
  }

  /** The states the tree walk passes through. */
  const TreeA: Parser := Record(Initial, FileA, [FileB, FileC])
  const TreeAB: Parser := Record(TreeA, FileB, [FileD])
  const TreeABD: Parser := Record(TreeAB, FileD, [])
  const TreeABDC: Parser := Record(TreeABD, FileC, [])
  const TreeDeps: map<string, seq<string>> := map[FileA := [FileB, FileC], FileB := [FileD], FileD := [], FileC := []]

  lemma TreeStateA()
    ensures Valid(TreeA) && TreeA.processedFiles == [FileA]
  {
    VisitStep(Initial, FileA, [FileB, FileC]);
  }

  lemma TreeStateAB()
    ensures Valid(TreeAB) && TreeAB.processedFiles == [FileA, FileB]
  {
    TreeStateA();
    PathsDistinct();
    VisitStep(TreeA, FileB, [FileD]);
  }

  lemma TreeStateABD()
    ensures Valid(TreeABD) && TreeABD.processedFiles == [FileA, FileB, FileD]
  {
    TreeStateAB();
    PathsDistinct();
    VisitStep(TreeAB, FileD, []);
  }

  lemma TreeStateABDC()
    ensures Valid(TreeABDC) && TreeABDC.processedFiles == [FileA, FileB, FileD, FileC]
  {
    TreeStateABD();
    PathsDistinct();
    VisitStep(TreeABD, FileC, []);
  }

  lemma TreeStates()
    ensures Valid(TreeA) && Valid(TreeAB) && Valid(TreeABD) && Valid(TreeABDC)
    ensures TreeA.processedFiles == [FileA] && TreeAB.processedFiles == [FileA, FileB]
    ensures TreeABD.processedFiles == [FileA, FileB, FileD]
    ensures TreeABDC.processedFiles == [FileA, FileB, FileD, FileC]
  {
    TreeStateA();
    TreeStateAB();
    TreeStateABD();
    TreeStateABDC();
  }

  lemma TreeDepsRecorded()
    ensures TreeABDC.dependencies == TreeDeps
  {
  }

  lemma TreeLeafD()
    ensures Closed(TreeEnv()) && Valid(TreeAB)
    ensures Parse(TreeEnv(), TreeAB, FileD) == Run(TreeABD, Completed, VisitCalls(FileD))
  {
    assert Closed(TreeEnv());
    TreeStateAB();
    PathsDistinct();
    VisitLeaf(TreeEnv(), TreeAB, FileD, []);
  }

  lemma TreeFromB()
    ensures Closed(TreeEnv()) && Valid(TreeA)
    ensures Parse(TreeEnv(), TreeA, FileB) == Run(TreeABD, Completed, VisitCalls(FileB) + VisitCalls(FileD))
  {
    TreeLeafD();
    TreeStateA();
    assert FileB != FileA by { PathsDistinct(); }
    VisitOneDependency(TreeEnv(), TreeA, FileB, FileD);
  }

  lemma TreeFromC()
    ensures Closed(TreeEnv()) && Valid(TreeABD)
    ensures ParseEach(TreeEnv(), TreeABD, [FileC]) == Run(TreeABDC, Completed, VisitCalls(FileC))
  {
    assert Closed(TreeEnv());
    TreeStateA();
    TreeStateABD();
    PathsDistinct();
    VisitLeaf(TreeEnv(), TreeABD, FileC, []);
    ParseEachSingle(TreeEnv(), TreeABD, FileC);
  }

  lemma TreeLoop()
    ensures Closed(TreeEnv()) && Valid(TreeA)
    ensures ParseEach(TreeEnv(), TreeA, [FileB, FileC])
         == Run(TreeABDC, Completed, (VisitCalls(FileB) + VisitCalls(FileD)) + VisitCalls(FileC))
  {
    TreeFromB();
    TreeFromC();
    ParseEachContinues(TreeEnv(), TreeA, [FileB, FileC]);
    assert [FileB, FileC][1..] == [FileC];
  }

  /**
   With A -> [B, C] and B -> [D], parsing A processes A, B, D, C: the walk finishes B's
   whole subtree before it moves on to C.
   */
  lemma TreeParseIsDepthFirst()
    ensures Closed(TreeEnv())
    ensures var r := Parse(TreeEnv(), Initial, FileA);
            && r.status == Completed
            && GetProcessedFiles(r.parser) == [FileA, FileB, FileD, FileC]
            && GetDependencies(r.parser) == TreeDeps
  {
    TreeLoop();
    TreeStates();
    TreeDepsRecorded();
    ParseDescends(TreeEnv(), Initial, FileA);
  }

  /** The breadth-first order of the same tree, which a depth-first walk never produces. */
  const TreeABCD: Parser := Parser([FileA, FileB, FileC, FileD], TreeDeps)

  lemma NoBlockForDAtTwo(mid: nat)
    requires 2 <= mid <= 4
    ensures !DfsBlock(TreeABCD, FileD, 2, mid, true)
  {
    PathsDistinct();
    assert TreeABCD.processedFiles[..2] == [FileA, FileB];
  }

  lemma NoBlockForBAtOne(mid: nat)
    requires 1 <= mid <= 4
    ensures !DfsBlock(TreeABCD, FileB, 1, mid, true)
  {
    PathsDistinct();
    assert TreeABCD.processedFiles[..1] == [FileA];
    if mid > 1 {
      var deps := TreeABCD.dependencies[FileB];
      assert deps == [FileD] && deps[0] == FileD && deps[1..] == [];
      forall mid2 | 2 <= mid2 <= mid
        ensures !DfsBlock(TreeABCD, deps[0], 2, mid2, true)
      {
        NoBlockForDAtTwo(mid2);
      }
      assert !DfsBlocks(TreeABCD, deps, 2, mid, true);
    }
  }

  /**
   The block decomposition rules out breadth-first order: A, B, C, D is not a completed
   block of A for this tree, because B's block would have to hold D right after B.
   */
  lemma BreadthFirstOrderIsNotDepthFirst()
    ensures !DfsBlock(TreeABCD, FileA, 0, 4, true)
  {
    PathsDistinct();
    assert TreeDeps[FileA] == [FileB, FileC];
    forall mid | 1 <= mid <= 4
      ensures !DfsBlock(TreeABCD, FileB, 1, mid, true)
    {
      NoBlockForBAtOne(mid);
    }
  }

  /** The depth-first walk of the tree is one completed block of A. */
  lemma TreeRunIsOneBlock()
    ensures DfsBlock(TreeABDC, FileA, 0, 4, true)
  {
    TreeLoop();
    TreeStates();
    ParseDescends(TreeEnv(), Initial, FileA);
    ParseDepthFirst(TreeEnv(), Initial, FileA);
  }
}
