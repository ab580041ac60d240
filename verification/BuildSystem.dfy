/** The depth-first traversal that finds the modules, detects circular imports and emits
    the compilation order. */
module BuildSystem {
  import opened DynamicArrays
  import opened ModuleImports

  datatype VisitationStatus = Unvisited | InProgress | FullyProcessed

  class ModuleNode {
    const moduleName: string
    const tokens: seq<Token>
    var dependsOn: seq<ModuleNode>
    var status: VisitationStatus

    constructor (moduleName: string, tokens: seq<Token>)
      ensures this.moduleName == moduleName && this.tokens == tokens
      ensures dependsOn == [] && status == Unvisited
    {
      this.moduleName, this.tokens := moduleName, tokens;
      dependsOn, status := [], Unvisited;
    }
  }

  /** The static state of build_system.c: the module table, looked up by exact name, and the
      compilation order. */
  class BuildState {
    var symtab: map<string, ModuleNode>
    var compilationOrder: seq<ModuleNode>

    constructor ()
      ensures symtab == map[] && compilationOrder == []
    {
      symtab, compilationOrder := map[], [];
    }
  }

  datatype ImportStatus = Success | NotFound | TokenizationFailure | CircularDependency | PassThroughFailure

  // -------------------------------------------------------------- invariant

  /** The node recorded for a name: its file, and its place in the traversal. */
  ghost predicate Entry(program: Program, symtab: map<string, ModuleNode>, stack: seq<string>, done: seq<string>, name: string)
    reads symtab.Values`status, symtab.Values`dependsOn
  {
    && name in symtab && symtab[name].moduleName == name
    && FileOf(program, name) == Tokenized(symtab[name].tokens)
    && (name in stack <==> name !in done)
    && (name in stack <==> symtab[name].status == InProgress)
    && (name in done ==> symtab[name].status == FullyProcessed
                         && NodesOf(symtab, ImportsOf(program, name), symtab[name].dependsOn))
  }

  /** nodes are the nodes of the names, in order. */
  ghost predicate NodesOf(symtab: map<string, ModuleNode>, names: seq<string>, nodes: seq<ModuleNode>) {
    && |nodes| == |names|
    && forall i {:trigger names[i]} {:trigger nodes[i]} :: 0 <= i < |names| ==> names[i] in symtab && nodes[i] == symtab[names[i]]
  }

  /** The state of the traversal: stack is the chain of modules in progress, done the ones
      already emitted. */
  ghost predicate Traversal(program: Program, build: BuildState, stack: seq<string>, done: seq<string>)
    reads build, build.symtab.Values`status, build.symtab.Values`dependsOn
  {
    && (forall name {:trigger name in build.symtab} :: name in build.symtab ==> Entry(program, build.symtab, stack, done, name))
    && (forall name {:trigger name in stack} :: name in stack ==> name in build.symtab)
    && (forall name {:trigger name in done} :: name in done ==> name in build.symtab)
    && NodesOf(build.symtab, done, build.compilationOrder)
    && Emitted(program, done)
  }

  /** What has been emitted is a build order of reachable modules. */
  ghost predicate Emitted(program: Program, done: seq<string>) {
    && BuildOrder(program, done)
    && forall k {:trigger done[k]} :: 0 <= k < |done| ==> ReachableModule(program, done[k])
  }

  lemma OneMoreEmitted(program: Program, done: seq<string>, name: string)
    requires Emitted(program, done) && name !in done && Resolves(program, name) && ReachableModule(program, name)
    requires AllIn(ImportsOf(program, name), done)
    ensures Emitted(program, done + [name])
  {
    Appended(program, done, name);
  }

  /** stack is a chain of different modules from the main file down to name. */
  ghost predicate OnStack(program: Program, stack: seq<string>, name: string) {
    IsChain(program, stack) && stack[0] == MAIN_NAME && stack[|stack| - 1] == name && Distinct(stack)
  }

  /** The table only grows. */
  ghost predicate Grown(before: map<string, ModuleNode>, after: map<string, ModuleNode>) {
    forall name {:trigger name in after} {:trigger name in before} :: name in before ==>
      name in after && after[name] == before[name]
  }

  // ---------------------------------------------------------------- the steps

  /** Creating the node of a module and recording it as in progress. */
  method BeginModule(build: BuildState, name: string, tokens: seq<Token>, ghost program: Program,
                     ghost stack: seq<string>, ghost done: seq<string>)
    returns (node: ModuleNode)
    requires Traversal(program, build, stack, done) && name !in build.symtab
    requires FileOf(program, name) == Tokenized(tokens)
    modifies build`symtab
    ensures Traversal(program, build, stack + [name], done) && Grown(old(build.symtab), build.symtab)
    ensures build.symtab == old(build.symtab)[name := node] && fresh(node)
    ensures node.dependsOn == [] && node.tokens == tokens && node.moduleName == name
  {
    node := new ModuleNode(name, tokens);
    build.symtab := build.symtab[name := node];
    node.status := InProgress;
    forall n | n in build.symtab
      ensures Entry(program, build.symtab, stack + [name], done, n)
    {
      if n != name {
        assert old(Entry(program, build.symtab, stack, done, n));
      }
    }
  }

  /** add_dependency. */
  method AddDependency(dependant: ModuleNode, dependsOn: ModuleNode, ghost build: BuildState, ghost program: Program,
                       ghost stack: seq<string>, ghost done: seq<string>, ghost name: string)
    requires Traversal(program, build, stack, done) && name in stack && build.symtab[name] == dependant
    modifies dependant`dependsOn
    ensures Traversal(program, build, stack, done)
    ensures dependant.dependsOn == old(dependant.dependsOn) + [dependsOn]
  {
    dependant.dependsOn := dependant.dependsOn + [dependsOn];
    forall n | n in build.symtab
      ensures Entry(program, build.symtab, stack, done, n)
    {
      assert old(Entry(program, build.symtab, stack, done, n));
      assert old(Entry(program, build.symtab, stack, done, name));
    }
  }

  /** Emitting a module all of whose imports have been emitted. */
  method FinishModule(build: BuildState, node: ModuleNode, ghost program: Program, ghost stack: seq<string>,
                      ghost done: seq<string>, ghost name: string)
    returns (ghost done': seq<string>)
    requires Traversal(program, build, stack + [name], done) && name !in stack
    requires name in build.symtab && build.symtab[name] == node
    requires Resolves(program, name) && ReachableModule(program, name) && AllIn(ImportsOf(program, name), done)
    requires NodesOf(build.symtab, ImportsOf(program, name), node.dependsOn)
    modifies build`compilationOrder, node`status
    ensures Traversal(program, build, stack, done') && done' == done + [name]
    ensures done <= done' && name in done'
  {
    assert Entry(program, build.symtab, stack + [name], done, name);
    OneMoreEmitted(program, done, name);
    EnlargedStack(stack, name);
    EnlargedStack(done, name);
    done' := done + [name];
    MoveToDone(build, node, program, stack, stack + [name], done, done', name);
  }

  /** longer is s with one more name at its end. */
  ghost predicate OneMore(s: seq<string>, longer: seq<string>, name: string) {
    && |longer| == |s| + 1 && longer[|s|] == name && s == longer[..|s|]
    && forall n {:trigger n in s} {:trigger n in longer} :: n in longer <==> n in s || n == name
  }

  lemma NodesAppend(symtab: map<string, ModuleNode>, names: seq<string>, nodes: seq<ModuleNode>, longer: seq<string>, name: string)
    requires NodesOf(symtab, names, nodes) && OneMore(names, longer, name) && name in symtab
    ensures NodesOf(symtab, longer, nodes + [symtab[name]])
  {
  }

  method MoveToDone(build: BuildState, node: ModuleNode, ghost program: Program, ghost stack: seq<string>,
                    ghost longer: seq<string>, ghost done: seq<string>, ghost more: seq<string>, ghost name: string)
    requires OneMore(stack, longer, name) && OneMore(done, more, name) && name !in stack && Emitted(program, more)
    requires Traversal(program, build, longer, done) && name in build.symtab && build.symtab[name] == node
    requires NodesOf(build.symtab, ImportsOf(program, name), node.dependsOn)
    modifies build`compilationOrder, node`status
    ensures Traversal(program, build, stack, more)
  {
    NodesAppend(build.symtab, done, build.compilationOrder, more, name);
    Emit(build, node);
    forall n | n in build.symtab
      ensures Entry(program, build.symtab, stack, more, n)
    {
      assert old(Entry(program, build.symtab, longer, done, n));
      assert old(Entry(program, build.symtab, longer, done, name));
    }
  }

  /** The last two statements of a module's traversal. */
  method Emit(build: BuildState, node: ModuleNode)
    modifies build`compilationOrder, node`status
    ensures build.compilationOrder == old(build.compilationOrder) + [node] && node.status == FullyProcessed
  {
    build.compilationOrder := build.compilationOrder + [node];
    node.status := FullyProcessed;
  }

  lemma EnlargedStack(stack: seq<string>, name: string)
    ensures OneMore(stack, stack + [name], name)
  {
  }

  // ------------------------------------------------------------ the traversal

  /** The imports of name are those seen, followed by those parsed from index i on. */
  ghost predicate ImportsFrom(program: Program, name: string, tokens: seq<Token>, seen: seq<string>, i: nat) {
    && FileOf(program, name) == Tokenized(tokens)
    && ImportsOf(program, name) == seen + ParseImports(tokens, i).names
    && ParseImports(tokens, FirstImport(name)).wellFormed == ParseImports(tokens, i).wellFormed
  }

  /** One import statement: what it says about the rest of the parse. */
  lemma NextImport(program: Program, name: string, tokens: seq<Token>, seen: seq<string>, i: nat)
    requires ImportsFrom(program, name, tokens, seen, i) && TokenAt(tokens, i) == ImportKeyword
    ensures !TokenAt(tokens, i + 1).StringConstant? || TokenAt(tokens, i + 2) != Semicolon ==> !Resolves(program, name)
    ensures TokenAt(tokens, i + 1).StringConstant? ==> TokenAt(tokens, i + 1).lexeme in ImportsOf(program, name)
    ensures TokenAt(tokens, i + 1).StringConstant? && TokenAt(tokens, i + 2) == Semicolon ==>
              ImportsFrom(program, name, tokens, seen + [TokenAt(tokens, i + 1).lexeme], i + 3)
  {
  }

  lemma NotBuildable(program: Program, name: string)
    requires ReachableModule(program, name) && !Resolves(program, name)
    ensures !Buildable(program)
  {
  }

  /** What one call adds to a traversal whose table was before. */
  ghost predicate Advanced(program: Program, build: BuildState, before: map<string, ModuleNode>, stack: seq<string>,
                           done: seq<string>, done': seq<string>, name: string, node: ModuleNode)
    reads build, build.symtab.Values`status, build.symtab.Values`dependsOn
  {
    && Traversal(program, build, stack, done') && Grown(before, build.symtab)
    && done <= done' && name in done' && name in build.symtab && build.symtab[name] == node
  }

  function Remaining(files: map<string, File>, table: map<string, ModuleNode>): nat {
    |files.Keys - table.Keys|
  }

  lemma SubsetSize(a: set<string>, b: set<string>)
    requires a <= b
    ensures |a| <= |b|
  {
    assert b == a + (b - a);
  }

  lemma GrownRemaining(files: map<string, File>, before: map<string, ModuleNode>, after: map<string, ModuleNode>)
    requires Grown(before, after)
    ensures Remaining(files, after) <= Remaining(files, before)
  {
    SubsetSize(files.Keys - after.Keys, files.Keys - before.Keys);
  }

  lemma RecordedRemaining(files: map<string, File>, before: map<string, ModuleNode>, name: string, node: ModuleNode)
    requires name in files && name !in before
    ensures Remaining(files, before[name := node]) < Remaining(files, before)
  {
    assert files.Keys - before.Keys == (files.Keys - before[name := node].Keys) + {name};
  }

  /** get_dependency_subtree_from_import_statement, for string imports. */
  method GetDependencySubtree(build: BuildState, files: map<string, File>, tokens: seq<Token>, index: nat,
                              ghost program: Program, ghost stack: seq<string>, ghost done: seq<string>,
                              ghost current: string)
    returns (dependency: ModuleNode?, next: nat, ghost done': seq<string>)
    requires program.files == files && Traversal(program, build, stack, done) && OnStack(program, stack, current)
    requires ReachableModule(program, current)
    requires !TokenAt(tokens, index).StringConstant? || TokenAt(tokens, index + 1) != Semicolon ==> !Resolves(program, current)
    requires TokenAt(tokens, index).StringConstant? ==> TokenAt(tokens, index).lexeme in ImportsOf(program, current)
    modifies build
    ensures dependency == null ==> !Buildable(program)
    ensures dependency != null ==>
              && TokenAt(tokens, index).StringConstant? && TokenAt(tokens, index + 1) == Semicolon
              && Advanced(program, build, old(build.symtab), stack, done, done', TokenAt(tokens, index).lexeme, dependency)
              && next == index + 2
    decreases Remaining(files, build.symtab), 2
  {
    next, done' := index, done;
    if !TokenAt(tokens, index).StringConstant? {
      NotBuildable(program, current);
      return null, next, done';
    }
    var name := TokenAt(tokens, index).lexeme;
    next := next + 1;
    var status;
    status, dependency, done' := FindOrCreateModule(build, files, name, program, stack, done, current);
    if !status.Success? {
      return null, next, done';
    }
    if TokenAt(tokens, next) != Semicolon {
      NotBuildable(program, current);
      return null, next, done';
    }
    next := next + 1;
  }

  /** The import loop, after the statements up to index i: name's node holds the nodes of the
      modules imported so far, all of which have been emitted. */
  ghost predicate Importing(program: Program, build: BuildState, stack: seq<string>, done: seq<string>, name: string,
                            node: ModuleNode, seen: seq<string>, i: nat)
    reads build, build.symtab.Values`status, build.symtab.Values`dependsOn, node`dependsOn
  {
    && Traversal(program, build, stack, done) && OnStack(program, stack, name) && ReachableModule(program, name)
    && name in build.symtab && build.symtab[name] == node
    && ImportsFrom(program, name, node.tokens, seen, i)
    && AllIn(seen, done) && NodesOf(build.symtab, seen, node.dependsOn)
  }

  lemma PrefixKept(seen: seq<string>, done: seq<string>, done': seq<string>, name: string)
    requires AllIn(seen, done) && done <= done' && name in done'
    ensures AllIn(seen + [name], done')
  {
  }

  lemma NodesGrow(before: map<string, ModuleNode>, after: map<string, ModuleNode>, names: seq<string>,
                  nodes: seq<ModuleNode>, name: string)
    requires NodesOf(before, names, nodes) && Grown(before, after) && name in after
    ensures NodesOf(after, names + [name], nodes + [after[name]])
  {
  }

  /** One import statement, and recording the dependence it asks for. */
  method ProcessImport(build: BuildState, files: map<string, File>, node: ModuleNode, i: nat, ghost program: Program,
                       ghost stack: seq<string>, ghost done: seq<string>, ghost name: string, ghost seen: seq<string>)
    returns (ok: bool, next: nat, ghost done': seq<string>, ghost seen': seq<string>)
    requires program.files == files && Importing(program, build, stack, done, name, node, seen, i)
    requires TokenAt(node.tokens, i) == ImportKeyword
    modifies build, node`dependsOn
    ensures !ok ==> !Buildable(program)
    ensures ok ==> Importing(program, build, stack, done', name, node, seen', next)
    ensures ok ==> Grown(old(build.symtab), build.symtab) && done <= done' && next == i + 3
    decreases Remaining(files, build.symtab), 3
  {
    NextImport(program, name, node.tokens, seen, i);
    seen', done' := seen, done;
    var dependency;
    dependency, next, done' := GetDependencySubtree(build, files, node.tokens, i + 1, program, stack, done, name);
    if dependency == null {
      return false, next, done', seen;
    }
    ghost var imported := TokenAt(node.tokens, i + 1).lexeme;
    PrefixKept(seen, done, done', imported);
    NodesGrow(old(build.symtab), build.symtab, seen, node.dependsOn, imported);
    AddDependency(node, dependency, build, program, stack, done', name);
    return true, next, done', seen + [imported];
  }

  /** The import loop of a module or of the main file. */
  method ProcessImports(build: BuildState, files: map<string, File>, node: ModuleNode, start: nat,
                        ghost program: Program, ghost stack: seq<string>, ghost done: seq<string>, ghost name: string)
    returns (ok: bool, ghost done': seq<string>)
    requires program.files == files && start == FirstImport(name)
    requires Importing(program, build, stack, done, name, node, [], start)
    modifies build, node`dependsOn
    ensures !ok ==> !Buildable(program)
    ensures ok ==>
              && Traversal(program, build, stack, done') && Grown(old(build.symtab), build.symtab) && done <= done'
              && ParseImports(node.tokens, start).wellFormed
              && AllIn(ImportsOf(program, name), done')
              && name in build.symtab && build.symtab[name] == node
              && NodesOf(build.symtab, ImportsOf(program, name), node.dependsOn)
    decreases Remaining(files, build.symtab), 4
  {
    done' := done;
    var i := start;
    ghost var seen: seq<string> := [];
    while TokenAt(node.tokens, i) == ImportKeyword
      invariant Importing(program, build, stack, done', name, node, seen, i)
      invariant Grown(old(build.symtab), build.symtab) && done <= done'
      decreases |node.tokens| - i
    {
      GrownRemaining(files, old(build.symtab), build.symtab);
      ok, i, done', seen := ProcessImport(build, files, node, i, program, stack, done', name, seen);
      if !ok {
        return false, done';
      }
    }
    assert ImportsOf(program, name) == seen;
    ok := true;
  }

  /** find_or_create_module. */
  method FindOrCreateModule(build: BuildState, files: map<string, File>, name: string, ghost program: Program,
                            ghost stack: seq<string>, ghost done: seq<string>, ghost importer: string)
    returns (status: ImportStatus, node: ModuleNode?, ghost done': seq<string>)
    requires program.files == files && Traversal(program, build, stack, done) && OnStack(program, stack, importer)
    requires name in ImportsOf(program, importer)
    modifies build
    ensures status.Success? ==> node != null && Advanced(program, build, old(build.symtab), stack, done, done', name, node)
    ensures !status.Success? ==> !Buildable(program)
    ensures status.CircularDependency? <==> name in stack
    ensures status.NotFound? <==> name !in old(build.symtab) && name !in files
    ensures status.TokenizationFailure? <==> name !in old(build.symtab) && name in files && files[name].Untokenizable?
    decreases Remaining(files, build.symtab), 1
  {
    done' := done;
    StackReachable(program, stack, name);
    if name in build.symtab {
      assert Entry(program, build.symtab, stack, done, name);
      if build.symtab[name].status == InProgress {
        CycleOnStack(program, stack, name);
        return CircularDependency, null, done';
      }
      return Success, build.symtab[name], done';
    }
    assert MAIN_NAME in stack;
    if name !in files {
      NotBuildable(program, name);
      return NotFound, null, done';
    }
    if files[name].Untokenizable? {
      NotBuildable(program, name);
      return TokenizationFailure, null, done';
    }
    status, node, done' := CreateModule(build, files, name, program, stack, done, importer);
  }

  lemma PushModule(program: Program, stack: seq<string>, importer: string, name: string)
    requires OnStack(program, stack, importer) && name in ImportsOf(program, importer) && name !in stack
    ensures OnStack(program, stack + [name], name)
  {
  }

  lemma ImportsAtStart(program: Program, name: string, tokens: seq<Token>)
    requires FileOf(program, name) == Tokenized(tokens)
    ensures ImportsFrom(program, name, tokens, [], FirstImport(name))
  {
  }

  lemma RecordedGrown(before: map<string, ModuleNode>, after: map<string, ModuleNode>, name: string, node: ModuleNode)
    requires name !in before && Grown(before[name := node], after)
    ensures Grown(before, after)
  {
  }

  /** The new module is ready for its import loop. */
  method StartModule(build: BuildState, name: string, tokens: seq<Token>, ghost program: Program,
                     ghost stack: seq<string>, ghost done: seq<string>, ghost importer: string)
    returns (node: ModuleNode)
    requires Traversal(program, build, stack, done) && OnStack(program, stack, importer)
    requires name in ImportsOf(program, importer) && ReachableModule(program, name)
    requires name !in build.symtab && FileOf(program, name) == Tokenized(tokens)
    modifies build`symtab
    ensures Importing(program, build, stack + [name], done, name, node, [], FirstImport(name))
    ensures build.symtab == old(build.symtab)[name := node] && fresh(node)
  {
    PushModule(program, stack, importer, name);
    node := BeginModule(build, name, tokens, program, stack, done);
    ImportsAtStart(program, name, node.tokens);
  }

  /** The steps of find_or_create_module once the module's file has been tokenized. */
  method CreateModule(build: BuildState, files: map<string, File>, name: string, ghost program: Program,
                      ghost stack: seq<string>, ghost done: seq<string>, ghost importer: string)
    returns (status: ImportStatus, node: ModuleNode?, ghost done': seq<string>)
    requires program.files == files && Traversal(program, build, stack, done) && OnStack(program, stack, importer)
    requires name in ImportsOf(program, importer) && ReachableModule(program, name)
    requires name !in build.symtab && name != MAIN_NAME && name in files && files[name].Tokenized?
    modifies build
    ensures status.Success? ==> node != null && Advanced(program, build, old(build.symtab), stack, done, done', name, node)
    ensures !status.Success? ==> !Buildable(program) && status.PassThroughFailure?
    decreases Remaining(files, build.symtab), 0
  {
    node := StartModule(build, name, files[name].tokens, program, stack, done, importer);
    RecordedRemaining(files, old(build.symtab), name, node);
    var ok;
    ok, done' := ProcessImports(build, files, node, 3, program, stack + [name], done, name);
    if !ok {
      return PassThroughFailure, null, done';
    }
    done' := FinishModule(build, node, program, stack, done', name);
    RecordedGrown(old(build.symtab), build.symtab, name, node);
    status := Success;
  }

  // ---------------------------------------------------------------- whole builds

  lemma MainReachable(program: Program)
    ensures ReachableModule(program, MAIN_NAME) && OnStack(program, [MAIN_NAME], MAIN_NAME)
  {
  }

  /** The main file's node, ready for its import loop. */
  method StartMain(build: BuildState, tokens: seq<Token>, ghost program: Program) returns (node: ModuleNode)
    requires build.symtab == map[] && build.compilationOrder == [] && program.mainFile == Tokenized(tokens)
    modifies build`symtab
    ensures Importing(program, build, [] + [MAIN_NAME], [], MAIN_NAME, node, [], 0) && fresh(node)
  {
    MainReachable(program);
    assert [] + [MAIN_NAME] == [MAIN_NAME];
    node := BeginModule(build, MAIN_NAME, tokens, program, [], []);
    ImportsAtStart(program, MAIN_NAME, tokens);
  }

  /** handle_main_file_tokenization. */
  method HandleMainFile(build: BuildState, mainFile: File, files: map<string, File>, ghost program: Program)
    returns (node: ModuleNode?, ghost done: seq<string>)
    requires program == Program(mainFile, files) && build.symtab == map[] && build.compilationOrder == []
    modifies build
    ensures node == null ==> !Buildable(program)
    ensures node != null ==> Traversal(program, build, [], done) && |done| > 0 && done[|done| - 1] == MAIN_NAME
  {
    done := [];
    MainReachable(program);
    if mainFile.Untokenizable? || TokenAt(mainFile.tokens, 0) == ModuleKeyword {
      NotBuildable(program, MAIN_NAME);
      return null, done;
    }
    node := StartMain(build, mainFile.tokens, program);
    var ok;
    ok, done := ProcessImports(build, files, node, 0, program, [] + [MAIN_NAME], done, MAIN_NAME);
    if !ok {
      return null, done;
    }
    done := FinishModule(build, node, program, [], done, MAIN_NAME);
  }

  /** The node of one emitted module: its name, and the nodes of the modules it imports. */
  ghost predicate EmittedNode(program: Program, order: seq<ModuleNode>, names: seq<string>, k: int)
    reads order`dependsOn
  {
    && 0 <= k < |order| == |names| && order[k].moduleName == names[k]
    && |order[k].dependsOn| == |ImportsOf(program, names[k])|
    && forall i {:trigger order[k].dependsOn[i]} :: 0 <= i < |order[k].dependsOn| ==>
         order[k].dependsOn[i] in order[..k] && order[k].dependsOn[i].moduleName == ImportsOf(program, names[k])[i]
  }

  lemma ReadEmitted(program: Program, build: BuildState, done: seq<string>, k: int)
    requires Traversal(program, build, [], done) && 0 <= k < |done|
    ensures EmittedNode(program, build.compilationOrder, done, k)
  {
  }

  /** construct_build_order: it succeeds exactly when the program can be built, and then the
      order lists every reachable module once, imports first and the main file last. */
  method ConstructBuildOrder(mainFile: File, files: map<string, File>)
    returns (ok: bool, order: seq<ModuleNode>, ghost names: seq<string>)
    ensures ok <==> Buildable(Program(mainFile, files))
    ensures ok ==>
              && |order| == |names| > 0 && Distinct(names) && names[|names| - 1] == MAIN_NAME
              && (forall name {:trigger ReachableModule(Program(mainFile, files), name)} ::
                    name in names <==> ReachableModule(Program(mainFile, files), name))
              && forall k {:trigger order[k]} :: 0 <= k < |order| ==> EmittedNode(Program(mainFile, files), order, names, k)
  {
    ghost var program := Program(mainFile, files);
    var build := new BuildState();
    var node;
    node, names := HandleMainFile(build, mainFile, files, program);
    if node == null {
      return false, [], names;
    }
    assert MAIN_NAME in names;
    BuildOrderSuffices(program, names);
    ok, order := true, build.compilationOrder;
    forall k | 0 <= k < |order|
      ensures EmittedNode(program, order, names, k)
    {
      ReadEmitted(program, build, names, k);
    }
  }
}
