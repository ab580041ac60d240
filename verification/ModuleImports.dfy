/** What the module build is specified against: the imports that a file's tokens declare,
    the import graph that follows, and when a program can be built. */
module ModuleImports {
  import opened DynamicArrays

  datatype Token =
    | ModuleKeyword
    | ImportKeyword
    | StringConstant(lexeme: string)
    | Semicolon
    | OtherToken

  /** A file found for a module name: its tokens, or a file that does not tokenize. */
  datatype File = Tokenized(tokens: seq<Token>) | Untokenizable

  /** The main file, and the file that the directory search finds for each module name. */
  datatype Program = Program(mainFile: File, files: map<string, File>)

  const MAIN_NAME: string := "^^MAIN_DEPENDENCY_GRAPH_NODE^^"

  /** Reading past the tokens of a stream gives its zeroed padding. */
  function TokenAt(tokens: seq<Token>, i: nat): Token {
    if i < |tokens| then tokens[i] else OtherToken
  }

  datatype ImportList = ImportList(names: seq<string>, wellFormed: bool)

  /** The import statements from index i on, up to the first token that is not an import. A
      malformed statement ends the list. */
  function ParseImports(tokens: seq<Token>, i: nat): ImportList
    decreases |tokens| - i
  {
    if TokenAt(tokens, i) != ImportKeyword then ImportList([], true)
    else if !TokenAt(tokens, i + 1).StringConstant? then ImportList([], false)
    else if TokenAt(tokens, i + 2) != Semicolon then ImportList([TokenAt(tokens, i + 1).lexeme], false)
    else
      var rest := ParseImports(tokens, i + 3);
      ImportList([TokenAt(tokens, i + 1).lexeme] + rest.names, rest.wellFormed)
  }

  /** The file of a module; the main file goes by its reserved name. */
  function FileOf(program: Program, name: string): File {
    if name == MAIN_NAME then program.mainFile
    else if name in program.files then program.files[name]
    else Untokenizable
  }

  /** A dependency's imports start after its three-token module directive. */
  function FirstImport(name: string): nat {
    if name == MAIN_NAME then 0 else 3
  }

  function ImportsOf(program: Program, name: string): seq<string> {
    var file := FileOf(program, name);
    if file.Tokenized? then ParseImports(file.tokens, FirstImport(name)).names else []
  }

  /** The module has a file that tokenizes and whose import statements are well formed; the
      main file must not be a module itself. */
  predicate Resolves(program: Program, name: string) {
    var file := FileOf(program, name);
    && file.Tokenized?
    && ParseImports(file.tokens, FirstImport(name)).wellFormed
    && (name == MAIN_NAME ==> TokenAt(file.tokens, 0) != ModuleKeyword)
  }

  // ------------------------------------------------------ the import graph

  /** Every module of the chain imports the next one. */
  ghost predicate IsChain(program: Program, p: seq<string>) {
    |p| > 0 && forall k {:trigger p[k]} :: 0 <= k < |p| - 1 ==> p[k + 1] in ImportsOf(program, p[k])
  }

  ghost predicate ReachableModule(program: Program, name: string) {
    exists p :: IsChain(program, p) && p[0] == MAIN_NAME && p[|p| - 1] == name
  }

  ghost predicate ImportsItself(program: Program, name: string) {
    exists p :: IsChain(program, p) && |p| > 1 && p[0] == p[|p| - 1] == name
  }

  /** Every module reachable from the main file resolves and none imports itself, however indirectly. */
  ghost predicate Buildable(program: Program) {
    forall name {:trigger ReachableModule(program, name)} ::
      ReachableModule(program, name) ==> Resolves(program, name) && !ImportsItself(program, name)
  }

  /** Each module once, all of them resolving, with its imports before it. */
  ghost predicate BuildOrder(program: Program, order: seq<string>) {
    && Distinct(order)
    && forall k {:trigger order[k]} :: 0 <= k < |order| ==>
         Resolves(program, order[k]) && AllIn(ImportsOf(program, order[k]), order[..k])
  }

  lemma ChainAppend(program: Program, p: seq<string>, name: string)
    requires IsChain(program, p) && name in ImportsOf(program, p[|p| - 1])
    ensures IsChain(program, p + [name]) && (p + [name])[0] == p[0] && (p + [name])[|p|] == name
  {
  }

  lemma StackReachable(program: Program, stack: seq<string>, name: string)
    requires IsChain(program, stack) && stack[0] == MAIN_NAME && name in ImportsOf(program, stack[|stack| - 1])
    ensures ReachableModule(program, name)
  {
    ChainAppend(program, stack, name);
    assert (stack + [name])[|stack + [name]| - 1] == name && (stack + [name])[0] == MAIN_NAME;
  }

  /** A module that is still in progress when it is imported again imports itself. */
  lemma CycleOnStack(program: Program, stack: seq<string>, name: string)
    requires IsChain(program, stack) && stack[0] == MAIN_NAME && name in ImportsOf(program, stack[|stack| - 1])
    requires name in stack
    ensures !Buildable(program)
  {
    var k :| 0 <= k < |stack| && stack[k] == name;
    ChainSuffix(program, stack, k);
    ChainAppend(program, stack[k..], name);
    assert ImportsItself(program, name);
    StackReachable(program, stack, name);
  }

  lemma ChainSuffix(program: Program, p: seq<string>, k: nat)
    requires IsChain(program, p) && k < |p|
    ensures IsChain(program, p[k..]) && p[k..][0] == p[k] && p[k..][|p[k..]| - 1] == p[|p| - 1]
  {
    forall j | 0 <= j < |p[k..]| - 1
      ensures p[k..][j + 1] in ImportsOf(program, p[k..][j])
    {
      assert p[k + j + 1] in ImportsOf(program, p[k + j]);
    }
  }

  lemma Appended(program: Program, order: seq<string>, name: string)
    requires BuildOrder(program, order) && name !in order && Resolves(program, name)
    requires AllIn(ImportsOf(program, name), order)
    ensures BuildOrder(program, order + [name])
  {
    var next := order + [name];
    forall k | 0 <= k < |next|
      ensures Resolves(program, next[k]) && AllIn(ImportsOf(program, next[k]), next[..k])
    {
      if k < |order| {
        assert next[..k] == order[..k] && next[k] == order[k];
      } else {
        assert next[..k] == order && next[k] == name;
      }
    }
  }

  /** Along a chain that starts in the order, positions fall. */
  lemma {:induction false} ChainInOrder(program: Program, order: seq<string>, p: seq<string>, start: int) returns (end: int)
    requires BuildOrder(program, order) && IsChain(program, p) && 0 <= start < |order| && order[start] == p[0]
    ensures 0 <= end <= start && order[end] == p[|p| - 1] && (|p| > 1 ==> end < start)
    decreases |p|
  {
    end := start;
    if |p| <= 1 {
    } else {
      var imports := ImportsOf(program, p[0]);
      assert p[0 + 1] in imports;
      var i :| 0 <= i < |imports| && imports[i] == p[1];
      var k :| 0 <= k < start && order[..start][k] == p[1];
      ChainSuffix(program, p, 1);
      end := ChainInOrder(program, order, p[1..], k);
    }
  }

  /** A build order that ends with the main file shows that the program can be built, and
      covers every reachable module. */
  lemma BuildOrderSuffices(program: Program, order: seq<string>)
    requires BuildOrder(program, order) && MAIN_NAME in order
    ensures Buildable(program)
    ensures forall name {:trigger ReachableModule(program, name)} :: ReachableModule(program, name) ==> name in order
  {
    var start :| 0 <= start < |order| && order[start] == MAIN_NAME;
    forall name | ReachableModule(program, name)
      ensures name in order && Resolves(program, name) && !ImportsItself(program, name)
    {
      var p :| IsChain(program, p) && p[0] == MAIN_NAME && p[|p| - 1] == name;
      var at := ChainInOrder(program, order, p, start);
      if ImportsItself(program, name) {
        var q :| IsChain(program, q) && |q| > 1 && q[0] == q[|q| - 1] == name;
        var again := ChainInOrder(program, order, q, at);
      }
    }
  }
}
