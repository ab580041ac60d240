/** Tokens, macros, and what expanding macro calls means: arguments are split off by a plain
    parenthesis-depth scan, expanded, and spliced into the macro's body. */
module MacroExpansion {
  import opened Wrappers

  datatype TokenKind =
    | MacroKeyword | EndMacro | Identifier | MacroParameter
    | LeftParen | RightParen | Comma | Done
    | Ounit | Colon | LeftBracket | RightBracket | ExitStatus | FailToCompile | Equals | Constant
    | ImportKeyword | ModuleKeyword | StringConstant | Semicolon
    | OtherToken

  datatype Token = Token(kind: TokenKind, lexeme: string, parameterNumber: nat, ignore: bool)

  datatype Macro = Macro(name: string, parameters: seq<Token>, tokens: seq<Token>)

  type MacroTable = map<string, Macro>

  /** A token stream: its last token is its only Done. */
  ghost predicate IsStream(tokens: seq<Token>) {
    && |tokens| > 0 && tokens[|tokens| - 1].kind.Done?
    && forall k :: 0 <= k < |tokens| - 1 ==> !tokens[k].kind.Done?
  }

  /** A macro has a body, and its parameter tokens name existing parameters. */
  ghost predicate IsMacro(macro: Macro) {
    && macro.tokens != []
    && forall k {:trigger macro.tokens[k]} :: 0 <= k < |macro.tokens| && macro.tokens[k].kind.MacroParameter? ==>
         macro.tokens[k].parameterNumber < |macro.parameters|
  }

  ghost predicate AreMacros(macros: MacroTable) {
    forall name {:trigger macros[name]} :: name in macros ==> IsMacro(macros[name])
  }

  predicate IsCall(token: Token, macros: MacroTable) {
    token.kind.Identifier? && token.lexeme in macros
  }

  // ----------------------------------------------------- the plain scan

  /** Where the argument that is being read at index i ends: at the first comma or closing
      parenthesis at depth one. There is none when the stream ends first. */
  function ArgumentEnd(tokens: seq<Token>, i: nat, depth: nat): (end: Option<nat>)
    requires depth >= 1
    ensures end.Some? ==> i <= end.value < |tokens| && (tokens[end.value].kind.Comma? || tokens[end.value].kind.RightParen?)
    decreases |tokens| - i
  {
    if i >= |tokens| || tokens[i].kind.Done? then None
    else if depth == 1 && (tokens[i].kind.Comma? || tokens[i].kind.RightParen?) then Some(i)
    else if tokens[i].kind.RightParen? then ArgumentEnd(tokens, i + 1, depth - 1)
    else if tokens[i].kind.LeftParen? then ArgumentEnd(tokens, i + 1, depth + 1)
    else ArgumentEnd(tokens, i + 1, depth)
  }

  // -------------------------------------------------------- the expansion

  datatype Expansion = Failed | Expanded(tokens: seq<Token>, next: nat)

  datatype ArgumentList = NoArguments | Arguments(expansions: seq<seq<Token>>, next: nat)

  /** The body with every parameter token replaced by its argument's expansion. */
  function Splice(body: seq<Token>, arguments: seq<seq<Token>>): seq<Token> {
    if body == [] then []
    else
      (if !body[0].kind.MacroParameter? then [body[0]]
       else if body[0].parameterNumber < |arguments| then arguments[body[0].parameterNumber]
       else [])
      + Splice(body[1..], arguments)
  }

  /** The tokens from i up to end, with the macro calls among them expanded. */
  function ExpandRange(tokens: seq<Token>, macros: MacroTable, i: nat, end: nat): (r: Expansion)
    requires i <= end <= |tokens|
    ensures r.Expanded? ==> r.next == end
    decreases |tokens| - i, 0
  {
    if i == end then Expanded([], end)
    else if IsCall(tokens[i], macros) then
      var call := ExpandCall(tokens, macros, macros[tokens[i].lexeme], i + 1);
      if call.Failed? || call.next > end then Failed
      else
        var rest := ExpandRange(tokens, macros, call.next, end);
        if rest.Failed? then Failed else Expanded(call.tokens + rest.tokens, end)
    else
      var rest := ExpandRange(tokens, macros, i + 1, end);
      if rest.Failed? then Failed else Expanded([tokens[i]] + rest.tokens, end)
  }

  /** A call of the macro whose name stood before index i. */
  function ExpandCall(tokens: seq<Token>, macros: MacroTable, macro: Macro, i: nat): (r: Expansion)
    requires i <= |tokens|
    ensures r.Expanded? ==> i <= r.next <= |tokens|
    decreases |tokens| - i, 0
  {
    if macro.parameters == [] then Expanded(macro.tokens, i)
    else if i == |tokens| || !tokens[i].kind.LeftParen? then Failed
    else
      var arguments := ExpandArguments(tokens, macros, i + 1);
      if arguments.NoArguments? || |arguments.expansions| != |macro.parameters| then Failed
      else Expanded(Splice(macro.tokens, arguments.expansions), arguments.next)
  }

  /** The argument from index i on, which must not be empty. */
  function ExpandArgument(tokens: seq<Token>, macros: MacroTable, i: nat): (r: Expansion)
    requires i <= |tokens|
    ensures r.Expanded? ==> ArgumentEnd(tokens, i, 1) == Some(r.next) && i < r.next < |tokens|
    decreases |tokens| - i, 1
  {
    var end := ArgumentEnd(tokens, i, 1);
    if end.None? || end.value == i then Failed else ExpandRange(tokens, macros, i, end.value)
  }

  /** The arguments from index i on, up to the closing parenthesis. */
  function ExpandArguments(tokens: seq<Token>, macros: MacroTable, i: nat): (r: ArgumentList)
    requires i <= |tokens|
    ensures r.Arguments? ==> i < r.next <= |tokens|
    decreases |tokens| - i, 2
  {
    var first := ExpandArgument(tokens, macros, i);
    if first.Failed? then NoArguments
    else if tokens[first.next].kind.RightParen? then Arguments([first.tokens], first.next + 1)
    else
      var rest := ExpandArguments(tokens, macros, first.next + 1);
      if rest.NoArguments? then NoArguments else Arguments([first.tokens] + rest.expansions, rest.next)
  }

  /** A whole stream from index i on: flagged tokens are dropped, calls are expanded. */
  function ExpandStream(tokens: seq<Token>, macros: MacroTable, i: nat): (r: Expansion)
    requires i <= |tokens|
    decreases |tokens| - i
  {
    if i == |tokens| then Expanded([], i)
    else if tokens[i].ignore then ExpandStream(tokens, macros, i + 1)
    else if IsCall(tokens[i], macros) then
      var call := ExpandCall(tokens, macros, macros[tokens[i].lexeme], i + 1);
      if call.Failed? then Failed
      else
        var rest := ExpandStream(tokens, macros, call.next);
        if rest.Failed? then Failed else Expanded(call.tokens + rest.tokens, rest.next)
    else
      var rest := ExpandStream(tokens, macros, i + 1);
      if rest.Failed? then Failed else Expanded([tokens[i]] + rest.tokens, rest.next)
  }

  // ------------------------------------------- arguments as source slices

  /** The slices of a parenthesised list, split at its depth-one commas by the plain scan. */
  function Slices(tokens: seq<Token>, i: nat): (s: seq<(nat, nat)>)
    decreases |tokens| - i
  {
    var end := ArgumentEnd(tokens, i, 1);
    if end.None? then []
    else if tokens[end.value].kind.RightParen? then [(i, end.value)]
    else [(i, end.value)] + Slices(tokens, end.value + 1)
  }

  /** The slices follow each other from i on, none empty, with a comma between two of them and
      the closing parenthesis, just before next, after the last. */
  ghost predicate Adjacent(tokens: seq<Token>, i: nat, slices: seq<(nat, nat)>, next: nat)
    decreases |slices|
  {
    && |slices| > 0 && slices[0].0 == i < slices[0].1 < |tokens|
    && if |slices| == 1 then tokens[slices[0].1].kind.RightParen? && next == slices[0].1 + 1
       else tokens[slices[0].1].kind.Comma? && Adjacent(tokens, slices[0].1 + 1, slices[1..], next)
  }

  lemma {:induction false} SlicesAdjacent(tokens: seq<Token>, macros: MacroTable, i: nat)
    requires i <= |tokens| && ExpandArguments(tokens, macros, i).Arguments?
    ensures Adjacent(tokens, i, Slices(tokens, i), ExpandArguments(tokens, macros, i).next)
    decreases |tokens| - i
  {
    var end := ExpandArgument(tokens, macros, i).next;
    if !tokens[end].kind.Comma? {
    } else {
      SlicesAdjacent(tokens, macros, end + 1);
      var slices, rest := Slices(tokens, i), Slices(tokens, end + 1);
      assert slices == [(i, end)] + rest;
      assert slices[0] == (i, end) && slices[1..] == rest && |slices| > 1;
    }
  }

  /** The expansion is that of the tokens of the slice, which is not empty. */
  ghost predicate ExpandsSlice(tokens: seq<Token>, macros: MacroTable, slice: (nat, nat), expansion: seq<Token>) {
    slice.0 < slice.1 <= |tokens| && ExpandRange(tokens, macros, slice.0, slice.1) == Expanded(expansion, slice.1)
  }

  ghost predicate ExpandSlices(tokens: seq<Token>, macros: MacroTable, slices: seq<(nat, nat)>, expansions: seq<seq<Token>>) {
    && |expansions| == |slices|
    && forall k {:trigger slices[k]} {:trigger expansions[k]} :: 0 <= k < |slices| ==>
         ExpandsSlice(tokens, macros, slices[k], expansions[k])
  }

  /** On success the arguments are the slices of the plain scan, each expanded on its own. */
  lemma {:induction false} ArgumentsAreSlices(tokens: seq<Token>, macros: MacroTable, i: nat)
    requires i <= |tokens| && ExpandArguments(tokens, macros, i).Arguments?
    ensures ExpandSlices(tokens, macros, Slices(tokens, i), ExpandArguments(tokens, macros, i).expansions)
    decreases |tokens| - i
  {
    var first := ExpandArgument(tokens, macros, i);
    var slice := (i, first.next);
    assert ExpandsSlice(tokens, macros, slice, first.tokens);
    if tokens[first.next].kind.RightParen? {
      assert Slices(tokens, i) == [slice] + [];
      OneMoreSlice(tokens, macros, slice, first.tokens, [], []);
      assert [first.tokens] + [] == [first.tokens];
    } else {
      ArgumentsAreSlices(tokens, macros, first.next + 1);
      assert Slices(tokens, i) == [slice] + Slices(tokens, first.next + 1);
      OneMoreSlice(tokens, macros, slice, first.tokens, Slices(tokens, first.next + 1),
                   ExpandArguments(tokens, macros, first.next + 1).expansions);
    }
  }

  lemma OneMoreSlice(tokens: seq<Token>, macros: MacroTable, slice: (nat, nat), expansion: seq<Token>,
                     slices: seq<(nat, nat)>, expansions: seq<seq<Token>>)
    requires ExpandsSlice(tokens, macros, slice, expansion) && ExpandSlices(tokens, macros, slices, expansions)
    ensures ExpandSlices(tokens, macros, [slice] + slices, [expansion] + expansions)
  {
  }

  /** A call never reaches past the last token of a stream. */
  lemma CallEndsInside(tokens: seq<Token>, macros: MacroTable, macro: Macro, i: nat)
    requires IsStream(tokens) && i < |tokens| && ExpandCall(tokens, macros, macro, i).Expanded?
    ensures ExpandCall(tokens, macros, macro, i).next < |tokens|
  {
    if macro.parameters != [] {
      ArgumentsEndInside(tokens, macros, i + 1);
    }
  }

  lemma {:induction false} ArgumentsEndInside(tokens: seq<Token>, macros: MacroTable, i: nat)
    requires IsStream(tokens) && i <= |tokens| && ExpandArguments(tokens, macros, i).Arguments?
    ensures ExpandArguments(tokens, macros, i).next < |tokens|
    decreases |tokens| - i
  {
    var first := ExpandArgument(tokens, macros, i);
    assert first.next != |tokens| - 1;
    if !tokens[first.next].kind.Comma? {
    } else {
      ArgumentsEndInside(tokens, macros, first.next + 1);
    }
  }

  // --------------------------------------------------- nothing is empty

  lemma {:induction false} SpliceNonEmpty(body: seq<Token>, arguments: seq<seq<Token>>)
    requires body != []
    requires forall k {:trigger body[k]} :: 0 <= k < |body| && body[k].kind.MacroParameter? ==> body[k].parameterNumber < |arguments|
    requires forall k {:trigger arguments[k]} :: 0 <= k < |arguments| ==> arguments[k] != []
    ensures Splice(body, arguments) != []
  {
  }

  /** The expansion of anything that is not empty is not empty. */
  lemma {:induction false} RangeNonEmpty(tokens: seq<Token>, macros: MacroTable, i: nat, end: nat)
    requires AreMacros(macros) && i < end <= |tokens| && ExpandRange(tokens, macros, i, end).Expanded?
    ensures ExpandRange(tokens, macros, i, end).tokens != []
    decreases |tokens| - i, 0
  {
    if IsCall(tokens[i], macros) {
      CallNonEmpty(tokens, macros, macros[tokens[i].lexeme], i + 1);
    }
  }

  lemma {:induction false} CallNonEmpty(tokens: seq<Token>, macros: MacroTable, macro: Macro, i: nat)
    requires AreMacros(macros) && IsMacro(macro) && i <= |tokens| && ExpandCall(tokens, macros, macro, i).Expanded?
    ensures ExpandCall(tokens, macros, macro, i).tokens != []
    decreases |tokens| - i, 0
  {
    if macro.parameters != [] {
      ArgumentsNonEmpty(tokens, macros, i + 1);
      SpliceNonEmpty(macro.tokens, ExpandArguments(tokens, macros, i + 1).expansions);
    }
  }

  lemma {:induction false} ArgumentsNonEmpty(tokens: seq<Token>, macros: MacroTable, i: nat)
    requires AreMacros(macros) && i <= |tokens| && ExpandArguments(tokens, macros, i).Arguments?
    ensures forall k {:trigger ExpandArguments(tokens, macros, i).expansions[k]} ::
              0 <= k < |ExpandArguments(tokens, macros, i).expansions| ==> ExpandArguments(tokens, macros, i).expansions[k] != []
    decreases |tokens| - i, 1
  {
    var end := ArgumentEnd(tokens, i, 1);
    RangeNonEmpty(tokens, macros, i, end.value);
    if !tokens[end.value].kind.Comma? {
    } else {
      ArgumentsNonEmpty(tokens, macros, end.value + 1);
      var rest := ExpandArguments(tokens, macros, end.value + 1).expansions;
      assert forall k :: 1 <= k < |rest| + 1 ==> ExpandArguments(tokens, macros, i).expansions[k] == rest[k - 1];
    }
  }

  // ------------------------------------------ scanning past nested calls

  /** Read one parenthesis deeper, an argument's end is not an end: the scan goes on behind it. */
  lemma {:induction false} ScanPastArgument(tokens: seq<Token>, i: nat, depth: nat, extra: nat)
    requires depth >= 1 && extra >= 1 && ArgumentEnd(tokens, i, depth).Some?
    ensures var end := ArgumentEnd(tokens, i, depth).value;
            ArgumentEnd(tokens, i, depth + extra) ==
              ArgumentEnd(tokens, end + 1, if tokens[end].kind.RightParen? then extra else extra + 1)
    decreases |tokens| - i
  {
    if depth == 1 && (tokens[i].kind.Comma? || tokens[i].kind.RightParen?) {
    } else {
      var inner := if tokens[i].kind.RightParen? then depth - 1 else if tokens[i].kind.LeftParen? then depth + 1 else depth;
      ScanPastArgument(tokens, i + 1, inner, extra);
    }
  }

  /** The plain scan passes over a whole argument list as the expansion does. */
  lemma {:induction false} ScanPastArguments(tokens: seq<Token>, macros: MacroTable, i: nat, depth: nat)
    requires depth >= 1 && i <= |tokens| && ExpandArguments(tokens, macros, i).Arguments?
    ensures ArgumentEnd(tokens, i, depth + 1) == ArgumentEnd(tokens, ExpandArguments(tokens, macros, i).next, depth)
    decreases |tokens| - i
  {
    var end := ArgumentEnd(tokens, i, 1);
    ScanPastArgument(tokens, i, 1, depth);
    if !tokens[end.value].kind.Comma? {
    } else {
      ScanPastArguments(tokens, macros, end.value + 1, depth);
    }
  }

  /** The plain scan passes over a macro call as the expansion does. */
  lemma ScanPastCall(tokens: seq<Token>, macros: MacroTable, macro: Macro, i: nat, depth: nat)
    requires depth >= 1 && i <= |tokens| && ExpandCall(tokens, macros, macro, i).Expanded?
    ensures ArgumentEnd(tokens, i, depth) == ArgumentEnd(tokens, ExpandCall(tokens, macros, macro, i).next, depth)
  {
    if macro.parameters != [] {
      ScanPastArguments(tokens, macros, i + 1, depth);
    }
  }

  // ------------------------------------------------------------ fast path

  /** Without macros and flagged tokens the expansion is the stream itself. */
  lemma {:induction false} NothingToExpand(tokens: seq<Token>, i: nat)
    requires i <= |tokens| && forall k {:trigger tokens[k]} :: i <= k < |tokens| ==> !tokens[k].ignore
    ensures ExpandStream(tokens, map[], i) == Expanded(tokens[i..], |tokens|)
    decreases |tokens| - i
  {
    if i >= |tokens| {
    } else {
      NothingToExpand(tokens, i + 1);
      assert tokens[i..] == [tokens[i]] + tokens[i + 1..];
    }
  }
}
