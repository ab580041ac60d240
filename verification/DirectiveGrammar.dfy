/** The preprocessor's directives, and what consuming them does to a token stream. */
module DirectiveGrammar {
  import opened Wrappers
  import opened MacroExpansion

  /** Reading past the end of the tokens looks like the end of the stream. */
  function KindAt(tokens: seq<Token>, i: nat): TokenKind {
    if i < |tokens| then tokens[i].kind else Done
  }

  function Flag(token: Token): Token {
    token.(ignore := true)
  }

  /** The tokens with those from i up to end flagged. */
  function FlagRange(tokens: seq<Token>, i: nat, end: nat): (r: seq<Token>)
    ensures |r| == |tokens|
    ensures forall k {:trigger r[k]} {:trigger tokens[k]} :: 0 <= k < |tokens| ==>
              r[k] == if i <= k < end then Flag(tokens[k]) else tokens[k]
  {
    seq(|tokens|, k requires 0 <= k < |tokens| => if i <= k < end then Flag(tokens[k]) else tokens[k])
  }

  // ---------------------------------------------------------------- macros

  /** The number of the parameter with this name, or the number of parameters. */
  function ParameterNumber(parameters: seq<Token>, lexeme: string): (n: nat)
    ensures n <= |parameters|
    ensures forall k :: 0 <= k < n ==> parameters[k].lexeme != lexeme
    ensures n < |parameters| ==> parameters[n].lexeme == lexeme
  {
    if parameters == [] then 0
    else if parameters[0].lexeme == lexeme then 0
    else 1 + ParameterNumber(parameters[1..], lexeme)
  }

  /** What a body token becomes: flagged, and a parameter token if it names a parameter. */
  function Mark(token: Token, parameters: seq<Token>): Token {
    if token.kind.Identifier? && ParameterNumber(parameters, token.lexeme) < |parameters| then
      Flag(token).(kind := MacroParameter, parameterNumber := ParameterNumber(parameters, token.lexeme))
    else Flag(token)
  }

  function MarkRange(tokens: seq<Token>, parameters: seq<Token>, i: nat, end: nat): (r: seq<Token>)
    ensures |r| == |tokens|
    ensures forall k {:trigger r[k]} {:trigger tokens[k]} :: 0 <= k < |tokens| ==>
              r[k] == if i <= k < end then Mark(tokens[k], parameters) else tokens[k]
  {
    seq(|tokens|, k requires 0 <= k < |tokens| => if i <= k < end then Mark(tokens[k], parameters) else tokens[k])
  }

  datatype ParameterList = BadList | ParameterList(parameters: seq<Token>, next: nat)

  /** The parameters from index i on, after those already read: different identifiers, with
      commas between them, up to the closing parenthesis. */
  function ParseParameters(tokens: seq<Token>, i: nat, before: seq<Token>): (r: ParameterList)
    ensures r.ParameterList? ==> i + 1 < r.next <= |tokens|
    decreases |tokens| - i
  {
    if !KindAt(tokens, i).Identifier? || ParameterNumber(before, tokens[i].lexeme) < |before| then BadList
    else
      var parameters := before + [Flag(tokens[i])];
      if KindAt(tokens, i + 1).Comma? then ParseParameters(tokens, i + 2, parameters)
      else if KindAt(tokens, i + 1).RightParen? then ParameterList(parameters, i + 2)
      else BadList
  }

  /** The first macro directive or end of stream at or after index i. */
  function BodyEnd(tokens: seq<Token>, i: nat): (end: nat)
    ensures end >= i
    ensures KindAt(tokens, end).MacroKeyword? || KindAt(tokens, end).EndMacro? || KindAt(tokens, end).Done?
    ensures forall k {:trigger tokens[k]} :: i <= k < end ==> k < |tokens| && !tokens[k].kind.MacroKeyword? && !tokens[k].kind.EndMacro? && !tokens[k].kind.Done?
    decreases |tokens| - i
  {
    if KindAt(tokens, i).MacroKeyword? || KindAt(tokens, i).EndMacro? || KindAt(tokens, i).Done? then i
    else BodyEnd(tokens, i + 1)
  }

  datatype MacroDefinition = BadMacro | MacroDefinition(macro: Macro, tokens: seq<Token>, next: nat)

  datatype MacroHeader = BadHeader | MacroHeader(name: string, parameters: seq<Token>, next: nat)

  /** The header of the macro at index i: a name that is not taken, and its parameters if there
      is a parenthesis. */
  function ParseHeader(tokens: seq<Token>, macros: MacroTable, i: nat): (r: MacroHeader)
    ensures r.MacroHeader? ==> i + 2 <= r.next
  {
    if !KindAt(tokens, i + 1).Identifier? || tokens[i + 1].lexeme in macros then BadHeader
    else if !KindAt(tokens, i + 2).LeftParen? then MacroHeader(tokens[i + 1].lexeme, [], i + 2)
    else
      var list := ParseParameters(tokens, i + 3, []);
      if list.BadList? then BadHeader else MacroHeader(tokens[i + 1].lexeme, list.parameters, list.next)
  }

  /** The macro definition at index i. Its body is not empty and holds no other definition. */
  function ParseMacro(tokens: seq<Token>, macros: MacroTable, i: nat): (r: MacroDefinition)
    ensures r.MacroDefinition? ==> i < r.next <= |tokens| == |r.tokens|
  {
    var header := ParseHeader(tokens, macros, i);
    if header.BadHeader? then BadMacro else FinishMacro(tokens, i, header.name, header.parameters, header.next)
  }

  /** The body from index b on, of the macro that starts at index i. */
  function FinishMacro(tokens: seq<Token>, i: nat, name: string, parameters: seq<Token>, b: nat): (r: MacroDefinition)
    requires b > i
    ensures r.MacroDefinition? ==> i < r.next <= |tokens| == |r.tokens|
  {
    var end := BodyEnd(tokens, b);
    if !KindAt(tokens, end).EndMacro? || end == b then BadMacro
    else
      var marked := MarkRange(tokens, parameters, b, end);
      MacroDefinition(Macro(name, parameters, marked[b..end]), FlagRange(marked, i, end + 1), end + 1)
  }

  // ----------------------------------------------------- other directives

  predicate IsConstant(kind: TokenKind) {
    kind.Constant? || kind.StringConstant?
  }

  /** Where the unit test directive at index i ends. */
  function OunitEnd(tokens: seq<Token>, i: nat): (end: Option<nat>)
    ensures end.Some? ==> i < end.value <= |tokens|
  {
    if !KindAt(tokens, i + 1).Colon? || !KindAt(tokens, i + 2).LeftBracket? then None
    else if KindAt(tokens, i + 3).ExitStatus? then
      if KindAt(tokens, i + 4).Equals? && IsConstant(KindAt(tokens, i + 5)) && KindAt(tokens, i + 6).RightBracket? then Some(i + 7) else None
    else if KindAt(tokens, i + 3).FailToCompile? then
      if KindAt(tokens, i + 4).RightBracket? then Some(i + 5) else None
    else None
  }

  function ImportEnd(tokens: seq<Token>, i: nat): (end: Option<nat>)
    ensures end.Some? ==> i < end.value <= |tokens|
  {
    if KindAt(tokens, i + 1).StringConstant? && KindAt(tokens, i + 2).Semicolon? then Some(i + 3) else None
  }

  function ModuleEnd(tokens: seq<Token>, i: nat): (end: Option<nat>)
    ensures end.Some? ==> i < end.value <= |tokens|
  {
    if KindAt(tokens, i + 1).Identifier? && KindAt(tokens, i + 2).Semicolon? then Some(i + 3) else None
  }

  // ------------------------------------------------------------- the pass

  datatype Consumption =
    | Rejected
    | Consumed(tokens: seq<Token>, macros: MacroTable, macroCount: nat, ounitCount: nat)

  /** Consuming the directives from index i on; top says that only module and import
      directives have been seen so far. Imports and modules are counted like macros. */
  function Consume(tokens: seq<Token>, macros: MacroTable, i: nat, top: bool, macroCount: nat, ounitCount: nat): (r: Consumption)
    decreases |tokens| - i
  {
    if i >= |tokens| then Consumed(tokens, macros, macroCount, ounitCount)
    else
      match tokens[i].kind
      case MacroKeyword =>
        var definition := ParseMacro(tokens, macros, i);
        if definition.BadMacro? then Rejected
        else Consume(definition.tokens, macros[definition.macro.name := definition.macro], definition.next, false, macroCount + 1, ounitCount)
      case EndMacro => Rejected
      case Ounit =>
        var end := OunitEnd(tokens, i);
        if end.None? then Rejected
        else Consume(FlagRange(tokens, i, end.value), macros, end.value, false, macroCount, ounitCount + 1)
      case ImportKeyword =>
        var end := ImportEnd(tokens, i);
        if !top || end.None? then Rejected
        else Consume(FlagRange(tokens, i, end.value), macros, end.value, top, macroCount + 1, ounitCount)
      case ModuleKeyword =>
        var end := ModuleEnd(tokens, i);
        if i != 0 || end.None? then Rejected
        else Consume(FlagRange(tokens, i, end.value), macros, end.value, top, macroCount + 1, ounitCount)
      case _ => Consume(tokens, macros, i + 1, false, macroCount, ounitCount)
  }
}
