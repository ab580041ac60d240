/** What macro calls mean, said without the functions that expand them: which tokens are an
    argument, which argument stands for which parameter, and what follows what. */
module MacroMeaning {
  import opened MacroExpansion

  // ------------------------------------------------------- recorded macros

  ghost predicate DistinctLexemes(parameters: seq<Token>) {
    forall i, j :: 0 <= i < j < |parameters| ==> parameters[i].lexeme != parameters[j].lexeme
  }

  /** A body token is a parameter token exactly when it names a parameter, and then its number
      is that of the only parameter with its name. */
  ghost predicate BodyToken(parameters: seq<Token>, token: Token) {
    && (token.kind.MacroParameter? ==>
          token.parameterNumber < |parameters| && parameters[token.parameterNumber].lexeme == token.lexeme)
    && (token.kind.Identifier? ==> forall k :: 0 <= k < |parameters| ==> parameters[k].lexeme != token.lexeme)
  }

  ghost predicate Recorded(macro: Macro) {
    && macro.tokens != [] && DistinctLexemes(macro.parameters)
    && forall k {:trigger macro.tokens[k]} :: 0 <= k < |macro.tokens| ==> BodyToken(macro.parameters, macro.tokens[k])
  }

  ghost predicate AllRecorded(macros: MacroTable) {
    forall name {:trigger macros[name]} :: name in macros ==> Recorded(macros[name])
  }

  lemma RecordedAreMacros(macros: MacroTable)
    requires AllRecorded(macros)
    ensures AreMacros(macros)
  {
  }

  // ------------------------------------------------------------- arguments

  /** How many more parentheses are opened than closed from i up to k. */
  ghost function Opened(tokens: seq<Token>, i: nat, k: nat): int
    requires i <= k <= |tokens|
  {
    if k == i then 0
    else Opened(tokens, i, k - 1) +
         if tokens[k - 1].kind == LeftParen then 1 else if tokens[k - 1].kind == RightParen then -1 else 0
  }

  /** A comma or closing parenthesis that is not inside parentheses opened from i on. */
  ghost predicate Separates(tokens: seq<Token>, i: nat, k: nat) {
    i <= k < |tokens| && (tokens[k].kind == Comma || tokens[k].kind == RightParen) && Opened(tokens, i, k) == 0
  }

  ghost predicate Passes(tokens: seq<Token>, i: nat, k: nat) {
    k < |tokens| && !Separates(tokens, i, k) && tokens[k].kind != Done
  }

  /** The argument that starts at i ends at its first separator, inside the stream. */
  ghost predicate EndsAt(tokens: seq<Token>, i: nat, end: nat) {
    && Separates(tokens, i, end)
    && forall k: nat {:trigger Passes(tokens, i, k)} :: i <= k < end ==> Passes(tokens, i, k)
  }

  ghost function Joined(pieces: seq<seq<Token>>): seq<Token> {
    if pieces == [] then [] else pieces[0] + Joined(pieces[1..])
  }

  // --------------------------------------------------------------- meaning

  /** What a body token contributes: a parameter token the argument given for the parameter of its
      name, any other token itself. */
  ghost predicate Contributes(parameters: seq<Token>, arguments: seq<seq<Token>>, token: Token, piece: seq<Token>) {
    if token.kind == MacroParameter then
      exists p :: 0 <= p < |parameters| && p < |arguments| && parameters[p].lexeme == token.lexeme && piece == arguments[p]
    else piece == [token]
  }

  /** The body, one piece for each of its tokens, in order. */
  ghost predicate BodyMeans(parameters: seq<Token>, body: seq<Token>, arguments: seq<seq<Token>>, out: seq<Token>) {
    exists pieces {:trigger Joined(pieces)} ::
      && |pieces| == |body| && out == Joined(pieces)
      && forall k {:trigger pieces[k]} :: 0 <= k < |body| ==> Contributes(parameters, arguments, body[k], pieces[k])
  }

  /** The tokens from a up to end, not none, are an argument, which means this much. */
  ghost predicate ArgumentMeans(tokens: seq<Token>, macros: MacroTable, a: nat, end: nat, last: bool, argument: seq<Token>)
    decreases |tokens| - a, 3
  {
    && a < end && EndsAt(tokens, a, end) && tokens[end].kind == (if last then RightParen else Comma)
    && Means(tokens, macros, a, end, false, argument)
  }

  /** The tokens from i up to next are a list of arguments, up to the closing parenthesis, with a
      comma between two of them, and mean these, in order. */
  ghost predicate ListMeans(tokens: seq<Token>, macros: MacroTable, i: nat, arguments: seq<seq<Token>>, next: nat)
    decreases |tokens| - i, 4
  {
    && i <= |tokens| && |arguments| > 0
    && exists end: nat {:trigger EndsAt(tokens, i, end)} ::
         && ArgumentMeans(tokens, macros, i, end, |arguments| == 1, arguments[0])
         && if |arguments| == 1 then next == end + 1 else ListMeans(tokens, macros, end + 1, arguments[1..], next)
  }

  /** A call of the macro whose name stands before index i means out, and ends before next. */
  ghost predicate CallMeans(tokens: seq<Token>, macros: MacroTable, macro: Macro, i: nat, next: nat, out: seq<Token>)
    decreases |tokens| - i, 0
  {
    if macro.parameters == [] then next == i && out == macro.tokens
    else
      && i < |tokens| && tokens[i].kind == LeftParen
      && exists arguments {:trigger ListMeans(tokens, macros, i + 1, arguments, next)} ::
           && ListMeans(tokens, macros, i + 1, arguments, next) && |arguments| == |macro.parameters|
           && BodyMeans(macro.parameters, macro.tokens, arguments, out)
  }

  /** One step: a macro call, or a token that stands for itself, or a flagged one to be dropped. */
  ghost predicate StepMeans(tokens: seq<Token>, macros: MacroTable, a: nat, b: nat, drop: bool, piece: seq<Token>)
    decreases |tokens| - a, 0
  {
    && a < b <= |tokens|
    && if drop && tokens[a].ignore then b == a + 1 && piece == []
       else if tokens[a].kind == Identifier && tokens[a].lexeme in macros then
         CallMeans(tokens, macros, macros[tokens[a].lexeme], a + 1, b, piece)
       else b == a + 1 && piece == [tokens[a]]
  }

  /** The cuts divide the tokens from i up to end into steps. */
  ghost predicate StepsMean(tokens: seq<Token>, macros: MacroTable, i: nat, end: nat, drop: bool,
                            cuts: seq<nat>, pieces: seq<seq<Token>>)
    decreases |tokens| - i, 1
  {
    && i <= |tokens| && |cuts| == |pieces| + 1 && cuts[0] == i && cuts[|pieces|] == end
    && forall k {:trigger pieces[k]} :: 0 <= k < |pieces| ==>
         i <= cuts[k] <= |tokens| && StepMeans(tokens, macros, cuts[k], cuts[k + 1], drop, pieces[k])
  }

  /** The tokens from i up to end mean out: the steps joined in the order of the stream. */
  ghost predicate Means(tokens: seq<Token>, macros: MacroTable, i: nat, end: nat, drop: bool, out: seq<Token>)
    decreases |tokens| - i, 2
  {
    && i <= |tokens|
    && exists cuts, pieces {:trigger StepsMean(tokens, macros, i, end, drop, cuts, pieces)} ::
         StepsMean(tokens, macros, i, end, drop, cuts, pieces) && out == Joined(pieces)
  }

  ghost predicate HasMeaning(tokens: seq<Token>, macros: MacroTable) {
    exists out :: Means(tokens, macros, 0, |tokens|, true, out)
  }
}
