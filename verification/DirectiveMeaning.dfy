/** What the directives of a token stream are, said about the stream's text and without the
    functions that parse it. */
module DirectiveMeaning {
  import opened MacroExpansion

  ghost predicate At(tokens: seq<Token>, k: int, kind: TokenKind) {
    0 <= k < |tokens| && tokens[k].kind == kind
  }

  // ---------------------------------------------------------------- macros

  /** Parameter number p of the list whose parenthesis stands before index i, and what follows it. */
  ghost predicate ParameterAt(tokens: seq<Token>, i: nat, parameters: seq<Token>, p: int) {
    && 0 <= p < |parameters| && At(tokens, i + 2 * p, Identifier)
    && tokens[i + 2 * p].lexeme == parameters[p].lexeme
    && At(tokens, i + 2 * p + 1, if p == |parameters| - 1 then RightParen else Comma)
  }

  /** The parameters stand there one after the other, all different. */
  ghost predicate ParameterText(tokens: seq<Token>, i: nat, parameters: seq<Token>) {
    && (forall p {:trigger ParameterAt(tokens, i, parameters, p)} :: 0 <= p < |parameters| ==> ParameterAt(tokens, i, parameters, p))
    && forall p, q {:trigger parameters[p], parameters[q]} :: 0 <= p < q < |parameters| ==> parameters[p].lexeme != parameters[q].lexeme
  }

  /** At a: the keyword, the name, and the parameters in parentheses if there are any; the body
      starts at h. */
  ghost predicate HeaderText(tokens: seq<Token>, a: nat, name: string, parameters: seq<Token>, h: nat) {
    && At(tokens, a, MacroKeyword) && At(tokens, a + 1, Identifier) && tokens[a + 1].lexeme == name
    && if parameters == [] then !At(tokens, a + 2, LeftParen) && h == a + 2
       else At(tokens, a + 2, LeftParen) && ParameterText(tokens, a + 3, parameters) && h == a + 3 + 2 * |parameters|
  }

  /** A body token is the one of the stream, flagged, except that an identifier that names a
      parameter becomes a parameter token with that parameter's number. */
  ghost predicate BodyTokenOf(parameters: seq<Token>, token: Token, body: Token) {
    && token.kind != MacroKeyword && token.kind != EndMacro && token.kind != Done && body.lexeme == token.lexeme && body.ignore
    && if token.kind == Identifier && exists p :: 0 <= p < |parameters| && parameters[p].lexeme == token.lexeme then
         && body.kind == MacroParameter
         && body.parameterNumber < |parameters| && parameters[body.parameterNumber].lexeme == token.lexeme
       else body.kind == token.kind && body.parameterNumber == token.parameterNumber
  }

  /** From h on: the tokens of the body, not none, and the end keyword just before b. */
  ghost predicate BodyText(tokens: seq<Token>, h: nat, b: nat, parameters: seq<Token>, body: seq<Token>) {
    && body != [] && h + |body| + 1 == b && At(tokens, h + |body|, EndMacro)
    && forall j {:trigger body[j]} :: 0 <= j < |body| ==> BodyTokenOf(parameters, tokens[h + j], body[j])
  }

  /** The tokens from a up to b define this macro. */
  ghost predicate Defines(tokens: seq<Token>, a: nat, b: nat, macro: Macro) {
    exists h {:trigger HeaderText(tokens, a, macro.name, macro.parameters, h)} ::
      HeaderText(tokens, a, macro.name, macro.parameters, h) && BodyText(tokens, h, b, macro.parameters, macro.tokens)
  }

  // ----------------------------------------------------- other directives

  ghost predicate OunitText(tokens: seq<Token>, a: nat, b: nat) {
    && At(tokens, a + 1, Colon) && At(tokens, a + 2, LeftBracket)
    && if At(tokens, a + 3, ExitStatus) then
         && b == a + 7 && At(tokens, a + 4, Equals) && (At(tokens, a + 5, Constant) || At(tokens, a + 5, StringConstant))
         && At(tokens, a + 6, RightBracket)
       else b == a + 5 && At(tokens, a + 3, FailToCompile) && At(tokens, a + 4, RightBracket)
  }

  /** The tokens from a up to b are one directive, or one token that belongs to none. */
  ghost predicate ItemText(tokens: seq<Token>, a: nat, b: nat) {
    && a < |tokens| && a < b
    && match tokens[a].kind
       case MacroKeyword => exists macro :: Defines(tokens, a, b, macro)
       case EndMacro => false
       case Ounit => OunitText(tokens, a, b)
       case ImportKeyword => b == a + 3 && At(tokens, a + 1, StringConstant) && At(tokens, a + 2, Semicolon)
       case ModuleKeyword => b == a + 3 && At(tokens, a + 1, Identifier) && At(tokens, a + 2, Semicolon)
       case _ => b == a + 1
  }

  ghost predicate ModuleOrImport(kind: TokenKind) {
    kind == ImportKeyword || kind == ModuleKeyword
  }

  /** Item number k of those cut out: imports come before everything but the module directive and
      other imports, if anything may come at all, and the module directive is first in the stream. */
  ghost predicate ItemAt(tokens: seq<Token>, cuts: seq<nat>, top: bool, k: int) {
    && 0 <= k < |cuts| - 1 && ItemText(tokens, cuts[k], cuts[k + 1])
    && (tokens[cuts[k]].kind == ModuleKeyword ==> cuts[k] == 0)
    && (tokens[cuts[k]].kind == ImportKeyword ==> top && OnlyImports(tokens, cuts, k))
  }

  ghost predicate OnlyImports(tokens: seq<Token>, cuts: seq<nat>, k: int) {
    forall j {:trigger cuts[j]} :: 0 <= j < k && j < |cuts| && cuts[j] < |tokens| ==> ModuleOrImport(tokens[cuts[j]].kind)
  }

  /** The cuts divide the stream from i on into items. */
  ghost predicate Items(tokens: seq<Token>, i: nat, cuts: seq<nat>, top: bool) {
    && |cuts| > 0 && cuts[0] == i && cuts[|cuts| - 1] == |tokens|
    && forall k {:trigger ItemAt(tokens, cuts, top, k)} :: 0 <= k < |cuts| - 1 ==> ItemAt(tokens, cuts, top, k)
  }

  // --------------------------------------------------------------- results

  /** Item number k defines a macro of this name. */
  ghost predicate NamedAt(tokens: seq<Token>, cuts: seq<nat>, k: int, name: string) {
    && 0 <= k < |cuts| - 1 && At(tokens, cuts[k], MacroKeyword)
    && cuts[k] + 1 < |tokens| && tokens[cuts[k] + 1].lexeme == name
  }

  /** No name is defined twice, or again. */
  ghost predicate NewNames(tokens: seq<Token>, cuts: seq<nat>, macros: MacroTable) {
    && (forall k, name {:trigger NamedAt(tokens, cuts, k, name)} :: NamedAt(tokens, cuts, k, name) ==> name !in macros)
    && forall j, k, name {:trigger NamedAt(tokens, cuts, j, name), NamedAt(tokens, cuts, k, name)} ::
         NamedAt(tokens, cuts, j, name) && NamedAt(tokens, cuts, k, name) ==> j == k
  }

  /** The name was in the table before, or some item defines it. */
  ghost predicate Comes(tokens: seq<Token>, cuts: seq<nat>, macros: MacroTable, name: string) {
    name in macros || exists k :: NamedAt(tokens, cuts, k, name)
  }

  /** Item number k is what the table holds under its name. */
  ghost predicate TableHolds(tokens: seq<Token>, cuts: seq<nat>, macros': MacroTable, k: int, name: string) {
    && 0 <= k < |cuts| - 1 && name in macros' && macros'[name].name == name
    && Defines(tokens, cuts[k], cuts[k + 1], macros'[name])
  }

  /** The table has gained the macros that the items define, each as it is defined. */
  ghost predicate Table(tokens: seq<Token>, cuts: seq<nat>, macros: MacroTable, macros': MacroTable) {
    && (forall name {:trigger name in macros} :: name in macros ==> name in macros' && macros'[name] == macros[name])
    && (forall name {:trigger Comes(tokens, cuts, macros, name)} :: name in macros' ==> Comes(tokens, cuts, macros, name))
    && forall k, name {:trigger NamedAt(tokens, cuts, k, name)} :: NamedAt(tokens, cuts, k, name) ==>
         TableHolds(tokens, cuts, macros', k, name)
  }

  /** How many of the items start with one of these kinds. */
  ghost function CountOf(tokens: seq<Token>, cuts: seq<nat>, kinds: set<TokenKind>): nat {
    if |cuts| <= 1 then 0
    else (if cuts[0] < |tokens| && tokens[cuts[0]].kind in kinds then 1 else 0) + CountOf(tokens, cuts[1..], kinds)
  }

  const DIRECTIVES: set<TokenKind> := {MacroKeyword, Ounit, ImportKeyword, ModuleKeyword}

  /** The tokens of directives are flagged, all others are as they were. */
  ghost predicate FlaggedItem(tokens: seq<Token>, tokens': seq<Token>, a: nat, b: nat) {
    && a < b <= |tokens| == |tokens'|
    && if tokens[a].kind in DIRECTIVES then forall m {:trigger tokens'[m]} :: a <= m < b ==> tokens'[m].ignore
       else tokens'[a] == tokens[a]
  }

  ghost predicate FlaggedAt(tokens: seq<Token>, cuts: seq<nat>, tokens': seq<Token>, k: int) {
    0 <= k < |cuts| - 1 && FlaggedItem(tokens, tokens', cuts[k], cuts[k + 1])
  }

  ghost predicate Flagged(tokens: seq<Token>, cuts: seq<nat>, tokens': seq<Token>) {
    forall k {:trigger FlaggedAt(tokens, cuts, tokens', k)} :: 0 <= k < |cuts| - 1 ==> FlaggedAt(tokens, cuts, tokens', k)
  }

  /** The directives of the stream are well formed and define only new macros. */
  ghost predicate WellFormed(tokens: seq<Token>, cuts: seq<nat>, macros: MacroTable) {
    Items(tokens, 0, cuts, true) && NewNames(tokens, cuts, macros)
  }

  /** What is left of the stream and recorded from it, and the counts; imports and modules count as
      macros do. */
  ghost predicate Consumes(tokens: seq<Token>, cuts: seq<nat>, macros: MacroTable, tokens': seq<Token>, macros': MacroTable) {
    Table(tokens, cuts, macros, macros') && Flagged(tokens, cuts, tokens')
  }

  ghost function MacrosIn(tokens: seq<Token>, cuts: seq<nat>): nat {
    CountOf(tokens, cuts, {MacroKeyword, ImportKeyword, ModuleKeyword})
  }

  ghost function OunitsIn(tokens: seq<Token>, cuts: seq<nat>): nat {
    CountOf(tokens, cuts, {Ounit})
  }

  /** The name stands behind the macro keyword at m. */
  ghost predicate NamedBehind(tokens: seq<Token>, m: nat, name: string) {
    At(tokens, m, MacroKeyword) && m + 1 < |tokens| && tokens[m + 1].lexeme == name
  }

  /** The new names of the table are those behind the stream's macro keywords, each once, and each
      stands for the macro that is defined there. */
  ghost predicate NamesRecorded(tokens: seq<Token>, macros: MacroTable, macros': MacroTable) {
    && (forall name {:trigger name in macros'} :: name in macros' <==> name in macros || exists m :: NamedBehind(tokens, m, name))
    && (forall name {:trigger name in macros} :: name in macros && name in macros' ==> macros'[name] == macros[name])
    && (forall m, n, name {:trigger NamedBehind(tokens, m, name), NamedBehind(tokens, n, name)} ::
          NamedBehind(tokens, m, name) && NamedBehind(tokens, n, name) ==> m == n)
    && forall m, name {:trigger NamedBehind(tokens, m, name)} :: NamedBehind(tokens, m, name) && name in macros' ==>
         name !in macros && macros'[name].name == name && exists b :: Defines(tokens, m, b, macros'[name])
  }
}
