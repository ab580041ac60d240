/** The consumption pass: recording the macros of a stream and flagging its directives. */
module MacroConsumption {
  import opened MacroExpansion
  import opened TokenArrays
  import opened DirectiveGrammar
  import opened DirectiveMeaning
  import opened DirectiveLaws

  // ------------------------------------------------------ the flagged part

  /** The stream is the original one with the tokens from i up to k flagged. */
  ghost predicate FlaggedTo(stream: TokenStream, original: seq<Token>, i: nat, k: nat)
    reads stream
  {
    && IsStream(original) && i <= k <= |original|
    && stream.tokens == FlagRange(original, i, k)
  }

  /** Flagging one more token. */
  method FlagNext(stream: TokenStream, k: nat, ghost original: seq<Token>, ghost i: nat)
    requires FlaggedTo(stream, original, i, k) && k < |original|
    modifies stream
    ensures FlaggedTo(stream, original, i, k + 1)
  {
    stream.tokens := stream.tokens[k := stream.tokens[k].(ignore := true)];
  }

  // ---------------------------------------------------------------- macros

  method FindParameter(parameters: seq<Token>, lexeme: string) returns (n: nat)
    ensures n == ParameterNumber(parameters, lexeme)
  {
    n := 0;
    while n < |parameters|
      invariant n <= |parameters|
      invariant ParameterNumber(parameters, lexeme) == n + ParameterNumber(parameters[n..], lexeme)
    {
      if parameters[n].lexeme == lexeme {
        return;
      }
      n := n + 1;
    }
  }

  /** process_macro_parameter. */
  method ProcessMacroParameter(stream: TokenStream, parameters: seq<Token>, index: nat, ghost original: seq<Token>, ghost i: nat)
    returns (ok: bool, parameters': seq<Token>, next: nat)
    requires FlaggedTo(stream, original, i, index) && index < |original|
    modifies stream
    ensures ok <==> KindAt(original, index).Identifier? && ParameterNumber(parameters, original[index].lexeme) == |parameters|
    ensures ok ==> parameters' == parameters + [Flag(original[index])] && next == index + 1 < |original|
    ensures ok ==> FlaggedTo(stream, original, i, next)
  {
    var lookahead := stream.tokens[index];
    next, parameters' := index + 1, parameters;
    if !lookahead.kind.Identifier? {
      return false, parameters', next;
    }
    FlagNext(stream, index, original, i);
    var n := FindParameter(parameters, lookahead.lexeme);
    if n < |parameters| {
      return false, parameters', next;
    }
    return true, parameters + [stream.tokens[index]], next;
  }

  /** The parameter list of a macro, after its opening parenthesis. */
  method ProcessParameters(stream: TokenStream, index: nat, stack: LexStack, ghost original: seq<Token>, ghost i: nat,
                           ghost below: seq<Token>, ghost opening: Token)
    returns (ok: bool, parameters: seq<Token>, next: nat)
    requires FlaggedTo(stream, original, i, index) && index < |original|
    requires stack.tokens == below + [opening] && opening.kind.LeftParen?
    modifies stream, stack
    ensures ok <==> ParseParameters(original, index, []).ParameterList?
    ensures ok ==> ParseParameters(original, index, []) == ParameterList(parameters, next)
    ensures ok ==> next < |original| && FlaggedTo(stream, original, i, next)
    ensures ok ==> stack.tokens == below
  {
    parameters, next := [], index;
    while true
      invariant FlaggedTo(stream, original, i, next) && next < |original| && stack.tokens == old(stack.tokens)
      invariant ParseParameters(original, index, []) == ParseParameters(original, next, parameters)
      decreases |original| - next
    {
      ghost var before := parameters;
      ok, parameters, next := ProcessMacroParameter(stream, parameters, next, original, i);
      if !ok {
        return;
      }
      var lookahead := stream.tokens[next];
      assert lookahead == original[next];
      FlagNext(stream, next, original, i);
      next := next + 1;
      if lookahead.kind.RightParen? {
        var popped := stack.Pop();
        LastTokens(below, opening, stack.tokens, popped);
        ok := popped.kind.LeftParen?;
        return;
      }
      if !lookahead.kind.Comma? {
        ok := false;
        return;
      }
    }
  }

  /** Inside a body: flagged from i to k, and marked from b to k. */
  ghost predicate MarkedTo(stream: TokenStream, original: seq<Token>, parameters: seq<Token>, i: nat, b: nat, k: nat)
    reads stream
  {
    && IsStream(original) && i <= b <= k <= |original|
    && stream.tokens == FlagRange(MarkRange(original, parameters, b, k), i, k)
  }

  /** One token of the body: flagged, and turned into a parameter token if it names one. */
  method MarkNext(stream: TokenStream, k: nat, parameters: seq<Token>, ghost original: seq<Token>, ghost i: nat, ghost b: nat)
    requires MarkedTo(stream, original, parameters, i, b, k) && k < |original|
    modifies stream
    ensures MarkedTo(stream, original, parameters, i, b, k + 1)
    ensures stream.tokens[k] == Mark(original[k], parameters)
  {
    stream.tokens := stream.tokens[k := stream.tokens[k].(ignore := true)];
    if stream.tokens[k].kind.Identifier? {
      var n := FindParameter(parameters, stream.tokens[k].lexeme);
      if n < |parameters| {
        stream.tokens := stream.tokens[k := stream.tokens[k].(kind := MacroParameter, parameterNumber := n)];
      }
    }
  }

  /** The loop through the body of a macro; next is behind the end of the macro. */
  method ProcessBody(stream: TokenStream, index: nat, name: string, parameters: seq<Token>, ghost original: seq<Token>, ghost i: nat)
    returns (ok: bool, macro: Macro, next: nat)
    requires FlaggedTo(stream, original, i, index) && index < |original| && i < index
    modifies stream
    ensures ok <==> FinishMacro(original, i, name, parameters, index).MacroDefinition?
    ensures ok ==> FinishMacro(original, i, name, parameters, index) == MacroDefinition(macro, stream.tokens, next)
  {
    next, macro := index, Macro(name, parameters, []);
    var body: seq<Token> := [];
    while true
      invariant MarkedTo(stream, original, parameters, i, index, next) && next < |original|
      invariant BodyEnd(original, index) == BodyEnd(original, next)
      invariant body == MarkRange(original, parameters, index, next)[index..next]
      decreases |original| - next
    {
      var lookahead := stream.tokens[next];
      assert lookahead == original[next];
      if lookahead.kind.MacroKeyword? || lookahead.kind.Done? {
        return false, macro, next + 1;
      }
      if lookahead.kind.EndMacro? {
        stream.tokens := stream.tokens[next := lookahead.(ignore := true)];
        macro := Macro(name, parameters, body);
        assert stream.tokens == FlagRange(MarkRange(original, parameters, index, next), i, next + 1);
        return body != [], macro, next + 1;
      }
      ghost var at := next;
      MarkNext(stream, next, parameters, original, i, index);
      body := body + [stream.tokens[next]];
      next := next + 1;
      BodyMore(original, parameters, index, at, body);
    }
  }

  lemma BodyMore(original: seq<Token>, parameters: seq<Token>, b: nat, k: nat, body: seq<Token>)
    requires b <= k < |original|
    requires body == MarkRange(original, parameters, b, k)[b..k] + [Mark(original[k], parameters)]
    ensures body == MarkRange(original, parameters, b, k + 1)[b..k + 1]
  {
  }

  /** The name and the parameters, at a macro keyword. */
  method ProcessHeader(stream: TokenStream, symtab: MacroSymtab, index: nat, stack: LexStack)
    returns (ok: bool, name: string, parameters: seq<Token>, next: nat)
    requires IsStream(stream.tokens) && index < |stream.tokens| && stream.tokens[index].kind.MacroKeyword?
    modifies stream, stack
    ensures ok <==> ParseHeader(old(stream.tokens), symtab.macros, index).MacroHeader?
    ensures ok ==> ParseHeader(old(stream.tokens), symtab.macros, index) == MacroHeader(name, parameters, next)
    ensures ok ==> FlaggedTo(stream, old(stream.tokens), index, next) && next < |old(stream.tokens)| && stack.tokens == old(stack.tokens)
  {
    ghost var original := stream.tokens;
    name, parameters, next := "", [], index;
    FlagNext(stream, next, original, index);
    next := next + 1;
    var lookahead := stream.tokens[next];
    assert lookahead == original[next];
    if !lookahead.kind.Identifier? || lookahead.lexeme in symtab.macros {
      return false, name, parameters, next + 1;
    }
    name := lookahead.lexeme;
    FlagNext(stream, next, original, index);
    next := next + 1;
    lookahead := stream.tokens[next];
    assert lookahead == original[next];
    ok := true;
    if lookahead.kind.LeftParen? {
      FlagNext(stream, next, original, index);
      stack.Push(lookahead);
      ok, parameters, next := ProcessParameters(stream, next + 1, stack, original, index, old(stack.tokens), lookahead);
    }
  }

  /** The table has gained the macro that the tokens from index up to next define, under the name
      that stands behind the keyword. */
  ghost predicate MacroRecorded(tokens: seq<Token>, index: nat, next: nat, macros: MacroTable, macros': MacroTable) {
    && index + 1 < |tokens|
    && var name := tokens[index + 1].lexeme;
       && name !in macros && macros'.Keys == macros.Keys + {name} && macros'[name].name == name
       && (forall other {:trigger macros'[other]} :: other in macros ==> macros'[other] == macros[other])
       && Defines(tokens, index, next, macros'[name])
  }

  /** process_macro, at a macro keyword. */
  method ProcessMacro(stream: TokenStream, symtab: MacroSymtab, index: nat, stack: LexStack) returns (ok: bool, next: nat)
    requires IsStream(stream.tokens) && index < |stream.tokens| && stream.tokens[index].kind.MacroKeyword?
    modifies stream, symtab, stack
    ensures ok <==> ParseMacro(old(stream.tokens), old(symtab.macros), index).MacroDefinition?
    ensures ok ==>
              var definition := ParseMacro(old(stream.tokens), old(symtab.macros), index);
              && stream.tokens == definition.tokens && next == definition.next && stack.tokens == old(stack.tokens)
              && symtab.macros == old(symtab.macros)[definition.macro.name := definition.macro]
    ensures ok ==> MacroRecorded(old(stream.tokens), index, next, old(symtab.macros), symtab.macros)
  {
    ghost var original := stream.tokens;
    if ParseMacro(original, symtab.macros, index).MacroDefinition? {
      ParsedDefines(original, symtab.macros, index);
    }
    var name, parameters;
    ok, name, parameters, next := ProcessHeader(stream, symtab, index, stack);
    if !ok {
      return;
    }
    var macro;
    ok, macro, next := ProcessBody(stream, next, name, parameters, original, index);
    if ok {
      symtab.macros := symtab.macros[macro.name := macro];
    }
  }

  // ----------------------------------------------------- other directives

  /** Requiring a token of this kind next, and flagging it. */
  method Expect(stream: TokenStream, k: nat, kind: TokenKind, ghost original: seq<Token>, ghost i: nat) returns (ok: bool, next: nat)
    requires FlaggedTo(stream, original, i, k) && k < |original| && !kind.Done?
    modifies stream
    ensures next == k + 1
    ensures ok <==> original[k].kind == kind
    ensures ok ==> FlaggedTo(stream, original, i, next) && next < |original|
  {
    ok, next := stream.tokens[k].kind == kind, k + 1;
    if ok {
      FlagNext(stream, k, original, i);
    }
  }

  /** validate_and_skip_ounit_directive. */
  method SkipOunitDirective(stream: TokenStream, index: nat) returns (ok: bool, next: nat)
    requires IsStream(stream.tokens) && index < |stream.tokens| && stream.tokens[index].kind.Ounit?
    modifies stream
    ensures ok <==> OunitEnd(old(stream.tokens), index).Some?
    ensures ok ==> next == OunitEnd(old(stream.tokens), index).value && stream.tokens == FlagRange(old(stream.tokens), index, next)
  {
    ghost var original := stream.tokens;
    ok, next := SkipOunitOpening(stream, index);
    if !ok {
      return;
    }
    ok, next := SkipOunitWords(stream, next, original, index);
    if !ok {
      return;
    }
    ok, next := Expect(stream, next, RightBracket, original, index);
  }

  /** The keyword, the colon and the opening bracket. */
  method SkipOunitOpening(stream: TokenStream, index: nat) returns (ok: bool, next: nat)
    requires IsStream(stream.tokens) && index < |stream.tokens| && stream.tokens[index].kind.Ounit?
    modifies stream
    ensures ok <==> KindAt(old(stream.tokens), index + 1).Colon? && KindAt(old(stream.tokens), index + 2).LeftBracket?
    ensures ok ==> next == index + 3 < |old(stream.tokens)| && FlaggedTo(stream, old(stream.tokens), index, next)
  {
    ghost var original := stream.tokens;
    ok, next := Expect(stream, index, Ounit, original, index);
    ok, next := Expect(stream, next, Colon, original, index);
    if !ok {
      return;
    }
    ok, next := Expect(stream, next, LeftBracket, original, index);
  }

  /** What stands in the brackets. */
  method SkipOunitWords(stream: TokenStream, index: nat, ghost original: seq<Token>, ghost i: nat) returns (ok: bool, next: nat)
    requires FlaggedTo(stream, original, i, index) && index < |original|
    modifies stream
    ensures ok <==> KindAt(original, index).FailToCompile? ||
                    (KindAt(original, index).ExitStatus? && KindAt(original, index + 1).Equals? && IsConstant(KindAt(original, index + 2)))
    ensures ok ==> next == index + if original[index].kind.ExitStatus? then 3 else 1
    ensures ok ==> FlaggedTo(stream, original, i, next) && next < |original|
  {
    next := index;
    if stream.tokens[index].kind.ExitStatus? {
      FlagNext(stream, index, original, i);
      ok, next := Expect(stream, index + 1, Equals, original, i);
      if !ok {
        return;
      }
      if !IsConstant(stream.tokens[next].kind) {
        return false, next;
      }
      FlagNext(stream, next, original, i);
      return true, next + 1;
    }
    ok, next := Expect(stream, index, FailToCompile, original, i);
  }

  /** validate_and_skip_import_directive and validate_and_skip_module_directive, which differ in
      the kinds of their first two tokens only. */
  method SkipNamedDirective(stream: TokenStream, index: nat, kind: TokenKind) returns (ok: bool, next: nat)
    requires IsStream(stream.tokens) && index < |stream.tokens| && !stream.tokens[index].kind.Done? && !kind.Done?
    modifies stream
    ensures ok <==> KindAt(old(stream.tokens), index + 1) == kind && KindAt(old(stream.tokens), index + 2).Semicolon?
    ensures ok ==> next == index + 3 <= |old(stream.tokens)| && stream.tokens == FlagRange(old(stream.tokens), index, next)
  {
    ghost var original := stream.tokens;
    FlagNext(stream, index, original, index);
    ok, next := Expect(stream, index + 1, kind, original, index);
    if !ok {
      return;
    }
    ok, next := Expect(stream, next, Semicolon, original, index);
  }

  // ------------------------------------------------------------- the pass

  /** What is left to do after one iteration that succeeded, and nothing after one that failed. */
  ghost predicate StepTo(before: Consumption, ok: bool, after: Consumption) {
    before == if ok then after else Rejected
  }

  /** The iteration at a macro keyword. */
  method ConsumeMacro(stream: TokenStream, symtab: MacroSymtab, index: nat, ghost top: bool, stack: LexStack,
                      ghost numMacros: nat, ghost numOunits: nat, ghost more: nat)
    returns (ok: bool, next: nat)
    requires IsStream(stream.tokens) && index < |stream.tokens| && stream.tokens[index].kind.MacroKeyword?
    requires more == numMacros + 1
    modifies stream, symtab, stack
    ensures StepTo(Consume(old(stream.tokens), old(symtab.macros), index, top, numMacros, numOunits), ok,
                   Consume(stream.tokens, symtab.macros, next, false, more, numOunits))
    ensures ok ==> |stream.tokens| == |old(stream.tokens)| && next > index
    ensures ok ==> IsStream(stream.tokens) && stack.tokens == old(stack.tokens)
  {
    ghost var definition := ParseMacro(stream.tokens, symtab.macros, index);
    ParsedIsStream(stream.tokens, symtab.macros, index);
    ConsumeAtMacro(stream.tokens, symtab.macros, index, top, numMacros, numOunits, more, definition);
    ok, next := ProcessMacro(stream, symtab, index, stack);
  }

  lemma ConsumeAtMacro(tokens: seq<Token>, macros: MacroTable, i: nat, top: bool, numMacros: nat, numOunits: nat, more: nat,
                       definition: MacroDefinition)
    requires i < |tokens| && tokens[i].kind.MacroKeyword? && more == numMacros + 1
    requires definition == ParseMacro(tokens, macros, i)
    ensures Consume(tokens, macros, i, top, numMacros, numOunits) ==
              if definition.BadMacro? then Rejected
              else Consume(definition.tokens, macros[definition.macro.name := definition.macro], definition.next, false, more, numOunits)
  {
  }

  /** The iteration at a unit test directive. */
  method ConsumeOunit(stream: TokenStream, symtab: MacroSymtab, index: nat, ghost top: bool, ghost numMacros: nat,
                      ghost numOunits: nat, ghost more: nat)
    returns (ok: bool, next: nat)
    requires IsStream(stream.tokens) && index < |stream.tokens| && stream.tokens[index].kind.Ounit? && more == numOunits + 1
    modifies stream
    ensures StepTo(Consume(old(stream.tokens), symtab.macros, index, top, numMacros, numOunits), ok,
                   Consume(stream.tokens, symtab.macros, next, false, numMacros, more))
    ensures ok ==> |stream.tokens| == |old(stream.tokens)| && next > index && IsStream(stream.tokens)
  {
    ok, next := SkipOunitDirective(stream, index);
  }

  /** The iteration at an import or module directive that is allowed there. */
  method ConsumeNamed(stream: TokenStream, symtab: MacroSymtab, index: nat, kind: TokenKind, ghost top: bool,
                      ghost numMacros: nat, ghost numOunits: nat, ghost more: nat)
    returns (ok: bool, next: nat)
    requires IsStream(stream.tokens) && index < |stream.tokens| && more == numMacros + 1
    requires (stream.tokens[index].kind.ImportKeyword? && kind.StringConstant? && top)
             || (stream.tokens[index].kind.ModuleKeyword? && kind.Identifier? && index == 0)
    modifies stream
    ensures StepTo(Consume(old(stream.tokens), symtab.macros, index, top, numMacros, numOunits), ok,
                   Consume(stream.tokens, symtab.macros, next, top, more, numOunits))
    ensures ok ==> |stream.tokens| == |old(stream.tokens)| && next > index && IsStream(stream.tokens)
  {
    ok, next := SkipNamedDirective(stream, index, kind);
  }

  /** The iteration at any other token. */
  method ConsumeOther(stream: TokenStream, symtab: MacroSymtab, index: nat, top: bool, numMacros: nat, numOunits: nat)
    returns (ok: bool, next: nat, top': bool, macroCount: nat, ounitCount: nat)
    requires IsStream(stream.tokens) && index < |stream.tokens| && !stream.tokens[index].kind.MacroKeyword?
    modifies stream
    ensures StepTo(Consume(old(stream.tokens), symtab.macros, index, top, numMacros, numOunits), ok,
                   Consume(stream.tokens, symtab.macros, next, top', macroCount, ounitCount))
    ensures ok ==> |stream.tokens| == |old(stream.tokens)| && next > index && IsStream(stream.tokens)
  {
    var kind := stream.tokens[index].kind;
    ok, next, top', macroCount, ounitCount := false, index, top, numMacros, numOunits;
    if kind.EndMacro? {
      return;
    } else if kind.Ounit? {
      top', ounitCount := false, numOunits + 1;
      ok, next := ConsumeOunit(stream, symtab, index, top, numMacros, numOunits, ounitCount);
    } else if kind.ImportKeyword? {
      if top {
        macroCount := numMacros + 1;
        ok, next := ConsumeNamed(stream, symtab, index, StringConstant, top, numMacros, numOunits, macroCount);
      }
    } else if kind.ModuleKeyword? {
      if index == 0 {
        macroCount := numMacros + 1;
        ok, next := ConsumeNamed(stream, symtab, index, Identifier, top, numMacros, numOunits, macroCount);
      }
    } else {
      ok, next, top' := true, index + 1, false;
    }
  }

  /** What the pass has done to a stream and a table, in terms of the stream's text. */
  ghost predicate RecordedFrom(tokens: seq<Token>, macros: MacroTable, numMacros: nat, numOunits: nat,
                           tokens': seq<Token>, macros': MacroTable, macroCount: nat, ounitCount: nat) {
    && NamesRecorded(tokens, macros, macros')
    && exists cuts {:trigger WellFormed(tokens, cuts, macros)} ::
         && WellFormed(tokens, cuts, macros) && Consumes(tokens, cuts, macros, tokens', macros')
         && macroCount == numMacros + MacrosIn(tokens, cuts) && ounitCount == numOunits + OunitsIn(tokens, cuts)
  }

  lemma ConsumedIsRecorded(tokens: seq<Token>, macros: MacroTable, numMacros: nat, numOunits: nat)
    ensures var r := Consume(tokens, macros, 0, true, numMacros, numOunits);
            && (r.Consumed? <==> Acceptable(tokens, macros))
            && (r.Consumed? ==> RecordedFrom(tokens, macros, numMacros, numOunits, r.tokens, r.macros, r.macroCount, r.ounitCount))
  {
    var r := Consume(tokens, macros, 0, true, numMacros, numOunits);
    ConsumptionMeaning(tokens, macros, numMacros, numOunits);
    if r.Consumed? {
      var cuts :| WellFormed(tokens, cuts, macros) && Consumes(tokens, cuts, macros, r.tokens, r.macros)
        && r.macroCount == numMacros + MacrosIn(tokens, cuts) && r.ounitCount == numOunits + OunitsIn(tokens, cuts);
      NamesAreRecorded(tokens, cuts, macros, r.tokens, r.macros);
    }
  }

  /** macro_consumption_pass: it accepts exactly the streams whose directives are well formed and
      define only new macros, records those macros, flags the directives and counts them, and the
      parenthesis stack ends as it began. */
  method MacroConsumptionPass(stream: TokenStream, symtab: MacroSymtab, stack: LexStack, numMacros: nat, numOunits: nat)
    returns (ok: bool, macroCount: nat, ounitCount: nat)
    requires IsStream(stream.tokens)
    modifies stream, symtab, stack
    ensures ok <==> Acceptable(old(stream.tokens), old(symtab.macros))
    ensures ok ==> RecordedFrom(old(stream.tokens), old(symtab.macros), numMacros, numOunits,
                            stream.tokens, symtab.macros, macroCount, ounitCount)
    ensures ok <==> Consume(old(stream.tokens), old(symtab.macros), 0, true, numMacros, numOunits).Consumed?
    ensures ok ==> Consume(old(stream.tokens), old(symtab.macros), 0, true, numMacros, numOunits)
                   == Consumed(stream.tokens, symtab.macros, macroCount, ounitCount)
    ensures ok ==> stack.tokens == old(stack.tokens) && IsStream(stream.tokens)
  {
    ConsumedIsRecorded(stream.tokens, symtab.macros, numMacros, numOunits);
    ok, macroCount, ounitCount := ConsumeDirectives(stream, symtab, stack, numMacros, numOunits);
  }

  /** The loop of the pass: the whole stream is consumed as the grammar says. */
  method ConsumeDirectives(stream: TokenStream, symtab: MacroSymtab, stack: LexStack, numMacros: nat, numOunits: nat)
    returns (ok: bool, macroCount: nat, ounitCount: nat)
    requires IsStream(stream.tokens)
    modifies stream, symtab, stack
    ensures ok <==> Consume(old(stream.tokens), old(symtab.macros), 0, true, numMacros, numOunits).Consumed?
    ensures ok ==> Consume(old(stream.tokens), old(symtab.macros), 0, true, numMacros, numOunits)
                   == Consumed(stream.tokens, symtab.macros, macroCount, ounitCount)
    ensures ok ==> stack.tokens == old(stack.tokens) && IsStream(stream.tokens)
  {
    macroCount, ounitCount := numMacros, numOunits;
    ghost var whole := Consume(stream.tokens, symtab.macros, 0, true, macroCount, ounitCount);
    var index: nat := 0;
    var top := true;
    ok := true;
    while ok && index < |stream.tokens|
      invariant ok ==> IsStream(stream.tokens) && stack.tokens == old(stack.tokens)
      invariant StepTo(whole, ok, Consume(stream.tokens, symtab.macros, index, top, macroCount, ounitCount))
      decreases ok, |stream.tokens| - index
    {
      if stream.tokens[index].kind.MacroKeyword? {
        ghost var before, more := macroCount, macroCount + 1;
        ok, index := ConsumeMacro(stream, symtab, index, top, stack, before, ounitCount, more);
        top, macroCount := false, macroCount + 1;
      } else {
        ok, index, top, macroCount, ounitCount := ConsumeOther(stream, symtab, index, top, macroCount, ounitCount);
      }
    }
  }

  lemma ParsedIsStream(tokens: seq<Token>, macros: MacroTable, i: nat)
    requires IsStream(tokens) && i < |tokens|
    ensures ParseMacro(tokens, macros, i).MacroDefinition? ==> IsStream(ParseMacro(tokens, macros, i).tokens)
  {
  }
}
