/** What consuming a stream leaves: every recorded macro is good, and tokens are only flagged. */
module ConsumedStreams {
  import opened MacroExpansion
  import opened MacroMeaning
  import opened DirectiveGrammar

  // ------------------------------------------------------- recorded macros

  /** No token from index i on is a parameter token yet: the lexer makes none. */
  ghost predicate NoParameterTokens(tokens: seq<Token>, i: nat) {
    forall k {:trigger tokens[k]} :: i <= k < |tokens| ==> !tokens[k].kind.MacroParameter?
  }

  lemma {:induction false} ParametersDistinct(tokens: seq<Token>, i: nat, before: seq<Token>)
    requires DistinctLexemes(before) && ParseParameters(tokens, i, before).ParameterList?
    ensures DistinctLexemes(ParseParameters(tokens, i, before).parameters)
    decreases |tokens| - i
  {
    if !KindAt(tokens, i + 1).Comma? {
    } else {
      ParametersDistinct(tokens, i + 2, before + [Flag(tokens[i])]);
    }
  }

  lemma ParsedRecorded(tokens: seq<Token>, macros: MacroTable, i: nat)
    requires NoParameterTokens(tokens, i) && ParseMacro(tokens, macros, i).MacroDefinition?
    ensures Recorded(ParseMacro(tokens, macros, i).macro)
  {
    var header := ParseHeader(tokens, macros, i);
    if KindAt(tokens, i + 2).LeftParen? {
      ParametersDistinct(tokens, i + 3, []);
    }
    var macro, b := ParseMacro(tokens, macros, i).macro, header.next;
    forall k | 0 <= k < |macro.tokens|
      ensures BodyToken(macro.parameters, macro.tokens[k])
    {
      assert macro.tokens[k] == Mark(tokens[b + k], header.parameters);
    }
  }

  /** Every macro recorded by the consumption pass is good. */
  lemma {:induction false} ConsumedRecorded(tokens: seq<Token>, macros: MacroTable, i: nat, top: bool, macroCount: nat, ounitCount: nat)
    requires AllRecorded(macros) && NoParameterTokens(tokens, i)
    requires Consume(tokens, macros, i, top, macroCount, ounitCount).Consumed?
    ensures AllRecorded(Consume(tokens, macros, i, top, macroCount, ounitCount).macros)
    decreases |tokens| - i
  {
    if i >= |tokens| {
    } else {
      var kind := tokens[i].kind;
      if kind.MacroKeyword? {
        ParsedRecorded(tokens, macros, i);
        var d := ParseMacro(tokens, macros, i);
        ConsumedRecorded(d.tokens, macros[d.macro.name := d.macro], d.next, false, macroCount + 1, ounitCount);
      } else if kind.Ounit? {
        var end := OunitEnd(tokens, i).value;
        ConsumedRecorded(FlagRange(tokens, i, end), macros, end, false, macroCount, ounitCount + 1);
      } else if kind.ImportKeyword? || kind.ModuleKeyword? {
        ConsumedRecorded(FlagRange(tokens, i, i + 3), macros, i + 3, top, macroCount + 1, ounitCount);
      } else {
        ConsumedRecorded(tokens, macros, i + 1, false, macroCount, ounitCount);
      }
    }
  }

  // ------------------------------------------------ what consuming changes

  predicate IsDirective(kind: TokenKind) {
    kind.MacroKeyword? || kind.EndMacro? || kind.Ounit? || kind.ImportKeyword? || kind.ModuleKeyword?
  }

  /** The new token is the old one unless it has been flagged, and then it was no Done. */
  ghost predicate KeptOrFlagged(before: Token, after: Token) {
    after == before || (after.ignore && !before.kind.Done? && !after.kind.Done? && after.lexeme == before.lexeme)
  }

  ghost predicate KeptTokens(before: seq<Token>, after: seq<Token>, i: nat) {
    && |after| == |before|
    && (forall k {:trigger before[k]} {:trigger after[k]} :: 0 <= k < |before| ==> KeptOrFlagged(before[k], after[k]))
    && (forall k {:trigger after[k]} :: 0 <= k < i && k < |before| ==> after[k] == before[k])
  }

  ghost predicate NoDone(tokens: seq<Token>, i: nat, end: nat) {
    forall k {:trigger tokens[k]} :: i <= k < end && k < |tokens| ==> !tokens[k].kind.Done?
  }

  lemma {:induction false} ParametersNoDone(tokens: seq<Token>, i: nat, before: seq<Token>)
    requires ParseParameters(tokens, i, before).ParameterList?
    ensures NoDone(tokens, i, ParseParameters(tokens, i, before).next)
    decreases |tokens| - i
  {
    if !KindAt(tokens, i + 1).Comma? {
    } else {
      ParametersNoDone(tokens, i + 2, before + [Flag(tokens[i])]);
    }
  }

  lemma FinishedKept(tokens: seq<Token>, i: nat, name: string, parameters: seq<Token>, b: nat)
    requires i < b && NoDone(tokens, i, b) && FinishMacro(tokens, i, name, parameters, b).MacroDefinition?
    ensures var d := FinishMacro(tokens, i, name, parameters, b); KeptTokens(tokens, d.tokens, i) && FlaggedFrom(d.tokens, i, d.next)
  {
  }

  ghost predicate FlaggedFrom(tokens: seq<Token>, i: nat, end: nat) {
    forall k {:trigger tokens[k]} :: i <= k < end && k < |tokens| ==> tokens[k].ignore
  }

  /** What consuming from index i on may do. */
  ghost predicate ConsumedFrom(tokens: seq<Token>, macros: MacroTable, i: nat, macroCount: nat, ounitCount: nat, r: Consumption) {
    && r.Consumed? && KeptTokens(tokens, r.tokens, i)
    && (forall k {:trigger r.tokens[k]} :: i <= k < |r.tokens| && !r.tokens[k].ignore ==> !IsDirective(r.tokens[k].kind))
    && r.macroCount >= macroCount && r.ounitCount >= ounitCount
    && (r.macroCount == macroCount && r.ounitCount == ounitCount ==> r.tokens == tokens && r.macros == macros)
  }

  /** Going on behind a directive that has been flagged and counted. */
  lemma ConsumedBehind(tokens: seq<Token>, macros: MacroTable, i: nat, flagged: seq<Token>, macros': MacroTable, next: nat,
                       macroCount: nat, ounitCount: nat, macroCount': nat, ounitCount': nat, r: Consumption)
    requires i < next <= |tokens| && KeptTokens(tokens, flagged, i) && FlaggedFrom(flagged, i, next)
    requires macroCount' >= macroCount && ounitCount' >= ounitCount && macroCount' + ounitCount' > macroCount + ounitCount
    requires ConsumedFrom(flagged, macros', next, macroCount', ounitCount', r)
    ensures ConsumedFrom(tokens, macros, i, macroCount, ounitCount, r)
  {
  }

  lemma {:induction false} ConsumedMacro(tokens: seq<Token>, macros: MacroTable, i: nat, top: bool, macroCount: nat, ounitCount: nat)
    requires i < |tokens| && tokens[i].kind.MacroKeyword? && Consume(tokens, macros, i, top, macroCount, ounitCount).Consumed?
    ensures ConsumedFrom(tokens, macros, i, macroCount, ounitCount, Consume(tokens, macros, i, top, macroCount, ounitCount))
    decreases |tokens| - i, 0
  {
    var header, d := ParseHeader(tokens, macros, i), ParseMacro(tokens, macros, i);
    if KindAt(tokens, i + 2).LeftParen? {
      ParametersNoDone(tokens, i + 3, []);
    }
    FinishedKept(tokens, i, header.name, header.parameters, header.next);
    var macros' := macros[d.macro.name := d.macro];
    ConsumedTokens(d.tokens, macros', d.next, false, macroCount + 1, ounitCount);
    ConsumedBehind(tokens, macros, i, d.tokens, macros', d.next, macroCount, ounitCount, macroCount + 1, ounitCount,
                   Consume(tokens, macros, i, top, macroCount, ounitCount));
  }

  lemma {:induction false} ConsumedFlagged(tokens: seq<Token>, macros: MacroTable, i: nat, end: nat, top: bool,
                                           macroCount: nat, ounitCount: nat, macroCount': nat, ounitCount': nat)
    requires i < end <= |tokens| && NoDone(tokens, i, end)
    requires macroCount' >= macroCount && ounitCount' >= ounitCount && macroCount' + ounitCount' > macroCount + ounitCount
    requires Consume(FlagRange(tokens, i, end), macros, end, top, macroCount', ounitCount').Consumed?
    ensures ConsumedFrom(tokens, macros, i, macroCount, ounitCount,
                         Consume(FlagRange(tokens, i, end), macros, end, top, macroCount', ounitCount'))
    decreases |tokens| - i, 0
  {
    var flagged := FlagRange(tokens, i, end);
    ConsumedTokens(flagged, macros, end, top, macroCount', ounitCount');
    ConsumedBehind(tokens, macros, i, flagged, macros, end, macroCount, ounitCount, macroCount', ounitCount',
                   Consume(flagged, macros, end, top, macroCount', ounitCount'));
  }

  lemma {:induction false} ConsumedOther(tokens: seq<Token>, macros: MacroTable, i: nat, top: bool, macroCount: nat, ounitCount: nat)
    requires i < |tokens| && (tokens[i].kind.Ounit? || tokens[i].kind.ImportKeyword? || tokens[i].kind.ModuleKeyword?)
    requires Consume(tokens, macros, i, top, macroCount, ounitCount).Consumed?
    ensures ConsumedFrom(tokens, macros, i, macroCount, ounitCount, Consume(tokens, macros, i, top, macroCount, ounitCount))
    decreases |tokens| - i, 1
  {
    if tokens[i].kind.Ounit? {
      ConsumedFlagged(tokens, macros, i, OunitEnd(tokens, i).value, false, macroCount, ounitCount, macroCount, ounitCount + 1);
    } else {
      ConsumedFlagged(tokens, macros, i, i + 3, top, macroCount, ounitCount, macroCount + 1, ounitCount);
    }
  }

  /** Consuming flags tokens and changes no other; every directive from i on ends up flagged, no
      Done does; and if nothing was counted, nothing has changed at all. */
  lemma {:induction false} ConsumedTokens(tokens: seq<Token>, macros: MacroTable, i: nat, top: bool, macroCount: nat, ounitCount: nat)
    requires i <= |tokens| && Consume(tokens, macros, i, top, macroCount, ounitCount).Consumed?
    ensures ConsumedFrom(tokens, macros, i, macroCount, ounitCount, Consume(tokens, macros, i, top, macroCount, ounitCount))
    decreases |tokens| - i, 2
  {
    if i >= |tokens| {
    } else {
      var kind := tokens[i].kind;
      if kind.MacroKeyword? {
        ConsumedMacro(tokens, macros, i, top, macroCount, ounitCount);
      } else if kind.Ounit? || kind.ImportKeyword? || kind.ModuleKeyword? {
        ConsumedOther(tokens, macros, i, top, macroCount, ounitCount);
      } else {
        ConsumedTokens(tokens, macros, i + 1, false, macroCount, ounitCount);
      }
    }
  }
}
