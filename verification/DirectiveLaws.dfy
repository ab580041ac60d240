/** The parsing functions find exactly the directives of a stream's text. */
module DirectiveLaws {
  import opened Wrappers
  import opened MacroExpansion
  import opened DirectiveGrammar
  import opened DirectiveMeaning
  import opened ConsumedStreams

  /** From index i on the stream is the original one. */
  ghost predicate Same(original: seq<Token>, tokens: seq<Token>, i: nat) {
    && i <= |tokens| == |original|
    && forall k {:trigger tokens[k]} {:trigger original[k]} :: i <= k < |tokens| ==> tokens[k] == original[k]
  }

  // ------------------------------------------------------------- parameters

  /** The parameters from number |before| on are those of the text that starts at base. */
  lemma {:induction false} ParametersHave(tokens: seq<Token>, base: nat, i: nat, before: seq<Token>)
    requires i == base + 2 * |before| && ParseParameters(tokens, i, before).ParameterList?
    requires forall p, q {:trigger before[p], before[q]} :: 0 <= p < q < |before| ==> before[p].lexeme != before[q].lexeme
    ensures var list := ParseParameters(tokens, i, before);
            && before <= list.parameters && |list.parameters| > |before| && list.next == base + 2 * |list.parameters|
            && (forall p, q {:trigger list.parameters[p], list.parameters[q]} ::
                  0 <= p < q < |list.parameters| ==> list.parameters[p].lexeme != list.parameters[q].lexeme)
            && forall p {:trigger ParameterAt(tokens, base, list.parameters, p)} ::
                 |before| <= p < |list.parameters| ==> ParameterAt(tokens, base, list.parameters, p)
    decreases |tokens| - i
  {
    var more := before + [Flag(tokens[i])];
    var list := ParseParameters(tokens, i, before);
    if !KindAt(tokens, i + 1).Comma? {
      assert list.parameters == more;
    } else {
      ParametersHave(tokens, base, i + 2, more);
      assert more <= list.parameters;
      assert list.parameters[|before|] == more[|before|];
      assert ParameterAt(tokens, base, list.parameters, |before|);
    }
  }

  /** Parameters that stand there are parsed. */
  lemma {:induction false} ParametersOnly(tokens: seq<Token>, base: nat, i: nat, before: seq<Token>, parameters: seq<Token>)
    requires i == base + 2 * |before| && |before| < |parameters| && ParameterText(tokens, base, parameters)
    requires forall p {:trigger before[p]} :: 0 <= p < |before| ==> before[p].lexeme == parameters[p].lexeme
    ensures var list := ParseParameters(tokens, i, before);
            && list.ParameterList? && list.next == base + 2 * |parameters| && |list.parameters| == |parameters|
            && forall p {:trigger list.parameters[p]} :: 0 <= p < |parameters| ==> list.parameters[p].lexeme == parameters[p].lexeme
    decreases |tokens| - i
  {
    var p := |before|;
    assert ParameterAt(tokens, base, parameters, p);
    var more := before + [Flag(tokens[i])];
    if p == |parameters| - 1 {
    } else {
      ParametersOnly(tokens, base, i + 2, more, parameters);
    }
  }

  // ----------------------------------------------------------------- bodies

  lemma BodyHas(tokens: seq<Token>, i: nat, name: string, parameters: seq<Token>, h: nat)
    requires i < h && FinishMacro(tokens, i, name, parameters, h).MacroDefinition?
    ensures var d := FinishMacro(tokens, i, name, parameters, h);
            && d.macro.name == name && d.macro.parameters == parameters
            && BodyText(tokens, h, d.next, parameters, d.macro.tokens)
  {
    var d := FinishMacro(tokens, i, name, parameters, h);
    forall j | 0 <= j < |d.macro.tokens|
      ensures BodyTokenOf(parameters, tokens[h + j], d.macro.tokens[j])
    {
      assert d.macro.tokens[j] == Mark(tokens[h + j], parameters);
    }
  }

  lemma {:induction false} BodyEndIs(tokens: seq<Token>, k: nat, end: nat)
    requires k <= end && At(tokens, end, EndMacro)
    requires forall m {:trigger tokens[m]} :: k <= m < end ==>
               tokens[m].kind != MacroKeyword && tokens[m].kind != EndMacro && tokens[m].kind != Done
    ensures BodyEnd(tokens, k) == end
    decreases end - k
  {
    if k == end {
    } else {
      BodyEndIs(tokens, k + 1, end);
    }
  }

  lemma BodyOnly(tokens: seq<Token>, i: nat, name: string, parameters: seq<Token>, h: nat, b: nat, parameters': seq<Token>, body: seq<Token>)
    requires i < h && BodyText(tokens, h, b, parameters', body)
    ensures var d := FinishMacro(tokens, i, name, parameters, h); d.MacroDefinition? && d.next == b && d.macro.name == name
  {
    forall m | h <= m < h + |body|
      ensures tokens[m].kind != MacroKeyword && tokens[m].kind != EndMacro && tokens[m].kind != Done
    {
      assert BodyTokenOf(parameters', tokens[h + (m - h)], body[m - h]);
    }
    BodyEndIs(tokens, h, h + |body|);
  }

  // ------------------------------------------------------------ definitions

  /** A parsed definition stands there. */
  lemma ParsedDefines(tokens: seq<Token>, macros: MacroTable, i: nat)
    requires At(tokens, i, MacroKeyword) && ParseMacro(tokens, macros, i).MacroDefinition?
    ensures var d := ParseMacro(tokens, macros, i);
            Defines(tokens, i, d.next, d.macro) && d.macro.name !in macros && tokens[i + 1].lexeme == d.macro.name
  {
    var header := ParseHeader(tokens, macros, i);
    if KindAt(tokens, i + 2).LeftParen? {
      ParametersHave(tokens, i + 3, i + 3, []);
    }
    assert HeaderText(tokens, i, header.name, header.parameters, header.next);
    BodyHas(tokens, i, header.name, header.parameters, header.next);
  }

  /** A definition that stands there is parsed, unless its name is taken. */
  lemma DefinesParsed(tokens: seq<Token>, macros: MacroTable, i: nat, b: nat, macro: Macro)
    requires Defines(tokens, i, b, macro) && macro.name !in macros
    ensures var d := ParseMacro(tokens, macros, i); d.MacroDefinition? && d.next == b && d.macro.name == macro.name
  {
    var h: nat :| HeaderText(tokens, i, macro.name, macro.parameters, h) && BodyText(tokens, h, b, macro.parameters, macro.tokens);
    if macro.parameters != [] {
      ParametersOnly(tokens, i + 3, i + 3, [], macro.parameters);
    }
    var header := ParseHeader(tokens, macros, i);
    assert header.MacroHeader? && header.next == h && header.name == macro.name;
    BodyOnly(tokens, i, header.name, header.parameters, h, b, macro.parameters, macro.tokens);
  }

  lemma SameParameters(original: seq<Token>, tokens: seq<Token>, i: nat, base: nat, parameters: seq<Token>)
    requires Same(original, tokens, i) && i <= base && ParameterText(tokens, base, parameters)
    ensures ParameterText(original, base, parameters)
  {
    forall p | 0 <= p < |parameters|
      ensures ParameterAt(original, base, parameters, p)
    {
      assert ParameterAt(tokens, base, parameters, p);
    }
  }

  lemma SameDefines(original: seq<Token>, tokens: seq<Token>, i: nat, b: nat, macro: Macro)
    requires Same(original, tokens, i) && Defines(tokens, i, b, macro)
    ensures Defines(original, i, b, macro)
  {
    var h: nat :| HeaderText(tokens, i, macro.name, macro.parameters, h) && BodyText(tokens, h, b, macro.parameters, macro.tokens);
    if macro.parameters != [] {
      SameParameters(original, tokens, i, i + 3, macro.parameters);
    }
    assert HeaderText(original, i, macro.name, macro.parameters, h);
    forall j | 0 <= j < |macro.tokens|
      ensures BodyTokenOf(macro.parameters, original[h + j], macro.tokens[j])
    {
      assert BodyTokenOf(macro.parameters, tokens[h + j], macro.tokens[j]);
    }
  }

  // ------------------------------------------------------------------ items

  /** An item keeps its place behind one more, which must be an import or module directive unless
      imports are over. */
  lemma ItemShifted(tokens: seq<Token>, i: nat, cuts: seq<nat>, top: bool, top': bool, k: int, next: int)
    requires ItemAt(tokens, cuts, top', k) && next == k + 1 && i < |tokens|
    requires top' ==> top && ModuleOrImport(tokens[i].kind)
    ensures ItemAt(tokens, [i] + cuts, top, next)
  {
    var cuts' := [i] + cuts;
    assert cuts'[next] == cuts[k] && cuts'[next + 1] == cuts[k + 1];
    if tokens[cuts[k]].kind == ImportKeyword {
      forall j | 0 <= j < next && cuts'[j] < |tokens|
        ensures ModuleOrImport(tokens[cuts'[j]].kind)
      {
        if j > 0 {
          assert cuts'[j] == cuts[j - 1];
        }
      }
    }
  }

  /** One more item in front: nothing behind it may depend on what it is, unless it is an import or
      a module directive. */
  lemma ItemBefore(tokens: seq<Token>, i: nat, b: nat, cuts: seq<nat>, top: bool, top': bool)
    requires Items(tokens, b, cuts, top') && ItemText(tokens, i, b)
    requires tokens[i].kind == ModuleKeyword ==> i == 0
    requires tokens[i].kind == ImportKeyword ==> top
    requires top' ==> top && ModuleOrImport(tokens[i].kind)
    ensures Items(tokens, i, [i] + cuts, top)
  {
    var cuts' := [i] + cuts;
    assert ItemAt(tokens, cuts', top, 0) by {
      assert OnlyImports(tokens, cuts', 0);
    }
    forall k | 0 < k < |cuts'| - 1
      ensures ItemAt(tokens, cuts', top, k)
    {
      ItemShifted(tokens, i, cuts, top, top', k - 1, k);
    }
  }

  /** The items behind the first one. */
  lemma ItemsBehind(tokens: seq<Token>, i: nat, cuts: seq<nat>, top: bool)
    requires Items(tokens, i, cuts, top) && |cuts| > 1
    ensures ItemText(tokens, i, cuts[1])
    ensures tokens[i].kind == ModuleKeyword ==> i == 0
    ensures tokens[i].kind == ImportKeyword ==> top
    ensures Items(tokens, cuts[1], cuts[1..], top && ModuleOrImport(tokens[i].kind))
  {
    assert ItemAt(tokens, cuts, top, 0);
    var rest, top' := cuts[1..], top && ModuleOrImport(tokens[i].kind);
    forall k | 0 <= k < |rest| - 1
      ensures ItemAt(tokens, rest, top', k)
    {
      assert ItemAt(tokens, cuts, top, k + 1);
      assert rest[k] == cuts[k + 1] && rest[k + 1] == cuts[k + 2];
      if tokens[rest[k]].kind == ImportKeyword {
        assert cuts[0] == i;
        forall j | 0 <= j < k && rest[j] < |tokens|
          ensures ModuleOrImport(tokens[rest[j]].kind)
        {
          assert rest[j] == cuts[j + 1];
        }
      }
    }
  }

  lemma ItemsAscend(tokens: seq<Token>, i: nat, cuts: seq<nat>, top: bool, k: int)
    requires Items(tokens, i, cuts, top) && 0 <= k < |cuts|
    ensures i <= cuts[k] <= |tokens| && (k < |cuts| - 1 ==> cuts[k] < |tokens|) && (k > 0 ==> i < cuts[k])
    decreases |cuts|
  {
    if |cuts| == 1 {
    } else {
      ItemsBehind(tokens, i, cuts, top);
      if k > 0 {
        ItemsAscend(tokens, cuts[1], cuts[1..], top && ModuleOrImport(tokens[i].kind), k - 1);
      }
    }
  }

  // ---------------------------------------------------------------- results

  lemma NamesBefore(tokens: seq<Token>, i: nat, cuts: seq<nat>, k: int, name: string)
    requires |cuts| > 0
    ensures k > 0 ==> (NamedAt(tokens, [i] + cuts, k, name) <==> NamedAt(tokens, cuts, k - 1, name))
    ensures NamedAt(tokens, [i] + cuts, 0, name) <==> At(tokens, i, MacroKeyword) && i + 1 < |tokens| && tokens[i + 1].lexeme == name
  {
  }

  /** An item that is no macro definition, in front. */
  lemma OtherNamesBefore(tokens: seq<Token>, i: nat, cuts: seq<nat>, macros: MacroTable)
    requires |cuts| > 0 && !At(tokens, i, MacroKeyword) && NewNames(tokens, cuts, macros)
    ensures NewNames(tokens, [i] + cuts, macros)
  {
    forall k, name | NamedAt(tokens, [i] + cuts, k, name)
      ensures k > 0 && NamedAt(tokens, cuts, k - 1, name)
    {
      NamesBefore(tokens, i, cuts, k, name);
    }
  }

  lemma OtherBefore(tokens: seq<Token>, i: nat, cuts: seq<nat>, macros: MacroTable, macros': MacroTable)
    requires |cuts| > 0 && !At(tokens, i, MacroKeyword) && Table(tokens, cuts, macros, macros')
    ensures Table(tokens, [i] + cuts, macros, macros')
  {
    TableBefore(tokens, i, cuts, macros, macros');
    forall name | name in macros'
      ensures Comes(tokens, [i] + cuts, macros, name)
    {
      assert Comes(tokens, cuts, macros, name);
    }
  }

  /** The items behind the first one keep what they were. */
  lemma TableBefore(tokens: seq<Token>, i: nat, cuts: seq<nat>, macros: MacroTable, macros': MacroTable)
    requires |cuts| > 0 && Table(tokens, cuts, macros, macros')
    ensures forall k, name {:trigger NamedAt(tokens, [i] + cuts, k, name)} ::
              NamedAt(tokens, [i] + cuts, k, name) && k > 0 ==> TableHolds(tokens, [i] + cuts, macros', k, name)
    ensures forall k, name {:trigger NamedAt(tokens, cuts, k, name)} ::
              NamedAt(tokens, cuts, k, name) ==> NamedAt(tokens, [i] + cuts, k + 1, name)
    ensures forall name {:trigger NamedAt(tokens, [i] + cuts, 0, name)} :: NamedAt(tokens, [i] + cuts, 0, name) ==> At(tokens, i, MacroKeyword)
  {
    var cuts' := [i] + cuts;
    forall k, name | NamedAt(tokens, cuts', k, name) && k > 0
      ensures TableHolds(tokens, cuts', macros', k, name)
    {
      NamesBefore(tokens, i, cuts, k, name);
      assert TableHolds(tokens, cuts, macros', k - 1, name);
    }
    forall k, name | NamedAt(tokens, cuts, k, name)
      ensures NamedAt(tokens, cuts', k + 1, name)
    {
      NamesBefore(tokens, i, cuts, k + 1, name);
    }
  }

  /** A macro definition in front. */
  lemma MacroNamesBefore(tokens: seq<Token>, i: nat, cuts: seq<nat>, macro: Macro, macros: MacroTable)
    requires |cuts| > 0 && i + 1 < |tokens| && tokens[i + 1].lexeme == macro.name && macro.name !in macros
    requires NewNames(tokens, cuts, macros[macro.name := macro])
    ensures NewNames(tokens, [i] + cuts, macros)
  {
    var more := macros[macro.name := macro];
    forall k, name | NamedAt(tokens, [i] + cuts, k, name)
      ensures name !in macros && (if k == 0 then name == macro.name else NamedAt(tokens, cuts, k - 1, name) && name !in more)
    {
      NamesBefore(tokens, i, cuts, k, name);
    }
  }

  lemma MacroBefore(tokens: seq<Token>, i: nat, cuts: seq<nat>, macro: Macro, macros: MacroTable, macros': MacroTable)
    requires |cuts| > 0 && At(tokens, i, MacroKeyword) && Defines(tokens, i, cuts[0], macro) && macro.name !in macros
    requires Table(tokens, cuts, macros[macro.name := macro], macros')
    ensures Table(tokens, [i] + cuts, macros, macros')
  {
    var cuts', more := [i] + cuts, macros[macro.name := macro];
    assert i + 1 < |tokens| && tokens[i + 1].lexeme == macro.name && macro.name in more;
    assert NamedAt(tokens, cuts', 0, macro.name);
    TableBefore(tokens, i, cuts, more, macros');
    forall name | name in macros
      ensures name in macros' && macros'[name] == macros[name]
    {
      assert name in more && more[name] == macros[name];
    }
    forall name | name in macros'
      ensures Comes(tokens, cuts', macros, name)
    {
      assert Comes(tokens, cuts, more, name);
    }
    forall k, name | NamedAt(tokens, cuts', k, name)
      ensures TableHolds(tokens, cuts', macros', k, name)
    {
      if k == 0 {
        assert macros'[name] == more[name];
      }
    }
  }

  lemma FlaggedBefore(tokens: seq<Token>, i: nat, cuts: seq<nat>, tokens': seq<Token>)
    requires |cuts| > 0 && FlaggedItem(tokens, tokens', i, cuts[0]) && Flagged(tokens, cuts, tokens')
    ensures Flagged(tokens, [i] + cuts, tokens')
  {
    var cuts' := [i] + cuts;
    forall k | 0 <= k < |cuts'| - 1
      ensures FlaggedAt(tokens, cuts', tokens', k)
    {
      if k > 0 {
        assert FlaggedAt(tokens, cuts, tokens', k - 1);
      }
    }
  }

  /** Everything about what consuming from index i on gives. */
  ghost predicate Consuming(tokens: seq<Token>, i: nat, cuts: seq<nat>, top: bool, macros: MacroTable, macroCount: nat,
                            ounitCount: nat, r: Consumption) {
    && r.Consumed? && Items(tokens, i, cuts, top) && NewNames(tokens, cuts, macros)
    && Consumes(tokens, cuts, macros, r.tokens, r.macros)
    && r.macroCount == macroCount + MacrosIn(tokens, cuts) && r.ounitCount == ounitCount + OunitsIn(tokens, cuts)
  }

  lemma CountBefore(tokens: seq<Token>, i: nat, cuts: seq<nat>)
    requires |cuts| > 0 && i < |tokens|
    ensures MacrosIn(tokens, [i] + cuts) ==
              MacrosIn(tokens, cuts) + if tokens[i].kind == MacroKeyword || ModuleOrImport(tokens[i].kind) then 1 else 0
    ensures OunitsIn(tokens, [i] + cuts) == OunitsIn(tokens, cuts) + if tokens[i].kind == Ounit then 1 else 0
  {
    assert ([i] + cuts)[1..] == cuts;
  }

  // ------------------------------------------------ what is consumed is meant

  /** The item at i has been consumed, and the rest from b on gives r. */
  lemma ItemConsumed(tokens: seq<Token>, i: nat, b: nat, cuts: seq<nat>, top: bool, top': bool, macros: MacroTable,
                     macroCount: nat, ounitCount: nat, macroCount': nat, ounitCount': nat, r: Consumption)
    requires i < |tokens| && tokens[i].kind != MacroKeyword && ItemText(tokens, i, b)
    requires tokens[i].kind == ModuleKeyword ==> i == 0
    requires tokens[i].kind == ImportKeyword ==> top
    requires top' ==> top && ModuleOrImport(tokens[i].kind)
    requires macroCount' == macroCount + if ModuleOrImport(tokens[i].kind) then 1 else 0
    requires ounitCount' == ounitCount + if tokens[i].kind == Ounit then 1 else 0
    requires Consuming(tokens, b, cuts, top', macros, macroCount', ounitCount', r) && FlaggedItem(tokens, r.tokens, i, b)
    ensures Consuming(tokens, i, [i] + cuts, top, macros, macroCount, ounitCount, r)
  {
    ItemBefore(tokens, i, b, cuts, top, top');
    OtherNamesBefore(tokens, i, cuts, macros);
    OtherBefore(tokens, i, cuts, macros, r.macros);
    FlaggedBefore(tokens, i, cuts, r.tokens);
    CountBefore(tokens, i, cuts);
  }

  lemma MacroConsumed(tokens: seq<Token>, i: nat, b: nat, cuts: seq<nat>, top: bool, macro: Macro, macros: MacroTable,
                      macroCount: nat, ounitCount: nat, macroCount': nat, r: Consumption)
    requires At(tokens, i, MacroKeyword) && Defines(tokens, i, b, macro) && macro.name !in macros && i < b
    requires macroCount' == macroCount + 1
    requires Consuming(tokens, b, cuts, false, macros[macro.name := macro], macroCount', ounitCount, r)
    requires FlaggedItem(tokens, r.tokens, i, b)
    ensures Consuming(tokens, i, [i] + cuts, top, macros, macroCount, ounitCount, r)
  {
    ItemBefore(tokens, i, b, cuts, top, false);
    MacroNamesBefore(tokens, i, cuts, macro, macros);
    MacroBefore(tokens, i, cuts, macro, macros, r.macros);
    FlaggedBefore(tokens, i, cuts, r.tokens);
    CountBefore(tokens, i, cuts);
  }

  /** The tokens flagged before index b stay so. */
  lemma StaysFlagged(original: seq<Token>, tokens: seq<Token>, i: nat, b: nat, r: seq<Token>)
    requires i < b <= |tokens| == |original| && FlaggedFrom(tokens, i, b) && KeptTokens(tokens, r, b)
    requires original[i].kind in DIRECTIVES
    ensures FlaggedItem(original, r, i, b)
  {
  }

  lemma NothingLeft(tokens: seq<Token>, top: bool, macros: MacroTable, macroCount: nat, ounitCount: nat, tokens': seq<Token>)
    ensures Consuming(tokens, |tokens|, [|tokens|], top, macros, macroCount, ounitCount, Consumed(tokens', macros, macroCount, ounitCount))
  {
  }

  /** A successful consumption from index i on, on what is still the original stream there. */
  lemma {:induction false} ConsumeHas(original: seq<Token>, tokens: seq<Token>, macros: MacroTable, i: nat, top: bool,
                                      macroCount: nat, ounitCount: nat, r: Consumption)
    returns (cuts: seq<nat>)
    requires Same(original, tokens, i) && r == Consume(tokens, macros, i, top, macroCount, ounitCount) && r.Consumed?
    ensures Consuming(original, i, cuts, top, macros, macroCount, ounitCount, r)
    decreases |tokens| - i, 2
  {
    if i == |tokens| {
      NothingLeft(original, top, macros, macroCount, ounitCount, tokens);
      cuts := [i];
    } else if tokens[i].kind.MacroKeyword? {
      cuts := ConsumeMacroHas(original, tokens, macros, i, top, macroCount, ounitCount, r);
    } else if tokens[i].kind.Ounit? || ModuleOrImport(tokens[i].kind) {
      cuts := ConsumeDirectiveHas(original, tokens, macros, i, top, macroCount, ounitCount, r);
    } else {
      cuts := ConsumeOtherHas(original, tokens, macros, i, top, macroCount, ounitCount, r);
    }
  }

  lemma {:induction false} ConsumeDirectiveHas(original: seq<Token>, tokens: seq<Token>, macros: MacroTable, i: nat, top: bool,
                                               macroCount: nat, ounitCount: nat, r: Consumption)
    returns (cuts: seq<nat>)
    requires Same(original, tokens, i) && r == Consume(tokens, macros, i, top, macroCount, ounitCount) && r.Consumed?
    requires i < |tokens| && (tokens[i].kind == Ounit || ModuleOrImport(tokens[i].kind))
    ensures Consuming(original, i, cuts, top, macros, macroCount, ounitCount, r)
    decreases |tokens| - i, 1
  {
    if tokens[i].kind.Ounit? {
      var b := OunitEnd(tokens, i).value;
      DirectiveThere(original, tokens, i, b);
      cuts := ConsumeFlaggedHas(original, tokens, macros, i, b, top, false, macroCount, ounitCount, macroCount, ounitCount + 1, r);
    } else {
      DirectiveThere(original, tokens, i, i + 3);
      cuts := ConsumeFlaggedHas(original, tokens, macros, i, i + 3, top, top, macroCount, ounitCount, macroCount + 1, ounitCount, r);
    }
  }

  /** The directives other than macro definitions are parsed exactly where they stand. */
  lemma DirectiveThere(original: seq<Token>, tokens: seq<Token>, i: nat, b: nat)
    requires Same(original, tokens, i) && i < |tokens|
    ensures tokens[i].kind == Ounit ==> (OunitEnd(tokens, i) == Some(b) <==> ItemText(original, i, b))
    ensures tokens[i].kind == ImportKeyword ==> (ImportEnd(tokens, i) == Some(b) <==> ItemText(original, i, b))
    ensures tokens[i].kind == ModuleKeyword ==> (ModuleEnd(tokens, i) == Some(b) <==> ItemText(original, i, b))
  {
  }

  lemma {:induction false} ConsumeOtherHas(original: seq<Token>, tokens: seq<Token>, macros: MacroTable, i: nat, top: bool,
                                           macroCount: nat, ounitCount: nat, r: Consumption)
    returns (cuts: seq<nat>)
    requires Same(original, tokens, i) && i < |tokens| && tokens[i].kind !in DIRECTIVES
    requires r == Consume(tokens, macros, i, top, macroCount, ounitCount) && r.Consumed?
    ensures Consuming(original, i, cuts, top, macros, macroCount, ounitCount, r)
    decreases |tokens| - i, 0
  {
    assert tokens[i].kind != EndMacro;
    var rest := ConsumeHas(original, tokens, macros, i + 1, false, macroCount, ounitCount, r);
    ConsumedTokens(tokens, macros, i + 1, false, macroCount, ounitCount);
    assert r.tokens[i] == tokens[i];
    ItemConsumed(original, i, i + 1, rest, top, false, macros, macroCount, ounitCount, macroCount, ounitCount, r);
    cuts := [i] + rest;
  }

  lemma {:induction false} ConsumeMacroHas(original: seq<Token>, tokens: seq<Token>, macros: MacroTable, i: nat, top: bool,
                                           macroCount: nat, ounitCount: nat, r: Consumption)
    returns (cuts: seq<nat>)
    requires Same(original, tokens, i) && At(tokens, i, MacroKeyword)
    requires r == Consume(tokens, macros, i, top, macroCount, ounitCount) && r.Consumed?
    ensures Consuming(original, i, cuts, top, macros, macroCount, ounitCount, r)
    decreases |tokens| - i, 0
  {
    var d := ParseMacro(tokens, macros, i);
    var macros' := macros[d.macro.name := d.macro];
    assert r == Consume(d.tokens, macros', d.next, false, macroCount + 1, ounitCount);
    ParsedFlags(tokens, macros, i);
    var rest := ConsumeHas(original, d.tokens, macros', d.next, false, macroCount + 1, ounitCount, r);
    ConsumedTokens(d.tokens, macros', d.next, false, macroCount + 1, ounitCount);
    DefinitionConsumed(original, tokens, macros, i, top, macroCount, ounitCount, macroCount + 1, d, rest, r);
    cuts := [i] + rest;
  }

  lemma DefinitionConsumed(original: seq<Token>, tokens: seq<Token>, macros: MacroTable, i: nat, top: bool, macroCount: nat,
                           ounitCount: nat, macroCount': nat, d: MacroDefinition, rest: seq<nat>, r: Consumption)
    requires Same(original, tokens, i) && At(tokens, i, MacroKeyword)
    requires d == ParseMacro(tokens, macros, i) && d.MacroDefinition? && macroCount' == macroCount + 1
    requires Consuming(original, d.next, rest, false, macros[d.macro.name := d.macro], macroCount', ounitCount, r)
    requires KeptTokens(d.tokens, r.tokens, d.next)
    ensures Consuming(original, i, [i] + rest, top, macros, macroCount, ounitCount, r)
  {
    ParsedDefines(tokens, macros, i);
    SameDefines(original, tokens, i, d.next, d.macro);
    ParsedFlags(tokens, macros, i);
    StaysFlagged(original, d.tokens, i, d.next, r.tokens);
    MacroConsumed(original, i, d.next, rest, top, d.macro, macros, macroCount, ounitCount, macroCount', r);
  }

  lemma ParsedFlags(tokens: seq<Token>, macros: MacroTable, i: nat)
    requires i < |tokens| && ParseMacro(tokens, macros, i).MacroDefinition?
    ensures var d := ParseMacro(tokens, macros, i); FlaggedFrom(d.tokens, i, d.next) && Same(tokens, d.tokens, d.next)
  {
  }

  lemma {:induction false} ConsumeFlaggedHas(original: seq<Token>, tokens: seq<Token>, macros: MacroTable, i: nat, b: nat,
                                             top: bool, top': bool, macroCount: nat, ounitCount: nat, macroCount': nat, ounitCount': nat,
                                             r: Consumption)
    returns (cuts: seq<nat>)
    requires Same(original, tokens, i) && i < b <= |tokens|
    requires original[i].kind == Ounit || ModuleOrImport(original[i].kind)
    requires ItemText(original, i, b)
    requires original[i].kind == ModuleKeyword ==> i == 0
    requires original[i].kind == ImportKeyword ==> top
    requires top' ==> top && ModuleOrImport(original[i].kind)
    requires macroCount' == macroCount + if ModuleOrImport(original[i].kind) then 1 else 0
    requires ounitCount' == ounitCount + if original[i].kind == Ounit then 1 else 0
    requires r == Consume(FlagRange(tokens, i, b), macros, b, top', macroCount', ounitCount') && r.Consumed?
    ensures Consuming(original, i, cuts, top, macros, macroCount, ounitCount, r)
    decreases |tokens| - i, 0
  {
    var flagged := FlagRange(tokens, i, b);
    var rest := ConsumeHas(original, flagged, macros, b, top', macroCount', ounitCount', r);
    ConsumedTokens(flagged, macros, b, top', macroCount', ounitCount');
    StaysFlagged(original, flagged, i, b, r.tokens);
    ItemConsumed(original, i, b, rest, top, top', macros, macroCount, ounitCount, macroCount', ounitCount', r);
    cuts := [i] + rest;
  }

  // ------------------------------------------------ what is meant is consumed

  lemma NewBehind(tokens: seq<Token>, i: nat, cuts: seq<nat>, macros: MacroTable, macro: Macro)
    requires |cuts| > 1 && cuts[0] == i && NewNames(tokens, cuts, macros)
    ensures NewNames(tokens, cuts[1..], macros)
    ensures At(tokens, i, MacroKeyword) && i + 1 < |tokens| && tokens[i + 1].lexeme == macro.name ==>
              macro.name !in macros && NewNames(tokens, cuts[1..], macros[macro.name := macro])
  {
    assert cuts == [i] + cuts[1..];
    forall k, name
      ensures k > 0 ==> (NamedAt(tokens, cuts, k, name) <==> NamedAt(tokens, cuts[1..], k - 1, name))
      ensures NamedAt(tokens, cuts, 0, name) <==> At(tokens, i, MacroKeyword) && i + 1 < |tokens| && tokens[i + 1].lexeme == name
    {
      NamesBefore(tokens, i, cuts[1..], k, name);
    }
    forall k, name | NamedAt(tokens, cuts[1..], k, name)
      ensures NamedAt(tokens, cuts, k + 1, name)
    {
    }
    if At(tokens, i, MacroKeyword) && i + 1 < |tokens| && tokens[i + 1].lexeme == macro.name {
      assert NamedAt(tokens, cuts, 0, macro.name);
    }
  }

  lemma {:induction false} ConsumeOnly(original: seq<Token>, tokens: seq<Token>, macros: MacroTable, i: nat, top: bool,
                                       macroCount: nat, ounitCount: nat, cuts: seq<nat>)
    requires Same(original, tokens, i) && Items(original, i, cuts, top) && NewNames(original, cuts, macros)
    ensures Consume(tokens, macros, i, top, macroCount, ounitCount).Consumed?
    decreases |tokens| - i, 1
  {
    if |cuts| == 1 {
    } else {
      ItemsBehind(original, i, cuts, top);
      ItemsAscend(original, i, cuts, top, 1);
      var b, rest, kind := cuts[1], cuts[1..], tokens[i].kind;
      if kind.MacroKeyword? {
        ConsumeMacroOnly(original, tokens, macros, i, top, macroCount, ounitCount, cuts);
      } else {
        NewBehind(original, i, cuts, macros, Macro("", [], []));
        DirectiveThere(original, tokens, i, b);
        if kind.Ounit? {
          ConsumeOnly(original, FlagRange(tokens, i, b), macros, b, false, macroCount, ounitCount + 1, rest);
        } else if ModuleOrImport(kind) {
          ConsumeOnly(original, FlagRange(tokens, i, b), macros, b, top, macroCount + 1, ounitCount, rest);
        } else {
          ConsumeOnly(original, tokens, macros, b, false, macroCount, ounitCount, rest);
        }
      }
    }
  }

  lemma {:induction false} ConsumeMacroOnly(original: seq<Token>, tokens: seq<Token>, macros: MacroTable, i: nat, top: bool,
                                            macroCount: nat, ounitCount: nat, cuts: seq<nat>)
    requires Same(original, tokens, i) && Items(original, i, cuts, top) && NewNames(original, cuts, macros)
    requires |cuts| > 1 && At(tokens, i, MacroKeyword)
    ensures Consume(tokens, macros, i, top, macroCount, ounitCount).Consumed?
    decreases |tokens| - i, 0
  {
    ItemsBehind(original, i, cuts, top);
    ItemsAscend(original, i, cuts, top, 1);
    var b := cuts[1];
    var macro :| Defines(original, i, b, macro);
    SameDefines(tokens, original, i, b, macro);
    NewBehind(original, i, cuts, macros, macro);
    DefinesParsed(tokens, macros, i, b, macro);
    var d := ParseMacro(tokens, macros, i);
    NewBehind(original, i, cuts, macros, d.macro);
    ParsedFlags(tokens, macros, i);
    ConsumeOnly(original, d.tokens, macros[d.macro.name := d.macro], b, false, macroCount + 1, ounitCount, cuts[1..]);
  }

  // --------------------------------------------------------------- the laws

  ghost predicate Acceptable(tokens: seq<Token>, macros: MacroTable) {
    exists cuts :: WellFormed(tokens, cuts, macros)
  }

  /** A stream is consumed exactly when its directives are well formed and define only new macros;
      then the table gains what they define, their tokens are flagged, and they are counted. */
  lemma ConsumptionMeaning(tokens: seq<Token>, macros: MacroTable, macroCount: nat, ounitCount: nat)
    ensures var r := Consume(tokens, macros, 0, true, macroCount, ounitCount);
            && (r.Consumed? <==> Acceptable(tokens, macros))
            && (r.Consumed? ==> exists cuts {:trigger WellFormed(tokens, cuts, macros)} ::
                  && WellFormed(tokens, cuts, macros) && Consumes(tokens, cuts, macros, r.tokens, r.macros)
                  && r.macroCount == macroCount + MacrosIn(tokens, cuts) && r.ounitCount == ounitCount + OunitsIn(tokens, cuts))
  {
    var r := Consume(tokens, macros, 0, true, macroCount, ounitCount);
    if r.Consumed? {
      var cuts := ConsumeHas(tokens, tokens, macros, 0, true, macroCount, ounitCount, r);
      assert WellFormed(tokens, cuts, macros);
    }
    if Acceptable(tokens, macros) {
      var cuts :| WellFormed(tokens, cuts, macros);
      ConsumeOnly(tokens, tokens, macros, 0, true, macroCount, ounitCount, cuts);
    }
  }

  /** Inside a definition there is no macro keyword. */
  lemma NoKeywordInDefinition(tokens: seq<Token>, a: nat, b: nat, macro: Macro, m: nat)
    requires Defines(tokens, a, b, macro) && a < m < b
    ensures !At(tokens, m, MacroKeyword)
  {
    var h: nat :| HeaderText(tokens, a, macro.name, macro.parameters, h) && BodyText(tokens, h, b, macro.parameters, macro.tokens);
    if a + 3 <= m < h {
      assert ParameterAt(tokens, a + 3, macro.parameters, (m - a - 3) / 2);
    } else if h <= m < b - 1 {
      assert BodyTokenOf(macro.parameters, tokens[h + (m - h)], macro.tokens[m - h]);
    }
  }

  /** Inside any other item there is none either. */
  lemma NoKeywordInside(tokens: seq<Token>, a: nat, b: nat, m: nat)
    requires ItemText(tokens, a, b) && a < m < b
    ensures !At(tokens, m, MacroKeyword)
  {
    if tokens[a].kind == MacroKeyword {
      var macro :| Defines(tokens, a, b, macro);
      NoKeywordInDefinition(tokens, a, b, macro, m);
    } else if tokens[a].kind == Ounit {
      NoKeywordInOunit(tokens, a, b, m);
    }
  }

  lemma NoKeywordInOunit(tokens: seq<Token>, a: nat, b: nat, m: nat)
    requires OunitText(tokens, a, b) && a < m < b
    ensures !At(tokens, m, MacroKeyword)
  {
  }

  /** Every macro keyword starts an item. */
  lemma {:induction false} KeywordCut(tokens: seq<Token>, i: nat, cuts: seq<nat>, top: bool, m: nat) returns (k: nat)
    requires Items(tokens, i, cuts, top) && i <= m && At(tokens, m, MacroKeyword)
    ensures k < |cuts| - 1 && cuts[k] == m
    decreases |cuts|
  {
    assert |cuts| > 1;
    ItemsBehind(tokens, i, cuts, top);
    if m == i {
      k := 0;
    } else {
      if m < cuts[1] {
        NoKeywordInside(tokens, i, cuts[1], m);
      }
      k := KeywordCut(tokens, cuts[1], cuts[1..], top && ModuleOrImport(tokens[i].kind), m);
      k := k + 1;
    }
  }

  lemma NamesAreRecorded(tokens: seq<Token>, cuts: seq<nat>, macros: MacroTable, tokens': seq<Token>, macros': MacroTable)
    requires WellFormed(tokens, cuts, macros) && Consumes(tokens, cuts, macros, tokens', macros')
    ensures NamesRecorded(tokens, macros, macros')
  {
    forall m: nat, name | NamedBehind(tokens, m, name)
      ensures exists k :: NamedAt(tokens, cuts, k, name) && cuts[k] == m
    {
      var k := KeywordCut(tokens, 0, cuts, true, m);
      assert NamedAt(tokens, cuts, k, name);
    }
    forall k, name | NamedAt(tokens, cuts, k, name)
      ensures NamedBehind(tokens, cuts[k], name)
    {
    }
    forall name | name in macros'
      ensures name in macros || exists m :: NamedBehind(tokens, m, name)
    {
      assert Comes(tokens, cuts, macros, name);
    }
    forall m: nat, name | NamedBehind(tokens, m, name)
      ensures name in macros' && name !in macros && macros'[name].name == name && exists b :: Defines(tokens, m, b, macros'[name])
    {
      var k :| NamedAt(tokens, cuts, k, name) && cuts[k] == m;
      assert TableHolds(tokens, cuts, macros', k, name);
    }
  }
}
