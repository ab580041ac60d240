/** The replacement pass: a shared cursor into the old tokens, a shared parenthesis stack,
    and mutual recursion between macro calls and their arguments. */
module MacroReplacement {
  import opened Wrappers
  import opened MacroExpansion
  import opened TokenArrays
  import opened MacroMeaning
  import opened MacroLaws

  /** Opening parentheses pushed on top of what was there before. */
  ghost predicate Pushed(before: seq<Token>, now: seq<Token>, count: int) {
    && |now| == |before| + count && before <= now
    && forall k {:trigger now[k]} :: |before| <= k < |now| ==> now[k].kind.LeftParen?
  }

  lemma PushedPop(before: seq<Token>, longer: seq<Token>, shorter: seq<Token>, token: Token, count: int)
    requires Pushed(before, longer, count + 1) && count >= 0 && longer == shorter + [token]
    ensures Pushed(before, shorter, count)
  {
    assert forall k :: 0 <= k < |shorter| ==> shorter[k] == longer[k];
  }

  // ------------------------------------------------------ reading arguments

  /** Reading an argument that starts at index i has got to index k at this depth: what is
      collected so far, with the expansion of the rest, is the expansion of the argument. */
  ghost predicate Reading(tokens: seq<Token>, macros: MacroTable, i: nat, k: nat, depth: nat, collected: seq<Token>) {
    && i <= k < |tokens| && depth >= 1
    && ArgumentEnd(tokens, i, 1) == ArgumentEnd(tokens, k, depth)
    && (collected == [] <==> k == i)
    && forall end: nat {:trigger ExpandRange(tokens, macros, i, end)} :: ArgumentEnd(tokens, i, 1) == Some(end) ==>
         k <= end < |tokens| && Continues(ExpandRange(tokens, macros, i, end), collected, ExpandRange(tokens, macros, k, end))
  }

  ghost predicate Continues(whole: Expansion, collected: seq<Token>, rest: Expansion) {
    if rest.Failed? then whole.Failed? else whole == Expanded(collected + rest.tokens, rest.next)
  }

  /** One token copied into the argument. */
  lemma ReadToken(tokens: seq<Token>, macros: MacroTable, i: nat, k: nat, depth: nat, collected: seq<Token>, depth': nat)
    requires IsStream(tokens) && Reading(tokens, macros, i, k, depth, collected)
    requires !tokens[k].kind.Done? && !IsCall(tokens[k], macros)
    requires depth == 1 ==> !tokens[k].kind.Comma? && !tokens[k].kind.RightParen?
    requires depth' == if tokens[k].kind.LeftParen? then depth + 1 else if tokens[k].kind.RightParen? then depth - 1 else depth
    ensures Reading(tokens, macros, i, k + 1, depth', collected + [tokens[k]])
  {
    forall end: nat | ArgumentEnd(tokens, i, 1) == Some(end)
      ensures k + 1 <= end < |tokens|
      ensures Continues(ExpandRange(tokens, macros, i, end), collected + [tokens[k]], ExpandRange(tokens, macros, k + 1, end))
    {
      var rest := ExpandRange(tokens, macros, k + 1, end);
      if rest.Expanded? {
        assert collected + ([tokens[k]] + rest.tokens) == collected + [tokens[k]] + rest.tokens;
      }
    }
  }

  /** One macro call expanded into the argument. */
  lemma ReadCall(tokens: seq<Token>, macros: MacroTable, i: nat, k: nat, depth: nat, collected: seq<Token>)
    requires IsStream(tokens) && AreMacros(macros) && Reading(tokens, macros, i, k, depth, collected) && IsCall(tokens[k], macros)
    ensures var call := ExpandCall(tokens, macros, macros[tokens[k].lexeme], k + 1);
            if call.Expanded? then Reading(tokens, macros, i, call.next, depth, collected + call.tokens)
            else forall end: nat :: ArgumentEnd(tokens, i, 1) == Some(end) ==> ExpandRange(tokens, macros, i, end).Failed?
  {
    var macro := macros[tokens[k].lexeme];
    var call := ExpandCall(tokens, macros, macro, k + 1);
    if call.Expanded? {
      ScanPastCall(tokens, macros, macro, k + 1, depth);
      CallNonEmpty(tokens, macros, macro, k + 1);
      CallEndsInside(tokens, macros, macro, k + 1);
      forall end: nat | ArgumentEnd(tokens, i, 1) == Some(end)
        ensures call.next <= end < |tokens|
        ensures Continues(ExpandRange(tokens, macros, i, end), collected + call.tokens, ExpandRange(tokens, macros, call.next, end))
      {
        var rest := ExpandRange(tokens, macros, call.next, end);
        if rest.Expanded? {
          assert collected + (call.tokens + rest.tokens) == collected + call.tokens + rest.tokens;
        }
      }
    }
  }

  /** Where the argument ends, everything has been collected. */
  lemma ReadEnd(tokens: seq<Token>, macros: MacroTable, i: nat, k: nat, collected: seq<Token>)
    requires Reading(tokens, macros, i, k, 1, collected)
    requires tokens[k].kind.Comma? || tokens[k].kind.RightParen?
    ensures ArgumentEnd(tokens, i, 1) == Some(k) && ExpandRange(tokens, macros, i, k) == Expanded(collected, k)
  {
  }

  /** generate_parameter_substitution_array: the argument at index, read at nesting level one. */
  method GenerateParameterSubstitutionArray(tokens: seq<Token>, macros: MacroTable, index: nat, stack: LexStack, nestingLevel: nat)
    returns (ok: bool, next: nat, target: TokenArray, level: nat)
    requires IsStream(tokens) && AreMacros(macros) && index < |tokens| && nestingLevel == 1
    modifies stack
    ensures ok <==> ExpandArgument(tokens, macros, index).Expanded?
    ensures ok ==> ExpandArgument(tokens, macros, index) == Expanded(target.items, next)
    ensures ok ==> stack.tokens == old(stack.tokens) && level == 1
    ensures fresh(target)
    decreases |tokens| - index, 0
  {
    target := new TokenArray();
    next, level := index, nestingLevel;
    while true
      invariant Reading(tokens, macros, index, next, level, target.items)
      invariant Pushed(old(stack.tokens), stack.tokens, level - 1)
      invariant fresh(target)
      decreases |tokens| - next
    {
      var lookahead := tokens[next];
      ghost var collected, at, depth := target.items, next, level;
      next := next + 1;
      if level == 1 && (lookahead.kind.Comma? || lookahead.kind.RightParen?) {
        next := next - 1;
        ReadEnd(tokens, macros, index, next, target.items);
        ok := target.items != [];
        return;
      }
      if lookahead.kind.Done? {
        ok := false;
        return;
      }
      if lookahead.kind.Identifier? && lookahead.lexeme in macros {
        ReadCall(tokens, macros, index, at, depth, collected);
        ok, next := PerformMacroSubstitution(tokens, macros, next, stack, target, macros[lookahead.lexeme]);
        if !ok {
          return;
        }
      } else {
        level := UpdateNestingLevel(lookahead, stack, level, old(stack.tokens));
        target.Add(lookahead);
        ReadToken(tokens, macros, index, at, depth, collected, level);
      }
    }
  }

  /** The grouping stack and the nesting level follow the parentheses inside an argument. */
  method UpdateNestingLevel(token: Token, stack: LexStack, level: nat, ghost before: seq<Token>) returns (level': nat)
    requires level >= 1 && Pushed(before, stack.tokens, level - 1) && (level == 1 ==> !token.kind.RightParen?)
    modifies stack
    ensures level' == if token.kind.LeftParen? then level + 1 else if token.kind.RightParen? then level - 1 else level
    ensures Pushed(before, stack.tokens, level' - 1)
  {
    level' := level;
    if token.kind.LeftParen? {
      stack.Push(token);
      level' := level + 1;
    } else if token.kind.RightParen? {
      ghost var pushed := stack.tokens;
      var popped := stack.Pop();
      level' := level - 1;
      PushedPop(before, pushed, stack.tokens, popped, level' - 1);
    }
  }

  /** perform_macro_substitution. */
  method PerformMacroSubstitution(tokens: seq<Token>, macros: MacroTable, index: nat, stack: LexStack, target: TokenArray, macro: Macro)
    returns (ok: bool, next: nat)
    requires IsStream(tokens) && AreMacros(macros) && IsMacro(macro) && index < |tokens|
    modifies stack, target
    ensures ok <==> ExpandCall(tokens, macros, macro, index).Expanded?
    ensures ok ==> target.items == old(target.items) + ExpandCall(tokens, macros, macro, index).tokens
    ensures ok ==> next == ExpandCall(tokens, macros, macro, index).next && stack.tokens == old(stack.tokens)
    decreases |tokens| - index, 1
  {
    if macro.parameters == [] {
      ok, next := true, index;
      PerformNonParameterizedSubstitution(target, macro);
    } else {
      ok, next := PerformParameterizedSubstitution(tokens, macros, index, stack, target, macro);
    }
  }

  /** perform_non_parameterized_substitution. */
  method PerformNonParameterizedSubstitution(target: TokenArray, macro: Macro)
    modifies target
    ensures target.items == old(target.items) + macro.tokens
  {
    for i := 0 to |macro.tokens|
      invariant target.items == old(target.items) + macro.tokens[..i]
    {
      target.Add(macro.tokens[i]);
    }
  }

  // ------------------------------------------------------- reading the list

  /** The arguments read from index i up to index k, with those still to come, are the whole list. */
  ghost predicate Collecting(tokens: seq<Token>, macros: MacroTable, i: nat, k: nat, collected: seq<seq<Token>>) {
    && i <= k < |tokens|
    && ContinuesList(ExpandArguments(tokens, macros, i), collected, ExpandArguments(tokens, macros, k))
  }

  ghost predicate ContinuesList(whole: ArgumentList, collected: seq<seq<Token>>, rest: ArgumentList) {
    if rest.NoArguments? then whole.NoArguments? else whole == Arguments(collected + rest.expansions, rest.next)
  }

  lemma CollectOne(tokens: seq<Token>, macros: MacroTable, i: nat, k: nat, collected: seq<seq<Token>>)
    requires IsStream(tokens) && Collecting(tokens, macros, i, k, collected)
    ensures var argument := ExpandArgument(tokens, macros, k);
            if argument.Failed? then ExpandArguments(tokens, macros, i).NoArguments?
            else if tokens[argument.next].kind.Comma? then Collecting(tokens, macros, i, argument.next + 1, collected + [argument.tokens])
            else ExpandArguments(tokens, macros, i) == Arguments(collected + [argument.tokens], argument.next + 1)
  {
    var argument := ExpandArgument(tokens, macros, k);
    if argument.Expanded? && tokens[argument.next].kind.Comma? {
      var rest := ExpandArguments(tokens, macros, argument.next + 1);
      if rest.Arguments? {
        assert collected + ([argument.tokens] + rest.expansions) == collected + [argument.tokens] + rest.expansions;
      }
    }
  }

  /** One argument and the token behind it; last says that the token closes the list. */
  method ReadArgument(tokens: seq<Token>, macros: MacroTable, index: nat, stack: LexStack, level: nat,
                      ghost start: nat, ghost collected: seq<seq<Token>>)
    returns (ok: bool, next: nat, items: seq<Token>, level': nat, last: bool)
    requires IsStream(tokens) && AreMacros(macros) && level == 1 && Collecting(tokens, macros, start, index, collected)
    modifies stack
    ensures !ok ==> ExpandArguments(tokens, macros, start).NoArguments?
    ensures ok ==> level' == 1 && index < next && stack.tokens == old(stack.tokens)
    ensures ok && last ==> ExpandArguments(tokens, macros, start) == Arguments(collected + [items], next)
    ensures ok && !last ==> Collecting(tokens, macros, start, next, collected + [items])
    decreases |tokens| - index, 1
  {
    CollectOne(tokens, macros, start, index, collected);
    var argument;
    ok, next, argument, level' := GenerateParameterSubstitutionArray(tokens, macros, index, stack, level);
    items, last := argument.items, false;
    if ok {
      last := tokens[next].kind.RightParen?;
      next := next + 1;
    }
  }

  /** The argument loop: a substitution is kept for each parameter there is. */
  method ReadArguments(tokens: seq<Token>, macros: MacroTable, index: nat, stack: LexStack, parameterCount: nat)
    returns (ok: bool, next: nat, substitutions: seq<seq<Token>>, count: nat, level: nat)
    requires IsStream(tokens) && AreMacros(macros) && index < |tokens|
    modifies stack
    ensures ok <==> ExpandArguments(tokens, macros, index).Arguments?
    ensures ok ==> next == ExpandArguments(tokens, macros, index).next && level == 1 && stack.tokens == old(stack.tokens)
    ensures ok ==> count == |ExpandArguments(tokens, macros, index).expansions|
    ensures ok && count == parameterCount ==> substitutions == ExpandArguments(tokens, macros, index).expansions
    decreases |tokens| - index, 2
  {
    next, substitutions, count, level := index, [], 0, 1;
    ghost var collected: seq<seq<Token>> := [];
    while true
      invariant Collecting(tokens, macros, index, next, collected)
      invariant count == |collected| && level == 1 && stack.tokens == old(stack.tokens)
      invariant count <= parameterCount ==> substitutions == collected
      decreases |tokens| - next
    {
      var items, last;
      ok, next, items, level, last := ReadArgument(tokens, macros, next, stack, level, index, collected);
      if !ok {
        return;
      }
      if count < parameterCount {
        substitutions := substitutions + [items];
      }
      collected := collected + [items];
      count := count + 1;
      if last {
        return;
      }
    }
  }

  // -------------------------------------------------------------- splicing

  lemma {:induction false} SpliceAppend(body: seq<Token>, last: Token, arguments: seq<seq<Token>>)
    ensures Splice(body + [last], arguments) == Splice(body, arguments) + Splice([last], arguments)
  {
    if body == [] {
      assert body + [last] == [last];
    } else {
      assert (body + [last])[1..] == body[1..] + [last];
      SpliceAppend(body[1..], last, arguments);
    }
  }

  /** Copying the body, with the substitutions in place of the parameter tokens. */
  method SpliceBody(target: TokenArray, macro: Macro, substitutions: seq<seq<Token>>)
    requires IsMacro(macro) && |substitutions| == |macro.parameters|
    modifies target
    ensures target.items == old(target.items) + Splice(macro.tokens, substitutions)
    ensures Recorded(macro) ==>
              exists out :: BodyMeans(macro.parameters, macro.tokens, substitutions, out) && target.items == old(target.items) + out
  {
    if Recorded(macro) {
      BodyMeansSplice(macro.parameters, macro.tokens, substitutions);
    }
    CopyBody(target, macro, substitutions);
  }

  method CopyBody(target: TokenArray, macro: Macro, substitutions: seq<seq<Token>>)
    requires IsMacro(macro) && |substitutions| == |macro.parameters|
    modifies target
    ensures target.items == old(target.items) + Splice(macro.tokens, substitutions)
  {
    for i := 0 to |macro.tokens|
      invariant target.items == old(target.items) + Splice(macro.tokens[..i], substitutions)
    {
      var token := macro.tokens[i];
      ghost var before := target.items;
      SpliceAppend(macro.tokens[..i], token, substitutions);
      assert macro.tokens[..i + 1] == macro.tokens[..i] + [token];
      assert [token][1..] == [];
      if !token.kind.MacroParameter? {
        target.Add(token);
      } else {
        var replacement := substitutions[token.parameterNumber];
        for j := 0 to |replacement|
          invariant target.items == before + replacement[..j]
        {
          target.Add(replacement[j]);
        }
        assert replacement[..|replacement|] == replacement;
      }
    }
    assert macro.tokens[..|macro.tokens|] == macro.tokens;
  }

  /** perform_parameterized_substitution. */
  method PerformParameterizedSubstitution(tokens: seq<Token>, macros: MacroTable, index: nat, stack: LexStack,
                                          target: TokenArray, macro: Macro)
    returns (ok: bool, next: nat)
    requires IsStream(tokens) && AreMacros(macros) && IsMacro(macro) && index < |tokens| && macro.parameters != []
    modifies stack, target
    ensures ok <==> ExpandCall(tokens, macros, macro, index).Expanded?
    ensures ok ==> target.items == old(target.items) + ExpandCall(tokens, macros, macro, index).tokens
    ensures ok ==> next == ExpandCall(tokens, macros, macro, index).next && stack.tokens == old(stack.tokens)
    decreases |tokens| - index, 0
  {
    var lookahead := tokens[index];
    next := index + 1;
    if !lookahead.kind.LeftParen? {
      return false, next;
    }
    stack.Push(lookahead);
    var substitutions, count, level;
    ok, next, substitutions, count, level := ReadArguments(tokens, macros, next, stack, |macro.parameters|);
    if !ok || count != |macro.parameters| || level != 1 {
      return false, next;
    }
    var popped := stack.Pop();
    LastTokens(old(stack.tokens), lookahead, stack.tokens, popped);
    if !popped.kind.LeftParen? {
      return false, next;
    }
    SpliceBody(target, macro, substitutions);
  }

  // -------------------------------------------------------------- the pass

  /** The new array with the expansion of the rest is the expansion of the stream. */
  ghost predicate Replacing(tokens: seq<Token>, macros: MacroTable, k: nat, items: seq<Token>) {
    k <= |tokens| && Continues(ExpandStream(tokens, macros, 0), items, ExpandStream(tokens, macros, k))
  }

  /** macro_replacement_pass. It succeeds exactly when the expansion of the stream is defined,
      replaces the stream by it, and leaves the parenthesis stack as it found it; with recorded
      macros that is exactly when the stream has a meaning, which then takes its place. */
  method MacroReplacementPass(stream: TokenStream, macros: MacroTable, stack: LexStack) returns (ok: bool)
    requires IsStream(stream.tokens) && AreMacros(macros)
    modifies stream, stack
    ensures ok <==> ExpandStream(old(stream.tokens), macros, 0).Expanded?
    ensures ok ==> stream.tokens == ExpandStream(old(stream.tokens), macros, 0).tokens && stack.tokens == old(stack.tokens)
    ensures !ok ==> stream.tokens == old(stream.tokens)
    ensures AllRecorded(macros) ==>
              && (ok <==> HasMeaning(old(stream.tokens), macros))
              && (ok ==> Means(old(stream.tokens), macros, 0, |old(stream.tokens)|, true, stream.tokens))
  {
    ok := ReplaceMacros(stream, macros, stack);
    if AllRecorded(macros) {
      StreamHasMeaning(old(stream.tokens), macros);
    }
  }

  /** The loop of the pass. */
  method ReplaceMacros(stream: TokenStream, macros: MacroTable, stack: LexStack) returns (ok: bool)
    requires IsStream(stream.tokens) && AreMacros(macros)
    modifies stream, stack
    ensures ok <==> ExpandStream(old(stream.tokens), macros, 0).Expanded?
    ensures ok ==> stream.tokens == ExpandStream(old(stream.tokens), macros, 0).tokens && stack.tokens == old(stack.tokens)
    ensures !ok ==> stream.tokens == old(stream.tokens)
  {
    var tokens := stream.tokens;
    var expanded := new TokenArray();
    var index: nat := 0;
    while index < |tokens|
      invariant Replacing(tokens, macros, index, expanded.items)
      invariant stream.tokens == tokens == old(stream.tokens) && stack.tokens == old(stack.tokens) && fresh(expanded)
      decreases |tokens| - index
    {
      var current := tokens[index];
      ghost var before, rest := expanded.items, ExpandStream(tokens, macros, index);
      index := index + 1;
      if current.ignore {
        continue;
      }
      if current.kind.Identifier? && current.lexeme in macros {
        assert index < |tokens|;
        ghost var call := ExpandCall(tokens, macros, macros[current.lexeme], index);
        ok, index := PerformMacroSubstitution(tokens, macros, index, stack, expanded, macros[current.lexeme]);
        if !ok {
          return;
        }
        ReplaceStep(tokens, macros, before, call.tokens, index);
      } else {
        expanded.Add(current);
        ReplaceStep(tokens, macros, before, [current], index);
      }
    }
    stream.tokens := expanded.items;
    ok := true;
  }

  lemma ReplaceStep(tokens: seq<Token>, macros: MacroTable, before: seq<Token>, added: seq<Token>, k: nat)
    requires k <= |tokens|
    ensures ExpandStream(tokens, macros, k).Expanded? ==>
              before + (added + ExpandStream(tokens, macros, k).tokens) == before + added + ExpandStream(tokens, macros, k).tokens
  {
  }
}
