/** The expansion functions say what macro calls mean: an expansion is defined exactly when there
    is a meaning, and then it is that. */
module MacroLaws {
  import opened Wrappers
  import opened MacroExpansion
  import opened MacroMeaning

  // ---------------------------------------------------------- the plain scan

  /** From index j on, with nothing ended before, the scan that started at i finds the argument's end. */
  lemma {:induction false} ScanEnds(tokens: seq<Token>, i: nat, j: nat, depth: nat)
    requires i <= j <= |tokens| && depth == 1 + Opened(tokens, i, j) && depth >= 1
    requires forall k: nat {:trigger Passes(tokens, i, k)} :: i <= k < j ==> Passes(tokens, i, k)
    ensures ArgumentEnd(tokens, j, depth).Some? ==> EndsAt(tokens, i, ArgumentEnd(tokens, j, depth).value)
    ensures forall end: nat {:trigger EndsAt(tokens, i, end)} :: EndsAt(tokens, i, end) ==> ArgumentEnd(tokens, j, depth) == Some(end)
    decreases |tokens| - j
  {
    if j == |tokens| || tokens[j].kind.Done? || Separates(tokens, i, j) {
      assert !Passes(tokens, i, j);
      assert forall end: nat :: EndsAt(tokens, i, end) ==> j <= end < |tokens| by {
        assert forall end: nat :: EndsAt(tokens, i, end) && end < j ==> Passes(tokens, i, end);
      }
    } else {
      assert Passes(tokens, i, j);
      ScanEnds(tokens, i, j + 1, 1 + Opened(tokens, i, j + 1));
    }
  }

  /** The plain scan finds the first separator that is not inside parentheses. */
  lemma ArgumentEndIsFirst(tokens: seq<Token>, i: nat, end: nat)
    requires i <= |tokens|
    ensures ArgumentEnd(tokens, i, 1) == Some(end) <==> EndsAt(tokens, i, end)
  {
    ScanEnds(tokens, i, i, 1);
  }

  // ------------------------------------------------------------------ steps

  lemma {:induction false} CutsAscend(tokens: seq<Token>, macros: MacroTable, i: nat, end: nat, drop: bool,
                                      cuts: seq<nat>, pieces: seq<seq<Token>>, k: nat, m: nat)
    requires StepsMean(tokens, macros, i, end, drop, cuts, pieces) && k <= m <= |pieces|
    ensures cuts[k] <= cuts[m]
    decreases m - k
  {
    if k == m {
    } else {
      assert StepMeans(tokens, macros, cuts[k], cuts[k + 1], drop, pieces[k]);
      CutsAscend(tokens, macros, i, end, drop, cuts, pieces, k + 1, m);
    }
  }

  /** The first step, and the steps behind it. */
  lemma FirstStep(tokens: seq<Token>, macros: MacroTable, i: nat, end: nat, drop: bool, cuts: seq<nat>, pieces: seq<seq<Token>>)
    requires StepsMean(tokens, macros, i, end, drop, cuts, pieces) && pieces != []
    ensures StepMeans(tokens, macros, i, cuts[1], drop, pieces[0]) && cuts[1] <= end
    ensures StepsMean(tokens, macros, cuts[1], end, drop, cuts[1..], pieces[1..])
  {
    assert StepMeans(tokens, macros, cuts[0], cuts[1], drop, pieces[0]);
    CutsAscend(tokens, macros, i, end, drop, cuts, pieces, 1, |pieces|);
    forall k | 0 <= k < |pieces[1..]|
      ensures cuts[1] <= cuts[1..][k] <= |tokens|
      ensures StepMeans(tokens, macros, cuts[1..][k], cuts[1..][k + 1], drop, pieces[1..][k])
    {
      CutsAscend(tokens, macros, i, end, drop, cuts, pieces, 1, k + 1);
      assert StepMeans(tokens, macros, cuts[k + 1], cuts[k + 2], drop, pieces[k + 1]);
    }
  }

  /** One more step in front. */
  lemma StepBefore(tokens: seq<Token>, macros: MacroTable, i: nat, b: nat, end: nat, drop: bool, piece: seq<Token>, out: seq<Token>)
    requires StepMeans(tokens, macros, i, b, drop, piece) && Means(tokens, macros, b, end, drop, out)
    ensures Means(tokens, macros, i, end, drop, piece + out)
  {
    var cuts, pieces :| StepsMean(tokens, macros, b, end, drop, cuts, pieces) && out == Joined(pieces);
    var cuts', pieces' := [i] + cuts, [piece] + pieces;
    forall k | 0 <= k < |pieces'|
      ensures i <= cuts'[k] <= |tokens| && StepMeans(tokens, macros, cuts'[k], cuts'[k + 1], drop, pieces'[k])
    {
      if k > 0 {
        assert StepMeans(tokens, macros, cuts[k - 1], cuts[k], drop, pieces[k - 1]);
      }
    }
    assert pieces'[1..] == pieces;
    assert StepsMean(tokens, macros, i, end, drop, cuts', pieces');
  }

  lemma NoStep(tokens: seq<Token>, macros: MacroTable, end: nat, drop: bool)
    requires end <= |tokens|
    ensures Means(tokens, macros, end, end, drop, [])
  {
    assert StepsMean(tokens, macros, end, end, drop, [end], []);
    assert Joined([]) == [];
  }

  // ----------------------------------------------------------------- bodies

  /** The body means the spliced body. */
  lemma {:induction false} BodyHas(parameters: seq<Token>, body: seq<Token>, arguments: seq<seq<Token>>) returns (pieces: seq<seq<Token>>)
    requires |arguments| == |parameters|
    requires forall k {:trigger body[k]} :: 0 <= k < |body| ==> BodyToken(parameters, body[k])
    ensures |pieces| == |body| && Splice(body, arguments) == Joined(pieces)
    ensures forall k {:trigger pieces[k]} :: 0 <= k < |body| ==> Contributes(parameters, arguments, body[k], pieces[k])
  {
    if body == [] {
      pieces := [];
    } else {
      var first := if body[0].kind.MacroParameter? then arguments[body[0].parameterNumber] else [body[0]];
      assert Contributes(parameters, arguments, body[0], first);
      var rest := BodyHas(parameters, body[1..], arguments);
      pieces := [first] + rest;
      assert pieces[1..] == rest;
    }
  }

  lemma BodyMeansSplice(parameters: seq<Token>, body: seq<Token>, arguments: seq<seq<Token>>)
    requires |arguments| == |parameters|
    requires forall k {:trigger body[k]} :: 0 <= k < |body| ==> BodyToken(parameters, body[k])
    ensures BodyMeans(parameters, body, arguments, Splice(body, arguments))
  {
    var pieces := BodyHas(parameters, body, arguments);
  }

  /** And nothing else: the parameter of a name is the only one. */
  lemma {:induction false} BodyOnly(parameters: seq<Token>, body: seq<Token>, arguments: seq<seq<Token>>, pieces: seq<seq<Token>>)
    requires |arguments| == |parameters| && DistinctLexemes(parameters)
    requires forall k {:trigger body[k]} :: 0 <= k < |body| ==> BodyToken(parameters, body[k])
    requires |pieces| == |body|
    requires forall k {:trigger pieces[k]} :: 0 <= k < |body| ==> Contributes(parameters, arguments, body[k], pieces[k])
    ensures Splice(body, arguments) == Joined(pieces)
  {
    if body == [] {
    } else {
      assert Contributes(parameters, arguments, body[0], pieces[0]);
      forall k | 0 <= k < |body[1..]|
        ensures Contributes(parameters, arguments, body[1..][k], pieces[1..][k])
      {
        assert pieces[1..][k] == pieces[k + 1];
      }
      BodyOnly(parameters, body[1..], arguments, pieces[1..]);
    }
  }

  // ------------------------------------------- what is expanded is meant

  lemma {:induction false} CallHas(tokens: seq<Token>, macros: MacroTable, macro: Macro, i: nat)
    requires AllRecorded(macros) && Recorded(macro) && i <= |tokens| && ExpandCall(tokens, macros, macro, i).Expanded?
    ensures var call := ExpandCall(tokens, macros, macro, i); CallMeans(tokens, macros, macro, i, call.next, call.tokens)
    decreases |tokens| - i, 0
  {
    if macro.parameters == [] {
    } else {
      var arguments := ExpandArguments(tokens, macros, i + 1).expansions;
      ListHas(tokens, macros, i + 1);
      var pieces := BodyHas(macro.parameters, macro.tokens, arguments);
      assert BodyMeans(macro.parameters, macro.tokens, arguments, Joined(pieces));
    }
  }

  lemma {:induction false} ListHas(tokens: seq<Token>, macros: MacroTable, i: nat)
    requires AllRecorded(macros) && i <= |tokens| && ExpandArguments(tokens, macros, i).Arguments?
    ensures var list := ExpandArguments(tokens, macros, i); ListMeans(tokens, macros, i, list.expansions, list.next)
    decreases |tokens| - i, 2
  {
    var first := ExpandArgument(tokens, macros, i);
    ArgumentEndIsFirst(tokens, i, first.next);
    RangeHas(tokens, macros, i, first.next);
    if tokens[first.next].kind.RightParen? {
    } else {
      ListHas(tokens, macros, first.next + 1);
      var arguments := ExpandArguments(tokens, macros, i).expansions;
      assert arguments[1..] == ExpandArguments(tokens, macros, first.next + 1).expansions;
    }
  }

  lemma {:induction false} RangeHas(tokens: seq<Token>, macros: MacroTable, i: nat, end: nat)
    requires AllRecorded(macros) && i <= end <= |tokens| && ExpandRange(tokens, macros, i, end).Expanded?
    ensures Means(tokens, macros, i, end, false, ExpandRange(tokens, macros, i, end).tokens)
    decreases |tokens| - i, 0
  {
    if i == end {
      NoStep(tokens, macros, end, false);
    } else if IsCall(tokens[i], macros) {
      var macro := macros[tokens[i].lexeme];
      var call := ExpandCall(tokens, macros, macro, i + 1);
      CallHas(tokens, macros, macro, i + 1);
      RangeHas(tokens, macros, call.next, end);
      StepBefore(tokens, macros, i, call.next, end, false, call.tokens, ExpandRange(tokens, macros, call.next, end).tokens);
    } else {
      RangeHas(tokens, macros, i + 1, end);
      StepBefore(tokens, macros, i, i + 1, end, false, [tokens[i]], ExpandRange(tokens, macros, i + 1, end).tokens);
    }
  }

  lemma {:induction false} StreamHas(tokens: seq<Token>, macros: MacroTable, i: nat)
    requires AllRecorded(macros) && i <= |tokens| && ExpandStream(tokens, macros, i).Expanded?
    ensures Means(tokens, macros, i, |tokens|, true, ExpandStream(tokens, macros, i).tokens)
    decreases |tokens| - i
  {
    if i == |tokens| {
      NoStep(tokens, macros, i, true);
    } else if tokens[i].ignore {
      StreamHas(tokens, macros, i + 1);
      var rest := ExpandStream(tokens, macros, i + 1).tokens;
      StepBefore(tokens, macros, i, i + 1, |tokens|, true, [], rest);
      assert [] + rest == rest;
    } else if IsCall(tokens[i], macros) {
      var macro := macros[tokens[i].lexeme];
      var call := ExpandCall(tokens, macros, macro, i + 1);
      CallHas(tokens, macros, macro, i + 1);
      StreamHas(tokens, macros, call.next);
      StepBefore(tokens, macros, i, call.next, |tokens|, true, call.tokens, ExpandStream(tokens, macros, call.next).tokens);
    } else {
      StreamHas(tokens, macros, i + 1);
      StepBefore(tokens, macros, i, i + 1, |tokens|, true, [tokens[i]], ExpandStream(tokens, macros, i + 1).tokens);
    }
  }

  // ------------------------------------------- what is meant is expanded

  lemma {:induction false} CallOnly(tokens: seq<Token>, macros: MacroTable, macro: Macro, i: nat, next: nat, out: seq<Token>)
    requires AllRecorded(macros) && Recorded(macro) && i <= |tokens| && CallMeans(tokens, macros, macro, i, next, out)
    ensures ExpandCall(tokens, macros, macro, i) == Expanded(out, next)
    decreases |tokens| - i, 0
  {
    if macro.parameters == [] {
    } else {
      var arguments :| ListMeans(tokens, macros, i + 1, arguments, next) && |arguments| == |macro.parameters|
        && BodyMeans(macro.parameters, macro.tokens, arguments, out);
      ListOnly(tokens, macros, i + 1, arguments, next);
      var pieces :| |pieces| == |macro.tokens| && out == Joined(pieces)
        && forall k {:trigger pieces[k]} :: 0 <= k < |macro.tokens| ==> Contributes(macro.parameters, arguments, macro.tokens[k], pieces[k]);
      BodyOnly(macro.parameters, macro.tokens, arguments, pieces);
    }
  }

  lemma {:induction false} ListOnly(tokens: seq<Token>, macros: MacroTable, i: nat, arguments: seq<seq<Token>>, next: nat)
    requires AllRecorded(macros) && ListMeans(tokens, macros, i, arguments, next)
    ensures ExpandArguments(tokens, macros, i) == Arguments(arguments, next)
    decreases |tokens| - i, 3
  {
    var end: nat :| ArgumentMeans(tokens, macros, i, end, |arguments| == 1, arguments[0])
      && if |arguments| == 1 then next == end + 1 else ListMeans(tokens, macros, end + 1, arguments[1..], next);
    ArgumentEndIsFirst(tokens, i, end);
    RangeOnly(tokens, macros, i, end, arguments[0]);
    if |arguments| == 1 {
      assert arguments == [arguments[0]];
    } else {
      ListOnly(tokens, macros, end + 1, arguments[1..], next);
      assert arguments == [arguments[0]] + arguments[1..];
    }
  }

  lemma {:induction false} RangeOnly(tokens: seq<Token>, macros: MacroTable, i: nat, end: nat, out: seq<Token>)
    requires AllRecorded(macros) && i <= end <= |tokens| && Means(tokens, macros, i, end, false, out)
    ensures ExpandRange(tokens, macros, i, end) == Expanded(out, end)
    decreases |tokens| - i, 1
  {
    var cuts, pieces :| StepsMean(tokens, macros, i, end, false, cuts, pieces) && out == Joined(pieces);
    if pieces == [] {
    } else {
      FirstStep(tokens, macros, i, end, false, cuts, pieces);
      assert Means(tokens, macros, cuts[1], end, false, Joined(pieces[1..]));
      if IsCall(tokens[i], macros) {
        CallOnly(tokens, macros, macros[tokens[i].lexeme], i + 1, cuts[1], pieces[0]);
      }
      RangeOnly(tokens, macros, cuts[1], end, Joined(pieces[1..]));
    }
  }

  lemma {:induction false} StreamOnly(tokens: seq<Token>, macros: MacroTable, i: nat, out: seq<Token>)
    requires AllRecorded(macros) && i <= |tokens| && Means(tokens, macros, i, |tokens|, true, out)
    ensures ExpandStream(tokens, macros, i).Expanded? && ExpandStream(tokens, macros, i).tokens == out
    decreases |tokens| - i, 1
  {
    var cuts, pieces :| StepsMean(tokens, macros, i, |tokens|, true, cuts, pieces) && out == Joined(pieces);
    if pieces == [] {
    } else {
      FirstStep(tokens, macros, i, |tokens|, true, cuts, pieces);
      assert Means(tokens, macros, cuts[1], |tokens|, true, Joined(pieces[1..]));
      if !tokens[i].ignore && IsCall(tokens[i], macros) {
        CallOnly(tokens, macros, macros[tokens[i].lexeme], i + 1, cuts[1], pieces[0]);
      }
      StreamOnly(tokens, macros, cuts[1], Joined(pieces[1..]));
    }
  }

  // ------------------------------------------------------------ the laws

  /** The expansion of a call has one piece for each token of the body, in order: for a parameter
      token the expansion of the source slice whose number is that of the parameter with its name,
      and for any other the token. There is a slice for each parameter. */
  lemma CallPieces(tokens: seq<Token>, macros: MacroTable, macro: Macro, i: nat) returns (pieces: seq<seq<Token>>)
    requires AllRecorded(macros) && Recorded(macro) && macro.parameters != [] && i <= |tokens|
    requires ExpandCall(tokens, macros, macro, i).Expanded?
    ensures |Slices(tokens, i + 1)| == |macro.parameters|
    ensures |pieces| == |macro.tokens| && ExpandCall(tokens, macros, macro, i).tokens == Joined(pieces)
    ensures forall k {:trigger pieces[k]} :: 0 <= k < |pieces| && macro.tokens[k].kind != MacroParameter ==> pieces[k] == [macro.tokens[k]]
    ensures forall k, p {:trigger pieces[k], macro.parameters[p]} ::
              0 <= k < |pieces| && 0 <= p < |macro.parameters| && macro.tokens[k].kind == MacroParameter
              && macro.parameters[p].lexeme == macro.tokens[k].lexeme ==>
                ExpandsSlice(tokens, macros, Slices(tokens, i + 1)[p], pieces[k])
  {
    var arguments := ExpandArguments(tokens, macros, i + 1).expansions;
    ArgumentsAreSlices(tokens, macros, i + 1);
    pieces := BodyHas(macro.parameters, macro.tokens, arguments);
    forall k, p | 0 <= k < |pieces| && 0 <= p < |macro.parameters| && macro.tokens[k].kind == MacroParameter
      && macro.parameters[p].lexeme == macro.tokens[k].lexeme
      ensures ExpandsSlice(tokens, macros, Slices(tokens, i + 1)[p], pieces[k])
    {
      assert Contributes(macro.parameters, arguments, macro.tokens[k], pieces[k]);
    }
  }

  /** A call expands to something exactly when it means that. */
  lemma CallMeaning(tokens: seq<Token>, macros: MacroTable, macro: Macro, i: nat, next: nat, out: seq<Token>)
    requires AllRecorded(macros) && Recorded(macro) && i <= |tokens|
    ensures ExpandCall(tokens, macros, macro, i) == Expanded(out, next) <==> CallMeans(tokens, macros, macro, i, next, out)
  {
    if ExpandCall(tokens, macros, macro, i).Expanded? {
      CallHas(tokens, macros, macro, i);
    }
    if CallMeans(tokens, macros, macro, i, next, out) {
      CallOnly(tokens, macros, macro, i, next, out);
    }
  }

  lemma RangeMeaning(tokens: seq<Token>, macros: MacroTable, i: nat, end: nat, out: seq<Token>)
    requires AllRecorded(macros) && i <= end <= |tokens|
    ensures ExpandRange(tokens, macros, i, end) == Expanded(out, end) <==> Means(tokens, macros, i, end, false, out)
  {
    if ExpandRange(tokens, macros, i, end).Expanded? {
      RangeHas(tokens, macros, i, end);
    }
    if Means(tokens, macros, i, end, false, out) {
      RangeOnly(tokens, macros, i, end, out);
    }
  }

  /** A stream expands to something exactly when it means that. */
  lemma StreamMeaning(tokens: seq<Token>, macros: MacroTable, out: seq<Token>)
    requires AllRecorded(macros)
    ensures ExpandStream(tokens, macros, 0).Expanded? && ExpandStream(tokens, macros, 0).tokens == out <==>
              Means(tokens, macros, 0, |tokens|, true, out)
  {
    if ExpandStream(tokens, macros, 0).Expanded? {
      StreamHas(tokens, macros, 0);
    }
    if Means(tokens, macros, 0, |tokens|, true, out) {
      StreamOnly(tokens, macros, 0, out);
    }
  }

  lemma StreamHasMeaning(tokens: seq<Token>, macros: MacroTable)
    requires AllRecorded(macros)
    ensures ExpandStream(tokens, macros, 0).Expanded? <==> HasMeaning(tokens, macros)
    ensures ExpandStream(tokens, macros, 0).Expanded? ==>
              Means(tokens, macros, 0, |tokens|, true, ExpandStream(tokens, macros, 0).tokens)
  {
    if ExpandStream(tokens, macros, 0).Expanded? {
      StreamMeaning(tokens, macros, ExpandStream(tokens, macros, 0).tokens);
    }
    if HasMeaning(tokens, macros) {
      var out :| Means(tokens, macros, 0, |tokens|, true, out);
      StreamMeaning(tokens, macros, out);
    }
  }
}
