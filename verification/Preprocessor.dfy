/** Preprocessing the files of a build in order. */
module Preprocessor {
  import opened DynamicArrays
  import opened Wrappers
  import opened MacroExpansion
  import opened MacroMeaning
  import opened MacroLaws
  import opened TokenArrays
  import opened DirectiveGrammar
  import opened DirectiveMeaning
  import opened DirectiveLaws
  import opened ConsumedStreams
  import opened MacroConsumption
  import opened MacroReplacement

  // ------------------------------------------------------------- all files

  /** Preprocessing streams one after the other: each is consumed, then expanded with all the
      macros recorded so far. */
  function PreprocessFiles(files: seq<seq<Token>>, macros: MacroTable, macroCount: nat, ounitCount: nat): Option<seq<seq<Token>>> {
    if files == [] then Some([])
    else
      var consumed := Consume(files[0], macros, 0, true, macroCount, ounitCount);
      if consumed.Rejected? then None
      else
        var expanded := ExpandStream(consumed.tokens, consumed.macros, 0);
        if expanded.Failed? then None
        else
          var rest := PreprocessFiles(files[1..], consumed.macros, consumed.macroCount, consumed.ounitCount);
          if rest.None? then None else Some([expanded.tokens] + rest.value)
  }

  /** What one file is read as, with the macros of the files before it: its directives are well
      formed, the macros gain its own, and what is not flagged has this meaning. */
  ghost predicate FileMeans(tokens: seq<Token>, macros: MacroTable, macros': MacroTable, out: seq<Token>) {
    exists cuts, flagged {:trigger Consumes(tokens, cuts, macros, flagged, macros')} ::
      && WellFormed(tokens, cuts, macros) && Consumes(tokens, cuts, macros, flagged, macros')
      && Means(flagged, macros', 0, |flagged|, true, out)
  }

  /** Its directives are not well formed, or a macro call in it has no meaning. */
  ghost predicate FileFails(tokens: seq<Token>, macros: MacroTable) {
    || !Acceptable(tokens, macros)
    || exists cuts, flagged, macros' {:trigger Consumes(tokens, cuts, macros, flagged, macros')} ::
         && WellFormed(tokens, cuts, macros) && Consumes(tokens, cuts, macros, flagged, macros')
         && !HasMeaning(flagged, macros')
  }

  /** The files mean this, one after the other, with these macros known before each of them and
      after the last. */
  ghost predicate FilesMean(files: seq<seq<Token>>, tables: seq<MacroTable>, outs: seq<seq<Token>>) {
    && |tables| == |files| + 1 && |outs| == |files|
    && forall k {:trigger files[k]} {:trigger outs[k]} :: 0 <= k < |files| ==>
         FileMeans(files[k], tables[k], tables[k + 1], outs[k])
  }

  lemma FileMeaning(tokens: seq<Token>, macros: MacroTable, macroCount: nat, ounitCount: nat)
    requires AllRecorded(macros) && NoParameterTokens(tokens, 0)
    ensures var consumed := Consume(tokens, macros, 0, true, macroCount, ounitCount);
            if consumed.Rejected? || ExpandStream(consumed.tokens, consumed.macros, 0).Failed? then FileFails(tokens, macros)
            else AllRecorded(consumed.macros) &&
                 FileMeans(tokens, macros, consumed.macros, ExpandStream(consumed.tokens, consumed.macros, 0).tokens)
  {
    var consumed := Consume(tokens, macros, 0, true, macroCount, ounitCount);
    ConsumptionMeaning(tokens, macros, macroCount, ounitCount);
    if consumed.Consumed? {
      ConsumedRecorded(tokens, macros, 0, true, macroCount, ounitCount);
      StreamHasMeaning(consumed.tokens, consumed.macros);
      var cuts :| WellFormed(tokens, cuts, macros) && Consumes(tokens, cuts, macros, consumed.tokens, consumed.macros);
    }
  }

  /** Preprocessing gives the files their meanings, each with the macros of all files before it, up
      to the first file that fails, if there is one. */
  lemma {:induction false} PreprocessingMeaning(files: seq<seq<Token>>, macros: MacroTable, macroCount: nat, ounitCount: nat)
    returns (tables: seq<MacroTable>, outs: seq<seq<Token>>)
    requires AllRecorded(macros)
    requires forall k {:trigger files[k]} :: 0 <= k < |files| ==> NoParameterTokens(files[k], 0)
    ensures |outs| <= |files| && FilesMean(files[..|outs|], tables, outs) && tables[0] == macros
    ensures match PreprocessFiles(files, macros, macroCount, ounitCount)
            case Some(all) => outs == all && |outs| == |files|
            case None => |outs| < |files| && FileFails(files[|outs|], tables[|outs|])
  {
    if files == [] {
      tables, outs := [macros], [];
    } else {
      var consumed := Consume(files[0], macros, 0, true, macroCount, ounitCount);
      FileMeaning(files[0], macros, macroCount, ounitCount);
      if consumed.Rejected? || ExpandStream(consumed.tokens, consumed.macros, 0).Failed? {
        tables, outs := [macros], [];
      } else {
        var tables', outs' := PreprocessingMeaning(files[1..], consumed.macros, consumed.macroCount, consumed.ounitCount);
        tables, outs := [macros] + tables', [ExpandStream(consumed.tokens, consumed.macros, 0).tokens] + outs';
        OneMoreFile(files, macros, tables', outs[0], outs');
      }
    }
  }

  lemma OneMoreFile(files: seq<seq<Token>>, macros: MacroTable, tables: seq<MacroTable>, out: seq<Token>, outs: seq<seq<Token>>)
    requires |files| > |outs| && FilesMean(files[1..][..|outs|], tables, outs) && FileMeans(files[0], macros, tables[0], out)
    ensures FilesMean(files[..|outs| + 1], [macros] + tables, [out] + outs)
  {
    var some, tables', outs' := files[..|outs| + 1], [macros] + tables, [out] + outs;
    forall k | 0 <= k < |some|
      ensures FileMeans(some[k], tables'[k], tables'[k + 1], outs'[k])
    {
      if k > 0 {
        assert files[1..][..|outs|][k - 1] == files[k] && outs[k - 1] == outs'[k];
      }
    }
  }

  /** From an empty macro table, the files mean this. */
  ghost predicate AllMean(files: seq<seq<Token>>, outs: seq<seq<Token>>) {
    exists tables :: FilesMean(files, tables, outs) && tables[0] == map[]
  }

  /** From an empty macro table, some file fails after those before it. */
  ghost predicate SomeFails(files: seq<seq<Token>>) {
    exists n, tables, outs {:trigger FilesMean(files[..n], tables, outs)} ::
      0 <= n < |files| && FilesMean(files[..n], tables, outs) && tables[0] == map[] && FileFails(files[n], tables[n])
  }

  /** A stream as the lexer makes it. */
  ghost predicate Fresh(tokens: seq<Token>) {
    IsStream(tokens) && NoParameterTokens(tokens, 0) && forall k {:trigger tokens[k]} :: 0 <= k < |tokens| ==> !tokens[k].ignore
  }

  /** What is known of the macros between two files; without a count there are none. */
  ghost predicate Between(macros: MacroTable, macroCount: nat, ounitCount: nat) {
    AllRecorded(macros) && (macroCount == ounitCount == 0 ==> macros == map[])
  }

  /** One file. Skipping the replacement pass while nothing has been counted is sound: the
      stream is then its own expansion. */
  method PreprocessFile(stream: TokenStream, symtab: MacroSymtab, stack: LexStack, numMacros: nat, numOunits: nat)
    returns (ok: bool, macroCount: nat, ounitCount: nat)
    requires Fresh(stream.tokens) && Between(symtab.macros, numMacros, numOunits)
    modifies stream, symtab, stack
    ensures ok ==> Between(symtab.macros, macroCount, ounitCount) && stack.tokens == old(stack.tokens)
    ensures var consumed := Consume(old(stream.tokens), old(symtab.macros), 0, true, numMacros, numOunits);
            && (ok <==> consumed.Consumed? && ExpandStream(consumed.tokens, consumed.macros, 0).Expanded?)
            && (ok ==> symtab.macros == consumed.macros && macroCount == consumed.macroCount && ounitCount == consumed.ounitCount
                       && stream.tokens == ExpandStream(consumed.tokens, consumed.macros, 0).tokens)
  {
    ghost var tokens, macros := stream.tokens, symtab.macros;
    ok, macroCount, ounitCount := MacroConsumptionPass(stream, symtab, stack, numMacros, numOunits);
    if !ok {
      return;
    }
    ConsumedRecorded(tokens, macros, 0, true, numMacros, numOunits);
    ConsumedTokens(tokens, macros, 0, true, numMacros, numOunits);
    if macroCount == 0 && ounitCount == 0 {
      NothingToExpand(stream.tokens, 0);
      assert stream.tokens[0..] == stream.tokens;
      return;
    }
    RecordedAreMacros(symtab.macros);
    ok := MacroReplacementPass(stream, symtab.macros, stack);
  }

  ghost function TokensFrom(streams: seq<TokenStream>, i: nat): (r: seq<seq<Token>>)
    requires i <= |streams|
    reads streams
    ensures |r| == |streams| - i && forall k {:trigger r[k]} :: 0 <= k < |r| ==> r[k] == streams[i + k].tokens
    decreases |streams| - i
  {
    if i == |streams| then [] else [streams[i].tokens] + TokensFrom(streams, i + 1)
  }

  /** The files done, with those still to come, are what preprocessing all of them gives. */
  ghost predicate FilesDone(whole: Option<seq<seq<Token>>>, done: seq<seq<Token>>, rest: Option<seq<seq<Token>>>) {
    if rest.None? then whole.None? else whole == Some(done + rest.value)
  }

  lemma NextFile(whole: Option<seq<seq<Token>>>, done: seq<seq<Token>>, files: seq<seq<Token>>, macros: MacroTable,
                 macroCount: nat, ounitCount: nat)
    requires files != [] && FilesDone(whole, done, PreprocessFiles(files, macros, macroCount, ounitCount))
    ensures var consumed := Consume(files[0], macros, 0, true, macroCount, ounitCount);
            if consumed.Rejected? || ExpandStream(consumed.tokens, consumed.macros, 0).Failed? then whole.None?
            else FilesDone(whole, done + [ExpandStream(consumed.tokens, consumed.macros, 0).tokens],
                           PreprocessFiles(files[1..], consumed.macros, consumed.macroCount, consumed.ounitCount))
  {
    var consumed := Consume(files[0], macros, 0, true, macroCount, ounitCount);
    if consumed.Consumed? && ExpandStream(consumed.tokens, consumed.macros, 0).Expanded? {
      var expanded := ExpandStream(consumed.tokens, consumed.macros, 0).tokens;
      var rest := PreprocessFiles(files[1..], consumed.macros, consumed.macroCount, consumed.ounitCount);
      if rest.Some? {
        assert done + ([expanded] + rest.value) == done + [expanded] + rest.value;
      }
    }
  }

  /** Files up to number i have been preprocessed, and the rest would make the result whole. */
  ghost predicate FilesTo(whole: Option<seq<seq<Token>>>, files: seq<seq<Token>>, i: nat, done: seq<seq<Token>>,
                          macros: MacroTable, macroCount: nat, ounitCount: nat) {
    && i <= |files| && |done| == i
    && FilesDone(whole, done, PreprocessFiles(files[i..], macros, macroCount, ounitCount))
  }

  lemma FilesStart(files: seq<seq<Token>>)
    ensures FilesTo(PreprocessFiles(files, map[], 0, 0), files, 0, [], map[], 0, 0)
  {
    assert files[0..] == files;
    var whole := PreprocessFiles(files, map[], 0, 0);
    if whole.Some? {
      assert [] + whole.value == whole.value;
    }
  }

  /** Preprocessing file i keeps the account, or shows that the whole fails. */
  lemma FilesNext(whole: Option<seq<seq<Token>>>, files: seq<seq<Token>>, i: nat, done: seq<seq<Token>>,
                  macros: MacroTable, macroCount: nat, ounitCount: nat, next: nat)
    requires FilesTo(whole, files, i, done, macros, macroCount, ounitCount) && i < |files| && next == i + 1
    ensures var consumed := Consume(files[i], macros, 0, true, macroCount, ounitCount);
            if consumed.Rejected? || ExpandStream(consumed.tokens, consumed.macros, 0).Failed? then whole.None?
            else FilesTo(whole, files, next, done + [ExpandStream(consumed.tokens, consumed.macros, 0).tokens],
                         consumed.macros, consumed.macroCount, consumed.ounitCount)
  {
    NextFile(whole, done, files[i..], macros, macroCount, ounitCount);
    assert files[i..][0] == files[i] && files[i..][1..] == files[next..];
  }

  lemma FilesEnd(whole: Option<seq<seq<Token>>>, files: seq<seq<Token>>, done: seq<seq<Token>>,
                 macros: MacroTable, macroCount: nat, ounitCount: nat)
    requires FilesTo(whole, files, |files|, done, macros, macroCount, ounitCount)
    ensures whole == Some(done)
  {
    assert files[|files|..] == [] && done + [] == done;
  }

  /** The body of the file loop. */
  method PreprocessNext(stream: TokenStream, symtab: MacroSymtab, stack: LexStack, numMacros: nat, numOunits: nat,
                        ghost whole: Option<seq<seq<Token>>>, ghost files: seq<seq<Token>>, ghost i: nat, ghost next: nat,
                        ghost done: seq<seq<Token>>)
    returns (ok: bool, macroCount: nat, ounitCount: nat)
    requires Fresh(stream.tokens) && Between(symtab.macros, numMacros, numOunits)
    requires i < |files| && next == i + 1 && files[i] == stream.tokens
    requires FilesTo(whole, files, i, done, symtab.macros, numMacros, numOunits)
    modifies stream, symtab, stack
    ensures if ok then Between(symtab.macros, macroCount, ounitCount)
                       && FilesTo(whole, files, next, done + [stream.tokens], symtab.macros, macroCount, ounitCount)
            else whole.None?
  {
    FilesNext(whole, files, i, done, symtab.macros, numMacros, numOunits, next);
    ok, macroCount, ounitCount := PreprocessFile(stream, symtab, stack, numMacros, numOunits);
  }

  /** The streams below i hold what is done, the others what they held at first. */
  ghost predicate Holding(streams: seq<TokenStream>, files: seq<seq<Token>>, done: seq<seq<Token>>, i: nat)
    reads streams
  {
    && |streams| == |files| && |done| == i <= |streams|
    && forall k {:trigger streams[k]} :: 0 <= k < |streams| ==> streams[k].tokens == if k < i then done[k] else files[k]
  }

  /** preprocess_all_files_in_order. */
  method PreprocessInOrder(streams: seq<TokenStream>, symtab: MacroSymtab, stack: LexStack, ghost files: seq<seq<Token>>)
    returns (ok: bool, ghost done: seq<seq<Token>>)
    requires Distinct(streams) && Holding(streams, files, [], 0) && symtab.macros == map[]
    requires forall k {:trigger files[k]} :: 0 <= k < |files| ==> Fresh(files[k])
    modifies streams, symtab, stack
    ensures PreprocessFiles(files, map[], 0, 0) == if ok then Some(done) else None
    ensures ok ==> Holding(streams, files, done, |streams|)
  {
    var numMacros, numOunits := 0, 0;
    ghost var whole := PreprocessFiles(files, map[], 0, 0);
    done := [];
    FilesStart(files);
    ok := true;
    var i := 0;
    while ok && i < |streams|
      invariant 0 <= i <= |streams|
      invariant ok ==> Holding(streams, files, done, i) && Between(symtab.macros, numMacros, numOunits)
      invariant if ok then FilesTo(whole, files, i, done, symtab.macros, numMacros, numOunits) else whole.None?
    {
      ghost var next := i + 1;
      ok, numMacros, numOunits := PreprocessNext(streams[i], symtab, stack, numMacros, numOunits, whole, files, i, next, done);
      done := done + [streams[i].tokens];
      i := i + 1;
    }
    if ok {
      FilesEnd(whole, files, done, symtab.macros, numMacros, numOunits);
    }
  }

  /** What preprocessing makes of the files: their meanings, or nothing when one of them fails. */
  ghost predicate Preprocessed(files: seq<seq<Token>>, result: Option<seq<seq<Token>>>) {
    match result
    case Some(outs) => AllMean(files, outs)
    case None => SomeFails(files)
  }

  lemma PreprocessedMeaning(files: seq<seq<Token>>)
    requires forall k {:trigger files[k]} :: 0 <= k < |files| ==> Fresh(files[k])
    ensures Preprocessed(files, PreprocessFiles(files, map[], 0, 0))
  {
    var tables, outs := PreprocessingMeaning(files, map[], 0, 0);
    assert |outs| == |files| ==> files[..|outs|] == files;
  }

  /** preprocess: an empty macro table, an empty parenthesis stack, and every file in order. */
  method Preprocess(streams: seq<TokenStream>) returns (ok: bool)
    requires Distinct(streams)
    requires forall k {:trigger streams[k]} :: 0 <= k < |streams| ==> Fresh(streams[k].tokens)
    modifies streams
    ensures Preprocessed(old(TokensFrom(streams, 0)), if ok then Some(TokensFrom(streams, 0)) else None)
  {
    PreprocessedMeaning(TokensFrom(streams, 0));
    ok := PreprocessStreams(streams);
  }

  method PreprocessStreams(streams: seq<TokenStream>) returns (ok: bool)
    requires Distinct(streams)
    requires forall k {:trigger streams[k]} :: 0 <= k < |streams| ==> Fresh(streams[k].tokens)
    modifies streams
    ensures PreprocessFiles(old(TokensFrom(streams, 0)), map[], 0, 0) == if ok then Some(TokensFrom(streams, 0)) else None
  {
    var symtab := new MacroSymtab();
    var stack := new LexStack();
    ghost var files, done := TokensFrom(streams, 0), [];
    ok, done := PreprocessInOrder(streams, symtab, stack, files);
    assert ok ==> TokensFrom(streams, 0) == done;
  }
}
