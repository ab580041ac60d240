/** The imports of a module, read off the text of its file. */
module ImportText {
  import opened ModuleImports

  /** The text of one import statement for each name. */
  ghost function Statements(names: seq<string>): seq<Token> {
    if names == [] then [] else [ImportKeyword, StringConstant(names[0]), Semicolon] + Statements(names[1..])
  }

  /** The text goes on with something else than an import. */
  ghost predicate NoImport(rest: seq<Token>) {
    rest == [] || rest[0] != ImportKeyword
  }

  /** An import keyword without a string constant, or with one but without a semicolon behind it;
      names are those that it gives. */
  ghost predicate Malformed(rest: seq<Token>, names: seq<string>) {
    && rest != [] && rest[0] == ImportKeyword
    && (|| (names == [] && (|rest| == 1 || !rest[1].StringConstant?))
        || (|names| == 1 && |rest| > 1 && rest[1] == StringConstant(names[0]) && (|rest| == 2 || rest[2] != Semicolon)))
  }

  /** The text of a file: what stands before the imports, the imports, and the rest. Nothing stands
      before those of the main file, and three tokens before those of a module, if it has so many. */
  ghost predicate FileText(program: Program, name: string, before: seq<Token>, names: seq<string>, rest: seq<Token>) {
    if name == MAIN_NAME then before == [] && program.mainFile == Tokenized(Statements(names) + rest)
    else
      && name in program.files && program.files[name] == Tokenized(before + Statements(names) + rest)
      && (|before| == 3 || (|before| < 3 && names == [] && rest == []))
  }

  lemma ParseStatement(tokens: seq<Token>, i: nat, name: string, rest: seq<Token>)
    requires i <= |tokens| && tokens[i..] == [ImportKeyword, StringConstant(name), Semicolon] + rest
    ensures i + 3 <= |tokens| && tokens[i + 3..] == rest
    ensures ParseImports(tokens, i) ==
              ImportList([name] + ParseImports(tokens, i + 3).names, ParseImports(tokens, i + 3).wellFormed)
  {
    assert forall k :: 0 <= k < 3 ==> tokens[i + k] == tokens[i..][k];
    assert tokens[i + 3..] == tokens[i..][3..];
  }

  lemma ParseRest(tokens: seq<Token>, i: nat, rest: seq<Token>, more: seq<string>)
    requires i <= |tokens| && tokens[i..] == rest
    ensures NoImport(rest) ==> ParseImports(tokens, i) == ImportList([], true)
    ensures Malformed(rest, more) ==> ParseImports(tokens, i) == ImportList(more, false)
  {
    assert forall k :: 0 <= k < |rest| ==> tokens[i + k] == rest[k];
    assert |more| == 1 ==> more == [more[0]];
  }

  /** Parsing from index i on, where statements for the names stand. */
  lemma {:induction false} ParseStatements(tokens: seq<Token>, i: nat, names: seq<string>, rest: seq<Token>, more: seq<string>)
    requires i <= |tokens| && tokens[i..] == Statements(names) + rest
    ensures NoImport(rest) ==> ParseImports(tokens, i) == ImportList(names, true)
    ensures Malformed(rest, more) ==> ParseImports(tokens, i) == ImportList(names + more, false)
    decreases |names|
  {
    if names == [] {
      assert tokens[i..] == rest && names + more == more;
      ParseRest(tokens, i, rest, more);
    } else {
      var others := names[1..];
      assert Statements(names) + rest == [ImportKeyword, StringConstant(names[0]), Semicolon] + (Statements(others) + rest);
      ParseStatement(tokens, i, names[0], Statements(others) + rest);
      ParseStatements(tokens, i + 3, others, rest, more);
      assert names == [names[0]] + others && names + more == [names[0]] + (others + more);
    }
  }

  /** A file whose imports are followed by something else has exactly those imports, and it
      resolves, unless it is a main file that declares a module. */
  lemma ImportsOfText(program: Program, name: string, before: seq<Token>, names: seq<string>, rest: seq<Token>)
    requires FileText(program, name, before, names, rest) && NoImport(rest)
    ensures ImportsOf(program, name) == names
    ensures Resolves(program, name) <==> !(name == MAIN_NAME && names == [] && rest != [] && rest[0] == ModuleKeyword)
  {
    var tokens := before + Statements(names) + rest;
    if |before| == 3 || name == MAIN_NAME {
      assert tokens[|before|..] == Statements(names) + rest;
      ParseStatements(tokens, |before|, names, rest, []);
    }
    if name == MAIN_NAME {
      assert tokens == Statements(names) + rest;
    }
  }

  /** A malformed statement after some good ones: the file does not resolve, and no import behind it
      counts. */
  lemma MalformedImport(program: Program, name: string, before: seq<Token>, names: seq<string>, rest: seq<Token>, more: seq<string>)
    requires FileText(program, name, before, names, rest) && Malformed(rest, more)
    ensures ImportsOf(program, name) == names + more && !Resolves(program, name)
  {
    var tokens := before + Statements(names) + rest;
    assert tokens[|before|..] == Statements(names) + rest;
    ParseStatements(tokens, |before|, names, rest, more);
    if name == MAIN_NAME {
      assert tokens == Statements(names) + rest;
    }
  }

  /** Every text is good statements followed by something else or by a malformed one. */
  lemma {:induction false} SplitText(tokens: seq<Token>) returns (names: seq<string>, rest: seq<Token>, more: seq<string>)
    ensures tokens == Statements(names) + rest && (NoImport(rest) || Malformed(rest, more))
    decreases |tokens|
  {
    if tokens == [] || tokens[0] != ImportKeyword {
      names, rest, more := [], tokens, [];
    } else if |tokens| == 1 || !tokens[1].StringConstant? {
      names, rest, more := [], tokens, [];
    } else if |tokens| == 2 || tokens[2] != Semicolon {
      names, rest, more := [], tokens, [tokens[1].lexeme];
    } else {
      var others;
      others, rest, more := SplitText(tokens[3..]);
      names := [tokens[1].lexeme] + others;
      assert names[1..] == others && tokens == tokens[..3] + tokens[3..];
      assert tokens == Statements(names) + rest;
    }
  }

  /** Exactly the texts that resolve. */
  ghost predicate GoodText(program: Program, name: string) {
    exists before, names, rest {:trigger FileText(program, name, before, names, rest)} ::
      && FileText(program, name, before, names, rest) && NoImport(rest)
      && !(name == MAIN_NAME && names == [] && rest != [] && rest[0] == ModuleKeyword)
  }

  lemma HasText(program: Program, name: string)
    returns (before: seq<Token>, names: seq<string>, rest: seq<Token>, more: seq<string>)
    requires FileOf(program, name).Tokenized?
    ensures FileText(program, name, before, names, rest) && (NoImport(rest) || Malformed(rest, more))
  {
    var tokens := FileOf(program, name).tokens;
    var n := if name == MAIN_NAME then 0 else if |tokens| < 3 then |tokens| else 3;
    names, rest, more := SplitText(tokens[n..]);
    before := tokens[..n];
    assert tokens == before + (Statements(names) + rest) == before + Statements(names) + rest;
    if n < 3 && name != MAIN_NAME {
      assert tokens[n..] == [];
    }
    if name == MAIN_NAME {
      assert before == [] && [] + Statements(names) + rest == Statements(names) + rest;
    }
  }

  lemma ResolvesText(program: Program, name: string)
    ensures Resolves(program, name) <==> GoodText(program, name)
  {
    if GoodText(program, name) {
      var before, names, rest :| FileText(program, name, before, names, rest) && NoImport(rest)
        && !(name == MAIN_NAME && names == [] && rest != [] && rest[0] == ModuleKeyword);
      ImportsOfText(program, name, before, names, rest);
    }
    if Resolves(program, name) {
      var before, names, rest, more := HasText(program, name);
      if NoImport(rest) {
        ImportsOfText(program, name, before, names, rest);
      } else {
        MalformedImport(program, name, before, names, rest, more);
      }
    }
  }
}
