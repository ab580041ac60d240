/** The mutable containers of the preprocessor. */
module TokenArrays {
  import opened MacroExpansion

  /** A growing token array. */
  class TokenArray {
    var items: seq<Token>

    constructor ()
      ensures items == []
    {
      items := [];
    }

    method Add(token: Token)
      modifies this
      ensures items == old(items) + [token]
    {
      items := items + [token];
    }
  }

  /** The grouping stack for parentheses, shared by everything. */
  class LexStack {
    var tokens: seq<Token>

    constructor ()
      ensures tokens == []
    {
      tokens := [];
    }

    method Push(token: Token)
      modifies this
      ensures tokens == old(tokens) + [token]
    {
      tokens := tokens + [token];
    }

    /** Popping an empty stack gives a blank token. */
    method Pop() returns (token: Token)
      modifies this
      ensures if old(tokens) == [] then tokens == [] && token.kind.OtherToken?
              else old(tokens) == tokens + [token]
    {
      if tokens == [] {
        return Token(OtherToken, "", 0, false);
      }
      token := tokens[|tokens| - 1];
      tokens := tokens[..|tokens| - 1];
    }
  }

  /** The token stream of one file. */
  class TokenStream {
    var tokens: seq<Token>

    constructor (tokens: seq<Token>)
      ensures this.tokens == tokens
    {
      this.tokens := tokens;
    }
  }

  lemma LastTokens(a: seq<Token>, x: Token, b: seq<Token>, y: Token)
    requires a + [x] == b + [y]
    ensures a == b && x == y
  {
    assert |a| == |b| && (a + [x])[..|a|] == a && (b + [y])[..|b|] == b;
    assert (a + [x])[|a|] == x && (b + [y])[|b|] == y;
  }

  /** The macro table, filled by one file after the other. */
  class MacroSymtab {
    var macros: MacroTable

    constructor ()
      ensures macros == map[]
    {
      macros := map[];
    }
  }
}
