/**
  How `decode` joins its tokens before normalising whitespace: tokens are
  concatenated in order, with one space before a token exactly when it and
  the token before it both contain a word character (an unanchored
  `token.match(/\w/)`, so "contains", not "starts with").
*/
module Reassembly {
  import opened JsText
  import opened Splitter

  /** `token.match(/\w/)` succeeds. */
  predicate HasWordChar(s: string) {
    exists i :: 0 <= i < |s| && IsWordChar(s[i])
  }

  /** What goes between `prev` and `next`. */
  function Separator(prev: string, next: string): string {
    if HasWordChar(prev) && HasWordChar(next) then " " else ""
  }

  /** The tokens joined by the decode loop. */
  function Glue(tokens: seq<string>): string
    decreases |tokens|
  {
    if |tokens| == 0 then ""
    else if |tokens| == 1 then tokens[0]
    else tokens[0] + Separator(tokens[0], tokens[1]) + Glue(tokens[1..])
  }

  /** Appending token i to the text joined so far: a space first exactly when it and token i-1 both hold a word character. */
  lemma {:induction false} GlueSnoc(tokens: seq<string>, t: string)
    ensures Glue(tokens + [t]) ==
      Glue(tokens) + (if 0 < |tokens| then Separator(tokens[|tokens| - 1], t) else "") + t
    decreases |tokens|
  {
    if |tokens| == 1 {
      assert tokens + [t] == [tokens[0], t];
      assert [tokens[0], t][1..] == [t];
    } else if |tokens| > 1 {
      var rest := tokens[1..];
      assert (tokens + [t])[1..] == rest + [t];
      GlueSnoc(rest, t);
      assert rest[|rest| - 1] == tokens[|tokens| - 1];
    }
  }

  /** The decode loop's step at position `i`, in the loop's own terms. */
  lemma GluePrefixStep(tokens: seq<string>, i: nat)
    requires i < |tokens|
    ensures Glue(tokens[..i + 1]) ==
      Glue(tokens[..i]) + (if i > 0 && HasWordChar(tokens[i]) && HasWordChar(tokens[i - 1]) then " " else "") + tokens[i]
  {
    assert tokens[..i + 1] == tokens[..i] + [tokens[i]];
    GlueSnoc(tokens[..i], tokens[i]);
  }

  /** The decode loop: appends each token, after one space when it and the token before it both contain a word character. */
  method Join(tokens: seq<string>) returns (result: string)
    ensures result == Glue(tokens)
  {
    result := "";
    var index := 0;
    while index < |tokens|
      invariant 0 <= index <= |tokens|
      invariant result == Glue(tokens[..index])
    {
      var token := tokens[index];
      GluePrefixStep(tokens, index);
      if index > 0 && HasWordChar(token) && HasWordChar(tokens[index - 1]) {
        result := result + " ";
      }
      result := result + token;
      index := index + 1;
    }
    assert tokens[..index] == tokens;
  }

  /** Putting whitespace between a token and the rest changes only whitespace. */
  lemma ContentStep(u: string, sep: string, g: string, f: string)
    requires NonSpace(sep) == [] && NonSpace(g) == NonSpace(f)
    ensures NonSpace(u + sep + g) == NonSpace(u + f)
  {
    NonSpaceAppend(u + sep, g);
    NonSpaceAppend(u, sep);
    NonSpaceAppend(u, f);
    assert NonSpace(u) + [] == NonSpace(u);
  }

  /** Joining adds only whitespace: the tokens' own characters survive, in order. */
  lemma {:induction false} GlueKeepsContent(tokens: seq<string>)
    ensures NonSpace(Glue(tokens)) == NonSpace(Flatten(tokens))
    decreases |tokens|
  {
    if |tokens| == 1 {
      assert Flatten(tokens) == tokens[0] + Flatten([]);
      assert tokens[0] + "" == tokens[0];
    } else if |tokens| > 1 {
      var u, rest := tokens[0], tokens[1..];
      var sep := Separator(u, rest[0]);
      assert NonSpace(sep) == [] by {
        if sep == " " { assert NonSpace(sep) == [] + NonSpace(sep[1..]); }
      }
      GlueKeepsContent(rest);
      ContentStep(u, sep, Glue(rest), Flatten(rest));
      assert Glue(tokens) == u + sep + Glue(rest);
      assert Flatten(tokens) == u + Flatten(rest);
    }
  }

  lemma WordRunHasWordChar(u: string)
    requires IsUnit(u)
    ensures HasWordChar(u) <==> IsWordRun(u)
  {
    if IsWordRun(u) {
      assert IsWordChar(u[0]);
    }
  }

  /** A unit holds no whitespace. */
  lemma UnitHasNoSpace(u: string)
    requires IsUnit(u)
    ensures NoSpace(u)
  {
  }

  /** A unit, at most one space, then normal text starting with a non-space: still normal. */
  lemma JoinIsNormal(u: string, sep: string, g: string)
    requires 0 < |u| && NoSpace(u) && NoUpper(u)
    requires sep == "" || sep == " "
    requires 0 < |g| && IsNormal(g) && NoUpper(g)
    ensures IsNormal(u + sep + g) && NoUpper(u + sep + g)
  {
    var s := u + sep + g;
    forall i | 0 <= i < |s|
      ensures !IsUpper(s[i])
      ensures IsSpace(s[i]) ==> s[i] == ' ' && (i + 1 == |s| || !IsSpace(s[i + 1]))
    {
      if i < |u| {
        assert s[i] == u[i];
      } else if i < |u| + |sep| {
        assert s[i] == ' ' && s[i + 1] == g[0];
      } else {
        assert s[i] == g[i - |u| - |sep|];
        if i + 1 < |s| {
          assert s[i + 1] == g[i + 1 - |u| - |sep|];
        }
      }
    }
    assert s[0] == u[0];
    assert s[|s| - 1] == g[|g| - 1];
  }

  /** Joined units start with the first unit's first character, keep no uppercase and are already whitespace-normal. */
  lemma {:induction false} GlueOfUnitsIsNormal(tokens: seq<string>)
    requires forall k :: 0 <= k < |tokens| ==> IsLowerUnit(tokens[k])
    ensures |tokens| > 0 ==> |tokens[0]| > 0 && |Glue(tokens)| > 0 && Glue(tokens)[0] == tokens[0][0]
    ensures IsNormal(Glue(tokens)) && NoUpper(Glue(tokens))
    decreases |tokens|
  {
    if |tokens| == 1 {
      UnitHasNoSpace(tokens[0]);
    } else if |tokens| > 1 {
      var u, rest := tokens[0], tokens[1..];
      assert IsLowerUnit(u);
      UnitHasNoSpace(u);
      GlueOfUnitsIsNormal(rest);
      var sep, g := Separator(u, rest[0]), Glue(rest);
      assert Glue(tokens) == u + sep + g;
      JoinIsNormal(u, sep, g);
    }
  }

  /** A unit followed by what the decode rule puts after it splits off as that unit. */
  lemma ScanJoinStep(u: string, next: string, g: string)
    requires IsUnit(u) && IsUnit(next)
    requires 0 < |g| && g[0] == next[0]
    ensures Scan(u + Separator(u, next) + g) == [u] + Scan(g)
  {
    var sep := Separator(u, next);
    assert u + sep + g == u + (sep + g);
    WordRunHasWordChar(u);
    WordRunHasWordChar(next);
    assert Scan(sep + g) == Scan(g) by {
      if sep == " " { ScanSpace(' ', g); } else { assert sep + g == g; }
    }
    assert Scan(u + (sep + g)) == [u] + Scan(sep + g) by {
      if IsWordRun(u) {
        assert sep + g == [] || !IsWordChar((sep + g)[0]);
        ScanWordRun(u, sep + g);
      } else {
        ScanSymbol(u, sep + g);
      }
    }
  }

  /** Splitting the joined units gives the units back: the joining puts a space exactly where two word runs would otherwise merge. */
  lemma {:induction false} ScanGlue(tokens: seq<string>)
    requires forall k :: 0 <= k < |tokens| ==> IsLowerUnit(tokens[k])
    ensures Scan(Glue(tokens)) == tokens
    decreases |tokens|
  {
    if |tokens| == 1 {
      var u := tokens[0];
      assert u + [] == u;
      if IsWordRun(u) { ScanWordRun(u, []); } else { ScanSymbol(u, []); }
    } else if |tokens| > 1 {
      var u, rest := tokens[0], tokens[1..];
      assert IsLowerUnit(u) && IsLowerUnit(rest[0]);
      GlueOfUnitsIsNormal(rest);
      ScanGlue(rest);
      ScanJoinStep(u, rest[0], Glue(rest));
      assert Glue(tokens) == u + Separator(u, rest[0]) + Glue(rest);
    }
  }

  /** The units of a text, joined by the decode rule, hold the lowercased text's characters other than whitespace. */
  lemma GlueUnitsKeepsContent(text: string)
    ensures NonSpace(Glue(Units(text))) == NonSpace(ToLower(text))
  {
    GlueKeepsContent(Units(text));
    ScanKeepsContent(ToLower(text));
    NoSpaceContent(NonSpace(ToLower(text)));
  }
}
