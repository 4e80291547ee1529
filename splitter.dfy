/**
  The splitter shared by training and encoding: the text is lowercased and
  matched globally against `/(\w+|[^\s\w])/g`, which yields every maximal run
  of word characters and every single character that is neither whitespace
  nor a word character, left to right; no match yields the empty sequence.
*/
module Splitter {
  import opened JsText

  /** A match of the `\w+` alternative. */
  predicate IsWordRun(u: string) {
    0 < |u| && forall i :: 0 <= i < |u| ==> IsWordChar(u[i])
  }

  /** A match of the `[^\s\w]` alternative. */
  predicate IsSymbol(u: string) {
    |u| == 1 && !IsSpace(u[0]) && !IsWordChar(u[0])
  }

  predicate IsUnit(u: string) {
    IsWordRun(u) || IsSymbol(u)
  }

  /** A unit as training stores it: a match on lowercased text. */
  predicate IsLowerUnit(u: string) {
    IsUnit(u) && NoUpper(u)
  }

  /** The length of the longest prefix of `s` made of word characters: how far `\w+` reaches. */
  function WordRunLength(s: string): (n: nat)
    ensures n <= |s|
    ensures forall i :: 0 <= i < n ==> IsWordChar(s[i])
    ensures n < |s| ==> !IsWordChar(s[n])
  {
    if s == [] || !IsWordChar(s[0]) then 0 else 1 + WordRunLength(s[1..])
  }

  /** `s.match(/(\w+|[^\s\w])/g) || []` */
  function Scan(s: string): (r: seq<string>)
    ensures forall k :: 0 <= k < |r| ==> IsUnit(r[k])
    ensures NoUpper(s) ==> forall k :: 0 <= k < |r| ==> NoUpper(r[k])
    decreases |s|
  {
    if s == [] then []
    else if IsSpace(s[0]) then Scan(s[1..])
    else if IsWordChar(s[0]) then
      var n := WordRunLength(s);
      [s[..n]] + Scan(s[n..])
    else [s[..1]] + Scan(s[1..])
  }

  /** The units of a text, as `train` and `encode` obtain them. */
  function Units(text: string): (r: seq<string>)
    ensures forall k :: 0 <= k < |r| ==> IsLowerUnit(r[k])
  {
    Scan(ToLower(text))
  }

  /** The units laid end to end. */
  function Flatten(units: seq<string>): string {
    if units == [] then "" else units[0] + Flatten(units[1..])
  }

  /** The units hold every character of the text that is not whitespace, in order, and nothing else. */
  lemma {:induction false} ScanKeepsContent(s: string)
    ensures Flatten(Scan(s)) == NonSpace(s)
    decreases |s|
  {
    if s != [] {
      if IsSpace(s[0]) {
        ScanKeepsContent(s[1..]);
      } else {
        var n := if IsWordChar(s[0]) then WordRunLength(s) else 1;
        assert s == s[..n] + s[n..];
        NonSpaceAppend(s[..n], s[n..]);
        NoSpaceContent(s[..n]);
        ScanKeepsContent(s[n..]);
      }
    }
  }

  lemma {:induction false} NoSpaceContent(s: string)
    requires NoSpace(s)
    ensures NonSpace(s) == s
  {
    if s != [] {
      NoSpaceContent(s[1..]);
    }
  }

  lemma {:induction false} WordRunLengthOfRun(u: string, t: string)
    requires IsWordRun(u)
    requires t == [] || !IsWordChar(t[0])
    ensures WordRunLength(u + t) == |u|
    decreases |u|
  {
    assert (u + t)[1..] == u[1..] + t;
    if |u| > 1 {
      WordRunLengthOfRun(u[1..], t);
    } else {
      assert u[1..] + t == t;
    }
  }

  /** Maximality of `\w+`: a run of word characters not followed by one is matched whole. */
  lemma ScanWordRun(u: string, t: string)
    requires IsWordRun(u)
    requires t == [] || !IsWordChar(t[0])
    ensures Scan(u + t) == [u] + Scan(t)
  {
    WordRunLengthOfRun(u, t);
    assert (u + t)[..|u|] == u;
    assert (u + t)[|u|..] == t;
  }

  /** A character that is neither whitespace nor a word character is matched on its own. */
  lemma ScanSymbol(u: string, t: string)
    requires IsSymbol(u)
    ensures Scan(u + t) == [u] + Scan(t)
  {
    assert (u + t)[..1] == u;
    assert (u + t)[1..] == t;
  }

  /** Whitespace only separates matches. */
  lemma ScanSpace(c: char, t: string)
    requires IsSpace(c)
    ensures Scan([c] + t) == Scan(t)
  {
    assert ([c] + t)[1..] == t;
  }

  /** A word run, a space, then a lowercase text: the run is one unit and the space is dropped. */
  lemma ScanWordSpace(w: string, t: string)
    requires IsWordRun(w) && NoUpper(w) && NoUpper(t)
    ensures Scan(w + " " + t) == [w] + Scan(t)
    ensures NoUpper(w + " " + t)
  {
    assert w + " " + t == w + ([' '] + t);
    ScanWordRun(w, [' '] + t);
    ScanSpace(' ', t);
  }

  /** For instance, "x x y" for lowercase words x and y has the units x, x, y. */
  lemma UnitsExample(a: string, b: string)
    requires IsWordRun(a) && IsWordRun(b) && NoUpper(a) && NoUpper(b)
    ensures Units(a + " " + a + " " + b) == [a, a, b]
  {
    var s2 := a + " " + b;
    var text := a + " " + s2;
    assert text == a + " " + a + " " + b;
    assert Scan(b) == [b] by { ScanWordRun(b, []); assert b + [] == b; }
    assert Scan(s2) == [a, b] && NoUpper(s2) by { ScanWordSpace(a, b); }
    assert Scan(text) == [a, a, b] && NoUpper(text) by { ScanWordSpace(a, s2); }
  }
}
