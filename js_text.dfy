/**
  The pieces of the JavaScript string library that the tokenizer relies on:
  the regular-expression classes `\s` and `\w` (without the `u` flag),
  `toLowerCase` restricted to ASCII, the text of an integer-valued number in
  a template literal, and `replace(/\s+/g, " ").trim()`.
*/
module JsText {

  /** `\s`: the ECMAScript WhiteSpace and LineTerminator code points; `trim` strips the same set. */
  predicate IsSpace(c: char) {
    var n := c as int;
    n == 0x09 || n == 0x0A || n == 0x0B || n == 0x0C || n == 0x0D || n == 0x20 ||
    n == 0xA0 || n == 0x1680 || (0x2000 <= n <= 0x200A) || n == 0x2028 || n == 0x2029 ||
    n == 0x202F || n == 0x205F || n == 0x3000 || n == 0xFEFF
  }

  /** `\w` without the `u` flag: `[A-Za-z0-9_]`. */
  predicate IsWordChar(c: char) {
    ('a' <= c <= 'z') || ('A' <= c <= 'Z') || ('0' <= c <= '9') || c == '_'
  }

  predicate IsUpper(c: char) {
    'A' <= c <= 'Z'
  }

  predicate NoUpper(s: string) {
    forall i :: 0 <= i < |s| ==> !IsUpper(s[i])
  }

  predicate NoSpace(s: string) {
    forall i :: 0 <= i < |s| ==> !IsSpace(s[i])
  }

  function LowerChar(c: char): char {
    if IsUpper(c) then (c as int + 32) as char else c
  }

  /** `toLowerCase`, on the ASCII letters. */
  function ToLower(s: string): (r: string)
    ensures |r| == |s| && NoUpper(r)
    ensures forall i :: 0 <= i < |s| ==>
      IsSpace(r[i]) == IsSpace(s[i]) && IsWordChar(r[i]) == IsWordChar(s[i])
    ensures forall i :: 0 <= i < |s| && !IsUpper(s[i]) ==> r[i] == s[i]
    ensures forall i :: 0 <= i < |s| && IsUpper(s[i]) ==> r[i] as int == s[i] as int + 32
    ensures NoUpper(s) ==> r == s
  {
    seq(|s|, i requires 0 <= i < |s| => LowerChar(s[i]))
  }

  // ---------------------------------------------------------------------
  // Decimal text of an integer, as `${id}` renders an integer-valued number

  predicate IsDigits(s: string) {
    forall i :: 0 <= i < |s| ==> '0' <= s[i] <= '9'
  }

  function DigitChar(d: int): (c: char)
    requires 0 <= d < 10
    ensures '0' <= c <= '9' && c as int - '0' as int == d
  {
    ('0' as int + d) as char
  }

  /** Decimal digits of `n`, most significant first, without leading zeros. */
  function NatToDecimal(n: nat): (r: string)
    ensures 0 < |r| && IsDigits(r)
    ensures r[0] == '0' <==> n == 0
    ensures n == 0 ==> r == "0"
    decreases n
  {
    if n < 10 then [DigitChar(n)] else NatToDecimal(n / 10) + [DigitChar(n % 10)]
  }

  /** The number a string of decimal digits denotes. */
  function DigitsValue(s: string): nat
    requires IsDigits(s)
  {
    if s == [] then 0 else 10 * DigitsValue(s[..|s| - 1]) + (s[|s| - 1] as int - '0' as int)
  }

  lemma {:induction false} DecimalRoundTrip(n: nat)
    ensures DigitsValue(NatToDecimal(n)) == n
  {
    if n >= 10 {
      var r := NatToDecimal(n);
      assert r[..|r| - 1] == NatToDecimal(n / 10);
      DecimalRoundTrip(n / 10);
    }
  }

  /** The text of an integer-valued JavaScript number: a minus sign for negatives, then its digits. */
  function IntToString(n: int): (r: string)
    ensures 0 < |r| && NoSpace(r) && NoUpper(r)
    ensures (r[0] == '-') <==> n < 0
    ensures n < 0 ==> IsDigits(r[1..]) && |r| > 1
    ensures n >= 0 ==> IsDigits(r)
    ensures n >= 0 ==> (r[0] == '0' <==> n == 0)
    ensures n == 0 ==> r == "0"
    ensures n < 0 ==> r[1] != '0'
  {
    if n < 0 then "-" + NatToDecimal(-n) else NatToDecimal(n)
  }

  predicate IsIntegerText(s: string) {
    (0 < |s| && s[0] == '-' && IsDigits(s[1..])) || IsDigits(s)
  }

  function ParseInteger(s: string): int
    requires IsIntegerText(s)
  {
    if 0 < |s| && s[0] == '-' then -(DigitsValue(s[1..]) as int) else DigitsValue(s)
  }

  lemma IntToStringRoundTrip(n: int)
    ensures IsIntegerText(IntToString(n)) && ParseInteger(IntToString(n)) == n
  {
    var r := IntToString(n);
    if n < 0 {
      assert r[1..] == NatToDecimal(-n);
      DecimalRoundTrip(-n);
    } else {
      DecimalRoundTrip(n);
    }
  }

  // ---------------------------------------------------------------------
  // replace(/\s+/g, " ").trim()

  /** The characters of `s` that are not whitespace, in order. */
  function NonSpace(s: string): (r: string)
    ensures NoSpace(r)
  {
    if s == [] then [] else (if IsSpace(s[0]) then [] else [s[0]]) + NonSpace(s[1..])
  }

  lemma {:induction false} NonSpaceAppend(a: string, b: string)
    ensures NonSpace(a + b) == NonSpace(a) + NonSpace(b)
  {
    if a != [] {
      assert (a + b)[1..] == a[1..] + b;
      NonSpaceAppend(a[1..], b);
    } else {
      assert a + b == b;
    }
  }

  /** Every whitespace character is a plain space and the next character is not whitespace. */
  predicate SingleSpaced(s: string) {
    forall i :: 0 <= i < |s| && IsSpace(s[i]) ==> s[i] == ' ' && (i + 1 == |s| || !IsSpace(s[i + 1]))
  }

  /** What `replace(/\s+/g, " ").trim()` always returns: no whitespace at either end, single spaces inside. */
  predicate IsNormal(s: string) {
    (0 < |s| ==> !IsSpace(s[0]) && !IsSpace(s[|s| - 1])) && SingleSpaced(s)
  }

  /** Leading whitespace removed (the front half of `trim`). */
  function TrimStart(s: string): (r: string)
    ensures |r| <= |s| && r == s[|s| - |r|..]
    ensures forall i :: 0 <= i < |s| - |r| ==> IsSpace(s[i])
    ensures r == [] || !IsSpace(r[0])
  {
    if s != [] && IsSpace(s[0]) then TrimStart(s[1..]) else s
  }

  /** Trailing whitespace removed (the back half of `trim`). */
  function TrimEnd(s: string): (r: string)
    ensures |r| <= |s| && r == s[..|r|]
    ensures forall i :: |r| <= i < |s| ==> IsSpace(s[i])
    ensures r == [] || !IsSpace(r[|r| - 1])
  {
    if s != [] && IsSpace(s[|s| - 1]) then TrimEnd(s[..|s| - 1]) else s
  }

  /** Any slice of single-spaced text is single-spaced. */
  lemma SingleSpacedSlice(s: string, k: nat, m: nat)
    requires k <= m <= |s| && SingleSpaced(s)
    ensures SingleSpaced(s[k..m])
  {
    var b := s[k..m];
    forall i | 0 <= i < |b| && IsSpace(b[i])
      ensures b[i] == ' ' && (i + 1 == |b| || !IsSpace(b[i + 1]))
    {
      assert b[i] == s[k + i];
      if i + 1 < |b| {
        assert b[i + 1] == s[k + i + 1];
      }
    }
  }

  /** Removing leading whitespace keeps every other character. */
  lemma {:induction false} TrimStartKeeps(s: string)
    ensures NonSpace(TrimStart(s)) == NonSpace(s)
    decreases |s|
  {
    if s != [] && IsSpace(s[0]) {
      TrimStartKeeps(s[1..]);
    }
  }

  /** Removing whitespace at either end keeps single spacing. */
  lemma TrimKeepsSingleSpaced(s: string)
    requires SingleSpaced(s)
    ensures SingleSpaced(TrimStart(s)) && SingleSpaced(TrimEnd(s))
  {
    assert SingleSpaced(TrimStart(s)) by {
      var r := TrimStart(s);
      SingleSpacedSlice(s, |s| - |r|, |s|);
      assert s[|s| - |r|..|s|] == r;
    }
    assert SingleSpaced(TrimEnd(s)) by {
      var q := TrimEnd(s);
      SingleSpacedSlice(s, 0, |q|);
      assert s[0..|q|] == q;
    }
  }

  /** Removing trailing whitespace keeps every other character. */
  lemma {:induction false} TrimEndKeeps(s: string)
    ensures NonSpace(TrimEnd(s)) == NonSpace(s)
    decreases |s|
  {
    if s != [] && IsSpace(s[|s| - 1]) {
      var init := s[..|s| - 1];
      TrimEndKeeps(init);
      assert s == init + [s[|s| - 1]];
      NonSpaceAppend(init, [s[|s| - 1]]);
      assert NonSpace([s[|s| - 1]]) == [];
    }
  }

  lemma NonSpaceCons(c: char, t: string)
    ensures NonSpace([c] + t) == (if IsSpace(c) then [] else [c]) + NonSpace(t)
  {
    assert ([c] + t)[1..] == t;
  }

  /** A character put in front of single-spaced text keeps it single-spaced, unless two whitespace characters meet. */
  lemma SingleSpacedCons(c: char, t: string)
    requires SingleSpaced(t)
    requires IsSpace(c) ==> c == ' ' && (t == [] || !IsSpace(t[0]))
    ensures SingleSpaced([c] + t)
  {
    var r := [c] + t;
    forall i | 0 <= i < |r| && IsSpace(r[i])
      ensures r[i] == ' ' && (i + 1 == |r| || !IsSpace(r[i + 1]))
    {
      if 0 < i {
        assert r[i] == t[i - 1];
        if i + 1 < |r| {
          assert r[i + 1] == t[i];
        }
      }
    }
  }

  /** `replace(/\s+/g, " ")`: every maximal run of whitespace becomes one space. */
  function CollapseSpaces(s: string): (r: string)
    ensures SingleSpaced(r)
    ensures NonSpace(r) == NonSpace(s)
    ensures r == [] <==> s == []
    ensures s != [] ==> (IsSpace(r[0]) <==> IsSpace(s[0]))
    decreases |s|
  {
    if s == [] then []
    else
      var tail := s[1..];
      assert s == [s[0]] + tail;
      if IsSpace(s[0]) then
        var rest := TrimStart(tail);
        var t := CollapseSpaces(rest);
        TrimStartKeeps(tail);
        SingleSpacedCons(' ', t);
        NonSpaceCons(' ', t);
        NonSpaceCons(s[0], tail);
        [' '] + t
      else
        var t := CollapseSpaces(tail);
        SingleSpacedCons(s[0], t);
        NonSpaceCons(s[0], t);
        NonSpaceCons(s[0], tail);
        [s[0]] + t
  }

  lemma {:induction false} CollapseIdentity(s: string)
    requires SingleSpaced(s)
    ensures CollapseSpaces(s) == s
    decreases |s|
  {
    if s != [] {
      var tail := s[1..];
      SingleSpacedSlice(s, 1, |s|);
      assert s[1..|s|] == tail;
      if IsSpace(s[0]) {
        assert TrimStart(tail) == tail;
      }
      CollapseIdentity(tail);
    }
  }

  /** The whitespace trimmed from the front of `x + y`: that of `x`, and of `y` too once `x` is all whitespace. */
  lemma {:induction false} TrimStartAppend(x: string, y: string)
    ensures TrimStart(x) != [] ==> TrimStart(x + y) == TrimStart(x) + y
    ensures TrimStart(x) == [] ==> TrimStart(x + y) == TrimStart(y)
    decreases |x|
  {
    if x == [] {
      assert x + y == y;
    } else {
      assert (x + y)[1..] == x[1..] + y;
      if IsSpace(x[0]) {
        TrimStartAppend(x[1..], y);
      }
    }
  }

  /** Text whose front trim leaves nothing is all whitespace. */
  lemma TrimStartEmpty(x: string)
    requires TrimStart(x) == []
    ensures forall i :: 0 <= i < |x| ==> IsSpace(x[i])
  {
  }

  /** A non-empty run of whitespace becomes exactly one space. */
  lemma CollapseWhitespaceRun(w: string)
    requires 0 < |w| && forall i :: 0 <= i < |w| ==> IsSpace(w[i])
    ensures CollapseSpaces(w) == " "
  {
  }

  /** A character that is not whitespace is kept as it is. */
  lemma CollapseNonSpaceChar(c: char)
    requires !IsSpace(c)
    ensures CollapseSpaces([c]) == [c]
  {
  }

  /** Collapsing `a + b` when `a` starts with whitespace: one space, then the collapse of what follows the run. */
  lemma CollapseSpaceStep(a: string, b: string)
    requires 0 < |a| && IsSpace(a[0])
    ensures CollapseSpaces(a) == [' '] + CollapseSpaces(TrimStart(a[1..]))
    ensures CollapseSpaces(a + b) == [' '] + CollapseSpaces(TrimStart(a[1..] + b))
  {
    assert (a + b)[1..] == a[1..] + b;
  }

  /** Collapsing `a + b` when `a` starts with another character: that character, then the collapse of the rest. */
  lemma CollapseCharStep(a: string, b: string)
    requires 0 < |a| && !IsSpace(a[0])
    ensures CollapseSpaces(a) == [a[0]] + CollapseSpaces(a[1..])
    ensures CollapseSpaces(a + b) == [a[0]] + CollapseSpaces(a[1..] + b)
  {
    assert (a + b)[1..] == a[1..] + b;
  }

  /** Associativity of concatenation, proved apart from the collapse facts that would otherwise crowd it. */
  lemma ConcatAssoc(p: string, x: string, y: string)
    ensures p + (x + y) == (p + x) + y
  {
  }

  /** Where whitespace runs of `a` and `b` would meet. */
  predicate Cuttable(a: string, b: string) {
    a == [] || b == [] || !IsSpace(a[|a| - 1]) || !IsSpace(b[0])
  }

  /** Text that does not start with whitespace is its own front trim. */
  lemma TrimStartNoLead(b: string)
    requires b == [] || !IsSpace(b[0])
    ensures TrimStart(b) == b
  {
  }

  /** The two ways a run at the front of `a` ends, for a cut that keeps runs whole. */
  lemma CutAfterRun(a: string, b: string)
    requires 0 < |a| && IsSpace(a[0]) && Cuttable(a, b)
    ensures TrimStart(a[1..]) == [] ==> TrimStart(b) == b
    ensures TrimStart(a[1..]) != [] ==> Cuttable(TrimStart(a[1..]), b)
  {
    var tail := a[1..];
    var rest := TrimStart(tail);
    if rest == [] {
      assert IsSpace(a[|a| - 1]) by {
        TrimStartEmpty(tail);
        if 0 < |tail| { assert a[|a| - 1] == tail[|tail| - 1]; } else { assert a[|a| - 1] == a[0]; }
      }
      TrimStartNoLead(b);
    } else {
      assert rest[|rest| - 1] == a[|a| - 1];
    }
  }

  /** The step of `CollapseAppend` for `a` starting with whitespace, given the step for what follows the run. */
  lemma CollapseAppendSpace(a: string, b: string)
    requires 0 < |a| && IsSpace(a[0]) && Cuttable(a, b)
    requires TrimStart(a[1..]) != [] ==>
      CollapseSpaces(TrimStart(a[1..]) + b) == CollapseSpaces(TrimStart(a[1..])) + CollapseSpaces(b)
    ensures CollapseSpaces(a + b) == CollapseSpaces(a) + CollapseSpaces(b)
  {
    var rest := TrimStart(a[1..]);
    CollapseSpaceStep(a, b);
    TrimStartAppend(a[1..], b);
    CutAfterRun(a, b);
    if rest != [] {
      ConcatAssoc([' '], CollapseSpaces(rest), CollapseSpaces(b));
    } else {
      assert CollapseSpaces(a) == [' '];
    }
  }

  /** The step of `CollapseAppend` for `a` starting with another character, given the step for the rest of `a`. */
  lemma CollapseAppendChar(a: string, b: string)
    requires 0 < |a| && !IsSpace(a[0])
    requires CollapseSpaces(a[1..] + b) == CollapseSpaces(a[1..]) + CollapseSpaces(b)
    ensures CollapseSpaces(a + b) == CollapseSpaces(a) + CollapseSpaces(b)
  {
    CollapseCharStep(a, b);
    ConcatAssoc([a[0]], CollapseSpaces(a[1..]), CollapseSpaces(b));
  }

  /**
    Collapsing works piece by piece on text cut anywhere but inside a
    whitespace run; with the two lemmas above this fixes the result on every
    input.
  */
  lemma {:induction false} CollapseAppend(a: string, b: string)
    requires Cuttable(a, b)
    ensures CollapseSpaces(a + b) == CollapseSpaces(a) + CollapseSpaces(b)
    decreases |a|
  {
    if a == [] {
      assert a + b == b;
      assert CollapseSpaces(a) == [];
    } else if IsSpace(a[0]) {
      CutAfterRun(a, b);
      var rest := TrimStart(a[1..]);
      if rest != [] {
        CollapseAppend(rest, b);
      }
      CollapseAppendSpace(a, b);
    } else {
      assert Cuttable(a[1..], b) by {
        if a[1..] != [] { assert a[1..][|a| - 2] == a[|a| - 1]; }
      }
      CollapseAppend(a[1..], b);
      CollapseAppendChar(a, b);
    }
  }

  /** `text.replace(/\s+/g, " ").trim()`: no whitespace at either end, single spaces inside, every other character kept in order. */
  function Normalize(s: string): (r: string)
    ensures IsNormal(r)
    ensures NonSpace(r) == NonSpace(s)
  {
    var c := CollapseSpaces(s);
    var t := TrimStart(c);
    var r := TrimEnd(t);
    assert NonSpace(r) == NonSpace(s) by {
      TrimStartKeeps(c);
      TrimEndKeeps(t);
    }
    assert SingleSpaced(r) by {
      TrimKeepsSingleSpaced(c);
      TrimKeepsSingleSpaced(t);
    }
    assert r != [] ==> !IsSpace(r[0]) by {
      if r != [] {
        assert r[0] == t[0];
      }
    }
    r
  }

  /** A whitespace run between two other characters becomes one space, not nothing. */
  lemma NormalizeRun(x: char, w: string, y: char)
    requires !IsSpace(x) && !IsSpace(y)
    requires 0 < |w| && forall i :: 0 <= i < |w| ==> IsSpace(w[i])
    ensures Normalize([x] + w + [y]) == [x, ' ', y]
  {
    assert CollapseSpaces(w + [y]) == " " + [y] by {
      CollapseAppend(w, [y]);
      CollapseWhitespaceRun(w);
      CollapseNonSpaceChar(y);
    }
    assert CollapseSpaces([x] + w + [y]) == [x, ' ', y] by {
      assert [x] + w + [y] == [x] + (w + [y]);
      CollapseAppend([x], w + [y]);
      CollapseNonSpaceChar(x);
    }
  }

  lemma NormalizeIdentity(s: string)
    requires IsNormal(s)
    ensures Normalize(s) == s
  {
    CollapseIdentity(s);
  }

  lemma NormalizeIdempotent(s: string)
    ensures Normalize(Normalize(s)) == Normalize(s)
  {
    NormalizeIdentity(Normalize(s));
  }
}
