/**
  The tokenizer's vocabulary as a value — the two maps and the next id — with
  the invariants training establishes, the helpers of `train` that do not
  touch the tokenizer's fields (counting and the frequency sort), and the
  functions that specify `encode` and `decode` on a given vocabulary.
*/
module Vocabulary {
  import opened JsText
  import opened Splitter
  import opened Reassembly

  /** The special tokens in id order: the special token with id k is SpecialTokens[k]. */
  const SpecialTokens: seq<string> := ["<unk>", "<pad>", "<cls>", "<sep>"]

  /** The id `encode` substitutes for a unit it does not know: that of `<unk>`. */
  const UnkId: int := 0

  datatype Vocab = Vocab(tokenToId: map<string, int>, idToToken: map<int, string>, nextId: int)

  /** The two maps are mutual inverses. */
  ghost predicate Inverse(v: Vocab) {
    && (forall t :: t in v.tokenToId ==> v.tokenToId[t] in v.idToToken && v.idToToken[v.tokenToId[t]] == t)
    && (forall i :: i in v.idToToken ==> v.idToToken[i] in v.tokenToId && v.tokenToId[v.idToToken[i]] == i)
  }

  /** The assigned ids are exactly 0 .. nextId - 1. */
  ghost predicate Dense(v: Vocab) {
    forall i :: i in v.idToToken <==> 0 <= i < v.nextId
  }

  /** Ids 0 to 3 are `<unk>`, `<pad>`, `<cls>`, `<sep>`. */
  ghost predicate SpecialsFixed(v: Vocab) {
    forall k :: 0 <= k < |SpecialTokens| ==> k in v.idToToken && v.idToToken[k] == SpecialTokens[k]
  }

  /** Every other token was learned from lowercased text, so it is a unit with no uppercase letter. */
  ghost predicate LearnedAreUnits(v: Vocab) {
    forall i :: i in v.idToToken && i >= |SpecialTokens| ==> IsLowerUnit(v.idToToken[i])
  }

  /** The vocabulary as `train` leaves it, whatever the corpus. */
  ghost predicate Trained(v: Vocab) {
    Inverse(v) && Dense(v) && SpecialsFixed(v) && LearnedAreUnits(v)
  }

  /** The vocabulary before any `train`. */
  predicate Untrained(v: Vocab) {
    v.tokenToId == map[] && v.idToToken == map[] && v.nextId == 0
  }

  /** A unit that occurs strictly more often in `units` than another gets the smaller id. */
  ghost predicate FrequencyOrdered(v: Vocab, units: seq<string>) {
    forall a, b ::
      (a in v.tokenToId && b in v.tokenToId && a !in SpecialTokens && b !in SpecialTokens &&
       multiset(units)[a] > multiset(units)[b]) ==> v.tokenToId[a] < v.tokenToId[b]
  }

  /** The distinct strings of `s` that are not special tokens. */
  function NonSpecial(s: seq<string>): set<string> {
    set t | t in s && t !in SpecialTokens
  }

  predicate Distinct(s: seq<string>) {
    forall p, q :: 0 <= p < q < |s| ==> s[p] != s[q]
  }

  /** No special token can come out of the splitter, because `<` and `>` are matched on their own. */
  lemma SpecialTokensAreNotUnits(u: string)
    requires u in SpecialTokens
    ensures !IsUnit(u)
  {
    assert u[0] == '<';
  }

  // ---------------------------------------------------------------------
  // Counting and ordering, as `train` does before it assigns ids

  /**
    The counting pass of `train`: `counts` maps each distinct unit to its number
    of occurrences, and `keys` lists the distinct units in the order the
    counting object first receives them.
  */
  method CountUnits(units: seq<string>) returns (counts: map<string, nat>, keys: seq<string>)
    ensures forall u :: u in counts <==> u in units
    ensures forall u :: u in counts ==> counts[u] == multiset(units)[u]
    ensures forall u :: u in keys <==> u in units
    ensures Distinct(keys)
  {
    counts, keys := map[], [];
    var i := 0;
    while i < |units|
      invariant 0 <= i <= |units|
      invariant forall u :: u in counts <==> u in units[..i]
      invariant forall u :: u in counts ==> counts[u] == multiset(units[..i])[u]
      invariant forall u :: u in keys <==> u in units[..i]
      invariant Distinct(keys)
    {
      var token := units[i];
      assert units[..i + 1] == units[..i] + [token];
      if token in counts {
        counts := counts[token := counts[token] + 1];
      } else {
        counts := counts[token := 1];
        keys := keys + [token];
      }
      i := i + 1;
    }
    assert units[..i] == units;
  }

  /** Non-increasing counts from left to right. */
  predicate SortedByCount(s: seq<string>, counts: map<string, nat>)
    requires forall t :: t in s ==> t in counts
  {
    forall p, q :: 0 <= p < q < |s| ==> counts[s[p]] >= counts[s[q]]
  }

  /**
    `Object.keys(tokenCounts).sort((a, b) => tokenCounts[b] - tokenCounts[a])`:
    the keys rearranged so that counts never increase.
  */
  method SortByCount(keys: seq<string>, counts: map<string, nat>) returns (sorted: seq<string>)
    requires forall t :: t in keys ==> t in counts
    ensures multiset(sorted) == multiset(keys)
    ensures forall t :: t in sorted ==> t in counts
    ensures SortedByCount(sorted, counts)
  {
    sorted := [];
    var i := 0;
    while i < |keys|
      invariant 0 <= i <= |keys|
      invariant multiset(sorted) == multiset(keys[..i])
      invariant forall t :: t in sorted ==> t in counts
      invariant SortedByCount(sorted, counts)
    {
      var x := keys[i];
      var j := InsertionPoint(sorted, x, counts);
      assert keys[..i + 1] == keys[..i] + [x];
      InsertKeepsSorted(sorted, j, x, counts);
      InsertAddsOne(sorted, j, x);
      sorted := sorted[..j] + [x] + sorted[j..];
      i := i + 1;
    }
    assert keys[..i] == keys;
  }

  /** Where the stable insertion puts `x`: after every key counted at least as often. */
  method InsertionPoint(sorted: seq<string>, x: string, counts: map<string, nat>) returns (j: nat)
    requires x in counts && forall t :: t in sorted ==> t in counts
    requires SortedByCount(sorted, counts)
    ensures j <= |sorted|
    ensures forall p :: 0 <= p < j ==> counts[sorted[p]] >= counts[x]
    ensures forall q :: j <= q < |sorted| ==> counts[sorted[q]] < counts[x]
  {
    j := 0;
    while j < |sorted| && counts[sorted[j]] >= counts[x]
      invariant 0 <= j <= |sorted|
      invariant forall p :: 0 <= p < j ==> counts[sorted[p]] >= counts[x]
    {
      j := j + 1;
    }
    if j < |sorted| {
      forall q | j <= q < |sorted| ensures counts[sorted[q]] < counts[x] {
        assert counts[sorted[j]] >= counts[sorted[q]];
      }
    }
  }

  /** Inserting `x` anywhere adds exactly one `x`. */
  lemma InsertAddsOne(s: seq<string>, j: nat, x: string)
    requires j <= |s|
    ensures multiset(s[..j] + [x] + s[j..]) == multiset(s) + multiset{x}
  {
    assert s == s[..j] + s[j..];
  }

  /** Putting `x` after every key counted at least as often and before every key counted less keeps the order. */
  lemma InsertKeepsSorted(sorted: seq<string>, j: nat, x: string, counts: map<string, nat>)
    requires j <= |sorted| && x in counts
    requires forall t :: t in sorted ==> t in counts
    requires SortedByCount(sorted, counts)
    requires forall p :: 0 <= p < j ==> counts[sorted[p]] >= counts[x]
    requires j < |sorted| ==> counts[sorted[j]] < counts[x]
    ensures forall t :: t in sorted[..j] + [x] + sorted[j..] ==> t in counts
    ensures SortedByCount(sorted[..j] + [x] + sorted[j..], counts)
  {
    var r := sorted[..j] + [x] + sorted[j..];
    assert forall t :: t in r ==> t in sorted || t == x;
    forall p, q | 0 <= p < q < |r| ensures counts[r[p]] >= counts[r[q]] {
      if q < j {
        assert r[p] == sorted[p] && r[q] == sorted[q];
      } else if q == j {
        assert r[p] == sorted[p] && r[q] == x;
      } else if p == j {
        assert r[q] == sorted[q - 1];
        assert counts[sorted[j]] >= counts[sorted[q - 1]];
      } else if p < j {
        assert r[p] == sorted[p] && r[q] == sorted[q - 1];
      } else {
        assert r[p] == sorted[p - 1] && r[q] == sorted[q - 1];
      }
    }
  }

  /** The next key of the assignment loop is new, and adds one to the count of non-special keys exactly when it is not special. */
  lemma AddTokenStep(s: seq<string>, i: nat)
    requires i < |s| && Distinct(s)
    ensures s[..i + 1] == s[..i] + [s[i]] && s[i] !in s[..i]
    ensures |NonSpecial(s[..i + 1])| == |NonSpecial(s[..i])| + if s[i] in SpecialTokens then 0 else 1
  {
    assert s[..i + 1] == s[..i] + [s[i]];
    if s[i] in SpecialTokens {
      assert NonSpecial(s[..i + 1]) == NonSpecial(s[..i]);
    } else {
      assert NonSpecial(s[..i + 1]) == NonSpecial(s[..i]) + {s[i]};
    }
  }

  /** Giving a new learned unit the next id keeps the vocabulary trained. */
  lemma AddTokenKeepsTrained(v: Vocab, token: string)
    requires Trained(v) && token !in v.tokenToId && IsLowerUnit(token)
    ensures Trained(Vocab(v.tokenToId[token := v.nextId], v.idToToken[v.nextId := token], v.nextId + 1))
  {
    assert v.nextId !in v.idToToken;
    assert v.nextId >= |SpecialTokens| by {
      assert |SpecialTokens| - 1 in v.idToToken;
    }
  }

  /** The vocabulary after `token` gets the next id. */
  function AddToken(v: Vocab, token: string): Vocab {
    Vocab(v.tokenToId[token := v.nextId], v.idToToken[v.nextId := token], v.nextId + 1)
  }

  /** The keys of the vocabulary are the special tokens and the first `i` sorted keys. */
  ghost predicate KeysUpTo(v: Vocab, s: seq<string>, i: nat)
    requires i <= |s|
  {
    forall t :: t in v.tokenToId <==> t in SpecialTokens || t in s[..i]
  }

  /** Among the first `i` sorted keys, the later non-special key has the larger id. */
  ghost predicate OrderedUpTo(v: Vocab, s: seq<string>, i: nat)
    requires i <= |s| && KeysUpTo(v, s, i)
  {
    forall p, q :: 0 <= p < q < i && s[p] !in SpecialTokens && s[q] !in SpecialTokens ==>
      v.tokenToId[s[p]] < v.tokenToId[s[q]]
  }

  /** What the assignment loop of `train` has built after the first `i` sorted keys. */
  ghost predicate AssignedUpTo(v: Vocab, s: seq<string>, i: nat)
    requires i <= |s|
  {
    && Trained(v)
    && KeysUpTo(v, s, i)
    && v.nextId == |SpecialTokens| + |NonSpecial(s[..i])|
    && OrderedUpTo(v, s, i)
  }

  /** One step of the assignment loop: a key that is not yet in the vocabulary gets the next id, and the ids keep following the keys' order. */
  lemma AssignStep(v: Vocab, s: seq<string>, i: nat)
    requires i < |s| && Distinct(s) && AssignedUpTo(v, s, i)
    requires forall t :: t in s ==> IsLowerUnit(t)
    ensures s[i] in v.tokenToId ==> AssignedUpTo(v, s, i + 1)
    ensures s[i] !in v.tokenToId ==> AssignedUpTo(AddToken(v, s[i]), s, i + 1)
  {
    var token := s[i];
    assert IsLowerUnit(token) && token !in SpecialTokens by {
      if token in SpecialTokens {
        SpecialTokensAreNotUnits(token);
      }
    }
    AddTokenStep(s, i);
    if token !in v.tokenToId {
      AddTokenKeepsTrained(v, token);
      OrderStep(v, s, i);
    }
  }

  /** The new key gets the largest id so far, so the order of ids still follows the keys. */
  lemma OrderStep(v: Vocab, s: seq<string>, i: nat)
    requires i < |s| && Trained(v) && KeysUpTo(v, s, i) && OrderedUpTo(v, s, i)
    requires s[..i + 1] == s[..i] + [s[i]] && s[i] !in v.tokenToId
    ensures KeysUpTo(AddToken(v, s[i]), s, i + 1)
    ensures OrderedUpTo(AddToken(v, s[i]), s, i + 1)
  {
    var w := AddToken(v, s[i]);
    forall p, q | 0 <= p < q < i + 1 && s[p] !in SpecialTokens && s[q] !in SpecialTokens
      ensures w.tokenToId[s[p]] < w.tokenToId[s[q]]
    {
      assert s[p] in s[..i];
      assert v.tokenToId[s[p]] in v.idToToken;
      if q < i {
        assert s[q] in s[..i];
      }
    }
  }

  /** The sorted keys are the distinct units, each once, and none of the splitter's units is a special token. */
  lemma SortedKeysAreUnits(units: seq<string>, keys: seq<string>, sorted: seq<string>)
    requires forall u :: u in keys <==> u in units
    requires Distinct(keys) && multiset(sorted) == multiset(keys)
    ensures Distinct(sorted)
    ensures forall t :: t in sorted <==> t in units
    ensures NonSpecial(sorted) == NonSpecial(units)
    ensures (forall k :: 0 <= k < |units| ==> IsLowerUnit(units[k])) ==>
      forall t :: t in sorted ==> IsLowerUnit(t) && t !in SpecialTokens
  {
    PermutationKeepsDistinct(keys, sorted);
    forall t ensures t in sorted <==> t in units {
      assert t in sorted <==> t in multiset(keys);
    }
    if forall k :: 0 <= k < |units| ==> IsLowerUnit(units[k]) {
      forall t | t in sorted ensures IsLowerUnit(t) && t !in SpecialTokens {
        var k :| 0 <= k < |units| && units[k] == t;
        if t in SpecialTokens {
          SpecialTokensAreNotUnits(t);
        }
      }
    }
  }

  /**
    Lines 27-33 of `train`: count the units, then sort the distinct ones by
    descending count. Every sorted key comes with its number of occurrences.
  */
  method RankUnits(units: seq<string>) returns (counts: map<string, nat>, sorted: seq<string>)
    ensures forall t :: t in sorted ==> t in counts && counts[t] == multiset(units)[t]
    ensures SortedByCount(sorted, counts)
    ensures Distinct(sorted)
    ensures forall t :: t in sorted <==> t in units
    ensures NonSpecial(sorted) == NonSpecial(units)
    ensures (forall k :: 0 <= k < |units| ==> IsLowerUnit(units[k])) ==>
      forall t :: t in sorted ==> IsLowerUnit(t) && t !in SpecialTokens
  {
    var keys;
    counts, keys := CountUnits(units);
    sorted := SortByCount(keys, counts);
    SortedKeysAreUnits(units, keys, sorted);
  }

  /**
    Ids that increase along a sequence sorted by descending count follow the
    frequency order: a unit counted strictly more often comes earlier, so it
    got the smaller id.
  */
  lemma AssignmentFollowsFrequency(v: Vocab, s: seq<string>, counts: map<string, nat>, units: seq<string>)
    requires forall t :: t in s ==> t in counts && counts[t] == multiset(units)[t]
    requires SortedByCount(s, counts)
    requires forall t :: t in v.tokenToId <==> t in SpecialTokens || t in s
    requires forall p, q :: 0 <= p < q < |s| && s[p] !in SpecialTokens && s[q] !in SpecialTokens ==>
      v.tokenToId[s[p]] < v.tokenToId[s[q]]
    ensures FrequencyOrdered(v, units)
  {
    forall a, b | a in v.tokenToId && b in v.tokenToId && a !in SpecialTokens && b !in SpecialTokens &&
                  multiset(units)[a] > multiset(units)[b]
      ensures v.tokenToId[a] < v.tokenToId[b]
    {
      var p :| 0 <= p < |s| && s[p] == a;
      var q :| 0 <= q < |s| && s[q] == b;
      assert counts[s[p]] > counts[s[q]];
      assert p < q;
    }
  }

  /** Once every sorted key has been through the assignment loop, the vocabulary is what `train` promises. */
  lemma AssignmentComplete(v: Vocab, s: seq<string>, counts: map<string, nat>, units: seq<string>)
    requires AssignedUpTo(v, s, |s|)
    requires forall t :: t in s ==> t in counts && counts[t] == multiset(units)[t]
    requires SortedByCount(s, counts)
    requires forall t :: t in s <==> t in units
    requires NonSpecial(s) == NonSpecial(units)
    ensures Trained(v) && v.tokenToId != map[] && v.idToToken != map[]
    ensures forall t :: t in v.tokenToId <==> t in SpecialTokens || t in units
    ensures v.nextId == |SpecialTokens| + |NonSpecial(units)|
    ensures FrequencyOrdered(v, units)
  {
    assert s[..|s|] == s;
    AssignmentFollowsFrequency(v, s, counts, units);
    assert SpecialTokens[0] in v.tokenToId;
  }

  lemma {:induction false} DistinctAtMostOnce(s: seq<string>, x: string)
    requires Distinct(s)
    ensures multiset(s)[x] <= 1
  {
    if s != [] {
      assert s == [s[0]] + s[1..];
      DistinctAtMostOnce(s[1..], x);
      if s[0] == x {
        assert x !in s[1..];
      }
    }
  }

  /** A rearrangement of distinct strings is distinct. */
  lemma PermutationKeepsDistinct(a: seq<string>, b: seq<string>)
    requires multiset(a) == multiset(b) && Distinct(a)
    ensures Distinct(b)
  {
    forall p, q | 0 <= p < q < |b| ensures b[p] != b[q] {
      if b[p] == b[q] {
        var x := b[p];
        assert b == b[..q] + b[q..];
        assert b[..q][p] == x && b[q..][0] == x;
        assert multiset(b)[x] == multiset(b[..q])[x] + multiset(b[q..])[x];
        DistinctAtMostOnce(a, x);
        assert false;
      }
    }
  }

  // ---------------------------------------------------------------------
  // encode and decode on a given vocabulary

  /** `[UNKNOWN ID:<id>]`, what `decode` renders for an id with no token. */
  function Placeholder(id: int): string {
    "[UNKNOWN ID:" + IntToString(id) + "]"
  }

  /** The ids `encode` returns for `text`: each unit's id, or that of `<unk>` when the unit is unknown. */
  function EncodeText(tokenToId: map<string, int>, text: string): (r: seq<int>)
    ensures |r| == |Units(text)|
    ensures forall k :: 0 <= k < |r| ==>
      r[k] == if Units(text)[k] in tokenToId then tokenToId[Units(text)[k]] else UnkId
  {
    var units := Units(text);
    seq(|units|, k requires 0 <= k < |units| =>
      if units[k] in tokenToId then tokenToId[units[k]] else UnkId)
  }

  /** The tokens `decode` joins: each id's token, or the placeholder naming an id with none. */
  function Render(idToToken: map<int, string>, ids: seq<int>): (r: seq<string>)
    ensures |r| == |ids|
    ensures forall k :: 0 <= k < |ids| ==>
      r[k] == if ids[k] in idToToken then idToToken[ids[k]] else Placeholder(ids[k])
  {
    seq(|ids|, k requires 0 <= k < |ids| =>
      if ids[k] in idToToken then idToToken[ids[k]] else Placeholder(ids[k]))
  }

  /** The text `decode` returns: no whitespace at either end and no run of two. */
  function DecodeText(idToToken: map<int, string>, ids: seq<int>): (r: string)
    ensures IsNormal(r)
  {
    var joined := Glue(Render(idToToken, ids));
    Normalize(joined)
  }

  /** Decoding drops or adds only whitespace: every character of the tokens survives, in order. */
  lemma DecodeKeepsContent(idToToken: map<int, string>, ids: seq<int>)
    ensures NonSpace(DecodeText(idToToken, ids)) == NonSpace(Flatten(Render(idToToken, ids)))
  {
    GlueKeepsContent(Render(idToToken, ids));
  }

  /** On a trained vocabulary, `encode` only returns ids that `decode` maps back to a token. */
  lemma EncodeIdsAreAssigned(v: Vocab, text: string)
    requires Trained(v)
    ensures forall k :: 0 <= k < |EncodeText(v.tokenToId, text)| ==>
      EncodeText(v.tokenToId, text)[k] in v.idToToken
  {
    assert 0 in v.idToToken;
  }

  lemma PlaceholderIsNormal(id: int)
    ensures IsNormal(Placeholder(id))
  {
    var d := IntToString(id);
    var p := Placeholder(id);
    var prefix := "[UNKNOWN ID:";
    assert p == prefix + d + "]";
    forall i | 0 <= i < |p|
      ensures IsSpace(p[i]) ==> p[i] == ' ' && (i + 1 == |p| || !IsSpace(p[i + 1]))
    {
      if i < |prefix| {
        assert p[i] == prefix[i];
        assert p[i + 1] == if i + 1 < |prefix| then prefix[i + 1] else d[0];
      } else if i < |prefix| + |d| {
        assert p[i] == d[i - |prefix|];
      } else {
        assert p[i] == ']';
      }
    }
  }

  /** An id with no token decodes to exactly `[UNKNOWN ID:<id>]`. */
  lemma DecodeUnknownId(v: Vocab, id: int)
    requires id !in v.idToToken
    ensures DecodeText(v.idToToken, [id]) == Placeholder(id)
  {
    assert Render(v.idToToken, [id]) == [Placeholder(id)];
    PlaceholderIsNormal(id);
    NormalizeIdentity(Placeholder(id));
  }

  /** The decoded text of learned ids splits back into exactly their tokens. */
  lemma LearnedIdsDecodeToUnits(v: Vocab, ids: seq<int>)
    requires Trained(v)
    requires forall k :: 0 <= k < |ids| ==> ids[k] in v.idToToken && ids[k] >= |SpecialTokens|
    ensures Units(DecodeText(v.idToToken, ids)) == Render(v.idToToken, ids)
  {
    var tokens := Render(v.idToToken, ids);
    assert forall k :: 0 <= k < |tokens| ==> IsLowerUnit(tokens[k]);
    var joined := Glue(tokens);
    assert DecodeText(v.idToToken, ids) == joined by {
      GlueOfUnitsIsNormal(tokens);
      NormalizeIdentity(joined);
    }
    GlueOfUnitsIsNormal(tokens);
    ScanGlue(tokens);
  }

  /** Encoding the decoded text of learned ids gives the ids back. */
  lemma RoundTrip(v: Vocab, ids: seq<int>)
    requires Trained(v)
    requires forall k :: 0 <= k < |ids| ==> ids[k] in v.idToToken && ids[k] >= |SpecialTokens|
    ensures EncodeText(v.tokenToId, DecodeText(v.idToToken, ids)) == ids
  {
    LearnedIdsDecodeToUnits(v, ids);
    EncodeRendered(v, ids, DecodeText(v.idToToken, ids));
  }

  /** A text whose units are the tokens of assigned ids encodes to those ids. */
  lemma EncodeRendered(v: Vocab, ids: seq<int>, text: string)
    requires Inverse(v)
    requires forall k :: 0 <= k < |ids| ==> ids[k] in v.idToToken
    requires Units(text) == Render(v.idToToken, ids)
    ensures EncodeText(v.tokenToId, text) == ids
  {
    var r := EncodeText(v.tokenToId, text);
    forall k | 0 <= k < |ids| ensures r[k] == ids[k] {
      assert Units(text)[k] == v.idToToken[ids[k]];
    }
  }

  lemma RenderEncode(v: Vocab, text: string)
    requires Inverse(v)
    requires forall k :: 0 <= k < |Units(text)| ==> Units(text)[k] in v.tokenToId
    ensures Render(v.idToToken, EncodeText(v.tokenToId, text)) == Units(text)
  {
    var units, ids := Units(text), EncodeText(v.tokenToId, text);
    forall k | 0 <= k < |units| ensures Render(v.idToToken, ids)[k] == units[k] {
      assert ids[k] == v.tokenToId[units[k]];
    }
  }

  /** Decoding the encoding of a text whose units are all known gives the units joined by the decode rule. */
  lemma DecodeEncode(v: Vocab, text: string)
    requires Trained(v)
    requires forall k :: 0 <= k < |Units(text)| ==> Units(text)[k] in v.tokenToId
    ensures DecodeText(v.idToToken, EncodeText(v.tokenToId, text)) == Glue(Units(text))
  {
    RenderEncode(v, text);
    GlueOfUnitsIsNormal(Units(text));
    NormalizeIdentity(Glue(Units(text)));
  }

  /** Trained on "x x y", the more frequent word x gets the smaller id. */
  lemma FrequencyExample(v: Vocab, a: string, b: string)
    requires IsWordRun(a) && IsWordRun(b) && NoUpper(a) && NoUpper(b) && a != b
    requires FrequencyOrdered(v, Units(a + " " + a + " " + b))
    requires a in v.tokenToId && b in v.tokenToId
    ensures v.tokenToId[a] < v.tokenToId[b]
  {
    UnitsExample(a, b);
    assert a !in SpecialTokens && b !in SpecialTokens by {
      if a in SpecialTokens { SpecialTokensAreNotUnits(a); }
      if b in SpecialTokens { SpecialTokensAreNotUnits(b); }
    }
    var u := [a, a, b];
    assert multiset(u)[a] == 2;
    assert multiset(u)[b] == 1;
  }

  /** Decoding the unassigned id 42 alone gives "[UNKNOWN ID:42]". */
  lemma UnknownIdExample(v: Vocab)
    requires 42 !in v.idToToken
    ensures DecodeText(v.idToToken, [42]) == "[UNKNOWN ID:42]"
  {
    DecodeUnknownId(v, 42);
    assert IntToString(42) == "42" by {
      assert NatToDecimal(4) == "4";
    }
  }
}
