/**
  The `Tokenizer` class: two maps between tokens and ids and the next id to
  hand out, rebuilt from scratch by `Train`, read by `Encode` and `Decode`.
*/
module Tokenization {
  import opened Wrappers
  import opened JsText
  import opened Splitter
  import opened Reassembly
  import opened Vocabulary

  /** The message `encode` and `decode` throw before any training. */
  const UntrainedMessage: string := "Tokenizer has not been trained yet. Please call train() first."

  class Tokenizer {
    var tokenToId: map<string, int>
    var idToToken: map<int, string>
    var nextId: int

    /** The vocabulary the fields hold. */
    function State(): Vocab
      reads this
    {
      Vocab(tokenToId, idToToken, nextId)
    }

    constructor ()
      ensures Untrained(State())
    {
      tokenToId := map[];
      idToToken := map[];
      nextId := 0;
    }

    /** Reset both maps to the four special tokens, with ids 0 to 3, and the next id to 4. */
    method InitSpecialTokens()
      modifies this
      ensures Trained(State())
      ensures forall t :: t in tokenToId <==> t in SpecialTokens
      ensures nextId == |SpecialTokens|
    {
      tokenToId := map[];
      idToToken := map[];
      var i := 0;
      while i < |SpecialTokens|
        invariant 0 <= i <= |SpecialTokens|
        invariant forall t :: t in tokenToId <==> t in SpecialTokens[..i]
        invariant forall k :: k in idToToken <==> 0 <= k < i
        invariant forall k :: 0 <= k < i ==> idToToken[k] == SpecialTokens[k] && tokenToId[SpecialTokens[k]] == k
      {
        tokenToId := tokenToId[SpecialTokens[i] := i];
        idToToken := idToToken[i := SpecialTokens[i]];
        i := i + 1;
      }
      nextId := |SpecialTokens|;
      assert SpecialTokens[..i] == SpecialTokens;
    }

    /**
      Rebuild the vocabulary from `textCorpus`: the special tokens, then every
      distinct unit of the lowercased corpus, the more frequent first, with
      consecutive ids from 4.
    */
    method Train(textCorpus: string)
      modifies this
      ensures Trained(State())
      ensures tokenToId != map[] && idToToken != map[]
      ensures forall t :: t in tokenToId <==> t in SpecialTokens || t in Units(textCorpus)
      ensures nextId == |SpecialTokens| + |NonSpecial(Units(textCorpus))|
      ensures FrequencyOrdered(State(), Units(textCorpus))
    {
      InitSpecialTokens();
      var tokens := Units(textCorpus);
      var tokenCounts, sortedTokens := RankUnits(tokens);
      AssignIds(sortedTokens);
      AssignmentComplete(State(), sortedTokens, tokenCounts, tokens);
    }

    /**
      Lines 34-40 of `train`: each sorted key that is not yet a key of the
      vocabulary gets the next id, in the order of `sortedTokens`.
    */
    method AssignIds(sortedTokens: seq<string>)
      modifies this
      requires Distinct(sortedTokens) && forall t :: t in sortedTokens ==> IsLowerUnit(t)
      requires AssignedUpTo(State(), sortedTokens, 0)
      ensures AssignedUpTo(State(), sortedTokens, |sortedTokens|)
    {
      for i := 0 to |sortedTokens|
        invariant AssignedUpTo(State(), sortedTokens, i)
      {
        AssignNext(sortedTokens, i);
      }
    }

    /** One pass of the assignment loop: key `i` gets the next id unless it already has one. */
    method AssignNext(sortedTokens: seq<string>, i: nat)
      modifies this
      requires i < |sortedTokens|
      requires Distinct(sortedTokens) && forall t :: t in sortedTokens ==> IsLowerUnit(t)
      requires AssignedUpTo(State(), sortedTokens, i)
      ensures AssignedUpTo(State(), sortedTokens, i + 1)
    {
      var token := sortedTokens[i];
      ghost var before := State();
      AssignStep(before, sortedTokens, i);
      if token !in tokenToId {
        tokenToId := tokenToId[token := nextId];
        idToToken := idToToken[nextId := token];
        nextId := nextId + 1;
        assert State() == AddToken(before, token);
      }
    }

    /** `encode`: the ids of the units of `text`; an error before any training. */
    function Encode(text: string): (r: Result<seq<int>>)
      reads this
      ensures r.Failure? <==> tokenToId == map[]
      ensures r.Failure? ==> r.error == UntrainedMessage
      ensures r.Success? ==> r.value == EncodeText(tokenToId, text)
    {
      if |tokenToId| == 0 then Failure(UntrainedMessage) else Success(EncodeText(tokenToId, text))
    }

    /** `decode`: the tokens of `ids` joined by the spacing rule, whitespace normalised; an error before any training. */
    method Decode(ids: seq<int>) returns (r: Result<string>)
      ensures r.Failure? <==> idToToken == map[]
      ensures r.Failure? ==> r.error == UntrainedMessage
      ensures r.Success? ==> r.value == DecodeText(idToToken, ids) && IsNormal(r.value)
    {
      if |idToToken| == 0 {
        return Failure(UntrainedMessage);
      }
      var decodedTokens := Render(idToToken, ids);
      var result := Join(decodedTokens);
      r := Success(Normalize(result));
    }
  }
}
