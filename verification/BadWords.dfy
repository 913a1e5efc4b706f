/** The bad-word logits processor: each step forbids the tokens that would complete a bad word. */
module BadWords {

  datatype Logit = NegInf | Finite(value: real)

  function Plus(a: Logit, b: Logit): Logit {
    if a.NegInf? || b.NegInf? then NegInf else Finite(a.value + b.value)
  }

  datatype Option<T> = None | Some(value: T)

  datatype Result = Logits(logits: seq<Logit>) | ValueError(invalid: seq<int>) | IndexError | ShapeError

  type Word = seq<int>

  // ---------------------------------------------------------------- what a step must do

  /** Appending v to past completes the word. */
  predicate Completes(word: Word, past: seq<int>, v: int) {
    && 1 <= |word| <= |past| + 1
    && word[|word| - 1] == v
    && word[..|word| - 1] == past[|past| - (|word| - 1)..]
  }

  ghost predicate Banned(words: seq<Word>, past: seq<int>, v: int) {
    exists k :: 0 <= k < |words| && Completes(words[k], past, v)
  }

  /** -inf exactly for the tokens that would complete a bad word; every other logit unchanged. */
  ghost predicate MaskedBy(words: seq<Word>, past: seq<int>, logits: seq<Logit>, out: seq<Logit>) {
    |out| == |logits| && forall v :: 0 <= v < |logits| ==> out[v] == if Banned(words, past, v) then NegInf else logits[v]
  }

  /** The bias for words of one token. */
  ghost predicate IsWordBias(words: seq<Word>, bias: seq<Logit>) {
    forall v :: 0 <= v < |bias| ==> bias[v] == if [v] in words then NegInf else Finite(0.0)
  }

  ghost predicate InVocabulary(words: seq<Word>, vocab: nat) {
    forall k :: 0 <= k < |words| ==> WordIn(words[k], vocab)
  }

  predicate WordIn(word: Word, vocab: nat) {
    forall i :: 0 <= i < |word| ==> 0 <= word[i] < vocab
  }

  function InvalidIn(word: Word, vocab: nat): seq<int> {
    if word == [] then [] else
      var t := word[|word| - 1];
      InvalidIn(word[..|word| - 1], vocab) + if t < 0 || t >= vocab then [t] else []
  }

  function InvalidIds(words: seq<Word>, vocab: nat): seq<int> {
    if words == [] then [] else InvalidIds(words[..|words| - 1], vocab) + InvalidIn(words[|words| - 1], vocab)
  }

  lemma {:induction false} InvalidInExactly(word: Word, vocab: nat)
    ensures InvalidIn(word, vocab) == [] <==> WordIn(word, vocab)
    decreases |word|
  {
    hide WordIn;
    WordInSplits(word, vocab);
    if word != [] {
      InvalidInExactly(word[..|word| - 1], vocab);
    }
  }

  lemma WordInSplits(word: Word, vocab: nat)
    ensures word == [] ==> WordIn(word, vocab)
    ensures word != [] ==>
      var n := |word| - 1; WordIn(word, vocab) <==> WordIn(word[..n], vocab) && 0 <= word[n] < vocab
  {
    if word != [] {
      var n := |word| - 1;
      assert forall i :: 0 <= i < n ==> word[..n][i] == word[i];
    }
  }

  /** The error lists ids exactly when some id is outside the vocabulary. */
  lemma {:induction false} InvalidIdsExactly(words: seq<Word>, vocab: nat)
    ensures InvalidIds(words, vocab) == [] <==> InVocabulary(words, vocab)
    decreases |words|
  {
    hide InvalidIn, InVocabulary, WordIn;
    if words != [] {
      var n := |words| - 1;
      InvalidIdsExactly(words[..n], vocab);
      InvalidInExactly(words[n], vocab);
      VocabularySplits(words, vocab);
    } else {
      NoWordsInVocabulary(vocab);
    }
  }

  lemma NoWordsInVocabulary(vocab: nat)
    ensures InVocabulary([], vocab)
  {
  }

  lemma VocabularySplits(words: seq<Word>, vocab: nat)
    requires words != []
    ensures var n := |words| - 1;
      InVocabulary(words, vocab) <==> InVocabulary(words[..n], vocab) && WordIn(words[n], vocab)
  {
    var n := |words| - 1;
    assert forall k :: 0 <= k < n ==> words[..n][k] == words[k];
  }

  /** The invalid ids are those outside the vocabulary, in the order of the words. */
  lemma {:induction false} InvalidInConcat(a: Word, b: Word, vocab: nat)
    ensures InvalidIn(a + b, vocab) == InvalidIn(a, vocab) + InvalidIn(b, vocab)
    decreases |b|
  {
    if b == [] {
      assert a + b == a;
    } else {
      var n := |b| - 1;
      assert (a + b)[..|a| + n] == a + b[..n];
      InvalidInConcat(a, b[..n], vocab);
    }
  }

  lemma {:induction false} InvalidIdsConcat(a: seq<Word>, b: seq<Word>, vocab: nat)
    ensures InvalidIds(a + b, vocab) == InvalidIds(a, vocab) + InvalidIds(b, vocab)
    decreases |b|
  {
    if b == [] {
      assert a + b == a;
    } else {
      var n := |b| - 1;
      assert (a + b)[..|a| + n] == a + b[..n];
      InvalidIdsConcat(a, b[..n], vocab);
    }
  }

  lemma InvalidOfOne(t: int, word: Word, vocab: nat)
    ensures InvalidIn([t], vocab) == if 0 <= t < vocab then [] else [t]
    ensures InvalidIds([word], vocab) == InvalidIn(word, vocab)
  {
    assert [t][..0] == [] && [word][..0] == [];
  }

  ghost predicate CompletedByFirst(words: seq<Word>, n: nat, past: seq<int>, v: int)
    requires n <= |words|
  {
    exists k :: 0 <= k < n && |words[k]| != 1 && Completes(words[k], past, v)
  }

  // ---------------------------------------------------------------- the loop over longer words

  /** The loop looks at the word: not one token, and not longer than what could be completed. */
  predicate Reached(word: Word, past: seq<int>) {
    |word| != 1 && |word| <= |past| + 1
  }

  /** The loop finds an entry of the bias for the last token of the word. */
  predicate HasEntry(word: Word, size: nat) {
    word != [] && 0 <= word[|word| - 1] < size
  }

  /** What has been generated ends with the word up to its last token. */
  predicate Matches(word: Word, past: seq<int>)
    requires 1 <= |word| <= |past| + 1
  {
    past[|past| - (|word| - 1)..] == word[..|word| - 1]
  }

  lemma MatchIs(word: Word, past: seq<int>, isMatch: bool)
    requires 1 <= |word| <= |past| + 1 && isMatch == (past[|past| - (|word| - 1)..] == word[..|word| - 1])
    ensures isMatch == Matches(word, past)
  {
  }

  lemma MatchCompletes(word: Word, past: seq<int>, v: int)
    requires 1 <= |word| <= |past| + 1
    ensures Completes(word, past, v) <==> Matches(word, past) && v == word[|word| - 1]
  {
  }

  /** The bias after n words. */
  ghost predicate IsBias(words: seq<Word>, n: nat, past: seq<int>, bias: seq<Logit>)
    requires n <= |words|
  {
    forall v :: 0 <= v < |bias| ==> bias[v] == if CompletedByFirst(words, n, past, v) then NegInf else Finite(0.0)
  }

  lemma NextWord(words: seq<Word>, n: nat, past: seq<int>, v: int)
    requires n < |words|
    ensures CompletedByFirst(words, n + 1, past, v)
       <==> CompletedByFirst(words, n, past, v) || (|words[n]| != 1 && Completes(words[n], past, v))
  {
    hide Completes;
  }

  lemma SkippedWord(words: seq<Word>, n: nat, past: seq<int>, bias: seq<Logit>)
    requires n < |words| && IsBias(words, n, past, bias) && !Reached(words[n], past)
    ensures IsBias(words, n + 1, past, bias)
  {
    hide CompletedByFirst;
    forall v ensures CompletedByFirst(words, n + 1, past, v) <==> CompletedByFirst(words, n, past, v) {
      NextWord(words, n, past, v);
    }
  }

  lemma MatchedWord(words: seq<Word>, n: nat, past: seq<int>, bias: seq<Logit>, last: nat)
    requires n < |words| && IsBias(words, n, past, bias) && Reached(words[n], past) && HasEntry(words[n], |bias|)
    requires last == words[n][|words[n]| - 1]
    ensures IsBias(words, n + 1, past, bias[last := Plus(bias[last], if Matches(words[n], past) then NegInf else Finite(0.0))])
  {
    hide CompletedByFirst, Completes, Matches;
    var isMatch := Matches(words[n], past);
    var after := bias[last := Plus(bias[last], if isMatch then NegInf else Finite(0.0))];
    forall v | 0 <= v < |bias|
      ensures after[v] == if CompletedByFirst(words, n + 1, past, v) then NegInf else Finite(0.0)
    {
      MatchCompletes(words[n], past, v);
      NextWord(words, n, past, v);
    }
  }

  lemma NoWords(words: seq<Word>, past: seq<int>, bias: seq<Logit>)
    requires forall v :: 0 <= v < |bias| ==> bias[v] == Finite(0.0)
    ensures IsBias(words, 0, past, bias)
  {
  }

  // ---------------------------------------------------------------- adding the biases

  /** Two lengths can be added: they are equal, or one of them is 1 and is repeated. */
  predicate Broadcasts(n: nat, m: nat) {
    n == m || n == 1 || m == 1
  }

  function At(s: seq<Logit>, v: int): Logit
    requires s != [] && 0 <= v && (|s| == 1 || v < |s|)
  {
    if |s| == 1 then s[0] else s[v]
  }

  function Sum(a: seq<Logit>, b: seq<Logit>): seq<Logit>
    requires Broadcasts(|a|, |b|)
  {
    seq(if |a| == 1 then |b| else |a|, v requires 0 <= v < if |a| == 1 then |b| else |a| => Plus(At(a, v), At(b, v)))
  }

  /** The general result: position v of the sum reads position 0 of a tensor of length 1. */
  ghost predicate SummedOver(words: seq<Word>, past: seq<int>, logits: seq<Logit>, size: nat, out: seq<Logit>) {
    && |out| == (if |logits| == 1 then size else |logits|)
    && forall v :: 0 <= v < |out| ==>
         var at, cached := if |logits| == 1 then 0 else v, if size == 1 then 0 else v;
         at < |logits| &&
         out[v] == if [cached] in words || CompletedByFirst(words, |words|, past, at) then NegInf else logits[at]
  }

  lemma SumIsSummed(words: seq<Word>, past: seq<int>, logits: seq<Logit>, bias: seq<Logit>, last: seq<Logit>)
    requires IsWordBias(words, bias) && IsBias(words, |words|, past, last) && |last| == |logits|
    requires Broadcasts(|logits|, |bias|)
    ensures Broadcasts(|Sum(logits, bias)|, |last|)
    ensures SummedOver(words, past, logits, |bias|, Sum(Sum(logits, bias), last))
  {
    hide CompletedByFirst;
    var first := Sum(logits, bias);
    var out := Sum(first, last);
    assert |out| == |first|;
    forall v | 0 <= v < |out|
      ensures var at, cached := if |logits| == 1 then 0 else v, if |bias| == 1 then 0 else v;
        && at < |logits| && cached < |bias|
        && out[v] == Plus(Plus(logits[at], bias[cached]), last[at])
    {
    }
  }

  /** With equal lengths this is the mask. */
  lemma SummedIsMasked(words: seq<Word>, past: seq<int>, logits: seq<Logit>, out: seq<Logit>)
    requires SummedOver(words, past, logits, |logits|, out)
    ensures MaskedBy(words, past, logits, out)
  {
    hide Banned, CompletedByFirst;
    forall v | 0 <= v < |logits|
      ensures Banned(words, past, v) <==> [v] in words || CompletedByFirst(words, |words|, past, v)
    {
      OneTokenCompletes(words, past, v);
    }
  }

  lemma OneTokenCompletes(words: seq<Word>, past: seq<int>, v: int)
    ensures Banned(words, past, v) <==> [v] in words || CompletedByFirst(words, |words|, past, v)
  {
    forall k | 0 <= k < |words| && |words[k]| == 1
      ensures Completes(words[k], past, v) <==> words[k] == [v]
    {
      assert words[k][..0] == past[|past|..];
    }
  }

  class NoBadWordsLogitsProcessor {
    const badWordsIds: seq<Word>
    var wordBias: Option<seq<Logit>>

    constructor (badWordsIds: seq<Word>)
      ensures this.badWordsIds == badWordsIds && wordBias == None && Valid()
    {
      this.badWordsIds, wordBias := badWordsIds, None;
    }

    /** A cached bias is the bias that would be computed now. */
    ghost predicate Valid()
      reads this
    {
      wordBias.Some? ==> InVocabulary(badWordsIds, |wordBias.value|) && IsWordBias(badWordsIds, wordBias.value)
    }

    method CheckTokenIdsBounds(vocab: nat) returns (invalid: seq<int>)
      ensures invalid == InvalidIds(badWordsIds, vocab)
    {
      invalid := [];
      for k := 0 to |badWordsIds|
        invariant invalid == InvalidIds(badWordsIds[..k], vocab)
      {
        var word := badWordsIds[k];
        assert badWordsIds[..k + 1][..k] == badWordsIds[..k];
        ghost var before := invalid;
        for i := 0 to |word|
          invariant invalid == before + InvalidIn(word[..i], vocab)
        {
          assert word[..i + 1][..i] == word[..i];
          if word[i] < 0 || word[i] >= vocab {
            invalid := invalid + [word[i]];
          }
        }
        assert word[..|word|] == word;
      }
      assert badWordsIds[..|badWordsIds|] == badWordsIds;
    }

    method InitWordBias(vocab: nat) returns (invalid: seq<int>)
      requires wordBias == None
      modifies this
      ensures invalid == InvalidIds(badWordsIds, vocab)
      ensures if InVocabulary(badWordsIds, vocab) then wordBias.Some? && |wordBias.value| == vocab else wordBias == None
      ensures Valid()
    {
      invalid := CheckTokenIdsBounds(vocab);
      InvalidIdsExactly(badWordsIds, vocab);
      if |invalid| > 0 {
        return;
      }
      var bias := new Logit[vocab](_ => Finite(0.0));
      for k := 0 to |badWordsIds|
        invariant forall v :: 0 <= v < vocab ==> bias[v] == if [v] in badWordsIds[..k] then NegInf else Finite(0.0)
      {
        var word := badWordsIds[k];
        assert badWordsIds[..k + 1] == badWordsIds[..k] + [word];
        if |word| == 1 {
          assert word == [word[0]];
          bias[word[|word| - 1]] := NegInf;
        }
      }
      assert badWordsIds[..|badWordsIds|] == badWordsIds;
      wordBias := Some(bias[..]);
    }

    /** __call__.  The cached bias keeps the size of the first successful call; a later call with
        another size fails, unless one of the two is 1 and is repeated. */
    method Call(past: seq<int>, logits: seq<Logit>) returns (r: Result)
      requires Valid()
      modifies this
      ensures Valid()
      ensures old(wordBias).Some? ==> wordBias == old(wordBias)
      ensures r.ValueError? <==> old(wordBias) == None && !InVocabulary(badWordsIds, |logits|)
      ensures r.ValueError? ==> r.invalid == InvalidIds(badWordsIds, |logits|) && wordBias == None
      ensures !r.ValueError? ==> wordBias.Some? && (old(wordBias) == None ==> |wordBias.value| == |logits|)
      ensures r == IndexError <==>
        && !r.ValueError?
        && !(forall k :: 0 <= k < |badWordsIds| ==>
              (badWordsIds[k] != [] && (1 < |badWordsIds[k]| <= |past| + 1 ==> badWordsIds[k][|badWordsIds[k]| - 1] < |logits|)))
      ensures r == ShapeError <==>
        !r.ValueError? && r != IndexError && |logits| != |wordBias.value| && |logits| != 1 && |wordBias.value| != 1
      ensures r.Logits? ==> SummedOver(badWordsIds, past, logits, |wordBias.value|, r.logits)
      ensures r.Logits? && |wordBias.value| == |logits| ==> MaskedBy(badWordsIds, past, logits, r.logits)
    {
      hide IsBias, IsWordBias, SummedOver, MaskedBy, Sum, CompletedByFirst, Banned;
      if wordBias == None {
        var invalid := InitWordBias(|logits|);
        InvalidIdsExactly(badWordsIds, |logits|);
        if |invalid| > 0 {
          return ValueError(invalid);
        }
      }
      var ok, lastTokenBias := LastTokenBias(past, |logits|);
      if !ok {
        return IndexError;
      }
      var bias := wordBias.value;
      if !Broadcasts(|logits|, |bias|) {
        return ShapeError;
      }
      SumIsSummed(badWordsIds, past, logits, bias, lastTokenBias);
      r := Logits(Sum(Sum(logits, bias), lastTokenBias));
      if |bias| == |logits| {
        SummedIsMasked(badWordsIds, past, logits, r.logits);
      }
    }

    /** The loop over words of several tokens. */
    method LastTokenBias(past: seq<int>, size: nat) returns (ok: bool, out: seq<Logit>)
      requires forall k, i :: 0 <= k < |badWordsIds| && 0 <= i < |badWordsIds[k]| ==> 0 <= badWordsIds[k][i]
      ensures ok <==> forall k :: 0 <= k < |badWordsIds| && Reached(badWordsIds[k], past) ==> HasEntry(badWordsIds[k], size)
      ensures ok ==> |out| == size && IsBias(badWordsIds, |badWordsIds|, past, out)
    {
      hide IsBias, CompletedByFirst, Completes, Matches, Plus;
      var lastTokenBias := new Logit[size](_ => Finite(0.0));
      NoWords(badWordsIds, past, lastTokenBias[..]);
      for k := 0 to |badWordsIds|
        invariant forall m :: 0 <= m < k && Reached(badWordsIds[m], past) ==> HasEntry(badWordsIds[m], size)
        invariant IsBias(badWordsIds, k, past, lastTokenBias[..])
      {
        var word := badWordsIds[k];
        if |word| == 1 || |word| > |past| + 1 {
          SkippedWord(badWordsIds, k, past, lastTokenBias[..]);
          continue;
        }
        if |word| == 0 || word[|word| - 1] >= size {
          return false, [];
        }
        var prefixLength := |word| - 1;
        var lastTokenId := word[|word| - 1];
        var actualPrefix := past[|past| - prefixLength..];
        var expectedPrefix := word[..prefixLength];
        assert |actualPrefix| == |expectedPrefix|;
        var isMatch := actualPrefix == expectedPrefix;
        MatchIs(word, past, isMatch);
        ghost var before := lastTokenBias[..];
        MatchedWord(badWordsIds, k, past, before, lastTokenId);
        lastTokenBias[lastTokenId] := Plus(lastTokenBias[lastTokenId], if isMatch then NegInf else Finite(0.0));
        assert lastTokenBias[..] == before[lastTokenId := lastTokenBias[lastTokenId]];
      }
      return true, lastTokenBias[..];
    }
  }

  // ---------------------------------------------------------------- whole runs

  /** A bad word ends right before position i. */
  ghost predicate BadWordEndsAt(words: seq<Word>, tokens: seq<int>, i: nat)
    requires i <= |tokens|
  {
    exists k :: 0 <= k < |words| && 1 <= |words[k]| <= i && tokens[i - |words[k]|..i] == words[k]
  }

  lemma CompletingIsEnding(word: Word, tokens: seq<int>, i: nat)
    requires i < |tokens|
    ensures Completes(word, tokens[..i], tokens[i]) <==> 1 <= |word| <= i + 1 && tokens[i + 1 - |word|..i + 1] == word
  {
    if 1 <= |word| <= i + 1 {
      var n := |word| - 1;
      assert tokens[i - n..i + 1] == tokens[..i][i - n..] + [tokens[i]];
      assert word == word[..n] + [word[n]];
    }
  }

  /** A step forbids a token exactly when a bad word would end with it. */
  lemma BannedIsEnding(words: seq<Word>, tokens: seq<int>, i: nat)
    requires i < |tokens|
    ensures Banned(words, tokens[..i], tokens[i]) <==> BadWordEndsAt(words, tokens, i + 1)
  {
    forall k | 0 <= k < |words|
      ensures Completes(words[k], tokens[..i], tokens[i]) <==>
        1 <= |words[k]| <= i + 1 && tokens[i + 1 - |words[k]|..i + 1] == words[k]
    {
      CompletingIsEnding(words[k], tokens, i);
    }
  }

  /** The token picked at position i had a finite processed logit. */
  predicate Picked(tokens: seq<int>, i: nat, logits: seq<Logit>)
    requires i < |tokens|
  {
    0 <= tokens[i] < |logits| && logits[tokens[i]].Finite?
  }

  /** From position n on, every token had a finite processed logit when it was picked. */
  ghost predicate Sampled(words: seq<Word>, tokens: seq<int>, n: nat, raw: seq<seq<Logit>>, processed: seq<seq<Logit>>) {
    && n <= |tokens| == |raw| == |processed|
    && forall i :: n <= i < |tokens| ==>
         MaskedBy(words, tokens[..i], raw[i], processed[i]) && Picked(tokens, i, processed[i])
  }

  /** No run ever produces a bad word: none ends in the generated part, whatever came before. */
  lemma NoBadWordGenerated(words: seq<Word>, tokens: seq<int>, n: nat, raw: seq<seq<Logit>>, processed: seq<seq<Logit>>, i: nat)
    requires Sampled(words, tokens, n, raw, processed) && n < i <= |tokens|
    ensures !BadWordEndsAt(words, tokens, i)
  {
    PickedExactly(words, tokens, i - 1, raw[i - 1], processed[i - 1]);
  }

  lemma PickedExactly(words: seq<Word>, tokens: seq<int>, i: nat, raw: seq<Logit>, processed: seq<Logit>)
    requires i < |tokens| && MaskedBy(words, tokens[..i], raw, processed)
    ensures Picked(tokens, i, processed) <==> Picked(tokens, i, raw) && !BadWordEndsAt(words, tokens, i + 1)
  {
    BannedIsEnding(words, tokens, i);
  }

  /** And nothing else is lost: a token sequence can be sampled if and only if its raw logits allow
      it and no bad word ends in its generated part. */
  lemma SampledExactly(words: seq<Word>, tokens: seq<int>, n: nat, raw: seq<seq<Logit>>, processed: seq<seq<Logit>>)
    requires n <= |tokens| == |raw| == |processed|
    requires forall i :: n <= i < |tokens| ==> MaskedBy(words, tokens[..i], raw[i], processed[i])
    ensures Sampled(words, tokens, n, raw, processed) <==>
      forall i: nat :: n <= i < |tokens| ==> Picked(tokens, i, raw[i]) && !BadWordEndsAt(words, tokens, i + 1)
  {
    hide Picked, MaskedBy, BadWordEndsAt;
    forall i: nat | n <= i < |tokens|
      ensures Picked(tokens, i, processed[i]) <==> Picked(tokens, i, raw[i]) && !BadWordEndsAt(words, tokens, i + 1)
    {
      PickedExactly(words, tokens, i, raw[i], processed[i]);
    }
  }
}
