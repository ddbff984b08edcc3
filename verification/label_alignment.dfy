/** Aligning word-level NER labels with sub-word tokens for training: the first sub-token
    of each word carries the word's label, every other position carries the ignore index. */
module LabelAlignment {
  import opened Wrappers

  /** The label value the loss function ignores. */
  const IgnoreIndex: int := -100

  /** `label[word_idx]` past the end of the word labels raises IndexError. */
  datatype AlignError = IndexOutOfRange(wordIdx: nat)

  /** Token `k` is the first token of a word: it belongs to a word and its word id differs
      from the id of the token before it (`previous` for the first token). */
  predicate StartsWord(wordIds: seq<Option<nat>>, previous: Option<nat>, k: int)
    requires 0 <= k < |wordIds|
  {
    wordIds[k].Some? && wordIds[k] != (if k == 0 then previous else wordIds[k - 1])
  }

  /** The inner loop of `tokenize_and_align_labels`, continuing after a token whose word id
      was `previous`. */
  function AlignFrom(wordIds: seq<Option<nat>>, labels: seq<int>, previous: Option<nat>): (r: Result<seq<int>, AlignError>)
    ensures r.Success? <==> forall k :: 0 <= k < |wordIds| && StartsWord(wordIds, previous, k) ==> wordIds[k].value < |labels|
    ensures r.Success? ==> |r.value| == |wordIds|
    ensures r.Success? ==> forall k :: 0 <= k < |wordIds| ==>
              r.value[k] == if StartsWord(wordIds, previous, k) then labels[wordIds[k].value] else IgnoreIndex
  {
    if |wordIds| == 0 then Success([])
    else
      var wordIdx := wordIds[0];
      var head :-
        if wordIdx.None? then Success(IgnoreIndex)
        else if wordIdx != previous then
          (if wordIdx.value < |labels| then Success(labels[wordIdx.value]) else Failure(IndexOutOfRange(wordIdx.value)))
        else Success(IgnoreIndex);
      var rest :- AlignFrom(wordIds[1..], labels, wordIdx);
      assert forall k :: 1 <= k < |wordIds| ==> (StartsWord(wordIds, previous, k) <==> StartsWord(wordIds[1..], wordIdx, k - 1));
      Success([head] + rest)
  }

  /** The aligned labels of one example: `previous_word_idx` starts as `None`. Each aligned
      list is as long as the example's word ids; a token outside any word gets the ignore
      index, the first token of a word gets that word's label, and a token continuing the
      word of the token before it gets the ignore index. */
  function AlignLabels(wordIds: seq<Option<nat>>, labels: seq<int>): (r: Result<seq<int>, AlignError>)
    ensures r.Success? ==> |r.value| == |wordIds|
    ensures r.Success? ==> forall k :: 0 <= k < |wordIds| && wordIds[k].None? ==> r.value[k] == IgnoreIndex
    ensures r.Success? ==> forall k :: 0 <= k < |wordIds| && wordIds[k].Some? && (k == 0 || wordIds[k - 1] != wordIds[k]) ==>
              wordIds[k].value < |labels| && r.value[k] == labels[wordIds[k].value]
    ensures r.Success? ==> forall k :: 0 < k < |wordIds| && wordIds[k - 1] == wordIds[k] ==> r.value[k] == IgnoreIndex
    ensures r.Failure? <==> exists k :: 0 <= k < |wordIds| && wordIds[k].Some? && (k == 0 || wordIds[k - 1] != wordIds[k])
                                       && wordIds[k].value >= |labels|
  {
    forall k | 0 <= k < |wordIds|
      ensures StartsWord(wordIds, None, k) <==> wordIds[k].Some? && (k == 0 || wordIds[k - 1] != wordIds[k])
    {
      if k == 0 && wordIds[0].Some? {
        assert wordIds[0] != None;
      }
    }
    AlignFrom(wordIds, labels, None)
  }

  /** The outer loop: one aligned list per example, in order, each aligned afresh. The first
      example that indexes past its labels aborts the whole call. */
  method AlignAll(examples: seq<(seq<Option<nat>>, seq<int>)>) returns (r: Result<seq<seq<int>>, AlignError>)
    ensures r.Success? <==> forall i :: 0 <= i < |examples| ==> AlignLabels(examples[i].0, examples[i].1).Success?
    ensures r.Success? ==> |r.value| == |examples|
    ensures r.Success? ==> forall i :: 0 <= i < |examples| ==> r.value[i] == AlignLabels(examples[i].0, examples[i].1).value
  {
    var allAlignedLabels: seq<seq<int>> := [];
    var i := 0;
    while i < |examples|
      invariant 0 <= i <= |examples|
      invariant |allAlignedLabels| == i
      invariant forall j :: 0 <= j < i ==> AlignLabels(examples[j].0, examples[j].1).Success?
                                           && allAlignedLabels[j] == AlignLabels(examples[j].0, examples[j].1).value
    {
      var aligned := AlignLabels(examples[i].0, examples[i].1);
      if aligned.Failure? {
        return Failure(aligned.error);
      }
      allAlignedLabels := allAlignedLabels + [aligned.value];
      i := i + 1;
    }
    return Success(allAlignedLabels);
  }
}
