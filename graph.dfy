/**
  The compiled graph: the four stages run in the fixed order mood, tags,
  reflection, history, each stage's one-key update overwriting that key of the
  state before the next stage reads it.
*/
module Graph {
  import opened Wrappers
  import opened Text
  import opened State
  import opened Normalizer
  import opened Nodes

  /** What the language model answers to the three prompts of one run. */
  datatype Replies = Replies(mood: string, tags: string, reflection: string)

  /** The state after the mood and tag stages. */
  function Labelled(state: JournalState, replies: Replies): JournalState {
    var s1 := Merge(state, AnalyzeMood(state, replies.mood));
    Merge(s1, TagsUpdate(TagsFor(s1.entryText, replies.tags)))
  }

  /** The state after the reflection stage as well. */
  function Reflected(state: JournalState, replies: Replies): JournalState {
    var s2 := Labelled(state, replies);
    Merge(s2, GenerateReflection(s2, replies.reflection))
  }

  /** One invocation of the graph on a state: every stage output is set, and the
      entry is never touched. */
  function Pipeline(state: JournalState, replies: Replies): (final: JournalState)
    ensures final.entryText == state.entryText
    ensures final.sentiment.Some? && final.tags.Some? && final.reflection.Some?
  {
    var s3 := Reflected(state, replies);
    Merge(s3, LogHistory(s3))
  }

  /** The mood and tags a run ends with are those of the two stages on the entry. */
  lemma PipelineLabels(state: JournalState, replies: Replies)
    ensures Pipeline(state, replies).sentiment == Some(AnalyzeMood(state, replies.mood).sentiment)
    ensures Pipeline(state, replies).tags == Some(TagsFor(state.entryText, replies.tags))
  {
  }

  /** A blank entry ends neutral and untagged, whatever the model answers. */
  lemma PipelineBlankEntry(state: JournalState, replies: Replies)
    requires IsBlank(state.entryText)
    ensures Pipeline(state, replies).sentiment == Some(Neutral)
    ensures Pipeline(state, replies).tags == Some([])
  {
    PipelineLabels(state, replies);
  }

  /** The tags a run ends with are at most four distinct well-formed tags. */
  lemma PipelineTags(state: JournalState, replies: Replies)
    ensures var tags := Pipeline(state, replies).tags.value;
      |tags| <= 4 && Distinct(tags) && forall t <- tags :: IsTag(t)
  {
    PipelineLabels(state, replies);
  }

  /** The history after a run: unchanged when the reflection strips to nothing,
      otherwise the earlier entries followed by the new, stripped reflection. */
  lemma PipelineHistory(state: JournalState, replies: Replies)
    ensures Pipeline(state, replies).reflection == Some(Strip(replies.reflection))
    ensures AllSpace(replies.reflection) ==> Pipeline(state, replies).history == state.history
    ensures !AllSpace(replies.reflection) ==>
      Pipeline(state, replies).history == Some(Entries(state.history) + [Strip(replies.reflection)])
  {
    var s3 := Reflected(state, replies);
    assert s3.history == state.history;
    assert s3.reflection == Some(Strip(replies.reflection));
    var h := LogHistory(s3).history;
    if !AllSpace(replies.reflection) {
      var before := Entries(state.history);
      assert h.value == before + [Strip(replies.reflection)];
    }
  }
}
