/**
  Worked cases of the two parsers on particular replies.
*/
module Cases {
  import opened Text
  import opened State
  import opened Normalizer
  import opened TagLists

  /** Text whose first character differs from the word's does not lead with it. */
  lemma NotLeading(text: string, word: string)
    requires text != [] && word != [] && text[0] != word[0]
    ensures !LeadsWith(text, word)
  {
    if |word| <= |text| {
      assert text[..|word|][0] == text[0];
    }
  }

  /** A reply that opens with the prefix "Label:" is not a label, so the mood is
      neutral even though the word positive follows. */
  lemma LabelPrefixIsNeutral(reply: string)
    requires reply == "Label: positive"
    ensures NormalizeLabel(reply) == Neutral
  {
    StripKeeps(reply);
    var text := Normalized(reply);
    assert text[0] == LowerChar(reply[0]) == 'l';
    NotLeading(text, "positive");
    NotLeading(text, "negative");
    NeutralUnlessLeadingLabel(reply);
  }

  /** A label followed by an explanation is recognised from its first word. */
  lemma LabelWithReason(reply: string)
    requires reply == "negative mood"
    ensures NormalizeLabel(reply) == Negative
  {
    assert forall i :: 0 <= i < |reply| ==> LowerChar(reply[i]) == reply[i];
    NormalizedKeeps(reply);
    assert reply[..8] == "negative";
    LabelIsLeadingWord(reply, Negative);
  }

  /** A label glued to punctuation is not a word of its own: neutral. */
  lemma LabelWithFullStop(reply: string)
    requires reply == "negative."
    ensures NormalizeLabel(reply) == Neutral
  {
    StripKeeps(reply);
    var text := Normalized(reply);
    assert text[0] == 'n' && text[8] == '.';
    NotLeading(text, "positive");
    NeutralUnlessLeadingLabel(reply);
  }

  /** The sample answer the tag prompt shows parses to its three tags. */
  lemma PromptExample(ts: seq<string>, reply: string)
    requires ts == ["work", "stress", "meetings"]
    requires reply == "work, stress, meetings"
    ensures ParseTags(reply) == ts
  {
    assert forall t <- ts :: IsTag(t);
    PromptExampleText(ts);
    ParseDistinctSpacedTagList(ts);
    assert ts[..3] == ts;
  }

  /** Five distinct tags, the most the prompt asks for, written with a comma
      and a space ("work, stress, meetings, deadlines, overload"): the first
      four are kept, in order. */
  lemma FiveTags(ts: seq<string>, reply: string)
    requires ts == ["work", "stress", "meetings", "deadlines", "overload"]
    requires reply == Join(Spaced(ts), ',')
    ensures ParseTags(reply) == ts[..4]
  {
    assert forall t <- ts :: IsTag(t);
    ParseDistinctSpacedTagList(ts);
  }

  /** The sample answer is its three tags written with a comma and a space. */
  lemma PromptExampleText(ts: seq<string>)
    requires ts == ["work", "stress", "meetings"]
    ensures Join(Spaced(ts), ',') == "work, stress, meetings"
  {
    var ps := Spaced(ts);
    assert ps == [ts[0], [' '] + ts[1], [' '] + ts[2]];
    assert ps[2..] == [ps[2]] && ps[1..][1..] == ps[2..];
    assert Join(ps[1..], ',') == ps[1] + [','] + ps[2];
    assert Join(ps, ',') == ps[0] + [','] + (ps[1] + [','] + ps[2]);
  }

  /** There is no minimum length, and a repeated tag is kept once. */
  lemma ShortAndRepeatedTags(ts: seq<string>)
    requires ts == ["i", "work", "i"]
    ensures ParseTags(Join(ts, ',')) == ts[..2]
  {
    assert IsTag(ts[0]) && IsTag(ts[1]);
    assert forall t <- ts :: IsTag(t);
    ParseTagList(ts);
    RepeatedTagDropped(ts);
  }

  /** De-duplicating i, work, i drops the second i. */
  lemma RepeatedTagDropped(ts: seq<string>)
    requires ts == ["i", "work", "i"]
    ensures Dedup(ts) == ts[..2]
  {
    var front := ts[..2];
    assert front[0] != front[1];
    DedupDistinct(front);
    DedupStep(ts, 2);
    assert ts[..3] == ts;
  }
}
