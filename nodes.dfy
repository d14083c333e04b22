/**
  The four pipeline stages of the mood journal. Each stage reads the journal
  state and returns a one-field update. The language-model call inside a stage
  is not modelled: the text the model would answer is passed in as `reply`,
  and a stage that short-circuits simply does not look at it.
*/
module Nodes {
  import opened Wrappers
  import opened Text
  import opened State
  import opened Normalizer

  /** The entry is empty or whitespace only: the mood and tag stages then answer
      without asking the model. */
  predicate IsBlank(entry: string) {
    entry == [] || Strip(entry) == []
  }

  /** Blank means whitespace only: the test `not s or not s.strip()` holds
      exactly when every character is whitespace. */
  lemma BlankIsAllSpace(entry: string)
    ensures IsBlank(entry) <==> AllSpace(entry)
  {
  }

  // ---------------------------------------------------------------------------
  // analyze_mood
  // ---------------------------------------------------------------------------

  /** The mood stage: neutral for a blank entry, whatever the model would say;
      otherwise the label the model's reply opens with, neutral failing that. */
  function AnalyzeMood(state: JournalState, reply: string): (update: Update)
    ensures update.SentimentUpdate?
    ensures IsBlank(state.entryText) ==> update.sentiment == Neutral
    ensures !IsBlank(state.entryText) ==>
      && (update.sentiment == Positive <==> LeadsWith(Normalized(reply), "positive"))
      && (update.sentiment == Negative <==> LeadsWith(Normalized(reply), "negative"))
  {
    LabelIsLeadingWord(reply, Positive);
    LabelIsLeadingWord(reply, Negative);
    var userInput := state.entryText;
    if userInput == [] || Strip(userInput) == [] then SentimentUpdate(Neutral)
    else SentimentUpdate(NormalizeLabel(reply))
  }

  // ---------------------------------------------------------------------------
  // extract_tags
  // ---------------------------------------------------------------------------

  /** The tag stage's result: [] for a blank entry without asking the model,
      otherwise the tags parsed from the model's reply. */
  function TagsFor(entry: string, reply: string): (tags: seq<string>)
    ensures |tags| <= 4 && Distinct(tags) && forall t <- tags :: IsTag(t)
    ensures IsBlank(entry) ==> tags == []
  {
    if IsBlank(entry) then [] else ParseTags(reply)
  }

  /** For a non-blank entry and reply, the tag stage's result is read off the pieces. */
  lemma TagsForPieces(entry: string, reply: string, pieces: seq<string>)
    requires !IsBlank(entry) && Lower(Strip(reply)) != []
    requires pieces == SplitOn(ReplaceChar(Lower(Strip(reply)), '\n', ','), ',')
    ensures TagsFor(entry, reply) == FirstTags(Candidates(pieces))
  {
  }

  /** One turn of the loop: the tags grow by the piece's candidate exactly when
      it is non-empty and not yet collected. */
  lemma CollectStep(cands: seq<string>, i: nat, tags: seq<string>)
    requires i < |cands| && tags == Dedup(cands[..i])
    ensures cands[i] == [] ==> Dedup(cands[..i + 1]) == tags
    ensures cands[i] != [] && cands[i] in tags ==> Dedup(cands[..i + 1]) == tags
    ensures cands[i] != [] && cands[i] !in tags ==> Dedup(cands[..i + 1]) == tags + [cands[i]]
  {
    DedupStep(cands, i);
  }

  /** The body of the loop on a piece that is not blank once stripped: its first
      word, with every character outside [a-z0-9-] removed. */
  method CleanFirstWord(piece: string, item: string) returns (tag: string)
    requires item == Strip(piece) && item != []
    ensures tag == Candidate(piece)
  {
    CandidateSteps(piece);
    tag := Words(item)[0];
    tag := Clean(tag);
  }

  /** The for loop of extract_tags over the comma-separated pieces, with its
      `seen` set, its skip of blank pieces and its stop at four tags. */
  method CollectTags(pieces: seq<string>) returns (tags: seq<string>)
    ensures tags == FirstTags(Candidates(pieces))
  {
    ghost var cands := Candidates(pieces);
    var seen: set<string> := {};
    tags := [];
    var i := 0;
    while i < |pieces|
      invariant 0 <= i <= |pieces|
      invariant tags == Dedup(cands[..i])
      invariant forall t :: t in seen <==> t in tags
      invariant |tags| < 4
    {
      CollectStep(cands, i, tags);
      var item := Strip(pieces[i]);
      if item == [] {
        CandidateSteps(pieces[i]);
        i := i + 1;
        continue;
      }
      item := CleanFirstWord(pieces[i], item);
      if item != [] && item !in seen {
        seen := seen + {item};
        tags := tags + [item];
      }
      i := i + 1;
      if |tags| == 4 {
        break;
      }
    }
    LoopDone(cands, i, tags);
  }

  /** extract_tags: [] for a blank entry or a blank reply, otherwise the tags
      the loop collects from the reply's pieces. */
  method ExtractTags(state: JournalState, reply: string) returns (update: Update)
    ensures update == TagsUpdate(TagsFor(state.entryText, reply))
  {
    var userInput := state.entryText;
    if userInput == [] || Strip(userInput) == [] {
      return TagsUpdate([]);
    }
    var raw := Lower(Strip(reply));
    if raw == [] {
      return TagsUpdate([]);
    }
    raw := ReplaceChar(raw, '\n', ',');
    var pieces := SplitOn(raw, ',');
    var tags := CollectTags(pieces);
    TagsForPieces(userInput, reply, pieces);
    update := TagsUpdate(tags);
  }

  // ---------------------------------------------------------------------------
  // generate_reflection
  // ---------------------------------------------------------------------------

  /** The reflection stage passes the model's reply through, only stripped. */
  function GenerateReflection(state: JournalState, reply: string): (update: Update)
    ensures update.ReflectionUpdate?
    ensures IsStripOf(update.reflection, reply)
    ensures update.reflection == [] <==> AllSpace(reply)
    ensures update.reflection != [] ==>
      !IsSpace(update.reflection[0]) && !IsSpace(update.reflection[|update.reflection| - 1])
  {
    ReflectionUpdate(Strip(reply))
  }

  // ---------------------------------------------------------------------------
  // log_history
  // ---------------------------------------------------------------------------

  /** Python truthiness of an optional string: present and non-empty. */
  predicate Truthy(s: Option<string>) {
    s.Some? && s.value != []
  }

  /** The history as a list, an absent one counting as empty. */
  function Entries(history: Option<seq<string>>): seq<string> {
    if history.Some? then history.value else []
  }

  /** The history stage: append a non-empty reflection to the history, producing a
      new list; with no reflection the history is handed back as it was. */
  function LogHistory(state: JournalState): (update: Update)
    ensures update.HistoryUpdate?
    ensures !Truthy(state.reflection) ==> update.history == state.history
    ensures Truthy(state.reflection) ==>
      var before := Entries(state.history);
      && update.history.Some?
      && |update.history.value| == |before| + 1
      && update.history.value[..|before|] == before
      && update.history.value[|before|] == state.reflection.value
  {
    var reflection := state.reflection;
    var history := state.history;
    if !Truthy(reflection) then HistoryUpdate(history)
    else if history.None? then HistoryUpdate(Some([reflection.value]))
    else HistoryUpdate(Some(history.value + [reflection.value]))
  }
}
