/**
  One session of the command-line program: load the stored history, run the
  graph on the stripped entry, and save. Reading the entry and printing the
  results are left to the caller; the entry and the model's answers are
  parameters.
*/
module Run {
  import opened Wrappers
  import opened Text
  import opened State
  import opened Nodes
  import opened Storage
  import opened Graph

  /** initialize_state: the entry and the loaded history, every stage output unset. */
  function InitialState(entry: string, memory: seq<string>): (state: JournalState)
    ensures state.entryText == entry && state.history == Some(memory)
    ensures state.sentiment.None? && state.tags.None? && state.reflection.None?
  {
    JournalState(entry, None, None, None, Some(memory))
  }

  /** How a session ends: the final state and what the history file then holds,
      or the error that escapes load_history. */
  datatype SessionEnd =
    | Finished(final: JournalState, saved: StoredFile)
    | Crashed

  /** The final state of a session on the loaded history. */
  function FinalState(memory: seq<string>, input: string, replies: Replies): JournalState {
    Pipeline(InitialState(Strip(input), memory), replies)
  }

  /** What the program hands to save_history, as written: the final reflection.
      A string under `history` is no list, so the next load finds nothing. */
  function SavedAsWritten(final: JournalState): (saved: StoredFile)
    ensures Load(saved) == Loaded([], None)
  {
    var reflection := if final.reflection.Some? then Str(final.reflection.value) else Null;
    LoadPayloadNotList(reflection);
    Holds(Payload(reflection))
  }

  /** What save_history should be handed: the final history list, which the next
      load then returns unchanged. */
  function Saved(final: JournalState): (saved: StoredFile)
    ensures Load(saved) == Loaded(Entries(final.history), None)
  {
    SaveThenLoad(Entries(final.history));
    Holds(Payload(Encode(Entries(final.history))))
  }

  /** The session as the program writes it (run.py line 28). */
  function SessionAsWritten(file: StoredFile, input: string, replies: Replies): (end: SessionEnd)
    ensures Load(file).Raised? <==> end.Crashed?
    ensures end.Finished? ==> Load(end.saved) == Loaded([], None)
  {
    match Load(file)
    case Raised => Crashed
    case Loaded(memory, _) =>
      var final := FinalState(memory, input, replies);
      Finished(final, SavedAsWritten(final))
  }

  /** The session as intended: save_history is handed the final history list. */
  function Session(file: StoredFile, input: string, replies: Replies): (end: SessionEnd)
    ensures Load(file).Raised? <==> end.Crashed?
    ensures end.Finished? ==> Load(end.saved) == Loaded(Entries(end.final.history), None)
  {
    match Load(file)
    case Raised => Crashed
    case Loaded(memory, _) =>
      var final := FinalState(memory, input, replies);
      Finished(final, Saved(final))
  }

  /** The next session loads exactly the history this one ended with: the
      earlier entries, followed by the reflection unless it stripped to nothing. */
  lemma SessionKeepsHistory(file: StoredFile, input: string, replies: Replies)
    requires !Load(file).Raised?
    ensures Session(file, input, replies).Finished?
    ensures var memory := Load(file).history;
      var next := if AllSpace(replies.reflection) then memory else memory + [Strip(replies.reflection)];
      Load(Session(file, input, replies).saved) == Loaded(next, None)
  {
    var memory := Load(file).history;
    PipelineHistory(InitialState(Strip(input), memory), replies);
  }

  /** The first session, with no stored history: whenever the reflection is not
      blank, the program as written stores nothing the next session can load,
      while the intended one stores exactly the stripped reflection. */
  lemma FirstSessionDiffers(input: string, replies: Replies)
    requires !AllSpace(replies.reflection)
    ensures Load(SessionAsWritten(Missing, input, replies).saved) == Loaded([], None)
    ensures Load(Session(Missing, input, replies).saved) == Loaded([Strip(replies.reflection)], None)
  {
    SessionKeepsHistory(Missing, input, replies);
    assert [] + [Strip(replies.reflection)] == [Strip(replies.reflection)];
  }

  /** A concrete instance: the reflection "Nice day." is lost as written and
      kept as intended. */
  lemma NiceDayExample(input: string, mood: string, tags: string)
    ensures Load(SessionAsWritten(Missing, input, Replies(mood, tags, "Nice day.")).saved) == Loaded([], None)
    ensures Load(Session(Missing, input, Replies(mood, tags, "Nice day.")).saved) == Loaded(["Nice day."], None)
  {
    var reflection := "Nice day.";
    assert !IsSpace(reflection[0]) && !IsSpace(reflection[|reflection| - 1]);
    StripKeeps(reflection);
    FirstSessionDiffers(input, Replies(mood, tags, reflection));
  }
}
