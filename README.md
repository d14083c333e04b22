# Mood journal agent — verified model of its text handling and history

The mood journal runs a journal entry through four stages: mood, tags,
reflection and history. Each stage asks a language model a question and turns
the answer into one field of a shared state. The history of reflections
is kept in a JSON file between sessions.

This project models the deterministic parts of that program in Dafny and
proves what they do:

- how the mood stage normalises the model's answer into one of three labels;
- how the tag stage parses the model's answer into at most four tags, with the
  loop of the source as an imperative method;
- the reflection stage, which is a strip of the answer;
- how the history stage appends the reflection to the history;
- how the history file is loaded and saved;
- the fixed order of the stages;
- one session of the command-line program.

Every answer of the language model is a string parameter (`reply`, or the
three fields of `Graph.Replies`).

Modules:

- `Wrappers`: `Option`.
- `Text`: the ASCII part of Python's `strip`, `lower`, `split()`, `split(sep)` and
  `replace`.
  - Whitespace is the ASCII part of `str.isspace`: code points 9–13 and 28–32.
  - `lower` maps only `A`–`Z`.
- `State`: `JournalState`, the `Sentiment` labels, and the one-key updates the
  stages return with their merge into the state.
- `Normalizer`: the label and tag parsers as functions, with their properties.
- `Nodes`: the four stages (`nodes.py`). `extract_tags`' loop is the method
  `CollectTags`, proved equal to the function `FirstTags`.
- `TagLists`: a reply that is a plain list of tags, separated by commas with or
  without a space after each, parses back to
  that list, de-duplicated and capped at four.
- `Storage`: `load_history` and `save_history` over an abstract JSON value. The
  file is the class `HistoryFile`, whose field `contents` the save replaces.
- `Graph`: the linear stage order as a composition of merges.
- `Run`: one session, as written and as intended.
- `Cases`: worked replies. Two come from the source: the `Label: positive` format
  of the mood prompt's examples (`nodes.py:49`), and the tag prompt's sample
  answer `work, stress, meetings` (`nodes.py:128`). The token `i` comes from the
  prompt's rule on one-letter tokens (`nodes.py:123`). The other replies are
  illustrations chosen for this model.

Where the repository's comments and the code disagree, the model follows the
code:

- `extract_tags` stops at four tags. The comment next to it says five
  (`nodes.py:172-174`).
- The tag prompt asks the model to drop one-letter tokens, but the parser keeps
  them (`Cases.ShortAndRepeatedTags`).
- A reply `"Label: positive"` gives `neutral`.

## Model

| member | source | states |
|---|---|---|
| `State.LabelNamed` | nodes.py:86-90 | a string names a label only when it is exactly "positive", "negative" or "neutral", and then it names that label |
| `State.Merge` | tests/test_generate_reflection.py:25-32 | `state.update(update)` overwrites exactly the key the update carries and leaves the entry and every other field as they were |
| `Text.Strip` | nodes.py:242 | `strip()` removes exactly the leading and trailing whitespace: the result is a stretch of the input with only whitespace around it, it is empty iff the input is all whitespace, and a non-empty result neither starts nor ends with whitespace |
| `Text.StripKeeps` | nodes.py:80 | text that neither starts nor ends with whitespace is its own strip |
| `Text.Lower` | nodes.py:80 | `lower()` keeps the length and maps each character by the ASCII rule |
| `Text.Words` | nodes.py:91 | `split()` yields only non-empty words without whitespace |
| `Text.WordsEmpty` | nodes.py:91-95 | `split()` yields no word exactly when the string is all whitespace |
| `Text.TokenIsLeadingWord` | nodes.py:91-94 | the first word of a string is `w` iff the string starts with `w` followed by whitespace or the end |
| `Text.SplitOn` | nodes.py:157 | `split(",")` yields at least one piece and no piece contains the separator |
| `Text.JoinSplitOn` | nodes.py:157 | joining the pieces of `split(sep)` with `sep` gives back the string |
| `Text.SplitOnJoin` | nodes.py:157 | splitting a join of separator-free pieces gives back the pieces, empty pieces included |
| `Text.ReplaceChar` | nodes.py:152 | `replace("\n", ",")` changes exactly the newline characters into commas |
| `Normalizer.NormalizeLabel` | nodes.py:80-102 | when the stripped, lower-cased reply is itself a label, that label is the result |
| `Normalizer.LabelFor` | nodes.py:86-100 | a reply that names a label gets that label; any label other than neutral is named by the whole reply or by its lower-cased first word |
| `Normalizer.LabelIsLeadingWord` | nodes.py:86-100 | the mood is positive (negative) iff the normalised reply opens with the word "positive" ("negative") followed by whitespace or the end |
| `Normalizer.NeutralUnlessLeadingLabel` | nodes.py:97-100 | the mood is neutral iff the normalised reply opens with neither word |
| `Normalizer.FirstWordLabel` | nodes.py:90-100 | when the whole reply is no label, the first word decides, and only when it is exactly a label |
| `Normalizer.NormalizedKeeps` | nodes.py:80 | a reply already stripped and lower-case is unchanged by normalisation |
| `Normalizer.Clean` | nodes.py:166 | `re.sub(r"[^a-z0-9-]", "", s)` is never longer than `s`, and keeps exactly the characters of `s` in `[a-z0-9-]` |
| `Normalizer.CleanAppend` | nodes.py:166 | the removal works character by character: cleaning a concatenation cleans each part, so the kept characters keep their order and number |
| `Normalizer.CleanChar` | nodes.py:166 | a single character is kept exactly when it is in `[a-z0-9-]` |
| `Normalizer.Pieces` | nodes.py:146-157 | the pieces hold no comma, and joined with commas they give back the stripped, lower-cased reply with its newlines turned into commas |
| `Normalizer.Candidate` | nodes.py:158-166 | what a piece contributes is empty (skipped) or a well-formed tag |
| `Normalizer.Candidates` | nodes.py:157-166 | each piece yields its candidate, position by position |
| `Normalizer.Dedup` | nodes.py:168-170 | the `seen` filter yields distinct elements that are exactly the non-empty candidates |
| `Normalizer.DedupPrefix` | nodes.py:157-170 | the tags collected from a prefix of the pieces are a prefix of those collected from all of them |
| `Normalizer.DedupOrder` | nodes.py:168-170 | the collected tags keep the order of their first occurrence |
| `Normalizer.FirstTags` | nodes.py:154-174 | the tags are at most four distinct well-formed tags, each one of the candidates |
| `Normalizer.FirstTagsComplete` | nodes.py:168-174 | the tags number min(4, distinct non-empty candidates); under four, no candidate is missing; they are the leading run of the de-duplicated candidates |
| `Normalizer.FirstTagsOrder` | nodes.py:157-174 | earlier tags were first mentioned earlier in the reply |
| `Normalizer.ParseTags` | nodes.py:146-174 | the parsed tags are at most four, distinct, each non-empty and within `[a-z0-9-]` |
| `Normalizer.ParseTagsIsFirstTags` | nodes.py:146-160 | the early return for a blank reply agrees with the general rule |
| `Nodes.AnalyzeMood` | nodes.py:30-102 | a blank entry gives neutral without looking at the reply; otherwise positive (negative) iff the normalised reply opens with that word |
| `Nodes.BlankIsAllSpace` | nodes.py:33 | the test `not s or not s.strip()` holds exactly when every character of the entry is whitespace |
| `Nodes.CleanFirstWord` | nodes.py:163-166 | the first word of a stripped, non-blank piece, cleaned, is the piece's candidate |
| `Nodes.TagsFor` | nodes.py:107-111 | a blank entry gives []; any result is at most four distinct tags |
| `Nodes.CollectTags` | nodes.py:154-174 | the loop with `seen`, `continue` and the break at four computes exactly `FirstTags` of the pieces' candidates |
| `Nodes.ExtractTags` | nodes.py:106-176 | `extract_tags` returns `TagsFor(entry, reply)`: [] for a blank entry or a blank reply, else the loop's tags |
| `Nodes.GenerateReflection` | nodes.py:239-247 | the reflection is the reply without surrounding whitespace: empty iff the reply is all whitespace |
| `Nodes.LogHistory` | nodes.py:263-277 | with no or an empty reflection the history comes back as it was, even when absent; otherwise it grows by exactly one, keeps its old prefix and ends with the reflection |
| `TagLists.ParseTagList` | nodes.py:146-174 | a comma-separated list of tags parses to the first four distinct tags in their order |
| `TagLists.ParseDistinctTagList` | nodes.py:157-174 | a list of distinct tags parses to the list itself, cut off after four |
| `TagLists.CandidateOfTag` | nodes.py:158-166 | a tag is its own candidate |
| `TagLists.CandidateOfSpacedTag` | nodes.py:158-166 | a tag behind a space is still its own candidate |
| `TagLists.ParseSpacedTagList` | nodes.py:146-174 | a list of tags written with a comma and a space after each parses to the first four distinct tags in their order, as without the spaces |
| `TagLists.ParseDistinctSpacedTagList` | nodes.py:157-174 | distinct tags written with a comma and a space parse to the list itself, cut off after four |
| `Storage.Strings` | storage.py:25-30 | the kept elements are exactly the strings of the list and never more than its length |
| `Storage.StringsAppend` | storage.py:27-29 | keeping the strings distributes over concatenation, so their order is preserved |
| `Storage.Load` | storage.py:8-47 | missing file gives [] silently; OS, decoding and JSON errors give [] with their diagnostic; a non-object document raises; an object never prints a diagnostic |
| `Storage.LoadList` | storage.py:22-30 | an object whose `history` is a list loads as exactly its strings in order |
| `Storage.LoadNotList` | storage.py:22-47 | an object whose `history` is absent or not a list loads as [] |
| `Storage.LoadStringHistory` | storage.py:22-25 | `{"history": "not-a-list"}` loads as [] |
| `Storage.LoadTopLevelArray` | storage.py:22 | a top-level array makes `data.get` raise |
| `Storage.KeepStrings` | storage.py:26-30 | the loop that appends each string element computes `Strings` of the list |
| `Storage.HistoryFile.LoadHistory` | storage.py:8-47 | `load_history` returns `Load` of the file's contents |
| `Storage.Encode` | storage.py:58 | the JSON array written for a history list has one string per entry, in order |
| `Storage.Payload` | storage.py:55-56 | the payload has the single key `history`, bound to the argument unchanged |
| `Storage.HistoryFile.SaveHistory` | storage.py:50-59 | the file then holds exactly the payload of the argument |
| `Storage.StringsOfEncode` | storage.py:25-30 | decoding the JSON array of a list of strings gives the list back |
| `Storage.SaveThenLoad` | storage.py:22-59 | loading what `save_history(h)` wrote returns `h`, with no diagnostic, `[]` included |
| `Graph.Pipeline` | graph.py:14-18 | a run leaves the entry unchanged and sets sentiment, tags and reflection |
| `Graph.PipelineLabels` | graph.py:14-15 | the final mood and tags are those of the mood and tag stages on the entry |
| `Graph.PipelineBlankEntry` | graph.py:14-15 | a blank entry ends neutral with no tags, whatever the model answers |
| `Graph.PipelineTags` | graph.py:15-16 | the final tags are at most four distinct well-formed tags |
| `Graph.PipelineHistory` | graph.py:16-18 | the final reflection is the stripped reply; the history is unchanged when it is blank, else the old entries plus the reflection |
| `Run.InitialState` | run.py:5-14 | the initial state holds the entry and the loaded history with every stage output unset |
| `Run.SavedAsWritten` | run.py:28 | storing the reflection string makes the next load return [] |
| `Run.SessionAsWritten` | run.py:17-28 | the session crashes iff loading raises (the graph builds and every answer arrives); when it finishes, the next load returns [] |
| `Run.Saved` | run.py:28 | storing the final history makes the next load return exactly that history |
| `Run.Session` | run.py:17-28 | the corrected session crashes iff loading raises (the graph builds and every answer arrives); when it finishes, the next load returns its final history |
| `Run.SessionKeepsHistory` | run.py:17-28 | after a corrected session the next load returns the loaded history, plus the stripped reflection unless it is blank |
| `Run.FirstSessionDiffers` | run.py:28 | from a missing file with a non-blank reflection, the session as written stores nothing loadable, the corrected one stores the reflection |
| `Run.NiceDayExample` | run.py:28 | the reflection "Nice day." is lost as written and kept as intended |
| `Cases.LabelPrefixIsNeutral` | nodes.py:90-100 | "Label: positive", the answer format of the prompt's examples (line 49), gives neutral |
| `Cases.LabelWithReason` | nodes.py:90-98 | "negative mood" gives negative, by its first word |
| `Cases.LabelWithFullStop` | nodes.py:90-100 | "negative." gives neutral |
| `Cases.PromptExample` | nodes.py:146-174 | the prompt's sample answer "work, stress, meetings" (line 128) parses to its three tags |
| `Cases.FiveTags` | nodes.py:157-174 | five distinct tags written with a comma and a space, "work, stress, meetings, deadlines, overload", give the first four |
| `Cases.ShortAndRepeatedTags` | nodes.py:157-170 | "i,work,i" gives "i" and "work": the one-letter token the prompt asks to drop (line 123) is kept, and repeats are dropped |

## Left out

- The language-model client, the prompts and the `hasattr(response, "content")`
  branches (`nodes.py:1-13`, `36-76`, `113-138`, `204-239`). The model's answer is
  a string parameter. A call that fails (`nodes.py:76`, `138`, `239`) is not
  modelled.
- `gratitude_branch` (`nodes.py:279-298`) is an unimplemented stub that no
  stage calls.
- The LangGraph builder and the Mermaid PNG output of `graph.py`. They are
  library and file output; only the stage order is modelled.
- `run.py`'s reading of stdin and its printing. These are interactive I/O: the
  entry is a parameter, and the printed results are the final state.
- The JSON text format (`ensure_ascii`, `indent`, UTF-8) and the filesystem.
  The file is an abstract JSON value, or one of four failures before a value
  exists. A failing write in `save_history` is not modelled.
- The diagnostics `load_history` prints are returned as a `Diagnostic` value,
  without the exception text.
- Unicode: `strip`, `lower` and `split` follow their ASCII behaviour. Non-ASCII
  whitespace and case mappings beyond `A`–`Z` are not modelled.
- JSON numbers are `real`; their precision is not modelled.
- `Nodes.ExtractTags`: the loop is the separate method `Nodes.CollectTags`, which
  `ExtractTags` calls after its two early returns. Inside the loop, the first word
  and its cleaning (`nodes.py:163-166`) are the method `Nodes.CleanFirstWord`.
- `Run.SessionAsWritten` and `Run.Session` assume that `build_graph()` succeeds and
  that every stage gets its answer. The session also ends with an uncaught error
  when the model call raises (`nodes.py:76`, `138`, `239`), or when
  `draw_mermaid_png` fails inside `build_graph()` (`graph.py:24`, reached from
  `run.py:18`). `Crashed` stands only for the error that escapes `load_history`.
- `Graph.Pipeline` uses the tag stage's specification `TagsFor`. Functions cannot
  call the method `ExtractTags`, whose contract states it returns exactly that
  value.
- The tests under `tests/` call the live model and assert nothing. Only the
  merge order of `tests/test_generate_reflection.py` is modelled.

## Findings

| source | as written | input that shows it | evidently intended | confidence | as-written member | corrected member |
|---|---|---|---|---|---|---|
| run.py:28 | `save_history(final_state["reflection"])` stores the reflection string under `history`; `load_history` then finds no list and returns `[]` | no history file, entry "Good day", reflection "Nice day.": the session ends with history `["Nice day."]`, and the next session loads `[]` | `save_history(final_state["history"])`, so the next session loads the history this one ended with | not executed | `Run.SessionAsWritten` | `Run.Session` |
