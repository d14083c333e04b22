/** The record threaded through the pipeline, and the partial updates the stages return. */
module State {
  import opened Wrappers

  /** The three mood labels; Name gives the string the pipeline stores and compares. */
  datatype Sentiment = Positive | Negative | Neutral {
    function Name(): string {
      match this
      case Positive => "positive"
      case Negative => "negative"
      case Neutral => "neutral"
    }
  }

  /** The label whose name is exactly s, if any. */
  function LabelNamed(s: string): (named: Option<Sentiment>)
    ensures named.Some? ==> named.value.Name() == s
    ensures named.None? ==> s != "positive" && s != "negative" && s != "neutral"
  {
    if s == "positive" then Some(Positive)
    else if s == "negative" then Some(Negative)
    else if s == "neutral" then Some(Neutral)
    else None
  }

  /** One optional field per stage output; entryText is set once at the start. */
  datatype JournalState = JournalState(
    entryText: string,
    sentiment: Option<Sentiment>,
    tags: Option<seq<string>>,
    reflection: Option<string>,
    history: Option<seq<string>>)

  /** The one-key dictionary a stage returns. */
  datatype Update =
    | SentimentUpdate(sentiment: Sentiment)
    | TagsUpdate(tags: seq<string>)
    | ReflectionUpdate(reflection: string)
    | HistoryUpdate(history: Option<seq<string>>)

  /** state.update(update): overwrite the one key the update carries. */
  function Merge(state: JournalState, update: Update): (next: JournalState)
    ensures next.entryText == state.entryText
    ensures update.SentimentUpdate? ==> next.sentiment == Some(update.sentiment)
    ensures update.TagsUpdate? ==> next.tags == Some(update.tags)
    ensures update.ReflectionUpdate? ==> next.reflection == Some(update.reflection)
    ensures update.HistoryUpdate? ==> next.history == update.history
    ensures !update.SentimentUpdate? ==> next.sentiment == state.sentiment
    ensures !update.TagsUpdate? ==> next.tags == state.tags
    ensures !update.ReflectionUpdate? ==> next.reflection == state.reflection
    ensures !update.HistoryUpdate? ==> next.history == state.history
  {
    match update
    case SentimentUpdate(s) => state.(sentiment := Some(s))
    case TagsUpdate(t) => state.(tags := Some(t))
    case ReflectionUpdate(r) => state.(reflection := Some(r))
    case HistoryUpdate(h) => state.(history := h)
  }
}
