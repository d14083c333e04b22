/**
  The history file. Its contents are modelled as an abstract JSON value, or one
  of the ways reading it can go wrong before a value exists: the file is
  missing, the operating system refuses the read, the bytes are not UTF-8, or
  the text is not JSON.
*/
module Storage {
  import opened Wrappers

  /** A parsed JSON document. */
  datatype Json =
    | Null
    | Bool(b: bool)
    | Number(n: real)
    | Str(s: string)
    | Array(items: seq<Json>)
    | Object(members: map<string, Json>)

  /** What the history file holds, as far as load_history can tell. */
  datatype StoredFile =
    | Missing
    | Unreadable
    | NotUtf8
    | NotJson
    | Holds(data: Json)

  /** The message load_history prints before falling back to the empty history. */
  datatype Diagnostic = InvalidJson | EncodingIssue | FileSystemError

  /** The result of load_history: a history, with the diagnostic printed on the
      way if any; or the AttributeError that escapes when the document is not an
      object. */
  datatype LoadOutcome =
    | Loaded(history: seq<string>, diagnostic: Option<Diagnostic>)
    | Raised

  /** The string elements of a JSON array, in their order, the others dropped. */
  function Strings(items: seq<Json>): (strings: seq<string>)
    ensures |strings| <= |items|
    ensures forall s :: s in strings <==> Str(s) in items
  {
    if items == [] then []
    else
      var rest := Strings(items[..|items| - 1]);
      assert items == items[..|items| - 1] + [items[|items| - 1]];
      match items[|items| - 1]
      case Str(s) => rest + [s]
      case _ => rest
  }

  /** Strings keeps order: it distributes over concatenation. */
  lemma {:induction false} StringsAppend(a: seq<Json>, b: seq<Json>)
    ensures Strings(a + b) == Strings(a) + Strings(b)
    decreases |b|
  {
    if b == [] {
      assert a + b == a;
    } else {
      var b' := b[..|b| - 1];
      assert (a + b)[..|a + b| - 1] == a + b';
      assert (a + b)[|a + b| - 1] == b[|b| - 1];
      StringsAppend(a, b');
    }
  }

  /** The `history` member of an object, Null when the key is absent (dict.get). */
  function Member(members: map<string, Json>, key: string): Json {
    if key in members then members[key] else Null
  }

  /** What load_history returns for the file's contents. */
  function Load(file: StoredFile): (outcome: LoadOutcome)
    ensures file.Missing? ==> outcome == Loaded([], None)
    ensures file.Unreadable? ==> outcome == Loaded([], Some(FileSystemError))
    ensures file.NotUtf8? ==> outcome == Loaded([], Some(EncodingIssue))
    ensures file.NotJson? ==> outcome == Loaded([], Some(InvalidJson))
    ensures file.Holds? ==> (outcome.Raised? <==> !file.data.Object?)
    ensures file.Holds? && file.data.Object? ==> outcome.diagnostic.None?
  {
    match file
    case Missing => Loaded([], None)
    case Unreadable => Loaded([], Some(FileSystemError))
    case NotUtf8 => Loaded([], Some(EncodingIssue))
    case NotJson => Loaded([], Some(InvalidJson))
    case Holds(data) =>
      if !data.Object? then Raised
      else
        var history := Member(data.members, "history");
        if history.Array? then Loaded(Strings(history.items), None)
        else Loaded([], None)
  }

  /** A document whose `history` is a list loads as exactly its strings, in order. */
  lemma LoadList(members: map<string, Json>, items: seq<Json>)
    requires "history" in members && members["history"] == Array(items)
    ensures Load(Holds(Object(members))) == Loaded(Strings(items), None)
  {
  }

  /** A document whose `history` is absent or anything but a list loads as []. */
  lemma LoadNotList(members: map<string, Json>)
    requires "history" !in members || !members["history"].Array?
    ensures Load(Holds(Object(members))) == Loaded([], None)
  {
  }

  /** The document holding `"history": "not-a-list"` loads as []. */
  lemma LoadStringHistory()
    ensures Load(Holds(Object(map["history" := Str("not-a-list")]))) == Loaded([], None)
  {
  }

  /** A payload that does not wrap a list loads as []. */
  lemma LoadPayloadNotList(history: Json)
    requires !history.Array?
    ensures Load(Holds(Payload(history))) == Loaded([], None)
  {
    LoadNotList(Payload(history).members);
  }

  /** A top-level array is not an object: the lookup raises. */
  lemma LoadTopLevelArray(items: seq<Json>)
    ensures Load(Holds(Array(items))).Raised?
  {
  }

  /** A history list as the JSON array json.dumps writes for it. */
  function Encode(history: seq<string>): (json: Json)
    ensures json.Array? && |json.items| == |history|
    ensures forall i :: 0 <= i < |history| ==> json.items[i] == Str(history[i])
  {
    Array(seq(|history|, i requires 0 <= i < |history| => Str(history[i])))
  }

  /** The object save_history writes: the one key `history`, bound to the argument. */
  function Payload(history: Json): (payload: Json)
    ensures payload.Object? && payload.members.Keys == {"history"}
    ensures payload.members["history"] == history
  {
    Object(map["history" := history])
  }

  /** Decoding an encoded history gives it back. */
  lemma {:induction false} StringsOfEncode(history: seq<string>)
    ensures Strings(Encode(history).items) == history
    decreases |history|
  {
    if history != [] {
      var front := history[..|history| - 1];
      var items := Encode(history).items;
      assert items == Encode(front).items + [Str(history[|history| - 1])];
      StringsAppend(Encode(front).items, [Str(history[|history| - 1])]);
      StringsOfEncode(front);
      assert history == front + [history[|history| - 1]];
    }
  }

  /** Round trip: loading what save_history wrote for a list of strings returns
      that list, with no diagnostic. */
  lemma SaveThenLoad(history: seq<string>)
    ensures Load(Holds(Payload(Encode(history)))) == Loaded(history, None)
  {
    StringsOfEncode(history);
  }

  /** The loop of load_history that appends each string element to `cleaned`. */
  method KeepStrings(items: seq<Json>) returns (cleaned: seq<string>)
    ensures cleaned == Strings(items)
  {
    cleaned := [];
    var i := 0;
    while i < |items|
      invariant 0 <= i <= |items|
      invariant cleaned == Strings(items[..i])
    {
      assert items[..i + 1] == items[..i] + [items[i]];
      StringsAppend(items[..i], [items[i]]);
      if items[i].Str? {
        cleaned := cleaned + [items[i].s];
      }
      i := i + 1;
    }
    assert items[..i] == items;
  }

  /** The single history file the program reads and writes. */
  class HistoryFile {
    var contents: StoredFile

    constructor (contents: StoredFile)
      ensures this.contents == contents
    {
      this.contents := contents;
    }

    /** load_history: the string elements of the stored `history` list, kept
        in order by a loop; [] when the file is missing, unreadable or holds no
        list. */
    method LoadHistory() returns (outcome: LoadOutcome)
      ensures outcome == Load(contents)
    {
      match contents
      case Missing =>
        return Loaded([], None);
      case Unreadable =>
        return Loaded([], Some(FileSystemError));
      case NotUtf8 =>
        return Loaded([], Some(EncodingIssue));
      case NotJson =>
        return Loaded([], Some(InvalidJson));
      case Holds(data) =>
        if !data.Object? {
          return Raised;
        }
        var history := Member(data.members, "history");
        if history.Array? {
          var cleaned := KeepStrings(history.items);
          return Loaded(cleaned, None);
        }
        return Loaded([], None);
    }

    /** save_history: build the payload object and replace the file with it. */
    method SaveHistory(history: Json)
      modifies this
      ensures contents == Holds(Payload(history))
    {
      var payload: map<string, Json> := map[];
      payload := payload["history" := history];
      contents := Holds(Object(payload));
    }
  }
}
