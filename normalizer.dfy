/**
  The normalisation rules the mood and tag stages apply to a model reply:
  the label a reply maps to, and the tags parsed out of it. Pure functions
  of the reply text, with the properties that make them safe to trust.
*/
module Normalizer {
  import opened Wrappers
  import opened Text
  import opened State

  // ---------------------------------------------------------------------------
  // Mood labels
  // ---------------------------------------------------------------------------

  /** The reply as analyze_mood first normalises it: stripped, then lower-cased. */
  function Normalized(reply: string): string {
    Lower(Strip(reply))
  }

  /** `text` opens with the word `word`: the word, then whitespace or the end. */
  predicate LeadsWith(text: string, word: string) {
    |word| <= |text| && text[..|word|] == word && (|word| == |text| || IsSpace(text[|word|]))
  }

  /** The label analyze_mood settles on for a model reply: the whole normalised
      reply if it names a label, else its first word if that names a label,
      else neutral. */
  function NormalizeLabel(reply: string): (mood: Sentiment)
    ensures LabelNamed(Normalized(reply)).Some? ==> mood.Name() == Normalized(reply)
  {
    LabelFor(Normalized(reply))
  }

  /** The label chosen for an already normalised reply `raw`. */
  function LabelFor(raw: string): (mood: Sentiment)
    ensures LabelNamed(raw).Some? ==> mood.Name() == raw
    ensures mood != Neutral ==> mood.Name() == raw || mood.Name() == FirstWordOf(raw)
  {
    match LabelNamed(raw)
    case Some(known) =>
      NamedIs(raw, known);
      known
    case None =>
      match LabelNamed(FirstWordOf(raw))
      case Some(known) =>
        NamedIs(FirstWordOf(raw), known);
        known
      case None => Neutral
  }

  /** The lower-cased first word of raw, "" when raw has no word. */
  function FirstWordOf(raw: string): string {
    var words := Words(raw);
    if words != [] then Lower(words[0]) else ""
  }

  /** On a normalised reply, the first word is the leading token. */
  lemma FirstWordIsToken(raw: string)
    requires raw != [] && !IsSpace(raw[0])
    requires forall i :: 0 <= i < |raw| ==> LowerChar(raw[i]) == raw[i]
    ensures FirstWordOf(raw) == Token(raw)
  {
    var w := Token(raw);
    forall i | 0 <= i < |w|
      ensures LowerChar(w[i]) == w[i]
    {
      assert w[i] == raw[i];
    }
    LowerOfLowered(w);
    FirstWord(raw);
  }

  /** No label name opens with a different label name. */
  lemma NamesDoNotLead(a: Sentiment, b: Sentiment)
    requires a != b
    ensures !LeadsWith(a.Name(), b.Name())
  {
    assert a.Name()[0] != b.Name()[0] || a.Name()[2] != b.Name()[2];
  }

  /** On a normalised reply (no leading space, nothing left to lower-case), the
      chosen label is positive or negative exactly when the reply opens with it. */
  lemma LabelForIsLeadingWord(raw: string, mood: Sentiment)
    requires mood != Neutral
    requires raw == [] || !IsSpace(raw[0])
    requires forall i :: 0 <= i < |raw| ==> LowerChar(raw[i]) == raw[i]
    ensures LabelFor(raw) == mood <==> LeadsWith(raw, mood.Name())
  {
    match LabelNamed(raw)
    case Some(known) =>
      if known != mood {
        NamesDoNotLead(known, mood);
      }
    case None =>
      FirstWordLabel(raw, mood);
  }

  /** A string names the label exactly when it is the label's name. */
  lemma NamedIs(w: string, mood: Sentiment)
    ensures LabelNamed(w) == Some(mood) <==> w == mood.Name()
  {
    if w == mood.Name() {
      match mood
      case Positive =>
      case Negative =>
        assert w != "positive" by { assert w[0] != "positive"[0]; }
      case Neutral =>
        assert w != "positive" by { assert w[0] != "positive"[0]; }
        assert w != "negative" by { assert w[2] != "negative"[2]; }
    }
  }

  /** Lower-casing a string with nothing left to lower-case changes nothing. */
  lemma LowerOfLowered(w: string)
    requires forall i :: 0 <= i < |w| ==> LowerChar(w[i]) == w[i]
    ensures Lower(w) == w
  {
  }

  /** A reply already stripped and in lower case is its own normalisation. */
  lemma NormalizedKeeps(s: string)
    requires s != [] && !IsSpace(s[0]) && !IsSpace(s[|s| - 1])
    requires forall i :: 0 <= i < |s| ==> LowerChar(s[i]) == s[i]
    ensures Normalized(s) == s
  {
    StripKeeps(s);
    LowerOfLowered(s);
  }

  /** When the whole reply names no label, its first word decides. */
  lemma FirstWordLabel(raw: string, mood: Sentiment)
    requires mood != Neutral
    requires LabelNamed(raw).None?
    requires raw == [] || !IsSpace(raw[0])
    requires forall i :: 0 <= i < |raw| ==> LowerChar(raw[i]) == raw[i]
    ensures LabelFor(raw) == mood <==> LeadsWith(raw, mood.Name())
  {
    var word := mood.Name();
    assert word != [] && NoSpace(word);
    if raw != [] {
      FirstWordIsToken(raw);
      NamedIs(Token(raw), mood);
      TokenIsLeadingWord(raw, word);
    }
  }

  /** positive or negative is chosen exactly when the normalised reply opens with
      that word; "label: positive" and "negative." therefore give neutral. */
  lemma LabelIsLeadingWord(reply: string, mood: Sentiment)
    requires mood != Neutral
    ensures NormalizeLabel(reply) == mood <==> LeadsWith(Normalized(reply), mood.Name())
  {
    var stripped := Strip(reply);
    LowerKeepsSpace(stripped);
    LabelForIsLeadingWord(Normalized(reply), mood);
  }

  /** neutral is the answer exactly when the normalised reply opens with neither
      positive nor negative. */
  lemma NeutralUnlessLeadingLabel(reply: string)
    ensures NormalizeLabel(reply) == Neutral <==>
      !LeadsWith(Normalized(reply), "positive") && !LeadsWith(Normalized(reply), "negative")
  {
    LabelIsLeadingWord(reply, Positive);
    LabelIsLeadingWord(reply, Negative);
  }

  // ---------------------------------------------------------------------------
  // Tags
  // ---------------------------------------------------------------------------

  /** The characters re.sub(r"[^a-z0-9-]", "", ...) keeps. */
  predicate IsTagChar(c: char) {
    'a' <= c <= 'z' || '0' <= c <= '9' || c == '-'
  }

  predicate IsTag(t: string) {
    t != [] && forall i :: 0 <= i < |t| ==> IsTagChar(t[i])
  }

  /** re.sub(r"[^a-z0-9-]", "", s): s with every other character removed. */
  function Clean(s: string): (r: string)
    ensures |r| <= |s|
    ensures forall i :: 0 <= i < |r| ==> IsTagChar(r[i])
    ensures forall c :: c in r <==> c in s && IsTagChar(c)
  {
    if s == [] then []
    else
      assert s == [s[0]] + s[1..];
      (if IsTagChar(s[0]) then [s[0]] else []) + Clean(s[1..])
  }

  /** The substitution works character by character: cleaning distributes over
      concatenation, so the kept characters stay in their order and number. */
  lemma {:induction false} CleanAppend(a: string, b: string)
    ensures Clean(a + b) == Clean(a) + Clean(b)
    decreases |a|
  {
    if a == [] {
      assert a + b == b;
    } else {
      assert (a + b)[0] == a[0];
      assert (a + b)[1..] == a[1..] + b;
      CleanAppend(a[1..], b);
    }
  }

  /** A single character survives exactly when it is a tag character. */
  lemma CleanChar(c: char)
    ensures Clean([c]) == if IsTagChar(c) then [c] else []
  {
    assert [c][1..] == [];
  }

  /** The pieces extract_tags loops over: the stripped, lower-cased reply with
      newlines turned into commas, split on commas. */
  function Pieces(reply: string): (pieces: seq<string>)
    ensures |pieces| >= 1 && forall p <- pieces :: ',' !in p
    ensures Join(pieces, ',') == ReplaceChar(Lower(Strip(reply)), '\n', ',')
  {
    var raw := ReplaceChar(Lower(Strip(reply)), '\n', ',');
    JoinSplitOn(raw, ',');
    SplitOn(raw, ',')
  }

  /** What one piece contributes: the cleaned first word of the stripped piece,
      or "" when the piece is blank (skipped) or cleans to nothing. */
  function Candidate(piece: string): (tag: string)
    ensures tag == [] || IsTag(tag)
  {
    var item := Strip(piece);
    if item == [] then []
    else
      FirstWord(item);
      Clean(Words(item)[0])
  }

  function Candidates(pieces: seq<string>): (cands: seq<string>)
    ensures |cands| == |pieces|
    ensures forall k :: 0 <= k < |pieces| ==> cands[k] == Candidate(pieces[k])
    ensures forall c <- cands :: c == [] || IsTag(c)
  {
    seq(|pieces|, k requires 0 <= k < |pieces| => Candidate(pieces[k]))
  }

  /** The non-empty strings of xs, each kept at its first occurrence, in order. */
  function Dedup(xs: seq<string>): (r: seq<string>)
    ensures forall i, j :: 0 <= i < j < |r| ==> r[i] != r[j]
    ensures forall x :: x in r <==> x != [] && x in xs
  {
    if xs == [] then []
    else
      var d := Dedup(xs[..|xs| - 1]);
      var x := xs[|xs| - 1];
      assert xs == xs[..|xs| - 1] + [x];
      if x == [] || x in d then d else d + [x]
  }

  /** The tags drawn from a prefix of the candidates are a prefix of all the tags. */
  lemma {:induction false} DedupPrefix(xs: seq<string>, i: nat)
    requires i <= |xs|
    ensures |Dedup(xs[..i])| <= |Dedup(xs)|
    ensures Dedup(xs[..i]) == Dedup(xs)[..|Dedup(xs[..i])|]
    decreases |xs| - i
  {
    if i == |xs| {
      assert xs[..i] == xs;
    } else {
      var front := xs[..|xs| - 1];
      assert front[..i] == xs[..i];
      DedupPrefix(front, i);
    }
  }

  /** Position of the first occurrence of x in xs. */
  function FirstIndex(xs: seq<string>, x: string): (k: nat)
    requires x in xs
    ensures k < |xs| && xs[k] == x && x !in xs[..k]
  {
    if xs[0] == x then 0
    else
      var k := 1 + FirstIndex(xs[1..], x);
      assert xs[..k] == [xs[0]] + xs[1..][..k - 1];
      k
  }

  /** Dedup keeps first-occurrence order: an earlier tag first appears earlier. */
  lemma DedupOrder(xs: seq<string>, i: nat, j: nat)
    requires i < j < |Dedup(xs)|
    ensures Dedup(xs)[i] in xs && Dedup(xs)[j] in xs
    ensures FirstIndex(xs, Dedup(xs)[i]) < FirstIndex(xs, Dedup(xs)[j])
  {
    var r := Dedup(xs);
    var k := FirstIndex(xs, r[j]);
    DedupPrefix(xs, k + 1);
    var d := Dedup(xs[..k + 1]);
    assert xs[..k + 1][k] == r[j];
    assert r[j] in d;
    var l :| 0 <= l < |d| && d[l] == r[j];
    assert r[l] == r[j];
    assert j < |d|;
    assert r[i] == d[i];
    assert r[i] in xs[..k + 1];
    var m :| 0 <= m < k + 1 && xs[..k + 1][m] == r[i];
    assert xs[m] == r[i];
    assert m != k;
    var fi := FirstIndex(xs, r[i]);
    assert fi <= m;
  }

  predicate Distinct(xs: seq<string>) {
    forall i, j :: 0 <= i < j < |xs| ==> xs[i] != xs[j]
  }

  /** A repetition-free sequence has as many elements as its set of elements. */
  lemma {:induction false} DistinctCardinality(xs: seq<string>)
    requires Distinct(xs)
    ensures |set x | x in xs| == |xs|
  {
    if xs != [] {
      var front := xs[..|xs| - 1];
      DistinctCardinality(front);
      assert xs == front + [xs[|xs| - 1]];
      assert xs[|xs| - 1] !in front;
      assert (set x | x in xs) == (set x | x in front) + {xs[|xs| - 1]};
    }
  }

  function Min(a: nat, b: nat): nat {
    if a <= b then a else b
  }

  /** The first four distinct non-empty candidates, in first-occurrence order. */
  function FirstTags(cands: seq<string>): (tags: seq<string>)
    requires forall c <- cands :: c == [] || IsTag(c)
    ensures |tags| <= 4
    ensures forall t <- tags :: IsTag(t)
    ensures Distinct(tags)
    ensures forall t <- tags :: t in cands
  {
    var all := Dedup(cands);
    var tags := if |all| <= 4 then all else all[..4];
    assert forall t <- tags :: t in all;
    tags
  }

  /** No distinct candidate is lost unless the cap of four is reached, and the
      tags are the leading run of the de-duplicated candidates. */
  lemma FirstTagsComplete(cands: seq<string>)
    requires forall c <- cands :: c == [] || IsTag(c)
    ensures |FirstTags(cands)| == Min(4, |set c | c in cands && c != []|)
    ensures |FirstTags(cands)| < 4 ==> forall c <- cands :: c != [] ==> c in FirstTags(cands)
    ensures FirstTags(cands) == Dedup(cands)[..|FirstTags(cands)|]
  {
    var all := Dedup(cands);
    DistinctCardinality(all);
    assert (set x | x in all) == (set c | c in cands && c != []);
  }

  /** The tags keep the order in which the candidates first mention them. */
  lemma FirstTagsOrder(cands: seq<string>, i: nat, j: nat)
    requires forall c <- cands :: c == [] || IsTag(c)
    requires i < j < |FirstTags(cands)|
    ensures FirstIndex(cands, FirstTags(cands)[i]) < FirstIndex(cands, FirstTags(cands)[j])
  {
    FirstTagsComplete(cands);
    DedupOrder(cands, i, j);
  }

  /** The tags extract_tags parses out of a model reply: [] for a reply that is
      blank once stripped, otherwise the first four distinct cleaned first words
      of its comma- or newline-separated pieces. */
  function ParseTags(reply: string): (tags: seq<string>)
    ensures |tags| <= 4
    ensures forall t <- tags :: IsTag(t)
    ensures Distinct(tags)
    ensures forall t <- tags :: t in Candidates(Pieces(reply))
  {
    var raw := Lower(Strip(reply));
    if raw == [] then [] else FirstTags(Candidates(Pieces(reply)))
  }

  /** The early return for a blank reply agrees with the general rule: a blank
      reply has the single blank piece, which yields no tag. */
  lemma ParseTagsIsFirstTags(reply: string)
    ensures ParseTags(reply) == FirstTags(Candidates(Pieces(reply)))
  {
    if Lower(Strip(reply)) == [] {
      assert Strip(reply) == [];
      assert ReplaceChar(Lower(Strip(reply)), '\n', ',') == [];
      assert Pieces(reply) == [[]];
      assert Candidates(Pieces(reply)) == [[]];
    }
  }

  /** One more candidate: Dedup keeps it exactly when it is non-empty and new. */
  lemma DedupStep(xs: seq<string>, i: nat)
    requires i < |xs|
    ensures Dedup(xs[..i + 1]) ==
      if xs[i] == [] || xs[i] in Dedup(xs[..i]) then Dedup(xs[..i]) else Dedup(xs[..i]) + [xs[i]]
  {
    assert xs[..i + 1][..i] == xs[..i];
  }

  /** Where the loop of extract_tags stops, it holds the first four tags. */
  lemma LoopDone(cands: seq<string>, i: nat, tags: seq<string>)
    requires forall c <- cands :: c == [] || IsTag(c)
    requires i <= |cands| && tags == Dedup(cands[..i])
    requires |tags| <= 4 && (|tags| == 4 || i == |cands|)
    ensures tags == FirstTags(cands)
  {
    DedupPrefix(cands, i);
    assert cands[..|cands|] == cands;
    var all := Dedup(cands);
    if |tags| == 4 && |all| == 4 {
      assert all[..4] == all;
    }
  }

  /** The steps the loop body takes on one piece produce its candidate. */
  lemma CandidateSteps(piece: string)
    ensures Strip(piece) == [] ==> Candidate(piece) == []
    ensures Strip(piece) != [] ==> Words(Strip(piece)) != [] && Clean(Words(Strip(piece))[0]) == Candidate(piece)
  {
    if Strip(piece) != [] {
      FirstWord(Strip(piece));
    }
  }
}
