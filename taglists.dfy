/**
  Replies that are plain lists of tags, separated by commas with or without a
  space after each: the parser recovers the listed tags, de-duplicated and
  capped at four.
*/
module TagLists {
  import opened Text
  import opened Normalizer

  /** Every character of the text is a tag character, a comma or a space. */
  predicate TagText(s: string) {
    forall i :: 0 <= i < |s| ==> IsTagChar(s[i]) || s[i] == ',' || s[i] == ' '
  }

  /** Pieces that join into a list of tags: tag text without commas, the first
      piece opening and the last piece closing with a tag character. */
  predicate ListPieces(ps: seq<string>) {
    && |ps| >= 1
    && (forall p <- ps :: TagText(p) && ',' !in p)
    && ps[0] != [] && IsTagChar(ps[0][0])
    && ps[|ps| - 1] != [] && IsTagChar(ps[|ps| - 1][|ps[|ps| - 1]| - 1])
  }

  /** Joining tag text with commas gives tag text that opens with the first piece
      and closes with the last. */
  lemma {:induction false} JoinText(ps: seq<string>)
    requires |ps| >= 1 && forall p <- ps :: TagText(p)
    ensures var s := Join(ps, ',');
      && TagText(s)
      && |ps[0]| <= |s| && s[..|ps[0]|] == ps[0]
      && |ps[|ps| - 1]| <= |s| && s[|s| - |ps[|ps| - 1]|..] == ps[|ps| - 1]
  {
    if |ps| > 1 {
      JoinText(ps[1..]);
      var s := Join(ps, ',');
      var head := ps[0] + [','];
      var tail := Join(ps[1..], ',');
      assert TagText(ps[0]);
      assert s == head + tail;
      forall i | 0 <= i < |s|
        ensures IsTagChar(s[i]) || s[i] == ',' || s[i] == ' '
      {
        if i < |ps[0]| {
          assert s[i] == ps[0][i];
        } else if i >= |head| {
          assert s[i] == tail[i - |head|];
        }
      }
      assert s[..|ps[0]|] == ps[0];
      assert ps[1..][|ps[1..]| - 1] == ps[|ps| - 1];
      assert s[|s| - |ps[|ps| - 1]|..] == tail[|tail| - |ps[|ps| - 1]|..];
    }
  }

  /** The joined pieces open and close with a tag character. */
  lemma JoinEnds(ps: seq<string>)
    requires ListPieces(ps)
    ensures var s := Join(ps, ',');
      TagText(s) && s != [] && IsTagChar(s[0]) && IsTagChar(s[|s| - 1])
  {
    JoinText(ps);
    var s := Join(ps, ',');
    var last := ps[|ps| - 1];
    assert s[0] == s[..|ps[0]|][0];
    assert s[|s| - 1] == s[|s| - |last|..][|last| - 1];
  }

  /** A tag is its own candidate: stripping, taking the first word and cleaning
      leave it as it is. */
  lemma CandidateOfTag(t: string)
    requires IsTag(t)
    ensures Candidate(t) == t
  {
    TagHasNoSpace(t);
    StripKeeps(t);
    FirstWord(t);
    assert t[..|t|] == t;
    TokenIsLeadingWord(t, t);
    assert Words(Strip(t))[0] == t;
    CleanKeepsTag(t);
  }

  /** Tag characters are not whitespace. */
  lemma TagHasNoSpace(t: string)
    requires IsTag(t)
    ensures NoSpace(t) && !IsSpace(t[0]) && !IsSpace(t[|t| - 1])
  {
  }

  /** Cleaning a tag removes nothing. */
  lemma {:induction false} CleanKeepsTag(t: string)
    requires forall i :: 0 <= i < |t| ==> IsTagChar(t[i])
    ensures Clean(t) == t
  {
    if t != [] {
      CleanKeepsTag(t[1..]);
      assert t == [t[0]] + t[1..];
    }
  }

  /** Tag text has no capital letter: lower() leaves it as it is. */
  lemma LowerOfTagText(s: string)
    requires TagText(s)
    ensures Lower(s) == s
  {
    forall i | 0 <= i < |s|
      ensures Lower(s)[i] == s[i]
    {
      assert IsTagChar(s[i]) || s[i] == ',' || s[i] == ' ';
    }
  }

  /** Tag text has no newline: replacing newlines by commas leaves it as it is. */
  lemma ReplaceOfTagText(s: string)
    requires TagText(s)
    ensures ReplaceChar(s, '\n', ',') == s
  {
    forall i | 0 <= i < |s|
      ensures ReplaceChar(s, '\n', ',')[i] == s[i]
    {
      assert IsTagChar(s[i]) || s[i] == ',' || s[i] == ' ';
    }
  }

  /** A list of distinct non-empty candidates is its own de-duplication. */
  lemma {:induction false} DedupDistinct(xs: seq<string>)
    requires Distinct(xs) && forall x <- xs :: x != []
    ensures Dedup(xs) == xs
  {
    if xs != [] {
      var front := xs[..|xs| - 1];
      var x := xs[|xs| - 1];
      assert forall y <- front :: y in xs;
      DedupDistinct(front);
      forall j | 0 <= j < |front|
        ensures front[j] != x
      {
        assert front[j] == xs[j];
      }
      assert x in xs && x != [];
      assert x !in Dedup(front);
      assert Dedup(xs) == Dedup(front) + [x];
      assert xs == front + [x];
    }
  }

  /** A reply joined from such pieces is already stripped and lower-case, and
      holds no newline. */
  lemma NormalList(ps: seq<string>)
    requires ListPieces(ps)
    ensures Lower(Strip(Join(ps, ','))) == Join(ps, ',') != []
    ensures ReplaceChar(Join(ps, ','), '\n', ',') == Join(ps, ',')
  {
    var s := Join(ps, ',');
    JoinEnds(ps);
    StripKeeps(s);
    LowerOfTagText(s);
    ReplaceOfTagText(s);
  }

  /** The pieces extract_tags loops over for a reply joined from such pieces are
      those pieces. */
  lemma PiecesOfList(ps: seq<string>)
    requires ListPieces(ps)
    ensures Lower(Strip(Join(ps, ','))) != []
    ensures Pieces(Join(ps, ',')) == ps
  {
    var s := Join(ps, ',');
    NormalList(ps);
    SplitOnJoin(ps, ',');
    assert Pieces(s) == SplitOn(s, ',');
  }

  /** A list of tags, joined by bare commas, is such a list of pieces. */
  lemma TagsArePieces(ts: seq<string>)
    requires |ts| >= 1 && forall t <- ts :: IsTag(t)
    ensures ListPieces(ts)
  {
    forall t <- ts
      ensures TagText(t) && ',' !in t
    {
      assert IsTag(t);
    }
    assert IsTag(ts[0]) && IsTag(ts[|ts| - 1]);
  }

  /** Each tag is its own candidate. */
  lemma CandidatesOfTags(ts: seq<string>)
    requires forall t <- ts :: IsTag(t)
    ensures Candidates(ts) == ts
  {
    forall k | 0 <= k < |ts|
      ensures Candidates(ts)[k] == ts[k]
    {
      CandidateOfTag(ts[k]);
    }
  }

  /** Parsing a comma-separated list of tags yields the first four distinct
      ones, in the order listed. */
  lemma ParseTagList(ts: seq<string>)
    requires |ts| >= 1 && forall t <- ts :: IsTag(t)
    ensures ParseTags(Join(ts, ',')) == FirstTags(ts)
  {
    TagsArePieces(ts);
    PiecesOfList(ts);
    CandidatesOfTags(ts);
  }

  /** For distinct tags, the parse is the list itself, cut off after four. */
  lemma ParseDistinctTagList(ts: seq<string>)
    requires |ts| >= 1 && forall t <- ts :: IsTag(t)
    requires Distinct(ts)
    ensures ParseTags(Join(ts, ',')) == ts[..Min(4, |ts|)]
  {
    ParseTagList(ts);
    FirstTagsOfDistinct(ts);
  }

  /** The first tags of distinct tags are the leading ones, up to four. */
  lemma FirstTagsOfDistinct(ts: seq<string>)
    requires forall t <- ts :: IsTag(t)
    requires Distinct(ts)
    ensures FirstTags(ts) == ts[..Min(4, |ts|)]
  {
    assert forall x <- ts :: x != [];
    DedupDistinct(ts);
    if |ts| <= 4 {
      assert ts[..|ts|] == ts;
    }
  }

  // ---------------------------------------------------------------------------
  // Tags separated by a comma and a space, as in "work, stress, meetings"
  // ---------------------------------------------------------------------------

  /** The pieces of the list "t0, t1, ...": every tag after the first behind a space. */
  function Spaced(ts: seq<string>): seq<string> {
    seq(|ts|, k requires 0 <= k < |ts| => if k == 0 then ts[k] else [' '] + ts[k])
  }

  /** A tag behind a space strips to the tag: the left trim drops the space and
      stops at the tag. */
  lemma StripSpaced(t: string)
    requires t != [] && !IsSpace(t[0]) && !IsSpace(t[|t| - 1])
    ensures Strip([' '] + t) == t
  {
    var s := [' '] + t;
    assert s[1..] == t;
    assert TrimLeft(t) == t;
    assert TrimLeft(s) == t;
    StripKeeps(t);
  }

  /** A tag behind a space is still its own candidate. */
  lemma CandidateOfSpacedTag(t: string)
    requires IsTag(t)
    ensures Candidate([' '] + t) == t
  {
    TagHasNoSpace(t);
    StripSpaced(t);
    StripKeeps(t);
    CandidateOfTag(t);
  }

  /** The spaced pieces of tags form a list of pieces. */
  lemma SpacedArePieces(ts: seq<string>)
    requires |ts| >= 1 && forall t <- ts :: IsTag(t)
    ensures ListPieces(Spaced(ts))
  {
    var ps := Spaced(ts);
    forall k | 0 <= k < |ps|
      ensures TagText(ps[k]) && ',' !in ps[k]
    {
      assert IsTag(ts[k]);
      if k > 0 {
        assert forall i :: 1 <= i < |ps[k]| ==> ps[k][i] == ts[k][i - 1];
      }
    }
    assert IsTag(ts[0]) && IsTag(ts[|ts| - 1]);
    var last := ps[|ps| - 1];
    assert last[|last| - 1] == ts[|ts| - 1][|ts[|ts| - 1]| - 1];
  }

  /** Each spaced tag yields its tag. */
  lemma CandidatesOfSpaced(ts: seq<string>)
    requires forall t <- ts :: IsTag(t)
    ensures Candidates(Spaced(ts)) == ts
  {
    forall k | 0 <= k < |ts|
      ensures Candidates(Spaced(ts))[k] == ts[k]
    {
      if k == 0 {
        CandidateOfTag(ts[k]);
      } else {
        CandidateOfSpacedTag(ts[k]);
      }
    }
  }

  /** Parsing "t0, t1, ..." yields the first four distinct tags, in the order
      listed, exactly as without the spaces. */
  lemma ParseSpacedTagList(ts: seq<string>)
    requires |ts| >= 1 && forall t <- ts :: IsTag(t)
    ensures ParseTags(Join(Spaced(ts), ',')) == FirstTags(ts)
  {
    SpacedArePieces(ts);
    PiecesOfList(Spaced(ts));
    CandidatesOfSpaced(ts);
  }

  /** For distinct tags written "t0, t1, ...", the parse is the list itself,
      cut off after four. */
  lemma ParseDistinctSpacedTagList(ts: seq<string>)
    requires |ts| >= 1 && forall t <- ts :: IsTag(t)
    requires Distinct(ts)
    ensures ParseTags(Join(Spaced(ts), ',')) == ts[..Min(4, |ts|)]
  {
    ParseSpacedTagList(ts);
    FirstTagsOfDistinct(ts);
  }
}
