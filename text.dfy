/**
  The pieces of Python's str API that the pipeline's text normalisation uses:
  strip(), lower(), split() without arguments, split(sep) and replace(old, new)
  on single characters. Characters are restricted to ASCII semantics: whitespace
  is the ASCII part of str.isspace, and lower() only maps 'A'..'Z'.
*/
module Text {

  /** str.isspace on ASCII: TAB, LF, VT, FF, CR (9..13), the separators
      FS, GS, RS, US (28..31) and SPACE (32). */
  predicate IsSpace(c: char) {
    9 <= c as int <= 13 || 28 <= c as int <= 32
  }

  predicate AllSpace(s: string) {
    forall i :: 0 <= i < |s| ==> IsSpace(s[i])
  }

  predicate NoSpace(s: string) {
    forall i :: 0 <= i < |s| ==> !IsSpace(s[i])
  }

  /** s.lstrip(): the suffix of s that starts at its first non-space character. */
  function TrimLeft(s: string): (r: string)
    ensures |r| <= |s| && r == s[|s| - |r|..]
    ensures AllSpace(s[..|s| - |r|])
    ensures r == [] || !IsSpace(r[0])
  {
    if s != [] && IsSpace(s[0]) then
      var r := TrimLeft(s[1..]);
      assert r == s[1..][|s| - 1 - |r|..] == s[|s| - |r|..];
      SpaceThenSpaces(s, |s| - |r|);
      r
    else
      assert s[..0] == [];
      s
  }

  /** A whitespace character followed by whitespace is whitespace. */
  lemma SpaceThenSpaces(s: string, n: int)
    requires 0 < n <= |s| && IsSpace(s[0]) && AllSpace(s[1..][..n - 1])
    ensures AllSpace(s[..n])
  {
    forall i | 0 <= i < n
      ensures IsSpace(s[..n][i])
    {
      if i > 0 {
        assert s[..n][i] == s[1..][..n - 1][i - 1];
      }
    }
  }

  /** Whitespace followed by a whitespace character is whitespace. */
  lemma SpacesThenSpace(s: string, n: int)
    requires 0 <= n < |s| && IsSpace(s[|s| - 1]) && AllSpace(s[..|s| - 1][n..])
    ensures AllSpace(s[n..])
  {
    forall i | 0 <= i < |s| - n
      ensures IsSpace(s[n..][i])
    {
      if i < |s| - 1 - n {
        assert s[n..][i] == s[..|s| - 1][n..][i];
      }
    }
  }

  /** s.rstrip(): the prefix of s that ends at its last non-space character. */
  function TrimRight(s: string): (r: string)
    ensures |r| <= |s| && r == s[..|r|]
    ensures AllSpace(s[|r|..])
    ensures r == [] || !IsSpace(r[|r| - 1])
  {
    if s != [] && IsSpace(s[|s| - 1]) then
      var r := TrimRight(s[..|s| - 1]);
      SpacesThenSpace(s, |r|);
      r
    else
      assert s[|s|..] == [];
      s
  }

  /** r is a stretch of s with only whitespace before and after it. */
  ghost predicate IsStripOf(r: string, s: string) {
    exists k :: 0 <= k <= |s| - |r| && r == s[k..k + |r|] && AllSpace(s[..k]) && AllSpace(s[k + |r|..])
  }

  /** s.strip(): s without its leading and trailing whitespace. */
  function Strip(s: string): (r: string)
    ensures IsStripOf(r, s)
    ensures r == [] <==> AllSpace(s)
    ensures r != [] ==> !IsSpace(r[0]) && !IsSpace(r[|r| - 1])
  {
    var t := TrimLeft(s);
    var r := TrimRight(t);
    StripParts(s, t, r);
    r
  }

  /** The facts Strip promises, from those of the two trims. */
  lemma StripParts(s: string, t: string, r: string)
    requires |t| <= |s| && t == s[|s| - |t|..] && AllSpace(s[..|s| - |t|])
    requires t == [] || !IsSpace(t[0])
    requires |r| <= |t| && r == t[..|r|] && AllSpace(t[|r|..])
    requires r == [] || !IsSpace(r[|r| - 1])
    ensures IsStripOf(r, s)
    ensures r == [] <==> AllSpace(s)
    ensures r != [] ==> !IsSpace(r[0]) && !IsSpace(r[|r| - 1])
  {
    var k := |s| - |t|;
    assert t == s[k..];
    assert r == s[k..k + |r|];
    assert s[k + |r|..] == t[|r|..];
    StripWitness(s, r, k);
    if r == [] {
      assert t[|r|..] == t;
      AllSpaceJoin(s, k);
    } else {
      assert r[0] == t[0];
    }
    if t != [] {
      assert s[k] == t[0];
    }
  }

  /** Whitespace before k and whitespace from k on make whitespace throughout. */
  lemma AllSpaceJoin(s: string, k: int)
    requires 0 <= k <= |s| && AllSpace(s[..k]) && AllSpace(s[k..])
    ensures AllSpace(s)
  {
    forall i | 0 <= i < |s|
      ensures IsSpace(s[i])
    {
      if i < k {
        assert s[i] == s[..k][i];
      } else {
        assert s[i] == s[k..][i - k];
      }
    }
  }

  /** A stretch of s at k with only whitespace around it is a strip of s. */
  lemma StripWitness(s: string, r: string, k: int)
    requires 0 <= k <= |s| - |r| && r == s[k..k + |r|]
    requires AllSpace(s[..k]) && AllSpace(s[k + |r|..])
    ensures IsStripOf(r, s)
  {
  }

  /** Text that neither starts nor ends with whitespace is its own strip. */
  lemma StripKeeps(s: string)
    requires s != [] && !IsSpace(s[0]) && !IsSpace(s[|s| - 1])
    ensures Strip(s) == s
  {
    var r := Strip(s);
    var k :| 0 <= k <= |s| - |r| && r == s[k..k + |r|] && AllSpace(s[..k]) && AllSpace(s[k + |r|..]);
  }

  function LowerChar(c: char): char {
    if 'A' <= c <= 'Z' then (c as int + 32) as char else c
  }

  /** s.lower() on ASCII letters. */
  function Lower(s: string): (r: string)
    ensures |r| == |s|
    ensures forall i :: 0 <= i < |s| ==> r[i] == LowerChar(s[i])
  {
    seq(|s|, i requires 0 <= i < |s| => LowerChar(s[i]))
  }

  /** A lower-cased string has no upper-case letter left, and its whitespace is where it was. */
  lemma LowerKeepsSpace(s: string)
    ensures forall i :: 0 <= i < |s| ==> (IsSpace(Lower(s)[i]) <==> IsSpace(s[i]))
    ensures forall i :: 0 <= i < |s| ==> LowerChar(Lower(s)[i]) == Lower(s)[i]
  {
  }

  /** The longest prefix of s without whitespace. */
  function Token(s: string): (w: string)
    ensures |w| <= |s| && w == s[..|w|]
    ensures NoSpace(w)
    ensures |w| == |s| || IsSpace(s[|w|])
  {
    if s == [] || IsSpace(s[0]) then [] else [s[0]] + Token(s[1..])
  }

  /** The token at the head of s is w exactly when s starts with w followed by
      whitespace or the end of s. */
  lemma TokenIsLeadingWord(s: string, w: string)
    requires w != [] && NoSpace(w)
    ensures Token(s) == w <==> (|w| <= |s| && s[..|w|] == w && (|w| == |s| || IsSpace(s[|w|])))
  {
    if |w| <= |s| && s[..|w|] == w && (|w| == |s| || IsSpace(s[|w|])) {
      LeadingWordIsToken(s, w);
    }
  }

  lemma {:induction false} LeadingWordIsToken(s: string, w: string)
    requires w != [] && NoSpace(w)
    requires |w| <= |s| && s[..|w|] == w && (|w| == |s| || IsSpace(s[|w|]))
    ensures Token(s) == w
  {
    assert s[0] == w[0];
    if |w| == 1 {
      assert s[1..] == [] || IsSpace(s[1..][0]);
      assert w == [s[0]];
    } else {
      assert s[1..][..|w| - 1] == w[1..];
      LeadingWordIsToken(s[1..], w[1..]);
      assert w == [w[0]] + w[1..];
    }
  }

  /** s.split(): the maximal runs of non-whitespace characters, in order. */
  function Words(s: string): (ws: seq<string>)
    ensures forall w <- ws :: w != [] && NoSpace(w)
    decreases |s|
  {
    var t := TrimLeft(s);
    if t == [] then []
    else
      var w := Token(t);
      TokenNonEmpty(t);
      var rest := Words(t[|w|..]);
      assert forall v <- [w] + rest :: v == w || v in rest;
      [w] + rest
  }

  /** split() finds no word exactly when the string is all whitespace. */
  lemma WordsEmpty(s: string)
    ensures Words(s) == [] <==> AllSpace(s)
  {
    var t := TrimLeft(s);
    TrimLeftEmpty(s, t);
    if t != [] {
      var w := Token(t);
      assert Words(s) == [w] + Words(t[|w|..]);
    }
  }

  /** A string that starts with a non-space character has a non-empty leading token. */
  lemma TokenNonEmpty(t: string)
    requires t != [] && !IsSpace(t[0])
    ensures Token(t) != []
  {
  }

  /** lstrip() leaves nothing exactly when everything is whitespace. */
  lemma TrimLeftEmpty(s: string, t: string)
    requires |t| <= |s| && t == s[|s| - |t|..] && AllSpace(s[..|s| - |t|])
    requires t == [] || !IsSpace(t[0])
    ensures t == [] <==> AllSpace(s)
  {
    if t == [] {
      assert s[..|s|] == s;
    } else {
      assert s[|s| - |t|] == t[0];
    }
  }

  /** The first word of a string that starts with a non-space character is its leading token. */
  lemma FirstWord(s: string)
    requires s != [] && !IsSpace(s[0])
    ensures Words(s) != [] && Words(s)[0] == Token(s)
  {
  }

  /** s.split(sep) for a one-character separator: the pieces between separators,
      empty pieces included; there is always at least one piece. */
  function SplitOn(s: string, sep: char): (pieces: seq<string>)
    ensures |pieces| >= 1
    ensures forall p <- pieces :: sep !in p
  {
    if s == [] then [[]]
    else
      var rest := SplitOn(s[1..], sep);
      if s[0] == sep then [[]] + rest
      else [[s[0]] + rest[0]] + rest[1..]
  }

  /** sep.join(pieces). */
  function Join(pieces: seq<string>, sep: char): string
    requires |pieces| >= 1
  {
    if |pieces| == 1 then pieces[0] else pieces[0] + [sep] + Join(pieces[1..], sep)
  }

  /** Joining the pieces of a split gives back the string. */
  lemma {:induction false} JoinSplitOn(s: string, sep: char)
    ensures Join(SplitOn(s, sep), sep) == s
  {
    if s != [] {
      var rest := SplitOn(s[1..], sep);
      JoinSplitOn(s[1..], sep);
      if s[0] == sep {
        assert SplitOn(s, sep)[1..] == rest;
      } else if |rest| == 1 {
        assert SplitOn(s, sep) == [[s[0]] + rest[0]];
      } else {
        var pieces := SplitOn(s, sep);
        assert pieces[1..] == rest[1..];
        calc {
          Join(pieces, sep);
          ([s[0]] + rest[0]) + [sep] + Join(rest[1..], sep);
          [s[0]] + (rest[0] + [sep] + Join(rest[1..], sep));
          [s[0]] + Join(rest, sep);
          [s[0]] + s[1..];
        }
      }
    }
  }

  /** Splitting a piece-free string prefixed to s glues that prefix onto s's first piece. */
  lemma {:induction false} SplitOnPrefix(a: string, s: string, sep: char)
    requires sep !in a
    ensures SplitOn(a + s, sep) == [a + SplitOn(s, sep)[0]] + SplitOn(s, sep)[1..]
  {
    if a != [] {
      SplitOnPrefix(a[1..], s, sep);
      assert (a + s)[1..] == a[1..] + s;
      assert (a + s)[0] == a[0];
      assert [a[0]] + (a[1..] + SplitOn(s, sep)[0]) == a + SplitOn(s, sep)[0];
    } else {
      var pieces := SplitOn(s, sep);
      assert a + s == s;
      assert a + pieces[0] == pieces[0];
      assert pieces == [pieces[0]] + pieces[1..];
    }
  }

  /** Splitting what was joined gives back the pieces, provided no piece holds the separator. */
  lemma {:induction false} SplitOnJoin(pieces: seq<string>, sep: char)
    requires |pieces| >= 1
    requires forall p <- pieces :: sep !in p
    ensures SplitOn(Join(pieces, sep), sep) == pieces
  {
    if |pieces| == 1 {
      SplitOnPrefix(pieces[0], [], sep);
      assert pieces[0] + [] == pieces[0];
    } else {
      var tail := Join(pieces[1..], sep);
      SplitOnJoin(pieces[1..], sep);
      assert ([sep] + tail)[1..] == tail;
      assert SplitOn([sep] + tail, sep) == [[]] + pieces[1..];
      assert pieces[0] + [sep] + tail == pieces[0] + ([sep] + tail);
      SplitOnPrefix(pieces[0], [sep] + tail, sep);
      assert pieces[0] + [] == pieces[0];
      assert ([[]] + pieces[1..])[1..] == pieces[1..];
    }
  }

  /** s.replace(from, to) for single characters. */
  function ReplaceChar(s: string, from: char, to: char): (r: string)
    ensures |r| == |s|
    ensures forall i :: 0 <= i < |s| ==> r[i] == (if s[i] == from then to else s[i])
  {
    seq(|s|, i requires 0 <= i < |s| => if s[i] == from then to else s[i])
  }
}
