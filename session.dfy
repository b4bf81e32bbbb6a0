/**
 * The session number of a calendar event, read from the free text of its summary
 * ("... Ses. 14 ...", "... Ses. (14)", "... Ses. 14-15").
 */
module Session {
  import opened Wrappers
  import opened Text

  /** The text that introduces a session number in a summary. */
  const Marker: string := "Ses. "

  /** The text after the last marker, up to the first space. */
  function RawToken(summary: string): (tok: string) {
    SplitFirst(SplitLast(summary, Marker), ' ')
  }

  /**
   * Deletes every `(`, then every `)`, then every "Ses.", then every "Ses", and
   * strips the whitespace at both ends.
   */
  function Clean(raw: string): (r: string)
    ensures '(' !in r && ')' !in r
    ensures Trimmed(r)
  {
    var noOpen := Remove(raw, "(");
    var noClose := Remove(noOpen, ")");
    var noWord := Remove(Remove(noClose, "Ses."), "Ses");
    RemoveChar(raw, '(', '(');
    RemoveChar(noOpen, ')', ')');
    RemoveKeeps(noOpen, ")", '(');
    RemoveKeeps(noClose, "Ses.", '(');
    RemoveKeeps(noClose, "Ses.", ')');
    RemoveKeeps(Remove(noClose, "Ses."), "Ses", '(');
    RemoveKeeps(Remove(noClose, "Ses."), "Ses", ')');
    StripKeeps(noWord, '(');
    StripKeeps(noWord, ')');
    Strip(noWord)
  }

  /** Cleaning only deletes: every character of the session is in the raw token. */
  lemma CleanKeeps(raw: string, x: char)
    ensures x in Clean(raw) ==> x in raw
  {
    var noOpen := Remove(raw, "(");
    var noClose := Remove(noOpen, ")");
    var noDot := Remove(noClose, "Ses.");
    RemoveKeeps(raw, "(", x);
    RemoveKeeps(noOpen, ")", x);
    RemoveKeeps(noClose, "Ses.", x);
    RemoveKeeps(noDot, "Ses", x);
    StripKeeps(Remove(noDot, "Ses"), x);
  }

  /**
   * The session of an event with this summary: absent when the summary has no
   * marker or nothing but a space follows the last one; otherwise the cleaned
   * token, which has no parentheses, no spaces and no whitespace at its ends.
   */
  function Extract(summary: string): (r: Option<string>)
    ensures r.None? <==> !Contains(summary, Marker) || RawToken(summary) == []
    ensures r.Some? ==> '(' !in r.value && ')' !in r.value && ' ' !in r.value
    ensures r.Some? ==> Trimmed(r.value)
  {
    if !Contains(summary, Marker) then None
    else
      var raw := RawToken(summary);
      CleanKeeps(raw, ' ');
      if raw == [] then None else Some(Clean(raw))
  }

  /** Two markers never overlap: one cannot start inside another. */
  lemma MarkerNoOverlap(s: string, i: nat, j: nat)
    requires OccursAt(s, Marker, i) && i < j < i + |Marker|
    ensures !OccursAt(s, Marker, j)
  {
    assert s[j] == Marker[j - i];
  }

  /**
   * `tok` is what follows the marker at `i`, up to the first space, and no
   * marker starts after `i`.
   */
  ghost predicate TokenAfterLastMarker(summary: string, i: nat, tok: string) {
    && OccursAt(summary, Marker, i)
    && (forall j: nat :: i < j ==> !OccursAt(summary, Marker, j))
    && var tail := summary[i + |Marker|..];
       tok <= tail && ' ' !in tok && (|tok| < |tail| ==> tail[|tok|] == ' ')
  }

  /** When the summary holds a marker, the raw token is the text after the last one, up to the first space. */
  lemma RawTokenAfterLastMarker(summary: string)
    requires Contains(summary, Marker)
    ensures exists i: nat :: TokenAfterLastMarker(summary, i, RawToken(summary))
  {
    var tail := SplitLast(summary, Marker);
    SplitLastSpec(summary, Marker);
    LastPieceShorter(summary, Marker, tail);
    var i: nat := |summary| - |tail| - |Marker|;
    assert summary[i + |Marker|..] == tail;
    forall j: nat | i < j ensures !OccursAt(summary, Marker, j) {
      if j < i + |Marker| {
        MarkerNoOverlap(summary, i, j);
      } else {
        OccursInSuffix(summary, i + |Marker|, Marker, j);
        assert !OccursAt(tail, Marker, j - i - |Marker|);
      }
    }
    assert TokenAfterLastMarker(summary, i, RawToken(summary));
  }

  /** A token with no parenthesis, no 'S' and no whitespace at its ends is already clean. */
  lemma CleanUnchanged(tok: string)
    requires '(' !in tok && ')' !in tok && Marker[0] !in tok && Trimmed(tok)
    ensures Clean(tok) == tok
  {
    NotContainsHead(tok, "(");
    RemoveAbsent(tok, "(");
    NotContainsHead(tok, ")");
    RemoveAbsent(tok, ")");
    NotContainsHead(tok, "Ses.");
    RemoveAbsent(tok, "Ses.");
    NotContainsHead(tok, "Ses");
    RemoveAbsent(tok, "Ses");
  }

  /** The token that follows a marker, up to the first space, is determined by the text. */
  lemma TokenUnique(tail: string, a: string, b: string)
    requires a <= tail && ' ' !in a && (|a| < |tail| ==> tail[|a|] == ' ')
    requires b <= tail && ' ' !in b && (|b| < |tail| ==> tail[|b|] == ' ')
    ensures a == b
  {
    forall k | 0 <= k < |a| ensures tail[k] != ' ' {
      assert tail[k] == a[k];
    }
    forall k | 0 <= k < |b| ensures tail[k] != ' ' {
      assert tail[k] == b[k];
    }
    assert |a| == |b|;
  }

  /**
   * Whenever the last marker of a summary is followed by a plain token (no
   * parenthesis, no 'S', no whitespace at its ends), up to a space or the end,
   * the session is exactly that token: "Ses. 30" gives "30", "Ses. 14-15" gives "14-15".
   */
  lemma ExtractPlainToken(summary: string, i: nat, tok: string)
    requires TokenAfterLastMarker(summary, i, tok)
    requires tok != [] && Marker[0] !in tok && '(' !in tok && ')' !in tok && Trimmed(tok)
    ensures Extract(summary) == Some(tok)
  {
    assert Contains(summary, Marker);
    RawTokenAfterLastMarker(summary);
    var i': nat :| TokenAfterLastMarker(summary, i', RawToken(summary));
    assert i' <= i && i <= i';
    TokenUnique(summary[i + |Marker|..], tok, RawToken(summary));
    CleanUnchanged(tok);
  }

  /**
   * Whenever the last marker of a summary is followed by a token in parentheses,
   * up to a space or the end, and the token inside is plain, the session is that
   * inner token: "Ses. (14)" gives "14", "Ses. ()" gives the empty session.
   */
  lemma ExtractParenthesisedToken(summary: string, i: nat, tok: string)
    requires TokenAfterLastMarker(summary, i, "(" + tok + ")")
    requires Marker[0] !in tok && '(' !in tok && ')' !in tok && Trimmed(tok)
    ensures Extract(summary) == Some(tok)
  {
    assert Contains(summary, Marker);
    RawTokenAfterLastMarker(summary);
    var i': nat :| TokenAfterLastMarker(summary, i', RawToken(summary));
    assert i' <= i && i <= i';
    TokenUnique(summary[i + |Marker|..], "(" + tok + ")", RawToken(summary));
    ParenthesesDeleted(tok);
  }

  /** Cleaning a plain token in parentheses gives the token. */
  lemma ParenthesesDeleted(tok: string)
    requires Marker[0] !in tok && '(' !in tok && ')' !in tok && Trimmed(tok)
    ensures Clean("(" + tok + ")") == tok
  {
    var raw := "(" + tok + ")";
    calc {
      Remove(raw, "(");
    == { assert raw == ['('] + (tok + ")"); RemoveCharDrop('(', tok + ")"); }
      Remove(tok + ")", "(");
    == { NotContainsHead(tok + ")", "("); RemoveAbsent(tok + ")", "("); }
      tok + ")";
    }
    calc {
      Remove(tok + ")", ")");
    == { RemoveCharKeepAll(tok, ")", ')'); }
      tok + Remove(")", ")");
    == { assert Remove(")", ")") == []; }
      tok;
    }
    NotContainsHead(tok, "(");
    RemoveAbsent(tok, "(");
    NotContainsHead(tok, ")");
    RemoveAbsent(tok, ")");
    CleanUnchanged(tok);
  }

  /** In a summary "<x> Ses. <tail>" with no marker in `tail`, the last piece is `tail`. */
  lemma SplitLastOfExample(summary: string, x: char, tail: string)
    requires summary == [x, ' '] + Marker + tail && x != Marker[0] && !Contains(tail, Marker)
    ensures SplitLast(summary, Marker) == tail
    ensures Contains(summary, Marker)
  {
    var s1, s2 := summary[1..], summary[2..];
    assert s2 == Marker + tail && s2[|Marker|..] == tail;
    assert summary[2..7] == Marker;
    assert OccursAt(summary, Marker, 2);
    SplitLastSpec(tail, Marker);
    LastPieceShorter(tail, Marker, SplitLast(tail, Marker));
    assert SplitLast(s2, Marker) == tail;
    assert summary[0] == x && summary[1] == ' ' && Marker[0] == 'S';
    assert !(Marker <= summary) by { assert summary[0] != Marker[0]; }
    assert !(Marker <= s1) by { assert s1[0] != Marker[0]; }
    assert s1[1..] == s2;
    assert SplitLast(s1, Marker) == tail;
  }

  /** The session of "<x> Ses. <tail>" when no marker is in `tail`. */
  lemma ExtractOfExample(summary: string, x: char, tail: string, tok: string)
    requires summary == [x, ' '] + Marker + tail && x != Marker[0] && !Contains(tail, Marker)
    requires tok == SplitFirst(tail, ' ')
    ensures Extract(summary) == if tok == [] then None else Some(Clean(tok))
  {
    SplitLastOfExample(summary, x, tail);
  }

  /**
   * The session of a short summary "<x> Ses. <tok>", with a one-letter course
   * name and a plain token: the token itself ("A Ses. 11" gives "11").
   */
  lemma ExtractShortSummary(summary: string, x: char, tok: string)
    requires summary == [x, ' '] + Marker + tok && x != Marker[0]
    requires tok != [] && Marker[0] !in tok && ' ' !in tok && '(' !in tok && ')' !in tok && Trimmed(tok)
    ensures Extract(summary) == Some(tok)
  {
    PlainTokenOf(tok);
    ExtractOfExample(summary, x, tok, tok);
  }

  /** A token with no marker, no space, no parenthesis, no 'S' and no whitespace at its ends. */
  predicate PlainToken(tok: string) {
    !Contains(tok, Marker) && SplitFirst(tok, ' ') == tok && Clean(tok) == tok
  }

  /** Such a token is its own raw token and its own session. */
  lemma PlainTokenOf(tok: string)
    requires Marker[0] !in tok && ' ' !in tok && '(' !in tok && ')' !in tok && Trimmed(tok)
    ensures PlainToken(tok)
  {
    NotContainsHead(tok, Marker);
    CleanUnchanged(tok);
    SplitFirstWhole(tok, ' ');
  }

  /** The plain tokens of the examples below. */
  lemma PlainTokens(tok: string)
    requires tok == "14" || tok == "14-15"
    ensures PlainToken(tok)
  {
    PlainTokenOf(tok);
  }

  /** Example of the script's own comment: a plain number followed by more text. */
  lemma ExtractPlainExample(summary: string)
    requires summary == "X Ses. 14 Y"
    ensures Extract(summary) == Some("14")
  {
    var tail, tok := "14 Y", "14";
    assert summary == "X " + Marker + tail && tok == SplitFirst(tail, ' ') by {
      assert tok == SplitFirst(tail, ' ');
    }
    NotContainsHead(tail, Marker);
    PlainTokens(tok);
    ExtractOfExample(summary, 'X', tail, tok);
  }

  /** Example of the script's own comment: the parentheses around the number are deleted. */
  lemma ExtractParenthesisedExample(summary: string)
    requires summary == "X Ses. (14)"
    ensures Extract(summary) == Some("14")
  {
    var tail := "(14)";
    assert summary == "X " + Marker + tail && tail == SplitFirst(tail, ' ');
    NotContainsHead(tail, Marker);
    assert tail == "(" + "14" + ")";
    PlainTokenOf("14");
    ParenthesesDeleted("14");
    ExtractOfExample(summary, 'X', tail, tail);
  }

  /** Example of the script's own comment: a range of sessions is kept as one string. */
  lemma ExtractRangeExample(summary: string)
    requires summary == "X Ses. 14-15"
    ensures Extract(summary) == Some("14-15")
  {
    var tail := "14-15";
    assert summary == "X " + Marker + tail;
    PlainTokens(tail);
    ExtractOfExample(summary, 'X', tail, tail);
  }

  /** A marker at the very end gives no session rather than an empty one. */
  lemma MarkerAtEndExample(summary: string)
    requires summary == "X Ses. "
    ensures Extract(summary) == None
  {
    var tail := "";
    assert summary == "X " + Marker + tail;
    NotContainsHead(tail, Marker);
    ExtractOfExample(summary, 'X', tail, SplitFirst(tail, ' '));
  }

  /** A space right after the marker gives no session rather than an empty one. */
  lemma SpaceAfterMarkerExample(summary: string)
    requires summary == "X Ses.  14"
    ensures Extract(summary) == None
  {
    var tail := " 14";
    assert summary == "X " + Marker + tail;
    assert SplitFirst(tail, ' ') == [];
    NotContainsHead(tail, Marker);
    ExtractOfExample(summary, 'X', tail, []);
  }

  /** A token made only of parentheses is present but cleans to the empty session. */
  lemma EmptySessionExample(summary: string)
    requires summary == "X Ses. ()"
    ensures Extract(summary) == Some("")
  {
    var tail := "()";
    assert summary == "X " + Marker + tail;
    assert tail == SplitFirst(tail, ' ');
    NotContainsHead(tail, Marker);
    assert Remove(tail, "(") == ")";
    assert Remove(")", ")") == "";
    assert Clean(tail) == "";
    ExtractOfExample(summary, 'X', tail, tail);
  }
}
