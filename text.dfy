/**
 * The Python string operations the session pipeline is built from:
 * `pat in s`, `s.split(sep)[-1]`, `s.split(c)[0]`, `s.replace(pat, "")`,
 * `s.strip()` and `str(n)` for a non-negative integer.
 */
module Text {
  import opened Wrappers

  /** `pat` occurs in `s` starting at index `i`. */
  predicate OccursAt(s: string, pat: string, i: nat) {
    i + |pat| <= |s| && s[i..i + |pat|] == pat
  }

  lemma OccursAtTail(s: string, pat: string, j: nat)
    requires s != []
    ensures OccursAt(s, pat, j + 1) <==> OccursAt(s[1..], pat, j)
  {
    if j + 1 + |pat| <= |s| {
      assert s[j + 1..j + 1 + |pat|] == s[1..][j..j + |pat|];
    }
  }

  /** An occurrence starts with the first character of the pattern. */
  lemma OccursAtHead(s: string, pat: string, i: nat)
    requires pat != []
    ensures OccursAt(s, pat, i) ==> i < |s| && s[i] == pat[0]
  {
    if OccursAt(s, pat, i) {
      assert s[i..i + |pat|][0] == s[i];
    }
  }

  /** A pattern whose first character is not in `s` does not occur in `s`. */
  lemma NotContainsHead(s: string, pat: string)
    requires pat != [] && pat[0] !in s
    ensures !Contains(s, pat)
  {
    forall i: nat ensures !OccursAt(s, pat, i) {
      OccursAtHead(s, pat, i);
    }
  }

  /** An occurrence at the front is a prefix. */
  lemma OccursAtFront(s: string, pat: string)
    ensures OccursAt(s, pat, 0) <==> pat <= s
  {
    if pat <= s { assert s[0..|pat|] == pat; }
  }

  /** `pat` is in `s` when it starts `s` or is in the rest of `s`. */
  lemma ContainsCons(s: string, pat: string)
    requires s != []
    ensures Contains(s, pat) <==> pat <= s || Contains(s[1..], pat)
  {
    OccursAtFront(s, pat);
    if Contains(s, pat) && !(pat <= s) {
      var i: nat :| i <= |s| && OccursAt(s, pat, i);
      OccursAtTail(s, pat, i - 1);
      assert OccursAt(s[1..], pat, i - 1);
    }
    if Contains(s[1..], pat) {
      var j: nat :| j <= |s[1..]| && OccursAt(s[1..], pat, j);
      OccursAtTail(s, pat, j);
      assert OccursAt(s, pat, j + 1);
    }
  }

  /** An occurrence at or after `k` is an occurrence in the suffix from `k`. */
  lemma OccursInSuffix(s: string, k: nat, pat: string, j: nat)
    requires k <= j && k <= |s|
    ensures OccursAt(s, pat, j) ==> OccursAt(s[k..], pat, j - k)
  {
    if j + |pat| <= |s| {
      assert s[k..][j - k..j - k + |pat|] == s[j..j + |pat|];
    }
  }

  /** Python's `pat in s`: `pat` occurs somewhere in `s`. */
  predicate Contains(s: string, pat: string) {
    exists i: nat | i <= |s| :: OccursAt(s, pat, i)
  }

  lemma SliceOfSuffix(s: string, a: nat, x: nat, y: nat)
    requires a <= |s| && x <= y <= |s| - a
    ensures s[a..][x..y] == s[a + x..a + y]
  {
  }

  /**
   * Python's `s.split(sep)[-1]`: the pieces are cut at the occurrences of `sep`
   * found from left to right, and the last piece is what follows the last cut.
   * A separator at the front is a cut; otherwise the cuts are those of the rest,
   * and when the rest has none the whole text is the last piece.
   */
  function SplitLast(s: string, sep: string): (r: string)
    requires sep != []
    decreases |s|
  {
    if s == [] then []
    else if sep <= s then SplitLast(s[|sep|..], sep)
    else
      var rest := SplitLast(s[1..], sep);
      if |rest| == |s| - 1 then s else rest
  }

  /**
   * `r` is a last piece of `s`: a suffix holding no separator that is either all
   * of `s` or begins right where a separator ends.
   */
  predicate IsLastPiece(s: string, sep: string, r: string) {
    && |r| <= |s| && r == s[|s| - |r|..]
    && !Contains(r, sep)
    && (|r| == |s| || (|sep| <= |s| - |r| && OccursAt(s, sep, |s| - |r| - |sep|)))
  }

  /** `split(sep)[-1]` is a last piece: a suffix with no separator, cut right after a separator unless it is the whole text. */
  lemma {:induction false} SplitLastSpec(s: string, sep: string)
    requires sep != []
    ensures IsLastPiece(s, sep, SplitLast(s, sep))
    decreases |s|
  {
    if s == [] {
      WholeLastPiece(s, sep);
    } else if sep <= s {
      var t := s[|sep|..];
      SplitLastSpec(t, sep);
      OccursAtFront(s, sep);
      SplitLastStep(s, sep, |sep|, SplitLast(t, sep));
    } else {
      var t := s[1..];
      var rest := SplitLast(t, sep);
      SplitLastSpec(t, sep);
      if |rest| == |t| {
        assert rest == t;
        OccursAtFront(s, sep);
        ContainsCons(s, sep);
        WholeLastPiece(s, sep);
      } else {
        SplitLastStep(s, sep, 1, rest);
      }
    }
  }

  /** Text without a separator is its own last piece. */
  lemma WholeLastPiece(s: string, sep: string)
    requires sep != [] && (s == [] || !Contains(s, sep))
    ensures IsLastPiece(s, sep, s)
  {
    assert s[|s| - |s|..] == s;
    if s == [] {
      assert forall i: nat :: !OccursAt(s, sep, i);
    }
  }

  /**
   * A last piece of a suffix `s[a..]` is a last piece of `s` when it is shorter
   * than the suffix or a separator ends right at `a`.
   */
  lemma SplitLastStep(s: string, sep: string, a: nat, r: string)
    requires a <= |s| && IsLastPiece(s[a..], sep, r)
    requires |r| < |s| - a || (|sep| <= a && OccursAt(s, sep, a - |sep|))
    ensures IsLastPiece(s, sep, r)
  {
    var t := s[a..];
    SuffixOfSuffix(s, a, |r|);
    if |r| < |t| {
      OccursAtShift(s, a, t, sep, |t| - |r| - |sep|);
      assert a + (|t| - |r| - |sep|) == |s| - |r| - |sep|;
    } else {
      assert |s| - |r| - |sep| == a - |sep|;
    }
  }

  /** The last `n` characters of a suffix are the last `n` of the whole. */
  lemma SuffixOfSuffix(s: string, a: nat, n: nat)
    requires a <= |s| && n <= |s| - a
    ensures s[a..][|s| - a - n..] == s[|s| - n..]
  {
  }

  /** An occurrence in a suffix is an occurrence in the whole, shifted. */
  lemma OccursAtShift(s: string, a: nat, t: string, pat: string, p: nat)
    requires a <= |s| && t == s[a..] && OccursAt(t, pat, p)
    ensures OccursAt(s, pat, a + p)
  {
    SliceOfSuffix(s, a, p, p + |pat|);
  }

  /** A last piece is shorter than the text exactly when the text holds a separator. */
  lemma LastPieceShorter(s: string, sep: string, r: string)
    requires IsLastPiece(s, sep, r)
    ensures |r| < |s| <==> Contains(s, sep)
  {
    if |r| == |s| {
      assert r == s;
    } else {
      assert OccursAt(s, sep, |s| - |r| - |sep|);
    }
  }

  /** Python's `s.split(c)[0]` for a one-character separator: the text before the first `c`. */
  function SplitFirst(s: string, c: char): (r: string)
    ensures r <= s
    ensures c !in r
    ensures |r| < |s| ==> s[|r|] == c
    decreases |s|
  {
    if s == [] || s[0] == c then [] else [s[0]] + SplitFirst(s[1..], c)
  }

  /** Without the separator the whole text is the first piece. */
  lemma SplitFirstWhole(s: string, c: char)
    requires c !in s
    ensures SplitFirst(s, c) == s
  {
  }

  /** Python's `s.replace(pat, "")`: occurrences found from left to right, never overlapping, are deleted. */
  function Remove(s: string, pat: string): (r: string)
    requires pat != []
    ensures |r| <= |s|
    decreases |s|
  {
    if s == [] then []
    else if pat <= s then Remove(s[|pat|..], pat)
    else [s[0]] + Remove(s[1..], pat)
  }

  /** Text without the pattern is left unchanged. */
  lemma {:induction false} RemoveAbsent(s: string, pat: string)
    requires pat != [] && !Contains(s, pat)
    ensures Remove(s, pat) == s
    decreases |s|
  {
    if s != [] {
      ContainsCons(s, pat);
      RemoveAbsent(s[1..], pat);
      assert s == [s[0]] + s[1..];
    }
  }

  /** Deleting never adds a character. */
  lemma {:induction false} RemoveKeeps(s: string, pat: string, x: char)
    requires pat != []
    ensures x in Remove(s, pat) ==> x in s
    decreases |s|
  {
    if s != [] {
      if pat <= s {
        RemoveKeeps(s[|pat|..], pat, x);
        assert x in s[|pat|..] ==> x in s;
      } else {
        RemoveKeeps(s[1..], pat, x);
        assert s == [s[0]] + s[1..];
      }
    }
  }

  /** Deleting a single character removes exactly that character and keeps every other. */
  lemma {:induction false} RemoveChar(s: string, c: char, x: char)
    ensures x in Remove(s, [c]) <==> x in s && x != c
    decreases |s|
  {
    if s != [] {
      RemoveChar(s[1..], c, x);
      if [c] <= s {
        assert s[0] == c && s[1..] == s[|[c]|..];
      } else {
        assert s[0] != c;
        assert Remove(s, [c]) == [s[0]] + Remove(s[1..], [c]);
      }
      assert s == [s[0]] + s[1..];
    }
  }

  /** Deleting a character drops it at the front of the text. */
  lemma RemoveCharDrop(c: char, s: string)
    ensures Remove([c] + s, [c]) == Remove(s, [c])
  {
    var cs := [c] + s;
    assert cs[..1] == [c] && cs[1..] == s;
  }

  /** Deleting a character keeps any other character at the front of the text. */
  lemma RemoveCharKeep(x: char, s: string, c: char)
    requires x != c
    ensures Remove([x] + s, [c]) == [x] + Remove(s, [c])
  {
    var xs := [x] + s;
    assert xs[0] != c && xs[1..] == s;
  }

  /** Deleting a character keeps a leading piece that does not hold it. */
  lemma {:induction false} RemoveCharKeepAll(s: string, t: string, c: char)
    requires c !in s
    ensures Remove(s + t, [c]) == s + Remove(t, [c])
    decreases |s|
  {
    if s == [] {
      assert s + t == t;
    } else {
      var x, rest := s[0], s[1..];
      calc {
        Remove(s + t, [c]);
      == { assert s + t == [x] + (rest + t) by { assert s == [x] + rest; } }
        Remove([x] + (rest + t), [c]);
      == { RemoveCharKeep(x, rest + t, c); }
        [x] + Remove(rest + t, [c]);
      == { RemoveCharKeepAll(rest, t, c); }
        [x] + (rest + Remove(t, [c]));
      == { assert s == [x] + rest; }
        s + Remove(t, [c]);
      }
    }
  }

  /** Python's `str.isspace` for one character: the code points Python treats as whitespace. */
  predicate IsSpace(c: char) {
    || '\t' <= c <= '\r'
    || '\U{1C}' <= c <= ' '
    || c == '\U{85}' || c == '\U{A0}' || c == '\U{1680}'
    || '\U{2000}' <= c <= '\U{200A}'
    || c == '\U{2028}' || c == '\U{2029}' || c == '\U{202F}' || c == '\U{205F}' || c == '\U{3000}'
  }

  /** Neither end of `s` is whitespace. */
  predicate Trimmed(s: string) {
    s == [] || (!IsSpace(s[0]) && !IsSpace(s[|s| - 1]))
  }

  /** Python's `s.lstrip()`. */
  function StripLeft(s: string): (r: string)
    ensures |r| <= |s| && r == s[|s| - |r|..]
    ensures forall k :: 0 <= k < |s| - |r| ==> IsSpace(s[k])
    ensures r == [] || !IsSpace(r[0])
    decreases |s|
  {
    if s != [] && IsSpace(s[0]) then StripLeft(s[1..]) else s
  }

  /** Python's `s.rstrip()`. */
  function StripRight(s: string): (r: string)
    ensures |r| <= |s| && r == s[..|r|]
    ensures forall k :: |r| <= k < |s| ==> IsSpace(s[k])
    ensures r == [] || !IsSpace(r[|r| - 1])
    decreases |s|
  {
    if s != [] && IsSpace(s[|s| - 1]) then StripRight(s[..|s| - 1]) else s
  }

  /** `r` is `s` with the whitespace before index `a` and after `r` cut away. */
  predicate StripsTo(s: string, r: string, a: nat) {
    && a + |r| <= |s| && r == s[a..a + |r|]
    && (forall k :: 0 <= k < a ==> IsSpace(s[k]))
    && (forall k :: a + |r| <= k < |s| ==> IsSpace(s[k]))
  }

  /**
   * Python's `s.strip()`: the slice of `s` left after removing the whitespace at
   * both ends. It starts and ends with non-whitespace, and text already so is kept.
   */
  function Strip(s: string): (r: string)
    ensures Trimmed(r)
    ensures exists a: nat :: StripsTo(s, r, a)
    ensures Trimmed(s) ==> r == s
  {
    var l := StripLeft(s);
    var r := StripRight(l);
    StripFacts(s, l, r);
    r
  }

  /** What `Strip` promises, from what `StripLeft` and `StripRight` promise. */
  lemma StripFacts(s: string, l: string, r: string)
    requires |l| <= |s| && l == s[|s| - |l|..]
    requires forall k :: 0 <= k < |s| - |l| ==> IsSpace(s[k])
    requires l == [] || !IsSpace(l[0])
    requires |r| <= |l| && r == l[..|r|]
    requires forall k :: |r| <= k < |l| ==> IsSpace(l[k])
    requires r == [] || !IsSpace(r[|r| - 1])
    ensures Trimmed(r)
    ensures StripsTo(s, r, |s| - |l|)
    ensures Trimmed(s) ==> r == s
  {
    var a := |s| - |l|;
    assert r != [] ==> r[0] == l[0];
    assert r == s[a..a + |r|];
    forall k | a + |r| <= k < |s| ensures IsSpace(s[k]) {
      assert s[k] == l[k - a];
    }
    if Trimmed(s) && s != [] {
      assert a == 0;
      assert l[|l| - 1] == s[|s| - 1];
    }
  }

  /** Stripping never adds a character. */
  lemma StripKeeps(s: string, x: char)
    ensures x in Strip(s) ==> x in s
  {
    var r := Strip(s);
    var a: nat :| StripsTo(s, r, a);
    SliceKeeps(s, r, a, x);
  }

  lemma SliceKeeps(s: string, r: string, a: nat, x: char)
    requires a + |r| <= |s| && r == s[a..a + |r|]
    ensures x in r ==> x in s
  {
    if x in r {
      var m :| 0 <= m < |r| && r[m] == x;
      assert s[a + m] == x;
    }
  }

  /** The decimal digit character for `d`. */
  function Digit(d: nat): (c: char)
    requires d < 10
    ensures '0' <= c <= '9'
  {
    ('0' as int + d) as char
  }

  predicate IsDigits(s: string) {
    forall k :: 0 <= k < |s| ==> '0' <= s[k] <= '9'
  }

  /** Python's `str(n)` for a non-negative integer: its decimal text, without leading zeros. */
  function DecimalText(n: nat): (r: string)
    ensures r != [] && IsDigits(r)
    ensures r[0] == '0' ==> n == 0
    decreases n
  {
    if n < 10 then [Digit(n)] else DecimalText(n / 10) + [Digit(n % 10)]
  }

  /** The value of a string of decimal digits (the reading `int(...)` gives it). */
  function DecimalValue(s: string): (n: nat)
    requires IsDigits(s)
    decreases |s|
  {
    if s == [] then 0
    else
      DecimalValue(s[..|s| - 1]) * 10 + (s[|s| - 1] as int - '0' as int)
  }

  /** Reading back the decimal text of `n` gives `n`. */
  lemma {:induction false} DecimalRoundTrip(n: nat)
    ensures DecimalValue(DecimalText(n)) == n
    decreases n
  {
    var r := DecimalText(n);
    if n >= 10 {
      DecimalRoundTrip(n / 10);
      assert r[..|r| - 1] == DecimalText(n / 10);
    }
  }
}
