/** The Python string operations fix-with-python.py relies on: the `in` test,
    `str.replace`, `str.split` on one separator and `str.join`. */
module PyStrings {

  /** The window of `s` at `i` spells `pat`. */
  predicate OccursAt(s: string, pat: string, i: int) {
    0 <= i <= |s| - |pat| && s[i..i + |pat|] == pat
  }

  /** `pat in s`: some window of `s` spells `pat`. The empty pattern is in
      every text, a pattern longer than the text is in none, and a text holds
      every prefix of itself. */
  function Contains(s: string, pat: string): (b: bool)
    ensures pat == [] ==> b
    ensures b ==> |pat| <= |s|
    ensures StartsWith(s, pat) ==> b
  {
    assert |pat| <= |s| ==> s[0..|pat|] == s[..|pat|];
    assert pat == [] || StartsWith(s, pat) ==> OccursAt(s, pat, 0);
    exists i | 0 <= i <= |s| - |pat| :: OccursAt(s, pat, i)
  }

  predicate StartsWith(s: string, pat: string) {
    |pat| <= |s| && s[..|pat|] == pat
  }

  /** `s.replace(pat, rep)` for a non-empty `pat`: scans from the left and
      replaces each occurrence it meets, resuming after it, so occurrences
      never overlap. */
  function ReplaceAll(s: string, pat: string, rep: string): (r: string)
    requires pat != []
    ensures |pat| == |rep| ==> |r| == |s|
    decreases |s|
  {
    if |s| < |pat| then s
    else if StartsWith(s, pat) then rep + ReplaceAll(s[|pat|..], pat, rep)
    else [s[0]] + ReplaceAll(s[1..], pat, rep)
  }

  /** Position `k` of `r` lies in a window where `s` spells `pat` and `r`
      spells `rep`. */
  predicate ReplacedAt(s: string, pat: string, rep: string, r: string, k: int)
    requires |r| == |s|
  {
    exists j | k - |pat| < j <= k :: OccursAt(s, pat, j) && r[j..j + |pat|] == rep
  }

  /** A replaced window stays a replaced window when equally long texts are
      put in front of the source and of the result. */
  lemma ReplacedAtShift(a: string, t: string, b: string, rest: string, pat: string, rep: string, k: int)
    requires |a| == |b| && |rest| == |t|
    requires ReplacedAt(t, pat, rep, rest, k)
    ensures ReplacedAt(a + t, pat, rep, b + rest, k + |a|)
  {
    var i :| k - |pat| < i <= k && OccursAt(t, pat, i) && rest[i..i + |pat|] == rep;
    var j := i + |a|;
    assert (a + t)[j..j + |pat|] == t[i..i + |pat|];
    assert (b + rest)[j..j + |pat|] == rest[i..i + |pat|];
    assert OccursAt(a + t, pat, j);
  }

  /** What `replace` does to each character when the replacement is as long
      as the pattern: the character is kept, or it lies in an occurrence of
      the pattern that the result spells as the replacement. */
  lemma {:induction false} ReplaceAllKeepsOrReplaces(s: string, pat: string, rep: string, k: int)
    requires pat != [] && |rep| == |pat| && 0 <= k < |s|
    ensures ReplaceAll(s, pat, rep)[k] == s[k] || ReplacedAt(s, pat, rep, ReplaceAll(s, pat, rep), k)
    decreases |s|
  {
    if |s| >= |pat| {
      var r := ReplaceAll(s, pat, rep);
      var n := if StartsWith(s, pat) then |pat| else 1;
      var a, b := s[..n], r[..n];
      var t := s[n..];
      var rest := ReplaceAll(t, pat, rep);
      assert s == a + t;
      assert r == b + rest;
      if k < n && StartsWith(s, pat) {
        assert r == rep + rest;
        assert r[0..|pat|] == rep && s[0..|pat|] == s[..|pat|];
        assert OccursAt(s, pat, 0);
      } else if k >= n {
        ReplaceAllKeepsOrReplaces(t, pat, rep, k - n);
        if rest[k - n] != t[k - n] {
          ReplacedAtShift(a, t, b, rest, pat, rep, k - n);
        }
      }
    }
  }

  /** `replace` takes the leftmost occurrence first and goes on after its
      end: with `j` the first place `pat` occurs, the text before `j` is kept,
      the occurrence becomes `rep`, and the rest is replaced on its own, so
      an occurrence overlapping this one is never replaced. */
  lemma {:induction false} ReplaceAllFirst(s: string, pat: string, rep: string, j: int)
    requires pat != [] && OccursAt(s, pat, j)
    requires forall i :: 0 <= i < j ==> !OccursAt(s, pat, i)
    ensures ReplaceAll(s, pat, rep) == s[..j] + rep + ReplaceAll(s[j + |pat|..], pat, rep)
    decreases j
  {
    if j == 0 {
      assert StartsWith(s, pat) by {
        assert s[..|pat|] == s[0..|pat|];
      }
      ReplaceAllTake(s, pat, rep);
      assert s[..j] + rep == rep;
      assert s[j + |pat|..] == s[|pat|..];
    } else {
      FirstInTail(s, pat, j);
      ReplaceAllFirst(s[1..], pat, rep, j - 1);
      FirstLater(s, pat, rep, j);
    }
  }

  /** The step of `ReplaceAllFirst` for an occurrence past the start: the
      first character is kept in front of what the rest becomes. */
  lemma FirstLater(s: string, pat: string, rep: string, j: int)
    requires pat != [] && 0 < j && j + |pat| <= |s| && !StartsWith(s, pat)
    requires ReplaceAll(s[1..], pat, rep)
      == s[1..][..j - 1] + rep + ReplaceAll(s[1..][j - 1 + |pat|..], pat, rep)
    ensures ReplaceAll(s, pat, rep) == s[..j] + rep + ReplaceAll(s[j + |pat|..], pat, rep)
  {
    var t, tail := s[1..], s[j + |pat|..];
    assert t[j - 1 + |pat|..] == tail;
    ReplaceAllSkip(s, pat, rep);
    var r, x := ReplaceAll(t, pat, rep), ReplaceAll(tail, pat, rep);
    assert ReplaceAll(s, pat, rep) == [s[0]] + r;
    assert r == t[..j - 1] + rep + x;
    ConsRegroup(s[0], t[..j - 1], rep, x);
    assert [s[0]] + t[..j - 1] == s[..j];
  }

  /** When the first occurrence is not at the start, it is the first
      occurrence of the text without its first character, one place earlier. */
  lemma FirstInTail(s: string, pat: string, j: int)
    requires pat != [] && 0 < j && OccursAt(s, pat, j)
    requires forall i :: 0 <= i < j ==> !OccursAt(s, pat, i)
    ensures |pat| <= |s| && !StartsWith(s, pat)
    ensures OccursAt(s[1..], pat, j - 1)
    ensures forall i :: 0 <= i < j - 1 ==> !OccursAt(s[1..], pat, i)
  {
    assert !StartsWith(s, pat) by {
      assert s[..|pat|] == s[0..|pat|];
      assert !OccursAt(s, pat, 0);
    }
    var t := s[1..];
    assert t[j - 1..j - 1 + |pat|] == s[j..j + |pat|];
    forall i | 0 <= i < j - 1 ensures !OccursAt(t, pat, i) {
      assert t[i..i + |pat|] == s[i + 1..i + 1 + |pat|];
      assert !OccursAt(s, pat, i + 1);
    }
  }

  /** A text starting with the pattern has that occurrence replaced. */
  lemma ReplaceAllTake(s: string, pat: string, rep: string)
    requires pat != [] && StartsWith(s, pat)
    ensures ReplaceAll(s, pat, rep) == rep + ReplaceAll(s[|pat|..], pat, rep)
  {
  }

  /** A text long enough for the pattern but not starting with it keeps its
      first character. */
  lemma ReplaceAllSkip(s: string, pat: string, rep: string)
    requires pat != [] && |pat| <= |s| && !StartsWith(s, pat)
    ensures ReplaceAll(s, pat, rep) == [s[0]] + ReplaceAll(s[1..], pat, rep)
  {
  }

  /** Regrouping a concatenation that starts with one character. */
  lemma ConsRegroup(c: char, a: string, b: string, x: string)
    ensures [c] + (a + b + x) == ([c] + a) + b + x
  {
  }

  /** A window of a part of `s` is a window of `s`. */
  lemma ContainsWithin(x: string, y: string, off: int, pat: string)
    requires 0 <= off && off + |x| <= |y| && y[off..off + |x|] == x
    requires Contains(x, pat)
    ensures Contains(y, pat)
  {
    var i :| 0 <= i <= |x| - |pat| && OccursAt(x, pat, i);
    var w := y[off + i..off + i + |pat|];
    forall k | 0 <= k < |pat| ensures w[k] == pat[k] {
      assert w[k] == y[off..off + |x|][i + k];
      assert pat[k] == x[i..i + |pat|][k];
    }
    assert w == pat;
    assert OccursAt(y, pat, off + i);
  }

  /** Without an occurrence there is nothing to replace. */
  lemma {:induction false} ReplaceAllAbsent(s: string, pat: string, rep: string)
    requires pat != [] && !Contains(s, pat)
    ensures ReplaceAll(s, pat, rep) == s
    decreases |s|
  {
    if |s| >= |pat| {
      assert !StartsWith(s, pat) by {
        assert !OccursAt(s, pat, 0);
      }
      if Contains(s[1..], pat) {
        ContainsWithin(s[1..], s, 1, pat);
      }
      ReplaceAllAbsent(s[1..], pat, rep);
    }
  }

  /** Every character of the result comes from `s` or from `rep`. */
  lemma {:induction false} ReplaceAllChars(s: string, pat: string, rep: string, c: char)
    requires pat != []
    requires c in ReplaceAll(s, pat, rep)
    ensures c in s || c in rep
    decreases |s|
  {
    if |s| >= |pat| {
      if StartsWith(s, pat) {
        if c !in rep {
          ReplaceAllChars(s[|pat|..], pat, rep, c);
        }
      } else if c != s[0] {
        ReplaceAllChars(s[1..], pat, rep, c);
      }
    }
  }

  /** A character found neither in `s` nor in `rep` is not in the result. */
  lemma ReplaceAllKeepsOut(s: string, pat: string, rep: string, c: char)
    requires pat != []
    ensures c !in s && c !in rep ==> c !in ReplaceAll(s, pat, rep)
  {
    if c !in s && c !in rep && c in ReplaceAll(s, pat, rep) {
      ReplaceAllChars(s, pat, rep, c);
    }
  }

  /** The shape of pattern and replacement under which replacing cannot leave
      or create an occurrence: equal lengths, the pattern's last character is
      absent from the replacement, and the pattern's first character appears
      in the replacement at most at its start. */
  predicate Replaceable(pat: string, rep: string) {
    && pat != [] && |rep| == |pat|
    && pat[|pat| - 1] !in rep
    && forall i :: 0 < i < |rep| ==> rep[i] != pat[0]
  }

  /** A text that does not start with a proper suffix `w` of the pattern keeps
      not starting with it after the replacement. */
  lemma {:induction false} ReplaceAllKeepsNonPrefix(t: string, w: string, pat: string, rep: string)
    requires Replaceable(pat, rep)
    requires 0 < |w| < |pat| && w == pat[|pat| - |w|..]
    requires !StartsWith(t, w)
    ensures !StartsWith(ReplaceAll(t, pat, rep), w)
    decreases |t|
  {
    var r := ReplaceAll(t, pat, rep);
    if |t| >= |pat| {
      if StartsWith(t, pat) {
        assert r[|w| - 1] == rep[|w| - 1];
        assert w[|w| - 1] == pat[|pat| - 1];
      } else if t[0] == w[0] && |w| > 1 {
        assert t[..|w|] == [t[0]] + t[1..][..|w| - 1];
        ReplaceAllKeepsNonPrefix(t[1..], w[1..], pat, rep);
        assert r == [t[0]] + ReplaceAll(t[1..], pat, rep);
        assert r[..|w|] == [t[0]] + ReplaceAll(t[1..], pat, rep)[..|w| - 1];
      }
    }
  }

  /** An occurrence past a prefix `a` is an occurrence in what follows `a`. */
  lemma OccursPast(a: string, rest: string, pat: string, i: int)
    requires |a| <= i && OccursAt(a + rest, pat, i)
    ensures OccursAt(rest, pat, i - |a|)
  {
    assert (a + rest)[i..i + |pat|] == rest[i - |a|..i - |a| + |pat|];
  }

  /** The replacement put in front of a text free of the pattern leaves it
      free of the pattern. */
  lemma ReplacedFrontIsClean(rep: string, rest: string, pat: string)
    requires Replaceable(pat, rep) && !Contains(rest, pat)
    ensures !Contains(rep + rest, pat)
  {
    var r := rep + rest;
    forall i | 0 <= i <= |r| - |pat| ensures !OccursAt(r, pat, i) {
      if i >= |rep| {
        if OccursAt(r, pat, i) {
          OccursPast(rep, rest, pat, i);
        }
      } else if i == 0 {
        assert r[|pat| - 1] == rep[|pat| - 1];
      } else {
        assert r[i] == rep[i];
      }
    }
  }

  /** A character kept in front of the replaced remainder creates no
      occurrence, since the text did not start with the pattern. */
  lemma KeptFrontIsClean(s: string, pat: string, rep: string)
    requires Replaceable(pat, rep) && |s| >= |pat| && !StartsWith(s, pat)
    requires !Contains(ReplaceAll(s[1..], pat, rep), pat)
    ensures !Contains([s[0]] + ReplaceAll(s[1..], pat, rep), pat)
  {
    var rest := ReplaceAll(s[1..], pat, rep);
    var r := [s[0]] + rest;
    forall i | 0 <= i <= |r| - |pat| ensures !OccursAt(r, pat, i) {
      if i >= 1 {
        if OccursAt(r, pat, i) {
          OccursPast([s[0]], rest, pat, i);
        }
      } else if s[0] == pat[0] && |pat| > 1 {
        assert s[..|pat|][1..] == s[1..][..|pat| - 1];
        assert !StartsWith(s[1..], pat[1..]);
        ReplaceAllKeepsNonPrefix(s[1..], pat[1..], pat, rep);
        assert r[1..|pat|] == rest[..|pat| - 1];
      }
    }
  }

  /** For such a pattern and replacement, no occurrence of the pattern is left
      after `replace`: every one has been replaced. */
  lemma {:induction false} ReplaceAllRemovesPattern(s: string, pat: string, rep: string)
    requires Replaceable(pat, rep)
    ensures !Contains(ReplaceAll(s, pat, rep), pat)
    decreases |s|
  {
    if |s| < |pat| {
      assert ReplaceAll(s, pat, rep) == s;
    } else if StartsWith(s, pat) {
      ReplaceAllRemovesPattern(s[|pat|..], pat, rep);
      ReplacedFrontIsClean(rep, ReplaceAll(s[|pat|..], pat, rep), pat);
    } else {
      ReplaceAllRemovesPattern(s[1..], pat, rep);
      KeptFrontIsClean(s, pat, rep);
    }
  }

  /* ---------------------------------------------------------------------
     str.split and str.join on one separator character
     --------------------------------------------------------------------- */

  /** `s.split(sep)`: the pieces between separators, always at least one;
      no piece holds the separator and the first piece is a prefix of `s`. */
  function Split(s: string, sep: char): (r: seq<string>)
    ensures |r| >= 1
    ensures forall piece :: piece in r ==> sep !in piece
    ensures |r[0]| <= |s| && r[0] == s[..|r[0]|]
    decreases |s|
  {
    if s == [] then [[]]
    else
      var rest := Split(s[1..], sep);
      if s[0] == sep then [[]] + rest
      else [[s[0]] + rest[0]] + rest[1..]
  }

  /** `sep.join(pieces)`. */
  function Join(pieces: seq<string>, sep: char): (r: string)
    ensures forall c :: c in r ==> c == sep || exists piece :: piece in pieces && c in piece
  {
    if pieces == [] then []
    else if |pieces| == 1 then pieces[0]
    else pieces[0] + [sep] + Join(pieces[1..], sep)
  }

  /** Joining the pieces with the separator gives back the text. */
  lemma {:induction false} JoinSplit(s: string, sep: char)
    ensures Join(Split(s, sep), sep) == s
    decreases |s|
  {
    if s != [] {
      var rest := Split(s[1..], sep);
      JoinSplit(s[1..], sep);
      if s[0] == sep {
        assert ([[]] + rest)[1..] == rest;
      } else if |rest| > 1 {
        var r := [[s[0]] + rest[0]] + rest[1..];
        assert r[1..] == rest[1..];
        assert Join(rest, sep) == rest[0] + [sep] + Join(rest[1..], sep);
      }
    }
  }

  /** A piece without the separator, followed by the separator, splits off
      as one piece. */
  lemma {:induction false} SplitAfterPiece(a: string, t: string, sep: char)
    requires sep !in a
    ensures Split(a + [sep] + t, sep) == [a] + Split(t, sep)
    decreases |a|
  {
    if a == [] {
      assert a + [sep] + t == [sep] + t;
      assert ([sep] + t)[1..] == t;
    } else {
      var s := a + [sep] + t;
      assert s[0] == a[0] && s[1..] == a[1..] + [sep] + t;
      SplitAfterPiece(a[1..], t, sep);
      var rest := Split(s[1..], sep);
      assert rest[0] == a[1..] && rest[1..] == Split(t, sep);
      assert [a[0]] + a[1..] == a;
    }
  }

  /** A text without the separator is a single piece. */
  lemma {:induction false} SplitWhole(a: string, sep: char)
    requires sep !in a
    ensures Split(a, sep) == [a]
    decreases |a|
  {
    if a != [] {
      SplitWhole(a[1..], sep);
      assert [a[0]] + a[1..] == a;
    }
  }

  /** Splitting a join of separator-free pieces gives back the pieces. */
  lemma {:induction false} SplitJoin(pieces: seq<string>, sep: char)
    requires pieces != []
    requires forall piece :: piece in pieces ==> sep !in piece
    ensures Split(Join(pieces, sep), sep) == pieces
    decreases |pieces|
  {
    if |pieces| == 1 {
      SplitWhole(pieces[0], sep);
    } else {
      SplitJoin(pieces[1..], sep);
      SplitAfterPiece(pieces[0], Join(pieces[1..], sep), sep);
    }
  }

  /** No piece of `s` holds a pattern that `s` does not hold. */
  lemma {:induction false} SplitKeepsAbsent(s: string, sep: char, pat: string)
    requires pat != [] && !Contains(s, pat)
    ensures forall piece :: piece in Split(s, sep) ==> !Contains(piece, pat)
    decreases |s|
  {
    if s != [] {
      var rest := Split(s[1..], sep);
      if Contains(s[1..], pat) {
        ContainsWithin(s[1..], s, 1, pat);
      }
      SplitKeepsAbsent(s[1..], sep, pat);
      if s[0] != sep {
        var first := [s[0]] + rest[0];
        assert first == s[..|first|];
        if Contains(first, pat) {
          ContainsWithin(first, s, 0, pat);
        }
      }
    }
  }
  /** A pattern without the separator occurs in a join only inside a piece. */
  lemma {:induction false} JoinKeepsAbsent(pieces: seq<string>, sep: char, pat: string)
    requires pat != [] && sep !in pat
    requires forall piece :: piece in pieces ==> !Contains(piece, pat)
    ensures !Contains(Join(pieces, sep), pat)
    decreases |pieces|
  {
    if |pieces| > 1 {
      var head := pieces[0] + [sep];
      var tail := Join(pieces[1..], sep);
      JoinKeepsAbsent(pieces[1..], sep, pat);
      var r := Join(pieces, sep);
      assert r == head + tail;
      forall i | 0 <= i <= |r| - |pat| ensures !OccursAt(r, pat, i) {
        if i >= |head| {
          if OccursAt(r, pat, i) {
            OccursPast(head, tail, pat, i);
          }
        } else if i + |pat| <= |pieces[0]| {
          assert pieces[0] in pieces;
          assert r[i..i + |pat|] == pieces[0][i..i + |pat|];
          assert !OccursAt(pieces[0], pat, i);
        } else {
          assert r[|pieces[0]|] == sep;
          assert r[i..i + |pat|][|pieces[0]| - i] == sep;
        }
      }
    }
  }
}
