/** The rewrite performed by fix-with-python.py, line by line. The text is
    split into lines and a single flag records whether the scan is inside a
    block. Outside a block, a line holding `sh '''` has every `sh '''` replaced
    by `sh """` and sets the flag; inside a block, a line holding `'''` has
    every `'''` replaced by `"""` and clears it; every other line is kept.
    A block opened and closed on one line is therefore not closed by that
    line, and the next `'''` line closes it instead. Reading and writing the
    file are not part of this model. */
module JenkinsfileFix {
  import opened PyStrings

  const SingleOpen: string := "sh '''"
  const DoubleOpen: string := "sh \"\"\""
  const SingleTriple: string := "'''"
  const DoubleTriple: string := "\"\"\""

  /** What the loop does with one line. */
  datatype Kind = Opened | Closed | Kept

  /** The `if`/`elif` of the loop: a line holding `sh '''` opens a block when
      the scan is outside one; a line holding `'''` closes the block the scan
      is in; every other line is kept. Which marker matters depends only on
      the flag: outside a block only `sh '''` does, inside only `'''`. */
  function Classify(line: string, inBlock: bool): (r: Kind)
    ensures r != Kept <==> Contains(line, if inBlock then SingleTriple else SingleOpen)
    ensures r == Opened ==> !inBlock
    ensures r == Closed ==> inBlock
  {
    if Contains(line, SingleOpen) && !inBlock then Opened
    else if Contains(line, SingleTriple) && inBlock then Closed
    else Kept
  }

  /** One line after its turn in the loop, and the flag after it. */
  datatype Scan = Scan(line: string, inBlock: bool)

  /** Both replacements swap a pattern for one that cannot recreate it. */
  lemma QuotesReplaceable()
    ensures Replaceable(SingleOpen, DoubleOpen)
    ensures Replaceable(SingleTriple, DoubleTriple)
    ensures '\n' !in DoubleOpen && '\n' !in DoubleTriple
  {
    assert DoubleOpen == ['s', 'h', ' ', '"', '"', '"'];
    assert DoubleTriple == ['"', '"', '"'];
  }

  /** Four quotes closing a block: the first three become `"""` and the
      fourth, which overlapped them, stays. */
  lemma ClosingOverlap()
    ensures ReplaceAll("''''", SingleTriple, DoubleTriple) == "\"\"\"'"
  {
    var s := "''''";
    assert OccursAt(s, SingleTriple, 0) by {
      assert s[0..3] == SingleTriple;
    }
    ReplaceAllFirst(s, SingleTriple, DoubleTriple, 0);
    assert s[3..] == "'";
    assert s[..0] == [];
  }

  /** A block opened and closed on one line: only `sh '''` is rewritten, the
      closing `'''` stays, and the scan is left inside a block. */
  lemma SameLineBlock()
    ensures Step("sh '''x'''", false) == Scan("sh \"\"\"x'''", true)
  {
    SameLineOpens();
    SameLineReplaced();
  }

  /** `sh '''x'''` outside a block is an opening line. */
  lemma SameLineOpens()
    ensures Classify("sh '''x'''", false) == Opened
  {
    var line := "sh '''x'''";
    assert StartsWith(line, SingleOpen) by {
      assert line[..6] == SingleOpen;
    }
  }

  /** Replacing `sh '''` in `sh '''x'''` leaves the closing quotes. */
  lemma SameLineReplaced()
    ensures ReplaceAll("sh '''x'''", SingleOpen, DoubleOpen) == "sh \"\"\"x'''"
  {
    var line, rest := "sh '''x'''", "x'''";
    assert OccursAt(line, SingleOpen, 0) by {
      assert line[0..6] == SingleOpen;
    }
    ReplaceAllFirst(line, SingleOpen, DoubleOpen, 0);
    assert line[6..] == rest && line[..0] == [];
  }

  /** A line holding `sh '''` holds `'''`. */
  lemma OpenHoldsTriple(line: string)
    requires Contains(line, SingleOpen)
    ensures Contains(line, SingleTriple)
  {
    var i :| 0 <= i <= |line| - |SingleOpen| && OccursAt(line, SingleOpen, i);
    assert OccursAt(SingleOpen, SingleTriple, 3);
    ContainsWithin(SingleOpen, line, i, SingleTriple);
  }

  /** One turn of the loop. The line keeps its length and has no line break
      added; a kept line and the flag stay as they were; an opening line has
      every `sh '''` replaced by `sh """`, holds no `sh '''` afterwards and
      enters the block; a closing line has every `'''` replaced by `"""`,
      holds no `'''` afterwards and leaves it. Whatever the kind, `sh '''` is
      gone from the line the loop appends. */
  function Step(line: string, inBlock: bool): (r: Scan)
    ensures |r.line| == |line|
    ensures '\n' !in line ==> '\n' !in r.line
    ensures Classify(line, inBlock) == Kept ==> r == Scan(line, inBlock)
    ensures Classify(line, inBlock) == Opened ==>
      r.inBlock && r.line == ReplaceAll(line, SingleOpen, DoubleOpen) && !Contains(r.line, SingleOpen)
    ensures Classify(line, inBlock) == Closed ==>
      !r.inBlock && r.line == ReplaceAll(line, SingleTriple, DoubleTriple) && !Contains(r.line, SingleTriple)
    ensures !Contains(r.line, SingleOpen)
  {
    QuotesReplaceable();
    match Classify(line, inBlock)
    case Opened =>
      ReplaceAllRemovesPattern(line, SingleOpen, DoubleOpen);
      ReplaceAllKeepsOut(line, SingleOpen, DoubleOpen, '\n');
      Scan(ReplaceAll(line, SingleOpen, DoubleOpen), true)
    case Closed =>
      var fixed := ReplaceAll(line, SingleTriple, DoubleTriple);
      ReplaceAllRemovesPattern(line, SingleTriple, DoubleTriple);
      ReplaceAllKeepsOut(line, SingleTriple, DoubleTriple, '\n');
      assert Contains(fixed, SingleOpen) ==> Contains(fixed, SingleTriple) by {
        if Contains(fixed, SingleOpen) { OpenHoldsTriple(fixed); }
      }
      Scan(fixed, false)
    case Kept =>
      assert inBlock && Contains(line, SingleOpen) ==> Contains(line, SingleTriple) by {
        if Contains(line, SingleOpen) { OpenHoldsTriple(line); }
      }
      Scan(line, inBlock)
  }

  /** The rewrite of one line character by character: every character is
      kept, except on an opening line, where it may lie in an `sh '''` of the
      input that the output spells `sh """`, and on a closing line, where it
      may lie in a `'''` of the input that the output spells `"""`. */
  lemma StepKeepsOrRewrites(line: string, inBlock: bool, k: int)
    requires 0 <= k < |line|
    ensures var r := Step(line, inBlock).line;
      || r[k] == line[k]
      || (Classify(line, inBlock) == Opened && ReplacedAt(line, SingleOpen, DoubleOpen, r, k))
      || (Classify(line, inBlock) == Closed && ReplacedAt(line, SingleTriple, DoubleTriple, r, k))
  {
    match Classify(line, inBlock)
    case Opened => ReplaceAllKeepsOrReplaces(line, SingleOpen, DoubleOpen, k);
    case Closed => ReplaceAllKeepsOrReplaces(line, SingleTriple, DoubleTriple, k);
    case Kept =>
  }

  /** The lines appended so far and the flag. */
  datatype Outcome = Outcome(fixed: seq<string>, inBlock: bool)

  /** The loop over `lines`, starting outside any block: one appended line per
      input line. */
  function Rewrite(lines: seq<string>): (r: Outcome)
    ensures |r.fixed| == |lines|
    decreases |lines|
  {
    if lines == [] then Outcome([], false)
    else
      var prev := Rewrite(lines[..|lines| - 1]);
      var s := Step(lines[|lines| - 1], prev.inBlock);
      Outcome(prev.fixed + [s.line], s.inBlock)
  }

  /** The loop over a prefix of the lines produced a prefix of the result. */
  lemma {:induction false} RewritePrefix(lines: seq<string>, n: nat)
    requires n <= |lines|
    ensures Rewrite(lines[..n]).fixed == Rewrite(lines).fixed[..n]
    decreases |lines|
  {
    if n < |lines| {
      var init := lines[..|lines| - 1];
      assert init[..n] == lines[..n];
      RewritePrefix(init, n);
      assert Rewrite(lines).fixed[..n] == Rewrite(init).fixed[..n];
    } else {
      assert lines[..n] == lines;
    }
  }

  /** The loop's last turn over the first `k + 1` lines appends line `k`
      after its turn. */
  lemma RewriteLast(lines: seq<string>, k: nat)
    requires k < |lines|
    ensures Rewrite(lines[..k + 1]).fixed[k] == Step(lines[k], Rewrite(lines[..k]).inBlock).line
  {
    var pre := lines[..k + 1];
    assert pre[..|pre| - 1] == lines[..k] && pre[|pre| - 1] == lines[k];
  }

  /** Line `k` of the result is line `k` of the input after its own turn,
      taken with the flag the earlier lines left. */
  lemma RewriteLine(lines: seq<string>, k: nat)
    requires k < |lines|
    ensures Rewrite(lines).fixed[k] == Step(lines[k], Rewrite(lines[..k]).inBlock).line
  {
    RewritePrefix(lines, k + 1);
    RewriteLast(lines, k);
    assert Rewrite(lines[..k + 1]).fixed[k] == Rewrite(lines).fixed[..k + 1][k];
  }

  /** No result line holds `sh '''`: every opening marker has been rewritten. */
  lemma {:induction false} RewriteClean(lines: seq<string>)
    ensures forall k :: 0 <= k < |lines| ==> !Contains(Rewrite(lines).fixed[k], SingleOpen)
    decreases |lines|
  {
    if lines != [] {
      RewriteClean(lines[..|lines| - 1]);
    }
  }

  /** No result line has a line break when no input line has one. */
  lemma {:induction false} RewriteNoBreaks(lines: seq<string>)
    requires forall k :: 0 <= k < |lines| ==> '\n' !in lines[k]
    ensures forall k :: 0 <= k < |lines| ==> '\n' !in Rewrite(lines).fixed[k]
    decreases |lines|
  {
    if lines != [] {
      RewriteNoBreaks(lines[..|lines| - 1]);
    }
  }

  /** Lines none of which holds `sh '''` never open a block and come out
      unchanged. */
  lemma {:induction false} RewriteWithoutOpen(lines: seq<string>)
    requires forall k :: 0 <= k < |lines| ==> !Contains(lines[k], SingleOpen)
    ensures Rewrite(lines) == Outcome(lines, false)
    decreases |lines|
  {
    if lines != [] {
      var init := lines[..|lines| - 1];
      RewriteWithoutOpen(init);
      assert init + [lines[|lines| - 1]] == lines;
    }
  }

  /** How many lines up to the end opened (or closed) a block. */
  function Count(lines: seq<string>, kind: Kind): (c: nat)
    ensures c <= |lines|
    decreases |lines|
  {
    if lines == [] then 0
    else
      var init := lines[..|lines| - 1];
      Count(init, kind)
      + (if Classify(lines[|lines| - 1], Rewrite(init).inBlock) == kind then 1 else 0)
  }

  /** Every turn of the loop is of exactly one kind: it keeps the line, opens
      a block or closes one. */
  lemma {:induction false} CountsPartition(lines: seq<string>)
    ensures Count(lines, Kept) + Count(lines, Opened) + Count(lines, Closed) == |lines|
    decreases |lines|
  {
    if lines != [] {
      CountsPartition(lines[..|lines| - 1]);
    }
  }

  /** Blocks open and close in turn: as many blocks were closed as opened,
      except for the one still open when the scan ends inside a block. */
  lemma {:induction false} BlocksAlternate(lines: seq<string>)
    ensures Count(lines, Opened) == Count(lines, Closed) + (if Rewrite(lines).inBlock then 1 else 0)
    decreases |lines|
  {
    if lines != [] {
      BlocksAlternate(lines[..|lines| - 1]);
    }
  }

  /** When no line opens a block, no line closes one either and every line is
      appended as it was read. */
  lemma {:induction false} RewriteNothingOpened(lines: seq<string>)
    requires Count(lines, Opened) == 0
    ensures Rewrite(lines) == Outcome(lines, false)
    ensures Count(lines, Closed) == 0
    decreases |lines|
  {
    if lines != [] {
      var init := lines[..|lines| - 1];
      RewriteNothingOpened(init);
      assert init + [lines[|lines| - 1]] == lines;
    }
  }

  /** The whole script: split on line breaks, rewrite, join again. The text
      written holds no `sh '''` at all, and splitting it gives back the
      rewritten lines, so it has exactly as many lines as the text read. */
  function FixContent(content: string): (r: string)
    ensures Split(r, '\n') == Rewrite(Split(content, '\n')).fixed
    ensures |Split(r, '\n')| == |Split(content, '\n')|
    ensures !Contains(r, SingleOpen)
  {
    var lines := Split(content, '\n');
    var fixed := Rewrite(lines).fixed;
    RewriteNoBreaks(lines);
    RewriteClean(lines);
    JoinKeepsAbsent(fixed, '\n', SingleOpen);
    SplitJoin(fixed, '\n');
    Join(fixed, '\n')
  }

  /** When no line is rewritten, joining the lines again gives back the text
      exactly: splitting and joining round-trip. */
  lemma FixContentRoundTrip(content: string)
    requires Count(Split(content, '\n'), Opened) == 0
    ensures FixContent(content) == content
  {
    RewriteNothingOpened(Split(content, '\n'));
    JoinSplit(content, '\n');
  }

  /** A text without `sh '''` is written back exactly as it was read. */
  lemma FixContentUnchanged(content: string)
    requires !Contains(content, SingleOpen)
    ensures FixContent(content) == content
  {
    var lines := Split(content, '\n');
    SplitKeepsAbsent(content, '\n', SingleOpen);
    RewriteWithoutOpen(lines);
    JoinSplit(content, '\n');
  }

  /** Running the script a second time changes nothing. */
  lemma FixContentIdempotent(content: string)
    ensures FixContent(FixContent(content)) == FixContent(content)
  {
    FixContentUnchanged(FixContent(content));
  }

  /** The loop of fix-with-python.py, line by line as it is written. */
  method FixLines(lines: seq<string>) returns (fixed: seq<string>, inBlock: bool)
    ensures Outcome(fixed, inBlock) == Rewrite(lines)
    ensures |fixed| == |lines|
    ensures forall k :: 0 <= k < |fixed| ==> !Contains(fixed[k], SingleOpen)
  {
    fixed := [];
    inBlock := false;
    for i := 0 to |lines|
      invariant Rewrite(lines[..i]) == Outcome(fixed, inBlock)
    {
      var line := lines[i];
      if Contains(line, SingleOpen) && !inBlock {
        line := ReplaceAll(line, SingleOpen, DoubleOpen);
        inBlock := true;
      } else if Contains(line, SingleTriple) && inBlock {
        line := ReplaceAll(line, SingleTriple, DoubleTriple);
        inBlock := false;
      }
      fixed := fixed + [line];
      assert lines[..i + 1][..i] == lines[..i];
    }
    assert lines[..|lines|] == lines;
    RewriteClean(lines);
  }

  /** The script from the read of the file to the write: the text it writes
      back. */
  method FixJenkinsfile(content: string) returns (result: string)
    ensures result == FixContent(content)
    ensures !Contains(result, SingleOpen)
    ensures !Contains(content, SingleOpen) ==> result == content
  {
    var lines := Split(content, '\n');
    var fixed, _ := FixLines(lines);
    result := Join(fixed, '\n');
    if !Contains(content, SingleOpen) {
      FixContentUnchanged(content);
    }
  }
}
