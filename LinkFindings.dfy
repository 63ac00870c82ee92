/** Where the ranges of extension.js:36-43 land against the text they are meant to cover.
    As written, every range sits one character to the right of its line (the start is
    `lastProcessdLineEndIndex + 1` although the running offset starts AT the block, not one
    before it), and the offset of the block is `match[0].indexOf(pathsBlock)`, which finds the
    first occurrence of the block's text, possibly inside the header. The corrected records put
    the running offset one before the block's first non-blank character, and then each range
    covers exactly its line. */
module LinkFindings {
  import opened Wrappers
  import opened JsString
  import opened PathToken
  import opened DocumentLinks

  // ---------------------------------------------------------------------------------------
  // As written.
  // ---------------------------------------------------------------------------------------

  /** A one-line `context` block. */
  const ContextText: string := "context:\na.txt\n"

  /** A one-line `output` block whose line repeats the label. */
  const OutputText: string := "output:\noutput\n"

  lemma ContextHeader()
    ensures LabelEnd(ContextText, 0) == Some(8) && SpaceRunEnd(ContextText, 8) == 9
  {
    assert ContextText[0..7] == "context";
    assert !LabelAt(ContextText, 0, "inspiration") by { assert ContextText[0] != "inspiration"[0]; }
    assert LabelEnd(ContextText, 0) == Some(8);
  }

  lemma ContextBlock()
    ensures BlockEnd(ContextText, 9) == Some(15)
  {
    assert RunEnd(ContextText, 9) == 14;
  }

  lemma ContextExec()
    ensures Exec(ContextText, 0) == Some(RegexMatch(0, 9, 15))
    ensures Exec(ContextText, 15) == None
  {
    ContextHeader();
    ContextBlock();
    assert MatchAt(ContextText, 0) == Some(RegexMatch(0, 9, 15));
    assert LabelEnd(ContextText, 15).None?;
  }

  lemma ContextTrim()
    ensures Trim(BlockText(ContextText, RegexMatch(0, 9, 15))) == "a.txt"
  {
    assert BlockText(ContextText, RegexMatch(0, 9, 15)) == "a.txt\n";
    assert LeadingSpace("a.txt\n") == 0;
    assert TrailingSpace("a.txt\n") == 1;
  }

  lemma ContextIndex()
    ensures IndexOf(ContextText, "a.txt") == 9
  {
    assert OccursAt(ContextText, "a.txt", 9);
    forall j | 0 <= j < 9 ensures !OccursAt(ContextText, "a.txt", j) {
      assert ContextText[j] != 'a';
    }
    IndexOfIsFirstOccurrence(ContextText, "a.txt");
  }

  lemma ContextLines()
    ensures BlockLines(ContextText, RegexMatch(0, 9, 15)) == ["a.txt"]
  {
    ContextTrim();
    ContextSplit();
  }

  lemma ContextCursor()
    ensures BlockCursor(ContextText, RegexMatch(0, 9, 15)) == 9
  {
    ContextTrim();
    ContextIndex();
    ContextWhole();
  }

  lemma ContextWhole()
    ensures MatchText(ContextText, RegexMatch(0, 9, 15)) == ContextText
  {
  }

  lemma ContextSplit()
    ensures Split("a.txt", '\n') == ["a.txt"]
  {
    assert IndexOfChar("a.txt", '\n') == 5;
  }

  lemma ContextLinks(docPath: string)
    ensures LinksFrom(ContextText, docPath, 0) == BlockLinks(9, ["a.txt"], docPath)
  {
    ContextExec();
    ContextLines();
    ContextCursor();
    LinksFromStep(ContextText, docPath, 0);
    LinksFromNone(ContextText, docPath, 15);
  }

  /** A one-line block: whatever the document, the range reported for `a.txt` is `[10, 15)`,
      which holds `.txt\n`; the line itself is `[9, 14)`. */
  lemma ShiftedRangeExample(docPath: string)
    ensures var ls := LinksFrom(ContextText, docPath, 0);
      |ls| == 1 && ls[0].start == 10 && ls[0].end == 15
      && ContextText[9..14] == "a.txt" && ContextText[ls[0].start..ls[0].end] == ".txt\n"
  {
    ContextLinks(docPath);
    ContextRange(docPath);
    ContextSlices();
  }

  lemma ContextRange(docPath: string)
    ensures var ls := BlockLinks(9, ["a.txt"], docPath);
      |ls| == 1 && ls[0].start == 10 && ls[0].end == 15
  {
    assert ["a.txt"][1..] == [];
  }

  lemma ContextSlices()
    ensures ContextText[9..14] == "a.txt" && ContextText[10..15] == ".txt\n"
  {
  }


  lemma OutputHeader()
    ensures LabelEnd(OutputText, 0) == Some(7) && SpaceRunEnd(OutputText, 7) == 8
  {
    assert OutputText[0..6] == "output";
    assert !LabelAt(OutputText, 0, "inspiration") by { assert OutputText[0] != "inspiration"[0]; }
    assert !LabelAt(OutputText, 0, "context") by { assert OutputText[0] != "context"[0]; }
    assert LabelEnd(OutputText, 0) == Some(7);
  }

  lemma OutputBlock()
    ensures BlockEnd(OutputText, 8) == Some(15)
  {
    assert RunEnd(OutputText, 8) == 14;
  }

  lemma OutputExec()
    ensures Exec(OutputText, 0) == Some(RegexMatch(0, 8, 15))
    ensures Exec(OutputText, 15) == None
  {
    OutputHeader();
    OutputBlock();
    assert MatchAt(OutputText, 0) == Some(RegexMatch(0, 8, 15));
    assert LabelEnd(OutputText, 15).None?;
  }

  lemma OutputTrim()
    ensures Trim(BlockText(OutputText, RegexMatch(0, 8, 15))) == "output"
  {
    assert BlockText(OutputText, RegexMatch(0, 8, 15)) == "output\n";
    assert LeadingSpace("output\n") == 0;
    assert TrailingSpace("output\n") == 1;
  }

  lemma OutputIndex()
    ensures IndexOf(OutputText, "output") == 0
  {
    assert OccursAt(OutputText, "output", 0);
    IndexOfIsFirstOccurrence(OutputText, "output");
  }

  lemma OutputLines()
    ensures BlockLines(OutputText, RegexMatch(0, 8, 15)) == ["output"]
  {
    OutputTrim();
    OutputSplit();
  }

  lemma OutputCursor()
    ensures BlockCursor(OutputText, RegexMatch(0, 8, 15)) == 0
  {
    OutputTrim();
    OutputIndex();
    OutputWhole();
  }

  lemma OutputWhole()
    ensures MatchText(OutputText, RegexMatch(0, 8, 15)) == OutputText
  {
  }

  lemma OutputSplit()
    ensures Split("output", '\n') == ["output"]
  {
    assert IndexOfChar("output", '\n') == 6;
  }

  lemma OutputLinks(docPath: string)
    ensures LinksFrom(OutputText, docPath, 0) == BlockLinks(0, ["output"], docPath)
  {
    OutputExec();
    OutputLines();
    OutputCursor();
    LinksFromStep(OutputText, docPath, 0);
    LinksFromNone(OutputText, docPath, 15);
  }

  /** A block whose text also spells the header's label: `indexOf` finds it at offset 0, in
      the header, so the range reported is `[1, 7)`, which holds `utput:`; the line itself is
      `[8, 14)`. */
  lemma HeaderOccurrenceExample(docPath: string)
    ensures var ls := LinksFrom(OutputText, docPath, 0);
      |ls| == 1 && ls[0].start == 1 && ls[0].end == 7
      && OutputText[8..14] == "output" && OutputText[ls[0].start..ls[0].end] == "utput:"
  {
    OutputLinks(docPath);
    OutputRange(docPath);
    OutputSlices();
  }

  lemma OutputRange(docPath: string)
    ensures var ls := BlockLinks(0, ["output"], docPath);
      |ls| == 1 && ls[0].start == 1 && ls[0].end == 7
  {
    assert ["output"][1..] == [];
  }

  lemma OutputSlices()
    ensures OutputText[8..14] == "output" && OutputText[1..7] == "utput:"
  {
  }


  /** `ls` is `cs` with every range moved one character to the right and the same targets. */
  predicate ShiftedRight(ls: seq<DocumentLink>, cs: seq<DocumentLink>)
  {
    |ls| == |cs|
    && forall i :: 0 <= i < |ls| ==>
         ls[i].start == cs[i].start + 1 && ls[i].end == cs[i].end + 1 && ls[i].target == cs[i].target
  }

  /** The as-written offset is never past the block's first non-blank character: the
      occurrence `indexOf` finds is the block itself or an earlier one. */
  lemma AsWrittenCursorNotAfterBlock(text: string, m: RegexMatch)
    requires WellFormed(text, m)
    ensures BlockCursor(text, m) <= TrueBlockStart(text, m)
  {
    var whole := MatchText(text, m);
    var j := m.blockStart - m.index;
    assert BlockText(text, m) == whole[j..];
    IndexOfTrimmedTail(whole, j);
  }

  /** When `indexOf` does find the block itself, each as-written range is its corrected range
      moved one character to the right. */
  lemma AsWrittenShiftedByOne(text: string, m: RegexMatch, docPath: string)
    requires WellFormed(text, m)
    requires BlockCursor(text, m) == TrueBlockStart(text, m)
    ensures ShiftedRight(MatchLinks(text, m, docPath), CorrectedMatchLinks(text, m, docPath))
  {
    var c := TrueBlockStart(text, m) - 1;
    var ps := BlockLines(text, m);
    ShiftedRightOfCursor(MatchLinks(text, m, docPath), CorrectedMatchLinks(text, m, docPath), c, ps, docPath);
  }

  lemma ShiftedRightOfCursor(ls: seq<DocumentLink>, cs: seq<DocumentLink>, c: int, ps: seq<string>, docPath: string)
    requires ls == BlockLinks(c + 1, ps, docPath) && cs == BlockLinks(c, ps, docPath)
    ensures ShiftedRight(ls, cs)
  {
    BlockLinksShift(c, ps, docPath);
  }

  // ---------------------------------------------------------------------------------------
  // Corrected.
  // ---------------------------------------------------------------------------------------

  /** Offset of the trimmed block in the text: past the block's leading white space. */
  function TrueBlockStart(text: string, m: RegexMatch): (s: nat)
    requires WellFormed(text, m)
    ensures m.blockStart <= s && s + |Trim(BlockText(text, m))| <= m.end
  {
    m.blockStart + LeadingSpace(BlockText(text, m))
  }

  /** The records of one match with the running offset one before the trimmed block, so that
      `lastProcessdLineEndIndex + 1` is where the first line starts. */
  function CorrectedMatchLinks(text: string, m: RegexMatch, docPath: string): seq<DocumentLink>
    requires WellFormed(text, m)
  {
    BlockLinks(TrueBlockStart(text, m) - 1, BlockLines(text, m), docPath)
  }

  /** Record `i` of `ls` lies in `[lo, hi]` and the text it covers is `ps[i]`. */
  predicate Covers(text: string, ls: seq<DocumentLink>, ps: seq<string>, lo: int, hi: int)
  {
    |ls| == |ps|
    && forall i :: 0 <= i < |ls| ==>
         0 <= lo <= ls[i].start <= ls[i].end <= hi && ls[i].end <= |text|
         && text[ls[i].start..ls[i].end] == ps[i]
  }

  /** Every corrected range lies in the match, after its first character, and covers exactly
      its line of the block. */
  lemma CorrectedLinksCoverLines(text: string, m: RegexMatch, docPath: string)
    requires WellFormed(text, m)
    ensures Covers(text, CorrectedMatchLinks(text, m, docPath), BlockLines(text, m), m.index + 1, m.end)
  {
    CoverTrueBlock(text, m, TrueBlockStart(text, m), BlockLines(text, m), docPath);
  }

  lemma CoverTrueBlock(text: string, m: RegexMatch, s: nat, ps: seq<string>, docPath: string)
    requires WellFormed(text, m) && s == TrueBlockStart(text, m) && ps == BlockLines(text, m)
    ensures 0 < s && Covers(text, BlockLinks(s - 1, ps, docPath), ps, m.index + 1, m.end)
  {
    TrimmedBlockInText(text, m);
    BlockAtOffsetCovers(text, s, Trim(BlockText(text, m)), ps, docPath, m.index + 1, m.end);
  }

  /** The records of the lines of `t`, sitting in `text` at `s` inside `[lo, hi]`, cover
      those lines inside `[lo, hi]`. */
  lemma BlockAtOffsetCovers(text: string, s: nat, t: string, ps: seq<string>, docPath: string, lo: int, hi: int)
    requires 0 <= lo <= s && s + |t| <= hi && 0 < s && s + |t| <= |text| && text[s..s + |t|] == t
    requires ps == Split(t, '\n')
    ensures Covers(text, BlockLinks(s - 1, ps, docPath), ps, lo, hi)
  {
    LinesAtOffsets(text, s, t, docPath);
    CoversWeaken(text, BlockLinks(s - 1, ps, docPath), ps, s, s + |t|, lo, hi);
  }

  lemma CoversWeaken(text: string, ls: seq<DocumentLink>, ps: seq<string>, lo: int, hi: int, lo': int, hi': int)
    requires Covers(text, ls, ps, lo, hi) && 0 <= lo' <= lo && hi <= hi'
    ensures Covers(text, ls, ps, lo', hi')
  {
  }

  /** When `t` sits in `text` at `s`, the records of its lines with the running offset at
      `s - 1` cover those lines exactly. */
  lemma LinesAtOffsets(text: string, s: nat, t: string, docPath: string)
    requires 0 < s && s + |t| <= |text| && text[s..s + |t|] == t
    ensures Covers(text, BlockLinks(s - 1, Split(t, '\n'), docPath), Split(t, '\n'), s, s + |t|)
  {
    var ps := Split(t, '\n');
    var ls := BlockLinks(s - 1, ps, docPath);
    BlockLinkPositions(s - 1, ps, docPath);
    SplitPieceAt(t, '\n');
    forall i | 0 <= i < |ls|
      ensures s <= ls[i].start <= ls[i].end <= s + |t| && ls[i].end <= |text|
      ensures text[ls[i].start..ls[i].end] == ps[i]
    {
      assert PieceAt(t, ps, i);
      LineOfBlockAt(text, s, t, ps, ls[i], i);
    }
  }

  /** A record placed one character before piece `i` of `t`, when `t` sits in `text` at `s`,
      covers that piece exactly. */
  lemma LineOfBlockAt(text: string, s: nat, t: string, ps: seq<string>, l: DocumentLink, i: nat)
    requires 0 < s && s + |t| <= |text| && text[s..s + |t|] == t
    requires i < |ps| && PieceAt(t, ps, i)
    requires l.start == s - 1 + Span(ps[..i]) + 1 && l.end == l.start + |ps[i]|
    ensures s <= l.start <= l.end <= s + |t| && text[l.start..l.end] == ps[i]
  {
    LineAtOffset(text, s, t, ps[i], Span(ps[..i]));
  }

  /** A piece of `t` at `off`, where `t` sits in `text` at `s`, sits in `text` at `s + off`. */
  lemma LineAtOffset(text: string, s: nat, t: string, line: string, off: nat)
    requires s + |t| <= |text| && text[s..s + |t|] == t
    requires off + |line| <= |t| && t[off..off + |line|] == line
    ensures text[s + off..s + off + |line|] == line
  {
    SliceOfSlice(text, s, s + |t|, off, |line|);
  }

  /** The trimmed block is the text at its true offset. */
  lemma TrimmedBlockInText(text: string, m: RegexMatch)
    requires WellFormed(text, m)
    ensures var t, s := Trim(BlockText(text, m)), TrueBlockStart(text, m);
      m.index < s && s + |t| <= m.end && text[s..s + |t|] == t
  {
    var b := BlockText(text, m);
    var t := Trim(b);
    assert b == text[m.blockStart..m.end];
    TrimIsSlice(b);
    SliceOfSlice(text, m.blockStart, m.end, LeadingSpace(b), |t|);
  }

  /** The corrected records of all matches at or after `from`, in the order `exec` finds
      them. */
  function CorrectedLinksFrom(text: string, docPath: string, from: nat): seq<DocumentLink>
    requires from <= |text|
    decreases |text| - from
  {
    match Exec(text, from)
    case None => []
    case Some(m) => CorrectedMatchLinks(text, m, docPath) + CorrectedLinksFrom(text, docPath, m.end)
  }

  /** Every range lies in the text, and the text it covers, resolved against the document's
      directory, is the record's target. */
  predicate RangesResolve(text: string, docPath: string, ls: seq<DocumentLink>)
  {
    forall i :: 0 <= i < |ls| ==>
      0 <= ls[i].start <= ls[i].end <= |text| && ResolveAgainst(docPath, text[ls[i].start..ls[i].end]) == ls[i].target
  }

  /** The corrected records of one match are ordered, lie inside the match, and each covers
      the line its target was resolved from. */
  lemma CorrectedMatchLinksResolve(text: string, m: RegexMatch, docPath: string)
    requires WellFormed(text, m)
    ensures var ls := CorrectedMatchLinks(text, m, docPath);
      RangesResolve(text, docPath, ls) && Ordered(ls) && Within(ls, m.index, m.end)
  {
    var c, ps := TrueBlockStart(text, m) - 1, BlockLines(text, m);
    var ls := BlockLinks(c, ps, docPath);
    assert ls == CorrectedMatchLinks(text, m, docPath);
    CorrectedLinksCoverLines(text, m, docPath);
    CoveredLinesResolve(text, docPath, ls, ps, c, m.index + 1, m.end);
    BlockLinksOrdered(c, ps, docPath);
  }

  /** Records that cover their lines and whose targets are those lines resolved have ranges
      whose text resolves to the target, inside `(lo - 1, hi]`. */
  lemma CoveredLinesResolve(text: string, docPath: string, ls: seq<DocumentLink>, ps: seq<string>, c: int, lo: int, hi: int)
    requires ls == BlockLinks(c, ps, docPath) && Covers(text, ls, ps, lo, hi)
    ensures RangesResolve(text, docPath, ls) && Within(ls, lo - 1, hi)
  {
    BlockLinkOffsets(c, ps, docPath);
    forall i | 0 <= i < |ls|
      ensures ResolveAgainst(docPath, text[ls[i].start..ls[i].end]) == ls[i].target
    {
      assert text[ls[i].start..ls[i].end] == ps[i];
    }
  }

  /** Corrected: over the whole document the records come in document order, inside the
      text, and the text each range covers resolves to the record's target. */
  lemma {:induction false} CorrectedLinksFromResolve(text: string, docPath: string, from: nat)
    requires from <= |text|
    ensures var ls := CorrectedLinksFrom(text, docPath, from);
      RangesResolve(text, docPath, ls) && Ordered(ls) && Within(ls, from, |text|)
    decreases |text| - from
  {
    match Exec(text, from)
    case None =>
    case Some(m) =>
      var here, later := CorrectedMatchLinks(text, m, docPath), CorrectedLinksFrom(text, docPath, m.end);
      CorrectedMatchLinksResolve(text, m, docPath);
      CorrectedLinksFromResolve(text, docPath, m.end);
      WithinWeaken(here, m.index, m.end, from, m.end);
      OrderedConcat(here, later, from, m.end, |text|);
      assert CorrectedLinksFrom(text, docPath, from) == here + later;
  }

  /** As written the same round trip fails: in the one-line `context` block the range of
      `a.txt` covers `.txt\n`, which does not resolve to its target. */
  lemma AsWrittenRangesDoNotResolve(docPath: string)
    ensures !RangesResolve(ContextText, docPath, LinksFrom(ContextText, docPath, 0))
  {
    var ls := LinksFrom(ContextText, docPath, 0);
    ShiftedRangeExample(docPath);
    ContextLinks(docPath);
    BlockLinkOffsets(9, ["a.txt"], docPath);
    ResolvedTarget(docPath, ".txt\n");
    ResolvedTarget(docPath, "a.txt");
    assert ls[0].target == ResolveAgainst(docPath, "a.txt");
    assert !EndsWith(ResolveAgainst(docPath, ".txt\n"), "a.txt") || !EndsWith(ResolveAgainst(docPath, "a.txt"), ".txt\n");
  }

  // ---------------------------------------------------------------------------------------
  // Helpers.
  // ---------------------------------------------------------------------------------------

  /** The records of a block by position: record `i` starts one past the cursor plus the
      characters the earlier lines and their newlines take. */
  lemma {:induction false} BlockLinkPositions(cursor: int, paths: seq<string>, docPath: string)
    ensures var ls := BlockLinks(cursor, paths, docPath);
      |ls| == |paths|
      && forall i :: 0 <= i < |paths| ==>
           ls[i].start == cursor + Span(paths[..i]) + 1 && ls[i].end == ls[i].start + |paths[i]|
    decreases |paths|
  {
    if paths != [] {
      var end := cursor + 1 + |paths[0]|;
      var ls := BlockLinks(cursor, paths, docPath);
      var rest := BlockLinks(end, paths[1..], docPath);
      BlockLinkPositions(end, paths[1..], docPath);
      assert ls[1..] == rest;
      forall i | 1 <= i < |paths|
        ensures ls[i].start == cursor + Span(paths[..i]) + 1
      {
        assert ls[i] == rest[i - 1];
        assert paths[..i][1..] == paths[1..][..i - 1];
      }
    }
  }

  /** `ps[i]` sits in `s` right after the pieces before it and one separator after each. */
  predicate PieceAt(s: string, ps: seq<string>, i: nat)
    requires i < |ps|
  {
    Span(ps[..i]) + |ps[i]| <= |s| && s[Span(ps[..i])..Span(ps[..i]) + |ps[i]|] == ps[i]
  }

  /** Moving the cursor one to the right moves every range of the block one to the right and
      leaves the targets alone. */
  lemma {:induction false} BlockLinksShift(cursor: int, paths: seq<string>, docPath: string)
    ensures ShiftedRight(BlockLinks(cursor + 1, paths, docPath), BlockLinks(cursor, paths, docPath))
    decreases |paths|
  {
    if paths != [] {
      var ls, cs := BlockLinks(cursor + 1, paths, docPath), BlockLinks(cursor, paths, docPath);
      var end := cursor + 1 + |paths[0]|;
      BlockLinksShift(end, paths[1..], docPath);
      assert ls[1..] == BlockLinks(end + 1, paths[1..], docPath);
      assert cs[1..] == BlockLinks(end, paths[1..], docPath);
    }
  }

  /** Piece `i` of `Split(s, sep)` sits in `s` right after the earlier pieces and their
      separators. */
  lemma {:induction false} SplitPieceAt(s: string, sep: char)
    ensures forall i :: 0 <= i < |Split(s, sep)| ==> PieceAt(s, Split(s, sep), i)
    decreases |s|
  {
    var ps := Split(s, sep);
    var k := IndexOfChar(s, sep);
    assert ps[..0] == [];
    if k < |s| {
      var tail := s[k + 1..];
      var qs := Split(tail, sep);
      SplitPieceAt(tail, sep);
      assert ps == [s[..k]] + qs;
      forall i | 0 < i < |ps| ensures PieceAt(s, ps, i) {
        assert PieceAt(tail, qs, i - 1);
        PieceAtAfterSeparator(s, k, [s[..k]] + qs, i);
      }
    }
  }

  /** A piece of what follows the separator at `k` sits in `s` past the piece before `k`. */
  lemma PieceAtAfterSeparator(s: string, k: nat, ps: seq<string>, i: nat)
    requires k < |s| && 0 < i < |ps| && |ps[0]| == k
    requires PieceAt(s[k + 1..], ps[1..], i - 1)
    ensures PieceAt(s, ps, i)
  {
    var qs := ps[1..];
    var off, n := Span(qs[..i - 1]), |qs[i - 1]|;
    assert ps[..i][1..] == qs[..i - 1];
    assert Span(ps[..i]) == k + 1 + off;
    assert s[k + 1..] == s[k + 1..|s|];
    SliceOfSlice(s, k + 1, |s|, off, n);
  }
}
