/** The document-link provider (extension.js:28-59, `CodchLinkProvider.provideDocumentLinks`):
    the global multiline pattern of line 33 that finds the path blocks, and the loop that turns
    every line of a block into a link record with a running offset. */
module DocumentLinks {
  import opened Wrappers
  import opened JsString
  import opened PathToken

  /** The labels of the block headers. */
  const Labels: seq<string> := ["inspiration", "context", "output"]

  /** What `exec` returns for one match, as offsets into the text: `match[0]` is
      `text[index..end]` and the captured block `match[2]` is `text[blockStart..end]`. */
  datatype RegexMatch = RegexMatch(index: nat, blockStart: nat, end: nat)

  /** A link as the host receives it, with its range as plain character offsets. */
  datatype DocumentLink = DocumentLink(start: int, end: int, target: string)

  // ---------------------------------------------------------------------------------------
  // The pattern /^(inspiration|context|output):\s*\n((?:.*\n)+?)(?=\n\w+:|$)/gm, position by
  // position.
  // ---------------------------------------------------------------------------------------

  /** `^` in multiline mode: the start of the text or just after a line terminator. */
  predicate AtLineStart(text: string, p: nat)
  {
    p == 0 || (0 < p <= |text| && IsLineTerminator(text[p - 1]))
  }

  /** `name:` starts at `p`. */
  predicate LabelAt(text: string, p: nat, name: string)
  {
    p + |name| + 1 <= |text| && text[p..p + |name|] == name && text[p + |name|] == ':'
  }

  /** `(inspiration|context|output):` at `p`: the position just past the colon. */
  function LabelEnd(text: string, p: nat): (e: Option<nat>)
    ensures e.Some? ==> p < e.value <= |text|
  {
    if LabelAt(text, p, "inspiration") then Some(p + 12)
    else if LabelAt(text, p, "context") then Some(p + 8)
    else if LabelAt(text, p, "output") then Some(p + 7)
    else None
  }

  /** The alternation matches exactly when one of the three labels and its colon is there, and
      ends just past that colon. */
  lemma LabelEndMatchesALabel(text: string, p: nat)
    ensures LabelEnd(text, p).Some? ==>
      exists l :: l in Labels && LabelAt(text, p, l) && LabelEnd(text, p).value == p + |l| + 1
    ensures LabelEnd(text, p).None? <==> forall l :: l in Labels ==> !LabelAt(text, p, l)
  {
    if LabelAt(text, p, "inspiration") {
      assert "inspiration" in Labels;
    } else if LabelAt(text, p, "context") {
      assert "context" in Labels;
    } else if LabelAt(text, p, "output") {
      assert "output" in Labels;
    }
  }

  /** End of the greedy `\s*` from `q`: the first position at or after `q` that is not white
      space (line terminators included), or the end of the text. */
  function SpaceRunEnd(text: string, q: nat): (r: nat)
    requires q <= |text|
    ensures q <= r <= |text|
    ensures forall i :: q <= i < r ==> IsSpace(text[i])
    ensures r < |text| ==> !IsSpace(text[r])
    decreases |text| - q
  {
    if q == |text| || !IsSpace(text[q]) then q else SpaceRunEnd(text, q + 1)
  }

  /** `\s*\n` can end at `b`: white space from `q` up to a newline just before `b`. */
  predicate BlankToNewline(text: string, q: nat, b: nat)
  {
    q < b <= |text| && text[b - 1] == '\n'
    && forall i :: q <= i < b - 1 ==> IsSpace(text[i])
  }

  /** The places where `\s*\n` can end are the positions just past a newline inside the white
      space run that starts at `q`. */
  lemma BlankToNewlineInRun(text: string, q: nat, b: nat)
    requires q <= |text|
    ensures BlankToNewline(text, q, b) <==> q < b <= SpaceRunEnd(text, q) && text[b - 1] == '\n'
  {
    if BlankToNewline(text, q, b) {
      SpaceRunReaches(text, q, b);
    }
  }

  /** White space all the way from `q` to `m` keeps the run going at least to `m`. */
  lemma {:induction false} SpaceRunReaches(text: string, q: nat, m: nat)
    requires q <= m <= |text| && forall i :: q <= i < m ==> IsSpace(text[i])
    ensures m <= SpaceRunEnd(text, q)
    decreases m - q
  {
    if q < m {
      SpaceRunReaches(text, q + 1, m);
    }
  }

  /** `\s*\n((?:.*\n)+?)(?=\n\w+:|$)` from `q`, where the white space ends at `k`: the greedy
      `\s*` gives back one character at a time, so the newlines at `k - 1`, `k - 2`, … down to
      `q` are tried in turn, and the first one after which a block follows is taken. The
      result holds where the block starts and where it ends. */
  function HeaderBlock(text: string, q: nat, k: nat): (r: Option<(nat, nat)>)
    requires q <= k <= |text|
    ensures r.Some? ==> q < r.value.0 <= k && text[r.value.0 - 1] == '\n'
    ensures r.Some? ==> BlockEnd(text, r.value.0) == Some(r.value.1)
    ensures r.Some? ==> r.value.0 < r.value.1 <= |text| && text[r.value.1 - 1] == '\n'
    decreases k
  {
    if k == q then None
    else if text[k - 1] == '\n' && BlockEnd(text, k).Some? then Some((k, BlockEnd(text, k).value))
    else HeaderBlock(text, q, k - 1)
  }

  /** Both directions: the backtracking settles on the block `text[b..e]` exactly when `b` is
      just past a newline in `(q, k]`, the block found from `b` ends at `e`, and no block
      follows any later newline in `(q, k]`. */
  lemma {:induction false} HeaderBlockTakesLastFit(text: string, q: nat, k: nat, b: nat, e: nat)
    requires q <= k <= |text|
    ensures HeaderBlock(text, q, k) == Some((b, e)) <==>
      && q < b <= k && text[b - 1] == '\n' && BlockEnd(text, b) == Some(e)
      && (forall c :: b < c <= k && text[c - 1] == '\n' ==> BlockEnd(text, c).None?)
    decreases k
  {
    if k == q {
    } else if text[k - 1] == '\n' && BlockEnd(text, k).Some? {
      assert HeaderBlock(text, q, k) == Some((k, BlockEnd(text, k).value));
      if q < b < k && text[b - 1] == '\n' && BlockEnd(text, b) == Some(e) {
        assert !(forall c :: b < c <= k && text[c - 1] == '\n' ==> BlockEnd(text, c).None?) by {
          assert b < k <= k && text[k - 1] == '\n' && BlockEnd(text, k).Some?;
        }
      }
    } else {
      HeaderBlockTakesLastFit(text, q, k - 1, b, e);
      if text[k - 1] == '\n' {
        assert BlockEnd(text, k).None?;
      }
    }
  }

  /** What the header's `\s*\n` and the block settle on from `q`: `\s*\n` ends at `b`, the
      lazily taken block `text[b..e]` follows, and no later end of `\s*\n` is followed by a
      block. */
  ghost predicate HeaderThenBlock(text: string, q: nat, b: nat, e: nat)
  {
    && BlankToNewline(text, q, b)
    && LazyBlock(text, b, e)
    && (forall c, d :: b < c && BlankToNewline(text, q, c) ==> !LazyBlock(text, c, d))
  }

  /** Both directions: trying the newlines of the white space run from last to first finds
      exactly the block the pattern settles on. */
  lemma HeaderBlockBacktracks(text: string, q: nat, b: nat, e: nat)
    requires q <= |text|
    ensures HeaderBlock(text, q, SpaceRunEnd(text, q)) == Some((b, e)) <==> HeaderThenBlock(text, q, b, e)
  {
    var r := SpaceRunEnd(text, q);
    HeaderBlockTakesLastFit(text, q, r, b, e);
    BlankToNewlineInRun(text, q, b);
    if HeaderBlock(text, q, r) == Some((b, e)) {
      BlockEndIsLazy(text, b, e);
      forall c, d | b < c && BlankToNewline(text, q, c) ensures !LazyBlock(text, c, d) {
        BlankToNewlineInRun(text, q, c);
        BlockEndIsLazy(text, c, d);
      }
    }
    if HeaderThenBlock(text, q, b, e) {
      BlockEndIsLazy(text, b, e);
      forall c | b < c <= r && text[c - 1] == '\n' ensures BlockEnd(text, c).None? {
        BlankToNewlineInRun(text, q, c);
        if BlockEnd(text, c).Some? {
          BlockEndIsLazy(text, c, BlockEnd(text, c).value);
        }
      }
    }
  }

  /** End of `.*` from `p`: the first line terminator at or after `p`, or the end of text. */
  function RunEnd(text: string, p: nat): (q: nat)
    requires p <= |text|
    ensures p <= q <= |text|
    ensures q < |text| ==> IsLineTerminator(text[q])
    decreases |text| - p
  {
    if p == |text| || IsLineTerminator(text[p]) then p else RunEnd(text, p + 1)
  }

  /** `.*` stops at the first line terminator: none lies before the end it reports. */
  lemma {:induction false} RunEndIsFirstTerminator(text: string, p: nat)
    requires p <= |text|
    ensures forall i :: p <= i < RunEnd(text, p) ==> !IsLineTerminator(text[i])
    decreases |text| - p
  {
    if p < |text| && !IsLineTerminator(text[p]) {
      RunEndIsFirstTerminator(text, p + 1);
    }
  }

  /** `((?:.*\n)+?)(?=\n\w+:|$)` from the line start `p`: at least one line, each ended by a
      newline, taken one at a time until the next line is empty (it starts with a line
      terminator) or the text ends. The second alternative of the lookahead implies the first
      (`$` before its newline), so only `$` needs checking. */
  function BlockEnd(text: string, p: nat): (e: Option<nat>)
    requires p <= |text|
    ensures e.Some? ==> p < e.value <= |text| && text[e.value - 1] == '\n'
    decreases |text| - p
  {
    var q := RunEnd(text, p);
    if q == |text| || text[q] != '\n' then None
    else if BlockStopsAt(text, q) then Some(q + 1)
    else BlockEnd(text, q + 1)
  }

  /** `text[p..e]` is a lazily taken block: its line terminators are all newlines, it ends
      with a newline at which the lookahead holds, and the lookahead holds at no earlier
      newline. */
  predicate LazyBlock(text: string, p: nat, e: nat)
  {
    && p < e <= |text|
    && (forall i :: p <= i < e && IsLineTerminator(text[i]) ==> text[i] == '\n')
    && BlockStopsAt(text, e - 1)
    && (forall i :: p <= i < e - 1 ==> !BlockStopsAt(text, i))
  }

  /** Both directions: `BlockEnd` ends at `e` exactly when `text[p..e]` is the lazily taken
      block; when no such block starts at `p`, it reports none. */
  lemma {:induction false} BlockEndIsLazy(text: string, p: nat, e: nat)
    requires p <= |text|
    ensures BlockEnd(text, p) == Some(e) <==> LazyBlock(text, p, e)
    decreases |text| - p
  {
    var q := RunEnd(text, p);
    RunEndIsFirstTerminator(text, p);
    if LazyBlock(text, p, e) {
      // The first terminator from `p` is at or before the newline at `e - 1`.
      assert q <= e - 1;
      assert text[q] == '\n';
      if q < e - 1 {
        assert !BlockStopsAt(text, q);
        assert LazyBlock(text, q + 1, e);
      }
    }
    if q < |text| && text[q] == '\n' && !BlockStopsAt(text, q) {
      BlockEndIsLazy(text, q + 1, e);
      if BlockEnd(text, p) == Some(e) {
        assert q + 1 < e;
      }
    }
  }

  /** The newline at `i` ends the block: what follows it is the end of the text or an empty
      line, where the lookahead `$` holds. */
  predicate BlockStopsAt(text: string, i: nat)
  {
    i < |text| && text[i] == '\n' && (i + 1 == |text| || IsLineTerminator(text[i + 1]))
  }

  /** What a match records about the text: the header comes first, then a non-empty block
      ended by a newline. */
  predicate WellFormed(text: string, m: RegexMatch)
  {
    m.index < m.blockStart < m.end <= |text| && text[m.end - 1] == '\n'
  }

  /** `match[0]`. */
  function MatchText(text: string, m: RegexMatch): string
    requires WellFormed(text, m)
  {
    text[m.index..m.end]
  }

  /** `match[2]`. */
  function BlockText(text: string, m: RegexMatch): string
    requires WellFormed(text, m)
  {
    text[m.blockStart..m.end]
  }

  /** The pattern tried at position `p` alone. */
  function MatchAt(text: string, p: nat): (m: Option<RegexMatch>)
    requires p <= |text|
    ensures m.Some? ==> m.value.index == p && WellFormed(text, m.value)
    ensures m.Some? ==> AtLineStart(text, p)
  {
    if !AtLineStart(text, p) then None
    else
      match LabelEnd(text, p)
      case None => None
      case Some(q) =>
        var h := HeaderBlock(text, q, SpaceRunEnd(text, q));
        if h.None? then None else Some(RegexMatch(p, h.value.0, h.value.1))
  }

  /** At the line start `p` one of the labels and its colon stand, and after them the header's
      white space and the block settle on `text[b..e]`. */
  ghost predicate PatternMatchesAt(text: string, p: nat, b: nat, e: nat)
  {
    && AtLineStart(text, p)
    && (exists l :: l in Labels && LabelAt(text, p, l) && HeaderThenBlock(text, p + |l| + 1, b, e))
  }

  /** A label standing at `p` is the one the alternation picks: no two labels start with the
      same letter. */
  lemma LabelEndOfLabel(text: string, p: nat, l: string)
    requires l in Labels && LabelAt(text, p, l)
    ensures LabelEnd(text, p) == Some(p + |l| + 1)
  {
    assert text[p] == l[0];
  }

  /** Both directions: the pattern matches at `p` with the block `text[b..e]` exactly when a
      header line stands at `p` and the lazily taken block follows it. */
  lemma MatchAtCharacterised(text: string, p: nat, b: nat, e: nat)
    requires p <= |text|
    ensures MatchAt(text, p) == Some(RegexMatch(p, b, e)) <==> PatternMatchesAt(text, p, b, e)
  {
    if MatchAt(text, p) == Some(RegexMatch(p, b, e)) {
      MatchAtSound(text, p, b, e);
    }
    if PatternMatchesAt(text, p, b, e) {
      var l :| l in Labels && LabelAt(text, p, l) && HeaderThenBlock(text, p + |l| + 1, b, e);
      MatchAtComplete(text, p, l, b, e);
    }
  }

  lemma MatchAtSound(text: string, p: nat, b: nat, e: nat)
    requires p <= |text| && MatchAt(text, p) == Some(RegexMatch(p, b, e))
    ensures PatternMatchesAt(text, p, b, e)
  {
    var q := LabelEnd(text, p).value;
    assert HeaderBlock(text, q, SpaceRunEnd(text, q)) == Some((b, e));
    HeaderBlockBacktracks(text, q, b, e);
    LabelEndMatchesALabel(text, p);
    var l :| l in Labels && LabelAt(text, p, l) && q == p + |l| + 1;
  }

  lemma MatchAtComplete(text: string, p: nat, l: string, b: nat, e: nat)
    requires p <= |text| && AtLineStart(text, p)
    requires l in Labels && LabelAt(text, p, l) && HeaderThenBlock(text, p + |l| + 1, b, e)
    ensures MatchAt(text, p) == Some(RegexMatch(p, b, e))
  {
    LabelEndOfLabel(text, p, l);
    var q := p + |l| + 1;
    assert HeaderBlock(text, q, SpaceRunEnd(text, q)) == Some((b, e)) by {
      HeaderBlockBacktracks(text, q, b, e);
    }
  }

  /** `filePathRegex.exec(text)` with `lastIndex == from`: the leftmost match at or after
      `from`, or `null`. */
  function Exec(text: string, from: nat): (m: Option<RegexMatch>)
    requires from <= |text|
    ensures m.Some? ==> from <= m.value.index && WellFormed(text, m.value)
    decreases |text| - from
  {
    if MatchAt(text, from).Some? then MatchAt(text, from)
    else if from == |text| then None
    else Exec(text, from + 1)
  }

  /** A position that does not match passes the search on to the next one. */
  lemma ExecSkip(text: string, from: nat)
    requires from <= |text| && MatchAt(text, from).None?
    ensures from < |text| ==> Exec(text, from) == Exec(text, from + 1)
    ensures from == |text| ==> Exec(text, from).None?
  {
  }

  /** `exec` returns the match found at the index it reports. */
  lemma {:induction false} ExecReturnsMatchAt(text: string, from: nat)
    requires from <= |text| && Exec(text, from).Some?
    ensures Exec(text, from).value.index <= |text|
    ensures MatchAt(text, Exec(text, from).value.index) == Exec(text, from)
    decreases |text| - from
  {
    if MatchAt(text, from).None? {
      ExecSkip(text, from);
      ExecReturnsMatchAt(text, from + 1);
    }
  }

  /** `exec` returns the leftmost match: no position between `from` and it matches. */
  lemma {:induction false} ExecIsLeftmost(text: string, from: nat)
    requires from <= |text| && Exec(text, from).Some?
    ensures forall p :: from <= p < Exec(text, from).value.index ==> MatchAt(text, p).None?
    decreases |text| - from
  {
    if MatchAt(text, from).None? {
      ExecSkip(text, from);
      ExecIsLeftmost(text, from + 1);
      forall p | from < p < Exec(text, from).value.index
        ensures MatchAt(text, p).None?
      {
        assert from + 1 <= p;
      }
    }
  }

  /** `exec` returns `null` only when no position from `from` on matches. */
  lemma {:induction false} ExecNullMeansNoMatch(text: string, from: nat)
    requires from <= |text| && Exec(text, from).None?
    ensures forall p :: from <= p <= |text| ==> MatchAt(text, p).None?
    decreases |text| - from
  {
    assert MatchAt(text, from).None?;
    if from < |text| {
      ExecNullMeansNoMatch(text, from + 1);
    }
  }

  /** The converse: when no position from `from` on matches, `exec` returns `null`. */
  lemma {:induction false} NoMatchMeansExecNull(text: string, from: nat)
    requires from <= |text|
    requires forall p :: from <= p <= |text| ==> MatchAt(text, p).None?
    ensures Exec(text, from).None?
    decreases |text| - from
  {
    ExecSkip(text, from);
    if from < |text| {
      NoMatchMeansExecNull(text, from + 1);
    }
  }

  // ---------------------------------------------------------------------------------------
  // The link records.
  // ---------------------------------------------------------------------------------------

  /** Characters a sequence of lines occupies once each is followed by its newline. */
  function Span(lines: seq<string>): nat
  {
    if lines == [] then 0 else |lines[0]| + 1 + Span(lines[1..])
  }

  /** The records the `for` loop of extension.js:39-49 pushes for `paths` when the running
      offset `lastProcessdLineEndIndex` starts at `cursor`. */
  function BlockLinks(cursor: int, paths: seq<string>, docPath: string): seq<DocumentLink>
    decreases |paths|
  {
    if paths == [] then []
    else
      var start := cursor + 1;
      var end := start + |paths[0]|;
      [DocumentLink(start, end, ResolveAgainst(docPath, paths[0]))] + BlockLinks(end, paths[1..], docPath)
  }

  /** The records of one match: the trimmed block split on newlines, the running offset
      starting where `match[0].indexOf(pathsBlock)` puts it. */
  function MatchLinks(text: string, m: RegexMatch, docPath: string): seq<DocumentLink>
    requires WellFormed(text, m)
  {
    BlockLinks(BlockCursor(text, m), BlockLines(text, m), docPath)
  }

  /** `match.index + match[0].indexOf(pathsBlock)`, where `pathsBlock` is the trimmed block. */
  function BlockCursor(text: string, m: RegexMatch): int
    requires WellFormed(text, m)
  {
    m.index + IndexOf(MatchText(text, m), Trim(BlockText(text, m)))
  }

  /** `pathsBlock.split(/\n/)`. */
  function BlockLines(text: string, m: RegexMatch): seq<string>
    requires WellFormed(text, m)
  {
    Split(Trim(BlockText(text, m)), '\n')
  }

  /** The records of all matches at or after `from`, in the order `exec` finds them. */
  function LinksFrom(text: string, docPath: string, from: nat): seq<DocumentLink>
    requires from <= |text|
    decreases |text| - from
  {
    match Exec(text, from)
    case None => []
    case Some(m) => MatchLinks(text, m, docPath) + LinksFrom(text, docPath, m.end)
  }

  /** Each range ends before every later range starts. */
  predicate Ordered(ls: seq<DocumentLink>)
  {
    forall i, j :: 0 <= i < j < |ls| ==> ls[i].end < ls[j].start
  }

  /** Every range lies within the offsets `(lo, hi]` and is not reversed. */
  predicate Within(ls: seq<DocumentLink>, lo: int, hi: int)
  {
    forall i :: 0 <= i < |ls| ==> lo < ls[i].start <= ls[i].end <= hi
  }

  // ---------------------------------------------------------------------------------------
  // extension.js:29-58.
  // ---------------------------------------------------------------------------------------

  /** No range is empty. `new vscode.DocumentLink(range, ...)` (extension.js:48) throws on an
      empty range, and the `catch` of extension.js:54-57 then returns `[]` for the whole
      document. */
  predicate NonEmptyRanges(ls: seq<DocumentLink>)
  {
    forall i :: 0 <= i < |ls| ==> ls[i].start != ls[i].end
  }

  /** A concatenation has no empty range exactly when neither part has one. */
  lemma NonEmptyRangesConcat(a: seq<DocumentLink>, b: seq<DocumentLink>)
    ensures NonEmptyRanges(a + b) <==> NonEmptyRanges(a) && NonEmptyRanges(b)
  {
    if NonEmptyRanges(a + b) {
      forall i | 0 <= i < |a| ensures a[i].start != a[i].end {
        assert a[i] == (a + b)[i];
      }
      forall i | 0 <= i < |b| ensures b[i].start != b[i].end {
        assert b[i] == (a + b)[|a| + i];
      }
    }
  }

  /** What `provideDocumentLinks` returns: the records of every block, or none at all when one
      of them has an empty range. */
  function DocumentLinksResult(text: string, docPath: string): seq<DocumentLink>
  {
    var all := LinksFrom(text, docPath, 0);
    if NonEmptyRanges(all) then all else []
  }

  /** `provideDocumentLinks`: one record per line of every block, in document order, the
      ranges ordered and inside the text; no records when a range would be empty. */
  method ProvideDocumentLinks(text: string, docPath: string) returns (links: seq<DocumentLink>)
    ensures links == DocumentLinksResult(text, docPath)
    ensures Ordered(links) && Within(links, 0, |text|)
  {
    ghost var all := LinksFrom(text, docPath, 0);
    DocumentLinksInDocumentOrder(text, docPath);
    links := [];
    var lastIndex: nat := 0;
    var found := Exec(text, lastIndex);
    while found.Some?
      invariant lastIndex <= |text|
      invariant found == Exec(text, lastIndex)
      invariant links + LinksFrom(text, docPath, lastIndex) == all
      invariant NonEmptyRanges(links)
      decreases |text| - lastIndex
    {
      var m := found.value;
      // pathsBlock.split(/\n/) and match.index + match[0].indexOf(pathsBlock)
      var paths := BlockLines(text, m);
      var lastProcessdLineEndIndex := BlockCursor(text, m);
      LinksFromStep(text, docPath, lastIndex);
      ghost var before, here, later := links, MatchLinks(text, m, docPath), LinksFrom(text, docPath, m.end);
      AppendAssoc(before, here, later);
      var thrown;
      links, thrown := PushBlockLinks(links, lastProcessdLineEndIndex, paths, docPath);
      NonEmptyRangesConcat(before, here);
      NonEmptyRangesConcat(before + here, later);
      if thrown {
        // The catch of extension.js:54-57.
        return [];
      }
      lastIndex := m.end;
      found := Exec(text, lastIndex);
    }
    LinksFromNone(text, docPath, lastIndex);
    assert links == all;
  }

  lemma AppendAssoc(a: seq<DocumentLink>, b: seq<DocumentLink>, c: seq<DocumentLink>)
    ensures a + (b + c) == a + b + c
  {
  }

  /** The `for` loop of extension.js:39-49: pushes one record per line of the block onto
      `links0`, the running offset starting at `cursor`. Building a record with an empty range
      throws, and `thrown` reports it. */
  method PushBlockLinks(links0: seq<DocumentLink>, cursor: int, paths: seq<string>, docPath: string)
    returns (links: seq<DocumentLink>, thrown: bool)
    ensures thrown <==> !NonEmptyRanges(BlockLinks(cursor, paths, docPath))
    ensures !thrown ==> links == links0 + BlockLinks(cursor, paths, docPath)
  {
    BlockLinkOffsets(cursor, paths, docPath);
    links, thrown := links0, false;
    var lastProcessdLineEndIndex := cursor;
    for i := 0 to |paths|
      invariant links == links0 + BlockLinks(cursor, paths[..i], docPath)
      invariant lastProcessdLineEndIndex == cursor + Span(paths[..i])
      invariant forall j :: 0 <= j < i ==> paths[j] != []
    {
      var filePath := paths[i];
      var filePathAbs := ResolveAgainst(docPath, filePath);
      var filePathStartIndex := lastProcessdLineEndIndex + 1;
      var filePathEndIndex := filePathStartIndex + |filePath|;
      if filePathStartIndex == filePathEndIndex {
        // new vscode.DocumentLink(range, ...) rejects the empty range.
        thrown := true;
        return;
      }
      lastProcessdLineEndIndex := filePathEndIndex;
      BlockLinksSnoc(cursor, paths[..i], filePath, docPath);
      SpanSnoc(paths[..i], filePath);
      assert paths[..i + 1] == paths[..i] + [filePath];
      links := links + [DocumentLink(filePathStartIndex, filePathEndIndex, filePathAbs)];
    }
    assert paths[..|paths|] == paths;
  }

  /** A block whose text is only white space trims to the empty line: its one record has an
      empty range, so the first such block found empties the whole result. */
  lemma BlankBlockEmptiesResult(text: string, docPath: string)
    requires Exec(text, 0).Some? && Trim(BlockText(text, Exec(text, 0).value)) == []
    ensures DocumentLinksResult(text, docPath) == []
  {
    var m := Exec(text, 0).value;
    assert BlockLines(text, m) == [""] by {
      assert IndexOfChar("", '\n') == 0;
    }
    BlockLinkOffsets(BlockCursor(text, m), [""], docPath);
    LinksFromStep(text, docPath, 0);
    assert LinksFrom(text, docPath, 0)[0] == MatchLinks(text, m, docPath)[0];
  }

  // ---------------------------------------------------------------------------------------
  // Lemmas.
  // ---------------------------------------------------------------------------------------

  /** A successful `exec` contributes its block's records ahead of those found after it. */
  lemma LinksFromStep(text: string, docPath: string, from: nat)
    requires from <= |text| && Exec(text, from).Some?
    ensures LinksFrom(text, docPath, from)
         == MatchLinks(text, Exec(text, from).value, docPath) + LinksFrom(text, docPath, Exec(text, from).value.end)
  {
  }

  /** A failed `exec` ends the records. */
  lemma LinksFromNone(text: string, docPath: string, from: nat)
    requires from <= |text| && Exec(text, from).None?
    ensures LinksFrom(text, docPath, from) == []
  {
  }

  lemma {:induction false} SpanSnoc(lines: seq<string>, l: string)
    ensures Span(lines + [l]) == Span(lines) + |l| + 1
    decreases |lines|
  {
    if lines != [] {
      assert (lines + [l])[1..] == lines[1..] + [l];
      SpanSnoc(lines[1..], l);
    }
  }

  /** Appending a line appends one record, placed one past the running offset. */
  lemma {:induction false} BlockLinksSnoc(cursor: int, paths: seq<string>, p: string, docPath: string)
    ensures BlockLinks(cursor, paths + [p], docPath)
         == BlockLinks(cursor, paths, docPath)
            + [DocumentLink(cursor + Span(paths) + 1, cursor + Span(paths) + 1 + |p|, ResolveAgainst(docPath, p))]
    decreases |paths|
  {
    var link := DocumentLink(cursor + Span(paths) + 1, cursor + Span(paths) + 1 + |p|, ResolveAgainst(docPath, p));
    if paths == [] {
      assert BlockLinks(cursor, [p], docPath) == [link] + BlockLinks(cursor + 1 + |p|, [], docPath);
    } else {
      var end := cursor + 1 + |paths[0]|;
      var head := DocumentLink(cursor + 1, end, ResolveAgainst(docPath, paths[0]));
      assert (paths + [p])[0] == paths[0];
      assert (paths + [p])[1..] == paths[1..] + [p];
      BlockLinksSnoc(end, paths[1..], p, docPath);
      assert BlockLinks(cursor, paths + [p], docPath) == [head] + BlockLinks(end, paths[1..] + [p], docPath);
      assert BlockLinks(cursor, paths, docPath) == [head] + BlockLinks(end, paths[1..], docPath);
      assert Span(paths) == |paths[0]| + 1 + Span(paths[1..]);
      AppendAssoc([head], BlockLinks(end, paths[1..], docPath), [link]);
    }
  }

  /** One record per line, in line order: the first range starts one past the cursor, each
      range is as long as its line, the next starts one past the previous end, and each target
      is the line resolved against the document's directory. */
  lemma {:induction false} BlockLinkOffsets(cursor: int, paths: seq<string>, docPath: string)
    ensures var ls := BlockLinks(cursor, paths, docPath);
      && |ls| == |paths|
      && (|paths| > 0 ==> ls[0].start == cursor + 1)
      && (forall i :: 0 <= i < |paths| ==>
            ls[i].end == ls[i].start + |paths[i]| && ls[i].target == ResolveAgainst(docPath, paths[i]))
      && (forall i :: 0 <= i < |paths| - 1 ==> ls[i + 1].start == ls[i].end + 1)
    decreases |paths|
  {
    if paths != [] {
      var rest := BlockLinks(cursor + 1 + |paths[0]|, paths[1..], docPath);
      BlockLinkOffsets(cursor + 1 + |paths[0]|, paths[1..], docPath);
      assert BlockLinks(cursor, paths, docPath)[1..] == rest;
    }
  }

  lemma OrderedConcat(a: seq<DocumentLink>, b: seq<DocumentLink>, lo: int, mid: int, hi: int)
    requires lo <= mid <= hi
    requires Ordered(a) && Within(a, lo, mid) && Ordered(b) && Within(b, mid, hi)
    ensures Ordered(a + b) && Within(a + b, lo, hi)
  {
  }

  /** The records of one block are ordered and lie in `(cursor, cursor + Span(paths)]`. */
  lemma {:induction false} BlockLinksOrdered(cursor: int, paths: seq<string>, docPath: string)
    ensures Ordered(BlockLinks(cursor, paths, docPath))
    ensures Within(BlockLinks(cursor, paths, docPath), cursor, cursor + Span(paths))
    decreases |paths|
  {
    if paths != [] {
      var end := cursor + 1 + |paths[0]|;
      BlockLinksOrdered(end, paths[1..], docPath);
      var head := [DocumentLink(cursor + 1, end, ResolveAgainst(docPath, paths[0]))];
      OrderedConcat(head, BlockLinks(end, paths[1..], docPath), cursor, end, cursor + Span(paths));
    }
  }

  /** Splitting a string on a character and giving each piece its separator back accounts for
      every character plus one. */
  lemma {:induction false} SplitSpan(s: string, sep: char)
    ensures Span(Split(s, sep)) == |s| + 1
    decreases |s|
  {
    var k := IndexOfChar(s, sep);
    if k < |s| {
      SplitSpan(s[k + 1..], sep);
      assert Split(s, sep)[1..] == Split(s[k + 1..], sep);
    }
  }

  /** `match[0].indexOf(pathsBlock)` finds an occurrence no later than the trimmed block
      itself, so the offset it yields leaves room for the block and the newline that ends it. */
  lemma BlockOffsetBound(text: string, m: RegexMatch)
    requires WellFormed(text, m)
    ensures var t := Trim(BlockText(text, m)); var idx := IndexOf(MatchText(text, m), t);
      0 <= idx && m.index + idx + |t| + 1 <= m.end
  {
    var whole := MatchText(text, m);
    var j := m.blockStart - m.index;
    assert BlockText(text, m) == whole[j..];
    IndexOfTrimmedTail(whole, j);
  }

  /** The running offset of a block never starts before the match, and the records of the
      block end no later than the match does. */
  lemma MatchLinksWithin(text: string, m: RegexMatch, docPath: string)
    requires WellFormed(text, m)
    ensures Ordered(MatchLinks(text, m, docPath))
    ensures Within(MatchLinks(text, m, docPath), m.index, m.end)
  {
    var c, ps := BlockCursor(text, m), BlockLines(text, m);
    BlockOffsetBound(text, m);
    SplitSpan(Trim(BlockText(text, m)), '\n');
    BlockLinksOrdered(c, ps, docPath);
    WithinWeaken(BlockLinks(c, ps, docPath), c, c + Span(ps), m.index, m.end);
  }

  lemma WithinWeaken(ls: seq<DocumentLink>, lo: int, hi: int, lo': int, hi': int)
    requires Within(ls, lo, hi) && lo' <= lo && hi <= hi'
    ensures Within(ls, lo', hi')
  {
  }

  /** All records at or after `from` are ordered and lie in `(from, |text|]`. */
  lemma {:induction false} LinksFromOrdered(text: string, docPath: string, from: nat)
    requires from <= |text|
    ensures Ordered(LinksFrom(text, docPath, from)) && Within(LinksFrom(text, docPath, from), from, |text|)
    decreases |text| - from
  {
    match Exec(text, from)
    case None =>
    case Some(m) =>
      MatchLinksWithin(text, m, docPath);
      LinksFromOrdered(text, docPath, m.end);
      WithinWeaken(MatchLinks(text, m, docPath), m.index, m.end, from, m.end);
      OrderedConcat(MatchLinks(text, m, docPath), LinksFrom(text, docPath, m.end), from, m.end, |text|);
  }

  /** Records from successive blocks come in document order: every range ends before the next
      one starts, and all of them lie inside the text. */
  lemma DocumentLinksInDocumentOrder(text: string, docPath: string)
    ensures Ordered(LinksFrom(text, docPath, 0)) && Within(LinksFrom(text, docPath, 0), 0, |text|)
  {
    LinksFromOrdered(text, docPath, 0);
  }

  // ---------------------------------------------------------------------------------------
  // The header's white space giving back a newline.
  // ---------------------------------------------------------------------------------------

  /** A header followed by two empty lines, then one path. */
  const GivesBackText: string := "context:\n\n\nfoo\n"

  /** `\s*` first takes all three newlines; `\n` then finds `f`, so `\s*` gives the last
      newline back, and the block `foo\n` follows it. */
  lemma GivesBackMatch()
    ensures Exec(GivesBackText, 0) == Some(RegexMatch(0, 11, 15))
    ensures Exec(GivesBackText, 15) == None
  {
    var t := GivesBackText;
    assert t[0..7] == "context";
    assert !LabelAt(t, 0, "inspiration") by { assert t[0] != "inspiration"[0]; }
    assert LabelEnd(t, 0) == Some(8);
    assert SpaceRunEnd(t, 8) == 11;
    assert RunEnd(t, 11) == 14;
    assert BlockEnd(t, 11) == Some(15);
    assert HeaderBlock(t, 8, 11) == Some((11, 15));
    assert MatchAt(t, 0) == Some(RegexMatch(0, 11, 15));
    assert LabelEnd(t, 15).None?;
  }

  lemma GivesBackLines()
    ensures BlockLines(GivesBackText, RegexMatch(0, 11, 15)) == ["foo"]
    ensures BlockCursor(GivesBackText, RegexMatch(0, 11, 15)) == 11
  {
    GivesBackTrim();
    assert Split("foo", '\n') == ["foo"] by {
      assert IndexOfChar("foo", '\n') == 3;
    }
    assert MatchText(GivesBackText, RegexMatch(0, 11, 15)) == GivesBackText;
    GivesBackIndex();
  }

  lemma GivesBackTrim()
    ensures Trim(BlockText(GivesBackText, RegexMatch(0, 11, 15))) == "foo"
  {
    assert BlockText(GivesBackText, RegexMatch(0, 11, 15)) == "foo\n";
    assert LeadingSpace("foo\n") == 0;
    assert TrailingSpace("foo\n") == 1;
  }

  lemma GivesBackIndex()
    ensures IndexOf(GivesBackText, "foo") == 11
  {
    assert OccursAt(GivesBackText, "foo", 11);
    forall j | 0 <= j < 11 ensures !OccursAt(GivesBackText, "foo", j) {
      assert GivesBackText[j] != 'f';
    }
    IndexOfIsFirstOccurrence(GivesBackText, "foo");
  }

  /** The document gets one link, placed by the running offset at `[12, 15)`. */
  lemma GivesBackOneLink(docPath: string)
    ensures var ls := DocumentLinksResult(GivesBackText, docPath);
      |ls| == 1 && ls[0].start == 12 && ls[0].end == 15
  {
    GivesBackMatch();
    GivesBackLines();
    LinksFromStep(GivesBackText, docPath, 0);
    LinksFromNone(GivesBackText, docPath, 15);
    var ls := LinksFrom(GivesBackText, docPath, 0);
    assert ls == BlockLinks(11, ["foo"], docPath);
    assert ["foo"][1..] == [];
    assert NonEmptyRanges(ls);
  }

  /** A header whose white space cannot reach past the empty line: no block follows the
      newlines at 11 and 10, so `\s*` gives back down to the first newline, and the block is
      the blank line ` \n`. */
  const BlankBlockText: string := "context:\n \n\nx"

  /** The blank block trims to nothing, its one record has an empty range, and the document
      gets no links at all. */
  lemma BlankBlockExample(docPath: string)
    ensures Exec(BlankBlockText, 0) == Some(RegexMatch(0, 9, 11))
    ensures DocumentLinksResult(BlankBlockText, docPath) == []
  {
    var t := BlankBlockText;
    assert t[0..7] == "context";
    assert !LabelAt(t, 0, "inspiration") by { assert t[0] != "inspiration"[0]; }
    assert LabelEnd(t, 0) == Some(8);
    assert SpaceRunEnd(t, 8) == 12;
    assert BlockEnd(t, 12).None? by { assert RunEnd(t, 12) == 13; }
    assert BlockEnd(t, 11).None? by { assert RunEnd(t, 11) == 11; }
    assert BlockEnd(t, 9) == Some(11) by { assert RunEnd(t, 9) == 10; }
    assert HeaderBlock(t, 8, 12) == Some((9, 11));
    assert MatchAt(t, 0) == Some(RegexMatch(0, 9, 11));
    assert BlockText(t, RegexMatch(0, 9, 11)) == " \n";
    assert LeadingSpace(" \n") == 2;
    BlankBlockEmptiesResult(t, docPath);
  }

  /** A label ends in a colon: a label at `p` puts a `:` in `text[from..]` whenever the
      shortest label, six characters, would already reach `from`. */
  lemma LabelNeedsColonAfter(text: string, from: nat, p: nat)
    requires from <= |text| && p <= |text| && from <= p + 6
    ensures LabelEnd(text, p).Some? ==> ':' in text[from..]
  {
    if LabelEnd(text, p).Some? {
      var j := LabelEnd(text, p).value - 1;
      assert text[j] == ':';
      assert text[from..][j - from] == ':';
    }
  }

  /** Every line of a block, the last one included, must end in a newline: a last line
      without one leaves no block, so the header matches nothing and the document gets no
      links. */
  const NoFinalNewlineText: string := "context:\na.txt\nb.txt"

  lemma NoFinalNewlineExample(docPath: string)
    ensures Exec(NoFinalNewlineText, 0) == None
    ensures DocumentLinksResult(NoFinalNewlineText, docPath) == []
  {
    NoFinalNewlineNoMatch(NoFinalNewlineText);
  }

  lemma NoFinalNewlineNoMatch(t: string)
    requires t == NoFinalNewlineText
    ensures Exec(t, 0) == None
  {
    assert ':' !in t[8..];
    forall p | 0 <= p <= |t|
      ensures MatchAt(t, p).None?
    {
      if p == 0 {
        NoFinalNewlineHeader();
      } else if p == 1 {
        assert !AtLineStart(t, 1);
      } else {
        LabelNeedsColonAfter(t, 8, p);
      }
    }
    NoMatchMeansExecNull(t, 0);
  }

  lemma NoFinalNewlineHeader()
    ensures MatchAt(NoFinalNewlineText, 0) == None
  {
    var t := NoFinalNewlineText;
    assert t[0..7] == "context";
    assert !LabelAt(t, 0, "inspiration") by { assert t[0] != "inspiration"[0]; }
    assert LabelEnd(t, 0) == Some(8);
    assert SpaceRunEnd(t, 8) == 9;
    assert RunEnd(t, 9) == 14;
    assert !BlockStopsAt(t, 14);
    assert BlockEnd(t, 15) == None by { assert RunEnd(t, 15) == 20; }
    assert BlockEnd(t, 9) == BlockEnd(t, 15);
    assert HeaderBlock(t, 8, 9) == None;
  }

  /** `.` stops at `\r`, so lines ending in `\r\n` never end in the newline a block line
      needs: no block is found. */
  const CrlfText: string := "context:\r\na.txt\r\n"

  lemma CrlfExample(docPath: string)
    ensures Exec(CrlfText, 0) == None
    ensures DocumentLinksResult(CrlfText, docPath) == []
  {
    CrlfNoMatch(CrlfText);
  }

  lemma CrlfNoMatch(t: string)
    requires t == CrlfText
    ensures Exec(t, 0) == None
  {
    assert ':' !in t[8..];
    forall p | 0 <= p <= |t|
      ensures MatchAt(t, p).None?
    {
      if p == 0 {
        CrlfHeader();
      } else if p == 1 {
        assert !AtLineStart(t, 1);
      } else {
        LabelNeedsColonAfter(t, 8, p);
      }
    }
    NoMatchMeansExecNull(t, 0);
  }

  lemma CrlfHeader()
    ensures MatchAt(CrlfText, 0) == None
  {
    var t := CrlfText;
    assert t[0..7] == "context";
    assert !LabelAt(t, 0, "inspiration") by { assert t[0] != "inspiration"[0]; }
    assert LabelEnd(t, 0) == Some(8);
    assert SpaceRunEnd(t, 8) == 10;
    assert BlockEnd(t, 10) == None by { assert RunEnd(t, 10) == 15; }
    assert HeaderBlock(t, 8, 10) == None;
  }
}
