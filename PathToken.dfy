/** Recognising a file-path token at the end of a line, and resolving a token against the
    directory of the document it appears in (extension.js, `isFilePath`,
    `extractFilePathFromLine`, and the resolution expression of lines 40 and 70). */
module PathToken {
  import opened Wrappers
  import opened JsString
  import opened NodePath

  /** A character of the class `[a-zA-Z0-9_\-\.\/]`. */
  predicate IsPathChar(c: char)
  {
    ('a' <= c <= 'z') || ('A' <= c <= 'Z') || ('0' <= c <= '9')
    || c == '_' || c == '-' || c == '.' || c == '/'
  }

  /** `isFilePath(s)`: `s` matches `^[a-zA-Z0-9_\-\.\/]+$`. */
  predicate IsFilePath(s: string)
    ensures IsFilePath(s) ==> s != [] && ' ' !in s && '\\' !in s && '\n' !in s
  {
    |s| > 0 && forall i :: 0 <= i < |s| ==> IsPathChar(s[i])
  }

  /** `line.split(' ').reverse()[0]`: the last space-separated segment of `line`. */
  function LastSegment(line: string): string
  {
    var parts := Split(line, ' ');
    parts[|parts| - 1]
  }

  /** The last segment is the text after the last space, or the whole line when it has no
      space. */
  lemma LastSegmentIsTextAfterLastSpace(line: string)
    ensures IsTextAfterLast(line, LastSegment(line), ' ')
  {
    SplitLast(line, ' ');
  }

  /** A suffix of `line` that holds no space and is preceded by a space (or is all of
      `line`) is the last segment: there is only one such suffix. */
  lemma {:induction false} TextAfterLastSpaceIsUnique(line: string, t: string)
    requires |t| <= |line| && t == line[|line| - |t|..] && ' ' !in t
    requires |t| == |line| || line[|line| - |t| - 1] == ' '
    ensures t == LastSegment(line)
  {
    LastSegmentIsTextAfterLastSpace(line);
  }

  /** `extractFilePathFromLine(line)`: the last space-separated segment when it is a file
      path, and `null` otherwise. */
  function ExtractFilePathFromLine(line: string): (r: Option<string>)
    ensures r.Some? ==>
      var t := r.value;
      IsFilePath(t) && |t| <= |line| && t == line[|line| - |t|..] && ' ' !in t
      && (|t| == |line| || line[|line| - |t| - 1] == ' ')
    ensures line == [] || line[|line| - 1] == ' ' ==> r.None?
  {
    var filePath := LastSegment(line);
    LastSegmentIsTextAfterLastSpace(line);
    if IsFilePath(filePath) then Some(filePath) else None
  }

  /** Both directions: the result is `Some(t)` for the text `t` after the last space
      exactly when `t` is a file path, and `None` exactly when it is not. */
  lemma ExtractFilePathCharacterised(line: string, t: string)
    requires |t| <= |line| && t == line[|line| - |t|..] && ' ' !in t
    requires |t| == |line| || line[|line| - |t| - 1] == ' '
    ensures ExtractFilePathFromLine(line) == Some(t) <==> IsFilePath(t)
    ensures ExtractFilePathFromLine(line) == None <==> !IsFilePath(t)
  {
    TextAfterLastSpaceIsUnique(line, t);
  }

  /** `path.isAbsolute(p) ? p : path.join(path.dirname(docPath), p)`: a path token resolved
      against the directory of the document at `docPath`. */
  function ResolveAgainst(docPath: string, p: string): string
  {
    if IsAbsolute(p) then p else Join(Dirname(docPath), p)
  }

  /** A token comes back unchanged exactly when it is absolute; otherwise it is appended to
      the document's directory. Either way the token ends the result, and the result is
      absolute whenever the document path is. */
  lemma ResolvedTarget(docPath: string, p: string)
    ensures var r := ResolveAgainst(docPath, p);
      && (r == p <==> IsAbsolute(p))
      && EndsWith(r, p)
      && (!IsAbsolute(p) ==> var dir := Dirname(docPath); |dir| <= |r| && r[..|dir|] == dir)
      && (IsAbsolute(docPath) ==> IsAbsolute(r))
  {
    DirnameIsParent(docPath);
    JoinKeepsBothSides(Dirname(docPath), p);
    if IsAbsolute(docPath) {
      assert docPath[0] in docPath;
    }
  }
}
