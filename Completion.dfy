/** The completion provider (extension.js:61-94, `CodchCompletionItemProvider.provideCompletionItems`):
    the path token typed before the cursor is resolved to a directory, and the entries of that
    directory become completion items. `fs.readdirSync` and `fs.statSync` are oracles: a
    listing that throws is `None`, and so is a status lookup that throws. */
module Completion {
  import opened Wrappers
  import opened JsString
  import opened NodePath
  import opened PathToken

  /** `vscode.CompletionItemKind.Folder` or `.File`. */
  datatype ItemKind = Folder | File

  /** A completion item: its label (`name`), its kind, the `insertText` set for folders (`None` when it
      is left unset, so that the label is inserted), and whether the re-trigger command is
      attached. */
  datatype CompletionItem = CompletionItem(name: string, kind: ItemKind, insertText: Option<string>, retrigger: bool)

  /** What `provideCompletionItems` returns: `undefined` when there is no path to complete, or
      an array of items. */
  datatype CompletionResult = Undefined | Items(items: seq<CompletionItem>)

  /** `fs.readdirSync(dir)`: the entry names, or `None` when the call throws. */
  type Lister = string -> Option<seq<string>>

  /** `fs.statSync(p).isDirectory()`: whether `p` is a directory, or `None` when the call
      throws. */
  type Stat = string -> Option<bool>

  /** `lineText.substr(0, character).substring(0, character)`: the text before the cursor. */
  function LinePrefix(lineText: string, character: nat): (r: string)
    ensures |r| == if character <= |lineText| then character else |lineText|
    ensures r == lineText[..|r|]
  {
    Prefix(Prefix(lineText, character), character)
  }

  /** `filePathAbs.endsWith('/') ? filePathAbs : path.dirname(filePathAbs)` (extension.js:71). */
  function TargetDirectory(abs: string): string
  {
    if EndsWith(abs, "/") then abs else Dirname(abs)
  }

  /** The directory listed is the path itself when it ends in a separator; otherwise it is the
      part of the path before the name being typed: for an absolute path, an absolute prefix
      of it after which no separator follows but the one that ends the directory. */
  lemma TargetDirectoryIsParent(abs: string)
    ensures var d := TargetDirectory(abs);
      && (EndsWith(abs, "/") ==> d == abs)
      && (IsAbsolute(abs) && !EndsWith(abs, "/") ==>
            && IsAbsolute(d) && |d| < |abs| && d == abs[..|d|]
            && (d == "/" || abs[|d|] == '/')
            && forall i :: |d| < i < |abs| ==> abs[i] != '/')
  {
    DirnameIsParent(abs);
    if IsAbsolute(abs) {
      assert abs[0] in abs;
    }
  }

  /** The item for an entry `name` of `dir` (the callback of extension.js:74-88): `None` when
      its status lookup throws, a folder item inserting `name/` and re-triggering completion
      when it is a directory, and a plain file item otherwise. */
  function EntryItem(dir: string, name: string, stat: Stat): (r: Option<CompletionItem>)
    ensures r.Some? <==> stat(Join(dir, name)).Some?
    ensures r.Some? ==> r.value.name == name && ItemAgrees(dir, stat, r.value)
  {
    match stat(Join(dir, name))
    case None => None
    case Some(isDirectory) =>
      if isDirectory then Some(CompletionItem(name, Folder, Some(name + "/"), true))
      else Some(CompletionItem(name, File, None, false))
  }

  /** What an item says agrees with the status of the entry it names: a directory is a folder
      item that inserts its name followed by `/` and re-triggers completion, anything else a
      file item that sets neither. */
  predicate ItemAgrees(dir: string, stat: Stat, item: CompletionItem)
  {
    var st := stat(Join(dir, item.name));
    && st.Some?
    && (st.value ==> item.kind == Folder && item.insertText == Some(item.name + "/") && item.retrigger)
    && (!st.value ==> item.kind == File && item.insertText.None? && !item.retrigger)
  }

  /** `files.map(...).filter(Boolean)`: the items of the entries whose status lookup succeeds,
      in listing order. */
  function Entries(dir: string, names: seq<string>, stat: Stat): (r: seq<CompletionItem>)
    ensures |r| <= |names|
    ensures forall i :: 0 <= i < |r| ==> r[i].name in names && ItemAgrees(dir, stat, r[i])
    decreases |names|
  {
    if names == [] then []
    else
      var rest := Entries(dir, names[1..], stat);
      assert forall n :: n in names[1..] ==> n in names;
      match EntryItem(dir, names[0], stat)
      case None => rest
      case Some(item) =>
        assert forall i :: 1 <= i < |[item] + rest| ==> ([item] + rest)[i] == rest[i - 1];
        [item] + rest
  }

  /** No entry whose status can be read is dropped: each has an item with its name. */
  lemma {:induction false} EntriesKeepStattedNames(dir: string, names: seq<string>, stat: Stat)
    ensures var r := Entries(dir, names, stat);
      forall n :: n in names && stat(Join(dir, n)).Some? ==> exists i :: 0 <= i < |r| && r[i].name == n
    decreases |names|
  {
    if names != [] {
      var r, rest := Entries(dir, names, stat), Entries(dir, names[1..], stat);
      EntriesKeepStattedNames(dir, names[1..], stat);
      forall n | n in names && stat(Join(dir, n)).Some?
        ensures exists i :: 0 <= i < |r| && r[i].name == n
      {
        var item := EntryItem(dir, names[0], stat);
        if n == names[0] {
          assert r == [item.value] + rest;
          assert r[0].name == n;
        } else {
          assert n in names[1..];
          var j :| 0 <= j < |rest| && rest[j].name == n;
          if item.None? {
            assert r == rest;
            assert r[j].name == n;
          } else {
            assert r == [item.value] + rest;
            assert r[j + 1].name == n;
          }
        }
      }
      assert r == Entries(dir, names, stat);
      assert forall n :: n in names && stat(Join(dir, n)).Some? ==> exists i :: 0 <= i < |r| && r[i].name == n;
    }
  }

  /** The items of two listings one after the other are the items of the first followed by
      the items of the second: entries keep their listing order. */
  lemma {:induction false} EntriesConcat(dir: string, a: seq<string>, b: seq<string>, stat: Stat)
    ensures Entries(dir, a + b, stat) == Entries(dir, a, stat) + Entries(dir, b, stat)
    decreases |a|
  {
    if a == [] {
      assert a + b == b;
    } else {
      assert (a + b)[0] == a[0];
      assert (a + b)[1..] == a[1..] + b;
      EntriesConcat(dir, a[1..], b, stat);
      match EntryItem(dir, a[0], stat)
      case None =>
      case Some(item) =>
        assert Entries(dir, a, stat) == [item] + Entries(dir, a[1..], stat);
        assert Entries(dir, a + b, stat) == [item] + Entries(dir, a[1..] + b, stat);
    }
  }

  /** When every status lookup succeeds there is one item per entry, item `i` for entry `i`. */
  lemma {:induction false} EntriesAllStatted(dir: string, names: seq<string>, stat: Stat)
    requires forall n :: n in names ==> stat(Join(dir, n)).Some?
    ensures var r := Entries(dir, names, stat);
      |r| == |names| && forall i :: 0 <= i < |r| ==> r[i].name == names[i]
    decreases |names|
  {
    if names != [] {
      assert names[0] in names;
      assert forall n :: n in names[1..] ==> n in names;
      EntriesAllStatted(dir, names[1..], stat);
    }
  }

  /** When every status lookup throws there are no items. */
  lemma {:induction false} EntriesNoneStatted(dir: string, names: seq<string>, stat: Stat)
    requires forall n :: n in names ==> stat(Join(dir, n)).None?
    ensures Entries(dir, names, stat) == []
    decreases |names|
  {
    if names != [] {
      assert names[0] in names;
      assert forall n :: n in names[1..] ==> n in names;
      EntriesNoneStatted(dir, names[1..], stat);
    }
  }

  /** The path to complete, resolved against the document's directory, and the directory to
      list for it (extension.js:64-71); `None` when the text before the cursor holds no path. */
  function CompletionDirectory(lineText: string, character: nat, docPath: string): (r: Option<string>)
    ensures r.None? <==> ExtractFilePathFromLine(LinePrefix(lineText, character)).None?
  {
    match ExtractFilePathFromLine(LinePrefix(lineText, character))
    case None => None
    case Some(filePath) => Some(TargetDirectory(ResolveAgainst(docPath, filePath)))
  }

  /** `provideCompletionItems`: `undefined` when no path token ends the text before the cursor,
      no items when the directory cannot be listed, and otherwise one item per listed entry
      whose status can be read, in listing order, each agreeing with that status. */
  function ProvideCompletionItems(lineText: string, character: nat, docPath: string, readdir: Lister, stat: Stat)
    : (r: CompletionResult)
    ensures r.Undefined? <==> CompletionDirectory(lineText, character, docPath).None?
    ensures r.Items? ==>
      var dir := CompletionDirectory(lineText, character, docPath).value;
      && (readdir(dir).None? ==> r.items == [])
      && (readdir(dir).Some? ==>
            && r.items == Entries(dir, readdir(dir).value, stat)
            && |r.items| <= |readdir(dir).value|
            && (forall i :: 0 <= i < |r.items| ==> r.items[i].name in readdir(dir).value && ItemAgrees(dir, stat, r.items[i]))
            && (forall n :: n in readdir(dir).value && stat(Join(dir, n)).Some? ==>
                  exists i :: 0 <= i < |r.items| && r.items[i].name == n))
  {
    match CompletionDirectory(lineText, character, docPath)
    case None => Undefined
    case Some(dir) =>
      match readdir(dir)
      case None => Items([])
      case Some(files) =>
        EntriesKeepStattedNames(dir, files, stat);
        Items(Entries(dir, files, stat))
  }

  /** Nothing after the cursor matters: the line cut at the cursor gives the same result. */
  lemma CompletionIgnoresTextAfterCursor(lineText: string, character: nat, docPath: string, readdir: Lister, stat: Stat)
    requires character <= |lineText|
    ensures ProvideCompletionItems(lineText, character, docPath, readdir, stat)
         == ProvideCompletionItems(lineText[..character], character, docPath, readdir, stat)
  {
    assert LinePrefix(lineText, character) == LinePrefix(lineText[..character], character);
  }

  /** With the cursor at the start of the line or just after a space there is nothing to
      complete. */
  lemma CompletionAfterSpaceIsUndefined(lineText: string, character: nat, docPath: string, readdir: Lister, stat: Stat)
    requires character <= |lineText|
    requires character == 0 || lineText[character - 1] == ' '
    ensures ProvideCompletionItems(lineText, character, docPath, readdir, stat) == Undefined
  {
    var p := LinePrefix(lineText, character);
    assert p == [] || p[|p| - 1] == ' ';
  }

  /** A relative token ending in `/` lists the directory it names under the document's
      directory: the resolved token itself. */
  lemma {:induction false} CompletionListsTypedDirectory(lineText: string, character: nat, docPath: string, token: string)
    requires character <= |lineText| && |token| <= character
    requires lineText[character - |token|..character] == token
    requires |token| == character || lineText[character - |token| - 1] == ' '
    requires IsFilePath(token) && !IsAbsolute(token) && EndsWith(token, "/")
    ensures CompletionDirectory(lineText, character, docPath) == Some(Join(Dirname(docPath), token))
  {
    var p := LinePrefix(lineText, character);
    assert p == lineText[..character];
    SliceOfSlice(lineText, 0, character, character - |token|, |token|);
    assert p[|p| - |token|..] == token;
    ExtractFilePathCharacterised(p, token);
    var abs := Join(Dirname(docPath), token);
    assert ResolveAgainst(docPath, token) == abs;
    JoinKeepsBothSides(Dirname(docPath), token);
    SlashEndCarriesOver(abs, token);
  }

  /** A string that ends with a string ending in `/` ends in `/` too. */
  lemma SlashEndCarriesOver(s: string, t: string)
    requires EndsWith(s, t) && EndsWith(t, "/")
    ensures EndsWith(s, "/")
  {
    assert s[|s| - 1] == t[|t| - 1];
  }

  /** A listing with a folder `child` and a file `note.md`: the folder inserts `child/` and
      re-triggers completion, the file inserts its label and does not. */
  lemma FolderAndFileExample(dir: string, stat: Stat)
    requires stat(Join(dir, "child")) == Some(true) && stat(Join(dir, "note.md")) == Some(false)
    ensures Entries(dir, ["child", "note.md"], stat)
         == [CompletionItem("child", Folder, Some("child/"), true), CompletionItem("note.md", File, None, false)]
  {
    var child, note := EntryItem(dir, "child", stat), EntryItem(dir, "note.md", stat);
    assert child.Some? && child.value.name == "child" && child.value.insertText == Some("child" + "/");
    assert "child" + "/" == "child/";
    assert note.Some? && note.value.name == "note.md";
    assert ["child", "note.md"][1..] == ["note.md"];
    assert ["note.md"][1..] == [];
    assert Entries(dir, ["note.md"], stat) == [CompletionItem("note.md", File, None, false)];
  }
}
