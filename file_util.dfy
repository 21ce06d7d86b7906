/** The file-tree operations: the inventory of a directory or file as a tree of
    `JsonItem`s, the listing of the ODT documents under a path, the blocks they
    import, and the replacement of a block in every one of them.

    A file tree is an `FsEntry`: a regular file, or a directory with its
    readability and its listing (absent when listing it fails). The documents'
    contents are held apart, in a map from path to `FileState`; a path the map
    does not hold is a file that cannot be read. A child's path is its parent's
    path, a `/`, and its name. */
module FileUtil {
  import opened Wrappers
  import opened Collections
  import opened JsonModel
  import OdtFile

  const FILE_EXTENSION_ODT: string := ".odt"

  // ------------------------------------------------------------ file names

  /** `Character.toLowerCase` restricted to ASCII letters. */
  function ToLowerChar(c: char): char {
    if 'A' <= c <= 'Z' then (c as int + ('a' as int - 'A' as int)) as char else c
  }

  /** `String.toLowerCase`: no upper-case letter is left, and exactly the
      upper-case letters are changed. */
  function ToLower(s: string): (r: string)
    ensures |r| == |s|
    ensures forall i :: 0 <= i < |r| ==> !('A' <= r[i] <= 'Z')
    ensures forall i :: 0 <= i < |s| ==> (r[i] == s[i] <==> !('A' <= s[i] <= 'Z'))
  {
    seq(|s|, i requires 0 <= i < |s| => ToLowerChar(s[i]))
  }

  /** Lower-casing twice is lower-casing once. */
  lemma ToLowerIdempotent(s: string)
    ensures ToLower(ToLower(s)) == ToLower(s)
  {
    var t := ToLower(s);
    assert forall i :: 0 <= i < |t| ==> ToLower(t)[i] == t[i];
  }

  predicate EndsWith(s: string, suffix: string) {
    |suffix| <= |s| && s[|s| - |suffix|..] == suffix
  }

  /** `isOdtFile`: the name, lower-cased, ends with `.odt`. */
  predicate IsOdtFile(path: string): (r: bool)
    ensures r ==> |path| >= 4
  {
    EndsWith(ToLower(path), FILE_EXTENSION_ODT)
  }

  /** The extension test, character by character: `.odt` in any mix of cases. */
  lemma IsOdtFileChars(s: string)
    ensures IsOdtFile(s) <==>
      && |s| >= 4
      && s[|s| - 4] == '.'
      && (s[|s| - 3] == 'o' || s[|s| - 3] == 'O')
      && (s[|s| - 2] == 'd' || s[|s| - 2] == 'D')
      && (s[|s| - 1] == 't' || s[|s| - 1] == 'T')
  {
    if |s| >= 4 {
      var t := ToLower(s)[|s| - 4..];
      assert t == [ToLowerChar(s[|s| - 4]), ToLowerChar(s[|s| - 3]), ToLowerChar(s[|s| - 2]), ToLowerChar(s[|s| - 1])];
      assert FILE_EXTENSION_ODT == ['.', 'o', 'd', 't'];
    }
  }

  function ChildPath(dir: string, name: string): string {
    dir + "/" + name
  }

  /** Testing a child's whole path, as the tree walk does, and testing its bare
      name, as the inventory does, agree. */
  lemma OdtChildPath(dir: string, name: string)
    ensures IsOdtFile(ChildPath(dir, name)) <==> IsOdtFile(name)
  {
    var p := ChildPath(dir, name);
    IsOdtFileChars(p);
    IsOdtFileChars(name);
    assert p[|dir|] == '/';
    if |name| >= 4 {
      assert p[|p| - 4..] == name[|name| - 4..];
      assert p[|p| - 4] == name[|name| - 4] && p[|p| - 3] == name[|name| - 3];
      assert p[|p| - 2] == name[|name| - 2] && p[|p| - 1] == name[|name| - 1];
    } else if |p| >= 4 {
      assert p[|p| - |name| - 1] == '/';
    }
  }

  // ------------------------------------------------------------- file tree

  /** An entry of a file tree. A file's `attributesReadable` says whether the
      tree walk can read its attributes; when it cannot, the walk hands the
      file to `visitFileFailed` instead of `visitFile`. */
  datatype FsEntry =
    | File(name: string, attributesReadable: bool)
    | Dir(name: string, readable: bool, listing: Listing)

  /** What `File.listFiles` returns: null when listing fails, or the entries. */
  datatype Listing = ListingFailed | Listed(entries: seq<FsEntry>)

  /** The document stored at `path`; one that is not there cannot be read. */
  function Stat(disk: map<string, OdtFile.FileState>, path: string): OdtFile.FileState {
    if path in disk then disk[path] else OdtFile.FileState(false, OdtFile.NotZip("No such file"))
  }

  /** `File.canRead`: a file whose attributes cannot be reached cannot be
      read either. */
  predicate CanRead(e: FsEntry, path: string, disk: map<string, OdtFile.FileState>) {
    if e.Dir? then e.readable else e.attributesReadable && Stat(disk, path).readable
  }

  function KindOf(e: FsEntry): string {
    if e.Dir? then DIRECTORY_TYPE else FILE_TYPE
  }

  function UnreadableMessage(path: string): string {
    "Failed to read " + path + ". It is not readable."
  }

  function ListingMessage(path: string): string {
    "Failed to list contents of directory " + path + ". Access denied."
  }

  // ------------------------------------------------------------ inventory

  /** The test at the end of `generateData`: a node is kept when it is a
      directory with children, an ODT file, or carries an error. */
  predicate Retained(it: Item): (r: bool)
    ensures it.error.Some? ==> r
    ensures it.error.None? && it.kind == FILE_TYPE ==> (r <==> IsOdtFile(it.name))
  {
    || (it.kind == DIRECTORY_TYPE && it.children.Present?)
    || (it.kind == FILE_TYPE && IsOdtFile(it.name))
    || it.error.Some?
  }

  /** The shape every produced node has: a known type tag; blocks only on
      files and children only on directories; present lists never empty;
      blocks without repetition; an error with nothing else beside it; and
      children that are themselves kept and well formed. */
  predicate WellFormed(it: Item)
    decreases it
  {
    && (it.kind == DIRECTORY_TYPE || it.kind == FILE_TYPE)
    && (it.kind == DIRECTORY_TYPE ==> it.importBlocks.None?)
    && (it.kind == FILE_TYPE ==> it.children.Absent?)
    && (it.importBlocks.Some? ==> it.importBlocks.value != [] && NoDuplicates(it.importBlocks.value))
    && (it.error.Some? ==> it.importBlocks.None? && it.children.Absent?)
    && (it.children.Present? ==>
          && it.children.items != []
          && forall i :: 0 <= i < |it.children.items| ==>
               Retained(it.children.items[i]) && WellFormed(it.children.items[i]))
  }

  /** `generateData`: the node of `e` at `path`, or nothing when it is not kept.
      An unreadable entry gives a node with only its name, type and error; a
      readable file is kept exactly when it is an ODT file, a readable
      directory exactly when its listing fails or one of its children is kept. */
  function Generate(e: FsEntry, path: string, disk: map<string, OdtFile.FileState>): (r: Option<Item>)
    decreases e, 2
    ensures r.Some? ==> r.value.name == e.name && r.value.kind == KindOf(e) && Retained(r.value)
    ensures !CanRead(e, path, disk) ==> r == Some(Item(e.name, KindOf(e), None, Absent, Some(UnreadableMessage(path))))
    ensures e.File? && CanRead(e, path, disk) ==> (r.Some? <==> IsOdtFile(e.name))
    ensures e.Dir? && CanRead(e, path, disk) ==>
      (r.Some? <==> e.listing.ListingFailed? || exists i :: 0 <= i < |ChildItems(e, path, disk)| && ChildItems(e, path, disk)[i].Some?)
  {
    var item :=
      if !CanRead(e, path, disk) then Item(e.name, KindOf(e), None, Absent, Some(UnreadableMessage(path)))
      else if e.Dir? then DirectoryItem(e, path, disk)
      else FileItem(e.name, path, disk);
    assert e.Dir? && CanRead(e, path, disk) && e.listing.Listed? ==>
      (item.children.Present? <==> exists i :: 0 <= i < |ChildItems(e, path, disk)| && ChildItems(e, path, disk)[i].Some?);
    if Retained(item) then Some(item) else None
  }

  /** The outcome of `generateData` on each entry of a directory's listing. */
  function ChildItems(e: FsEntry, path: string, disk: map<string, OdtFile.FileState>): (r: seq<Option<Item>>)
    requires e.Dir? && e.listing.Listed?
    decreases e, 0
    ensures |r| == |e.listing.entries|
  {
    var files := e.listing.entries;
    seq(|files|, i requires 0 <= i < |files| => Generate(files[i], ChildPath(path, files[i].name), disk))
  }

  /** The nodes that were kept, in order. */
  function Kept(s: seq<Option<Item>>): seq<Item> {
    if s == [] then []
    else Kept(s[..|s| - 1]) + (if s[|s| - 1].Some? then [s[|s| - 1].value] else [])
  }

  lemma {:induction false} KeptEmpty(s: seq<Option<Item>>)
    ensures Kept(s) == [] <==> forall i :: 0 <= i < |s| ==> s[i].None?
  {
    if s != [] {
      var n := |s| - 1;
      KeptEmpty(s[..n]);
      assert forall i :: 0 <= i < n ==> s[..n][i] == s[i];
    }
  }

  /** Keeping distributes over concatenation: the kept nodes of a listing
      come in the listing's order. */
  lemma {:induction false} KeptAppend(s: seq<Option<Item>>, t: seq<Option<Item>>)
    ensures Kept(s + t) == Kept(s) + Kept(t)
  {
    if t == [] {
      assert s + t == s;
    } else {
      var n := |t| - 1;
      assert (s + t)[..|s + t| - 1] == s + t[..n];
      KeptAppend(s, t[..n]);
    }
  }

  /** A node is among the kept ones exactly when some entry produced it. */
  lemma {:induction false} KeptMembership(s: seq<Option<Item>>, it: Item)
    ensures it in Kept(s) <==> Some(it) in s
  {
    if s != [] {
      var n := |s| - 1;
      KeptMembership(s[..n], it);
      assert s == s[..n] + [s[n]];
    }
  }

  /** `getDataForDirectory`: the kept children in listing order, absent when
      none is kept; a listing that fails gives an error instead. */
  function DirectoryItem(e: FsEntry, path: string, disk: map<string, OdtFile.FileState>): (r: Item)
    requires e.Dir?
    decreases e, 1
    ensures r.name == e.name && r.kind == DIRECTORY_TYPE && r.importBlocks.None?
    ensures r.error.Some? <==> e.listing.ListingFailed?
    ensures r.error.Some? ==> r.children.Absent?
    ensures r.children.Present? ==> r.children.items != []
    ensures e.listing.Listed? ==>
      (r.children.Present? <==> exists i :: 0 <= i < |ChildItems(e, path, disk)| && ChildItems(e, path, disk)[i].Some?)
    ensures e.listing.Listed? ==>
      r.children == (if Kept(ChildItems(e, path, disk)) == [] then Absent else Present(Kept(ChildItems(e, path, disk))))
  {
    match e.listing
    case ListingFailed => Item(e.name, DIRECTORY_TYPE, None, Absent, Some(ListingMessage(path)))
    case Listed(_) =>
      KeptEmpty(ChildItems(e, path, disk));
      var folderContents := Kept(ChildItems(e, path, disk));
      Item(e.name, DIRECTORY_TYPE, None, if folderContents == [] then Absent else Present(folderContents), None)
  }

  /** `getDataForFile`: a non-ODT file gives a bare node; an ODT file gives its
      distinct import blocks when it has some, or the error reading it raised. */
  function FileItem(name: string, path: string, disk: map<string, OdtFile.FileState>): (r: Item)
    ensures r.name == name && r.kind == FILE_TYPE && r.children.Absent?
    ensures !IsOdtFile(name) ==> r.importBlocks.None? && r.error.None?
    ensures IsOdtFile(name) ==> (r.error.Some? <==> OdtFile.FileImportTexts(Stat(disk, path)).Failure?)
    ensures r.error.Some? ==> r.importBlocks.None?
    ensures r.importBlocks.Some? ==>
      var bs := r.importBlocks.value;
      && bs != []
      && NoDuplicates(bs)
      && (forall b :: b in bs <==> b in OdtFile.FileImportTexts(Stat(disk, path)).value)
    ensures IsOdtFile(name) && OdtFile.ImportBlocks(Stat(disk, path)).Success? ==>
      r.importBlocks == OdtFile.ImportBlocks(Stat(disk, path)).value
  {
    OdtFile.ImportBlocksShape(Stat(disk, path));
    if !IsOdtFile(name) then Item(name, FILE_TYPE, None, Absent, None)
    else
      match OdtFile.ImportBlocks(Stat(disk, path))
      case Failure(e) => Item(name, FILE_TYPE, None, Absent, Some(OdtFile.Message(e)))
      case Success(importBlocks) => Item(name, FILE_TYPE, importBlocks, Absent, None)
  }

  /** Every node `generateData` produces is well formed, all the way down. */
  lemma {:induction false} GenerateWellFormed(e: FsEntry, path: string, disk: map<string, OdtFile.FileState>)
    decreases e
    ensures Generate(e, path, disk).Some? ==> WellFormed(Generate(e, path, disk).value)
  {
    if CanRead(e, path, disk) && e.Dir? && e.listing.Listed? {
      var s := ChildItems(e, path, disk);
      var files := e.listing.entries;
      forall it | it in Kept(s)
        ensures Retained(it) && WellFormed(it)
      {
        KeptMembership(s, it);
        var i :| 0 <= i < |s| && s[i] == Some(it);
        GenerateWellFormed(files[i], ChildPath(path, files[i].name), disk);
      }
    }
  }

  /** `generateData` on one entry; children are generated by the directory walk. */
  method GenerateData(e: FsEntry, path: string, disk: map<string, OdtFile.FileState>) returns (r: Option<JsonItem>)
    decreases e, 2
    ensures r.None? <==> Generate(e, path, disk).None?
    ensures r.Some? ==> fresh(r.value) && r.value.Value() == Generate(e, path, disk).value
  {
    var item := new JsonItem(e.name, if e.Dir? then DIRECTORY_TYPE else FILE_TYPE);
    if !CanRead(e, path, disk) {
      item.SetError(UnreadableMessage(path));
    } else if e.Dir? {
      item := GetDataForDirectory(e, path, disk);
    } else {
      item := GetDataForFile(e.name, path, disk);
    }
    if (item.IsDirectoryType() && item.children.Present?)
       || (item.IsFileType() && IsOdtFile(item.name))
       || item.error.Some?
    {
      return Some(item);
    }
    return None;
  }

  method GetDataForDirectory(e: FsEntry, path: string, disk: map<string, OdtFile.FileState>) returns (item: JsonItem)
    requires e.Dir?
    decreases e, 1
    ensures fresh(item) && item.Value() == DirectoryItem(e, path, disk)
  {
    item := new JsonItem(e.name, DIRECTORY_TYPE);
    var folderContents: seq<Item> := [];
    if e.listing.Listed? {
      var files := e.listing.entries;
      for i := 0 to |files|
        invariant folderContents == Kept(ChildItems(e, path, disk)[..i])
        invariant item.Value() == Item(e.name, DIRECTORY_TYPE, None, Absent, None)
      {
        assert ChildItems(e, path, disk)[..i + 1][..i] == ChildItems(e, path, disk)[..i];
        var childItem := GenerateData(files[i], ChildPath(path, files[i].name), disk);
        if childItem.Some? {
          folderContents := folderContents + [childItem.value.Value()];
        }
      }
      assert ChildItems(e, path, disk)[..|files|] == ChildItems(e, path, disk);
    } else {
      item.SetError(ListingMessage(path));
    }
    if folderContents != [] {
      item.SetChildren(folderContents);
    }
  }

  method GetDataForFile(name: string, path: string, disk: map<string, OdtFile.FileState>) returns (item: JsonItem)
    ensures fresh(item) && item.Value() == FileItem(name, path, disk)
  {
    item := new JsonItem(name, FILE_TYPE);
    if IsOdtFile(name) {
      var importBlocks := OdtFile.GetImportBlocks(Stat(disk, path));
      if importBlocks.Failure? {
        item.SetError(OdtFile.Message(importBlocks.error));
      } else if importBlocks.value.Some? {
        item.SetImportBlocks(importBlocks.value.value);
      }
    }
  }

  // --------------------------------------------------------- listing files

  /** A regular file at path `p` whose attributes can be read is reached from
      `e` at `path` through directories that can be opened. */
  predicate FileAt(e: FsEntry, path: string, p: string)
    decreases e
  {
    match e
    case File(_, attributesReadable) => attributesReadable && p == path
    case Dir(_, readable, listing) =>
      && readable
      && listing.Listed?
      && exists i :: 0 <= i < |listing.entries| &&
           FileAt(listing.entries[i], ChildPath(path, listing.entries[i].name), p)
  }

  /** The paths the tree walk hands to `visitFile` that end in `.odt`, in
      walking order; a file or directory whose visit fails is skipped. */
  function OdtVisits(e: FsEntry, path: string): (r: seq<string>)
    decreases e, 1
    ensures e.File? && !e.attributesReadable ==> r == []
    ensures e.Dir? && (!e.readable || e.listing.ListingFailed?) ==> r == []
  {
    match e
    case File(_, attributesReadable) => if attributesReadable && IsOdtFile(path) then [path] else []
    case Dir(_, readable, listing) =>
      if !readable || listing.ListingFailed? then [] else OdtVisitsPrefix(e, path, |listing.entries|)
  }

  /** The visits of the first `k` entries of a directory. */
  function OdtVisitsPrefix(e: FsEntry, path: string, k: nat): seq<string>
    requires e.Dir? && e.listing.Listed? && k <= |e.listing.entries|
    decreases e, 0, k
  {
    if k == 0 then []
    else
      var c := e.listing.entries[k - 1];
      OdtVisitsPrefix(e, path, k - 1) + OdtVisits(c, ChildPath(path, c.name))
  }

  /** The walk visits exactly the reachable ODT files. */
  lemma {:induction false} OdtVisitsMembership(e: FsEntry, path: string, p: string)
    decreases e, 1
    ensures p in OdtVisits(e, path) <==> FileAt(e, path, p) && IsOdtFile(p)
  {
    if e.Dir? && e.readable && e.listing.Listed? {
      OdtVisitsPrefixMembership(e, path, |e.listing.entries|, p);
    }
  }

  lemma {:induction false} OdtVisitsPrefixMembership(e: FsEntry, path: string, k: nat, p: string)
    requires e.Dir? && e.listing.Listed? && k <= |e.listing.entries|
    decreases e, 0, k
    ensures p in OdtVisitsPrefix(e, path, k) <==>
      IsOdtFile(p)
      && (exists i :: 0 <= i < k && FileAt(e.listing.entries[i], ChildPath(path, e.listing.entries[i].name), p))
  {
    if k > 0 {
      var cs := e.listing.entries;
      var c := cs[k - 1];
      var before := OdtVisitsPrefix(e, path, k - 1);
      var here := OdtVisits(c, ChildPath(path, c.name));
      assert OdtVisitsPrefix(e, path, k) == before + here;
      OdtVisitsPrefixMembership(e, path, k - 1, p);
      OdtVisitsMembership(c, ChildPath(path, c.name), p);
      if exists i :: 0 <= i < k && FileAt(cs[i], ChildPath(path, cs[i].name), p) {
        var i :| 0 <= i < k && FileAt(cs[i], ChildPath(path, cs[i].name), p);
        assert i < k - 1 || FileAt(c, ChildPath(path, c.name), p);
      }
      assert p in before + here <==> p in before || p in here;
    }
  }

  /** The visits of the first `k` entries depend on those entries only. */
  lemma {:induction false} OdtVisitsPrefixSame(e: FsEntry, f: FsEntry, path: string, k: nat)
    requires e.Dir? && e.listing.Listed? && k <= |e.listing.entries|
    requires f.Dir? && f.listing.Listed? && k <= |f.listing.entries|
    requires e.listing.entries[..k] == f.listing.entries[..k]
    ensures OdtVisitsPrefix(e, path, k) == OdtVisitsPrefix(f, path, k)
  {
    if k > 0 {
      assert e.listing.entries[..k - 1] == e.listing.entries[..k][..k - 1];
      assert f.listing.entries[..k - 1] == f.listing.entries[..k][..k - 1];
      assert e.listing.entries[k - 1] == e.listing.entries[..k][k - 1];
      assert f.listing.entries[k - 1] == f.listing.entries[..k][k - 1];
      OdtVisitsPrefixSame(e, f, path, k - 1);
    }
  }

  /** `visitFileFailed` logs and adds nothing: a directory listing one more
      file whose visit fails yields the same visits. */
  lemma FailedVisitAddsNothing(e: FsEntry, path: string, name: string)
    requires e.Dir? && e.listing.Listed?
    ensures OdtVisits(Dir(e.name, e.readable, Listed(e.listing.entries + [File(name, false)])), path)
         == OdtVisits(e, path)
  {
    var f := Dir(e.name, e.readable, Listed(e.listing.entries + [File(name, false)]));
    var n := |e.listing.entries|;
    if e.readable {
      assert f.listing.entries[n] == File(name, false);
      assert OdtVisitsPrefix(f, path, n + 1) == OdtVisitsPrefix(f, path, n);
      assert f.listing.entries[..n] == e.listing.entries[..n];
      OdtVisitsPrefixSame(e, f, path, n);
    }
  }

  /** A directory whose one ODT file fails its visit lists nothing; with the
      visit succeeding, it lists that file. */
  lemma VisitFileFailedExample()
    ensures OdtFilesUnder(Dir("testDir", true, Listed([File("failedFile.odt", false)])), "testDir") == []
    ensures OdtFilesUnder(Dir("d", true, Listed([File("a.odt", true)])), "d") == ["d/a.odt"]
  {
    var d := Dir("d", true, Listed([File("a.odt", true)]));
    assert ChildPath("d", "a.odt") == "d/a.odt";
    assert IsOdtFile("d/a.odt");
    assert OdtVisits(File("a.odt", true), "d/a.odt") == ["d/a.odt"];
    assert OdtVisitsPrefix(d, "d", 1) == ["d/a.odt"];
    assert OdtVisits(d, "d") == ["d/a.odt"];
    var t := Dir("testDir", true, Listed([File("failedFile.odt", false)]));
    assert OdtVisitsPrefix(t, "testDir", 1) == [];
  }

  /** `listOdtFiles`: the reachable ODT files, sorted. */
  function OdtFilesUnder(e: FsEntry, path: string): (r: seq<string>)
    ensures SortedPaths(r)
    ensures multiset(r) == multiset(OdtVisits(e, path))
  {
    SortPaths(OdtVisits(e, path))
  }

  /** The `visitFile` callback, applied along the walk: each visited ODT path
      is appended to the list. */
  method WalkFileTree(e: FsEntry, path: string, odtFiles: seq<string>) returns (r: seq<string>)
    decreases e
    ensures r == odtFiles + OdtVisits(e, path)
  {
    match e
    case File(_, attributesReadable) =>
      r := odtFiles;
      // a failed visit goes to `visitFileFailed`, which only logs
      if attributesReadable && IsOdtFile(path) {
        r := r + [path];
      }
    case Dir(_, readable, listing) =>
      r := odtFiles;
      if readable && listing.Listed? {
        var cs := listing.entries;
        for i := 0 to |cs|
          invariant r == odtFiles + OdtVisitsPrefix(e, path, i)
        {
          r := WalkFileTree(cs[i], ChildPath(path, cs[i].name), r);
        }
      } else {
        assert r == r + [];
      }
  }

  method ListOdtFiles(e: FsEntry, path: string) returns (odtFiles: seq<string>)
    ensures odtFiles == OdtFilesUnder(e, path)
    ensures SortedPaths(odtFiles)
    ensures forall p :: p in odtFiles <==> FileAt(e, path, p) && IsOdtFile(p)
  {
    var visited := WalkFileTree(e, path, []);
    assert visited == OdtVisits(e, path);
    odtFiles := SortPaths(visited);
    forall p
      ensures p in odtFiles <==> FileAt(e, path, p) && IsOdtFile(p)
    {
      OdtVisitsMembership(e, path, p);
      assert p in odtFiles <==> p in multiset(odtFiles);
      assert p in visited <==> p in multiset(visited);
    }
  }

  // ------------------------------------------------- import blocks of a tree

  /** The blocks one document contributes: its `getImportBlocks`, or nothing
      when it has none or cannot be read. */
  function BlocksOf(f: OdtFile.FileState): seq<string> {
    match OdtFile.ImportBlocks(f)
    case Success(Some(bs)) => bs
    case _ => []
  }

  /** The document can be read and holds `b` among its import texts. */
  predicate HoldsBlock(f: OdtFile.FileState, b: string) {
    OdtFile.FileImportTexts(f).Success? && b in OdtFile.FileImportTexts(f).value
  }

  lemma BlocksOfMembership(f: OdtFile.FileState, b: string)
    ensures b in BlocksOf(f) <==> HoldsBlock(f, b)
  {
    OdtFile.ImportBlocksShape(f);
  }

  /** The lists one after the other, as `flatMap(List::stream)` streams them. */
  function Flatten(xss: seq<seq<string>>): seq<string> {
    if xss == [] then [] else Flatten(xss[..|xss| - 1]) + xss[|xss| - 1]
  }

  lemma {:induction false} FlattenMembership(xss: seq<seq<string>>, b: string)
    ensures b in Flatten(xss) <==> exists i :: 0 <= i < |xss| && b in xss[i]
  {
    if xss != [] {
      var n := |xss| - 1;
      var init := xss[..n];
      FlattenMembership(init, b);
      if b in Flatten(init) {
        var i :| 0 <= i < n && b in init[i];
        assert init[i] == xss[i];
      } else if b !in xss[n] {
        forall i | 0 <= i < |xss|
          ensures b !in xss[i]
        {
          if i < n { assert init[i] == xss[i]; }
        }
      }
    }
  }

  /** The blocks of the documents at `ps`, concatenated in order. */
  function AllBlocks(ps: seq<string>, disk: map<string, OdtFile.FileState>): seq<string> {
    Flatten(seq(|ps|, i requires 0 <= i < |ps| => BlocksOf(Stat(disk, ps[i]))))
  }

  lemma AllBlocksMembership(ps: seq<string>, disk: map<string, OdtFile.FileState>, b: string)
    ensures b in AllBlocks(ps, disk) <==> exists i :: 0 <= i < |ps| && b in BlocksOf(Stat(disk, ps[i]))
  {
    var xss := seq(|ps|, i requires 0 <= i < |ps| => BlocksOf(Stat(disk, ps[i])));
    FlattenMembership(xss, b);
    assert forall i :: 0 <= i < |ps| ==> xss[i] == BlocksOf(Stat(disk, ps[i]));
  }

  /** `getImportBlocks(Path)`: every document's blocks, one document after the
      other; repetitions across documents are kept. */
  function ImportBlocksUnder(e: FsEntry, path: string, disk: map<string, OdtFile.FileState>): (r: seq<string>)
    ensures OdtFilesUnder(e, path) == [] ==> r == []
  {
    AllBlocks(OdtFilesUnder(e, path), disk)
  }

  /** The listing holds exactly the reachable ODT files. */
  lemma OdtFilesUnderMembership(e: FsEntry, path: string, p: string)
    ensures p in OdtFilesUnder(e, path) <==> FileAt(e, path, p) && IsOdtFile(p)
  {
    OdtVisitsMembership(e, path, p);
    assert p in OdtFilesUnder(e, path) <==> p in multiset(OdtFilesUnder(e, path));
    assert p in OdtVisits(e, path) <==> p in multiset(OdtVisits(e, path));
  }

  /** A reported block comes from some reachable ODT document that holds it. */
  lemma ReportedBlockIsHeld(e: FsEntry, path: string, disk: map<string, OdtFile.FileState>, b: string)
    requires b in ImportBlocksUnder(e, path, disk)
    ensures exists p :: FileAt(e, path, p) && IsOdtFile(p) && HoldsBlock(Stat(disk, p), b)
  {
    var ps := OdtFilesUnder(e, path);
    AllBlocksMembership(ps, disk, b);
    var i :| 0 <= i < |ps| && b in BlocksOf(Stat(disk, ps[i]));
    BlocksOfMembership(Stat(disk, ps[i]), b);
    OdtFilesUnderMembership(e, path, ps[i]);
  }

  /** A block held by a reachable, readable ODT document is reported. */
  lemma HeldBlockIsReported(e: FsEntry, path: string, disk: map<string, OdtFile.FileState>, b: string, p: string)
    requires FileAt(e, path, p) && IsOdtFile(p) && HoldsBlock(Stat(disk, p), b)
    ensures b in ImportBlocksUnder(e, path, disk)
  {
    var ps := OdtFilesUnder(e, path);
    OdtFilesUnderMembership(e, path, p);
    var i :| 0 <= i < |ps| && ps[i] == p;
    BlocksOfMembership(Stat(disk, p), b);
    AllBlocksMembership(ps, disk, b);
  }

  /** A block is reported exactly when some reachable, readable ODT document
      holds it; a document that cannot be read adds nothing. */
  lemma ImportBlocksUnderMembership(e: FsEntry, path: string, disk: map<string, OdtFile.FileState>, b: string)
    ensures b in ImportBlocksUnder(e, path, disk) <==>
      exists p :: FileAt(e, path, p) && IsOdtFile(p) && HoldsBlock(Stat(disk, p), b)
  {
    if b in ImportBlocksUnder(e, path, disk) {
      ReportedBlockIsHeld(e, path, disk, b);
    }
    if exists p :: FileAt(e, path, p) && IsOdtFile(p) && HoldsBlock(Stat(disk, p), b) {
      var p :| FileAt(e, path, p) && IsOdtFile(p) && HoldsBlock(Stat(disk, p), b);
      HeldBlockIsReported(e, path, disk, b, p);
    }
  }

  // ------------------------------------------------------------ JSON output

  datatype FileUtilError =
    | FileNotFound(message: string)   // FileNotFoundException
    | InvalidFile(message: string)    // InvalidFileException

  function NotExistMessage(path: string): string {
    "The specified path " + path + " does not exist."
  }

  /** `createJsonFile`, up to the text handed to the JSON writer: the input
      must exist and must yield a node. The node written is always kept and
      well formed. */
  /** `File.exists`: the path is there and its attributes can be read. */
  predicate Exists(entry: Option<FsEntry>): (r: bool)
    ensures r ==> entry.Some?
    ensures entry.Some? && entry.value.Dir? ==> r
  {
    entry.Some? && (entry.value.File? ==> entry.value.attributesReadable)
  }

  method CreateJsonFile(entry: Option<FsEntry>, directoryOrFilePath: string, disk: map<string, OdtFile.FileState>)
    returns (r: Result<Item, FileUtilError>)
    ensures !Exists(entry) ==> r == Failure(FileNotFound(NotExistMessage(directoryOrFilePath)))
    ensures Exists(entry) && Generate(entry.value, directoryOrFilePath, disk).None? ==>
      r == Failure(FileNotFound("The specified path " + directoryOrFilePath + " does not contain an odt file."))
    ensures Exists(entry) && Generate(entry.value, directoryOrFilePath, disk).Some? ==>
      r == Success(Generate(entry.value, directoryOrFilePath, disk).value)
    ensures r.Success? ==> Retained(r.value) && WellFormed(r.value)
  {
    if !Exists(entry) {
      return Failure(FileNotFound(NotExistMessage(directoryOrFilePath)));
    }
    var jsonItem := GenerateData(entry.value, directoryOrFilePath, disk);
    if jsonItem.None? {
      return Failure(FileNotFound("The specified path " + directoryOrFilePath + " does not contain an odt file."));
    }
    GenerateWellFormed(entry.value, directoryOrFilePath, disk);
    return Success(jsonItem.value.Value());
  }

  // ------------------------------------------------------------ replacement

  /** One document replaced in place, when it is stored. */
  function ReplaceAt(files: map<string, OdtFile.FileState>, p: string, blockToReplace: string, newBlock: string)
    : (r: map<string, OdtFile.FileState>)
    ensures r.Keys == files.Keys
  {
    if p in files then files[p := OdtFile.ReplaceFile(files[p], blockToReplace, newBlock).1] else files
  }

  /** The documents at `ps` replaced one after the other. */
  function ReplaceAll(files: map<string, OdtFile.FileState>, ps: seq<string>, blockToReplace: string, newBlock: string)
    : (r: map<string, OdtFile.FileState>)
    ensures r.Keys == files.Keys
  {
    if ps == [] then files
    else ReplaceAll(ReplaceAt(files, ps[0], blockToReplace, newBlock), ps[1..], blockToReplace, newBlock)
  }

  /** After the walk, each listed document has been replaced once (a path
      listed twice is no different, replacement being idempotent), and every
      other document is as it was. */
  lemma {:induction false} ReplaceAllEffect(files: map<string, OdtFile.FileState>, ps: seq<string>,
                                            blockToReplace: string, newBlock: string)
    ensures forall p :: p in files ==>
      ReplaceAll(files, ps, blockToReplace, newBlock)[p] ==
        if p in ps then OdtFile.ReplaceFile(files[p], blockToReplace, newBlock).1 else files[p]
  {
    if ps != [] {
      var next := ReplaceAt(files, ps[0], blockToReplace, newBlock);
      ReplaceAllEffect(next, ps[1..], blockToReplace, newBlock);
      forall p | p in files
        ensures ReplaceAll(files, ps, blockToReplace, newBlock)[p] ==
          if p in ps then OdtFile.ReplaceFile(files[p], blockToReplace, newBlock).1 else files[p]
      {
        assert p in ps <==> p == ps[0] || p in ps[1..];
        OdtFile.ReplaceIsIdempotent(files[p], blockToReplace, newBlock);
      }
    }
  }

  /** After the walk, every listed document whose blocks could be read holds
      its old blocks with `blockToReplace` turned into `newBlock`; so, unless
      the two are equal, none of them still holds `blockToReplace`. */
  lemma ReplaceAllRemovesBlock(files: map<string, OdtFile.FileState>, ps: seq<string>,
                               blockToReplace: string, newBlock: string, p: string)
    requires p in files && p in ps
    requires OdtFile.FileImportTexts(files[p]).Success?
    ensures var after := ReplaceAll(files, ps, blockToReplace, newBlock)[p];
      && OdtFile.FileImportTexts(after)
           == Success(OdtFile.Subst(OdtFile.FileImportTexts(files[p]).value, blockToReplace, newBlock))
      && (blockToReplace != newBlock ==> OdtFile.ContainsImportBlock(after, blockToReplace) == Success(false))
  {
    ReplaceAllEffect(files, ps, blockToReplace, newBlock);
    OdtFile.ReplaceFileEffect(files[p], blockToReplace, newBlock);
    OdtFile.SubstMembership(OdtFile.FileImportTexts(files[p]).value, blockToReplace, newBlock, blockToReplace);
  }

  /** The documents on disk, which `replaceBlocks` rewrites. */
  class Volume {
    var files: map<string, OdtFile.FileState>

    constructor (files: map<string, OdtFile.FileState>)
      ensures this.files == files
    {
      this.files := files;
    }

    /** `replaceBlocks`: the path must exist, must not be a non-ODT file, and
        must hold some ODT file; then each listed document is rewritten in
        turn, a document that fails being passed over. */
    method ReplaceBlocks(entry: Option<FsEntry>, directoryOrFilePath: string, blockToReplace: string, newBlock: string)
      returns (r: Outcome<FileUtilError>)
      modifies this
      ensures !Exists(entry) ==>
        r == Fail(FileNotFound(NotExistMessage(directoryOrFilePath))) && files == old(files)
      ensures Exists(entry) && entry.value.File? && !IsOdtFile(entry.value.name) ==>
        r == Fail(InvalidFile("The specified file " + directoryOrFilePath + " is not ODT file.")) && files == old(files)
      ensures Exists(entry) && !(entry.value.File? && !IsOdtFile(entry.value.name)) ==>
        if OdtFilesUnder(entry.value, directoryOrFilePath) == [] then
          && r == Fail(FileNotFound("The specified path " + directoryOrFilePath + " does not contains ODT files."))
          && files == old(files)
        else
          && r == Pass
          && files == ReplaceAll(old(files), OdtFilesUnder(entry.value, directoryOrFilePath), blockToReplace, newBlock)
    {
      if !Exists(entry) {
        return Fail(FileNotFound(NotExistMessage(directoryOrFilePath)));
      }
      if entry.value.File? && !IsOdtFile(entry.value.name) {
        return Fail(InvalidFile("The specified file " + directoryOrFilePath + " is not ODT file."));
      }
      var odtFilesPaths := ListOdtFiles(entry.value, directoryOrFilePath);
      if odtFilesPaths == [] {
        return Fail(FileNotFound("The specified path " + directoryOrFilePath + " does not contains ODT files."));
      }
      ReplaceEach(odtFilesPaths, blockToReplace, newBlock);
      return Pass;
    }

    /** The loop of `replaceBlocks`: each listed document rewritten in turn; a
        document whose replacement fails is logged and passed over. */
    method ReplaceEach(odtFilesPaths: seq<string>, blockToReplace: string, newBlock: string)
      modifies this
      ensures files == ReplaceAll(old(files), odtFilesPaths, blockToReplace, newBlock)
    {
      for i := 0 to |odtFilesPaths|
        invariant ReplaceAll(files, odtFilesPaths[i..], blockToReplace, newBlock)
               == ReplaceAll(old(files), odtFilesPaths, blockToReplace, newBlock)
      {
        assert odtFilesPaths[i..][0] == odtFilesPaths[i] && odtFilesPaths[i..][1..] == odtFilesPaths[i + 1..];
        var odtFilePath := odtFilesPaths[i];
        if odtFilePath in files {
          var _, after := OdtFile.ReplaceImportBlocks(files[odtFilePath], blockToReplace, newBlock);
          files := files[odtFilePath := after];
        }
      }
      assert odtFilesPaths[|odtFilesPaths|..] == [];
    }
  }
}
