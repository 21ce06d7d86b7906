/** The command-line checks run before any action: the argument count, the
    action name, the paths, and the shape of an import block.

    Whether a path names an existing file or directory is the set `validPaths`
    handed in. A path's parent is found as `Path.getParent` finds it on a
    normalised path: everything before the last `/`, `/` itself for a child of
    the root, and nothing when there is no `/`. */
module ArgumentValidator {
  import opened Wrappers
  import FileUtil

  const JSON_ACTION: string := "json"
  const REPLACE_ACTION: string := "replace"
  /** The source text of the block pattern, as its `toString` prints it. */
  const IMPORT_BLOCK_PATTERN: string := "\\[import\\s[^\\s]+?\\.odt\\]"

  const USAGE: string := "Usage: java App <action> <directory/file path> <additional arguments>"
  const JSON_USAGE: string := "Usage for json action: java App json <input directory/file path> <output file path>"
  const REPLACE_USAGE: string :=
    "Usage for replace action: java App replace <directory/file path> <block to replace> <new block>"

  /** The exceptions `validateArguments` raises. */
  datatype ValidationError =
    | InvalidArgument(message: string)   // InvalidArgumentException
    | InvalidAction(message: string)     // InvalidActionException
    | NullPointer                        // `isValidPath(null)` dereferencing its argument

  // --------------------------------------------------------- import blocks

  /** The characters `\s` matches in a Java regular expression. */
  predicate IsJavaWhitespace(c: char) {
    c == ' ' || c == '\t' || c == '\n' || c == '\U{000B}' || c == '\U{000C}' || c == '\r'
  }

  predicate NoWhitespace(s: string) {
    forall i :: 0 <= i < |s| ==> !IsJavaWhitespace(s[i])
  }

  /** `isValidImportBlock`: the whole string matches `\[import\s[^\s]+?\.odt\]`,
      i.e. `[import`, one whitespace character, a non-empty run without
      whitespace, and `.odt]`. */
  predicate IsValidImportBlock(block: string): (r: bool)
    ensures r ==> |block| >= 14 && block[0] == '[' && block[|block| - 1] == ']'
  {
    && |block| >= 14
    && block[..7] == "[import"
    && IsJavaWhitespace(block[7])
    && NoWhitespace(block[8..|block| - 5])
    && block[|block| - 5..] == ".odt]"
  }

  /** The block that imports `name` with separator `w`. */
  function Block(w: char, name: string): string {
    "[import" + [w] + name + ".odt]"
  }

  /** Every block built from a whitespace separator and a non-empty name
      without whitespace is accepted, and the two parts can be read back. */
  lemma BlockAccepted(w: char, name: string)
    requires IsJavaWhitespace(w) && name != [] && NoWhitespace(name)
    ensures IsValidImportBlock(Block(w, name))
    ensures var b := Block(w, name); b[7] == w && b[8..|b| - 5] == name
  {
    var b := Block(w, name);
    assert b[..7] == "[import";
    assert b[8..|b| - 5] == name;
    assert b[|b| - 5..] == ".odt]";
  }

  /** Every accepted block is built that way. */
  lemma AcceptedIsBlock(s: string)
    requires IsValidImportBlock(s)
    ensures exists w, name :: IsJavaWhitespace(w) && name != [] && NoWhitespace(name) && s == Block(w, name)
  {
    var w, name := s[7], s[8..|s| - 5];
    assert s == s[..7] + [w] + name + s[|s| - 5..];
    assert s == Block(w, name);
  }

  /** The file an accepted block imports is an ODT file by name. */
  lemma ImportTargetIsOdt(s: string)
    requires IsValidImportBlock(s)
    ensures FileUtil.IsOdtFile(s[8..|s| - 1])
  {
    var t := s[8..|s| - 1];
    FileUtil.IsOdtFileChars(t);
    var suffix := s[|s| - 5..];
    assert suffix[0] == '.' && suffix[1] == 'o' && suffix[2] == 'd' && suffix[3] == 't';
    assert t[|t| - 4] == suffix[0] && t[|t| - 3] == suffix[1] && t[|t| - 2] == suffix[2] && t[|t| - 1] == suffix[3];
  }

  /** The blocks the block check is expected to accept. */
  lemma AcceptedBlockExamples()
    ensures IsValidImportBlock("[import file.odt]")
    ensures IsValidImportBlock("[import file1.odt]")
    ensures IsValidImportBlock("[import 1.odt]")
  {
    BlockAccepted(' ', "file");
    assert "[import file.odt]" == Block(' ', "file");
    BlockAccepted(' ', "file1");
    assert "[import file1.odt]" == Block(' ', "file1");
    BlockAccepted(' ', "1");
    assert "[import 1.odt]" == Block(' ', "1");
  }

  /** Digits and underscores may appear anywhere in the name. */
  lemma AcceptedUnderscoreExamples()
    ensures IsValidImportBlock("[import 1_file.odt]")
    ensures IsValidImportBlock("[import file_1.odt]")
  {
    BlockAccepted(' ', "1_file");
    assert "[import 1_file.odt]" == Block(' ', "1_file");
    BlockAccepted(' ', "file_1");
    assert Block(' ', "file_1") == "[import " + "file_1" + ".odt]";
    assert "[import file_1.odt]" == "[import " + "file_1" + ".odt]";
  }

  /** The strings the block check is expected to refuse: no brackets, no
      `import` keyword, a wrong extension, a doubled separator, no name. */
  lemma RefusedBlockExamples()
    ensures !IsValidImportBlock("invalidBlock")
    ensures !IsValidImportBlock("file.odt")
    ensures !IsValidImportBlock("import  file.odt")
    ensures !IsValidImportBlock("import_file.odt")
    ensures !IsValidImportBlock("import  1.odt")
    ensures !IsValidImportBlock("1.odt")
    ensures !IsValidImportBlock("import file")
    ensures !IsValidImportBlock("import file.csv")
    ensures !IsValidImportBlock("file.odt import")
    ensures !IsValidImportBlock("")
    ensures !IsValidImportBlock("[import  file.odt]")
    ensures !IsValidImportBlock("[import .odt]")
  {
    assert "import  file.odt"[..7][0] != "[import"[0];
    assert "import_file.odt"[..7][0] != "[import"[0];
    assert "import file.csv"[..7][0] != "[import"[0];
    assert "file.odt import"[..7][0] != "[import"[0];
    assert "[import  file.odt]"[8..13][0] == ' ';
  }

  // ----------------------------------------------------------------- paths

  /** The index of the last `/`, if any. */
  function LastSlash(p: string): (k: Option<nat>)
    ensures k.Some? ==> k.value < |p| && p[k.value] == '/' && forall i :: k.value < i < |p| ==> p[i] != '/'
    ensures k.None? ==> forall i :: 0 <= i < |p| ==> p[i] != '/'
  {
    if p == [] then None
    else if p[|p| - 1] == '/' then Some(|p| - 1)
    else LastSlash(p[..|p| - 1])
  }

  /** `Path.getParent` on a normalised path: absent for a bare name and for
      the root itself; otherwise everything before the last `/`, or the root
      when that `/` is the first character. */
  function ParentOf(p: string): (r: Option<string>)
    ensures r.None? <==> p == "/" || forall i :: 0 <= i < |p| ==> p[i] != '/'
    ensures r.Some? ==> |r.value| < |p| && (r.value == "/" || (p[..|r.value|] == r.value && p[|r.value|] == '/'))
    ensures r.Some? && r.value != "/" ==> forall i :: |r.value| < i < |p| ==> p[i] != '/'
    ensures r == Some("/") <==> |p| > 1 && p[0] == '/' && forall i :: 1 < i < |p| ==> p[i] != '/'
  {
    match LastSlash(p)
    case None => None
    case Some(k) =>
      if k == 0 then (if |p| == 1 then None else Some("/"))
      else
        assert p[..k] == "/" ==> k == 1 && p[0] == '/';
        Some(p[..k])
  }

  /** The parent is cut at the last `/`. */
  lemma ParentOfExamples()
    ensures ParentOf("a/b/c") == Some("a/b")
    ensures ParentOf("/x") == Some("/")
    ensures ParentOf("/") == None
    ensures ParentOf("out.json") == None
  {
    assert "a/b/c"[..3] == "a/b";
  }

  // ------------------------------------------------------------ arguments

  /** The `json` branch, as written: a missing parent reaches `isValidPath`
      as null. */
  function CheckJson(args: seq<string>, validPaths: set<string>): (r: Outcome<ValidationError>)
    requires |args| >= 3
    ensures r == Pass <==>
      |args| == 3 && args[1] in validPaths && ParentOf(args[2]).Some? && ParentOf(args[2]).value in validPaths
    ensures r == Fail(NullPointer) <==> |args| == 3 && args[1] in validPaths && ParentOf(args[2]).None?
  {
    if |args| != 3 then Fail(InvalidArgument(JSON_USAGE))
    else if args[1] !in validPaths then Fail(InvalidArgument("Invalid path provided: " + args[1]))
    else
      match ParentOf(args[2])
      case None => Fail(NullPointer)
      case Some(parentPath) =>
        if parentPath !in validPaths then Fail(InvalidArgument("The directory does not exist: " + parentPath))
        else Pass
  }

  /** The `replace` branch: the count, then the path, then each block. */
  function CheckReplace(args: seq<string>, validPaths: set<string>): (r: Outcome<ValidationError>)
    requires |args| >= 3
    ensures r == Pass <==>
      |args| == 4 && args[1] in validPaths && IsValidImportBlock(args[2]) && IsValidImportBlock(args[3])
    ensures r != Fail(NullPointer)
  {
    if |args| != 4 then Fail(InvalidArgument(REPLACE_USAGE))
    else if args[1] !in validPaths then Fail(InvalidArgument("Invalid path provided: " + args[1]))
    else if !IsValidImportBlock(args[2]) then
      Fail(InvalidArgument("Invalid format of 'block to replace'. Must match pattern: " + IMPORT_BLOCK_PATTERN))
    else if !IsValidImportBlock(args[3]) then
      Fail(InvalidArgument("Invalid format of 'new block'. Must match pattern: " + IMPORT_BLOCK_PATTERN))
    else Pass
  }

  /** A well-formed `json` command: input path exists, and so does the output's directory. */
  predicate JsonAccepted(args: seq<string>, validPaths: set<string>) {
    && |args| == 3
    && args[0] == JSON_ACTION
    && args[1] in validPaths
    && ParentOf(args[2]).Some?
    && ParentOf(args[2]).value in validPaths
  }

  /** A well-formed `replace` command: path exists, both blocks have the import shape. */
  predicate ReplaceAccepted(args: seq<string>, validPaths: set<string>) {
    && |args| == 4
    && args[0] == REPLACE_ACTION
    && args[1] in validPaths
    && IsValidImportBlock(args[2])
    && IsValidImportBlock(args[3])
  }

  /** `validateArguments`, as written. It accepts exactly the well-formed
      commands; the argument count is checked before the action; an unknown
      action is the only action error; and a `json` output path without a
      directory part ends in a null dereference. */
  function ValidateArguments(args: seq<string>, validPaths: set<string>): (r: Outcome<ValidationError>)
    ensures r == Pass <==> JsonAccepted(args, validPaths) || ReplaceAccepted(args, validPaths)
    ensures (|args| < 3 || |args| > 4) ==> r == Fail(InvalidArgument(USAGE))
    ensures r.Fail? && r.error.InvalidAction? <==>
      3 <= |args| <= 4 && args[0] != JSON_ACTION && args[0] != REPLACE_ACTION
    ensures r.Fail? && r.error.InvalidAction? ==> r.error.message == "Unknown action: " + args[0]
    ensures r == Fail(NullPointer) <==>
      |args| == 3 && args[0] == JSON_ACTION && args[1] in validPaths && ParentOf(args[2]).None?
    ensures ((|args| == 3 && args[0] == JSON_ACTION) || (|args| == 4 && args[0] == REPLACE_ACTION))
            && args[1] !in validPaths
            ==> r == Fail(InvalidArgument("Invalid path provided: " + args[1]))
    ensures |args| == 4 && args[0] == JSON_ACTION ==> r == Fail(InvalidArgument(JSON_USAGE))
    ensures |args| == 3 && args[0] == REPLACE_ACTION ==> r == Fail(InvalidArgument(REPLACE_USAGE))
    ensures |args| == 3 && args[0] == JSON_ACTION && args[1] in validPaths
            && ParentOf(args[2]).Some? && ParentOf(args[2]).value !in validPaths
            ==> r == Fail(InvalidArgument("The directory does not exist: " + ParentOf(args[2]).value))
    ensures |args| == 4 && args[0] == REPLACE_ACTION && args[1] in validPaths && !IsValidImportBlock(args[2])
            ==> r == Fail(InvalidArgument("Invalid format of 'block to replace'. Must match pattern: " + IMPORT_BLOCK_PATTERN))
    ensures |args| == 4 && args[0] == REPLACE_ACTION && args[1] in validPaths && IsValidImportBlock(args[2])
            && !IsValidImportBlock(args[3])
            ==> r == Fail(InvalidArgument("Invalid format of 'new block'. Must match pattern: " + IMPORT_BLOCK_PATTERN))
  {
    if |args| < 3 || |args| > 4 then Fail(InvalidArgument(USAGE))
    else if args[0] == JSON_ACTION then CheckJson(args, validPaths)
    else if args[0] == REPLACE_ACTION then CheckReplace(args, validPaths)
    else Fail(InvalidAction("Unknown action: " + args[0]))
  }

  /** A `json` command naming a bare output file in an existing input
      directory is refused with a null dereference. */
  lemma BareOutputNameIsRefused()
    ensures ValidateArguments([JSON_ACTION, "docs", "out.json"], {"docs"}) == Fail(NullPointer)
  {
    assert ParentOf("out.json").None?;
  }

  // ------------------------------------------------------------ corrected

  /** The `json` branch as evidently intended: an output path without a
      directory part is written to the working directory, which exists. */
  function CheckJsonResolved(args: seq<string>, validPaths: set<string>): Outcome<ValidationError>
    requires |args| >= 3
  {
    if |args| != 3 then Fail(InvalidArgument(JSON_USAGE))
    else if args[1] !in validPaths then Fail(InvalidArgument("Invalid path provided: " + args[1]))
    else
      match ParentOf(args[2])
      case None => Pass
      case Some(parentPath) =>
        if parentPath !in validPaths then Fail(InvalidArgument("The directory does not exist: " + parentPath))
        else Pass
  }

  /** `validateArguments` with the output directory resolved. */
  function ValidateArgumentsResolved(args: seq<string>, validPaths: set<string>): (r: Outcome<ValidationError>)
    ensures r != Fail(NullPointer)
    ensures r == Pass <==>
      || ReplaceAccepted(args, validPaths)
      || (&& |args| == 3 && args[0] == JSON_ACTION && args[1] in validPaths
          && (ParentOf(args[2]).None? || ParentOf(args[2]).value in validPaths))
  {
    if |args| < 3 || |args| > 4 then Fail(InvalidArgument(USAGE))
    else if args[0] == JSON_ACTION then CheckJsonResolved(args, validPaths)
    else if args[0] == REPLACE_ACTION then CheckReplace(args, validPaths)
    else Fail(InvalidAction("Unknown action: " + args[0]))
  }

  /** The correction changes nothing but the null dereference, which becomes
      an acceptance. */
  lemma ResolvedDiffersOnlyOnNull(args: seq<string>, validPaths: set<string>)
    ensures ValidateArguments(args, validPaths) != Fail(NullPointer) ==>
      ValidateArgumentsResolved(args, validPaths) == ValidateArguments(args, validPaths)
    ensures ValidateArguments(args, validPaths) == Fail(NullPointer) ==>
      ValidateArgumentsResolved(args, validPaths) == Pass
  {
  }
}
