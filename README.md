# odtApp import-block engine and file-tree tools, in Dafny

odtApp is a command-line tool for OpenDocument text files (`.odt`). Such a
document is a zip archive. Its `content.xml` and `styles.xml` members can hold
*import blocks*: `text:text-input` elements whose `text:description` attribute
is `import` and whose text looks like `[import other.odt]`. The tool has two
actions:

- `json <path> <output>`: write an inventory of a file or directory tree as
  JSON. Directories list their kept children, ODT files list the distinct
  import blocks they hold, and an entry that cannot be read carries an error.
- `replace <path> <old block> <new block>`: rewrite every import element whose
  text is exactly the old block, in every ODT file under the path.

This project models the core of the tool:

- the import-block engine of one document (`OdtFile`);
- the inventory builder, the listing of ODT files, the collection of blocks
  under a path and the batch replacement (`FileUtil`);
- the node record of the inventory (`JsonModel`);
- the command-line argument checks (`ArgumentValidator`).

It proves what each of them promises. Two small modules support them:
`Collections` holds `Stream.distinct` and the sort of paths, and `Wrappers`
holds `Option`, `Result` and `Outcome`.

How the world outside the program is represented:

- **The archive.** A document on disk is a `FileState`: whether it can be
  read, and either bytes that are not a zip archive or a map from member name
  to member.
- **An XML member.** A member is what the XML parser makes of it: its elements
  in document order (tag, `text:description`, text), or a parse failure.
- **A file tree.** A tree is an `FsEntry`: a file, with whether its attributes
  can be read, or a directory with its readability and its listing, which may
  have failed. The tree walk sends a file whose attributes cannot be read to
  `visitFileFailed`, and `File.exists` and `File.canRead` are false for it. A child's path is its
  parent's path, `/`, then its name.
- **Existing paths.** The paths that exist, for argument checking, are a set
  that is passed in.
- **Exceptions.** A thrown exception is a `Failure`, `Fail` or `ValidationError`
  value, and its message is kept where the source builds one.

The form follows the source:

- **Mutable objects become classes.** A `JsonItem` is filled in through its
  setters. The `jar:` zip file system (`OdtFile.ZipFileSystem`) has its member
  rewritten in place through an array DOM. The documents on disk
  (`FileUtil.Volume`) are rewritten one after another.
- **Loops become methods.** Each loop in the source is a method with loop
  invariants, proved equal to a specification function. The properties are
  then proved about that function.

## Model

| member | source | states |
|---|---|---|
| Collections.Distinct | odtapp/src/main/java/com/example/odt/OdtFile.java:67-69 | `distinct()` keeps exactly the elements of its input, each once, and is no longer than its input |
| Collections.DistinctKeepsFirstSeenOrder | odtapp/src/main/java/com/example/odt/OdtFile.java:67-69 | the distinct elements come in the order of their first occurrence in the input |
| Collections.DistinctOfDistinctFree | odtapp/src/main/java/com/example/odt/OdtFile.java:67-69 | a list without repetitions passes through `distinct()` unchanged |
| Collections.FirstIndex | odtapp/src/main/java/com/example/odt/OdtFile.java:67-69 | the index found holds the element and no earlier index does |
| Collections.FirstIndexInPrefix | odtapp/src/main/java/com/example/odt/OdtFile.java:67-69 | an element's first occurrence in a list is its first occurrence in any prefix that contains it |
| Collections.PathLeTotal | odtapp/src/main/java/com/example/util/FileUtil.java:222 | any two paths are comparable in the order `Collections.sort` uses |
| Collections.PathLeReflexive | odtapp/src/main/java/com/example/util/FileUtil.java:222 | every path is ordered before or equal to itself |
| Collections.PathLeTransitive | odtapp/src/main/java/com/example/util/FileUtil.java:222 | the path order is transitive |
| Collections.InsertPath | odtapp/src/main/java/com/example/util/FileUtil.java:222 | inserting into a sorted list gives a sorted list with exactly one more occurrence of the path |
| Collections.InsertFront | odtapp/src/main/java/com/example/util/FileUtil.java:222 | a path ordered before the head of a sorted list can be put in front of it |
| Collections.InsertBehind | odtapp/src/main/java/com/example/util/FileUtil.java:222 | a head ordered before the inserted path stays in front of the insertion result |
| Collections.SortPaths | odtapp/src/main/java/com/example/util/FileUtil.java:222 | `Collections.sort`: the result is sorted and is a permutation of the input |
| JsonModel.JsonItem.constructor | odtapp/src/main/java/com/example/model/JsonItem.java:10-23 | a new node has the given name and type, and no blocks, children or error |
| JsonModel.JsonItem.IsDirectoryType | odtapp/src/main/java/com/example/model/JsonItem.java:25-30 | compares the type tag with "directory"; a node of directory type is never of file type |
| JsonModel.JsonItem.IsFileType | odtapp/src/main/java/com/example/model/JsonItem.java:25-34 | a node of file type is never of directory type, because the two tags differ |
| JsonModel.JsonItem.SetImportBlocks | odtapp/src/main/java/com/example/model/JsonItem.java:19 | the setter changes the blocks field and nothing else |
| JsonModel.JsonItem.SetChildren | odtapp/src/main/java/com/example/model/JsonItem.java:21 | the setter changes the children field and nothing else |
| JsonModel.JsonItem.SetError | odtapp/src/main/java/com/example/model/JsonItem.java:23 | the setter changes the error field and nothing else |
| OdtFile.ImportTexts | odtapp/src/main/java/com/example/odt/OdtFile.java:142-158 | the texts of a member's import elements, in document order; there are never more texts than elements |
| OdtFile.ImportTextsAppend | odtapp/src/main/java/com/example/odt/OdtFile.java:142-158 | extraction of two runs of elements is the extraction of the first followed by that of the second, so document order is kept |
| OdtFile.ImportTextsMembership | odtapp/src/main/java/com/example/odt/OdtFile.java:142-158 | a text is extracted exactly when some element with tag `text:text-input` and description `import` carries it |
| OdtFile.ExtractImportBlocks | odtapp/src/main/java/com/example/odt/OdtFile.java:129-159 | a member that does not parse raises the parser's error; otherwise the loop yields the import texts in document order |
| OdtFile.XmlContent | odtapp/src/main/java/com/example/odt/OdtFile.java:86-118 | `getXmlContent` succeeds exactly when the file can be read and is a zip archive; a present result holds between one and two members, the designated ones the archive has |
| OdtFile.XmlContentOrder | odtapp/src/main/java/com/example/odt/OdtFile.java:86-118 | only `content.xml` then `styles.xml` are read, in that order; an absent member is skipped; none present is an empty Optional |
| OdtFile.GetXmlContent | odtapp/src/main/java/com/example/odt/OdtFile.java:86-118 | the loop over the designated members yields the member contents; a non-zip file raises the "might not be a valid ODT file" error, and an unreadable one the plain reading error |
| OdtFile.ImportBlocks | odtapp/src/main/java/com/example/odt/OdtFile.java:51-70 | `getImportBlocks` fails exactly when the document's import texts cannot be read; a present list is never empty and holds no repetition |
| OdtFile.ImportBlocksShape | odtapp/src/main/java/com/example/odt/OdtFile.java:51-70 | `getImportBlocks` fails exactly when reading fails; it is empty exactly when no block is found, never a present empty list; a present list holds every block found, each once, in first-seen order |
| OdtFile.GetImportBlocks | odtapp/src/main/java/com/example/odt/OdtFile.java:51-70 | the loop over the members concatenates their import texts, stops at the first member that fails, and ends with `distinct()` |
| OdtFile.ContainsImportBlock | odtapp/src/main/java/com/example/odt/OdtFile.java:72-78 | fails exactly when the blocks cannot be read; otherwise true exactly when the block is among the document's import texts, and false when there are none |
| OdtFile.Subst | odtapp/src/main/java/com/example/odt/OdtFile.java:250-262 | mapping each occurrence of one text to another keeps the length |
| OdtFile.SubstMembership | odtapp/src/main/java/com/example/odt/OdtFile.java:250-262 | after the mapping, a text is present exactly when it was present and was not the old block, or it is the new block and the old one was present |
| OdtFile.SubstAppend | odtapp/src/main/java/com/example/odt/OdtFile.java:250-262 | the mapping distributes over concatenation |
| OdtFile.SubstIdentity | odtapp/src/test/java/com/example/OdtFileTest.java:121-139 | the mapping changes nothing when the old block is absent or equals the new one |
| OdtFile.ExtractAfterReplace | odtapp/src/main/java/com/example/odt/OdtFile.java:250-262 | after the rewrite, the extracted texts are the old ones with each occurrence of the old block turned into the new one |
| OdtFile.ReplaceTouchesOnlyImportTexts | odtapp/src/main/java/com/example/odt/OdtFile.java:250-262 | the rewrite keeps every element's tag and description, and changes a text only on an import element that held exactly the old block |
| OdtFile.HasMatchIffExtracted | odtapp/src/main/java/com/example/odt/OdtFile.java:250-262 | a member has a matching element exactly when the old block is among its extracted texts |
| OdtFile.AllImportTextsAppend | odtapp/src/main/java/com/example/odt/OdtFile.java:59-64 | reading a run of members is reading the first part and then the rest, failing at the first failure |
| OdtFile.SingleMemberTexts | odtapp/src/main/java/com/example/odt/OdtFile.java:86-118 | reading one designated member alone gives its import texts; an absent member gives none |
| OdtFile.ArchiveTexts | odtapp/src/main/java/com/example/odt/OdtFile.java:51-70 | a readable archive's texts are those of `content.xml` followed by those of `styles.xml`; the first member that fails to parse is the failure |
| OdtFile.ReplaceInMember | odtapp/src/main/java/com/example/odt/OdtFile.java:234-287 | `replaceImportBlocksInXmlFile` on the member map fails exactly when the member is present and does not parse; success keeps the set of members, and a false flag leaves the map as it was |
| OdtFile.ReplaceAcross | odtapp/src/main/java/com/example/odt/OdtFile.java:196-209 | the member loop keeps the set of members, and once a block was found the flag stays true unless a later member fails |
| OdtFile.ReplaceFile | odtapp/src/main/java/com/example/odt/OdtFile.java:177-216 | `replaceImportBlocks` keeps the file's readability and kind; an archive keeps its set of members, and a file that is not an archive is left as it was |
| OdtFile.ReplaceInMemberEffect | odtapp/src/main/java/com/example/odt/OdtFile.java:234-287 | one member's replacement fails exactly when the member does not parse. Otherwise it reports whether the block was among its texts and rewrites exactly its occurrences. It keeps the other members, and leaves the member untouched when nothing matched |
| OdtFile.ReplaceFileEffect | odtapp/src/main/java/com/example/odt/OdtFile.java:177-216 | an unreadable file is refused with `AccessDeniedException`. Replacement succeeds exactly when the blocks can be read, and then reports whether the old block was present. Afterwards the texts are the old ones with the old block mapped to the new one. Other members and a non-zip file stay as they were |
| OdtFile.ReplaceAbsentBlockIsNoOp | odtapp/src/test/java/com/example/OdtFileTest.java:121-139 | replacing a block the document does not contain reports false and leaves the file unchanged |
| OdtFile.ReplaceAcrossTwo | odtapp/src/main/java/com/example/odt/OdtFile.java:196-209 | the file-level flag is the OR of the two member results; a failure in `styles.xml` leaves `content.xml` rewritten |
| OdtFile.ReplaceInMemberIdempotent | odtapp/src/main/java/com/example/odt/OdtFile.java:250-286 | running a member's replacement again changes nothing, and finds the block again only if it was replaced by itself |
| OdtFile.ReplaceIsIdempotent | odtapp/src/main/java/com/example/odt/OdtFile.java:177-216 | a second replacement leaves the file as the first left it, and after a real replacement finds nothing to replace |
| OdtFile.ZipFileSystem.Open | odtapp/src/main/java/com/example/odt/OdtFile.java:195-196 | the opened file system holds the archive's members |
| OdtFile.ZipFileSystem.ReplaceImportBlocksInXmlFile | odtapp/src/main/java/com/example/odt/OdtFile.java:234-287 | the in-place DOM loop rewrites exactly the matching elements, returns whether one matched, writes the member back only then, and raises the parser's error on a malformed member |
| OdtFile.ReplaceImportBlocks | odtapp/src/main/java/com/example/odt/OdtFile.java:177-216 | the unreadable check comes first and a non-zip file fails to open; the member loop ORs the flags, and what it rewrote is kept when a later member fails |
| FileUtil.ToLower | odtapp/src/main/java/com/example/util/FileUtil.java:44-46 | lower-casing keeps the length, leaves no upper-case letter, and changes exactly the upper-case letters |
| FileUtil.ToLowerIdempotent | odtapp/src/main/java/com/example/util/FileUtil.java:44-46 | lower-casing a lower-cased name changes nothing |
| FileUtil.IsOdtFile | odtapp/src/main/java/com/example/util/FileUtil.java:34-46 | `isOdtFile` lower-cases the name and tests for `.odt` at the end, so an accepted name has at least four characters; `FileUtil.IsOdtFileChars` gives the test character by character |
| FileUtil.IsOdtFileChars | odtapp/src/main/java/com/example/util/FileUtil.java:34-46 | a name is an ODT file name exactly when it ends in `.odt` with each letter in either case |
| FileUtil.OdtChildPath | odtapp/src/main/java/com/example/util/FileUtil.java:34-46 | testing a child's whole path, as the tree walk does, and its bare name, as the inventory does, agree |
| FileUtil.Generate | odtapp/src/main/java/com/example/util/FileUtil.java:265-305 | an unreadable entry gives a node with only its name, type and error; a readable file is kept exactly when it is an ODT file; a readable directory is kept exactly when its listing fails or a child is kept; every kept node passes the retention test |
| FileUtil.Retained | odtapp/src/main/java/com/example/util/FileUtil.java:300-304 | the return test of `generateData`: a node with an error is always kept, and an error-free file node is kept exactly when its name is an ODT name |
| FileUtil.KeptEmpty | odtapp/src/main/java/com/example/util/FileUtil.java:327-346 | no child is kept exactly when every child result is null |
| FileUtil.KeptAppend | odtapp/src/main/java/com/example/util/FileUtil.java:327-333 | keeping the non-null results distributes over concatenation, so the kept children come in listing order |
| FileUtil.KeptMembership | odtapp/src/main/java/com/example/util/FileUtil.java:327-333 | a node is among the kept children exactly when some listed entry produced it |
| FileUtil.DirectoryItem | odtapp/src/main/java/com/example/util/FileUtil.java:313-350 | a directory node has an error exactly when listing fails, and then no children. Otherwise its children are exactly the non-null results of its listed entries, in listing order, and are set only when there is at least one; so children are present exactly when some entry is kept |
| FileUtil.FileItem | odtapp/src/main/java/com/example/util/FileUtil.java:358-385 | a non-ODT file gets neither blocks nor error. An ODT file gets an error exactly when reading its blocks fails, and then no blocks. Otherwise it carries exactly the `getImportBlocks` result: absent when there are none, or the distinct blocks in first-seen order |
| FileUtil.GenerateWellFormed | odtapp/src/main/java/com/example/util/FileUtil.java:265-350 | every produced node is well formed all the way down: a known type tag, blocks only on files, children only on directories, no present empty list, and an error with nothing beside it |
| FileUtil.GenerateData | odtapp/src/main/java/com/example/util/FileUtil.java:265-305 | returns a fresh node exactly when the inventory keeps the entry, holding that node's value |
| FileUtil.GetDataForDirectory | odtapp/src/main/java/com/example/util/FileUtil.java:313-350 | the listing loop collects the kept children in listing order and sets them only when there are some; a failed listing sets the error |
| FileUtil.GetDataForFile | odtapp/src/main/java/com/example/util/FileUtil.java:358-385 | the node holds the document's blocks when present, or the message of the error reading them |
| FileUtil.OdtVisits | odtapp/src/main/java/com/example/util/FileUtil.java:198-215 | the paths the walk hands to `visitFile` that end in `.odt`, in walking order; a file whose visit fails, and a directory that cannot be opened, add nothing |
| FileUtil.OdtVisitsMembership | odtapp/src/main/java/com/example/util/FileUtil.java:198-215 | the walk visits exactly the ODT files whose attributes can be read and that are reachable through directories that can be opened; a file whose visit fails goes to `visitFileFailed` and is not listed |
| FileUtil.OdtVisitsPrefixMembership | odtapp/src/main/java/com/example/util/FileUtil.java:198-215 | the walk over the first k entries of a directory visits exactly the ODT files reachable through them |
| FileUtil.FailedVisitAddsNothing | odtapp/src/main/java/com/example/util/FileUtil.java:209-214 | `visitFileFailed` only logs: a directory that lists one more file whose visit fails yields the same visits |
| FileUtil.VisitFileFailedExample | odtapp/src/test/java/com/example/FileUtilTest.java:130-149 | a directory whose only file, `failedFile.odt`, fails its visit lists nothing; the same directory with that visit succeeding lists the file |
| FileUtil.OdtFilesUnder | odtapp/src/main/java/com/example/util/FileUtil.java:189-226 | `listOdtFiles` is sorted and is a permutation of the visited ODT paths |
| FileUtil.WalkFileTree | odtapp/src/main/java/com/example/util/FileUtil.java:198-215 | the visitor appends the visited ODT paths, in walking order, to the list it is given |
| FileUtil.ListOdtFiles | odtapp/src/main/java/com/example/util/FileUtil.java:189-226 | the result is sorted and contains exactly the reachable files whose path ends in `.odt` in any case and whose visit did not fail |
| FileUtil.BlocksOfMembership | odtapp/src/main/java/com/example/util/FileUtil.java:236-251 | a document contributes a block exactly when its blocks can be read and include it; an unreadable document contributes nothing |
| FileUtil.FlattenMembership | odtapp/src/main/java/com/example/util/FileUtil.java:254-256 | `flatMap` yields a block exactly when one of the lists holds it |
| FileUtil.AllBlocksMembership | odtapp/src/main/java/com/example/util/FileUtil.java:234-257 | the flattened list holds a block exactly when some listed document contributes it |
| FileUtil.ImportBlocksUnder | odtapp/src/main/java/com/example/util/FileUtil.java:234-257 | `getImportBlocks(Path)`: every listed document's blocks in listing order, an unreadable document contributing nothing; no ODT file under the path gives no block |
| FileUtil.OdtFilesUnderMembership | odtapp/src/main/java/com/example/util/FileUtil.java:189-226 | the sorted listing holds exactly the reachable ODT files |
| FileUtil.ReportedBlockIsHeld | odtapp/src/main/java/com/example/util/FileUtil.java:234-257 | every block reported comes from a reachable ODT document that can be read and holds it |
| FileUtil.HeldBlockIsReported | odtapp/src/main/java/com/example/util/FileUtil.java:234-257 | every block held by a reachable, readable ODT document is reported |
| FileUtil.ImportBlocksUnderMembership | odtapp/src/main/java/com/example/util/FileUtil.java:234-257 | `getImportBlocks(Path)` reports a block exactly when some reachable, readable ODT document holds it |
| FileUtil.Exists | odtapp/src/main/java/com/example/util/FileUtil.java:445-449 | `File.exists`: a given directory exists, and a given file exists only when its attributes can be read |
| FileUtil.CreateJsonFile | odtapp/src/main/java/com/example/util/FileUtil.java:394-428 | a missing path and a tree with nothing kept each raise `FileNotFoundException` with its message; otherwise the node written is the inventory's, kept and well formed |
| FileUtil.ReplaceAt | odtapp/src/main/java/com/example/util/FileUtil.java:467-473 | replacing in one document keeps the set of stored documents |
| FileUtil.ReplaceAll | odtapp/src/main/java/com/example/util/FileUtil.java:467-498 | the per-file loop keeps the set of stored documents |
| FileUtil.ReplaceAllEffect | odtapp/src/main/java/com/example/util/FileUtil.java:467-498 | after the loop, each listed document has been replaced once and every other document is as it was; a failing document does not stop the loop |
| FileUtil.ReplaceAllRemovesBlock | odtapp/src/main/java/com/example/util/FileUtil.java:467-498 | after the loop, every listed readable document holds its old blocks with the old block mapped to the new one, so, unless the two are equal, none still contains the old block |
| FileUtil.Volume.constructor | odtapp/src/main/java/com/example/util/FileUtil.java:440-445 | the volume holds the given documents |
| FileUtil.Volume.ReplaceBlocks | odtapp/src/main/java/com/example/util/FileUtil.java:440-499 | the checks run in order: a missing path raises `FileNotFoundException`, an existing non-ODT file `InvalidFileException`, no ODT file under the path `FileNotFoundException`, each leaving the documents unchanged; otherwise every listed document is replaced in turn |
| FileUtil.Volume.ReplaceEach | odtapp/src/main/java/com/example/util/FileUtil.java:467-498 | the per-file loop leaves the documents as the sequential replacement of every listed path leaves them; a failing document is passed over |
| ArgumentValidator.IsValidImportBlock | odtapp/src/main/java/com/example/validation/ArgumentValidator.java:61-63 | the full match of `\[import\s[^\s]+?\.odt\]`; an accepted block is at least fourteen characters long and bracketed |
| ArgumentValidator.BlockAccepted | odtapp/src/main/java/com/example/validation/ArgumentValidator.java:14 | `[import`, one whitespace character, a non-empty name without whitespace and `.odt]` is accepted, and the separator and name can be read back |
| ArgumentValidator.AcceptedIsBlock | odtapp/src/main/java/com/example/validation/ArgumentValidator.java:14 | every accepted block has exactly that shape |
| ArgumentValidator.ImportTargetIsOdt | odtapp/src/main/java/com/example/validation/ArgumentValidator.java:14 | the file an accepted block names is an ODT file by the extension test |
| ArgumentValidator.AcceptedBlockExamples | odtapp/src/test/java/com/example/ArgumentValidatorTest.java:145-151 | `[import file.odt]`, `[import file1.odt]` and `[import 1.odt]` are accepted |
| ArgumentValidator.AcceptedUnderscoreExamples | odtapp/src/test/java/com/example/ArgumentValidatorTest.java:145-151 | `[import 1_file.odt]` and `[import file_1.odt]` are accepted |
| ArgumentValidator.RefusedBlockExamples | odtapp/src/test/java/com/example/ArgumentValidatorTest.java:154-165 | the strings the tests expect refused are refused (no brackets, no keyword, a wrong extension, the empty string), and so are a doubled separator and an empty name |
| ArgumentValidator.LastSlash | odtapp/src/main/java/com/example/validation/ArgumentValidator.java:33-34 | the index found is a `/` with none after it; no index means no `/` at all |
| ArgumentValidator.ParentOf | odtapp/src/main/java/com/example/validation/ArgumentValidator.java:33-34 | `Path.getParent` is absent exactly for a bare name or the root. Otherwise it is everything before the last `/`, or the root when that `/` is the first character |
| ArgumentValidator.ParentOfExamples | odtapp/src/main/java/com/example/validation/ArgumentValidator.java:33-34 | the parent of `a/b/c` is `a/b`, that of `/x` is the root, and `/` and `out.json` have none |
| ArgumentValidator.CheckJson | odtapp/src/main/java/com/example/validation/ArgumentValidator.java:25-38 | the `json` branch passes exactly when there are three arguments, the input path exists, and the output has a parent that exists; it dereferences null exactly when the output has no parent |
| ArgumentValidator.CheckReplace | odtapp/src/main/java/com/example/validation/ArgumentValidator.java:39-55 | the `replace` branch passes exactly when there are four arguments, the path exists and both blocks are well formed; it never dereferences null |
| ArgumentValidator.ValidateArguments | odtapp/src/main/java/com/example/validation/ArgumentValidator.java:16-59 | accepts exactly the well-formed `json` and `replace` commands. A bad count is refused with the generic usage before the action is looked at, and an action error comes exactly for an unknown action. `json` with four arguments and `replace` with three get their own usage messages. A bad input path is reported first. For `json`, a missing output directory is reported by name, and a bare output name ends in a null dereference. For `replace`, a bad block to replace is reported before a bad new block |
| ArgumentValidator.BareOutputNameIsRefused | odtapp/src/main/java/com/example/validation/ArgumentValidator.java:33-37 | `json docs out.json`, with `docs` existing, is refused with a null dereference |
| ArgumentValidator.ValidateArgumentsResolved | odtapp/src/main/java/com/example/validation/ArgumentValidator.java:16-59 | the corrected check never dereferences null, and accepts a bare output name in the working directory |
| ArgumentValidator.ResolvedDiffersOnlyOnNull | odtapp/src/main/java/com/example/validation/ArgumentValidator.java:33-37 | the corrected check agrees with the original everywhere except the null dereference, which becomes an acceptance |

## Left out

- Zip and XML machinery is not modelled: `ZipFile`, the `jar:` file system, `DocumentBuilder`, the indenting `Transformer` and `System.gc()`. A member is the element sequence the parser yields or a parse failure. The model therefore does not capture how the XML is re-indented when a member is written back, or how a DOM nests elements: `getElementsByTagName` is taken to return the elements in document order.
- Messages of library exceptions (zip, I/O and parser causes) are kept as opaque strings.
- `ParserConfigurationException`, `TransformerException` and a failure while writing a member back are left out. They come from library configuration or I/O.
- Filesystem queries are parameters of the model:
  - `File.canRead`, `listFiles` and `exists` are the `FsEntry` tree and the document map;
  - a path missing from the map is an unreadable file;
  - `isValidPath` is the set `validPaths`.
- Links, special files, path normalisation (repeated or trailing `/`) and `InvalidPathException` are not modelled.
- `SecurityException` and the generic `Exception` catch in `generateData` are not modelled; the modelled operations raise neither.
- `FileUtil.ToLower` lowers ASCII letters only; `String.toLowerCase` also lowers other scripts. This does not change the `.odt` test.
- `listOdtFiles` on a start path that does not exist is not modelled: the walk is given an existing tree. A directory that cannot be opened, and a file whose attributes cannot be read, go to `visitFileFailed`, which logs them and lets the walk go on; both are modelled as adding nothing.
- An aborted walk is not modelled. When `postVisitDirectory` rethrows an iteration failure, the `IOException` catch of `listOdtFiles` returns the paths found so far, sorted.
- `FileUtil.OdtFilesUnder` sorts by value. The sort is not modelled as the in-place `ArrayList` sort, and sort stability is not stated: equal paths are indistinguishable.
- The JSON writing in `createJsonFile` is left out: Gson, the `BufferedWriter` and its logged write failure. `FileUtil.CreateJsonFile` returns the node that would be written.
- `JsonUtil`, `App.main`, `unzip`, `deleteDirectory`, `checkAndPromptOverwrite` and all logging are left out. They are I/O, console interaction or diagnostics.
- `JsonModel.JsonItem`: `setName`, `setType` and the other generated accessors are not modelled; name and type are fixed at construction. Children are held as values, because a node is never changed after it is attached, so aliasing between nodes is not modelled.
- `OdtFile.ReplaceImportBlocks` does not model a file that becomes unreadable between the readability check and the opening of the archive.
- `ArgumentValidator.ValidateArguments` does not model a null action string (a null dereference in `switch`), since the command line never passes one.
- `ArgumentValidator.IsJavaWhitespace` is the ASCII set `\s` matches by default: space, tab, newline, vertical tab, form feed and carriage return.

Three behaviours of the code that the model keeps as written:

- A non-ODT file that cannot be read is kept in the inventory with an error. Every unreadable entry gets an error, and the retention rule keeps any node with an error.
- When `styles.xml` fails to parse during replacement, the rewrite of `content.xml` stays: the zip file system is closed, and so committed, on the way out.
- A document that is not a zip archive fails replacement with `ProviderNotFoundException`. The zip file system provider refuses to open it.

## Findings

| source | as written | input that shows it | evidently intended | confidence | as-written member | corrected member |
|---|---|---|---|---|---|---|
| odtapp/src/main/java/com/example/validation/ArgumentValidator.java:33-37 | the parent of the output path is passed to `isValidPath(Path)`, which calls `toString()` on it; `Path.getParent()` is null for a bare file name | `json docs out.json` with `docs` an existing directory | an output file named without a directory goes to the working directory and is accepted | not executed | ArgumentValidator.BareOutputNameIsRefused | ArgumentValidator.ResolvedDiffersOnlyOnNull |
