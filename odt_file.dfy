/** The import-block engine of one document. A document is a zip archive; of
    its members only `content.xml` and `styles.xml` are looked at. A member is
    seen as the XML parser sees it: the document's elements in document order
    (tag, `text:description` attribute, text content), or a parse failure. */
module OdtFile {
  import opened Wrappers
  import opened Collections

  const XML_FILES_TO_PROCESS: seq<string> := ["content.xml", "styles.xml"]
  const TEXT_DESCRIPTION_ATTRIBUTE_VALUE_IMPORT: string := "import"
  const TEXT_INPUT_ELEMENT: string := "text:text-input"

  /** An XML element; `description` is "" when the attribute is absent, as
      `Element.getAttribute` returns. */
  datatype Element = Element(tag: string, description: string, text: string)

  datatype XmlMember = Parsed(elements: seq<Element>) | Malformed(reason: string)

  /** What opening the file as a zip archive finds. */
  datatype FileData = NotZip(reason: string) | Archive(members: map<string, XmlMember>)

  /** A document on disk: whether it can be read, and its bytes. */
  datatype FileState = FileState(readable: bool, data: FileData)

  /** The exceptions the engine raises. */
  datatype Failure =
    | NotValidOdt(cause: string)       // a ZipException while opening the archive
    | ReadingError(cause: string)      // any other IOException while reading it
    | MalformedXml(cause: string)      // a SAXException from the parser
    | AccessDenied                     // replacement asked on an unreadable file
    | ProviderNotFound(cause: string)  // the zip file system cannot open the file

  /** The exception's `getMessage()`. */
  function Message(f: Failure): string {
    match f
    case NotValidOdt(c) => "Reading error. It might not be a valid ODT file. Error message: " + c
    case ReadingError(c) => "Reading error. Error message: " + c
    case MalformedXml(c) => c
    case AccessDenied => "File is not readable."
    case ProviderNotFound(c) => c
  }

  predicate IsImportElement(e: Element) {
    e.tag == TEXT_INPUT_ELEMENT && e.description == TEXT_DESCRIPTION_ATTRIBUTE_VALUE_IMPORT
  }

  // ---------------------------------------------------------------- reading

  /** The texts of the import elements of a member, in document order. */
  function ImportTexts(es: seq<Element>): (r: seq<string>)
    ensures |r| <= |es|
  {
    if es == [] then []
    else
      var last := es[|es| - 1];
      ImportTexts(es[..|es| - 1]) + (if IsImportElement(last) then [last.text] else [])
  }

  /** Extraction distributes over concatenation, so it keeps document order. */
  lemma {:induction false} ImportTextsAppend(a: seq<Element>, b: seq<Element>)
    ensures ImportTexts(a + b) == ImportTexts(a) + ImportTexts(b)
  {
    if b != [] {
      assert (a + b)[..|a + b| - 1] == a + b[..|b| - 1];
      ImportTextsAppend(a, b[..|b| - 1]);
    } else {
      assert a + b == a;
    }
  }

  /** A text is extracted exactly when some import element carries it. */
  lemma {:induction false} ImportTextsMembership(es: seq<Element>, t: string)
    ensures t in ImportTexts(es) <==> exists i :: 0 <= i < |es| && IsImportElement(es[i]) && es[i].text == t
  {
    if es != [] {
      var n := |es| - 1;
      ImportTextsMembership(es[..n], t);
      if t in ImportTexts(es[..n]) {
        var i :| 0 <= i < n && IsImportElement(es[..n][i]) && es[..n][i].text == t;
        assert es[i] == es[..n][i];
      }
      if exists i :: 0 <= i < |es| && IsImportElement(es[i]) && es[i].text == t {
        var i :| 0 <= i < |es| && IsImportElement(es[i]) && es[i].text == t;
        if i < n { assert es[..n][i] == es[i]; }
      }
    }
  }

  /** `extractImportBlocks`: parse the member, then walk its elements. */
  method ExtractImportBlocks(xml: XmlMember) returns (r: Result<seq<string>, Failure>)
    ensures xml.Malformed? ==> r == Failure(MalformedXml(xml.reason))
    ensures xml.Parsed? ==> r == Success(ImportTexts(xml.elements))
  {
    match xml
    case Malformed(reason) =>
      return Failure(MalformedXml(reason));
    case Parsed(doc) =>
      var importBlocks: seq<string> := [];
      for i := 0 to |doc|
        invariant importBlocks == ImportTexts(doc[..i])
      {
        assert doc[..i + 1][..i] == doc[..i];
        if IsImportElement(doc[i]) {
          importBlocks := importBlocks + [doc[i].text];
        }
      }
      assert doc[..|doc|] == doc;
      return Success(importBlocks);
  }

  /** The designated members present in the archive, in the order of `names`. */
  function PresentMembers(ms: map<string, XmlMember>, names: seq<string>): (r: seq<XmlMember>)
    ensures |r| <= |names|
  {
    if names == [] then []
    else
      var name := names[|names| - 1];
      PresentMembers(ms, names[..|names| - 1]) + (if name in ms then [ms[name]] else [])
  }

  /** `getXmlContent`: the designated members' contents, absent when there is none. */
  function XmlContent(f: FileState): (r: Result<Option<seq<XmlMember>>, Failure>)
    ensures r.Success? <==> f.readable && f.data.Archive?
    ensures r.Success? && r.value.Some? ==> 1 <= |r.value.value| <= |XML_FILES_TO_PROCESS|
  {
    if !f.readable then Failure(ReadingError("Permission denied"))
    else
      match f.data
      case NotZip(reason) => Failure(NotValidOdt(reason))
      case Archive(ms) =>
        var xs := PresentMembers(ms, XML_FILES_TO_PROCESS);
        if xs == [] then Success(None) else Success(Some(xs))
  }

  /** `content.xml` is read before `styles.xml`, and an absent member is skipped. */
  lemma XmlContentOrder(f: FileState)
    requires f.readable && f.data.Archive?
    ensures var ms := f.data.members;
      XmlContent(f) ==
        var xs := (if "content.xml" in ms then [ms["content.xml"]] else [])
                + (if "styles.xml" in ms then [ms["styles.xml"]] else []);
        if xs == [] then Success(None) else Success(Some(xs))
  {
    var ms := f.data.members;
    assert XML_FILES_TO_PROCESS[..1] == ["content.xml"];
    assert ["content.xml"][..0] == [];
    assert PresentMembers(ms, XML_FILES_TO_PROCESS)
        == PresentMembers(ms, ["content.xml"]) + (if "styles.xml" in ms then [ms["styles.xml"]] else []);
    var c := if "content.xml" in ms then [ms["content.xml"]] else [];
    assert PresentMembers(ms, ["content.xml"]) == [] + c == c;
  }

  method GetXmlContent(f: FileState) returns (r: Result<Option<seq<XmlMember>>, Failure>)
    ensures r == XmlContent(f)
  {
    if !f.readable {
      // opening an unreadable file raises an IOException that is not a ZipException
      return Failure(ReadingError("Permission denied"));
    }
    match f.data
    case NotZip(reason) =>
      return Failure(NotValidOdt(reason));
    case Archive(zipFile) =>
      var xmlContent: seq<XmlMember> := [];
      for i := 0 to |XML_FILES_TO_PROCESS|
        invariant xmlContent == PresentMembers(zipFile, XML_FILES_TO_PROCESS[..i])
      {
        assert XML_FILES_TO_PROCESS[..i + 1][..i] == XML_FILES_TO_PROCESS[..i];
        var xmlFile := XML_FILES_TO_PROCESS[i];
        if xmlFile in zipFile {
          xmlContent := xmlContent + [zipFile[xmlFile]];
        }
      }
      assert XML_FILES_TO_PROCESS[..|XML_FILES_TO_PROCESS|] == XML_FILES_TO_PROCESS;
      return if xmlContent == [] then Success(None) else Success(Some(xmlContent));
  }

  /** The import texts of the members in turn, stopping at the first one that fails to parse. */
  function AllImportTexts(xs: seq<XmlMember>): Result<seq<string>, Failure> {
    if xs == [] then Success([])
    else
      match xs[0]
      case Malformed(reason) => Failure(MalformedXml(reason))
      case Parsed(es) =>
        match AllImportTexts(xs[1..])
        case Failure(e) => Failure(e)
        case Success(rest) => Success(ImportTexts(es) + rest)
  }

  /** Every import text of the document, duplicates included, in reading order. */
  function FileImportTexts(f: FileState): Result<seq<string>, Failure> {
    match XmlContent(f)
    case Failure(e) => Failure(e)
    case Success(None) => Success([])
    case Success(Some(xs)) => AllImportTexts(xs)
  }

  /** `getImportBlocks`: the distinct import texts, absent when there is none. */
  function ImportBlocks(f: FileState): (r: Result<Option<seq<string>>, Failure>)
    ensures r.Failure? <==> FileImportTexts(f).Failure?
    ensures r.Success? && r.value.Some? ==> r.value.value != [] && NoDuplicates(r.value.value)
  {
    match XmlContent(f)
    case Failure(e) => Failure(e)
    case Success(None) => Success(None)
    case Success(Some(xs)) =>
      match AllImportTexts(xs)
      case Failure(e) => Failure(e)
      case Success(all) => if all == [] then Success(None) else Success(Some(Distinct(all)))
  }

  /** `getImportBlocks` fails exactly when reading fails; it is absent exactly
      when there is no block, never a present empty list; when present it holds
      each block once, in first-seen order. */
  lemma ImportBlocksShape(f: FileState)
    ensures ImportBlocks(f).Failure? <==> FileImportTexts(f).Failure?
    ensures ImportBlocks(f).Failure? ==> ImportBlocks(f).error == FileImportTexts(f).error
    ensures ImportBlocks(f) == Success(None) <==> FileImportTexts(f) == Success([])
    ensures ImportBlocks(f).Success? && ImportBlocks(f).value.Some? ==>
      var bs := ImportBlocks(f).value.value;
      var all := FileImportTexts(f).value;
      && bs != []
      && bs == Distinct(all)
      && NoDuplicates(bs)
      && (forall b :: b in bs <==> b in all)
  {
  }

  method GetImportBlocks(f: FileState) returns (r: Result<Option<seq<string>>, Failure>)
    ensures r == ImportBlocks(f)
  {
    var importBlocks: seq<string> := [];
    var xmlContentList := GetXmlContent(f);
    if xmlContentList.Failure? {
      return Failure(xmlContentList.error);
    }
    if xmlContentList.value.Some? {
      var xs := xmlContentList.value.value;
      assert xs[0..] == xs;
      assert AllImportTexts(xs).Success? ==> [] + AllImportTexts(xs).value == AllImportTexts(xs).value;
      for i := 0 to |xs|
        invariant AllImportTexts(xs[i..]).Failure? ==> AllImportTexts(xs) == AllImportTexts(xs[i..])
        invariant AllImportTexts(xs[i..]).Success? ==>
          AllImportTexts(xs) == Success(importBlocks + AllImportTexts(xs[i..]).value)
      {
        assert xs[i..][0] == xs[i] && xs[i..][1..] == xs[i + 1..];
        var blocks := ExtractImportBlocks(xs[i]);
        if blocks.Failure? {
          return Failure(blocks.error);
        }
        if AllImportTexts(xs[i + 1..]).Success? {
          var rest := AllImportTexts(xs[i + 1..]).value;
          assert AllImportTexts(xs[i..]) == Success(blocks.value + rest);
          assert importBlocks + (blocks.value + rest) == (importBlocks + blocks.value) + rest;
        }
        importBlocks := importBlocks + blocks.value;
      }
      assert xs[|xs|..] == [];
      assert importBlocks + [] == importBlocks;
    }
    return if importBlocks == [] then Success(None) else Success(Some(Distinct(importBlocks)));
  }

  /** `containsImportBlock`: whether `b` is among the document's import blocks. */
  function ContainsImportBlock(f: FileState, b: string): (r: Result<bool, Failure>)
    ensures r.Failure? <==> FileImportTexts(f).Failure?
    ensures r.Success? ==> (r.value <==> b in FileImportTexts(f).value)
  {
    ImportBlocksShape(f);
    match ImportBlocks(f)
    case Failure(e) => Failure(e)
    case Success(None) => Success(false)
    case Success(Some(blocks)) => Success(b in blocks)
  }

  // ------------------------------------------------------------ replacement

  function RewriteElement(e: Element, blockToReplace: string, newBlock: string): Element {
    if IsImportElement(e) && e.text == blockToReplace then e.(text := newBlock) else e
  }

  /** Every import element whose text is `blockToReplace` gets `newBlock`. */
  function ReplaceTexts(es: seq<Element>, blockToReplace: string, newBlock: string): seq<Element> {
    seq(|es|, i requires 0 <= i < |es| => RewriteElement(es[i], blockToReplace, newBlock))
  }

  predicate HasMatch(es: seq<Element>, blockToReplace: string) {
    exists i :: 0 <= i < |es| && IsImportElement(es[i]) && es[i].text == blockToReplace
  }

  /** Each occurrence of `x` in a sequence of texts replaced by `y`. */
  function Subst(s: seq<string>, x: string, y: string): (r: seq<string>)
    ensures |r| == |s|
  {
    if s == [] then []
    else Subst(s[..|s| - 1], x, y) + [if s[|s| - 1] == x then y else s[|s| - 1]]
  }

  lemma {:induction false} SubstMembership(s: seq<string>, x: string, y: string, b: string)
    ensures b in Subst(s, x, y) <==> (b in s && b != x) || (b == y && x in s)
  {
    if s != [] {
      var n := |s| - 1;
      SubstMembership(s[..n], x, y, b);
      assert s == s[..n] + [s[n]];
    }
  }

  lemma {:induction false} SubstAppend(a: seq<string>, b: seq<string>, x: string, y: string)
    ensures Subst(a + b, x, y) == Subst(a, x, y) + Subst(b, x, y)
  {
    if b != [] {
      assert (a + b)[..|a + b| - 1] == a + b[..|b| - 1];
      SubstAppend(a, b[..|b| - 1], x, y);
    } else {
      assert a + b == a;
    }
  }

  /** After the rewrite, the extracted texts are the old ones with each
      `blockToReplace` mapped to `newBlock`. */
  lemma {:induction false} ExtractAfterReplace(es: seq<Element>, blockToReplace: string, newBlock: string)
    ensures ImportTexts(ReplaceTexts(es, blockToReplace, newBlock)) == Subst(ImportTexts(es), blockToReplace, newBlock)
  {
    if es != [] {
      var n := |es| - 1;
      ExtractAfterReplace(es[..n], blockToReplace, newBlock);
      assert ReplaceTexts(es, blockToReplace, newBlock)[..n] == ReplaceTexts(es[..n], blockToReplace, newBlock);
      SubstAppend(ImportTexts(es[..n]), if IsImportElement(es[n]) then [es[n].text] else [], blockToReplace, newBlock);
    }
  }

  /** Replacement only touches import elements, and keeps their tag and description. */
  lemma ReplaceTouchesOnlyImportTexts(es: seq<Element>, blockToReplace: string, newBlock: string, i: nat)
    requires i < |es|
    ensures |ReplaceTexts(es, blockToReplace, newBlock)| == |es|
    ensures var e := ReplaceTexts(es, blockToReplace, newBlock)[i];
      && e.tag == es[i].tag && e.description == es[i].description
      && (e.text != es[i].text ==> IsImportElement(es[i]) && es[i].text == blockToReplace && e.text == newBlock)
  {
  }

  /** A member has a match exactly when the block is among its import texts. */
  lemma HasMatchIffExtracted(es: seq<Element>, blockToReplace: string)
    ensures HasMatch(es, blockToReplace) <==> blockToReplace in ImportTexts(es)
  {
    ImportTextsMembership(es, blockToReplace);
  }

  /** `replaceImportBlocksInXmlFile`, on the archive's member map: the flag
      result, and the member rewritten only when something matched. */
  function ReplaceInMember(ms: map<string, XmlMember>, name: string, blockToReplace: string, newBlock: string)
    : (r: Result<(bool, map<string, XmlMember>), Failure>)
    ensures r.Failure? <==> name in ms && ms[name].Malformed?
    ensures r.Success? ==> r.value.1.Keys == ms.Keys
    ensures r.Success? && !r.value.0 ==> r.value.1 == ms
  {
    if name !in ms then Success((false, ms))
    else
      match ms[name]
      case Malformed(reason) => Failure(MalformedXml(reason))
      case Parsed(es) =>
        if HasMatch(es, blockToReplace)
        then Success((true, ms[name := Parsed(ReplaceTexts(es, blockToReplace, newBlock))]))
        else Success((false, ms))
  }

  /** The members in turn; the first failure ends the walk, and what was
      rewritten before it stays rewritten. */
  function ReplaceAcross(ms: map<string, XmlMember>, names: seq<string>, blockToReplace: string,
                         newBlock: string, replaced: bool): (r: (Result<bool, Failure>, map<string, XmlMember>))
    ensures r.1.Keys == ms.Keys
    ensures replaced && r.0.Success? ==> r.0.value
  {
    if names == [] then (Success(replaced), ms)
    else
      match ReplaceInMember(ms, names[0], blockToReplace, newBlock)
      case Failure(e) => (Failure(e), ms)
      case Success((found, next)) => ReplaceAcross(next, names[1..], blockToReplace, newBlock, replaced || found)
  }

  /** `replaceImportBlocks` on one file: the outcome and the file afterwards. */
  function ReplaceFile(f: FileState, blockToReplace: string, newBlock: string): (r: (Result<bool, Failure>, FileState))
    ensures r.1.readable == f.readable && r.1.data.Archive? == f.data.Archive?
    ensures f.data.Archive? ==> r.1.data.members.Keys == f.data.members.Keys
    ensures !f.data.Archive? ==> r.1 == f
  {
    if !f.readable then (Failure(AccessDenied), f)
    else
      match f.data
      case NotZip(reason) => (Failure(ProviderNotFound(reason)), f)
      case Archive(ms) =>
        var (r, after) := ReplaceAcross(ms, XML_FILES_TO_PROCESS, blockToReplace, newBlock, false);
        (r, f.(data := Archive(after)))
  }

  /** The import texts of one member; an absent member has none. */
  function MemberTexts(ms: map<string, XmlMember>, name: string): Result<seq<string>, Failure> {
    if name !in ms then Success([])
    else
      match ms[name]
      case Malformed(reason) => Failure(MalformedXml(reason))
      case Parsed(es) => Success(ImportTexts(es))
  }

  /** Reading a run of members is reading the first part, then the rest. */
  lemma {:induction false} AllImportTextsAppend(a: seq<XmlMember>, b: seq<XmlMember>)
    ensures AllImportTexts(a + b) ==
      match AllImportTexts(a)
      case Failure(e) => Failure(e)
      case Success(x) =>
        match AllImportTexts(b)
        case Failure(e) => Failure(e)
        case Success(y) => Success(x + y)
  {
    if a == [] {
      assert a + b == b;
      if AllImportTexts(b).Success? {
        assert [] + AllImportTexts(b).value == AllImportTexts(b).value;
      }
    } else {
      assert (a + b)[0] == a[0] && (a + b)[1..] == a[1..] + b;
      AllImportTextsAppend(a[1..], b);
      if AllImportTexts(a).Success? && AllImportTexts(b).Success? && a[0].Parsed? {
        var x, y := AllImportTexts(a[1..]).value, AllImportTexts(b).value;
        assert ImportTexts(a[0].elements) + (x + y) == (ImportTexts(a[0].elements) + x) + y;
      }
    }
  }

  lemma SingleMemberTexts(ms: map<string, XmlMember>, name: string)
    ensures AllImportTexts(if name in ms then [ms[name]] else []) == MemberTexts(ms, name)
  {
    if name in ms {
      assert [ms[name]][1..] == [];
      if ms[name].Parsed? {
        assert ImportTexts(ms[name].elements) + [] == ImportTexts(ms[name].elements);
      }
    }
  }

  /** A readable archive's texts are those of `content.xml` followed by those
      of `styles.xml`; the first member that fails to parse is the failure. */
  lemma ArchiveTexts(f: FileState)
    requires f.readable && f.data.Archive?
    ensures var ms := f.data.members;
      FileImportTexts(f) ==
        match MemberTexts(ms, "content.xml")
        case Failure(e) => Failure(e)
        case Success(a) =>
          match MemberTexts(ms, "styles.xml")
          case Failure(e) => Failure(e)
          case Success(b) => Success(a + b)
  {
    var ms := f.data.members;
    XmlContentOrder(f);
    var c := if "content.xml" in ms then [ms["content.xml"]] else [];
    var st := if "styles.xml" in ms then [ms["styles.xml"]] else [];
    AllImportTextsAppend(c, st);
    SingleMemberTexts(ms, "content.xml");
    SingleMemberTexts(ms, "styles.xml");
  }

  /** No occurrence, or a block replaced by itself: the texts are unchanged. */
  lemma {:induction false} SubstIdentity(s: seq<string>, x: string, y: string)
    requires x !in s || x == y
    ensures Subst(s, x, y) == s
  {
    if s != [] {
      var n := |s| - 1;
      assert s[..n] + [s[n]] == s;
      SubstIdentity(s[..n], x, y);
    }
  }

  /** One member's replacement: it fails exactly when the member does not parse;
      otherwise it reports whether the block was there, rewrites exactly its
      occurrences, and leaves every other member (and an unmatched one) alone. */
  lemma ReplaceInMemberEffect(ms: map<string, XmlMember>, name: string, blockToReplace: string, newBlock: string)
    ensures ReplaceInMember(ms, name, blockToReplace, newBlock).Failure? <==> MemberTexts(ms, name).Failure?
    ensures ReplaceInMember(ms, name, blockToReplace, newBlock).Failure? ==>
      ReplaceInMember(ms, name, blockToReplace, newBlock).error == MemberTexts(ms, name).error
    ensures ReplaceInMember(ms, name, blockToReplace, newBlock).Success? ==>
      var (found, next) := ReplaceInMember(ms, name, blockToReplace, newBlock).value;
      && found == (blockToReplace in MemberTexts(ms, name).value)
      && next.Keys == ms.Keys
      && (forall k :: k in ms && k != name ==> next[k] == ms[k])
      && MemberTexts(next, name) == Success(Subst(MemberTexts(ms, name).value, blockToReplace, newBlock))
      && (!found || blockToReplace == newBlock ==> next == ms)
  {
    if name in ms && ms[name].Parsed? {
      var es := ms[name].elements;
      HasMatchIffExtracted(es, blockToReplace);
      ExtractAfterReplace(es, blockToReplace, newBlock);
      if blockToReplace !in ImportTexts(es) || blockToReplace == newBlock {
        SubstIdentity(ImportTexts(es), blockToReplace, newBlock);
      }
      if blockToReplace == newBlock {
        assert ReplaceTexts(es, blockToReplace, newBlock) == es;
      }
    }
  }

  /** `replaceImportBlocks` on one file, against the blocks it holds: it
      succeeds exactly when the blocks can be read (an unreadable file is
      refused first), reports whether `blockToReplace` was among them, and
      afterwards the file's blocks are the old ones with each occurrence of
      `blockToReplace` turned into `newBlock`; members other than the two XML
      ones are untouched, and a file that is not an archive is left as it was. */
  lemma ReplaceFileEffect(f: FileState, blockToReplace: string, newBlock: string)
    ensures var (r, after) := ReplaceFile(f, blockToReplace, newBlock);
      && (!f.readable ==> r == Failure(AccessDenied))
      && (r.Success? <==> FileImportTexts(f).Success?)
      && after.readable == f.readable
      && (f.data.NotZip? ==> after == f)
      && (f.data.Archive? ==>
            && after.data.Archive?
            && after.data.members.Keys == f.data.members.Keys
            && (forall k :: k in f.data.members && k !in XML_FILES_TO_PROCESS ==>
                  after.data.members[k] == f.data.members[k]))
      && (r.Success? ==>
            && r.value == (blockToReplace in FileImportTexts(f).value)
            && FileImportTexts(after) == Success(Subst(FileImportTexts(f).value, blockToReplace, newBlock))
            && (!r.value || blockToReplace == newBlock ==> after == f))
  {
    if f.readable && f.data.Archive? {
      var ms := f.data.members;
      var o, n := blockToReplace, newBlock;
      ArchiveTexts(f);
      ReplaceInMemberEffect(ms, "content.xml", o, n);
      assert XML_FILES_TO_PROCESS[1..] == ["styles.xml"];
      assert ["styles.xml"][1..] == [];
      if ReplaceInMember(ms, "content.xml", o, n).Success? {
        var (f1, m1) := ReplaceInMember(ms, "content.xml", o, n).value;
        assert MemberTexts(m1, "styles.xml") == MemberTexts(ms, "styles.xml");
        ReplaceInMemberEffect(m1, "styles.xml", o, n);
        assert ReplaceAcross(ms, XML_FILES_TO_PROCESS, o, n, false) == ReplaceAcross(m1, ["styles.xml"], o, n, f1);
        if ReplaceInMember(m1, "styles.xml", o, n).Failure? {
          assert ReplaceFile(f, o, n) == (Failure(ReplaceInMember(m1, "styles.xml", o, n).error), f.(data := Archive(m1)));
        } else {
          var (f2, m2) := ReplaceInMember(m1, "styles.xml", o, n).value;
          var a, b := MemberTexts(ms, "content.xml").value, MemberTexts(ms, "styles.xml").value;
          assert ReplaceAcross(m1, ["styles.xml"], o, n, f1) == ReplaceAcross(m2, [], o, n, f1 || f2);
          assert ReplaceFile(f, o, n) == (Success(f1 || f2), f.(data := Archive(m2)));
          assert MemberTexts(m2, "content.xml") == MemberTexts(m1, "content.xml");
          ArchiveTexts(f.(data := Archive(m2)));
          SubstAppend(a, b, o, n);
        }
      }
    }
  }

  /** Asking to replace a block the file does not hold changes nothing. */
  lemma ReplaceAbsentBlockIsNoOp(f: FileState, blockToReplace: string, newBlock: string)
    requires ContainsImportBlock(f, blockToReplace) == Success(false)
    ensures ReplaceFile(f, blockToReplace, newBlock) == (Success(false), f)
  {
    ReplaceFileEffect(f, blockToReplace, newBlock);
  }

  /** The walk over `content.xml` then `styles.xml`, spelled out. */
  lemma ReplaceAcrossTwo(ms: map<string, XmlMember>, blockToReplace: string, newBlock: string)
    ensures var c := ReplaceInMember(ms, "content.xml", blockToReplace, newBlock);
      ReplaceAcross(ms, XML_FILES_TO_PROCESS, blockToReplace, newBlock, false) ==
        if c.Failure? then (Failure(c.error), ms)
        else
          var st := ReplaceInMember(c.value.1, "styles.xml", blockToReplace, newBlock);
          if st.Failure? then (Failure(st.error), c.value.1)
          else (Success(c.value.0 || st.value.0), st.value.1)
  {
    var o, n := blockToReplace, newBlock;
    assert XML_FILES_TO_PROCESS[1..] == ["styles.xml"];
    assert ["styles.xml"][1..] == [];
    var c := ReplaceInMember(ms, "content.xml", o, n);
    if c.Success? {
      var m1 := c.value.1;
      assert ReplaceAcross(ms, XML_FILES_TO_PROCESS, o, n, false) == ReplaceAcross(m1, ["styles.xml"], o, n, c.value.0);
      var st := ReplaceInMember(m1, "styles.xml", o, n);
      if st.Success? {
        assert ReplaceAcross(m1, ["styles.xml"], o, n, c.value.0) == ReplaceAcross(st.value.1, [], o, n, c.value.0 || st.value.0);
      }
    }
  }

  /** Replacing again in a member that was just rewritten changes nothing, and
      finds the block again only if it was replaced by itself. */
  lemma ReplaceInMemberIdempotent(ms: map<string, XmlMember>, name: string, blockToReplace: string, newBlock: string)
    requires ReplaceInMember(ms, name, blockToReplace, newBlock).Success?
    ensures var (found, next) := ReplaceInMember(ms, name, blockToReplace, newBlock).value;
      ReplaceInMember(next, name, blockToReplace, newBlock) == Success((blockToReplace == newBlock && found, next))
  {
    var (found, next) := ReplaceInMember(ms, name, blockToReplace, newBlock).value;
    ReplaceInMemberEffect(ms, name, blockToReplace, newBlock);
    ReplaceInMemberEffect(next, name, blockToReplace, newBlock);
    SubstMembership(MemberTexts(ms, name).value, blockToReplace, newBlock, blockToReplace);
  }

  /** Replacement is idempotent, whether or not it succeeded: running it again
      leaves the file as the first run left it, and after a successful run of a
      real change it finds nothing left to replace. */
  lemma ReplaceIsIdempotent(f: FileState, blockToReplace: string, newBlock: string)
    ensures var (r, after) := ReplaceFile(f, blockToReplace, newBlock);
      && ReplaceFile(after, blockToReplace, newBlock).1 == after
      && (r.Success? && blockToReplace != newBlock ==> ReplaceFile(after, blockToReplace, newBlock).0 == Success(false))
  {
    if f.readable && f.data.Archive? {
      var ms, o, n := f.data.members, blockToReplace, newBlock;
      ReplaceAcrossTwo(ms, o, n);
      if ReplaceInMember(ms, "content.xml", o, n).Success? {
        var (f1, m1) := ReplaceInMember(ms, "content.xml", o, n).value;
        ReplaceInMemberEffect(ms, "content.xml", o, n);
        ReplaceInMemberIdempotent(ms, "content.xml", o, n);
        ReplaceAcrossTwo(m1, o, n);
        if ReplaceInMember(m1, "styles.xml", o, n).Success? {
          var (f2, m2) := ReplaceInMember(m1, "styles.xml", o, n).value;
          ReplaceInMemberEffect(m1, "styles.xml", o, n);
          ReplaceInMemberIdempotent(m1, "styles.xml", o, n);
          assert MemberTexts(m2, "content.xml") == MemberTexts(m1, "content.xml");
          ReplaceInMemberEffect(m2, "content.xml", o, n);
          SubstMembership(MemberTexts(ms, "content.xml").value, o, n, o);
          ReplaceAcrossTwo(m2, o, n);
        }
      }
    }
  }

  /** The `jar:` file system opened over one document. */
  class ZipFileSystem {
    var members: map<string, XmlMember>

    constructor Open(members: map<string, XmlMember>)
      ensures this.members == members
    {
      this.members := members;
    }

    /** Parses the member into a DOM (an array of its elements), rewrites the
        matching elements in place, and writes the member back only if one matched. */
    method ReplaceImportBlocksInXmlFile(xmlPath: string, blockToReplace: string, newBlock: string)
      returns (r: Result<bool, Failure>)
      modifies this
      ensures match ReplaceInMember(old(members), xmlPath, blockToReplace, newBlock)
              case Failure(e) => r == Failure(e) && members == old(members)
              case Success((found, next)) => r == Success(found) && members == next
    {
      if xmlPath in members {
        if members[xmlPath].Malformed? {
          return Failure(MalformedXml(members[xmlPath].reason));
        }
        var es := members[xmlPath].elements;
        var doc := new Element[|es|](i requires 0 <= i < |es| => es[i]);
        var found := false;
        for i := 0 to doc.Length
          invariant forall k :: 0 <= k < i ==> doc[k] == RewriteElement(es[k], blockToReplace, newBlock)
          invariant forall k :: i <= k < doc.Length ==> doc[k] == es[k]
          invariant found <==> exists k :: 0 <= k < i && IsImportElement(es[k]) && es[k].text == blockToReplace
          invariant members == old(members)
        {
          if IsImportElement(doc[i]) && doc[i].text == blockToReplace {
            doc[i] := doc[i].(text := newBlock);
            found := true;
          }
        }
        assert found == HasMatch(es, blockToReplace);
        if found {
          assert doc[..] == ReplaceTexts(es, blockToReplace, newBlock);
          members := members[xmlPath := Parsed(doc[..])];
        }
        return Success(found);
      }
      return Success(false);
    }
  }

  /** `replaceImportBlocks`: refuses an unreadable file before opening it, then
      processes `content.xml` and `styles.xml` in turn; the file system is
      closed, committing what was rewritten, whether or not a member failed. */
  method ReplaceImportBlocks(f: FileState, blockToReplace: string, newBlock: string)
    returns (r: Result<bool, Failure>, after: FileState)
    ensures (r, after) == ReplaceFile(f, blockToReplace, newBlock)
  {
    if !f.readable {
      return Failure(AccessDenied), f;
    }
    if f.data.NotZip? {
      return Failure(ProviderNotFound(f.data.reason)), f;
    }
    var ms := f.data.members;
    var fs := new ZipFileSystem.Open(ms);
    var replacedInFile := false;
    for i := 0 to |XML_FILES_TO_PROCESS|
      invariant ReplaceAcross(fs.members, XML_FILES_TO_PROCESS[i..], blockToReplace, newBlock, replacedInFile)
             == ReplaceAcross(ms, XML_FILES_TO_PROCESS, blockToReplace, newBlock, false)
    {
      assert XML_FILES_TO_PROCESS[i..][1..] == XML_FILES_TO_PROCESS[i + 1..];
      var res := fs.ReplaceImportBlocksInXmlFile(XML_FILES_TO_PROCESS[i], blockToReplace, newBlock);
      if res.Failure? {
        return Failure(res.error), f.(data := Archive(fs.members));
      }
      if res.value {
        replacedInFile := true;
      }
    }
    return Success(replacedInFile), f.(data := Archive(fs.members));
  }
}
