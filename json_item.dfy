/** The inventory node: `JsonItem`, a mutable record filled in through its
    setters, and `Item`, the value it holds once it is finished. */
module JsonModel {
  import opened Wrappers

  const DIRECTORY_TYPE: string := "directory"
  const FILE_TYPE: string := "file"

  /** The value of a finished node. `kind` is the record's `type` field (a
      keyword in Dafny). Children are held as values: a node is never changed
      after it has been attached to its parent. */
  datatype Item = Item(
    name: string,
    kind: string,
    importBlocks: Option<seq<string>>,
    children: ChildList,
    error: Option<string>)

  /** The `children` field: null until a non-empty list is set. */
  datatype ChildList = Absent | Present(items: seq<Item>)

  class JsonItem {
    const name: string
    const kind: string
    var importBlocks: Option<seq<string>>
    var children: ChildList
    var error: Option<string>

    /** The required-arguments constructor: name and type given, the rest absent. */
    constructor (name: string, kind: string)
      ensures Value() == Item(name, kind, None, Absent, None)
    {
      this.name := name;
      this.kind := kind;
      importBlocks := None;
      children := Absent;
      error := None;
    }

    function Value(): Item
      reads this
    {
      Item(name, kind, importBlocks, children, error)
    }

    /** The directory tag is never the file tag. */
    predicate IsDirectoryType(): (r: bool)
      reads this
      ensures r ==> kind != FILE_TYPE
    {
      kind == DIRECTORY_TYPE
    }

    /** The two type tags differ, so no node is both a directory and a file. */
    predicate IsFileType(): (r: bool)
      reads this
      ensures r ==> !IsDirectoryType()
    {
      kind == FILE_TYPE
    }

    method SetImportBlocks(blocks: seq<string>)
      modifies this
      ensures Value() == old(Value()).(importBlocks := Some(blocks))
    {
      importBlocks := Some(blocks);
    }

    method SetChildren(items: seq<Item>)
      modifies this
      ensures Value() == old(Value()).(children := Present(items))
    {
      children := Present(items);
    }

    method SetError(message: string)
      modifies this
      ensures Value() == old(Value()).(error := Some(message))
    {
      error := Some(message);
    }
  }
}
