/**
 * StorageRoot: the enumeration of the two storage roots, the directory
 * each stands for and its short name.
 */
module Roots {
  import opened Results
  import ReadWrite
  import Online

  /** The two members READ_DIR and WRITE_DIR. */
  datatype StorageRoot = ReadRoot | WriteRoot {
    /** The member's value: the directory name the member is declared with. */
    function GetDirectory(): (r: string)
      ensures r in NameMapping
      ensures Member(r) == Some(this)
    {
      match this
      case ReadRoot => "data"
      case WriteRoot => "building..."
    }

    /** getName(): the member's value looked up in the name mapping. */
    function GetName(): (r: string)
      ensures r == "read" <==> this == ReadRoot
      ensures r == "write" <==> this == WriteRoot
    {
      NameMapping[GetDirectory()]
    }
  }

  /** `$nameMapping`: directory value to short name. */
  const NameMapping: map<string, string> := map["data" := "read", "building..." := "write"]

  /** The member with a given value, as the enumeration looks members up by value. */
  function Member(value: string): (r: Option<StorageRoot>)
    ensures r.Some? <==> value in NameMapping
  {
    if value == "data" then Some(ReadRoot)
    else if value == "building..." then Some(WriteRoot)
    else None
  }

  /** getDirectory() is the value: looking the value up again gives back the member. */
  lemma DirectoryRoundTrip(value: string, root: StorageRoot)
    ensures Member(value) == Some(root) <==> root.GetDirectory() == value
  {
  }

  /** The two roots have distinct directories and distinct names. */
  lemma RootsDistinct(a: StorageRoot, b: StorageRoot)
    ensures a.GetDirectory() == b.GetDirectory() <==> a == b
    ensures a.GetName() == b.GetName() <==> a == b
  {
  }

  /** The enumeration's values are the directories the storage classes hard-code. */
  lemma RootsMatchStorage()
    ensures ReadRoot.GetDirectory() == ReadWrite.ReadDir == Online.RootDir
    ensures WriteRoot.GetDirectory() == ReadWrite.WriteDir
  {
  }
}
