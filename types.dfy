/** The records of `types.ts`: tree nodes, the operations the generator proposes
    and the generator's response. */
module Types {

  datatype Option<+T> = None | Some(value: T) {
    /** `x ?? default` */
    function GetOr(default: T): T {
      match this
      case Some(v) => v
      case None => default
    }
  }

  /** The `type` field of a node: `'file' | 'folder'`. */
  datatype NodeType = FileType | FolderType

  /** `FileSystemNode`. A node is exactly one of a file or a folder; `content`
      exists only on files and may be absent, `children` exists only on folders.
      A folder whose `children` field is absent is represented with an empty
      list: the upserter and the deleter treat the two alike, and no
      operation of the engine creates a folder without `children`. */
  datatype Node =
    | File(name: string, path: string, content: Option<string>)
    | Folder(name: string, path: string, children: seq<Node>)

  function TypeOf(n: Node): (t: NodeType)
    ensures t == FileType <==> n.File?
  {
    if n.File? then FileType else FolderType
  }

  /** `FileOperation`: CREATE of a file carries content, CREATE of a folder does
      not, UPDATE carries a path and content but no type, DELETE only a path.
      `Unrecognized` stands for an object whose `action` is none of the three;
      it carries nothing, so no value of this type has action `CREATE`
      without being a CREATE. */
  datatype FileOperation =
    | CreateFile(path: string, content: string)
    | CreateFolder(path: string)
    | Update(path: string, content: string)
    | Delete(path: string)
    | Unrecognized
  {
    predicate IsCreate() {
      CreateFile? || CreateFolder?
    }
  }

  /** `GeminiResponse`. */
  datatype GeminiResponse = GeminiResponse(reasoning: string, operations: seq<FileOperation>, htmlOutput: string)
}
