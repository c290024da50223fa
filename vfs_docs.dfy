/**
  The VFS documents of directories and files (vfs.DirDoc and vfs.FileDoc),
  reduced to the fields the replication engine reads or changes in place.
*/
module VfsDocs {

  import opened Json

  class DirDoc {
    var docID: string
    var docName: string
    var dirID: string
    var fullpath: string
    var referencedBy: seq<DocReference>

    constructor (id: string, name: string, parent: string, path: string, refs: seq<DocReference>)
      ensures docID == id && docName == name && dirID == parent && fullpath == path && referencedBy == refs
    {
      docID := id;
      docName := name;
      dirID := parent;
      fullpath := path;
      referencedBy := refs;
    }
  }

  class FileDoc {
    var docID: string
    var docName: string
    var dirID: string
    var trashed: bool
    var referencedBy: seq<DocReference>

    constructor (id: string, name: string, parent: string, inTrash: bool, refs: seq<DocReference>)
      ensures docID == id && docName == name && dirID == parent && trashed == inTrash && referencedBy == refs
    {
      docID := id;
      docName := name;
      dirID := parent;
      trashed := inTrash;
      referencedBy := refs;
    }
  }

  /** What fs.DirOrFileByID and fs.DirOrFileByPath return when they find something. */
  datatype DirOrFile = Dir(dir: DirDoc) | File(file: FileDoc)
}
