/**
  Deleting shared directories and files on this instance when another one
  deleted them (Sharing.TrashDir and Sharing.TrashFile of
  pkg/sharing/files.go). A document that something else still references is
  moved into the "no longer shared" directory instead of the trash.
*/
module Trash {

  import opened Wrappers
  import opened Strings
  import opened Json
  import opened Sharings
  import opened VfsDocs
  import opened References
  import opened Registry

  /** The call made to the VFS. */
  datatype VfsCall = NoVfsCall | TrashCall | UpdateDocCall

  /** The directory GetNoLongerSharedDir returns: its identifier and full path. */
  datatype Parent = Parent(id: string, fullpath: string)

  /** The directory is the trash or lies in it. */
  predicate InTrash(fullpath: string) {
    InsideDir(fullpath, TrashDirName)
  }

  /**
    TrashDir, with GetNoLongerSharedDir's result and the error of the VFS
    call as inputs: nothing for a directory already in the trash, the trash
    for a directory nothing references, and otherwise a move into the
    no-longer-shared directory, under its own name.
  */
  method TrashDir(dir: DirDoc, parent: Result<Parent, Error>, vfsErr: Option<Error>) returns (call: VfsCall, err: Option<Error>)
    modifies dir
    ensures InTrash(old(dir.fullpath)) ==> call == NoVfsCall && err == None
    ensures !InTrash(old(dir.fullpath)) && old(dir.referencedBy) == [] ==> call == TrashCall && err == vfsErr
    ensures !InTrash(old(dir.fullpath)) && old(dir.referencedBy) != [] && parent.Err? ==>
      call == NoVfsCall && err == Some(parent.error)
    ensures !InTrash(old(dir.fullpath)) && old(dir.referencedBy) != [] && parent.Ok? ==>
      && call == UpdateDocCall && err == vfsErr
      && dir.dirID == parent.value.id
      && dir.fullpath == JoinPath(parent.value.fullpath, dir.docName)
    ensures call != UpdateDocCall ==> dir.dirID == old(dir.dirID) && dir.fullpath == old(dir.fullpath)
    ensures dir.docID == old(dir.docID) && dir.docName == old(dir.docName) && dir.referencedBy == old(dir.referencedBy)
  {
    if HasPrefix(dir.fullpath + "/", TrashDirName + "/") {
      return NoVfsCall, None;
    }
    if |dir.referencedBy| == 0 {
      return TrashCall, vfsErr;
    }
    if parent.Err? {
      return NoVfsCall, Some(parent.error);
    }
    dir.dirID := parent.value.id;
    dir.fullpath := JoinPath(parent.value.fullpath, dir.docName);
    return UpdateDocCall, vfsErr;
  }

  /**
    What lies below a directory in the trash is in the trash too, so
    TrashDir leaves alone the subdirectories of a trashed directory.
  */
  lemma InTrashBelow(q: string, name: string)
    requires InTrash(q) && |name| > 0
    ensures InTrash(JoinPath(q, name))
  {
    var t := TrashDirName + "/";
    var p := JoinPath(q, name);
    InsideDirSegments(q, TrashDirName);
    InsideDirSegments(p, TrashDirName);
    if q == TrashDirName {
      assert p == TrashDirName + "/" + name;
      assert p[..|t|] == t;
    } else {
      assert q[..|t|] == t;
      assert q != "/";
      assert p == q + "/" + name;
      assert p[..|t|] == q[..|t|];
    }
  }

  /**
    TrashFile, with the same inputs and the rule of the file's SharedRef:
    nothing for a file already trashed; otherwise the references the rule
    shares are dropped first, then the file goes to the trash if nothing
    else references it, and otherwise it is moved into the no-longer-shared
    directory.
  */
  method TrashFile(file: FileDoc, rule: Rule, parent: Result<Parent, Error>, vfsErr: Option<Error>)
    returns (call: VfsCall, err: Option<Error>)
    modifies file
    ensures old(file.trashed) ==> call == NoVfsCall && err == None && file.referencedBy == old(file.referencedBy)
    ensures !old(file.trashed) ==>
      file.referencedBy ==
        (if rule.selector == SelectorReferencedBy then OtherRefs(old(file.referencedBy), rule) else old(file.referencedBy))
    ensures !old(file.trashed) && file.referencedBy == [] ==> call == TrashCall && err == vfsErr
    ensures !old(file.trashed) && file.referencedBy != [] && parent.Err? ==> call == NoVfsCall && err == Some(parent.error)
    ensures !old(file.trashed) && file.referencedBy != [] && parent.Ok? ==>
      call == UpdateDocCall && err == vfsErr && file.dirID == parent.value.id
    ensures call != UpdateDocCall ==> file.dirID == old(file.dirID)
    ensures file.docID == old(file.docID) && file.docName == old(file.docName) && file.trashed == old(file.trashed)
  {
    if file.trashed {
      return NoVfsCall, None;
    }
    RemoveReferencesFromRule(file, rule);
    if |file.referencedBy| == 0 {
      return TrashCall, vfsErr;
    }
    if parent.Err? {
      return NoVfsCall, Some(parent.error);
    }
    file.dirID := parent.value.id;
    return UpdateDocCall, vfsErr;
  }
}
