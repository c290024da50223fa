/**
  Applying the changes another instance sent for io.cozy.files
  (pkg/sharing/files.go): how ApplyBulkFiles dispatches each incoming
  document, how a name conflict on the same path is resolved, and which
  members are asked for a directory this instance no longer has.
*/
module Inbound {

  import opened Wrappers
  import opened Strings
  import opened Json
  import opened Sharings
  import opened RevsTrees
  import opened Registry
  import opened VfsDocs
  import Obfuscation

  // ---------------------------------------------------------------------
  // ApplyBulkFiles

  /** What fs.DirOrFileByID finds for an identifier present in the VFS. */
  datatype VfsEntry = DirEntry | FileEntry | VfsFailure(error: Error)

  /**
    The state ApplyBulkFiles reads: the SharedRef of each identifier
    (absent means not found), the VFS entry of each identifier (absent
    means os.ErrNotExist), and the identifiers whose TrashDir, TrashFile,
    CreateDir or UpdateDir call fails, with its error.
  */
  datatype Store = Store(shared: map<string, Stored>, vfs: map<string, VfsEntry>, failures: map<string, Error>)

  /** The call ApplyBulkFiles makes for one incoming document. */
  datatype Call =
    | NoCall
    | TrashDirCall(id: string)
    | TrashFileCall(id: string, ruleIndex: int)
    | CreateDirCall(id: string)
    | UpdateDirCall(id: string)

  datatype Outcome = Outcome(call: Call, err: Option<Error>)

  function StoredOf(store: Store, id: string): Stored {
    if id in store.shared then store.shared[id] else Missing
  }

  function EntryOf(store: Store, id: string): Option<VfsEntry> {
    if id in store.vfs then Some(store.vfs[id]) else None
  }

  /** The outcome of a call that is made: the failure of the store, if any. */
  function Called(c: Call, id: string, store: Store): Outcome {
    Outcome(c, if id in store.failures then Some(store.failures[id]) else None)
  }

  /** The incoming document asks for a deletion: it has a _deleted field, whatever its value. */
  predicate IsDeletion(target: Doc) {
    "_deleted" in target
  }

  /**
    A deletion of a known and present document reads its _rev as a string,
    and for a file the rule its SharedRef names.
  */
  predicate DispatchDefined(s: Sharing, target: Doc, store: Store) {
    HasString(target, "_id") ==>
      var id := target["_id"].s;
      var stored := StoredOf(store, id);
      var entry := EntryOf(store, id);
      (IsDeletion(target) && stored.Found? && s.sid in stored.ref.infos && entry.Some? && !entry.value.VfsFailure? ==>
        && HasString(target, "_rev")
        && (entry.value.FileEntry? ==> 0 <= stored.ref.infos[s.sid].rule < |s.rules|))
  }

  /** The SharedRef read lets the loop go on: there is none, or it lists the sharing. */
  predicate Admitted(s: Sharing, stored: Stored) {
    stored.Missing? || (stored.Found? && s.sid in stored.ref.infos)
  }

  /** The VFS lookup did not fail (not finding the identifier is no failure). */
  predicate Readable(entry: Option<VfsEntry>) {
    !(entry.Some? && entry.value.VfsFailure?)
  }

  /**
    One iteration of the loop of ApplyBulkFiles. A document without an
    identifier, a SharedRef that does not list the sharing, and a failed read
    are errors. A deletion trashes the local directory or file only if it is
    known and its generation is behind the incoming revision. Anything else
    creates the directory unless it exists, and updates an existing
    directory only if it has a SharedRef.
  */
  function Dispatch(s: Sharing, target: Doc, store: Store): (o: Outcome)
    requires DispatchDefined(s, target, store)
    ensures !HasString(target, "_id") ==> o == Outcome(NoCall, Some(MissingID))
    ensures HasString(target, "_id") ==>
      var stored := StoredOf(store, target["_id"].s);
      var entry := EntryOf(store, target["_id"].s);
      && (stored.Failed? ==> o == Outcome(NoCall, Some(stored.error)))
      && (stored.Found? && s.sid !in stored.ref.infos ==> o == Outcome(NoCall, Some(Safety)))
      && (Admitted(s, stored) && !Readable(entry) ==> o == Outcome(NoCall, Some(entry.value.error)))
    ensures HasString(target, "_id") && IsDeletion(target) ==>
      var id := target["_id"].s;
      var stored := StoredOf(store, id);
      var entry := EntryOf(store, id);
      Admitted(s, stored) && Readable(entry) ==>
        && (stored.Missing? || entry.None? ==> o == Outcome(NoCall, None))
        && (stored.Found? && entry.Some? ==>
              var newer := Generation(stored.ref.revisions) < RevGeneration(target["_rev"].s);
              && (!newer ==> o == Outcome(NoCall, None))
              && (newer && entry == Some(DirEntry) ==> o == Called(TrashDirCall(id), id, store))
              && (newer && entry == Some(FileEntry) ==>
                    o == Called(TrashFileCall(id, stored.ref.infos[s.sid].rule), id, store)))
    ensures HasString(target, "_id") && !IsDeletion(target) ==>
      var id := target["_id"].s;
      var stored := StoredOf(store, id);
      var entry := EntryOf(store, id);
      Admitted(s, stored) && Readable(entry) ==>
        && (entry != Some(DirEntry) ==> o == Called(CreateDirCall(id), id, store))
        && (entry == Some(DirEntry) && stored.Missing? ==> o == Outcome(NoCall, Some(Safety)))
        && (entry == Some(DirEntry) && stored.Found? ==> o == Called(UpdateDirCall(id), id, store))
    ensures o.call.TrashDirCall? || o.call.TrashFileCall? ==>
      var stored := StoredOf(store, target["_id"].s);
      && IsDeletion(target)
      && stored.Found?
      && HasString(target, "_rev")
      && Generation(stored.ref.revisions) < RevGeneration(target["_rev"].s)
    ensures o.call.TrashDirCall? ==> EntryOf(store, target["_id"].s) == Some(DirEntry)
    ensures o.call.TrashFileCall? ==> EntryOf(store, target["_id"].s) == Some(FileEntry)
    ensures o.call.UpdateDirCall? ==>
      var stored := StoredOf(store, target["_id"].s);
      && !IsDeletion(target)
      && stored.Found? && s.sid in stored.ref.infos
      && EntryOf(store, target["_id"].s) == Some(DirEntry)
    ensures o.call.CreateDirCall? ==> !IsDeletion(target) && EntryOf(store, target["_id"].s) != Some(DirEntry)
    ensures o.call != NoCall ==> o == Called(o.call, target["_id"].s, store)
    ensures o.call == NoCall && o.err.Some? ==>
      !HasString(target, "_id") || o.err.value == Safety ||
      StoredOf(store, target["_id"].s) == Failed(o.err.value) ||
      EntryOf(store, target["_id"].s) == Some(VfsFailure(o.err.value))
  {
    if !HasString(target, "_id") then Outcome(NoCall, Some(MissingID))
    else
      var id := target["_id"].s;
      var stored := StoredOf(store, id);
      if stored.Failed? then Outcome(NoCall, Some(stored.error))
      else if stored.Found? && s.sid !in stored.ref.infos then Outcome(NoCall, Some(Safety))
      else
        var entry := EntryOf(store, id);
        if entry.Some? && entry.value.VfsFailure? then Outcome(NoCall, Some(entry.value.error))
        else if IsDeletion(target) then
          if stored.Missing? || entry.None? then Outcome(NoCall, None)
          else if Generation(stored.ref.revisions) >= RevGeneration(target["_rev"].s) then Outcome(NoCall, None)
          else if entry.value.DirEntry? then Called(TrashDirCall(id), id, store)
          else Called(TrashFileCall(id, stored.ref.infos[s.sid].rule), id, store)
        else if entry != Some(DirEntry) then Called(CreateDirCall(id), id, store)
        else if stored.Missing? then Outcome(NoCall, Some(Safety))
        else Called(UpdateDirCall(id), id, store)
  }

  /**
    A deletion never trashes a directory whose known revisions are as recent
    as the deleted one: the version that is not trashed wins.
  */
  lemma StaleDeletionKeeps(s: Sharing, target: Doc, store: Store)
    requires DispatchDefined(s, target, store)
    requires HasString(target, "_id") && IsDeletion(target) && HasString(target, "_rev")
    requires StoredOf(store, target["_id"].s).Found?
    requires IsLeafPath(StoredOf(store, target["_id"].s).ref.revisions, MainTip(StoredOf(store, target["_id"].s).ref.revisions))
    requires RevGeneration(At(StoredOf(store, target["_id"].s).ref.revisions, MainTip(StoredOf(store, target["_id"].s).ref.revisions)).rev)
             >= RevGeneration(target["_rev"].s)
    ensures Dispatch(s, target, store).call == NoCall
  {
    var t := StoredOf(store, target["_id"].s).ref.revisions;
    GenerationIsMaxOverLeaves(t);
  }

  /** The calls of the loop, one per incoming document. */
  predicate BatchDefined(s: Sharing, docs: seq<Doc>, store: Store) {
    forall i :: 0 <= i < |docs| ==> DispatchDefined(s, docs[i], store)
  }

  /** The errors the loop accumulates with multierror.Append, in order. */
  function BatchErrors(s: Sharing, docs: seq<Doc>, store: Store): (errs: seq<Error>)
    requires BatchDefined(s, docs, store)
    ensures |errs| <= |docs|
    ensures errs == [] <==> forall i :: 0 <= i < |docs| ==> Dispatch(s, docs[i], store).err.None?
    decreases |docs|
  {
    if |docs| == 0 then []
    else
      var init := docs[..|docs| - 1];
      assert forall i :: 0 <= i < |init| ==> init[i] == docs[i];
      var o := Dispatch(s, docs[|docs| - 1], store);
      BatchErrors(s, init, store) + (if o.err.Some? then [o.err.value] else [])
  }

  /** One more document adds its own error, if any, after the errors of the ones before. */
  lemma BatchErrorsSnoc(s: Sharing, docs: seq<Doc>, n: nat, store: Store)
    requires BatchDefined(s, docs, store) && n < |docs|
    ensures BatchDefined(s, docs[..n], store) && BatchDefined(s, docs[..n + 1], store)
    ensures var o := Dispatch(s, docs[n], store);
      BatchErrors(s, docs[..n + 1], store) == BatchErrors(s, docs[..n], store) + (if o.err.Some? then [o.err.value] else [])
  {
    assert docs[..n + 1][..n] == docs[..n];
  }

  /** The loop of ApplyBulkFiles: the calls it makes, and the errors it gathers. */
  method ApplyBatch(s: Sharing, docs: seq<Doc>, store: Store) returns (calls: seq<Call>, errm: seq<Error>)
    requires BatchDefined(s, docs, store)
    ensures |calls| == |docs|
    ensures forall i :: 0 <= i < |docs| ==> calls[i] == Dispatch(s, docs[i], store).call
    ensures errm == BatchErrors(s, docs, store)
  {
    calls := [];
    errm := [];
    for n := 0 to |docs|
      invariant |calls| == n
      invariant forall i :: 0 <= i < n ==> calls[i] == Dispatch(s, docs[i], store).call
      invariant errm == BatchErrors(s, docs[..n], store)
    {
      BatchErrorsSnoc(s, docs, n, store);
      var o := Dispatch(s, docs[n], store);
      calls := calls + [o.call];
      if o.err.Some? {
        errm := errm + [o.err.value];
      }
    }
    assert docs[..|docs|] == docs;
  }

  /** ApplyBulkFiles as written: whatever went wrong, it returns nil. */
  method ApplyBulkFilesAsWritten(s: Sharing, docs: seq<Doc>, store: Store) returns (calls: seq<Call>, result: Option<seq<Error>>)
    requires BatchDefined(s, docs, store)
    ensures |calls| == |docs| && result == None
    ensures forall i :: 0 <= i < |docs| ==> calls[i] == Dispatch(s, docs[i], store).call
  {
    var errm;
    calls, errm := ApplyBatch(s, docs, store);
    return calls, None;
  }

  /** ApplyBulkFiles as corrected: it returns the errors it gathered, or nil when there are none. */
  method ApplyBulkFiles(s: Sharing, docs: seq<Doc>, store: Store) returns (calls: seq<Call>, result: Option<seq<Error>>)
    requires BatchDefined(s, docs, store)
    ensures |calls| == |docs|
    ensures forall i :: 0 <= i < |docs| ==> calls[i] == Dispatch(s, docs[i], store).call
    ensures result.None? <==> forall i :: 0 <= i < |docs| ==> Dispatch(s, docs[i], store).err.None?
    ensures result.Some? ==> result.value == BatchErrors(s, docs, store)
  {
    var errm;
    calls, errm := ApplyBatch(s, docs, store);
    if errm == [] {
      return calls, None;
    }
    return calls, Some(errm);
  }

  /**
    A batch holding one document without an identifier gathers the
    MissingID error, which ApplyBulkFiles as written does not return.
  */
  lemma MissingIDIsGathered(s: Sharing, store: Store)
    ensures BatchDefined(s, [map[]], store)
    ensures BatchErrors(s, [map[]], store) == [MissingID]
  {
    var docs: seq<Doc> := [map[]];
    assert docs[..0] == [];
  }

  // ---------------------------------------------------------------------
  // resolveConflictSamePath

  /** The local document keeps its name: its identifier is the greater one, so never the incoming one. */
  function LocalWins(localID: string, incomingID: string): (w: bool)
    ensures w ==> localID != incomingID
  {
    LexLessTrichotomy(localID, localID);
    LexLess(incomingID, localID)
  }

  /**
    The two instances of a conflict decide alike: of two different
    identifiers, exactly one side keeps its local document.
  */
  lemma ConflictHasOneWinner(a: string, b: string)
    requires a != b
    ensures LocalWins(a, b) <==> !LocalWins(b, a)
    ensures !LocalWins(a, a)
  {
    LexLessTrichotomy(a, b);
  }

  /**
    The rule above orders one pair of identifiers on one instance; across two
    instances the identifiers compared are not the same pair, because each
    side receives the other's identifier XORed with the sharing's key. With
    the key [3], instance A holding "0" and instance B holding "2" at the same
    path: A compares its "0" with the incoming Xored("2") == "1", B compares
    its "2" with the incoming Xored("0") == "3", and each renames its own
    document.
  */
  lemma ConflictXoredBothRename()
    ensures Obfuscation.Xored("2", [3]) == "1" && Obfuscation.Xored("0", [3]) == "3"
    ensures !LocalWins("0", Obfuscation.Xored("2", [3]))
    ensures !LocalWins("2", Obfuscation.Xored("0", [3]))
  {
    assert Obfuscation.Xored("2", [3]) == "1" by {
      assert Obfuscation.IsHex('2');
    }
    assert Obfuscation.Xored("0", [3]) == "3" by {
      assert Obfuscation.IsHex('0');
    }
  }

  const ConflictSuffix := " - conflict - "

  /** The new name as written: the whole path, the suffix and the Unix time. */
  function ConflictNameAsWritten(pth: string, now: int): (name: string)
    ensures HasPrefix(name, pth)
  {
    assert (pth + ConflictSuffix + DecimalString(now))[..|pth|] == pth;
    pth + ConflictSuffix + DecimalString(now)
  }

  /** The new name as corrected: the last element of the path instead of the path. */
  function ConflictName(pth: string, now: int): (name: string)
    ensures '/' !in name
    ensures |name| > 0
  {
    BaseName(pth) + ConflictSuffix + DecimalString(now)
  }

  /** The name as written keeps the slashes of the absolute path, which a VFS name cannot hold. */
  lemma ConflictNameAsWrittenHasSlash(pth: string, now: int)
    requires HasPrefix(pth, "/")
    ensures '/' in ConflictNameAsWritten(pth, now)
  {
    assert ConflictNameAsWritten(pth, now)[0] == '/';
  }

  /** The objects resolveConflictSamePath may rename. */
  function Found(found: Result<DirOrFile, Error>): set<object> {
    if found.Err? then {}
    else if found.value.Dir? then {found.value.dir}
    else {found.value.file}
  }

  function FoundID(entry: DirOrFile): string
    reads if entry.Dir? then entry.dir as object else entry.file
  {
    if entry.Dir? then entry.dir.docID else entry.file.docID
  }

  /**
    resolveConflictSamePath as written, with what fs.DirOrFileByPath found
    at pth, the current Unix time, and the result of the VFS update as
    inputs: when the local document wins, the name for the incoming one is
    returned; otherwise the local document is renamed and "" is returned.
  */
  method ResolveConflictSamePathAsWritten(found: Result<DirOrFile, Error>, id: string, pth: string, now: int,
                                          updateErr: Option<Error>) returns (name: string, err: Option<Error>)
    modifies Found(found)
    ensures found.Err? ==> name == "" && err == Some(found.error)
    ensures found.Ok? && LocalWins(old(FoundID(found.value)), id) ==>
      name == ConflictNameAsWritten(pth, now) && err == None
    ensures found.Ok? && !LocalWins(old(FoundID(found.value)), id) ==> name == "" && err == updateErr
    ensures found.Ok? && found.value.Dir? ==>
      var d := found.value.dir;
      && d.docID == old(d.docID) && d.dirID == old(d.dirID) && d.fullpath == old(d.fullpath)
      && d.referencedBy == old(d.referencedBy)
      && d.docName == (if LocalWins(d.docID, id) then old(d.docName) else ConflictNameAsWritten(pth, now))
    ensures found.Ok? && found.value.File? ==>
      var f := found.value.file;
      && f.docID == old(f.docID) && f.dirID == old(f.dirID) && f.trashed == old(f.trashed)
      && f.referencedBy == old(f.referencedBy)
      && f.docName == (if LocalWins(f.docID, id) then old(f.docName) else ConflictNameAsWritten(pth, now))
  {
    if found.Err? {
      return "", Some(found.error);
    }
    var newName := ConflictNameAsWritten(pth, now);
    match found.value {
      case Dir(d) =>
        if LocalWins(d.docID, id) {
          return newName, None;
        }
        d.docName := newName;
        return "", updateErr;
      case File(f) =>
        if LocalWins(f.docID, id) {
          return newName, None;
        }
        f.docName := newName;
        return "", updateErr;
    }
  }

  /**
    resolveConflictSamePath as corrected: the new name is made from the last
    element of the path. As in the code, a renamed directory keeps its full
    path.
  */
  method ResolveConflictSamePath(found: Result<DirOrFile, Error>, id: string, pth: string, now: int,
                                 updateErr: Option<Error>) returns (name: string, err: Option<Error>)
    modifies Found(found)
    ensures found.Err? ==> name == "" && err == Some(found.error)
    ensures found.Ok? && LocalWins(old(FoundID(found.value)), id) ==> name == ConflictName(pth, now) && err == None
    ensures found.Ok? && !LocalWins(old(FoundID(found.value)), id) ==> name == "" && err == updateErr
    ensures found.Ok? && found.value.Dir? ==>
      var d := found.value.dir;
      && d.docID == old(d.docID) && d.dirID == old(d.dirID) && d.fullpath == old(d.fullpath)
      && d.referencedBy == old(d.referencedBy)
      && d.docName == (if LocalWins(d.docID, id) then old(d.docName) else ConflictName(pth, now))
    ensures found.Ok? && found.value.File? ==>
      var f := found.value.file;
      && f.docID == old(f.docID) && f.dirID == old(f.dirID) && f.trashed == old(f.trashed)
      && f.referencedBy == old(f.referencedBy)
      && f.docName == (if LocalWins(f.docID, id) then old(f.docName) else ConflictName(pth, now))
  {
    if found.Err? {
      return "", Some(found.error);
    }
    var newName := ConflictName(pth, now);
    match found.value {
      case Dir(d) =>
        if LocalWins(d.docID, id) {
          return newName, None;
        }
        d.docName := newName;
        return "", updateErr;
      case File(f) =>
        if LocalWins(f.docID, id) {
          return newName, None;
        }
        f.docName := newName;
        return "", updateErr;
    }
  }

  // ---------------------------------------------------------------------
  // getDirDocFromNetwork

  /**
    What getDirDocFromNetwork indexes: on the owner, a member for each
    credential after the owner itself; on a recipient, the owner and its
    credentials.
  */
  predicate NetworkDefined(s: Sharing) {
    if s.owner then |s.members| >= |s.credentials| + 1 else |s.members| > 0 && |s.credentials| > 0
  }

  /** The owner's i-th attempt: the member after the owner with its credentials. */
  function Attempt<T>(ask: (nat, nat) -> Result<T, Error>, i: nat): Result<T, Error> {
    ask(i + 1, i)
  }

  /**
    getDirDocFromNetwork, with getDirDocFromInstance as the parameter ask
    (member index, credentials index): a recipient asks the owner; the owner
    asks its members in order and returns the first answer that succeeds,
    or ErrFolderNotFound when none does.
  */
  method GetDirDocFromNetwork<T>(s: Sharing, ask: (nat, nat) -> Result<T, Error>) returns (r: Result<T, Error>)
    requires NetworkDefined(s)
    ensures !s.owner ==> r == ask(0, 0)
    ensures s.owner ==> (r.Ok? <==> exists i: nat :: i < |s.credentials| && Attempt(ask, i).Ok?)
    ensures s.owner && r.Ok? ==>
      exists i: nat :: i < |s.credentials| && r == Attempt(ask, i) && forall j: nat :: j < i ==> Attempt(ask, j).Err?
    ensures s.owner && r.Err? ==> r == Err(FolderNotFound)
  {
    if !s.owner {
      return ask(0, 0);
    }
    for i := 0 to |s.credentials|
      invariant forall j: nat :: j < i ==> Attempt(ask, j).Err?
    {
      var doc := Attempt(ask, i);
      if doc.Ok? {
        return doc;
      }
    }
    return Err(FolderNotFound);
  }
}
