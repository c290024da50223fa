/**
  The io.cozy.shared registry (pkg/sharing/shared.go): one SharedRef per
  shared document records, for each sharing, which rule shares it and
  whether it was removed, plus the tree of its known revisions. This module
  holds the decisions that keep it up to date, with the database reads given
  as inputs and the database writes returned as values.
*/
module Registry {

  import opened Wrappers
  import opened Strings
  import opened Json
  import opened Sharings
  import opened RevsTrees

  /** How a sharing applies to a shared document. */
  datatype SharedInfo = SharedInfo(rule: int, removed: bool, binary: bool)

  /** A document of io.cozy.shared; sid is "doctype/id" of the shared document. */
  datatype SharedRef = SharedRef(sid: string, srev: string, revisions: RevsTree, infos: map<string, SharedInfo>)

  /** couchdb.JSONDoc: a document with its doctype. */
  datatype JsonDoc = JsonDoc(docType: string, m: Doc)

  /** JSONDoc.ID and JSONDoc.Rev: the string _id and _rev, or "" */
  function DocID(d: JsonDoc): string {
    if HasString(d.m, "_id") then d.m["_id"].s else ""
  }

  function DocRev(d: JsonDoc): string {
    if HasString(d.m, "_rev") then d.m["_rev"].s else ""
  }

  /** The job message of the share-track worker, the same for all the jobs of a trigger. */
  datatype TrackMessage = TrackMessage(sharingID: string, ruleIndex: int, docType: string)

  /** The event of one share-track job. */
  datatype TrackEvent = TrackEvent(verb: string, doc: JsonDoc, oldDoc: Option<JsonDoc>)

  /** What couchdb.GetDoc gave for the SharedRef of a document. */
  datatype Stored = Found(ref: SharedRef) | Missing | Failed(error: Error)

  // ---------------------------------------------------------------------
  // isTrashed (pkg/sharing/files.go)

  /** isTrashed reads the path of a directory as a string. */
  predicate TrashCheckable(doc: JsonDoc) {
    doc.docType == FilesDocType && !IsFileDoc(doc.m) ==> HasString(doc.m, "path")
  }

  /** isTrashed: a file with trashed set, or a directory below the trash directory. */
  predicate IsTrashed(doc: JsonDoc)
    requires TrashCheckable(doc)
  {
    if doc.docType != FilesDocType then false
    else if IsFileDoc(doc.m) then FieldIs(doc.m, "trashed", JBool(true))
    else HasPrefix(doc.m["path"].s, TrashDirName + "/")
  }

  /** The trash itself is not trashed, and the prefix test respects path segments. */
  lemma IsTrashedExamples()
    ensures !IsTrashed(JsonDoc(FilesDocType, map["type" := JStr(DirType), "path" := JStr("/.cozy_trash")]))
    ensures IsTrashed(JsonDoc(FilesDocType, map["type" := JStr(DirType), "path" := JStr("/.cozy_trash/a")]))
    ensures !IsTrashed(JsonDoc(FilesDocType, map["type" := JStr(DirType), "path" := JStr("/.cozy_trashed/a")]))
  {
    assert "/.cozy_trash/a"[..|TrashDirName + "/"|] == TrashDirName + "/";
    assert "/.cozy_trashed/a"[..|TrashDirName + "/"|] != TrashDirName + "/" by {
      assert "/.cozy_trashed/a"[12] == 'e';
    }
  }

  // ---------------------------------------------------------------------
  // Path containment

  /** The test of isNoLongerShared: docPath + "/" starts with root + "/". */
  predicate InsideDir(docPath: string, root: string) {
    HasPrefix(docPath + "/", root + "/")
  }

  /** The test respects path segments: the root itself or something below it, never a sibling that shares the prefix. */
  lemma InsideDirSegments(docPath: string, root: string)
    ensures InsideDir(docPath, root) <==> docPath == root || HasPrefix(docPath, root + "/")
  {
    var r := root + "/";
    var p := docPath + "/";
    if InsideDir(docPath, root) {
      assert p[..|r|] == r;
      assert p[..|root|] == r[..|root|];
      assert docPath[..|root|] == root;
      if |docPath| > |root| {
        assert docPath[..|r|] == p[..|r|];
      }
    }
    if HasPrefix(docPath, r) {
      assert p[..|r|] == docPath[..|r|];
    }
    if docPath == root {
      assert p == r;
    }
  }

  /**
    isTrashed on every document: never outside io.cozy.files, the trashed
    flag of a file, and for a directory a path strictly below the trash.
  */
  lemma IsTrashedCases(doc: JsonDoc)
    requires TrashCheckable(doc)
    ensures doc.docType != FilesDocType ==> !IsTrashed(doc)
    ensures doc.docType == FilesDocType && IsFileDoc(doc.m) ==>
      (IsTrashed(doc) <==> FieldIs(doc.m, "trashed", JBool(true)))
    ensures doc.docType == FilesDocType && !IsFileDoc(doc.m) ==>
      (IsTrashed(doc) <==> InsideDir(doc.m["path"].s, TrashDirName) && doc.m["path"].s != TrashDirName)
  {
    if doc.docType == FilesDocType && !IsFileDoc(doc.m) {
      InsideDirSegments(doc.m["path"].s, TrashDirName);
    }
  }

  // ---------------------------------------------------------------------
  // extractReferencedBy

  function EntriesOf(doc: Doc): seq<Json> {
    if SelectorReferencedBy in doc && doc[SelectorReferencedBy].JArr? then doc[SelectorReferencedBy].items else []
  }

  const NoReference := DocReference("", "")

  /**
    extractReferencedBy as written: an entry counts only if it holds a
    couchdb.DocReference, and any other entry becomes the empty reference.
  */
  function ExtractReferencedByAsWritten(doc: Doc): (refs: seq<DocReference>)
    ensures |refs| == |EntriesOf(doc)|
  {
    var items := EntriesOf(doc);
    seq(|items|, i requires 0 <= i < |items| => if items[i].JRef? then items[i].ref else NoReference)
  }

  /** A reference as encoding/json writes it: an object with the string fields type and id. */
  function EncodeReference(r: DocReference): Json {
    JObj(map["type" := JStr(r.docType), "id" := JStr(r.id)])
  }

  /** One entry read back as a reference: a decoded object as well as a DocReference value. */
  function DecodeReference(x: Json): DocReference {
    match x
    case JRef(r) => r
    case JObj(f) =>
      DocReference(if HasString(f, "type") then f["type"].s else "", if HasString(f, "id") then f["id"].s else "")
    case _ => NoReference
  }

  /** extractReferencedBy as corrected: decoded objects give their type and id. */
  function ExtractReferencedBy(doc: Doc): (refs: seq<DocReference>)
    ensures |refs| == |EntriesOf(doc)|
  {
    var items := EntriesOf(doc);
    seq(|items|, i requires 0 <= i < |items| => DecodeReference(items[i]))
  }

  function ReferencesDoc(refs: seq<DocReference>): Doc {
    map[SelectorReferencedBy := JArr(seq(|refs|, i requires 0 <= i < |refs| => EncodeReference(refs[i])))]
  }

  /**
    On a document decoded from JSON, the corrected extraction gives back the
    references, while extraction as written gives only empty references.
  */
  lemma ExtractReferencedByOfJson(refs: seq<DocReference>)
    ensures ExtractReferencedBy(ReferencesDoc(refs)) == refs
    ensures ExtractReferencedByAsWritten(ReferencesDoc(refs)) == seq(|refs|, i => NoReference)
  {
  }

  /** vfs.SameReferences: as many references, each of the first list in the second. */
  predicate SameReferences(a: seq<DocReference>, b: seq<DocReference>) {
    |a| == |b| && forall i :: 0 <= i < |a| ==> a[i] in b
  }

  // ---------------------------------------------------------------------
  // isNoLongerShared

  /** The directory with this id, as a full path: a stand-in for fs.DirByID. */
  function DirPath(dirs: map<string, string>, id: string): Result<string, Error> {
    if id in dirs then Ok(dirs[id]) else Err(NotFound)
  }

  /** isNoLongerShared goes past its shortcuts: a file whose dir_id or references changed. */
  predicate Changed(msg: TrackMessage, evt: TrackEvent, extract: Doc -> seq<DocReference>) {
    && msg.docType == FilesDocType
    && evt.oldDoc.Some?
    && !(Get(evt.oldDoc.value.m, "dir_id") == Get(evt.doc.m, "dir_id")
         && SameReferences(extract(evt.oldDoc.value.m), extract(evt.doc.m)))
  }

  /**
    What isNoLongerShared needs to run without a panic: comparable dir_id
    values, and once past the shortcuts, a rule index in range and, for a
    rule on a directory, a value once the path of the document is known.
  */
  predicate NoLongerSharedDefined(msg: TrackMessage, evt: TrackEvent, sharing: Result<Sharing, Error>,
                                  dirs: map<string, string>, extract: Doc -> seq<DocReference>) {
    && (msg.docType == FilesDocType && evt.oldDoc.Some? ==>
          Comparable(Get(evt.oldDoc.value.m, "dir_id"), Get(evt.doc.m, "dir_id")))
    && (Changed(msg, evt, extract) && sharing.Ok? ==>
          && 0 <= msg.ruleIndex < |sharing.value.rules|
          && (sharing.value.rules[msg.ruleIndex].selector != SelectorReferencedBy && DocPath(evt.doc.m, dirs).Ok? ==>
                |sharing.value.rules[msg.ruleIndex].values| > 0))
  }

  /** The path isNoLongerShared checks: the parent's for a file, its own for a directory. */
  function DocPath(doc: Doc, dirs: map<string, string>): Result<string, Error> {
    if IsFileDoc(doc) then
      if HasString(doc, "dir_id") then DirPath(dirs, doc["dir_id"].s) else Err(InternalServerError)
    else if HasString(doc, "path") then Ok(doc["path"].s)
    else Err(InternalServerError)
  }

  /**
    isNoLongerShared, with the sharing as FindSharing returns it and the
    directories of the VFS as inputs, and with the extraction of references
    as a parameter. A document that is not a file or directory, has no old
    version, or kept its dir_id and references is still shared. For a
    referenced_by rule, it is no longer shared when none of its references
    match the rule; otherwise when its path is not inside the shared
    directory.
  */
  function NoLongerShared(msg: TrackMessage, evt: TrackEvent, sharing: Result<Sharing, Error>,
                          dirs: map<string, string>, extract: Doc -> seq<DocReference>): (r: Result<bool, Error>)
    requires NoLongerSharedDefined(msg, evt, sharing, dirs, extract)
    ensures !Changed(msg, evt, extract) ==> r == Ok(false)
    ensures Changed(msg, evt, extract) && sharing.Err? ==> r == Err(sharing.error)
    ensures (Changed(msg, evt, extract) && sharing.Ok? &&
             sharing.value.rules[msg.ruleIndex].selector == SelectorReferencedBy) ==>
        && r.Ok?
        && (r.value <==> forall ref :: ref in extract(evt.doc.m) ==> !HasReferencedBy(sharing.value.rules[msg.ruleIndex], ref))
    ensures (Changed(msg, evt, extract) && sharing.Ok? &&
             sharing.value.rules[msg.ruleIndex].selector != SelectorReferencedBy) ==>
        var path := DocPath(evt.doc.m, dirs);
        && (path.Err? ==> r == Err(path.error))
        && (path.Ok? ==>
              var root := DirPath(dirs, sharing.value.rules[msg.ruleIndex].values[0]);
              && (root.Err? ==> r == Err(root.error))
              && (root.Ok? ==> r == Ok(!InsideDir(path.value, root.value))))
  {
    if msg.docType != FilesDocType then Ok(false)
    else if evt.oldDoc.None? then Ok(false)
    else if Get(evt.oldDoc.value.m, "dir_id") == Get(evt.doc.m, "dir_id")
            && SameReferences(extract(evt.oldDoc.value.m), extract(evt.doc.m)) then Ok(false)
    else
      match sharing
      case Err(e) => Err(e)
      case Ok(s) =>
        var rule := s.rules[msg.ruleIndex];
        if rule.selector == SelectorReferencedBy then
          var refs := extract(evt.doc.m);
          Ok(!exists i :: 0 <= i < |refs| && HasReferencedBy(rule, refs[i]))
        else
          match DocPath(evt.doc.m, dirs)
          case Err(e) => Err(e)
          case Ok(docPath) =>
            match DirPath(dirs, rule.values[0])
            case Err(e) => Err(e)
            case Ok(root) => Ok(!InsideDir(docPath, root))
  }

  /** The example of the discrepancy: a rule sharing the files of one album, and a file added to it. */
  const Album := DocReference("io.cozy.photos.albums", "123")
  const AlbumRule := Rule("album", FilesDocType, SelectorReferencedBy, ["io.cozy.photos.albums/123"])
  const AlbumSharing := Sharing("s1", true, [AlbumRule], [], [])
  const AlbumMessage := TrackMessage("s1", 0, FilesDocType)
  const FileBefore := JsonDoc(FilesDocType, map["type" := JStr(FileType), "dir_id" := JStr("d")])
  const FileAdded := TrackEvent("UPDATED",
    JsonDoc(FilesDocType, FileBefore.m[SelectorReferencedBy := JArr([EncodeReference(Album)])]), Some(FileBefore))

  lemma AlbumRuleSharesAlbum()
    ensures HasReferencedBy(AlbumRule, Album) && !HasReferencedBy(AlbumRule, NoReference)
  {
    assert Album.docType + "/" + Album.id == "io.cozy.photos.albums/123";
    assert NoReference.docType + "/" + NoReference.id == "/";
  }

  /**
    The discrepancy of extractReferencedBy: a file decoded from JSON that is
    added to the album a referenced_by rule shares is found "no longer
    shared" with the extraction as written.
  */
  lemma NoLongerSharedAsWrittenExample()
    ensures NoLongerShared(AlbumMessage, FileAdded, Ok(AlbumSharing), map[], ExtractReferencedByAsWritten) == Ok(true)
  {
    assert Get(FileBefore.m, "dir_id") == Get(FileAdded.doc.m, "dir_id");
    assert EntriesOf(FileBefore.m) == [];
    assert ExtractReferencedByAsWritten(FileAdded.doc.m) == [NoReference];
    assert Changed(AlbumMessage, FileAdded, ExtractReferencedByAsWritten);
    AlbumRuleSharesAlbum();
  }

  /** With the corrected extraction, the same file is still shared. */
  lemma NoLongerSharedCorrectedExample()
    ensures NoLongerShared(AlbumMessage, FileAdded, Ok(AlbumSharing), map[], ExtractReferencedBy) == Ok(false)
  {
    assert Get(FileBefore.m, "dir_id") == Get(FileAdded.doc.m, "dir_id");
    assert EntriesOf(FileBefore.m) == [];
    assert ExtractReferencedBy(FileAdded.doc.m) == [Album] by {
      assert EntriesOf(FileAdded.doc.m) == [EncodeReference(Album)];
      assert DecodeReference(EncodeReference(Album)) == Album;
    }
    assert Changed(AlbumMessage, FileAdded, ExtractReferencedBy);
    AlbumRuleSharesAlbum();
  }

  // ---------------------------------------------------------------------
  // UpdateShared

  /** The database write UpdateShared ends with. */
  datatype RefWrite = CreateRef(ref: SharedRef) | UpdateRef(ref: SharedRef)

  function InfosBefore(stored: Stored): map<string, SharedInfo> {
    if stored.Found? then stored.ref.infos else map[]
  }

  /** The event removes the document from the sharing outright: a deletion or a move to the trash. */
  predicate Removing(msg: TrackMessage, evt: TrackEvent)
    requires evt.verb != "DELETED" ==> TrashCheckable(JsonDoc(msg.docType, evt.doc.m))
  {
    evt.verb == "DELETED" || IsTrashed(JsonDoc(msg.docType, evt.doc.m))
  }

  /** The event with the doctype of the message, as UpdateShared passes it on. */
  function Typed(msg: TrackMessage, evt: TrackEvent): TrackEvent {
    TrackEvent(evt.verb, JsonDoc(msg.docType, evt.doc.m), evt.oldDoc)
  }

  /**
    UpdateShared, given what the database holds for the document and what
    isNoLongerShared reads, returns the SharedRef to write. The entry of the
    sharing is created on first sight with the rule of the message and
    binary for files; a deletion, a move to the trash or leaving the sharing
    marks it removed (never binary) with its rule kept; no event clears the
    removed flag; the entries of the other sharings are untouched. The
    revision is the root of a new tree for a new SharedRef, and otherwise
    is inserted after the revision of the old document ("" without one).
    The extraction of references isNoLongerShared uses is a parameter:
    ExtractReferencedByAsWritten gives the code as written.
  */
  method UpdateShared(msg: TrackMessage, evt: TrackEvent, stored: Stored, sharing: Result<Sharing, Error>,
                      dirs: map<string, string>, extract: Doc -> seq<DocReference>) returns (r: Result<RefWrite, Error>)
    requires evt.verb != "DELETED" ==> TrashCheckable(JsonDoc(msg.docType, evt.doc.m))
    requires !Removing(msg, evt) ==> NoLongerSharedDefined(msg, Typed(msg, evt), sharing, dirs, extract)
    ensures stored.Failed? ==> r == Err(stored.error)
    ensures (!stored.Failed? && !Removing(msg, evt) &&
             NoLongerShared(msg, Typed(msg, evt), sharing, dirs, extract).Err?) ==>
        r == Err(NoLongerShared(msg, Typed(msg, evt), sharing, dirs, extract).error)
    ensures r.Err? ==>
      (stored.Failed? || (!Removing(msg, evt) && NoLongerShared(msg, Typed(msg, evt), sharing, dirs, extract).Err?))
    ensures r.Ok? ==>
      var before := InfosBefore(stored);
      var after := r.value.ref.infos;
      var id := msg.sharingID;
      var leaving := !Removing(msg, evt) && NoLongerShared(msg, Typed(msg, evt), sharing, dirs, extract) == Ok(true);
      && id in after
      && (forall k :: k != id ==> (k in after <==> k in before) && (k in after ==> after[k] == before[k]))
      && after[id].rule == (if id in before then before[id].rule else msg.ruleIndex)
      && (Removing(msg, evt) || leaving ==> after[id].removed && !after[id].binary)
      && (!Removing(msg, evt) && !leaving && id !in before ==>
            after[id] == SharedInfo(msg.ruleIndex, false, msg.docType == FilesDocType && IsFileDoc(evt.doc.m)))
      && (!Removing(msg, evt) && !leaving && id in before ==> after[id] == before[id])
      && (id in before && before[id].removed ==> after[id].removed)
    ensures r.Ok? ==> (r.value.CreateRef? <==> !stored.Found? || stored.ref.srev == "")
    ensures r.Ok? && r.value.CreateRef? ==>
      && r.value.ref.revisions == Leaf(DocRev(evt.doc))
      && r.value.ref.sid == (if stored.Found? then stored.ref.sid else msg.docType + "/" + DocID(evt.doc))
    ensures r.Ok? && r.value.UpdateRef? ==>
      && stored.Found?
      && r.value.ref.sid == stored.ref.sid && r.value.ref.srev == stored.ref.srev
      && r.value.ref.revisions ==
           InsertedAfter(stored.ref.revisions, DocRev(evt.doc), if evt.oldDoc.Some? then DocRev(evt.oldDoc.value) else "")
  {
    var doc := JsonDoc(msg.docType, evt.doc.m);
    var sid := doc.docType + "/" + DocID(doc);
    var ref: SharedRef;
    match stored {
      case Failed(e) =>
        return Err(e);
      case Missing =>
        ref := SharedRef(sid, "", Leaf(""), map[]);
      case Found(found) =>
        ref := found;
    }
    var infos := ref.infos;
    if msg.sharingID !in infos {
      infos := infos[msg.sharingID := SharedInfo(msg.ruleIndex, false, doc.docType == FilesDocType && IsFileDoc(doc.m))];
    }
    if evt.verb == "DELETED" || IsTrashed(doc) {
      infos := infos[msg.sharingID := SharedInfo(infos[msg.sharingID].rule, true, false)];
    } else {
      var removed := NoLongerShared(msg, TrackEvent(evt.verb, doc, evt.oldDoc), sharing, dirs, extract);
      if removed.Err? {
        return Err(removed.error);
      }
      if removed.value {
        infos := infos[msg.sharingID := SharedInfo(infos[msg.sharingID].rule, true, false)];
      }
    }
    var rev := DocRev(doc);
    if ref.srev == "" {
      return Ok(CreateRef(SharedRef(ref.sid, ref.srev, Leaf(rev), infos)));
    }
    var oldrev := "";
    if evt.oldDoc.Some? {
      oldrev := DocRev(evt.oldDoc.value);
    }
    var tree := InsertAfter(ref.revisions, rev, oldrev);
    return Ok(UpdateRef(SharedRef(ref.sid, ref.srev, tree, infos)));
  }

  /**
    The discrepancy of extractReferencedBy, as UpdateShared records it: with
    the extraction as written, the file added to the shared album gets its
    entry marked removed.
  */
  method UpdateSharedAlbumAsWritten() returns (r: Result<RefWrite, Error>)
    ensures r.Ok? && AlbumMessage.sharingID in r.value.ref.infos
    ensures r.value.ref.infos[AlbumMessage.sharingID].removed
  {
    NoLongerSharedAsWrittenExample();
    assert Typed(AlbumMessage, FileAdded) == FileAdded;
    r := UpdateShared(AlbumMessage, FileAdded, Missing, Ok(AlbumSharing), map[], ExtractReferencedByAsWritten);
  }

  /** With the corrected extraction, the entry of the same file stays shared. */
  method UpdateSharedAlbum() returns (r: Result<RefWrite, Error>)
    ensures r.Ok? && AlbumMessage.sharingID in r.value.ref.infos
    ensures !r.value.ref.infos[AlbumMessage.sharingID].removed
  {
    NoLongerSharedCorrectedExample();
    assert Typed(AlbumMessage, FileAdded) == FileAdded;
    r := UpdateShared(AlbumMessage, FileAdded, Missing, Ok(AlbumSharing), map[], ExtractReferencedBy);
  }

  // ---------------------------------------------------------------------
  // extractDocReferenceFromID

  /** extractDocReferenceFromID: "doctype/id" split at its first slash, None without one. */
  function ExtractDocReferenceFromID(id: string): (r: Option<DocReference>)
    ensures r.Some? <==> '/' in id
    ensures r.Some? ==> r.value.docType + "/" + r.value.id == id && '/' !in r.value.docType
  {
    var parts := SplitFirst(id, '/');
    if |parts| != 2 then None else Some(DocReference(parts[0], parts[1]))
  }

  /** The identifier of a SharedRef gives back the reference it was built from. */
  lemma ExtractDocReferenceRoundTrip(ref: DocReference)
    requires '/' !in ref.docType
    ensures ExtractDocReferenceFromID(ref.docType + "/" + ref.id) == Some(ref)
  {
    var id := ref.docType + "/" + ref.id;
    var parts := SplitFirst(id, '/');
    assert id[|ref.docType|] == '/';
    assert forall j :: 0 <= j < |ref.docType| ==> id[j] == ref.docType[j];
    assert FirstIndex(id, '/') == |ref.docType|;
    assert id[..|ref.docType|] == ref.docType;
    assert id[|ref.docType| + 1..] == ref.id;
  }

  // ---------------------------------------------------------------------
  // RemoveSharedRefs

  /** The database write for one row of RemoveSharedRefs. */
  datatype RowWrite = UpdateRow(ref: SharedRef) | DeleteRow(ref: SharedRef)

  /** A SharedRef of several sharings loses the entry of this one; the last one is deleted. */
  function RowAction(doc: SharedRef, sharingID: string): (w: RowWrite)
    ensures w.UpdateRow? <==> |doc.infos| > 1
    ensures w.DeleteRow? ==> w.ref == doc
    ensures w.UpdateRow? ==> w.ref.sid == doc.sid && w.ref.srev == doc.srev && w.ref.revisions == doc.revisions
  {
    if |doc.infos| > 1 then UpdateRow(doc.(infos := doc.infos - {sharingID})) else DeleteRow(doc)
  }

  /**
    For a row of the view (a SharedRef that lists the sharing), an updated
    SharedRef no longer lists the sharing, keeps the other sharings, and still
    lists at least one.
  */
  lemma RowActionForgetsSharing(doc: SharedRef, sharingID: string)
    requires sharingID in doc.infos
    ensures var w := RowAction(doc, sharingID);
      w.UpdateRow? ==>
        && sharingID !in w.ref.infos
        && (forall k :: k in doc.infos && k != sharingID ==> k in w.ref.infos && w.ref.infos[k] == doc.infos[k])
        && |w.ref.infos| == |doc.infos| - 1 > 0
  {
  }

  /** The rows before the first whose write fails. */
  function Attempted(n: nat, failing: set<nat>): (k: nat)
    ensures k <= n
    ensures forall i :: 0 <= i < k ==> i !in failing
    ensures k < n ==> k in failing
  {
    if n == 0 then 0
    else
      var k := Attempted(n - 1, failing);
      if k < n - 1 then k else if n - 1 in failing then n - 1 else n
  }

  /**
    RemoveSharedRefs over the rows of the view for the sharing, with the
    rows whose write the database refuses, and its error, given as input:
    the writes are issued in row order and the first refusal stops the loop
    with its error.
  */
  method RemoveSharedRefs(rows: seq<SharedRef>, sharingID: string, failures: map<nat, Error>)
    returns (writes: seq<RowWrite>, err: Option<Error>)
    ensures var k := Attempted(|rows|, failures.Keys);
      && |writes| == (if k < |rows| then k + 1 else |rows|)
      && (forall i :: 0 <= i < |writes| ==> writes[i] == RowAction(rows[i], sharingID))
      && (err.Some? <==> k < |rows|)
      && (err.Some? ==> err.value == failures[k])
    ensures err.Some? <==> exists i :: 0 <= i < |rows| && i in failures
  {
    writes := [];
    var n := 0;
    while n < |rows|
      invariant 0 <= n <= |rows|
      invariant Attempted(n, failures.Keys) == n
      invariant |writes| == n
      invariant forall i :: 0 <= i < n ==> writes[i] == RowAction(rows[i], sharingID)
    {
      var doc := rows[n];
      var w: RowWrite;
      if |doc.infos| > 1 {
        w := UpdateRow(doc.(infos := doc.infos - {sharingID}));
      } else {
        w := DeleteRow(doc);
      }
      writes := writes + [w];
      if n in failures {
        assert Attempted(n + 1, failures.Keys) == n;
        AttemptedStops(n + 1, |rows|, failures.Keys);
        return writes, Some(failures[n]);
      }
      n := n + 1;
    }
    return writes, None;
  }

  lemma {:induction false} AttemptedStops(m: nat, n: nat, failing: set<nat>)
    requires m <= n && Attempted(m, failing) < m
    ensures Attempted(n, failing) == Attempted(m, failing)
    decreases n - m
  {
    if m < n {
      AttemptedStops(m + 1, n, failing);
    }
  }

  // ---------------------------------------------------------------------
  // GetSharedDocsBySharingIDs

  /** A row of the view of the SharedRefs by sharing id. */
  datatype ViewRow = ViewRow(key: string, doc: SharedRef)

  /** The row is not filtered out: a missing entry reads as the zero SharedInfo, which is not removed. */
  predicate Listed(row: ViewRow) {
    !(row.key in row.doc.infos && row.doc.infos[row.key].removed)
  }

  /** Every listed row has a "doctype/id" identifier, which the code dereferences. */
  predicate RowsWellFormed(rows: seq<ViewRow>) {
    forall i :: 0 <= i < |rows| && Listed(rows[i]) ==> '/' in rows[i].doc.sid
  }

  /** What one row contributes: the reference of its identifier, unless it is filtered out. */
  function RowDocs(row: ViewRow): seq<DocReference> {
    match ExtractDocReferenceFromID(row.doc.sid)
    case Some(r) => if Listed(row) then [r] else []
    case None => []
  }

  /** The references GetSharedDocsBySharingIDs lists for sharing k, in row order. */
  function DocsOf(rows: seq<ViewRow>, k: string): seq<DocReference>
    decreases |rows|
  {
    if |rows| == 0 then []
    else DocsOf(rows[..|rows| - 1], k) + (if rows[|rows| - 1].key == k then RowDocs(rows[|rows| - 1]) else [])
  }

  /** The row lists reference x for sharing k. */
  predicate ListsAs(row: ViewRow, k: string, x: DocReference) {
    row.key == k && Listed(row) && ExtractDocReferenceFromID(row.doc.sid) == Some(x)
  }

  /** A reference is listed for sharing k exactly when a listed row of k has it as identifier. */
  lemma {:induction false} DocsOfMembers(rows: seq<ViewRow>, k: string)
    ensures forall x :: x in DocsOf(rows, k) <==> exists i :: 0 <= i < |rows| && ListsAs(rows[i], k, x)
    decreases |rows|
  {
    if |rows| > 0 {
      var init := rows[..|rows| - 1];
      assert forall i :: 0 <= i < |init| ==> init[i] == rows[i];
      DocsOfMembers(init, k);
    }
  }

  /** The result of GetSharedDocsBySharingIDs, built row by row. */
  function SharedDocs(rows: seq<ViewRow>): map<string, seq<DocReference>>
    decreases |rows|
  {
    if |rows| == 0 then map[]
    else
      var last := rows[|rows| - 1];
      var m := SharedDocs(rows[..|rows| - 1]);
      if RowDocs(last) != [] then
        m[last.key := (if last.key in m then m[last.key] else []) + RowDocs(last)]
      else m
  }

  /**
    The sharings in the result are exactly those with a listed reference,
    and each maps to its references in row order.
  */
  lemma {:induction false} SharedDocsByKey(rows: seq<ViewRow>)
    ensures forall k :: k in SharedDocs(rows) <==> DocsOf(rows, k) != []
    ensures forall k :: k in SharedDocs(rows) ==> SharedDocs(rows)[k] == DocsOf(rows, k)
    decreases |rows|
  {
    if |rows| > 0 {
      SharedDocsByKey(rows[..|rows| - 1]);
    }
  }

  /** GetSharedDocsBySharingIDs over the rows of the view. */
  method GetSharedDocsBySharingIDs(rows: seq<ViewRow>) returns (result: map<string, seq<DocReference>>)
    requires RowsWellFormed(rows)
    ensures result == SharedDocs(rows)
  {
    result := map[];
    for n := 0 to |rows|
      invariant result == SharedDocs(rows[..n])
    {
      var row := rows[n];
      assert rows[..n + 1][..n] == rows[..n];
      if Listed(row) {
        var docRef := ExtractDocReferenceFromID(row.doc.sid).value;
        var current := if row.key in result then result[row.key] else [];
        result := result[row.key := current + [docRef]];
      }
    }
    assert rows[..|rows|] == rows;
  }

  // ---------------------------------------------------------------------
  // GetSharingsByDocType

  /** A row of the view of the sharings by doctype: the sharing id and the sharing. */
  datatype SharingRow = SharingRow(sid: string, doc: Sharing)

  /**
    GetSharingsByDocType over the rows of the view: each sharing id maps to
    the sharing of its first row, later rows of the same sharing (other
    rules on the doctype) being ignored.
  */
  method GetSharingsByDocType(rows: seq<SharingRow>) returns (sharings: map<string, Sharing>)
    ensures forall k :: k in sharings <==> exists i :: 0 <= i < |rows| && rows[i].sid == k
    ensures forall k :: k in sharings ==>
      exists i :: 0 <= i < |rows| && rows[i].sid == k && sharings[k] == rows[i].doc &&
        forall j :: 0 <= j < i ==> rows[j].sid != k
  {
    sharings := map[];
    for n := 0 to |rows|
      invariant forall k :: k in sharings <==> exists i :: 0 <= i < n && rows[i].sid == k
      invariant forall k :: k in sharings ==>
        exists i :: 0 <= i < n && rows[i].sid == k && sharings[k] == rows[i].doc &&
          forall j :: 0 <= j < i ==> rows[j].sid != k
    {
      if rows[n].sid !in sharings {
        sharings := sharings[rows[n].sid := rows[n].doc];
      }
    }
  }
}
