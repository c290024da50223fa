/**
  Documents as the sharing engine handles them: a CouchDB document decoded
  from JSON into Go's map[string]interface{}, plus the couchdb.DocReference
  record and the constants of the consts, couchdb and vfs packages that the
  engine compares against.
*/
module Json {

  /** couchdb.DocReference: a reference from a file to another document. */
  datatype DocReference = DocReference(docType: string, id: string)

  /**
    A value held in an interface{}: what encoding/json produces (null,
    booleans, numbers, strings, []interface{} and map[string]interface{}),
    plus a couchdb.DocReference stored directly by Go code, which decoding
    never produces.
  */
  datatype Json =
    | JNull
    | JBool(b: bool)
    | JNum(n: int)
    | JStr(s: string)
    | JArr(items: seq<Json>)
    | JObj(fields: map<string, Json>)
    | JRef(ref: DocReference)

  /** A document: map[string]interface{}. */
  type Doc = map<string, Json>

  /** doc[key] == value in Go, where a missing key reads as nil. */
  predicate FieldIs(d: Doc, key: string, value: Json) {
    key in d && d[key] == value
  }

  /** doc[key].(string) succeeds. */
  predicate HasString(d: Doc, key: string) {
    key in d && d[key].JStr?
  }

  /** doc[key] as Go reads it, nil for a missing key. */
  function Get(d: Doc, key: string): Json {
    if key in d then d[key] else JNull
  }

  /**
    Go's == on two interface values: false for different dynamic types, and
    a run-time panic when both hold slices or both hold maps.
  */
  predicate Comparable(a: Json, b: Json) {
    !(a.JArr? && b.JArr?) && !(a.JObj? && b.JObj?)
  }

  const FileType := "file"
  const DirType := "directory"
  const FilesDocType := "io.cozy.files"
  const SharedDocType := "io.cozy.shared"
  const SharingsDocType := "io.cozy.sharings"
  const SelectorReferencedBy := "referenced_by"
  const TrashDirName := "/.cozy_trash"

  /** An io.cozy.files document of type file. */
  predicate IsFileDoc(d: Doc) {
    FieldIs(d, "type", JStr(FileType))
  }

  /** An io.cozy.files document of type directory. */
  predicate IsDirDoc(d: Doc) {
    FieldIs(d, "type", JStr(DirType))
  }

  /** A map[string]interface{} that Go code updates in place: Go maps are references. */
  class DocMap {
    var fields: Doc

    constructor (m: Doc)
      ensures fields == m
    {
      fields := m;
    }
  }
}
