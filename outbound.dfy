/**
  What the sharing engine does to io.cozy.files documents before sending
  them in a bulk to another instance (SortFilesToSent and
  TransformFileToSent of pkg/sharing/files.go).
*/
module Outbound {

  import opened Json
  import opened Sharings
  import opened Strings
  import opened Obfuscation

  // ---------------------------------------------------------------------
  // SortFilesToSent

  predicate IsDeleted(d: Doc) {
    FieldIs(d, "_deleted", JBool(true))
  }

  /**
    The comparator of SortFilesToSent: a file is never before anything,
    everything else is before a file; then a deleted entry is before
    anything, an entry without a path before anything; then the entry with
    fewer slashes in its path is first.
  */
  function Less(a: Doc, b: Doc): (r: bool)
    ensures IsFileDoc(a) ==> !r
    ensures !IsFileDoc(a) && IsFileDoc(b) ==> r
  {
    if IsFileDoc(a) then false
    else if IsFileDoc(b) then true
    else if IsDeleted(a) then true
    else if IsDeleted(b) then false
    else if !HasString(a, "path") then true
    else if !HasString(b, "path") then false
    else CountChar(a["path"].s, '/') < CountChar(b["path"].s, '/')
  }

  /**
    The comparator is not a strict weak order: a deleted directory is before
    itself, and two distinct deleted directories are each before the other.
  */
  lemma LessIsNotStrict()
    ensures var d1 := map["type" := JStr(DirType), "_deleted" := JBool(true), "_id" := JStr("1")];
      var d2 := map["type" := JStr(DirType), "_deleted" := JBool(true), "_id" := JStr("2")];
      Less(d1, d1) && Less(d1, d2) && Less(d2, d1)
  {
  }

  /** Entries with a path and no deletion flag are where the comparator is a strict order. */
  predicate Orderable(d: Doc) {
    !IsDeleted(d) && (IsFileDoc(d) || HasString(d, "path"))
  }

  /** On orderable entries the comparator is irreflexive and transitive. */
  lemma LessStrictOnOrderable(a: Doc, b: Doc, c: Doc)
    requires Orderable(a) && Orderable(b) && Orderable(c)
    ensures !Less(a, a)
    ensures Less(a, b) && Less(b, c) ==> Less(a, c)
  {
  }

  /** No file comes before an entry that is not a file. */
  ghost predicate FilesLast(s: seq<Doc>) {
    forall p, q :: 0 <= p < q < |s| && IsFileDoc(s[p]) ==> IsFileDoc(s[q])
  }

  /** The files of a list, in order. */
  function FilesOf(s: seq<Doc>): seq<Doc> {
    if |s| == 0 then [] else (if IsFileDoc(s[0]) then [s[0]] else []) + FilesOf(s[1..])
  }

  lemma {:induction false} FilesOfAppend(a: seq<Doc>, b: seq<Doc>)
    ensures FilesOf(a + b) == FilesOf(a) + FilesOf(b)
  {
    if |a| > 0 {
      assert (a + b)[0] == a[0] && (a + b)[1..] == a[1..] + b;
      FilesOfAppend(a[1..], b);
    } else {
      assert a + b == b;
    }
  }

  /** Swapping an entry that is not a file with its left neighbour keeps the files in order. */
  lemma SwapKeepsFiles(s: seq<Doc>, k: nat)
    requires k + 1 < |s| && !IsFileDoc(s[k + 1])
    ensures FilesOf(s[k := s[k + 1]][k + 1 := s[k]]) == FilesOf(s)
  {
    var t := s[k := s[k + 1]][k + 1 := s[k]];
    assert s == s[..k] + [s[k], s[k + 1]] + s[k + 2..];
    assert t == s[..k] + [s[k + 1], s[k]] + s[k + 2..];
    FilesOfAppend(s[..k] + [s[k], s[k + 1]], s[k + 2..]);
    FilesOfAppend(s[..k], [s[k], s[k + 1]]);
    FilesOfAppend(s[..k] + [s[k + 1], s[k]], s[k + 2..]);
    FilesOfAppend(s[..k], [s[k + 1], s[k]]);
    assert [s[k], s[k + 1]][1..] == [s[k + 1]] && [s[k + 1], s[k]][1..] == [s[k]];
    assert [s[k + 1]][1..] == [] && [s[k]][1..] == [];
  }

  /**
    SortFilesToSent, as the stable insertion sort sort.SliceStable amounts
    to: the result is a permutation of the input, no file is before an entry
    that is not one, and the files keep their relative order.
  */
  method SortFilesToSent(files: array<Doc>)
    modifies files
    ensures multiset(files[..]) == multiset(old(files[..]))
    ensures FilesLast(files[..])
    ensures FilesOf(files[..]) == FilesOf(old(files[..]))
  {
    if files.Length == 0 {
      return;
    }
    var i := 1;
    while i < files.Length
      invariant 1 <= i <= files.Length
      invariant multiset(files[..]) == multiset(old(files[..]))
      invariant files[i..] == old(files[i..])
      invariant FilesLast(files[..i])
      invariant FilesOf(files[..i]) == FilesOf(old(files[..i]))
    {
      ghost var before := files[..];
      InsertLast(files, i);
      assert files[..i + 1] == files[..i + 1];
      FilesOfAppend(before[..i], [before[i]]);
      assert before[..i + 1] == before[..i] + [before[i]];
      assert old(files[..i + 1]) == old(files[..i]) + [old(files[..])[i]];
      FilesOfAppend(old(files[..i]), [old(files[..])[i]]);
      i := i + 1;
    }
    assert files[..files.Length] == files[..];
    assert old(files[..files.Length]) == old(files[..]);
  }

  /** FilesLast for s[..i + 1], except for the entry at j that is moving left. */
  ghost predicate FilesLastExcept(s: seq<Doc>, i: nat, j: nat)
    requires i < |s|
  {
    forall p, q :: 0 <= p < q <= i && p != j && q != j && IsFileDoc(s[p]) ==> IsFileDoc(s[q])
  }

  /** Moving the entry at j one step left keeps the other entries as they were. */
  lemma SwapKeepsFilesLastExcept(s: seq<Doc>, i: nat, j: nat)
    requires 0 < j <= i < |s| && FilesLastExcept(s, i, j)
    ensures FilesLastExcept(s[j - 1 := s[j]][j := s[j - 1]], i, j - 1)
  {
  }

  /** Where the moving entry stops, the whole prefix is in order. */
  lemma StopKeepsFilesLast(s: seq<Doc>, i: nat, j: nat)
    requires j <= i < |s| && FilesLastExcept(s, i, j)
    requires IsFileDoc(s[j]) ==> j == i
    requires j > 0 && !IsFileDoc(s[j]) ==> !IsFileDoc(s[j - 1])
    ensures FilesLast(s[..i + 1])
  {
  }

  lemma SwapKeepsFilesInPrefix(s: seq<Doc>, i: nat, j: nat)
    requires 0 < j <= i < |s| && !IsFileDoc(s[j])
    ensures FilesOf(s[j - 1 := s[j]][j := s[j - 1]][..i + 1]) == FilesOf(s[..i + 1])
  {
    SwapKeepsFiles(s[..i + 1], j - 1);
    assert s[j - 1 := s[j]][j := s[j - 1]][..i + 1] == s[..i + 1][j - 1 := s[j]][j := s[j - 1]];
  }

  /** Swapping two neighbours permutes the entries and leaves the ones after i alone. */
  lemma SwapPermutes(s: seq<Doc>, i: nat, j: nat)
    requires 0 < j <= i < |s|
    ensures multiset(s[j - 1 := s[j]][j := s[j - 1]]) == multiset(s)
    ensures s[j - 1 := s[j]][j := s[j - 1]][i + 1..] == s[i + 1..]
  {
  }

  /** One step of the insertion sort: files[i] moves left past every entry it is before. */
  method InsertLast(a: array<Doc>, i: nat)
    requires 0 < i < a.Length && FilesLast(a[..i])
    modifies a
    ensures multiset(a[..]) == multiset(old(a[..]))
    ensures a[i + 1..] == old(a[i + 1..])
    ensures FilesLast(a[..i + 1])
    ensures FilesOf(a[..i + 1]) == FilesOf(old(a[..i + 1]))
  {
    var j := i;
    ghost var files := FilesOf(a[..i + 1]);
    assert FilesLastExcept(a[..], i, j);
    while j > 0 && Less(a[j], a[j - 1])
      invariant 0 <= j <= i
      invariant multiset(a[..]) == multiset(old(a[..]))
      invariant a[i + 1..] == old(a[i + 1..])
      invariant FilesLastExcept(a[..], i, j)
      invariant IsFileDoc(a[j]) ==> j == i
      invariant FilesOf(a[..i + 1]) == files
    {
      ghost var s := a[..];
      SwapKeepsFilesInPrefix(s, i, j);
      SwapKeepsFilesLastExcept(s, i, j);
      SwapPermutes(s, i, j);
      a[j - 1], a[j] := a[j], a[j - 1];
      assert a[..] == s[j - 1 := s[j]][j := s[j - 1]];
      j := j - 1;
    }
    StopKeepsFilesLast(a[..], i, j);
  }

  // ---------------------------------------------------------------------
  // TransformFileToSent

  /** An entry of referenced_by that the code reads as a map. */
  predicate IsRefObject(x: Json) {
    x.JObj? && HasString(x.fields, "type") && HasString(x.fields, "id")
  }

  /** Every entry that is a map has the string fields type and id, as the code asserts. */
  predicate RefObjectsTyped(items: seq<Json>) {
    forall i :: 0 <= i < |items| && items[i].JObj? ==> IsRefObject(items[i])
  }

  /** An entry of referenced_by that the rule shares. */
  predicate SharedEntry(x: Json, values: seq<string>)
    requires x.JObj? ==> IsRefObject(x)
  {
    x.JObj? && x.fields["type"].s + "/" + x.fields["id"].s in values
  }

  /** The entries of referenced_by that the rule shares, in their order. */
  function KeptRefs(items: seq<Json>, values: seq<string>): (r: seq<Json>)
    requires RefObjectsTyped(items)
    ensures |r| <= |items|
    ensures forall i :: 0 <= i < |r| ==> r[i].JObj? && IsRefObject(r[i]) && SharedEntry(r[i], values)
    ensures forall i :: 0 <= i < |items| && items[i].JObj? && SharedEntry(items[i], values) ==> items[i] in r
    ensures forall x :: x in r ==> x in items
  {
    if |items| == 0 then []
    else
      assert RefObjectsTyped(items[1..]) by {
        forall i | 0 <= i < |items[1..]| && items[1..][i].JObj? ensures IsRefObject(items[1..][i]) {
          assert items[1..][i] == items[i + 1];
        }
      }
      (if SharedEntry(items[0], values) then [items[0]] else []) + KeptRefs(items[1..], values)
  }

  ghost predicate ReferencedByTyped(doc: Doc) {
    SelectorReferencedBy in doc && doc[SelectorReferencedBy].JArr? ==> RefObjectsTyped(doc[SelectorReferencedBy].items)
  }

  /**
    What TransformFileToSent needs to run without a panic: a string _id, and
    for a document with a dir_id, a rule index in range, well-typed
    referenced_by entries for a referenced_by rule, and a key for XorID.
  */
  ghost predicate Transformable(doc: Doc, key: seq<bv8>, rules: seq<Rule>, ruleIndex: int) {
    && HasString(doc, "_id") && KeyFits(doc["_id"].s, key)
    && (HasString(doc, "dir_id") ==>
          && 0 <= ruleIndex < |rules|
          && (rules[ruleIndex].selector == SelectorReferencedBy ==> ReferencedByTyped(doc))
          && (rules[ruleIndex].selector != SelectorReferencedBy && doc["dir_id"].s !in rules[ruleIndex].values ==>
                KeyFits(doc["dir_id"].s, key)))
  }

  /** The keys TransformFileToSent may change. */
  predicate Touched(k: string) {
    k == "_id" || k == "path" || k == "dir_id" || k == SelectorReferencedBy
  }

  /**
    The document TransformFileToSent sends: the path of a directory is
    dropped and the _id is obfuscated. When there is a dir_id, with a
    referenced_by rule the dir_id is dropped and referenced_by keeps only
    the references the rule shares; with another rule referenced_by is
    dropped, and dir_id too when it is one of the values of the rule (the
    shared directory itself), otherwise it is obfuscated.
  */
  function Transformed(doc: Doc, key: seq<bv8>, rules: seq<Rule>, ruleIndex: int): (r: Doc)
    requires Transformable(doc, key, rules, ruleIndex)
    ensures "_id" in r && r["_id"] == JStr(Xored(doc["_id"].s, key))
    ensures IsDirDoc(doc) ==> "path" !in r
    ensures !IsDirDoc(doc) ==> ("path" in r <==> "path" in doc) && ("path" in r ==> r["path"] == doc["path"])
    ensures forall k :: k in r ==> k in doc
    ensures forall k :: k in doc && !Touched(k) ==> k in r && r[k] == doc[k]
    ensures !HasString(doc, "dir_id") ==>
      forall k :: k == "dir_id" || k == SelectorReferencedBy ==> (k in r <==> k in doc) && (k in r ==> r[k] == doc[k])
    ensures HasString(doc, "dir_id") && rules[ruleIndex].selector == SelectorReferencedBy ==>
      && "dir_id" !in r
      && (SelectorReferencedBy in r <==> SelectorReferencedBy in doc)
      && (SelectorReferencedBy in doc && doc[SelectorReferencedBy].JArr? ==>
            r[SelectorReferencedBy] == JArr(KeptRefs(doc[SelectorReferencedBy].items, rules[ruleIndex].values)))
      && (SelectorReferencedBy in doc && !doc[SelectorReferencedBy].JArr? ==>
            r[SelectorReferencedBy] == doc[SelectorReferencedBy])
    ensures HasString(doc, "dir_id") && rules[ruleIndex].selector != SelectorReferencedBy ==>
      && SelectorReferencedBy !in r
      && ("dir_id" in r <==> doc["dir_id"].s !in rules[ruleIndex].values)
      && ("dir_id" in r ==> r["dir_id"] == JStr(Xored(doc["dir_id"].s, key)))
  {
    var d1 := if IsDirDoc(doc) then doc - {"path"} else doc;
    var d2 := d1["_id" := JStr(Xored(doc["_id"].s, key))];
    if !HasString(doc, "dir_id") then d2
    else
      var dir := doc["dir_id"].s;
      var rule := rules[ruleIndex];
      if rule.selector == SelectorReferencedBy then
        var d3 :=
          if SelectorReferencedBy in doc && doc[SelectorReferencedBy].JArr? then
            d2[SelectorReferencedBy := JArr(KeptRefs(doc[SelectorReferencedBy].items, rule.values))]
          else d2;
        d3 - {"dir_id"}
      else
        var d3 := d2 - {SelectorReferencedBy};
        if dir in rule.values then d3 - {"dir_id"} else d3["dir_id" := JStr(Xored(dir, key))]
  }

  /**
    The receiving instance, which knows the key, gets the identifiers back
    with XorID: the _id always, and the dir_id when it was sent.
  */
  lemma SentIdsRecoverable(doc: Doc, key: seq<bv8>, rules: seq<Rule>, ruleIndex: int)
    requires Transformable(doc, key, rules, ruleIndex)
    requires |key| > 0 && IsNibbleKey(key)
    requires forall i :: 0 <= i < |doc["_id"].s| && IsHex(doc["_id"].s[i]) ==> IsLowerHex(doc["_id"].s[i])
    requires HasString(doc, "dir_id") ==>
      forall i :: 0 <= i < |doc["dir_id"].s| && IsHex(doc["dir_id"].s[i]) ==> IsLowerHex(doc["dir_id"].s[i])
    ensures var r := Transformed(doc, key, rules, ruleIndex);
      && Xored(r["_id"].s, key) == doc["_id"].s
      && (HasString(doc, "dir_id") && "dir_id" in r ==> r["dir_id"].JStr? && Xored(r["dir_id"].s, key) == doc["dir_id"].s)
  {
    XorIDSelfInverse(doc["_id"].s, key);
    if HasString(doc, "dir_id") {
      XorIDSelfInverse(doc["dir_id"].s, key);
    }
  }

  lemma TypedAppend(a: seq<Json>, b: seq<Json>)
    requires RefObjectsTyped(a) && RefObjectsTyped(b)
    ensures RefObjectsTyped(a + b)
  {
    forall i | 0 <= i < |a + b| && (a + b)[i].JObj?
      ensures IsRefObject((a + b)[i])
    {
      if i < |a| {
        assert (a + b)[i] == a[i];
      } else {
        assert (a + b)[i] == b[i - |a|];
      }
    }
  }

  lemma TypedTail(a: seq<Json>)
    requires |a| > 0 && RefObjectsTyped(a)
    ensures RefObjectsTyped(a[1..])
  {
    forall i | 0 <= i < |a[1..]| && a[1..][i].JObj?
      ensures IsRefObject(a[1..][i])
    {
      assert a[1..][i] == a[i + 1];
    }
  }

  lemma {:induction false} KeptRefsAppend(a: seq<Json>, b: seq<Json>, values: seq<string>)
    requires RefObjectsTyped(a) && RefObjectsTyped(b)
    ensures RefObjectsTyped(a + b)
    ensures KeptRefs(a + b, values) == KeptRefs(a, values) + KeptRefs(b, values)
  {
    TypedAppend(a, b);
    if |a| > 0 {
      TypedTail(a);
      assert (a + b)[0] == a[0] && (a + b)[1..] == a[1..] + b;
      KeptRefsAppend(a[1..], b, values);
    } else {
      assert a + b == b;
    }
  }

  /** The loop of TransformFileToSent over the entries of referenced_by. */
  method KeepSharedRefs(refs: seq<Json>, values: seq<string>) returns (kept: seq<Json>)
    requires RefObjectsTyped(refs)
    ensures kept == KeptRefs(refs, values)
  {
    kept := [];
    for n := 0 to |refs|
      invariant RefObjectsTyped(refs[..n])
      invariant kept == KeptRefs(refs[..n], values)
    {
      var ref := refs[n];
      assert refs[..n + 1] == refs[..n] + [ref];
      assert RefObjectsTyped([ref]);
      KeptRefsAppend(refs[..n], [ref], values);
      assert [ref][1..] == [];
      if ref.JObj? {
        var found := IsOneOf(ref.fields["type"].s + "/" + ref.fields["id"].s, values);
        if found {
          kept := kept + [ref];
        }
      }
    }
    assert refs[..|refs|] == refs;
  }

  /** The inner loops of TransformFileToSent: whether v is one of the values of the rule. */
  method IsOneOf(v: string, values: seq<string>) returns (found: bool)
    ensures found <==> v in values
  {
    for k := 0 to |values|
      invariant forall m :: 0 <= m < k ==> values[m] != v
    {
      if values[k] == v {
        return true;
      }
    }
    return false;
  }

  /** TransformFileToSent, updating the document in place. */
  method TransformFileToSent(doc: DocMap, key: seq<bv8>, rules: seq<Rule>, ruleIndex: int)
    requires Transformable(doc.fields, key, rules, ruleIndex)
    modifies doc
    ensures doc.fields == Transformed(old(doc.fields), key, rules, ruleIndex)
  {
    ghost var original := doc.fields;
    if IsDirDoc(doc.fields) {
      doc.fields := doc.fields - {"path"};
    }
    var id := doc.fields["_id"].s;
    var xored := XorID(id, key);
    doc.fields := doc.fields["_id" := JStr(xored)];
    if !HasString(doc.fields, "dir_id") {
      return;
    }
    var dir := doc.fields["dir_id"].s;
    var rule := rules[ruleIndex];
    var noDirID: bool;
    if rule.selector == SelectorReferencedBy {
      noDirID := true;
      if SelectorReferencedBy in doc.fields && doc.fields[SelectorReferencedBy].JArr? {
        var kept := KeepSharedRefs(doc.fields[SelectorReferencedBy].items, rule.values);
        doc.fields := doc.fields[SelectorReferencedBy := JArr(kept)];
      }
    } else {
      noDirID := false;
      doc.fields := doc.fields - {SelectorReferencedBy};
    }
    if !noDirID {
      noDirID := IsOneOf(dir, rule.values);
    }
    if noDirID {
      doc.fields := doc.fields - {"dir_id"};
    } else {
      var xdir := XorID(dir, key);
      doc.fields := doc.fields["dir_id" := JStr(xdir)];
    }
  }
}
