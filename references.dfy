/**
  The filters on the referenced_by lists of files (removeReferencesFromRule
  and buildReferencedBy of pkg/sharing/files.go): the references that a
  referenced_by rule shares are the ones whose "doctype/id" is one of the
  values of the rule.
*/
module References {

  import opened Wrappers
  import opened Json
  import opened Sharings
  import opened VfsDocs

  /** The references that the rule does not share, in their order. */
  function OtherRefs(refs: seq<DocReference>, rule: Rule): (r: seq<DocReference>)
    ensures |r| <= |refs|
    ensures forall x :: x in r <==> x in refs && !HasReferencedBy(rule, x)
  {
    if |refs| == 0 then []
    else (if HasReferencedBy(rule, refs[0]) then [] else [refs[0]]) + OtherRefs(refs[1..], rule)
  }

  /** The references that the rule shares, in their order. */
  function RuleRefs(refs: seq<DocReference>, rule: Rule): (r: seq<DocReference>)
    ensures |r| <= |refs|
    ensures forall x :: x in r <==> x in refs && HasReferencedBy(rule, x)
  {
    if |refs| == 0 then []
    else (if HasReferencedBy(rule, refs[0]) then [refs[0]] else []) + RuleRefs(refs[1..], rule)
  }

  /** Both filters distribute over concatenation: they keep the order of the references. */
  lemma {:induction false} FiltersAppend(a: seq<DocReference>, b: seq<DocReference>, rule: Rule)
    ensures OtherRefs(a + b, rule) == OtherRefs(a, rule) + OtherRefs(b, rule)
    ensures RuleRefs(a + b, rule) == RuleRefs(a, rule) + RuleRefs(b, rule)
  {
    if |a| > 0 {
      assert (a + b)[0] == a[0] && (a + b)[1..] == a[1..] + b;
      FiltersAppend(a[1..], b, rule);
    } else {
      assert a + b == b;
    }
  }

  lemma OtherRefsSnoc(refs: seq<DocReference>, x: DocReference, rule: Rule)
    ensures OtherRefs(refs + [x], rule) == OtherRefs(refs, rule) + (if HasReferencedBy(rule, x) then [] else [x])
  {
    FiltersAppend(refs, [x], rule);
    assert [x][1..] == [];
  }

  /** The two filters split the references: together they hold each reference as often as before. */
  lemma {:induction false} FiltersPartition(refs: seq<DocReference>, rule: Rule)
    ensures multiset(OtherRefs(refs, rule)) + multiset(RuleRefs(refs, rule)) == multiset(refs)
  {
    if |refs| > 0 {
      var h, t := refs[0], refs[1..];
      FiltersPartition(t, rule);
      assert refs == [h] + t;
      assert multiset(refs) == multiset{h} + multiset(t);
      if HasReferencedBy(rule, h) {
        assert RuleRefs(refs, rule) == [h] + RuleRefs(t, rule);
        assert OtherRefs(refs, rule) == OtherRefs(t, rule);
      } else {
        assert OtherRefs(refs, rule) == [h] + OtherRefs(t, rule);
        assert RuleRefs(refs, rule) == RuleRefs(t, rule);
      }
    }
  }

  /**
    removeReferencesFromRule: for a referenced_by rule, the references of
    the file that the rule shares are dropped, the other ones kept in their
    order; for another rule the file is left alone.
  */
  method RemoveReferencesFromRule(file: FileDoc, rule: Rule)
    modifies file
    ensures file.referencedBy ==
      (if rule.selector == SelectorReferencedBy then OtherRefs(old(file.referencedBy), rule) else old(file.referencedBy))
    ensures file.docID == old(file.docID) && file.docName == old(file.docName)
    ensures file.dirID == old(file.dirID) && file.trashed == old(file.trashed)
  {
    if rule.selector != SelectorReferencedBy {
      return;
    }
    var kept := KeepOtherRefs(file.referencedBy, rule);
    file.referencedBy := kept;
  }

  /** The loop of removeReferencesFromRule over the references of the file. */
  method KeepOtherRefs(refs: seq<DocReference>, rule: Rule) returns (kept: seq<DocReference>)
    ensures kept == OtherRefs(refs, rule)
  {
    kept := [];
    for i := 0 to |refs|
      invariant kept == OtherRefs(refs[..i], rule)
    {
      assert refs[..i + 1] == refs[..i] + [refs[i]];
      OtherRefsSnoc(refs[..i], refs[i], rule);
      if !HasReferencedBy(rule, refs[i]) {
        kept := kept + [refs[i]];
      }
    }
    assert refs[..|refs|] == refs;
  }

  /**
    buildReferencedBy: the references of the local file (none when there is
    no local file) that the rule does not share, followed by the references
    of the incoming file that it does share.
  */
  function BuildReferencedBy(target: seq<DocReference>, file: Option<seq<DocReference>>, rule: Rule): (r: seq<DocReference>)
    ensures forall x :: x in r <==>
      (file.Some? && x in file.value && !HasReferencedBy(rule, x)) || (x in target && HasReferencedBy(rule, x))
  {
    (if file.Some? then OtherRefs(file.value, rule) else []) + RuleRefs(target, rule)
  }

  /**
    The merge takes the shared references from the incoming file and only
    from it, and the other references from the local file and only from it.
  */
  lemma BuildReferencedBySources(target: seq<DocReference>, file: Option<seq<DocReference>>, rule: Rule)
    ensures RuleRefs(BuildReferencedBy(target, file, rule), rule) == RuleRefs(target, rule)
    ensures OtherRefs(BuildReferencedBy(target, file, rule), rule) == (if file.Some? then OtherRefs(file.value, rule) else [])
  {
    FiltersIdempotent(target, rule);
    if file.Some? {
      FiltersAppend(OtherRefs(file.value, rule), RuleRefs(target, rule), rule);
      FiltersIdempotent(file.value, rule);
    } else {
      assert BuildReferencedBy(target, file, rule) == RuleRefs(target, rule);
    }
  }

  /** Filtering what a filter kept keeps all of it, and the other filter keeps none of it. */
  lemma {:induction false} FiltersIdempotent(refs: seq<DocReference>, rule: Rule)
    ensures OtherRefs(OtherRefs(refs, rule), rule) == OtherRefs(refs, rule)
    ensures RuleRefs(OtherRefs(refs, rule), rule) == []
    ensures RuleRefs(RuleRefs(refs, rule), rule) == RuleRefs(refs, rule)
    ensures OtherRefs(RuleRefs(refs, rule), rule) == []
  {
    if |refs| > 0 {
      FiltersIdempotent(refs[1..], rule);
      var head := if HasReferencedBy(rule, refs[0]) then [] else [refs[0]];
      FiltersAppend(head, OtherRefs(refs[1..], rule), rule);
      var head' := if HasReferencedBy(rule, refs[0]) then [refs[0]] else [];
      FiltersAppend(head', RuleRefs(refs[1..], rule), rule);
    }
  }
}
