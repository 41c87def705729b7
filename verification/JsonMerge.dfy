// JSON Merge Patch (RFC 7396) as in libs/nlohmann/json.hpp.
module JsonMerge {
  import opened Wrappers
  import opened Json
  import opened JsonPatch

  // MergePatch of section 2 of RFC 7396, member by member and without an order:
  // what the patch does not name stays, null removes, everything else is merged
  // into the old member, or into nothing.
  function MergePatch(target: Json, patch: Json): Json
    decreases patch
  {
    match patch
    case Object(p) =>
      var t := if target.Object? then target.members else map[];
      Object(map k | k in t.Keys + p.Keys && (k in p ==> p[k] != Null) ::
               if k in p then MergePatch(if k in t then t[k] else Null, p[k]) else t[k])
    case _ => patch
  }

  // Members visited by the loop of merge_patch.
  function Merged(t: map<string, Json>, p: map<string, Json>, ks: seq<string>): map<string, Json>
    requires forall k :: k in ks ==> k in p
  {
    map k | k in t.Keys + p.Keys && (if k in ks then p[k] != Null else k in t) ::
      if k in ks then MergePatch(if k in t then t[k] else Null, p[k]) else t[k]
  }

  lemma MergedStep(t: map<string, Json>, p: map<string, Json>, ks: seq<string>, k: string)
    requires k in p && k !in ks && forall j :: j in ks ==> j in p
    ensures Merged(t, p, ks + [k])
         == if p[k] == Null then Merged(t, p, ks) - {k}
            else Merged(t, p, ks)[k := MergePatch(if k in Merged(t, p, ks) then Merged(t, p, ks)[k] else Null, p[k])]
  {
    hide MergePatch;
  }

  lemma MergedEnds(t: map<string, Json>, target: Json, p: map<string, Json>)
    requires t == if target.Object? then target.members else map[]
    ensures Object(Merged(t, p, Ordered(p.Keys))) == MergePatch(target, Object(p))
  {
    hide Ordered;
  }

  // merge_patch on the value at the given place of a document: the members of the
  // patch in map order, each erased or merged in place. operator[] creates a null
  // member where there is none. The rest of the document is not touched.
  method MergeAt(doc: Document, place: seq<string>, patch: Json)
    requires At(doc.root, place).Ok?
    modifies doc
    ensures doc.root == Put(old(doc.root), place, MergePatch(At(old(doc.root), place).value, patch))
    decreases patch, 1
  {
    var target := At(doc.root, place).value;
    if patch.Object? {
      ghost var was := doc.root;
      var t := map[];
      if target.Object? {
        t := target.members;
        PutSame(was, place);
      } else {
        doc.root := Put(doc.root, place, Object(t));
      }
      MergedEnds(t, target, patch.members);
      hide *;
      MergeMembers(doc, place, was, t, patch);
    } else {
      hide *;
      doc.root := Put(doc.root, place, patch);
      MergePrimitive(target, patch);
    }
  }

  // The loop of merge_patch.
  method MergeMembers(doc: Document, place: seq<string>, ghost was: Json, ghost t: map<string, Json>, patch: Json)
    requires patch.Object? && At(was, place).Ok? && doc.root == Put(was, place, Object(t))
    modifies doc
    ensures doc.root == Put(was, place, Object(Merged(t, patch.members, Ordered(patch.members.Keys))))
    decreases patch, 0
  {
    var p := patch.members;
    var ks := Ordered(p.Keys);
    MergedNone(t, p);
    hide *;
    for i := 0 to |ks|
      invariant doc.root == Put(was, place, Object(Merged(t, p, ks[..i])))
    {
      assert ks[..i + 1] == ks[..i] + [ks[i]];
      MergedStep(t, p, ks[..i], ks[i]);
      MergeMember(doc, place, was, Merged(t, p, ks[..i]), ks[i], p[ks[i]]);
    }
    assert ks[..|ks|] == ks;
  }

  lemma MergedNone(t: map<string, Json>, p: map<string, Json>)
    ensures Merged(t, p, []) == t
  {}

  lemma MergePrimitive(target: Json, patch: Json)
    requires !patch.Object?
    ensures MergePatch(target, patch) == patch
  {}

  // The body of the loop for one member of the patch.
  method MergeMember(doc: Document, place: seq<string>, ghost was: Json, ghost m: map<string, Json>, k: string, v: Json)
    requires At(was, place).Ok? && doc.root == Put(was, place, Object(m))
    modifies doc
    ensures doc.root == Put(was, place, Object(
      if v == Null then m - {k} else m[k := MergePatch(if k in m then m[k] else Null, v)]))
    decreases v, 2
  {
    hide At;
    hide Put;
    hide MergePatch;
    PutGet(was, place, Object(m));
    var members := At(doc.root, place).value.members;
    if v == Null {
      doc.root := Put(doc.root, place, Object(members - {k}));
      PutPut(was, place, Object(m), Object(m - {k}));
    } else {
      var named := if k in members then members else members[k := Null];
      doc.root := Put(doc.root, place, Object(named));
      PutPut(was, place, Object(m), Object(named));
      PutGet(was, place, Object(named));
      AtChild(doc.root, place, k);
      ghost var merged := MergePatch(named[k], v);
      PutChildAt(doc.root, place, k, merged);
      PutPut(was, place, Object(named), Object(named[k := merged]));
      MergeAt(doc, place + [k], v);
      assert named[k := merged] == m[k := merged];
    }
  }

  // Applying a merge patch twice is applying it once.
  lemma {:induction false} MergeIdempotent(t: Json, p: Json)
    ensures MergePatch(MergePatch(t, p), p) == MergePatch(t, p)
    decreases p
  {
    if p.Object? {
      var once := MergePatch(t, p).members;
      var twice := MergePatch(Object(once), p).members;
      forall k | k in p.members && p.members[k] != Null
        ensures once[k] == twice[k]
      {
        MergeIdempotent(if t.Object? && k in t.members then t.members[k] else Null, p.members[k]);
      }
      assert once == twice;
    }
  }
}
