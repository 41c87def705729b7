// JSON Patch (RFC 6902) as in libs/nlohmann/json.hpp: applying and creating patches.
module JsonPatch {
  import opened Wrappers
  import opened Json
  import opened JsonPointer

  // ---- access by token sequence ----

  // One step of json_pointer::get_checked.
  function Child(j: Json, token: string): Result<Json, Id> {
    match j
    case Object(m) => if token in m then Ok(m[token]) else Err(403)
    case Array(a) =>
      if token == "-" then Err(402)
      else
        var i := ArrayIndex(token);
        if i.Err? then Err(i.error) else if i.value >= |a| then Err(401) else Ok(a[i.value])
    case _ => Err(404)
  }

  function At(j: Json, tokens: seq<string>): Result<Json, Id> {
    if tokens == [] then Ok(j)
    else
      var c := Child(j, tokens[0]);
      if c.Err? then c else At(c.value, tokens[1..])
  }

  // The value with one child exchanged.
  function PutChild(j: Json, token: string, v: Json): Json
    requires Child(j, token).Ok?
  {
    match j
    case Object(m) => Object(m[token := v])
    case Array(a) => Array(a[ArrayIndex(token).value := v])
  }

  // Assignment through the reference that `at(tokens)` returns.
  function Put(j: Json, tokens: seq<string>, v: Json): Json
    requires At(j, tokens).Ok?
  {
    if tokens == [] then v
    else PutChild(j, tokens[0], Put(Child(j, tokens[0]).value, tokens[1..], v))
  }

  lemma {:induction false} PutGet(j: Json, p: seq<string>, v: Json)
    requires At(j, p).Ok?
    ensures At(Put(j, p, v), p) == Ok(v)
  {
    if p != [] { PutGet(Child(j, p[0]).value, p[1..], v); }
  }

  lemma {:induction false} PutPut(j: Json, p: seq<string>, v: Json, w: Json)
    requires At(j, p).Ok?
    ensures At(Put(j, p, v), p).Ok? && Put(Put(j, p, v), p, w) == Put(j, p, w)
  {
    PutGet(j, p, v);
    if p != [] { PutPut(Child(j, p[0]).value, p[1..], v, w); }
  }

  lemma {:induction false} PutSame(j: Json, p: seq<string>)
    requires At(j, p).Ok?
    ensures Put(j, p, At(j, p).value) == j
  {
    if p != [] { PutSame(Child(j, p[0]).value, p[1..]); }
  }

  lemma {:induction false} AtChild(j: Json, p: seq<string>, token: string)
    requires At(j, p).Ok?
    ensures At(j, p + [token]) == Child(At(j, p).value, token)
  {
    if p == [] {
      assert p + [token] == [token] && [token][1..] == [];
    } else {
      assert (p + [token])[1..] == p[1..] + [token];
      AtChild(Child(j, p[0]).value, p[1..], token);
    }
  }

  lemma {:induction false} PutChildAt(j: Json, p: seq<string>, token: string, v: Json)
    requires At(j, p).Ok? && Child(At(j, p).value, token).Ok?
    ensures At(j, p + [token]).Ok?
    ensures Put(j, p + [token], v) == Put(j, p, PutChild(At(j, p).value, token, v))
  {
    AtChild(j, p, token);
    if p == [] {
      assert p + [token] == [token] && [token][1..] == [];
    } else {
      assert (p + [token])[1..] == p[1..] + [token];
      PutChildAt(Child(j, p[0]).value, p[1..], token, v);
    }
  }

  // ---- one operation ----

  // The document as a failing or succeeding operation leaves it.
  datatype Outcome = Outcome(doc: Json, error: Option<Id>)

  function Throw(doc: Json, id: Id): Outcome {
    Outcome(doc, Some(id))
  }

  function Last(p: seq<string>): string
    requires p != []
  {
    p[|p| - 1]
  }

  function Parent(p: seq<string>): seq<string>
    requires p != []
  {
    p[..|p| - 1]
  }

  // operation_add on the parent value
  function AddTo(parent: Json, token: string, v: Json): Result<Json, Id> {
    match parent
    case Null => Ok(Object(map[token := v]))
    case Object(m) => Ok(Object(m[token := v]))
    case Array(a) =>
      if token == "-" then Ok(Array(a + [v]))
      else
        var i := ArrayIndex(token);
        if i.Err? then Err(i.error)
        else if i.value > |a| then Err(401)
        else Ok(Array(a[..i.value] + [v] + a[i.value..]))
    case _ => Err(411)
  }

  function Add(doc: Json, p: seq<string>, v: Json): Outcome {
    if p == [] then Outcome(v, None)
    else
      var top := At(doc, [p[0]]);
      if |p| > 1 && top.Err? then Throw(doc, top.error)
      else
        var parent := At(doc, Parent(p));
        if parent.Err? then Throw(doc, parent.error)
        else
          var added := AddTo(parent.value, Last(p), v);
          if added.Err? then Throw(doc, added.error) else Outcome(Put(doc, Parent(p), added.value), None)
  }

  // operation_remove on the parent value; a parent that is neither object nor array
  // is silently left alone
  function RemoveFrom(parent: Json, token: string): Result<Json, Id> {
    match parent
    case Object(m) => if token in m then Ok(Object(m - {token})) else Err(403)
    case Array(a) =>
      var i := ArrayIndex(token);
      if i.Err? then Err(i.error)
      else if i.value >= |a| then Err(401)
      else Ok(Array(a[..i.value] + a[i.value + 1..]))
    case _ => Ok(parent)
  }

  function Remove(doc: Json, p: seq<string>): Outcome {
    if p == [] then Throw(doc, 405)
    else
      var parent := At(doc, Parent(p));
      if parent.Err? then Throw(doc, parent.error)
      else
        var removed := RemoveFrom(parent.value, Last(p));
        if removed.Err? then Throw(doc, removed.error) else Outcome(Put(doc, Parent(p), removed.value), None)
  }

  function Replace(doc: Json, p: seq<string>, v: Json): Outcome {
    var target := At(doc, p);
    if target.Err? then Throw(doc, target.error) else Outcome(Put(doc, p, v), None)
  }

  // A string member of an operation object, or exception 105.
  function StringMember(op: map<string, Json>, name: string): Result<string, Id> {
    if name in op && op[name].String? then Ok(op[name].s) else Err(105)
  }

  function ApplyOp(doc: Json, val: Json): Outcome {
    if !val.Object? then Throw(doc, 104)
    else
      var op, path := StringMember(val.members, "op"), StringMember(val.members, "path");
      if op.Err? || path.Err? then Throw(doc, 105)
      else
        var ptr := Split(path.value);
        if ptr.Err? then Throw(doc, ptr.error) else Perform(doc, op.value, ptr.value, val.members)
  }

  // "move" is remove and add, "copy" is add, of the value that was at `from`.
  function Moved(doc: Json, p: seq<string>, from: seq<string>, move: bool): Outcome {
    var v := At(doc, from);
    if v.Err? then Throw(doc, v.error)
    else if !move then Add(doc, p, v.value)
    else
      var removed := Remove(doc, from);
      if removed.error.Some? then removed else Add(removed.doc, p, v.value)
  }

  function Perform(doc: Json, op: string, p: seq<string>, val: map<string, Json>): Outcome {
    if op == "add" then
      if "value" in val then Add(doc, p, val["value"]) else Throw(doc, 105)
    else if op == "remove" then
      Remove(doc, p)
    else if op == "replace" then
      if "value" in val then Replace(doc, p, val["value"]) else Throw(doc, 105)
    else if op == "move" || op == "copy" then
      var from := StringMember(val, "from");
      if from.Err? then Throw(doc, 105)
      else
        var fp := Split(from.value);
        if fp.Err? then Throw(doc, fp.error)
        else
          Moved(doc, p, fp.value, op == "move")
    else if op == "test" then
      var v := At(doc, p);
      if v.Err? then Throw(doc, if 400 <= v.error < 500 then 501 else v.error)
      else if "value" !in val then Throw(doc, 105)
      else if v.value == val["value"] then Outcome(doc, None) else Throw(doc, 501)
    else Throw(doc, 105)
  }

  // Operations in order, up to the first exception.
  function ApplyAll(doc: Json, ops: seq<Json>): Outcome
    decreases |ops|
  {
    if ops == [] then Outcome(doc, None)
    else
      var first := ApplyOp(doc, ops[0]);
      if first.error.Some? then first else ApplyAll(first.doc, ops[1..])
  }

  function PatchInPlace(doc: Json, patch: Json): Outcome {
    if patch.Array? then ApplyAll(doc, patch.items) else Throw(doc, 104)
  }

  // patch: on a copy, so an exception loses it.
  function Patch(doc: Json, patch: Json): Result<Json, Id> {
    var r := PatchInPlace(doc, patch);
    if r.error.Some? then Err(r.error.value) else Ok(r.doc)
  }

  lemma {:induction false} ApplyAllConcat(doc: Json, a: seq<Json>, b: seq<Json>)
    ensures ApplyAll(doc, a + b)
         == if ApplyAll(doc, a).error.Some? then ApplyAll(doc, a) else ApplyAll(ApplyAll(doc, a).doc, b)
    decreases |a|
  {
    hide ApplyOp;
    if a == [] {
      assert a + b == b;
    } else {
      assert (a + b)[1..] == a[1..] + b;
      ApplyAllConcat(ApplyOp(doc, a[0]).doc, a[1..], b);
    }
  }

  // Putting different values at one place gives different documents.
  lemma PutDiffers(doc: Json, p: seq<string>, v: Json)
    requires At(doc, p).Ok? && v != At(doc, p).value
    ensures Put(doc, p, v) != doc
  {
    PutGet(doc, p, v);
  }

  // Where remove takes back an add at the same path: a member that was absent, or
  // an array position that is not "-".
  predicate Fresh(parent: Json, token: string) {
    (parent.Object? && token !in parent.members) || (parent.Array? && token != "-")
  }

  lemma RemoveFromAdded(parent: Json, token: string, v: Json)
    requires AddTo(parent, token, v).Ok?
    ensures var removed := RemoveFrom(AddTo(parent, token, v).value, token);
      if parent.Array? && token == "-" then removed == Err(404)
      else removed.Ok? && (removed.value == parent <==> Fresh(parent, token))
  {
    match parent
    case Object(m) =>
      if token !in m { assert m[token := v] - {token} == m; }
    case Array(a) =>
      if token != "-" {
        var i := ArrayIndex(token).value;
        assert a[..i] + a[i..] == a;
        assert (a[..i] + [v] + a[i..])[..i] == a[..i] && (a[..i] + [v] + a[i..])[i + 1..] == a[i..];
      }
    case Null =>
  }

  // remove undoes add exactly where something new was made.
  lemma RemoveUndoesAdd(doc: Json, p: seq<string>, v: Json)
    requires p != [] && Add(doc, p, v).error == None
    ensures At(doc, Parent(p)).Ok?
    ensures Remove(Add(doc, p, v).doc, p) == Outcome(doc, None) <==> Fresh(At(doc, Parent(p)).value, Last(p))
  {
    hide Put;
    hide At;
    var parent := At(doc, Parent(p)).value;
    RemoveFromAdded(parent, Last(p), v);
    var added := AddTo(parent, Last(p), v).value;
    hide AddTo;
    PutGet(doc, Parent(p), added);
    var removed := RemoveFrom(added, Last(p));
    hide RemoveFrom;
    if removed.Ok? {
      PutPut(doc, Parent(p), added, removed.value);
      if removed.value == parent {
        PutSame(doc, Parent(p));
      } else {
        PutDiffers(doc, Parent(p), removed.value);
      }
    }
  }

  // What the operation was given is afterwards found at the path it was given,
  // except behind "-", which never names an element.
  lemma AddThenAt(doc: Json, p: seq<string>, v: Json)
    requires Add(doc, p, v).error == None
    ensures At(Add(doc, p, v).doc, p)
         == if p != [] && At(doc, Parent(p)).value.Array? && Last(p) == "-" then Err(402) else Ok(v)
  {
    if p != [] {
      var parent := At(doc, Parent(p)).value;
      var added := AddTo(parent, Last(p), v).value;
      PutGet(doc, Parent(p), added);
      AtChild(Put(doc, Parent(p), added), Parent(p), Last(p));
      assert Parent(p) + [Last(p)] == p;
    }
  }

  lemma RemoveFound(doc: Json, p: seq<string>)
    requires p != [] && At(doc, p).Ok?
    ensures Remove(doc, p).error == None && Remove(doc, p).doc != doc
  {
    assert At(doc, Parent(p)).Ok? && Child(At(doc, Parent(p)).value, Last(p)).Ok? by { AtPrefix(doc, p); }
    var parent := At(doc, Parent(p)).value;
    var removed := RemoveFrom(parent, Last(p));
    assert removed.Ok? && removed.value != parent;
    PutDiffers(doc, Parent(p), removed.value);
  }

  lemma {:induction false} AtPrefix(doc: Json, p: seq<string>)
    requires p != [] && At(doc, p).Ok?
    ensures At(doc, Parent(p)).Ok? && Child(At(doc, Parent(p)).value, Last(p)) == At(doc, p)
  {
    if |p| > 1 {
      assert Parent(p)[1..] == Parent(p[1..]);
      AtPrefix(Child(doc, p[0]).value, p[1..]);
    } else {
      assert p[1..] == [];
    }
  }

  // A well-formed move of something that exists, other than the whole document.
  predicate TakesAway(doc: Json, val: map<string, Json>) {
    && StringMember(val, "op") == Ok("move")
    && StringMember(val, "path").Ok? && Split(val["path"].s).Ok?
    && StringMember(val, "from").Ok? && Split(val["from"].s).Ok?
    && Split(val["from"].s).value != [] && At(doc, Split(val["from"].s).value).Ok?
  }

  // A failing operation leaves the document alone, except for a move: by the time
  // its second half fails, the value is gone.
  lemma FailureKeepsDocument(doc: Json, val: Json)
    requires ApplyOp(doc, val).error.Some?
    ensures ApplyOp(doc, val).doc == doc <==> !(val.Object? && TakesAway(doc, val.members))
  {
    hide At;
    hide Split;
    hide Add;
    hide Remove;
    hide Replace;
    if val.Object? && StringMember(val.members, "op").Ok? && StringMember(val.members, "path").Ok?
      && Split(val.members["path"].s).Ok? {
      PerformFails(doc, StringMember(val.members, "op"), Split(val.members["path"].s).value, val.members);
    }
    hide Perform;
  }

  lemma PerformFails(doc: Json, op: Result<string, Id>, p: seq<string>, val: map<string, Json>)
    requires op == StringMember(val, "op") && StringMember(val, "path").Ok? && Split(val["path"].s) == Ok(p)
    requires op.Ok? && Perform(doc, op.value, p, val).error.Some?
    ensures Perform(doc, op.value, p, val).doc == doc <==> !TakesAway(doc, val)
  {
    hide At;
    hide Split;
    hide Add;
    hide Remove;
    hide Replace;
    if op.value == "move" {
      if StringMember(val, "from").Ok? && Split(val["from"].s).Ok? {
        var from := Split(val["from"].s).value;
        RemoveFails(doc, from);
        if from != [] && At(doc, from).Ok? {
          RemoveFound(doc, from);
          AddFails(Remove(doc, from).doc, p, At(doc, from).value);
        }
      }
    } else {
      if "value" in val {
        AddFails(doc, p, val["value"]);
        ReplaceFails(doc, p, val["value"]);
      }
      RemoveFails(doc, p);
      if op.value == "copy" && StringMember(val, "from").Ok? && Split(val["from"].s).Ok? {
        var v := At(doc, Split(val["from"].s).value);
        if v.Ok? { AddFails(doc, p, v.value); }
      }
    }
  }

  lemma AddFails(doc: Json, p: seq<string>, v: Json)
    ensures Add(doc, p, v).error.Some? ==> Add(doc, p, v).doc == doc
  {
    hide At;
    hide AddTo;
  }

  lemma RemoveFails(doc: Json, p: seq<string>)
    ensures Remove(doc, p).error.Some? ==> Remove(doc, p).doc == doc
    ensures p == [] ==> Remove(doc, p).error.Some?
  {
    hide At;
    hide RemoveFrom;
  }

  lemma ReplaceFails(doc: Json, p: seq<string>, v: Json)
    ensures Replace(doc, p, v).error.Some? ==> Replace(doc, p, v).doc == doc
  {
    hide At;
  }

  // ---- diff ----

  function ReplaceOp(path: string, v: Json): Json {
    Object(map["op" := String("replace"), "path" := String(path), "value" := v])
  }

  function AddOp(path: string, v: Json): Json {
    Object(map["op" := String("add"), "path" := String(path), "value" := v])
  }

  function RemoveOp(path: string): Json {
    Object(map["op" := String("remove"), "path" := String(path)])
  }

  function Diff(s: Json, t: Json, path: string): seq<Json>
    decreases s, 1, 0
  {
    if s == t then []
    else if !SameType(s, t) then [ReplaceOp(path, t)]
    else
      match s
      case Array(a) =>
        var n := if |a| < |t.items| then |a| else |t.items|;
        CommonDiffs(s, t, path, n) + Removals(path, n, |a|) + Additions(t.items, path, n)
      case Object(m) =>
        MemberDiffs(s, t, path, Ordered(m.Keys)) + MemberAdditions(s, t, path, Ordered(t.members.Keys))
      case _ => [ReplaceOp(path, t)]
  }

  // Differences of the first n array elements.
  function CommonDiffs(s: Json, t: Json, path: string, n: nat): seq<Json>
    requires s.Array? && t.Array? && n <= |s.items| && n <= |t.items|
    decreases s, 0, n
  {
    if n == 0 then []
    else CommonDiffs(s, t, path, n - 1) + Diff(s.items[n - 1], t.items[n - 1], path + "/" + ToString(n - 1))
  }

  // Removal of elements lo up to hi, the last one first.
  function Removals(path: string, lo: nat, hi: nat): seq<Json> {
    if hi <= lo then [] else [RemoveOp(path + "/" + ToString(hi - 1))] + Removals(path, lo, hi - 1)
  }

  // Elements from n on, appended.
  function Additions(t: seq<Json>, path: string, n: nat): seq<Json>
    requires n <= |t|
    decreases |t| - n
  {
    if n == |t| then [] else [AddOp(path + "/-", t[n])] + Additions(t, path, n + 1)
  }

  // Members of s with the given keys: changed or removed.
  function MemberDiffs(s: Json, t: Json, path: string, ks: seq<string>): seq<Json>
    requires s.Object? && t.Object? && forall k :: k in ks ==> k in s.members
    decreases s, 0, |ks|
  {
    if ks == [] then []
    else
      var k := ks[|ks| - 1];
      MemberDiffs(s, t, path, ks[..|ks| - 1])
      + if k in t.members then Diff(s.members[k], t.members[k], path + "/" + Escape(k))
        else [RemoveOp(path + "/" + Escape(k))]
  }

  // Members of t with the given keys that s does not have.
  function MemberAdditions(s: Json, t: Json, path: string, ks: seq<string>): seq<Json>
    requires s.Object? && t.Object? && forall k :: k in ks ==> k in t.members
  {
    if ks == [] then []
    else
      var k := ks[|ks| - 1];
      MemberAdditions(s, t, path, ks[..|ks| - 1])
      + if k in s.members then [] else [AddOp(path + "/" + Escape(k), t.members[k])]
  }

  // ---- each operation that diff emits, at a rendered path ----

  lemma OneOp(doc: Json, op: Json)
    ensures ApplyAll(doc, [op]) == ApplyOp(doc, op)
  {
    hide ApplyOp;
    assert [op][1..] == [];
  }

  lemma ReplaceAt(doc: Json, p: seq<string>, v: Json)
    requires At(doc, p).Ok?
    ensures ApplyAll(doc, [ReplaceOp(Render(p), v)]) == Outcome(Put(doc, p, v), None)
  {
    hide Split;
    hide Render;
    SplitRender(p);
    OneOp(doc, ReplaceOp(Render(p), v));
  }

  lemma LastParent(p: seq<string>, token: string)
    ensures Last(p + [token]) == token && Parent(p + [token]) == p
    ensures Render(p + [token]) == Render(p) + "/" + Escape(token)
  {
    hide Escape;
  }

  lemma RemoveAt(doc: Json, p: seq<string>, token: string)
    requires At(doc, p).Ok? && RemoveFrom(At(doc, p).value, token).Ok?
    ensures ApplyAll(doc, [RemoveOp(Render(p) + "/" + Escape(token))])
         == Outcome(Put(doc, p, RemoveFrom(At(doc, p).value, token).value), None)
  {
    hide Split;
    hide Render;
    hide Escape;
    hide RemoveFrom;
    LastParent(p, token);
    SplitRender(p + [token]);
    OneOp(doc, RemoveOp(Render(p + [token])));
  }

  lemma TopExists(doc: Json, p: seq<string>)
    requires p != [] && At(doc, p).Ok?
    ensures At(doc, [p[0]]).Ok?
  {
    assert [p[0]][1..] == [];
  }

  lemma AddAt(doc: Json, p: seq<string>, token: string, v: Json)
    requires At(doc, p).Ok? && AddTo(At(doc, p).value, token, v).Ok?
    ensures ApplyAll(doc, [AddOp(Render(p) + "/" + Escape(token), v)])
         == Outcome(Put(doc, p, AddTo(At(doc, p).value, token, v).value), None)
  {
    hide Split;
    hide Render;
    hide Escape;
    hide AddTo;
    LastParent(p, token);
    SplitRender(p + [token]);
    OneOp(doc, AddOp(Render(p + [token]), v));
    if p != [] {
      TopExists(doc, p);
      assert (p + [token])[0] == p[0];
    }
  }

  // ---- what the operations promise ----

  // Places of which neither lies within the other.
  predicate Apart(p: seq<string>, q: seq<string>) {
    !(p <= q) && !(q <= p)
  }

  lemma ApartTails(p: seq<string>, q: seq<string>)
    requires Apart(p, q)
    ensures p != [] && q != []
    ensures p[0] == q[0] ==> Apart(p[1..], q[1..])
  {
    if p != [] && q != [] && p[0] == q[0] {
      assert p == [p[0]] + p[1..] && q == [q[0]] + q[1..];
    }
  }

  lemma OtherChild(j: Json, token: string, v: Json, other: string)
    requires Child(j, token).Ok? && token != other
    ensures Child(PutChild(j, token, v), other) == Child(j, other)
  {
    if j.Array? && ArrayIndex(other) == ArrayIndex(token) {
      IndexInjective(token, other);
    }
  }

  // An assignment is not seen from any place apart.
  lemma {:induction false} PutApart(j: Json, p: seq<string>, v: Json, q: seq<string>)
    requires At(j, p).Ok? && Apart(p, q)
    ensures At(Put(j, p, v), q) == At(j, q)
    decreases |p|
  {
    ApartTails(p, q);
    var c := Child(j, p[0]).value;
    var c' := Put(c, p[1..], v);
    if p[0] == q[0] {
      PutGetChild(j, p[0], c');
      PutApart(c, p[1..], v, q[1..]);
    } else {
      OtherChild(j, p[0], c', q[0]);
    }
  }

  lemma PutGetChild(j: Json, token: string, v: Json)
    requires Child(j, token).Ok?
    ensures Child(PutChild(j, token, v), token) == Ok(v)
  {}

  // add and remove change nothing apart from the parent of their place.
  lemma AddApart(doc: Json, p: seq<string>, v: Json, q: seq<string>)
    requires p != [] && Add(doc, p, v).error == None && Apart(Parent(p), q)
    ensures At(Add(doc, p, v).doc, q) == At(doc, q)
  {
    PutApart(doc, Parent(p), AddTo(At(doc, Parent(p)).value, Last(p), v).value, q);
  }

  lemma RemoveApart(doc: Json, p: seq<string>, q: seq<string>)
    requires p != [] && Remove(doc, p).error == None && Apart(Parent(p), q)
    ensures At(Remove(doc, p).doc, q) == At(doc, q)
  {
    PutApart(doc, Parent(p), RemoveFrom(At(doc, Parent(p)).value, Last(p)).value, q);
  }

  // After a successful move or copy, what was at `from` is at p, unless p ends in the "-"
  // of an array, which never names an element.
  lemma MovedIsThere(doc: Json, p: seq<string>, from: seq<string>, move: bool)
    requires Moved(doc, p, from, move).error == None
    ensures var base := if move then Remove(doc, from).doc else doc;
      && At(doc, from).Ok?
      && (p != [] ==> At(base, Parent(p)).Ok?)
      && At(Moved(doc, p, from, move).doc, p)
         == if p != [] && Last(p) == "-" && At(base, Parent(p)).value.Array? then Err(402) else At(doc, from)
  {
    hide Put;
    hide At;
    hide AddTo;
    hide RemoveFrom;
    hide Remove;
    var base := if move then Remove(doc, from).doc else doc;
    AddThenAt(base, p, At(doc, from).value);
  }

  // Moving a value to where it is changes nothing.
  lemma MoveToItself(doc: Json, p: seq<string>)
    requires At(doc, p).Ok?
    ensures Moved(doc, p, p, true) == if p == [] then Throw(doc, 405) else Outcome(doc, None)
  {
    if p != [] {
      AtPrefix(doc, p);
      var parent, v := At(doc, Parent(p)).value, At(doc, p).value;
      AddBack(parent, Last(p));
      RemoveFound(doc, p);
      var less := RemoveFrom(parent, Last(p)).value;
      PutGet(doc, Parent(p), less);
      PutPut(doc, Parent(p), less, parent);
      PutSame(doc, Parent(p));
      if |p| > 1 {
        TopExists(Put(doc, Parent(p), less), Parent(p));
        assert Parent(p)[0] == p[0];
      }
      hide At;
      hide Put;
      hide AddTo;
      hide RemoveFrom;
    }
  }

  lemma AddBack(parent: Json, token: string)
    requires Child(parent, token).Ok?
    ensures RemoveFrom(parent, token).Ok?
    ensures AddTo(RemoveFrom(parent, token).value, token, Child(parent, token).value) == Ok(parent)
  {
    match parent
    case Object(m) =>
      assert (m - {token})[token := m[token]] == m;
    case Array(a) =>
      var i := ArrayIndex(token).value;
      var less := a[..i] + a[i + 1..];
      assert less[..i] == a[..i] && less[i..] == a[i + 1..];
      assert a[..i] + [a[i]] + a[i + 1..] == a;
  }

  // test never changes the document, and passes exactly if the value is there.
  lemma TestPasses(doc: Json, p: seq<string>, val: map<string, Json>)
    ensures Perform(doc, "test", p, val).doc == doc
    ensures Perform(doc, "test", p, val).error == None <==> "value" in val && At(doc, p) == Ok(val["value"])
  {
    hide At;
  }

  lemma RemovalChanges(parent: Json, token: string)
    requires RemoveFrom(parent, token).Ok?
    ensures RemoveFrom(parent, token).value == parent <==> !parent.Object? && !parent.Array?
  {}

  // A remove can report success without removing anything: exactly if the parent exists and
  // is neither object nor array.
  lemma SilentRemove(doc: Json, p: seq<string>)
    ensures Remove(doc, p) == Outcome(doc, None)
       <==> p != [] && At(doc, Parent(p)).Ok?
            && !At(doc, Parent(p)).value.Object? && !At(doc, Parent(p)).value.Array?
  {
    hide At;
    hide Put;
    hide RemoveFrom;
    if p != [] && Remove(doc, p).error == None {
      var parent := At(doc, Parent(p)).value;
      var removed := RemoveFrom(parent, Last(p)).value;
      RemovalChanges(parent, Last(p));
      PutSame(doc, Parent(p));
      if removed != parent { PutDiffers(doc, Parent(p), removed); }
    } else if p != [] && At(doc, Parent(p)).Ok? {
      RemovalFails(At(doc, Parent(p)).value, Last(p));
    }
  }

  lemma RemovalFails(parent: Json, token: string)
    requires RemoveFrom(parent, token).Err?
    ensures parent.Object? || parent.Array?
  {}

  predicate Plain(k: string) {
    forall i :: 0 <= i < |k| ==> k[i] != '~' && k[i] != '/'
  }

  lemma SplitOne(k: string, path: string)
    requires Plain(k) && path == "/" + k
    ensures Split(path) == Ok([k])
    ensures Render([k]) == path
  {
    LastParent([], k);
    EscapePlain(k);
    assert [] + [k] == [k] && Render([]) == "";
    SplitRender([k]);
  }

  lemma SplitTwo(k: string, l: string, path: string)
    requires Plain(k) && Plain(l) && path == "/" + k + "/" + l
    ensures Split(path) == Ok([k, l])
  {
    SplitOne(k, "/" + k);
    LastParent([k], l);
    EscapePlain(l);
    assert [k] + [l] == [k, l];
    SplitRender([k, l]);
  }

  // A patch of one operation.
  lemma OnePatch(doc: Json, op: map<string, Json>, name: string, path: string, p: seq<string>)
    requires StringMember(op, "op") == Ok(name) && StringMember(op, "path") == Ok(path) && Split(path) == Ok(p)
    ensures PatchInPlace(doc, Array([Object(op)])) == Perform(doc, name, p, op)
  {
    hide Split;
    hide Perform;
    OneOp(doc, Object(op));
  }

  // {"a": 1} patched with [{"op": "remove", "path": "/a/b"}]: no exception, nothing removed.
  lemma RemoveFindsNothing()
    ensures PatchInPlace(Object(map["a" := Number(1)]),
                         Array([Object(map["op" := String("remove"), "path" := String("/a/b")])]))
         == Outcome(Object(map["a" := Number(1)]), None)
  {
    var doc, p := Object(map["a" := Number(1)]), ["a", "b"];
    SplitTwo("a", "b", "/a/b");
    hide Split;
    OnePatch(doc, map["op" := String("remove"), "path" := String("/a/b")], "remove", "/a/b", p);
    BelowNumber();
    SilentRemove(doc, p);
    hide Remove;
  }

  lemma BelowNumber()
    ensures At(Object(map["a" := Number(1)]), Parent(["a", "b"])) == Ok(Number(1))
  {
    assert Parent(["a", "b"]) == ["a"] && ["a"][1..] == [];
  }

  // {"a": 1} patched with [{"op": "move", "path": "/b/c", "from": "/a"}]: exception 403, and
  // the member is lost.
  lemma MoveCanLose()
    ensures PatchInPlace(Object(map["a" := Number(1)]),
                         Array([Object(map["op" := String("move"), "path" := String("/b/c"), "from" := String("/a")])]))
         == Outcome(Object(map[]), Some(403))
  {
    var doc, from := Object(map["a" := Number(1)]), "/a";
    var op := map["op" := String("move"), "path" := String("/b/c"), "from" := String(from)];
    SplitOne("a", from);
    SplitTwo("b", "c", "/b/c");
    hide Split;
    hide Perform;
    OnePatch(doc, op, "move", "/b/c", ["b", "c"]);
    MovePerforms(doc, op, ["b", "c"], from, ["a"]);
    MoveFails();
    hide *;
  }

  lemma MovePerforms(doc: Json, val: map<string, Json>, p: seq<string>, path: string, from: seq<string>)
    requires StringMember(val, "from") == Ok(path) && Split(path) == Ok(from)
    ensures Perform(doc, "move", p, val) == Moved(doc, p, from, true)
  {
    hide Split;
    hide Moved;
  }

  lemma MoveFails()
    ensures Moved(Object(map["a" := Number(1)]), ["b", "c"], ["a"], true) == Outcome(Object(map[]), Some(403))
  {
    var doc := Object(map["a" := Number(1)]);
    assert ["a"][1..] == [] && ["b"][1..] == [] && ["b", "c"][..1] == ["b"] && ["a"][..0] == [];
    assert map["a" := Number(1)] - {"a"} == map[];
    assert Remove(doc, ["a"]) == Outcome(Object(map[]), None);
    assert At(Object(map[]), ["b"]) == Err(403);
    assert Add(Object(map[]), ["b", "c"], Number(1)) == Throw(Object(map[]), 403);
  }

  // ---- what an operation is, in terms of others ----

  function CopyOp(path: string, from: string): Json {
    Object(map["op" := String("copy"), "path" := String(path), "from" := String(from)])
  }

  function MoveOp(path: string, from: string): Json {
    Object(map["op" := String("move"), "path" := String(path), "from" := String(from)])
  }

  lemma AddPerforms(doc: Json, p: seq<string>, v: Json)
    ensures ApplyOp(doc, AddOp(Render(p), v)) == Add(doc, p, v)
  {
    hide Split;
    hide Render;
    hide Add;
    SplitRender(p);
  }

  lemma RemovePerforms(doc: Json, p: seq<string>)
    ensures ApplyOp(doc, RemoveOp(Render(p))) == Remove(doc, p)
  {
    hide Split;
    hide Render;
    hide Remove;
    SplitRender(p);
  }

  lemma TransferPerforms(doc: Json, p: seq<string>, from: seq<string>)
    ensures ApplyOp(doc, CopyOp(Render(p), Render(from))) == Moved(doc, p, from, false)
    ensures ApplyOp(doc, MoveOp(Render(p), Render(from))) == Moved(doc, p, from, true)
  {
    hide Split;
    hide Render;
    hide Moved;
    SplitRender(p);
    SplitRender(from);
  }

  // A copy is an add of the value at `from`, if there is one; section 4.5 of RFC 6902.
  lemma CopyIsAdd(doc: Json, p: seq<string>, from: seq<string>)
    ensures PatchInPlace(doc, Array([Object(map["op" := String("copy"), "path" := String(Render(p)),
                                                "from" := String(Render(from))])]))
         == if At(doc, from).Ok?
            then PatchInPlace(doc, Array([Object(map["op" := String("add"), "path" := String(Render(p)),
                                                     "value" := At(doc, from).value])]))
            else Outcome(doc, Some(At(doc, from).error))
  {
    TransferPerforms(doc, p, from);
    OneOp(doc, CopyOp(Render(p), Render(from)));
    if At(doc, from).Ok? {
      AddPerforms(doc, p, At(doc, from).value);
      OneOp(doc, AddOp(Render(p), At(doc, from).value));
    }
    hide ApplyAll;
    hide ApplyOp;
    hide At;
    hide Add;
    hide Render;
  }

  lemma TwoOps(doc: Json, first: Json, second: Json)
    ensures ApplyAll(doc, [first, second])
         == if ApplyOp(doc, first).error.Some? then ApplyOp(doc, first)
            else ApplyOp(ApplyOp(doc, first).doc, second)
  {
    OneOp(doc, first);
    OneOp(ApplyOp(doc, first).doc, second);
    ApplyAllConcat(doc, [first], [second]);
    assert [first] + [second] == [first, second];
    hide ApplyAll;
    hide ApplyOp;
  }

  // A move is a remove at `from`, then an add of the value that was there; section 4.4 of
  // RFC 6902.
  lemma MoveIsRemoveAdd(doc: Json, p: seq<string>, from: seq<string>)
    ensures PatchInPlace(doc, Array([Object(map["op" := String("move"), "path" := String(Render(p)),
                                                "from" := String(Render(from))])]))
         == if At(doc, from).Ok?
            then PatchInPlace(doc, Array([Object(map["op" := String("remove"), "path" := String(Render(from))]),
                                          Object(map["op" := String("add"), "path" := String(Render(p)),
                                                     "value" := At(doc, from).value])]))
            else Outcome(doc, Some(At(doc, from).error))
  {
    TransferPerforms(doc, p, from);
    OneOp(doc, MoveOp(Render(p), Render(from)));
    if At(doc, from).Ok? {
      var v := At(doc, from).value;
      TwoOps(doc, RemoveOp(Render(from)), AddOp(Render(p), v));
      RemovePerforms(doc, from);
      AddPerforms(Remove(doc, from).doc, p, v);
    }
    hide ApplyAll;
    hide ApplyOp;
    hide At;
    hide Add;
    hide Remove;
    hide Render;
  }

  // ---- exceptions ----

  // One step of a pointer: the member, the element, or the exception.
  lemma ChildIs(m: map<string, Json>, a: seq<Json>, j: Json, token: string, i: nat)
    requires !j.Object? && !j.Array?
    ensures Child(Object(m), token) == if token in m then Ok(m[token]) else Err(403)
    ensures Child(Array(a), ToString(i)) == if i < |a| then Ok(a[i]) else Err(401)
    ensures Child(Array(a), "-") == Err(402) && Child(Array(a), "") == Err(404)
    ensures |token| > 1 && token[0] == '0' ==> Child(Array(a), token) == Err(106)
    ensures |token| > 1 && token[0] != '0' && !('1' <= token[0] <= '9') ==> Child(Array(a), token) == Err(109)
    ensures |token| > 1 && '1' <= token[0] <= '9' && !AllDigits(token) ==> Child(Array(a), token) == Err(404)
    ensures Child(j, token) == Err(404)
  {
    IndexRoundTrip(i);
    EscapeIndex(i);
  }

  // Where an add or a remove at a parent fails.
  lemma EditErrors(m: map<string, Json>, a: seq<Json>, j: Json, token: string, i: nat, v: Json)
    requires !j.Object? && !j.Array? && !j.Null?
    ensures AddTo(j, token, v) == Err(411) && AddTo(Null, token, v) == Ok(Object(map[token := v]))
    ensures AddTo(Array(a), ToString(i), v)
         == if i > |a| then Err(401) else Ok(Array(a[..i] + [v] + a[i..]))
    ensures AddTo(Array(a), "-", v) == Ok(Array(a + [v])) && AddTo(Object(m), token, v) == Ok(Object(m[token := v]))
    ensures RemoveFrom(Array(a), ToString(i))
         == if i >= |a| then Err(401) else Ok(Array(a[..i] + a[i + 1..]))
    ensures RemoveFrom(Object(m), token) == if token in m then Ok(Object(m - {token})) else Err(403)
  {
    IndexRoundTrip(i);
    EscapeIndex(i);
  }

  // Operations that are not well-formed, in the order in which they are found out.
  lemma OperationErrors(doc: Json, val: Json)
    ensures !val.Object? ==> ApplyOp(doc, val) == Outcome(doc, Some(104))
    ensures val.Object? && !("op" in val.members && val.members["op"].String?
                             && "path" in val.members && val.members["path"].String?)
      ==> ApplyOp(doc, val) == Outcome(doc, Some(105))
  {
    hide Perform;
    hide Split;
  }

  lemma PerformErrors(doc: Json, op: string, p: seq<string>, val: map<string, Json>)
    ensures op !in ["add", "remove", "replace", "move", "copy", "test"]
      ==> Perform(doc, op, p, val) == Outcome(doc, Some(105))
    ensures op in ["add", "replace"] && "value" !in val ==> Perform(doc, op, p, val) == Outcome(doc, Some(105))
    ensures op in ["move", "copy"] && !("from" in val && val["from"].String?)
      ==> Perform(doc, op, p, val) == Outcome(doc, Some(105))
    ensures At(doc, p).Ok? && "value" in val && At(doc, p).value != val["value"]
      ==> Perform(doc, "test", p, val) == Outcome(doc, Some(501))
    ensures At(doc, p).Err? && "value" in val ==>
      Perform(doc, "replace", p, val) == Outcome(doc, Some(At(doc, p).error))
    ensures At(doc, p).Err? ==>
      var id := At(doc, p).error;
      Perform(doc, "test", p, val) == Outcome(doc, Some(if 400 <= id < 500 then 501 else id))
  {
    hide At;
    hide Add;
    hide Remove;
    hide Moved;
  }

  // A pointer fails where its first step fails.
  lemma FirstStepFails(doc: Json, p: seq<string>)
    requires p != [] && At(doc, [p[0]]).Err?
    ensures At(doc, p) == At(doc, [p[0]])
  {
    assert [p[0]][1..] == [];
  }

  // An add or a remove fails with the exception of its parent, or of the edit there.
  lemma PlaceErrors(doc: Json, p: seq<string>, v: Json)
    requires p != []
    ensures var parent := At(doc, Parent(p));
      if parent.Err? then Add(doc, p, v) == Remove(doc, p) == Outcome(doc, Some(parent.error))
      else
        && (var added := AddTo(parent.value, Last(p), v);
            added.Err? ==> Add(doc, p, v) == Outcome(doc, Some(added.error)))
        && (var removed := RemoveFrom(parent.value, Last(p));
            removed.Err? ==> Remove(doc, p) == Outcome(doc, Some(removed.error)))
    ensures Remove(doc, []) == Outcome(doc, Some(405))
  {
    if |p| > 1 && At(doc, [p[0]]).Err? { FirstStepFails(doc, Parent(p)); }
    hide At;
    hide AddTo;
    hide RemoveFrom;
    hide Put;
  }

  lemma PatchErrors(doc: Json, patch: Json)
    ensures !patch.Array? ==> PatchInPlace(doc, patch) == Outcome(doc, Some(104))
    ensures Patch(doc, patch)
         == if PatchInPlace(doc, patch).error.Some? then Err(PatchInPlace(doc, patch).error.value)
            else Ok(PatchInPlace(doc, patch).doc)
  {}

  // ---- patch(diff(s, t)) == t ----

  // The patch made for s and t at a path turns s into t there and touches nothing else.
  ghost predicate Patches(doc: Json, p: seq<string>, s: Json, t: Json)
    requires At(doc, p).Ok?
  {
    ApplyAll(doc, Diff(s, t, Render(p))) == Outcome(Put(doc, p, t), None)
  }

  // Two patches, one after the other, at the same place.
  lemma Then(doc: Json, p: seq<string>, v: Json, w: Json, a: seq<Json>, b: seq<Json>)
    requires At(doc, p).Ok? && At(Put(doc, p, v), p).Ok?
    requires ApplyAll(doc, a) == Outcome(Put(doc, p, v), None)
    requires ApplyAll(Put(doc, p, v), b) == Outcome(Put(Put(doc, p, v), p, w), None)
    ensures ApplyAll(doc, a + b) == Outcome(Put(doc, p, w), None)
  {
    hide At;
    hide Put;
    hide ApplyAll;
    ApplyAllConcat(doc, a, b);
    PutPut(doc, p, v, w);
  }

  lemma NoOps(doc: Json, p: seq<string>)
    requires At(doc, p).Ok?
    ensures ApplyAll(doc, []) == Outcome(Put(doc, p, At(doc, p).value), None)
  {
    PutSame(doc, p);
  }

  lemma {:induction false} RemovalsApply(doc: Json, p: seq<string>, a: seq<Json>, lo: nat)
    requires At(doc, p) == Ok(Array(a)) && lo <= |a|
    ensures ApplyAll(doc, Removals(Render(p), lo, |a|)) == Outcome(Put(doc, p, Array(a[..lo])), None)
    decreases |a|
  {
    hide Render;
    hide Escape;
    hide ApplyAll;
    hide ToString;
    hide Put;
    hide At;
    if lo == |a| {
      NoOps(doc, p);
      assert a[..lo] == a;
    } else {
      var k := |a| - 1;
      var token, shorter := ToString(k), a[..k];
      EscapeIndex(k);
      IndexRoundTrip(k);
      assert a[..k] + a[k + 1..] == shorter;
      RemoveAt(doc, p, token);
      PutGet(doc, p, Array(shorter));
      RemovalsApply(Put(doc, p, Array(shorter)), p, shorter, lo);
      assert shorter[..lo] == a[..lo];
      Then(doc, p, Array(shorter), Array(a[..lo]), [RemoveOp(Render(p) + "/" + token)], Removals(Render(p), lo, k));
    }
  }

  lemma {:induction false} AdditionsApply(doc: Json, p: seq<string>, t: seq<Json>, n: nat)
    requires n <= |t| && At(doc, p) == Ok(Array(t[..n]))
    ensures ApplyAll(doc, Additions(t, Render(p), n)) == Outcome(Put(doc, p, Array(t)), None)
    decreases |t| - n
  {
    hide Render;
    hide ApplyAll;
    hide Put;
    hide At;
    hide Escape;
    if n == |t| {
      NoOps(doc, p);
      assert t[..n] == t;
    } else {
      EscapePlain("-");
      assert Render(p) + "/" + "-" == Render(p) + "/-";
      var longer := t[..n + 1];
      assert t[..n] + [t[n]] == longer;
      AddAt(doc, p, "-", t[n]);
      PutGet(doc, p, Array(longer));
      AdditionsApply(Put(doc, p, Array(longer)), p, t, n + 1);
      Then(doc, p, Array(longer), Array(t), [AddOp(Render(p) + "/-", t[n])], Additions(t, Render(p), n + 1));
    }
  }

  // One nested difference, seen from the enclosing value.
  lemma NestedApplies(doc: Json, p: seq<string>, token: string, t: Json)
    requires At(doc, p).Ok? && Child(At(doc, p).value, token).Ok?
    requires At(doc, p + [token]).Ok? && Patches(doc, p + [token], At(doc, p + [token]).value, t)
    ensures ApplyAll(doc, Diff(Child(At(doc, p).value, token).value, t, Render(p) + "/" + Escape(token)))
         == Outcome(Put(doc, p, PutChild(At(doc, p).value, token, t)), None)
  {
    hide Render;
    hide Diff;
    AtChild(doc, p, token);
    PutChildAt(doc, p, token, t);
    LastParent(p, token);
  }

  lemma {:induction false} CommonApplies(doc: Json, p: seq<string>, s: Json, t: Json, n: nat)
    requires s.Array? && t.Array? && n <= |s.items| && n <= |t.items| && At(doc, p) == Ok(s)
    ensures ApplyAll(doc, CommonDiffs(s, t, Render(p), n))
         == Outcome(Put(doc, p, Array(t.items[..n] + s.items[n..])), None)
    decreases s, 0, n
  {
    hide Render;
    hide Diff;
    hide ApplyAll;
    hide Put;
    hide At;
    hide Escape;
    hide ToString;
    if n == 0 {
      assert t.items[..0] + s.items[0..] == s.items;
      NoOps(doc, p);
    } else {
      var i, token := n - 1, ToString(n - 1);
      var mixed, after := t.items[..i] + s.items[i..], t.items[..n] + s.items[n..];
      CommonApplies(doc, p, s, t, i);
      PutGet(doc, p, Array(mixed));
      var doc' := Put(doc, p, Array(mixed));
      EscapeIndex(i);
      IndexRoundTrip(i);
      AtChild(doc', p, token);
      DiffApplies(doc', p + [token], s.items[i], t.items[i]);
      NestedApplies(doc', p, token, t.items[i]);
      assert mixed[i := t.items[i]] == after;
      Then(doc, p, Array(mixed), Array(after), CommonDiffs(s, t, Render(p), i),
           Diff(s.items[i], t.items[i], Render(p) + "/" + token));
    }
  }

  // The object between the passes over ks: visited members are as in t.
  function Visited(s: map<string, Json>, t: map<string, Json>, ks: seq<string>): map<string, Json> {
    map k | k in s && (k !in ks || k in t) :: if k in ks then t[k] else s[k]
  }

  lemma VisitedStep(s: map<string, Json>, t: map<string, Json>, init: seq<string>, k: string)
    requires k in s && k !in init
    ensures k in Visited(s, t, init) && Visited(s, t, init)[k] == s[k]
    ensures Visited(s, t, init + [k])
         == if k in t then Visited(s, t, init)[k := t[k]] else Visited(s, t, init) - {k}
  {}

  ghost predicate Distinct(ks: seq<string>) {
    forall i, j :: 0 <= i < j < |ks| ==> ks[i] != ks[j]
  }

  lemma {:induction false} MembersApply(doc: Json, p: seq<string>, s: Json, t: Json, ks: seq<string>)
    requires s.Object? && t.Object? && At(doc, p) == Ok(s)
    requires (forall k :: k in ks ==> k in s.members) && Distinct(ks)
    ensures ApplyAll(doc, MemberDiffs(s, t, Render(p), ks))
         == Outcome(Put(doc, p, Object(Visited(s.members, t.members, ks))), None)
    decreases s, 0, |ks|
  {
    hide Render;
    hide Diff;
    hide ApplyAll;
    hide Put;
    hide At;
    hide Escape;
    if ks == [] {
      assert Visited(s.members, t.members, []) == s.members;
      NoOps(doc, p);
    } else {
      var init, k := ks[..|ks| - 1], ks[|ks| - 1];
      var before, after := Visited(s.members, t.members, init), Visited(s.members, t.members, ks);
      VisitedStep(s.members, t.members, init, k);
      assert ks == init + [k];
      MembersApply(doc, p, s, t, init);
      PutGet(doc, p, Object(before));
      var doc' := Put(doc, p, Object(before));
      hide Visited;
      if k in t.members {
        AtChild(doc', p, k);
        DiffApplies(doc', p + [k], s.members[k], t.members[k]);
        NestedApplies(doc', p, k, t.members[k]);
        Then(doc, p, Object(before), Object(after), MemberDiffs(s, t, Render(p), init),
             Diff(s.members[k], t.members[k], Render(p) + "/" + Escape(k)));
      } else {
        RemoveAt(doc', p, k);
        Then(doc, p, Object(before), Object(after), MemberDiffs(s, t, Render(p), init),
             [RemoveOp(Render(p) + "/" + Escape(k))]);
      }
    }
  }

  // The object during the second pass: the members of t that s has or ks names.
  function Filled(s: map<string, Json>, t: map<string, Json>, ks: seq<string>): map<string, Json> {
    map k | k in t && (k in s || k in ks) :: t[k]
  }

  lemma FilledStep(s: map<string, Json>, t: map<string, Json>, init: seq<string>, k: string)
    requires k in t
    ensures Filled(s, t, init + [k]) == if k in s then Filled(s, t, init) else Filled(s, t, init)[k := t[k]]
  {}

  lemma MemberAdditionsStep(s: Json, t: Json, path: string, init: seq<string>, k: string)
    requires s.Object? && t.Object? && (forall j :: j in init + [k] ==> j in t.members)
    ensures MemberAdditions(s, t, path, init + [k])
         == MemberAdditions(s, t, path, init)
            + if k in s.members then [] else [AddOp(path + "/" + Escape(k), t.members[k])]
  {
    hide Escape;
    hide AddOp;
    assert (init + [k])[..|init|] == init;
  }

  lemma AddMember(doc: Json, p: seq<string>, m: map<string, Json>, k: string, v: Json)
    requires At(doc, p) == Ok(Object(m))
    ensures ApplyAll(doc, [AddOp(Render(p) + "/" + Escape(k), v)]) == Outcome(Put(doc, p, Object(m[k := v])), None)
  {
    hide At;
    hide Put;
    hide ApplyAll;
    hide AddOp;
    hide Render;
    hide Escape;
    AddAt(doc, p, k, v);
  }

  lemma {:induction false} MemberAdditionsApply(doc: Json, p: seq<string>, s: Json, t: Json, ks: seq<string>)
    requires s.Object? && t.Object? && At(doc, p) == Ok(Object(Filled(s.members, t.members, [])))
    requires (forall k :: k in ks ==> k in t.members) && Distinct(ks)
    ensures ApplyAll(doc, MemberAdditions(s, t, Render(p), ks))
         == Outcome(Put(doc, p, Object(Filled(s.members, t.members, ks))), None)
    decreases |ks|
  {
    if ks == [] {
      hide At;
      hide Put;
      NoOps(doc, p);
    } else {
      var init, k := ks[..|ks| - 1], ks[|ks| - 1];
      assert Distinct(init);
      hide *;
      var before, after := Filled(s.members, t.members, init), Filled(s.members, t.members, ks);
      assert ks == init + [k];
      FilledStep(s.members, t.members, init, k);
      MemberAdditionsStep(s, t, Render(p), init, k);
      MemberAdditionsApply(doc, p, s, t, init);
      PutGet(doc, p, Object(before));
      if k in s.members {
        assert MemberAdditions(s, t, Render(p), init) + [] == MemberAdditions(s, t, Render(p), init);
      } else {
        AddMember(Put(doc, p, Object(before)), p, before, k, t.members[k]);
        Then(doc, p, Object(before), Object(after), MemberAdditions(s, t, Render(p), init),
             [AddOp(Render(p) + "/" + Escape(k), t.members[k])]);
      }
    }
  }

  // Both passes together: nothing of s is left, nothing of t is missing.
  lemma AllVisited(s: map<string, Json>, t: map<string, Json>, ks: seq<string>, ls: seq<string>)
    requires (forall k :: k in ks <==> k in s) && (forall k :: k in ls <==> k in t)
    ensures Visited(s, t, ks) == Filled(s, t, []) && Filled(s, t, ls) == t
  {}

  lemma {:induction false} ArraysApply(doc: Json, p: seq<string>, s: Json, t: Json)
    requires s.Array? && t.Array? && s != t && At(doc, p) == Ok(s)
    ensures Patches(doc, p, s, t)
    decreases s, 0, |s.items| + 1
  {
    hide Render;
    hide ApplyAll;
    hide Put;
    hide At;
    var a, b := s.items, t.items;
    var n := if |a| < |b| then |a| else |b|;
    var path := Render(p);
    CommonApplies(doc, p, s, t, n);
    var mixed := b[..n] + a[n..];
    PutGet(doc, p, Array(mixed));
    RemovalsApply(Put(doc, p, Array(mixed)), p, mixed, n);
    assert |mixed| == |a| && mixed[..n] == b[..n];
    Then(doc, p, Array(mixed), Array(b[..n]), CommonDiffs(s, t, path, n), Removals(path, n, |a|));
    PutGet(doc, p, Array(b[..n]));
    AdditionsApply(Put(doc, p, Array(b[..n])), p, b, n);
    Then(doc, p, Array(b[..n]), t, CommonDiffs(s, t, path, n) + Removals(path, n, |a|), Additions(b, path, n));
  }

  lemma {:induction false} ObjectsApply(doc: Json, p: seq<string>, s: Json, t: Json)
    requires s.Object? && t.Object? && s != t && At(doc, p) == Ok(s)
    ensures Patches(doc, p, s, t)
    decreases s, 0, |Ordered(s.members.Keys)| + 1
  {
    hide Render;
    hide ApplyAll;
    hide Put;
    hide At;
    var ks, ls := Ordered(s.members.Keys), Ordered(t.members.Keys);
    hide Ordered;
    AllVisited(s.members, t.members, ks, ls);
    hide Visited;
    hide Filled;
    MembersApply(doc, p, s, t, ks);
    var mid := Filled(s.members, t.members, []);
    PutGet(doc, p, Object(mid));
    MemberAdditionsApply(Put(doc, p, Object(mid)), p, s, t, ls);
    Then(doc, p, Object(mid), t, MemberDiffs(s, t, Render(p), ks), MemberAdditions(s, t, Render(p), ls));
  }

  lemma {:induction false} DiffApplies(doc: Json, p: seq<string>, s: Json, t: Json)
    requires At(doc, p) == Ok(s)
    ensures Patches(doc, p, s, t)
    decreases s, 1, 0
  {
    hide Render;
    hide ApplyAll;
    if s == t {
      NoOps(doc, p);
    } else if s.Array? && t.Array? {
      ArraysApply(doc, p, s, t);
    } else if s.Object? && t.Object? {
      ObjectsApply(doc, p, s, t);
    } else {
      ReplaceAt(doc, p, t);
    }
  }

  // What the patch for the value at p leaves alone: everything apart from p.
  lemma DiffApart(doc: Json, p: seq<string>, t: Json, q: seq<string>)
    requires At(doc, p).Ok? && Apart(p, q)
    ensures var r := ApplyAll(doc, Diff(At(doc, p).value, t, Render(p)));
      r.error == None && At(r.doc, p) == Ok(t) && At(r.doc, q) == At(doc, q)
  {
    DiffApplies(doc, p, At(doc, p).value, t);
    PutGet(doc, p, t);
    PutApart(doc, p, t, q);
  }

  // For all values: applying diff(s, t) to s succeeds and gives t.
  lemma PatchOfDiff(s: Json, t: Json)
    ensures Patch(s, Array(Diff(s, t, ""))) == Ok(t)
  {
    hide Diff;
    DiffApplies(s, [], s, t);
    assert Render([]) == "";
  }

  // ---- the shape of a diff ----

  lemma {:induction false} CommonIs(s: Json, t: Json, path: string, n: nat)
    requires s.Array? && t.Array? && n <= |s.items| && n <= |t.items|
    ensures CommonDiffs(s, t, path, n)
         == Flatten(seq(n, i requires 0 <= i < n => Diff(s.items[i], t.items[i], path + "/" + ToString(i))))
  {
    hide Diff;
    hide ToString;
    if n > 0 {
      var chunks := seq(n, i requires 0 <= i < n => Diff(s.items[i], t.items[i], path + "/" + ToString(i)));
      assert chunks[..n - 1]
          == seq(n - 1, i requires 0 <= i < n - 1 => Diff(s.items[i], t.items[i], path + "/" + ToString(i)));
      CommonIs(s, t, path, n - 1);
    }
  }

  lemma {:induction false} RemovalAt(path: string, lo: nat, hi: nat, i: nat)
    requires i < hi - lo
    ensures |Removals(path, lo, hi)| == hi - lo
    ensures Removals(path, lo, hi)[i] == RemoveOp(path + "/" + ToString(hi - 1 - i))
    decreases hi
  {
    hide RemoveOp;
    hide ToString;
    if i > 0 {
      RemovalAt(path, lo, hi - 1, i - 1);
    } else if lo < hi - 1 {
      RemovalAt(path, lo, hi - 1, 0);
    }
  }

  lemma {:induction false} AdditionAt(t: seq<Json>, path: string, n: nat, i: nat)
    requires n + i < |t|
    ensures |Additions(t, path, n)| == |t| - n
    ensures Additions(t, path, n)[i] == AddOp(path + "/-", t[n + i])
    decreases |t| - n
  {
    hide AddOp;
    if i > 0 {
      AdditionAt(t, path, n + 1, i - 1);
    } else if n + 1 < |t| {
      AdditionAt(t, path, n + 1, 0);
    }
  }

  predicate RemovesDown(ops: seq<Json>, path: string, lo: nat, hi: nat) {
    |ops| == hi - lo && forall i :: 0 <= i < |ops| ==> ops[i] == RemoveOp(path + "/" + ToString(hi - 1 - i))
  }

  predicate AppendsUp(ops: seq<Json>, path: string, t: seq<Json>, n: nat) {
    |ops| == |t| - n && forall i :: 0 <= i < |ops| ==> ops[i] == AddOp(path + "/-", t[n + i])
  }

  lemma RemovalsIs(path: string, lo: nat, hi: nat)
    requires lo <= hi
    ensures RemovesDown(Removals(path, lo, hi), path, lo, hi)
  {
    hide RemoveOp;
    hide ToString;
    forall i | 0 <= i < hi - lo
      ensures |Removals(path, lo, hi)| == hi - lo
      ensures Removals(path, lo, hi)[i] == RemoveOp(path + "/" + ToString(hi - 1 - i))
    {
      RemovalAt(path, lo, hi, i);
    }
    if lo < hi { RemovalAt(path, lo, hi, 0); }
  }

  lemma AdditionsIs(t: seq<Json>, path: string, n: nat)
    requires n <= |t|
    ensures AppendsUp(Additions(t, path, n), path, t, n)
  {
    hide AddOp;
    forall i | 0 <= i < |t| - n
      ensures |Additions(t, path, n)| == |t| - n
      ensures Additions(t, path, n)[i] == AddOp(path + "/-", t[n + i])
    {
      AdditionAt(t, path, n, i);
    }
    if n < |t| { AdditionAt(t, path, n, 0); }
  }

  // Two arrays: nested differences of the common elements in order, removals of the others
  // from the last one down, additions of the missing ones in order.
  lemma DiffOfArrays(a: seq<Json>, b: seq<Json>, path: string, n: nat, nested: seq<seq<Json>>)
    returns (removals: seq<Json>, additions: seq<Json>)
    requires a != b && n == if |a| < |b| then |a| else |b|
    requires nested == seq(n, i requires 0 <= i < n => Diff(a[i], b[i], path + "/" + ToString(i)))
    ensures Diff(Array(a), Array(b), path) == Flatten(nested) + removals + additions
    ensures RemovesDown(removals, path, n, |a|) && AppendsUp(additions, path, b, n)
  {
    CommonIs(Array(a), Array(b), path, n);
    removals, additions := Removals(path, n, |a|), Additions(b, path, n);
    hide CommonDiffs;
    hide ToString;
    hide RemovesDown;
    hide AppendsUp;
    RemovalsIs(path, n, |a|);
    AdditionsIs(b, path, n);
    hide Removals;
    hide Additions;
  }

  // What the first pass says of one member, and the second of another.
  function MemberChange(s: map<string, Json>, t: map<string, Json>, path: string, k: string): seq<Json>
    requires k in s
  {
    if k in t then Diff(s[k], t[k], path + "/" + Escape(k)) else [RemoveOp(path + "/" + Escape(k))]
  }

  function MemberAddition(s: map<string, Json>, t: map<string, Json>, path: string, k: string): seq<Json>
    requires k in t
  {
    if k in s then [] else [AddOp(path + "/" + Escape(k), t[k])]
  }

  lemma {:induction false} MembersIs(s: Json, t: Json, path: string, ks: seq<string>)
    requires s.Object? && t.Object? && forall k :: k in ks ==> k in s.members
    ensures MemberDiffs(s, t, path, ks)
         == Flatten(seq(|ks|, i requires 0 <= i < |ks| => MemberChange(s.members, t.members, path, ks[i])))
    decreases |ks|
  {
    hide Diff;
    hide Escape;
    hide RemoveOp;
    if ks != [] {
      var n := |ks|;
      var chunks := seq(n, i requires 0 <= i < n => MemberChange(s.members, t.members, path, ks[i]));
      var init := ks[..n - 1];
      MembersIs(s, t, path, init);
      assert chunks[..n - 1]
          == seq(n - 1, i requires 0 <= i < n - 1 => MemberChange(s.members, t.members, path, init[i]));
    }
  }

  lemma {:induction false} MemberAdditionsIs(s: Json, t: Json, path: string, ks: seq<string>)
    requires s.Object? && t.Object? && forall k :: k in ks ==> k in t.members
    ensures MemberAdditions(s, t, path, ks)
         == Flatten(seq(|ks|, i requires 0 <= i < |ks| => MemberAddition(s.members, t.members, path, ks[i])))
    decreases |ks|
  {
    hide Escape;
    hide AddOp;
    if ks != [] {
      var n := |ks|;
      var chunks := seq(n, i requires 0 <= i < n => MemberAddition(s.members, t.members, path, ks[i]));
      var init := ks[..n - 1];
      MemberAdditionsIs(s, t, path, init);
      assert chunks[..n - 1]
          == seq(n - 1, i requires 0 <= i < n - 1 => MemberAddition(s.members, t.members, path, init[i]));
    }
  }

  // Two objects: the members of the first in key order, changed or removed; then those of
  // the second that the first does not have.
  lemma DiffOfObjects(m: map<string, Json>, n: map<string, Json>, path: string, ks: seq<string>, ls: seq<string>)
    requires m != n && ks == Ordered(m.Keys) && ls == Ordered(n.Keys)
    ensures Diff(Object(m), Object(n), path)
         == Flatten(seq(|ks|, i requires 0 <= i < |ks| => MemberChange(m, n, path, ks[i])))
            + Flatten(seq(|ls|, i requires 0 <= i < |ls| => MemberAddition(m, n, path, ls[i])))
  {
    MembersIs(Object(m), Object(n), path, ks);
    MemberAdditionsIs(Object(m), Object(n), path, ls);
    hide MemberDiffs;
    hide MemberAdditions;
    hide MemberChange;
    hide MemberAddition;
    hide Ordered;
  }

  // Anything else: nothing for equal values, one replacement for others.
  lemma DiffOfOthers(s: Json, t: Json, path: string)
    requires s == t || !((s.Array? && t.Array?) || (s.Object? && t.Object?))
    ensures Diff(s, t, path) == if s == t then [] else [ReplaceOp(path, t)]
  {}

  // ---- the loops of the source ----

  // diff, with its pushes and its insertions at end_index.
  method ComputeDiff(s: Json, t: Json, path: string) returns (result: seq<Json>)
    ensures result == Diff(s, t, path)
    decreases s, 1
  {
    result := [];
    if s == t {
      return;
    }
    if !SameType(s, t) {
      result := result + [ReplaceOp(path, t)];
      return;
    }
    if s.Array? {
      result := ComputeArrayDiff(s, t, path);
    } else if s.Object? {
      result := ComputeObjectDiff(s, t, path);
    } else {
      result := result + [ReplaceOp(path, t)];
    }
  }

  method ComputeArrayDiff(s: Json, t: Json, path: string) returns (result: seq<Json>)
    requires s.Array? && t.Array?
    ensures var n := if |s.items| < |t.items| then |s.items| else |t.items|;
      result == CommonDiffs(s, t, path, n) + Removals(path, n, |s.items|) + Additions(t.items, path, n)
    decreases s, 0
  {
    hide Diff;
    hide ToString;
    result := [];
    var i := 0;
    ghost var n := if |s.items| < |t.items| then |s.items| else |t.items|;
    while i < |s.items| && i < |t.items|
      invariant 0 <= i <= n
      invariant result == CommonDiffs(s, t, path, i)
    {
      var temp := ComputeDiff(s.items[i], t.items[i], path + "/" + ToString(i));
      result := result + temp;
      i := i + 1;
    }
    var endIndex := |result|;
    ghost var common := result;
    while i < |s.items|
      invariant n <= i && (i <= |s.items| || i == n)
      invariant result == common + Removals(path, n, i)
    {
      result := result[..endIndex] + [RemoveOp(path + "/" + ToString(i))] + result[endIndex..];
      i := i + 1;
    }
    ghost var whole := result + Additions(t.items, path, n);
    while i < |t.items|
      invariant n <= i && (i <= |t.items| || n == |t.items|)
      invariant i <= |t.items| ==> result + Additions(t.items, path, i) == whole
      invariant i > |t.items| ==> result + Additions(t.items, path, n) == whole
    {
      var rest := Additions(t.items, path, i + 1);
      ghost var before, op := result, AddOp(path + "/-", t.items[i]);
      result := result + [AddOp(path + "/-", t.items[i])];
      assert before + ([op] + rest) == result + rest;
      i := i + 1;
    }
  }

  method ComputeObjectDiff(s: Json, t: Json, path: string) returns (result: seq<Json>)
    requires s.Object? && t.Object?
    ensures result == MemberDiffs(s, t, path, Ordered(s.members.Keys))
                      + MemberAdditions(s, t, path, Ordered(t.members.Keys))
    decreases s, 0, 1
  {
    hide *;
    var changed := ComputeMemberDiffs(s, t, path, Ordered(s.members.Keys));
    var added := ComputeMemberAdditions(s, t, path, Ordered(t.members.Keys));
    result := changed + added;
  }

  lemma MemberDiffsStep(s: Json, t: Json, path: string, ks: seq<string>, i: nat)
    requires s.Object? && t.Object? && (forall k :: k in ks ==> k in s.members) && i < |ks|
    ensures MemberDiffs(s, t, path, ks[..i + 1]) == MemberDiffs(s, t, path, ks[..i])
      + if ks[i] in t.members then Diff(s.members[ks[i]], t.members[ks[i]], path + "/" + Escape(ks[i]))
        else [RemoveOp(path + "/" + Escape(ks[i]))]
  {
    hide Diff;
    hide Escape;
    hide RemoveOp;
    assert ks[..i + 1][..i] == ks[..i];
  }

  // First pass: the members of the source, in map order.
  method ComputeMemberDiffs(s: Json, t: Json, path: string, ks: seq<string>) returns (result: seq<Json>)
    requires s.Object? && t.Object? && forall k :: k in ks ==> k in s.members
    ensures result == MemberDiffs(s, t, path, ks)
    decreases s, 0, 0
  {
    result := [];
    assert MemberDiffs(s, t, path, ks[..0]) == [];
    hide *;
    for i := 0 to |ks|
      invariant result == MemberDiffs(s, t, path, ks[..i])
    {
      var k := ks[i];
      MemberDiffsStep(s, t, path, ks, i);
      var pathKey := path + "/" + Escape(k);
      if k in t.members {
        var temp := ComputeDiff(s.members[k], t.members[k], pathKey);
        result := result + temp;
      } else {
        result := result + [RemoveOp(pathKey)];
      }
    }
    assert ks[..|ks|] == ks;
  }

  // Second pass: the members of the target that the source does not have.
  method ComputeMemberAdditions(s: Json, t: Json, path: string, ks: seq<string>) returns (result: seq<Json>)
    requires s.Object? && t.Object? && forall k :: k in ks ==> k in t.members
    ensures result == MemberAdditions(s, t, path, ks)
  {
    hide Escape;
    result := [];
    for i := 0 to |ks|
      invariant result == MemberAdditions(s, t, path, ks[..i])
    {
      var k := ks[i];
      assert ks[..i + 1][..i] == ks[..i];
      if k !in s.members {
        result := result + [AddOp(path + "/" + Escape(k), t.members[k])];
      }
    }
    assert ks[..|ks|] == ks;
  }

  // A JSON value that is changed in place.
  class Document {
    var root: Json

    constructor (root: Json)
      ensures this.root == root
    {
      this.root := root;
    }

    method OperationAdd(ptr: seq<string>, v: Json) returns (error: Option<Id>)
      modifies this
      ensures Outcome(root, error) == Add(old(root), ptr, v)
    {
      hide At;
      hide Put;
      // an empty pointer names the whole document
      if ptr == [] {
        root := v;
        return None;
      }
      // a longer one must at least begin somewhere
      if |ptr| > 1 {
        var top := At(root, [ptr[0]]);
        if top.Err? { return Some(top.error); }
      }
      var lastPath := Last(ptr);
      var parent := At(root, Parent(ptr));
      if parent.Err? { return Some(parent.error); }
      match parent.value {
        case Null =>
          root := Put(root, Parent(ptr), Object(map[lastPath := v]));
        case Object(m) =>
          root := Put(root, Parent(ptr), Object(m[lastPath := v]));
        case Array(a) =>
          if lastPath == "-" {
            root := Put(root, Parent(ptr), Array(a + [v]));
          } else {
            var idx := ArrayIndex(lastPath);
            if idx.Err? { return Some(idx.error); }
            if idx.value > |a| { return Some(401); }
            root := Put(root, Parent(ptr), Array(a[..idx.value] + [v] + a[idx.value..]));
          }
        case _ =>
          return Some(411);
      }
      return None;
    }

    method OperationRemove(ptr: seq<string>) returns (error: Option<Id>)
      modifies this
      ensures Outcome(root, error) == Remove(old(root), ptr)
    {
      hide At;
      if ptr == [] { return Some(405); }
      var lastPath := Last(ptr);
      var parent := At(root, Parent(ptr));
      if parent.Err? { return Some(parent.error); }
      if parent.value.Object? {
        var m := parent.value.members;
        if lastPath !in m { return Some(403); }
        root := Put(root, Parent(ptr), Object(m - {lastPath}));
      } else if parent.value.Array? {
        var a, idx := parent.value.items, ArrayIndex(lastPath);
        if idx.Err? { return Some(idx.error); }
        if idx.value >= |a| { return Some(401); }
        root := Put(root, Parent(ptr), Array(a[..idx.value] + a[idx.value + 1..]));
      } else {
        PutSame(root, Parent(ptr));
      }
      return None;
    }

    // "move" and "copy": the value is read before anything changes.
    method Transfer(ptr: seq<string>, from: seq<string>, move: bool) returns (error: Option<Id>)
      modifies this
      ensures Outcome(root, error) == Moved(old(root), ptr, from, move)
      ensures error == None ==> At(root, ptr) == At(old(root), from) || (Last(ptr) == "-" && At(root, ptr) == Err(402))
      ensures ptr == from != [] && move && At(old(root), from).Ok? ==> error == None && root == old(root)
    {
      ghost var was := root;
      if Moved(was, ptr, from, move).error == None { MovedIsThere(was, ptr, from, move); }
      if ptr == from && At(was, from).Ok? { MoveToItself(was, from); }
      hide At;
      hide Add;
      hide Remove;
      var v := At(root, from);
      if v.Err? { return Some(v.error); }
      if move {
        error := OperationRemove(from);
        if error.Some? { return; }
      }
      error := OperationAdd(ptr, v.value);
    }

    // The switch over the operation.
    method Execute(op: string, ptr: seq<string>, val: map<string, Json>) returns (error: Option<Id>)
      modifies this
      ensures Outcome(root, error) == Perform(old(root), op, ptr, val)
    {
      hide At;
      hide Split;
      hide Add;
      hide Remove;
      hide Moved;
      error := None;
      if op == "add" {
        if "value" !in val { return Some(105); }
        error := OperationAdd(ptr, val["value"]);
      } else if op == "remove" {
        error := OperationRemove(ptr);
      } else if op == "replace" {
        if "value" !in val { return Some(105); }
        var target := At(root, ptr);
        if target.Err? { return Some(target.error); }
        root := Put(root, ptr, val["value"]);
      } else if op == "move" || op == "copy" {
        var from := StringMember(val, "from");
        if from.Err? { return Some(105); }
        var fromPtr := Split(from.value);
        if fromPtr.Err? { return Some(fromPtr.error); }
        error := Transfer(ptr, fromPtr.value, op == "move");
      } else if op == "test" {
        // an out_of_range exception counts as a failed test
        var target := At(root, ptr);
        if target.Err? { return Some(if 400 <= target.error < 500 then 501 else target.error); }
        if "value" !in val { return Some(105); }
        if target.value != val["value"] { return Some(501); }
      } else {
        return Some(105);
      }
    }

    // patch_inplace: an exception leaves the effect of the operations before it.
    method ApplyPatch(patch: Json) returns (error: Option<Id>)
      modifies this
      ensures Outcome(root, error) == PatchInPlace(old(root), patch)
    {
      hide Perform;
      hide Split;
      if !patch.Array? {
        return Some(104);
      }
      for i := 0 to |patch.items|
        invariant ApplyAll(root, patch.items[i..]) == ApplyAll(old(root), patch.items)
      {
        error := ApplyOne(patch.items[i]);
        if error.Some? { return; }
      }
      return None;
    }

    // One element of the patch: its mandatory members, then the operation.
    method ApplyOne(val: Json) returns (error: Option<Id>)
      modifies this
      ensures Outcome(root, error) == ApplyOp(old(root), val)
    {
      hide Perform;
      hide Split;
      if !val.Object? { return Some(104); }
      var op := StringMember(val.members, "op");
      if op.Err? { return Some(op.error); }
      var path := StringMember(val.members, "path");
      if path.Err? { return Some(path.error); }
      var ptr := Split(path.value);
      if ptr.Err? { return Some(ptr.error); }
      error := Execute(op.value, ptr.value, val.members);
    }
  }

  // Diffing two documents and patching the first gives the second.
  method Transform(doc: Document, target: Json)
    modifies doc
    ensures doc.root == target
  {
    hide Diff;
    hide ApplyAll;
    PatchOfDiff(doc.root, target);
    var ops := ComputeDiff(doc.root, target, "");
    var error := doc.ApplyPatch(Array(ops));
  }
}
