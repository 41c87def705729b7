// Releasing a JSON value without recursion: json_value::destroy in libs/nlohmann/json.hpp.
module JsonDestroy {
  import opened Json

  function Values(j: Json, ks: seq<string>): (vs: seq<Json>)
    requires j.Object? && forall k :: k in ks ==> k in j.members
    ensures |vs| == |ks| && forall i :: 0 <= i < |vs| ==> vs[i] == j.members[ks[i]]
  {
    if ks == [] then [] else [j.members[ks[0]]] + Values(j, ks[1..])
  }

  function Names(j: Json): (ks: seq<string>)
    requires j.Object?
    ensures forall k :: k in ks <==> k in j.members
  {
    Ordered(j.members.Keys)
  }

  // What a value holds, in the order of its iterators.
  function Children(j: Json): seq<Json> {
    match j
    case Array(a) => a
    case Object(_) => Values(j, Names(j))
    case _ => []
  }

  lemma ChildIsSmaller(j: Json, i: nat)
    requires i < |Children(j)|
    ensures Children(j)[i] < j
  {
    hide Names;
    if j.Object? {
      assert Children(j)[i] == j.members[Names(j)[i]];
    }
  }

  // A value with everything below it, each value as often as it occurs.
  function Tree(j: Json): multiset<Json>
    decreases j, 1, 0
  {
    multiset{j} + Below(j, |Children(j)|)
  }

  // Everything below the first n children, with these children.
  function Below(j: Json, n: nat): multiset<Json>
    requires n <= |Children(j)|
    decreases j, 0, n
  {
    if n == 0 then multiset{} else
      ChildIsSmaller(j, n - 1);
      Below(j, n - 1) + Tree(Children(j)[n - 1])
  }

  function Descendants(j: Json): multiset<Json> {
    Below(j, |Children(j)|)
  }

  function Forest(s: seq<Json>): multiset<Json> {
    if s == [] then multiset{} else Forest(s[..|s| - 1]) + Tree(s[|s| - 1])
  }

  lemma {:induction false} ForestConcat(a: seq<Json>, b: seq<Json>)
    ensures Forest(a + b) == Forest(a) + Forest(b)
  {
    hide Tree;
    if b == [] {
      assert a + b == a;
    } else {
      assert (a + b)[..|a + b| - 1] == a + b[..|b| - 1];
      ForestConcat(a, b[..|b| - 1]);
    }
  }

  lemma {:induction false} ForestOfChildren(j: Json, n: nat)
    requires n <= |Children(j)|
    ensures Forest(Children(j)[..n]) == Below(j, n)
    decreases n
  {
    hide Tree;
    hide Children;
    if n > 0 {
      assert Children(j)[..n][..n - 1] == Children(j)[..n - 1];
      ForestOfChildren(j, n - 1);
    }
  }

  // ---- what the descendants are ----

  lemma {:induction false} ValuesConcat(j: Json, a: seq<string>, b: seq<string>)
    requires j.Object? && (forall k :: k in a ==> k in j.members) && (forall k :: k in b ==> k in j.members)
    ensures Values(j, a + b) == Values(j, a) + Values(j, b)
  {}

  lemma SameValues(j: Json, rest: Json, ls: seq<string>)
    requires j.Object? && rest.Object?
    requires forall l :: l in ls ==> l in rest.members && l in j.members && rest.members[l] == j.members[l]
    ensures Values(j, ls) == Values(rest, ls)
  {}

  lemma OneValue(j: Json, k: string)
    requires j.Object? && k in j.members
    ensures Values(j, [k]) == [j.members[k]]
  {
    assert [k][1..] == [];
  }

  // An object: any one member with its descendants, and those of the rest.
  lemma DescendantsOfObject(m: map<string, Json>, k: string)
    requires k in m
    ensures Descendants(Object(m)) == Descendants(Object(m - {k})) + (multiset{m[k]} + Descendants(m[k]))
  {
    var x, y := ChildrenAround(m, k);
    ForestAround(m, k, x, y);
    ForestOne(m[k]);
    ForestBelow(Object(m));
    ForestBelow(Object(m - {k}));
    hide *;
  }

  // The children of an object before and after one member.
  lemma ChildrenAround(m: map<string, Json>, k: string) returns (x: seq<Json>, y: seq<Json>)
    requires k in m
    ensures Children(Object(m)) == x + [m[k]] + y && Children(Object(m - {k})) == x + y
  {
    var a, b := OrderedWithout(m.Keys, k);
    assert (m - {k}).Keys == m.Keys - {k};
    ChildrenOfObject(m);
    ChildrenOfObject(m - {k});
    hide *;
    assert forall l :: l in a + b ==> l in m - {k};
    InParts(m, a, k, b);
    x, y := Values(Object(m), a), Values(Object(m), b);
  }

  lemma ForestAround(m: map<string, Json>, k: string, x: seq<Json>, y: seq<Json>)
    requires k in m
    ensures Forest(x + [m[k]] + y) == Forest(x + y) + Forest([m[k]])
  {
    hide *;
    ForestConcat(x + [m[k]], y);
    ForestConcat(x, [m[k]]);
    ForestConcat(x, y);
  }

  lemma ChildrenOfObject(m: map<string, Json>)
    ensures (forall k :: k in Ordered(m.Keys) <==> k in m)
    ensures Children(Object(m)) == Values(Object(m), Ordered(m.Keys))
  {
    hide Ordered;
  }

  lemma InParts(m: map<string, Json>, x: seq<string>, k: string, y: seq<string>)
    requires k in m && (forall l :: l in x + y ==> l in m - {k})
    ensures forall l :: l in x + [k] + y ==> l in m
    ensures (forall l :: l in x ==> l in m) && (forall l :: l in y ==> l in m)
    ensures Values(Object(m), x + [k] + y) == Values(Object(m), x) + [m[k]] + Values(Object(m), y)
    ensures Values(Object(m - {k}), x + y) == Values(Object(m), x) + Values(Object(m), y)
  {
    assert forall l :: l in x ==> l in x + y;
    assert forall l :: l in y ==> l in x + y;
    var j := Object(m);
    ValuesConcat(j, x + [k], y);
    ValuesConcat(j, x, [k]);
    OneValue(j, k);
    ValuesConcat(j, x, y);
    SameValues(j, Object(m - {k}), x + y);
  }

  // An array: those of the last element, with the element itself, and those of the rest.
  lemma DescendantsOfArray(a: seq<Json>)
    requires a != []
    ensures var n := |a| - 1;
      Descendants(Array(a)) == Descendants(Array(a[..n])) + (multiset{a[n]} + Descendants(a[n]))
  {
    var n := |a| - 1;
    ForestBelow(Array(a));
    ForestBelow(Array(a[..n]));
    assert a == a[..n] + [a[n]];
    ForestConcat(a[..n], [a[n]]);
    ForestOne(a[n]);
    hide Forest;
    hide Descendants;
  }

  // Nothing below anything else.
  lemma DescendantsOfLeaf(j: Json)
    requires (j.Array? ==> j.items == []) && (j.Object? ==> j.members == map[])
    ensures Descendants(j) == multiset{}
  {
    assert j.Object? ==> j.members.Keys == {};
  }

  // What std::move and clear leave of a value whose children are taken out.
  function Shell(j: Json): Json {
    match j
    case Array(_) => Array([])
    case Object(_) => Object(map[])
    case _ => j
  }

  // The moved-from container: its elements are all null.
  function Hollow(j: Json): Json {
    match j
    case Array(a) => Array(seq(|a|, i => Null))
    case Object(m) => Object(map k | k in m :: Null)
    case _ => j
  }

  lemma HollowHoldsNulls(j: Json)
    ensures |Children(Hollow(j))| == |Children(j)|
    ensures forall i :: 0 <= i < |Children(j)| ==> Children(Hollow(j))[i] == Null
  {
    if j.Object? { assert Hollow(j).members.Keys == j.members.Keys; }
  }

  // The stack loop. `released` are the values in the order they are taken from the
  // stack, `husks` what is left of each when its destructor runs, `rest` the value itself
  // at the end. The loop ends because every round takes one value off the forest.
  method Destroy(j: Json) returns (rest: Json, released: seq<Json>, husks: seq<Json>)
    ensures multiset(released) == Descendants(j) && |released| == |Descendants(j)|
    ensures |husks| == |released|
    ensures forall i :: 0 <= i < |husks| ==>
      husks[i] == if released[i].Array? then Array([]) else if released[i].Object? then Object(map[]) else released[i]
    ensures rest == if j.Array? then Array(seq(|j.items|, _ => Null))
                    else if j.Object? then Object(map k | k in j.members :: Null) else j
  {
    rest, released, husks := Hollow(j), [], [];
    var stack := Children(j);
    ForestBelow(j);
    ForestNone();
    hide Children;
    hide Forest;
    hide Tree;
    hide Below;
    hide Descendants;
    while stack != []
      invariant multiset(released) + Forest(stack) == Descendants(j)
      invariant |husks| == |released|
      invariant forall i :: 0 <= i < |husks| ==> husks[i] == Shell(released[i])
      decreases |Forest(stack)|
    {
      var current := stack[|stack| - 1];
      ghost var before := stack;
      stack := stack[..|stack| - 1];
      assert before == stack + [current];
      Unfold(stack, current);
      if current.Array? || current.Object? {
        stack := stack + Children(current);
      }
      released := released + [current];
      husks := husks + [Shell(current)];
    }
  }

  lemma ForestNone()
    ensures Forest([]) == multiset{}
  {}

  // When a destructor runs, nothing is below: it never recurses.
  lemma ShellIsEmpty(j: Json)
    ensures Descendants(Shell(j)) == multiset{}
  {
    DescendantsOfLeaf(Shell(j));
  }

  lemma ForestOne(j: Json)
    ensures Forest([j]) == multiset{j} + Descendants(j)
  {
    hide Children;
    hide Below;
    assert [j][..0] == [];
  }

  lemma ForestBelow(j: Json)
    ensures Forest(Children(j)) == Descendants(j)
  {
    hide Children;
    hide Below;
    ForestOfChildren(j, |Children(j)|);
    assert Children(j)[..|Children(j)|] == Children(j);
  }

  lemma NoChildren(j: Json)
    ensures !j.Array? && !j.Object? ==> Children(j) == []
  {}

  // One round: a value traded for its children.
  lemma Unfold(stack: seq<Json>, j: Json)
    ensures Forest(stack + [j]) == Forest(stack + Children(j)) + multiset{j}
    ensures !(j.Array? || j.Object?) ==> stack + Children(j) == stack
  {
    NoChildren(j);
    hide *;
    ForestConcat(stack, Children(j));
    ForestConcat(stack, [j]);
    ForestOne(j);
    ForestBelow(j);
  }
}
