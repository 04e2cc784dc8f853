/** jsmntree_free_tree / _object / _array (lib/jsmntree.c:422-483): the
    reverse walk that releases a tree. Each container is emptied from its
    last slot to its first: the member's name is released, a nested object
    or array is freed first, then the value and the slot, and size drops
    by one. Releasing memory has no meaning here; what the model keeps is
    the walk itself, the sizes it drives to 0 and the order in which
    member names are released. */
module Destructor {
  import opened Options
  import opened JsmnTreeTypes
  import opened Abstraction

  /** The nodes of the subtree rooted at node k. */
  function Desc(nodes: seq<Node>, k: nat): set<nat>
    decreases |nodes| - k, 1, 0
  {
    if k >= |nodes| then {} else {k} + SlotsDesc(nodes, k, 0)
  }

  /** The nodes below the slots j, j+1, ... of node k. */
  function SlotsDesc(nodes: seq<Node>, k: nat, j: nat): set<nat>
    requires k < |nodes|
    decreases |nodes| - k, 0, nodes[k].size - j
  {
    if j >= nodes[k].size then {}
    else
      var below := match ChildAt(nodes[k], j)
        case Some(c) => if k < c < |nodes| then Desc(nodes, c) else {}
        case None => {};
      below + SlotsDesc(nodes, k, j + 1)
  }

  /** The subtree reached through a payload. */
  function PayloadDesc(nodes: seq<Node>, p: Payload): set<nat> {
    match p
    case ObjectRef(c) => Desc(nodes, c)
    case ArrayRef(c) => Desc(nodes, c)
    case _ => {}
  }

  lemma {:induction false} DescBounds(nodes: seq<Node>, k: nat)
    requires k < |nodes|
    ensures forall r :: r in Desc(nodes, k) ==> k <= r < |nodes|
    decreases |nodes| - k, 1, 0
  {
    SlotsDescBounds(nodes, k, 0);
  }

  lemma {:induction false} SlotsDescBounds(nodes: seq<Node>, k: nat, j: nat)
    requires k < |nodes|
    ensures forall r :: r in SlotsDesc(nodes, k, j) ==> k < r < |nodes|
    decreases |nodes| - k, 0, nodes[k].size - j
  {
    if j < nodes[k].size {
      SlotsDescBounds(nodes, k, j + 1);
      if ChildAt(nodes[k], j).Some? && k < ChildAt(nodes[k], j).value < |nodes| {
        DescBounds(nodes, ChildAt(nodes[k], j).value);
      }
    }
  }

  /** A node below the slots from j on sits under one of them. */
  lemma {:induction false} SlotsDescWitness(nodes: seq<Node>, k: nat, j: nat, r: nat) returns (t: nat, c: nat)
    requires k < |nodes| && r in SlotsDesc(nodes, k, j)
    ensures j <= t < nodes[k].size && ChildAt(nodes[k], t) == Some(c) && k < c < |nodes|
    ensures r in Desc(nodes, c)
    decreases nodes[k].size - j
  {
    var below := match ChildAt(nodes[k], j)
      case Some(c) => if k < c < |nodes| then Desc(nodes, c) else {}
      case None => {};
    if r in below {
      t, c := j, ChildAt(nodes[k], j).value;
    } else {
      t, c := SlotsDescWitness(nodes, k, j + 1, r);
    }
  }

  /** The subtree under slot t is part of what lies below the slots from j. */
  lemma {:induction false} SlotsDescHas(nodes: seq<Node>, k: nat, j: nat, t: nat, c: nat)
    requires k < |nodes| && j <= t < nodes[k].size
    requires ChildAt(nodes[k], t) == Some(c) && k < c < |nodes|
    ensures Desc(nodes, c) <= SlotsDesc(nodes, k, j)
    decreases t - j
  {
    if j < t {
      SlotsDescHas(nodes, k, j + 1, t, c);
    }
  }

  /** Every node of a subtree but its root has a parent slot in it. */
  lemma {:induction false} ParentIn(nodes: seq<Node>, c: nat, r: nat) returns (p: nat, t: nat)
    requires c < |nodes| && r in Desc(nodes, c) && r != c
    ensures p in Desc(nodes, c) && p < r && p < |nodes|
    ensures t < nodes[p].size && ChildAt(nodes[p], t) == Some(r)
    decreases |nodes| - c
  {
    var t', c' := SlotsDescWitness(nodes, c, 0, r);
    SlotsDescHas(nodes, c, 0, t', c');
    if r == c' {
      p, t := c, t';
    } else {
      p, t := ParentIn(nodes, c', r);
    }
  }

  /** In a tree two subtrees that share a node are nested. */
  lemma {:induction false} Nested(nodes: seq<Node>, a: nat, b: nat, r: nat)
    requires Owned(nodes) && a < |nodes| && b < |nodes|
    requires r in Desc(nodes, a) && r in Desc(nodes, b)
    ensures a in Desc(nodes, b) || b in Desc(nodes, a)
    decreases r
  {
    if r != a && r != b {
      var pa, ta := ParentIn(nodes, a, r);
      var pb, tb := ParentIn(nodes, b, r);
      assert pa == pb;
      Nested(nodes, a, b, pa);
    }
  }

  /** The subtrees under two different slots of a node are disjoint. */
  lemma SiblingsDisjoint(nodes: seq<Node>, k: nat, s: nat, t: nat)
    requires Linked(nodes) && Owned(nodes) && k < |nodes| && s != t
    requires ChildAt(nodes[k], s).Some? && ChildAt(nodes[k], t).Some?
    ensures Desc(nodes, ChildAt(nodes[k], s).value) !! Desc(nodes, ChildAt(nodes[k], t).value)
  {
    var a, b := ChildAt(nodes[k], s).value, ChildAt(nodes[k], t).value;
    ChildForward(nodes, k, s);
    ChildForward(nodes, k, t);
    forall r | r in Desc(nodes, a) && r in Desc(nodes, b)
      ensures false
    {
      Nested(nodes, a, b, r);
      if a in Desc(nodes, b) {
        var p, u := ParentIn(nodes, b, a);
        DescBounds(nodes, b);
      } else {
        var p, u := ParentIn(nodes, a, b);
        DescBounds(nodes, a);
      }
    }
  }

  /** The subtree under slot s is apart from those under the later slots. */
  lemma SlotsDisjoint(nodes: seq<Node>, k: nat, s: nat, j: nat)
    requires Linked(nodes) && Owned(nodes) && k < |nodes| && s < j
    requires ChildAt(nodes[k], s).Some?
    ensures Desc(nodes, ChildAt(nodes[k], s).value) !! SlotsDesc(nodes, k, j)
  {
    forall r | r in Desc(nodes, ChildAt(nodes[k], s).value) && r in SlotsDesc(nodes, k, j)
      ensures false
    {
      var t, c := SlotsDescWitness(nodes, k, j, r);
      SiblingsDisjoint(nodes, k, s, t);
    }
  }

  /** What hangs below a filled slot of node c is part of c's subtree. */
  lemma SlotPayloadInside(nodes: seq<Node>, c: nat, j: nat)
    requires Linked(nodes) && c < |nodes| && j < nodes[c].size
    ensures j < nodes[c].Capacity() && nodes[c].Filled(j) && PayloadOk(nodes, c, nodes[c].PayloadAt(j))
    ensures PayloadDesc(nodes, nodes[c].PayloadAt(j)) <= Desc(nodes, c)
  {
    assert NodeLinked(nodes, c);
    var p := nodes[c].PayloadAt(j);
    if p.ObjectRef? || p.ArrayRef? {
      assert ChildAt(nodes[c], j) == Some(p.node);
      SlotsDescHas(nodes, c, 0, j, p.node);
    }
  }

  /** A node's subtree and value depend only on the nodes of that subtree. */
  lemma {:induction false} DescFrame(n1: seq<Node>, n2: seq<Node>, c: nat)
    requires Linked(n1) && |n1| == |n2| && c < |n1|
    requires forall r :: 0 <= r < |n1| && r in Desc(n1, c) ==> n2[r] == n1[r]
    ensures Desc(n2, c) == Desc(n1, c) && AbsNode(n2, c) == AbsNode(n1, c)
    decreases |n1| - c, 1
  {
    SlotsFrame(n1, n2, c, 0);
    assert NodeLinked(n1, c);
    match n1[c]
    case ObjectNode(size, cells) =>
      forall j | 0 <= j < size
        ensures AbsMember(n2, c, cells[j]) == AbsMember(n1, c, cells[j])
      {
        assert n1[c].Filled(j);
        SlotPayloadInside(n1, c, j);
        PayloadDescFrame(n1, n2, c, n1[c].PayloadAt(j));
      }
    case ArrayNode(size, cells) =>
      forall j | 0 <= j < size
        ensures AbsElement(n2, c, cells[j]) == AbsElement(n1, c, cells[j])
      {
        assert n1[c].Filled(j);
        SlotPayloadInside(n1, c, j);
        PayloadDescFrame(n1, n2, c, n1[c].PayloadAt(j));
      }
  }

  /** A payload of node c keeps its value when its subtree, part of c's,
      is unchanged. */
  lemma {:induction false} PayloadDescFrame(n1: seq<Node>, n2: seq<Node>, c: nat, p: Payload)
    requires Linked(n1) && |n1| == |n2| && c < |n1| && PayloadOk(n1, c, p)
    requires PayloadDesc(n1, p) <= Desc(n1, c)
    requires forall r :: 0 <= r < |n1| && r in Desc(n1, c) ==> n2[r] == n1[r]
    ensures AbsPayload(n2, c, p) == AbsPayload(n1, c, p)
    decreases |n1| - c, 0
  {
    if p.ObjectRef? || p.ArrayRef? {
      DescFrame(n1, n2, p.node);
    }
  }

  lemma {:induction false} SlotsFrame(n1: seq<Node>, n2: seq<Node>, k: nat, j: nat)
    requires Linked(n1) && |n1| == |n2| && k < |n1| && n2[k] == n1[k]
    requires forall r :: 0 <= r < |n1| && r in SlotsDesc(n1, k, j) ==> n2[r] == n1[r]
    ensures SlotsDesc(n2, k, j) == SlotsDesc(n1, k, j)
    decreases |n1| - k, 0, n1[k].size - j
  {
    if j < n1[k].size {
      SlotsFrame(n1, n2, k, j + 1);
      if ChildAt(n1[k], j).Some? && k < ChildAt(n1[k], j).value < |n1| {
        DescFrame(n1, n2, ChildAt(n1[k], j).value);
      }
    }
  }

  /** The node with its size field set: --size, or size driven to 0. */
  function WithSize(n: Node, size: nat): (r: Node)
    ensures r.size == size && r.Type() == n.Type() && r.Capacity() == n.Capacity()
  {
    match n
    case ObjectNode(_, cells) => ObjectNode(size, cells)
    case ArrayNode(_, cells) => ArrayNode(size, cells)
  }

  /** cur is nodes with some sizes lowered, nothing else changed: the state
      of the arena part way through the walk. */
  predicate Shrunk(nodes: seq<Node>, cur: seq<Node>) {
    && |cur| == |nodes|
    && forall r :: 0 <= r < |nodes| ==>
         cur[r] == WithSize(nodes[r], cur[r].size) && cur[r].size <= nodes[r].size
  }

  /** Lowering sizes keeps a tree a tree. */
  lemma ShrunkKeepsTree(nodes: seq<Node>, cur: seq<Node>)
    requires Linked(nodes) && Owned(nodes) && Shrunk(nodes, cur)
    ensures Linked(cur) && Owned(cur)
  {
    forall q: nat, j: nat | q < |cur| && ChildAt(cur[q], j).Some?
      ensures ChildAt(cur[q], j) == ChildAt(nodes[q], j)
    {
    }
    forall q | 0 <= q < |cur|
      ensures NodeLinked(cur, q)
    {
      assert NodeLinked(nodes, q);
      forall j | 0 <= j < cur[q].size
        ensures cur[q].Filled(j) && PayloadOk(cur, q, cur[q].PayloadAt(j))
      {
        assert nodes[q].Filled(j) && PayloadOk(nodes, q, nodes[q].PayloadAt(j));
      }
    }
  }

  /** The member names in the order the walk releases them: the last
      member first, each name before the names inside its value. */
  function FreeOrder(v: Value): seq<string>
    decreases v, 1
  {
    match v
    case Obj(ms) => FreeMembers(ms)
    case Arr(es) => FreeElements(es)
    case _ => []
  }

  function FreeMembers(ms: seq<Member>): seq<string>
    decreases ms, 0
  {
    if ms == [] then []
    else [ms[|ms| - 1].name] + FreeOrder(ms[|ms| - 1].value) + FreeMembers(ms[..|ms| - 1])
  }

  function FreeElements(es: seq<Value>): seq<string>
    decreases es, 0
  {
    if es == [] then []
    else FreeOrder(es[|es| - 1]) + FreeElements(es[..|es| - 1])
  }

  /** Every member name of a value, counted with repetition, read front to
      back. */
  function Names(v: Value): multiset<string>
    decreases v, 1
  {
    match v
    case Obj(ms) => MemberNames(ms)
    case Arr(es) => ElementNames(es)
    case _ => multiset{}
  }

  function MemberNames(ms: seq<Member>): multiset<string>
    decreases ms, 0
  {
    if ms == [] then multiset{}
    else multiset{ms[0].name} + Names(ms[0].value) + MemberNames(ms[1..])
  }

  function ElementNames(es: seq<Value>): multiset<string>
    decreases es, 0
  {
    if es == [] then multiset{} else Names(es[0]) + ElementNames(es[1..])
  }

  lemma {:induction false} MemberNamesSnoc(ms: seq<Member>, m: Member)
    ensures MemberNames(ms + [m]) == MemberNames(ms) + multiset{m.name} + Names(m.value)
  {
    if ms != [] {
      assert (ms + [m])[1..] == ms[1..] + [m];
      MemberNamesSnoc(ms[1..], m);
    } else {
      assert ([m])[1..] == [];
    }
  }

  lemma {:induction false} ElementNamesSnoc(es: seq<Value>, e: Value)
    ensures ElementNames(es + [e]) == ElementNames(es) + Names(e)
  {
    if es != [] {
      assert (es + [e])[1..] == es[1..] + [e];
      ElementNamesSnoc(es[1..], e);
    } else {
      assert ([e])[1..] == [];
    }
  }

  /** The walk releases every member name of the tree exactly once. */
  lemma {:induction false} FreeReleasesEveryName(v: Value)
    ensures multiset(FreeOrder(v)) == Names(v)
    decreases v, 1
  {
    match v
    case Obj(ms) => MembersReleased(ms);
    case Arr(es) => ElementsReleased(es);
    case _ =>
  }

  lemma {:induction false} MembersReleased(ms: seq<Member>)
    ensures multiset(FreeMembers(ms)) == MemberNames(ms)
    decreases ms, 0
  {
    if ms != [] {
      var n := |ms| - 1;
      var rest := FreeMembers(ms[..n]);
      assert FreeMembers(ms) == [ms[n].name] + FreeOrder(ms[n].value) + rest;
      assert multiset(FreeMembers(ms)) ==
        multiset{ms[n].name} + multiset(FreeOrder(ms[n].value)) + multiset(rest);
      FreeReleasesEveryName(ms[n].value);
      MembersReleased(ms[..n]);
      MemberNamesSnoc(ms[..n], ms[n]);
      assert ms[..n] + [ms[n]] == ms;
    }
  }

  lemma {:induction false} ElementsReleased(es: seq<Value>)
    ensures multiset(FreeElements(es)) == ElementNames(es)
    decreases es, 0
  {
    if es != [] {
      var n := |es| - 1;
      var rest := FreeElements(es[..n]);
      assert FreeElements(es) == FreeOrder(es[n]) + rest;
      assert multiset(FreeElements(es)) == multiset(FreeOrder(es[n])) + multiset(rest);
      FreeReleasesEveryName(es[n]);
      ElementsReleased(es[..n]);
      ElementNamesSnoc(es[..n], es[n]);
      assert es[..n] + [es[n]] == es;
    }
  }

  /** Releasing one more member, at the front of what is still to do,
      extends the order at its end: the walk runs back to front. */
  lemma {:induction false} FreeMembersCons(m: Member, ms: seq<Member>)
    ensures FreeMembers([m] + ms) == FreeMembers(ms) + [m.name] + FreeOrder(m.value)
  {
    if ms != [] {
      var n := |ms| - 1;
      assert ([m] + ms)[..n + 1] == [m] + ms[..n];
      FreeMembersCons(m, ms[..n]);
    } else {
      assert ([m])[..0] == [];
    }
  }

  lemma {:induction false} FreeElementsCons(e: Value, es: seq<Value>)
    ensures FreeElements([e] + es) == FreeElements(es) + FreeOrder(e)
  {
    if es != [] {
      var n := |es| - 1;
      assert ([e] + es)[..n + 1] == [e] + es[..n];
      FreeElementsCons(e, es[..n]);
    } else {
      assert ([e])[..0] == [];
    }
  }

  /** The arena after freeing a subtree: every node of the subtree has size
      0, every other node is as it was. */
  predicate Emptied(nodes: seq<Node>, out: seq<Node>, sub: set<nat>) {
    && |out| == |nodes|
    && forall r :: 0 <= r < |nodes| ==>
         out[r] == (if r in sub then WithSize(nodes[r], 0) else nodes[r])
  }

  /** The switch in the loop bodies (lib/jsmntree.c:437-447, 465-475): a
      nested object or array is freed before its slot; any other value has
      nothing below it. */
  method FreeValue(nodes: seq<Node>, k: nat, p: Payload) returns (out: seq<Node>, log: seq<string>)
    requires Linked(nodes) && Owned(nodes) && k < |nodes| && PayloadOk(nodes, k, p)
    ensures Emptied(nodes, out, PayloadDesc(nodes, p))
    ensures log == FreeOrder(AbsPayload(nodes, k, p))
    decreases |nodes| - k, 0
  {
    match p
    case ObjectRef(c) =>
      out, log := FreeObject(nodes, c);
    case ArrayRef(c) =>
      out, log := FreeArray(nodes, c);
    case _ =>
      out, log := nodes, [];
  }

  /** Before the walk frees what hangs below slot s - 1 of node k: the
      arena so far is still a tree, and that slot's subtree is untouched,
      since the walk so far emptied only the subtrees of later slots. */
  lemma WalkReady(nodes: seq<Node>, k: nat, s: nat, out: seq<Node>, p: Payload)
    requires Linked(nodes) && Owned(nodes) && k < |nodes| && 0 < s <= nodes[k].size
    requires Shrunk(nodes, out) && out[k].size == s
    requires Emptied(nodes[k := out[k]], out, SlotsDesc(nodes, k, s))
    requires s - 1 < nodes[k].Capacity() && nodes[k].Filled(s - 1) && p == nodes[k].PayloadAt(s - 1)
    requires PayloadOk(nodes, k, p)
    ensures Linked(out) && Owned(out) && PayloadOk(out, k, p)
    ensures PayloadDesc(out, p) == PayloadDesc(nodes, p)
    ensures AbsPayload(out, k, p) == AbsPayload(nodes, k, p)
    ensures forall r :: 0 <= r < |nodes| && r in PayloadDesc(nodes, p) ==> out[r] == nodes[r]
    ensures k !in PayloadDesc(nodes, p)
  {
    ShrunkKeepsTree(nodes, out);
    if p.ObjectRef? || p.ArrayRef? {
      var c := p.node;
      assert ChildAt(nodes[k], s - 1) == Some(c);
      SlotsDisjoint(nodes, k, s - 1, s);
      DescBounds(nodes, c);
      SlotsDescBounds(nodes, k, s);
      forall r | 0 <= r < |nodes| && r in Desc(nodes, c)
        ensures out[r] == nodes[r]
      {
      }
      DescFrame(nodes, out, c);
    }
  }

  /** After freeing that subtree and decrementing size, the walk has
      emptied the subtrees of the slots from s - 1 on. */
  lemma WalkStep(nodes: seq<Node>, k: nat, s: nat, out: seq<Node>, p: Payload, out1: seq<Node>)
    requires Linked(nodes) && Owned(nodes) && k < |nodes| && 0 < s <= nodes[k].size
    requires Shrunk(nodes, out) && out[k].size == s
    requires Emptied(nodes[k := out[k]], out, SlotsDesc(nodes, k, s))
    requires s - 1 < nodes[k].Capacity() && nodes[k].Filled(s - 1) && p == nodes[k].PayloadAt(s - 1)
    requires PayloadOk(nodes, k, p)
    requires forall r :: 0 <= r < |nodes| && r in PayloadDesc(nodes, p) ==> out[r] == nodes[r]
    requires k !in PayloadDesc(nodes, p)
    requires Emptied(out, out1, PayloadDesc(nodes, p))
    ensures var out2 := out1[k := WithSize(out1[k], s - 1)];
      Shrunk(nodes, out2) && out2[k].size == s - 1 &&
      Emptied(nodes[k := out2[k]], out2, SlotsDesc(nodes, k, s - 1))
  {
    var out2 := out1[k := WithSize(out1[k], s - 1)];
    SlotsDescBounds(nodes, k, s - 1);
    if p.ObjectRef? || p.ArrayRef? {
      assert ChildAt(nodes[k], s - 1) == Some(p.node);
      SlotsDisjoint(nodes, k, s - 1, s);
    } else {
      assert ChildAt(nodes[k], s - 1) == None;
    }
    assert SlotsDesc(nodes, k, s - 1) == PayloadDesc(nodes, p) + SlotsDesc(nodes, k, s);
  }

  /** jsmntree_free_object on node k (lib/jsmntree.c:429-455): while size
      is positive, release the name of the last member, free its value and
      decrement size. It empties exactly k's subtree, and releases the
      names in FreeOrder. */
  method FreeObject(nodes: seq<Node>, k: nat) returns (out: seq<Node>, log: seq<string>)
    requires Linked(nodes) && Owned(nodes) && k < |nodes| && nodes[k].ObjectNode?
    ensures Emptied(nodes, out, Desc(nodes, k))
    ensures log == FreeOrder(AbsNode(nodes, k))
    decreases |nodes| - k, 1
  {
    NodeValueSize(nodes, k);
    ghost var ms := AbsNode(nodes, k).members;
    SlotsDescBounds(nodes, k, nodes[k].size);
    out, log := nodes, [];
    while out[k].size > 0
      invariant Shrunk(nodes, out)
      invariant Emptied(nodes[k := out[k]], out, SlotsDesc(nodes, k, out[k].size))
      invariant log == FreeMembers(ms[out[k].size..])
      decreases out[k].size
    {
      var s := out[k].size;
      SlotPayloadInside(nodes, k, s - 1);
      ObjectMemberAt(nodes, k, s - 1);
      assert out[k].members == nodes[k].members;
      var m := out[k].members[s - 1].value;
      WalkReady(nodes, k, s, out, m.value);
      ghost var before := out;
      log := log + [m.name];
      var sub;
      out, sub := FreeValue(out, k, m.value);
      log := log + sub;
      assert log == FreeMembers(ms[s - 1..]) by {
        assert ms[s - 1] == Member(m.name, AbsPayload(nodes, k, m.value));
        FreeMembersCons(ms[s - 1], ms[s..]);
        assert ms[s - 1..] == [ms[s - 1]] + ms[s..];
      }
      WalkStep(nodes, k, s, before, m.value, out);
      out := out[k := WithSize(out[k], s - 1)];
    }
    SlotsDescBounds(nodes, k, 0);
    assert ms[0..] == ms;
  }

  /** jsmntree_free_array on node k (lib/jsmntree.c:458-483): the same walk
      over the elements, which have no names. */
  method FreeArray(nodes: seq<Node>, k: nat) returns (out: seq<Node>, log: seq<string>)
    requires Linked(nodes) && Owned(nodes) && k < |nodes| && nodes[k].ArrayNode?
    ensures Emptied(nodes, out, Desc(nodes, k))
    ensures log == FreeOrder(AbsNode(nodes, k))
    decreases |nodes| - k, 1
  {
    NodeValueSize(nodes, k);
    ghost var es := AbsNode(nodes, k).elements;
    SlotsDescBounds(nodes, k, nodes[k].size);
    out, log := nodes, [];
    while out[k].size > 0
      invariant Shrunk(nodes, out)
      invariant Emptied(nodes[k := out[k]], out, SlotsDesc(nodes, k, out[k].size))
      invariant log == FreeElements(es[out[k].size..])
      decreases out[k].size
    {
      var s := out[k].size;
      SlotPayloadInside(nodes, k, s - 1);
      ArrayElementAt(nodes, k, s - 1);
      assert out[k].elements == nodes[k].elements;
      var p := out[k].elements[s - 1].value;
      WalkReady(nodes, k, s, out, p);
      ghost var before, logBefore := out, log;
      var sub;
      out, sub := FreeValue(out, k, p);
      log := log + sub;
      assert log == FreeElements(es[s - 1..]) by {
        assert es[s - 1] == AbsPayload(nodes, k, p);
        FreeElementsCons(es[s - 1], es[s..]);
        assert es[s - 1..] == [es[s - 1]] + es[s..];
      }
      WalkStep(nodes, k, s, before, p, out);
      out := out[k := WithSize(out[k], s - 1)];
    }
    SlotsDescBounds(nodes, k, 0);
    assert es[0..] == es;
  }

  /** A subtree of a subtree is part of it. */
  lemma {:induction false} DescTrans(nodes: seq<Node>, a: nat, b: nat)
    requires a < |nodes| && b in Desc(nodes, a)
    ensures Desc(nodes, b) <= Desc(nodes, a)
    decreases b
  {
    if b != a {
      var p, t := ParentIn(nodes, a, b);
      DescTrans(nodes, a, p);
      DescBounds(nodes, a);
      SlotsDescHas(nodes, p, 0, t, b);
      assert p < b;
    }
  }

  /** In a connected linked arena every node is below the root. */
  lemma {:induction false} EveryNodeReached(nodes: seq<Node>, q: nat)
    requires Linked(nodes) && Connected(nodes) && q < |nodes|
    ensures q in Desc(nodes, 0)
    decreases q
  {
    if q > 0 {
      assert HasParent(nodes, q);
      var p: nat, j: nat :| p < |nodes| && j < nodes[p].size && ChildAt(nodes[p], j) == Some(q);
      ChildForward(nodes, p, j);
      EveryNodeReached(nodes, p);
      DescTrans(nodes, 0, p);
      SlotsDescHas(nodes, p, 0, j, q);
    }
  }

  /** jsmntree_free_tree (lib/jsmntree.c:422-427): free the root object
      (nothing for a NULL tree), then the root itself. On a connected tree,
      such as every tree the builder returns, every size ends at 0. */
  method FreeTree(tree: Option<seq<Node>>) returns (out: Option<seq<Node>>, log: seq<string>)
    requires tree.Some? ==>
      Linked(tree.value) && Owned(tree.value) && |tree.value| > 0 && tree.value[0].ObjectNode?
    ensures tree.None? ==> out.None? && log == []
    ensures tree.Some? ==> out.Some? && Emptied(tree.value, out.value, Desc(tree.value, 0))
    ensures tree.Some? ==> log == FreeOrder(AbsNode(tree.value, 0))
    ensures tree.Some? && Connected(tree.value) ==>
      forall r :: 0 <= r < |out.value| ==> out.value[r].size == 0
  {
    if tree.None? {
      return None, [];
    }
    var nodes := tree.value;
    var res;
    res, log := FreeObject(nodes, 0);
    out := Some(res);
    if Connected(nodes) {
      forall r | 0 <= r < |res|
        ensures res[r].size == 0
      {
        EveryNodeReached(nodes, r);
      }
    }
  }
}
