/** The JSON value an arena node stands for: the abstraction from the
    builder's heap structure to the tree datatype. Only the filled prefix
    (slots below size) of each buffer is part of the value. */
module Abstraction {
  import opened Options
  import opened JsmnTreeTypes

  function Min(a: nat, b: nat): nat {
    if a <= b then a else b
  }

  /** The value of node k. Children always sit at larger indices, so the
      recursion runs forward through the arena. */
  function AbsNode(nodes: seq<Node>, k: nat): Value
    decreases |nodes| - k, 2
  {
    if k >= |nodes| then Null
    else match nodes[k]
      case ObjectNode(size, cells) =>
        var n := Min(size, |cells|);
        Obj(seq(n, j requires 0 <= j < n => AbsMember(nodes, k, cells[j])))
      case ArrayNode(size, cells) =>
        var n := Min(size, |cells|);
        Arr(seq(n, j requires 0 <= j < n => AbsElement(nodes, k, cells[j])))
  }

  function AbsMember(nodes: seq<Node>, k: nat, c: Option<MemberCell>): Member
    requires k < |nodes|
    decreases |nodes| - k, 1
  {
    match c
    case None => Member("", Null)
    case Some(m) => Member(m.name, AbsPayload(nodes, k, m.value))
  }

  function AbsElement(nodes: seq<Node>, k: nat, c: Option<Payload>): Value
    requires k < |nodes|
    decreases |nodes| - k, 1
  {
    match c
    case None => Null
    case Some(p) => AbsPayload(nodes, k, p)
  }

  /** The value of a payload stored in node k. */
  function AbsPayload(nodes: seq<Node>, k: nat, p: Payload): Value
    requires k < |nodes|
    decreases |nodes| - k, 0
  {
    match p
    case UndefinedVal => Null
    case ObjectRef(r) => if k < r < |nodes| then AbsNode(nodes, r) else Null
    case ArrayRef(r) => if k < r < |nodes| then AbsNode(nodes, r) else Null
    case StringVal(s) => Str(s)
    case NumberVal(n) => Num(n)
    case BooleanVal(b) => Bool(b)
    case NullVal => Null
  }

  /** In a well-formed arena a payload's value_type is the tag of the value
      it stands for, and a node's value has the node's own kind. */
  lemma PayloadTypeAgrees(nodes: seq<Node>, k: nat, p: Payload)
    requires Linked(nodes) && k < |nodes| && PayloadOk(nodes, k, p)
    ensures TypeOf(AbsPayload(nodes, k, p)) == p.Type()
  {
  }

  /** A node's value depends only on the node and the nodes after it: an
      arena that agrees with a well-formed one from index k up to the old
      length, and may have grown, gives node k the same value. */
  lemma {:induction false} AbsNodeFrame(n1: seq<Node>, n2: seq<Node>, k: nat)
    requires Linked(n1) && k < |n1| <= |n2|
    requires forall j :: k <= j < |n1| ==> n2[j] == n1[j]
    ensures AbsNode(n2, k) == AbsNode(n1, k)
    decreases |n1| - k, 1
  {
    assert NodeLinked(n1, k);
    match n1[k]
    case ObjectNode(size, cells) =>
      var n := Min(size, |cells|);
      forall j | 0 <= j < n
        ensures AbsMember(n2, k, cells[j]) == AbsMember(n1, k, cells[j])
      {
        assert n1[k].Filled(j);
        PayloadFrame(n1, n2, k, cells[j].value.value);
      }
    case ArrayNode(size, cells) =>
      var n := Min(size, |cells|);
      forall j | 0 <= j < n
        ensures AbsElement(n2, k, cells[j]) == AbsElement(n1, k, cells[j])
      {
        assert n1[k].Filled(j);
        PayloadFrame(n1, n2, k, cells[j].value);
      }
  }

  /** The payload form of AbsNodeFrame. */
  lemma {:induction false} PayloadFrame(n1: seq<Node>, n2: seq<Node>, k: nat, p: Payload)
    requires Linked(n1) && k < |n1| <= |n2| && PayloadOk(n1, k, p)
    requires forall j :: k < j < |n1| ==> n2[j] == n1[j]
    ensures AbsPayload(n2, k, p) == AbsPayload(n1, k, p)
    decreases |n1| - k, 0
  {
    if p.ObjectRef? || p.ArrayRef? {
      AbsNodeFrame(n1, n2, p.node);
    }
  }

  /** Member j of an object node's value is the cell in slot j, with its
      payload's value; the value has exactly size members. */
  lemma ObjectMemberAt(nodes: seq<Node>, k: nat, j: nat)
    requires Linked(nodes) && k < |nodes| && nodes[k].ObjectNode? && j < nodes[k].size
    ensures |AbsNode(nodes, k).members| == nodes[k].size
    ensures nodes[k].members[j].Some? && PayloadOk(nodes, k, nodes[k].members[j].value.value)
    ensures AbsNode(nodes, k).members[j] ==
      Member(nodes[k].members[j].value.name, AbsPayload(nodes, k, nodes[k].members[j].value.value))
  {
    assert NodeLinked(nodes, k);
    assert nodes[k].Filled(j);
  }

  /** Element j of an array node's value is the value of the payload in
      slot j; the value has exactly size elements. */
  lemma ArrayElementAt(nodes: seq<Node>, k: nat, j: nat)
    requires Linked(nodes) && k < |nodes| && nodes[k].ArrayNode? && j < nodes[k].size
    ensures |AbsNode(nodes, k).elements| == nodes[k].size
    ensures nodes[k].elements[j].Some? && PayloadOk(nodes, k, nodes[k].elements[j].value)
    ensures AbsNode(nodes, k).elements[j] == AbsPayload(nodes, k, nodes[k].elements[j].value)
  {
    assert NodeLinked(nodes, k);
    assert nodes[k].Filled(j);
  }

  /** A linked node's value has exactly size members or elements. */
  lemma NodeValueSize(nodes: seq<Node>, k: nat)
    requires Linked(nodes) && k < |nodes|
    ensures nodes[k].ObjectNode? ==> AbsNode(nodes, k).Obj? && |AbsNode(nodes, k).members| == nodes[k].size
    ensures nodes[k].ArrayNode? ==> AbsNode(nodes, k).Arr? && |AbsNode(nodes, k).elements| == nodes[k].size
  {
    assert NodeLinked(nodes, k);
  }
}
