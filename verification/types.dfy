/** The data model of lib/jsmntree.h: the type tags, and the structs the
    builder fills (member, element, object, array), laid out in an arena.

    The C tree is a graph of malloc'ed structs linked by pointers. Here every
    object and array lives in a sequence of nodes and is addressed by its
    index; a member's or an element's `void *value` becomes a Payload that
    either holds the scalar or names a node. */
module JsmnTreeTypes {
  import opened Options

  /** jsmntreetype_t. */
  datatype JsonType =
    | UndefinedType | ObjectType | ArrayType | StringType
    | NumberType | BooleanType | NullType
    | MemberType | ElementType | MemberArrayType | ElementArrayType

  /** The numeric value of each tag. */
  function Code(t: JsonType): (c: int)
    ensures 0 <= c <= 11
    ensures c != 4
  {
    match t
    case UndefinedType => 0
    case ObjectType => 1
    case ArrayType => 2
    case StringType => 3
    case NumberType => 5
    case BooleanType => 6
    case NullType => 7
    case MemberType => 8
    case ElementType => 9
    case MemberArrayType => 10
    case ElementArrayType => 11
  }

  /** The tag a number stands for, if any. */
  function TypeOfCode(c: int): (t: Option<JsonType>)
    ensures t.Some? ==> Code(t.value) == c
    ensures t.None? <==> (c < 0 || c == 4 || c > 11)
  {
    if c == 0 then Some(UndefinedType)
    else if c == 1 then Some(ObjectType)
    else if c == 2 then Some(ArrayType)
    else if c == 3 then Some(StringType)
    else if c == 5 then Some(NumberType)
    else if c == 6 then Some(BooleanType)
    else if c == 7 then Some(NullType)
    else if c == 8 then Some(MemberType)
    else if c == 9 then Some(ElementType)
    else if c == 10 then Some(MemberArrayType)
    else if c == 11 then Some(ElementArrayType)
    else None
  }

  /** Every tag has its own code: decoding a code gives back the tag. */
  lemma CodesDistinct(s: JsonType, t: JsonType)
    ensures TypeOfCode(Code(t)) == Some(t)
    ensures Code(s) == Code(t) ==> s == t
  {
  }

  /** The `value` and `value_type` of a member or an element. A member
      whose value is not yet set (all zero after memset) is UndefinedVal;
      an object or array value is the index of its node. */
  datatype Payload =
    | UndefinedVal
    | ObjectRef(node: nat)
    | ArrayRef(node: nat)
    | StringVal(s: string)
    | NumberVal(n: int)
    | BooleanVal(b: int)
    | NullVal
  {
    /** value_type. */
    function Type(): JsonType {
      match this
      case UndefinedVal => UndefinedType
      case ObjectRef(_) => ObjectType
      case ArrayRef(_) => ArrayType
      case StringVal(_) => StringType
      case NumberVal(_) => NumberType
      case BooleanVal(_) => BooleanType
      case NullVal => NullType
    }
  }

  /** jsmntree_member: a name plus a value. */
  datatype MemberCell = MemberCell(name: string, value: Payload)

  /** jsmntree_object and jsmntree_array. The sequence is the members or
      elements buffer of pointers allocated (and zeroed) when the container
      is created, with as many slots as its token has children; None is a
      NULL slot. `size` counts the filled slots. An element
      (jsmntree_element) is a bare Payload. */
  datatype Node =
    | ObjectNode(size: nat, members: seq<Option<MemberCell>>)
    | ArrayNode(size: nat, elements: seq<Option<Payload>>)
  {
    /** The number of slots of the members or elements buffer, fixed when
        the buffer was allocated. This is what the header documents as
        max_size; the field itself holds StoredMaxSize. */
    function Capacity(): nat {
      if ObjectNode? then |members| else |elements|
    }

    /** The max_size field as the C code fills it: jsmntree_init stores its
        count argument (lib/jsmntree.c:72, 78), and every object and array
        struct is initialised with a count of 1 (lib/jsmntree.c:126, 184,
        207, 235, 258), whatever the size of its buffer. */
    function StoredMaxSize(): nat {
      1
    }

    /** Slot j holds a member or an element. */
    predicate Filled(j: nat)
      requires j < Capacity()
    {
      if ObjectNode? then members[j].Some? else elements[j].Some?
    }

    /** The payload held by a filled slot. */
    function PayloadAt(j: nat): Payload
      requires j < Capacity() && Filled(j)
    {
      if ObjectNode? then members[j].value.value else elements[j].value
    }

    /** The container type recorded for this node on the builder's stack. */
    function Type(): JsonType {
      if ObjectNode? then ObjectType else ArrayType
    }
  }

  /** A fresh container whose buffer has the given number of slots: size 0,
      every slot NULL. */
  function NewObject(capacity: nat): (n: Node)
    ensures n.ObjectNode? && n.size == 0 && n.Capacity() == capacity
    ensures forall j :: 0 <= j < capacity ==> !n.Filled(j)
  {
    ObjectNode(0, seq(capacity, _ => None))
  }

  function NewArray(capacity: nat): (n: Node)
    ensures n.ArrayNode? && n.size == 0 && n.Capacity() == capacity
    ensures forall j :: 0 <= j < capacity ==> !n.Filled(j)
  {
    ArrayNode(0, seq(capacity, _ => None))
  }

  /** A payload stored in node k is set, and an object or array payload names
      a later node of the arena whose kind matches its tag. */
  predicate PayloadOk(nodes: seq<Node>, k: nat, p: Payload) {
    && p != UndefinedVal
    && (p.ObjectRef? ==> k < p.node < |nodes| && nodes[p.node].ObjectNode?)
    && (p.ArrayRef? ==> k < p.node < |nodes| && nodes[p.node].ArrayNode?)
  }

  /** Node k's filled part keeps the header's discipline: size is bounded
      by the buffer's capacity and the slots below size hold set values. */
  predicate NodeLinked(nodes: seq<Node>, k: nat)
    requires k < |nodes|
  {
    var n := nodes[k];
    && n.size <= n.Capacity()
    && (forall j :: 0 <= j < n.size ==> n.Filled(j) && PayloadOk(nodes, k, n.PayloadAt(j)))
  }

  /** Node k as the builder keeps it: linked, and the slots above size are
      still NULL. (The slot at index size may hold a member whose value was
      never set: see the builder.) */
  predicate NodeOk(nodes: seq<Node>, k: nat)
    requires k < |nodes|
  {
    var n := nodes[k];
    && NodeLinked(nodes, k)
    && (forall j :: n.size < j < n.Capacity() ==> !n.Filled(j))
  }

  predicate WellFormed(nodes: seq<Node>) {
    forall k :: 0 <= k < |nodes| ==> NodeOk(nodes, k)
  }

  /** What reading and freeing a tree relies on: every node is linked. */
  predicate Linked(nodes: seq<Node>) {
    forall k :: 0 <= k < |nodes| ==> NodeLinked(nodes, k)
  }

  lemma WellFormedIsLinked(nodes: seq<Node>)
    requires WellFormed(nodes)
    ensures Linked(nodes)
  {
    forall k | 0 <= k < |nodes|
      ensures NodeLinked(nodes, k)
    {
      assert NodeOk(nodes, k);
    }
  }

  /** The node a filled slot of n points to, if its value is an object or
      an array. */
  function ChildAt(n: Node, j: nat): Option<nat> {
    if j < n.size && j < n.Capacity() && n.Filled(j) then
      match n.PayloadAt(j)
      case ObjectRef(c) => Some(c)
      case ArrayRef(c) => Some(c)
      case _ => None
    else None
  }

  /** In a linked arena a child sits after its parent and has the kind its
      slot's tag names. */
  lemma ChildForward(nodes: seq<Node>, q: nat, j: nat)
    requires Linked(nodes) && q < |nodes| && ChildAt(nodes[q], j).Some?
    ensures q < ChildAt(nodes[q], j).value < |nodes|
    ensures j < nodes[q].size && nodes[q].Filled(j)
    ensures nodes[q].PayloadAt(j).ObjectRef? ==> nodes[ChildAt(nodes[q], j).value].ObjectNode?
    ensures nodes[q].PayloadAt(j).ArrayRef? ==> nodes[ChildAt(nodes[q], j).value].ArrayNode?
  {
    assert NodeLinked(nodes, q);
  }

  /** Every node is pointed to from at most one slot: the arena is a tree,
      so freeing it releases each container once. */
  predicate Owned(nodes: seq<Node>) {
    forall p1, j1, p2, j2 ::
      0 <= p1 < |nodes| && 0 <= p2 < |nodes| &&
      0 <= j1 < nodes[p1].size && 0 <= j2 < nodes[p2].size &&
      ChildAt(nodes[p1], j1).Some? && ChildAt(nodes[p1], j1) == ChildAt(nodes[p2], j2)
      ==> p1 == p2 && j1 == j2
  }

  /** Node q hangs from a filled slot of some node. */
  predicate HasParent(nodes: seq<Node>, q: nat) {
    exists p: nat, j: nat :: p < |nodes| && j < nodes[p].size && ChildAt(nodes[p], j) == Some(q)
  }

  /** Every node but the root hangs from a filled slot of some node. */
  predicate Connected(nodes: seq<Node>) {
    forall q: nat :: 0 < q < |nodes| ==> HasParent(nodes, q)
  }

  /** The JSON value a tree stands for. */
  datatype Value =
    | Obj(members: seq<Member>)
    | Arr(elements: seq<Value>)
    | Str(s: string)
    | Num(n: int)
    | Bool(b: int)
    | Null

  datatype Member = Member(name: string, value: Value)

  /** The value_type tag under which the C tree stores a value. */
  function TypeOf(v: Value): JsonType {
    match v
    case Obj(_) => ObjectType
    case Arr(_) => ArrayType
    case Str(_) => StringType
    case Num(_) => NumberType
    case Bool(_) => BooleanType
    case Null => NullType
  }
}
