/** jsmntree_make_tree (lib/jsmntree.c:110-417): one forward pass over the
    token array that rebuilds the nesting of objects and arrays with an
    explicit stack of open containers, closing a container as soon as a
    token starts past the end of its text.

    Step, Exec and Build state what one iteration, the loop and the whole
    function compute; MakeTree is the loop itself, proved to compute Build.
    Where the C code has undefined behaviour (the top of an empty stack, a
    write past a buffer's capacity, a read past the token array or the
    text, a primitive too long for its 10-byte buffer) the model stops with
    Stuck and says why. */
module Builder {
  import opened Options
  import opened CText
  import opened JsmnTreeTypes
  import opened Tokens

  /** stack_node: an open container, with the end offset of its text. */
  datatype Frame = Frame(end: int, node: nat, cType: JsonType)

  /** The builder's variables between two iterations of its loop: the
      arena, the stack (adt_stack) and the index of the next token. */
  datatype State = State(nodes: seq<Node>, stack: seq<Frame>, i: nat)

  /** Why the C code would have undefined behaviour at a token. */
  datatype Fault =
    | EmptyStack        // adt_stack_top on an empty stack
    | CapacityExceeded  // members[size] / elements[size] past the buffer's last slot
    | PastLastToken     // tokens[i + 1] after a key that is the last token
    | BadSpan           // a copy from outside the text, or of negative length
    | PrimitiveTooLong  // more than 9 characters into temp_string[10]

  datatype StepResult = Next(st: State) | Stuck(fault: Fault, at: nat)

  /** NoTree is the NULL return; Built holds the arena, root at index 0. */
  datatype BuildResult = NoTree | Built(nodes: seq<Node>) | Failed(fault: Fault, at: nat)

  /** A frame names a node of the arena and records that node's kind. */
  predicate FrameOk(nodes: seq<Node>, f: Frame) {
    f.node < |nodes| && f.cType == nodes[f.node].Type()
  }

  /** The loop invariant of the builder: a well-formed tree of nodes, and
      every frame names one of them with its kind. */
  predicate Valid(st: State) {
    ValidArena(st.nodes, st.stack)
  }

  predicate ValidArena(nodes: seq<Node>, stack: seq<Frame>) {
    && WellFormed(nodes)
    && Owned(nodes)
    && Connected(nodes)
    && |nodes| > 0
    && (forall k :: 0 <= k < |stack| ==> FrameOk(nodes, stack[k]))
  }

  /** The pop loop (lib/jsmntree.c:140-142): drop every frame on top whose
      container ends before `start`. What remains is a prefix of the stack,
      every dropped frame ended before `start`, and the new top, if any,
      does not. */
  function PopClosed(stack: seq<Frame>, start: int): (r: seq<Frame>)
    ensures |r| <= |stack| && r == stack[..|r|]
    ensures r == [] || start <= r[|r| - 1].end
    ensures forall k :: |r| <= k < |stack| ==> stack[k].end < start
    decreases |stack|
  {
    if |stack| > 0 && start > stack[|stack| - 1].end then PopClosed(stack[..|stack| - 1], start)
    else stack
  }

  /** The text of a token, as strncpy leaves it in a zeroed buffer. */
  function Copy(js: string, t: Token): string
    requires InText(js, t)
  {
    CStr(js[t.start..t.end])
  }

  /** A primitive's text decides its kind (lib/jsmntree.c:334-356). */
  function Classify(text: string): (p: Payload)
    ensures p.NullVal? <==> text == "null"
    ensures p.BooleanVal? <==> (text == "true" || text == "false")
    ensures p.BooleanVal? ==> (p.b == 1 <==> text == "true") && (p.b == 0 <==> text == "false")
    ensures p.NumberVal? <==> !(text == "null" || text == "true" || text == "false")
    ensures p.NumberVal? ==> p.n == Atoi(text)
  {
    if text == "null" then NullVal
    else if text == "true" || text == "false" then BooleanVal(if text == "true" then 1 else 0)
    else NumberVal(Atoi(text))
  }

  /** Room is left in the buffer of node k. */
  predicate HasRoom(nodes: seq<Node>, k: nat) {
    k < |nodes| && nodes[k].size < nodes[k].Capacity()
  }

  /** Write a value at index size of node k and increment size; in an
      object the slot gets the pending member's name. */
  function Put(nodes: seq<Node>, k: nat, name: Option<string>, p: Payload): (r: seq<Node>)
    requires HasRoom(nodes, k)
    requires name.Some? <==> nodes[k].ObjectNode?
    ensures |r| == |nodes|
    ensures r[k].Type() == nodes[k].Type() && r[k].Capacity() == nodes[k].Capacity()
    ensures r[k].size == nodes[k].size + 1
    ensures r[k].Filled(nodes[k].size) && r[k].PayloadAt(nodes[k].size) == p
    ensures forall j :: 0 <= j < r[k].Capacity() && j != nodes[k].size ==>
      (r[k].Filled(j) == nodes[k].Filled(j)) && (r[k].Filled(j) ==> r[k].PayloadAt(j) == nodes[k].PayloadAt(j))
    ensures name.Some? ==>
      r[k].ObjectNode? && r[k].members == nodes[k].members[nodes[k].size := Some(MemberCell(name.value, p))]
    ensures name.None? ==>
      r[k].ArrayNode? && r[k].elements == nodes[k].elements[nodes[k].size := Some(p)]
    ensures forall q :: 0 <= q < |nodes| && q != k ==> r[q] == nodes[q]
  {
    var n := nodes[k];
    if name.Some? then
      nodes[k := ObjectNode(n.size + 1, n.members[n.size := Some(MemberCell(name.value, p))])]
    else
      nodes[k := ArrayNode(n.size + 1, n.elements[n.size := Some(p)])]
  }

  /** A key followed by an undefined token: the member was allocated and
      named at index size, but size is not incremented. */
  function Dangle(nodes: seq<Node>, k: nat, name: string): (r: seq<Node>)
    requires HasRoom(nodes, k) && nodes[k].ObjectNode?
    ensures |r| == |nodes| && r[k].ObjectNode? && r[k].size == nodes[k].size
    ensures r[k].Capacity() == nodes[k].Capacity()
    ensures r[k].members[..r[k].size] == nodes[k].members[..nodes[k].size]
    ensures r[k].members == nodes[k].members[nodes[k].size := Some(MemberCell(name, UndefinedVal))]
    ensures forall q :: 0 <= q < |nodes| && q != k ==> r[q] == nodes[q]
  {
    var n := nodes[k];
    nodes[k := ObjectNode(n.size, n.members[n.size := Some(MemberCell(name, UndefinedVal))])]
  }

  lemma PutKeepsWellFormed(nodes: seq<Node>, k: nat, name: Option<string>, p: Payload)
    requires WellFormed(nodes) && HasRoom(nodes, k)
    requires name.Some? <==> nodes[k].ObjectNode?
    requires PayloadOk(nodes, k, p)
    ensures WellFormed(Put(nodes, k, name, p))
  {
    var r := Put(nodes, k, name, p);
    forall q | 0 <= q < |r|
      ensures NodeOk(r, q)
    {
      assert NodeOk(nodes, q);
      if q == k {
        forall j | 0 <= j < r[k].size
          ensures r[k].Filled(j) && PayloadOk(r, k, r[k].PayloadAt(j))
        {
          if j < nodes[k].size {
            assert nodes[k].Filled(j) && PayloadOk(nodes, k, nodes[k].PayloadAt(j));
          }
        }
        forall j | r[k].size < j < r[k].Capacity()
          ensures !r[k].Filled(j)
        {
          assert !nodes[k].Filled(j);
        }
      }
    }
  }

  lemma DangleKeepsWellFormed(nodes: seq<Node>, k: nat, name: string)
    requires WellFormed(nodes) && HasRoom(nodes, k) && nodes[k].ObjectNode?
    ensures WellFormed(Dangle(nodes, k, name))
  {
    var r := Dangle(nodes, k, name);
    forall q | 0 <= q < |r|
      ensures NodeOk(r, q)
    {
      assert NodeOk(nodes, q);
      if q == k {
        forall j | 0 <= j < r[k].Capacity() && j != nodes[k].size
          ensures r[k].members[j] == nodes[k].members[j]
        {
        }
        forall j | 0 <= j < r[k].size
          ensures r[k].Filled(j) && PayloadOk(r, k, r[k].PayloadAt(j))
        {
          assert nodes[k].Filled(j) && PayloadOk(nodes, k, nodes[k].PayloadAt(j));
        }
        forall j | r[k].size < j < r[k].Capacity()
          ensures !r[k].Filled(j)
        {
          assert !nodes[k].Filled(j);
        }
      }
    }
  }

  /** Appending a fresh container keeps the arena well formed. */
  lemma AppendKeepsWellFormed(nodes: seq<Node>, added: Node)
    requires WellFormed(nodes) && added.size == 0
    requires forall j :: 0 <= j < added.Capacity() ==> !added.Filled(j)
    ensures WellFormed(nodes + [added])
  {
    var r := nodes + [added];
    forall q | 0 <= q < |r|
      ensures NodeOk(r, q)
    {
      if q < |nodes| {
        assert NodeOk(nodes, q);
        assert r[q] == nodes[q];
        forall j | 0 <= j < r[q].size
          ensures PayloadOk(r, q, r[q].PayloadAt(j))
        {
          assert PayloadOk(nodes, q, nodes[q].PayloadAt(j));
        }
      }
    }
  }

  /** The effect of storing one value in node k: one new entry, at the old
      size, holding p (under the pending name in an object); size grows by
      one; every other slot and every other existing node is unchanged. */
  predicate EntryAdded(before: seq<Node>, after: seq<Node>, k: nat, name: Option<string>, p: Payload)
    requires k < |before| <= |after|
  {
    var s := before[k].size;
    && HasRoom(before, k)
    && after[k].Type() == before[k].Type() && after[k].Capacity() == before[k].Capacity()
    && after[k].size == s + 1
    && after[k].Filled(s) && after[k].PayloadAt(s) == p
    && (after[k].ObjectNode? ==>
          after[k].members == before[k].members[s := after[k].members[s]] &&
          name.Some? && after[k].members[s].value.name == name.value)
    && (after[k].ArrayNode? ==> after[k].elements == before[k].elements[s := after[k].elements[s]])
    && (forall q :: 0 <= q < |before| && q != k ==> after[q] == before[q])
  }

  /** Store the value token j in the active container, the top frame of
      `stack` (lib/jsmntree.c:170-411). An object or array token opens a new
      container, appended to the arena, and pushes its frame. A string is
      the token's text; a primitive is classified by its text. */
  function Attach(js: string, toks: seq<Token>, nodes: seq<Node>, stack: seq<Frame>,
                  name: Option<string>, j: nat): (r: StepResult)
    requires Valid(State(nodes, stack, j))
    requires |stack| > 0 && HasRoom(nodes, stack[|stack| - 1].node)
    requires name.Some? <==> stack[|stack| - 1].cType == ObjectType
    requires j < |toks|
    ensures r.Next? ==> Valid(r.st) && r.st.i == j + 1
    ensures r.Next? ==> (|r.st.nodes| >= |nodes| &&
      forall k :: 0 <= k < |nodes| ==>
        r.st.nodes[k].Type() == nodes[k].Type() && r.st.nodes[k].Capacity() == nodes[k].Capacity())
    // the only failures: a string or primitive outside the text, a primitive too long
    ensures r.Stuck? <==>
      ((toks[j].kind == JsmnString || toks[j].kind == JsmnPrimitive) && !InText(js, toks[j])) ||
      (toks[j].kind == JsmnPrimitive && InText(js, toks[j]) && toks[j].end - toks[j].start > 9)
    ensures r.Next? && (toks[j].kind == JsmnObject || toks[j].kind == JsmnArray) ==>
      var added := |nodes|;
      var kind := if toks[j].kind == JsmnObject then ObjectType else ArrayType;
      && |r.st.nodes| == added + 1
      && EntryAdded(nodes, r.st.nodes, stack[|stack| - 1].node, name,
           if toks[j].kind == JsmnObject then ObjectRef(added) else ArrayRef(added))
      && r.st.nodes[added].Type() == kind && r.st.nodes[added].size == 0
      && r.st.nodes[added].Capacity() == toks[j].size
      && r.st.stack == stack + [Frame(toks[j].end, added, kind)]
    ensures r.Next? && toks[j].kind == JsmnString ==>
      && |r.st.nodes| == |nodes| && r.st.stack == stack
      && EntryAdded(nodes, r.st.nodes, stack[|stack| - 1].node, name, StringVal(Copy(js, toks[j])))
    ensures r.Next? && toks[j].kind == JsmnPrimitive ==>
      && |r.st.nodes| == |nodes| && r.st.stack == stack
      && EntryAdded(nodes, r.st.nodes, stack[|stack| - 1].node, name, Classify(Copy(js, toks[j])))
    // an undefined value token stores nothing: every size stays, and only
    // the dangling member of a pending key is written
    ensures r.Next? && toks[j].kind == JsmnUndefined ==>
      && |r.st.nodes| == |nodes| && r.st.stack == stack
      && (forall q :: 0 <= q < |nodes| ==> r.st.nodes[q].size == nodes[q].size)
      && r.st.nodes == (if name.Some? then Dangle(nodes, stack[|stack| - 1].node, name.value) else nodes)
  {
    var top := stack[|stack| - 1];
    match toks[j].kind
    case JsmnUndefined =>
      if name.Some? then
        DangleValid(nodes, stack, name.value);
        Next(State(Dangle(nodes, top.node, name.value), stack, j + 1))
      else
        Next(State(nodes, stack, j + 1))
    case JsmnObject => AttachOpen(toks[j], nodes, stack, name, j)
    case JsmnArray => AttachOpen(toks[j], nodes, stack, name, j)
    case JsmnString => AttachScalar(js, toks[j], nodes, stack, name, j)
    case JsmnPrimitive => AttachScalar(js, toks[j], nodes, stack, name, j)
  }

  /** An object or array token: its container is appended to the arena,
      referenced from the active container, and its frame pushed. */
  function AttachOpen(t: Token, nodes: seq<Node>, stack: seq<Frame>, name: Option<string>, j: nat): (r: StepResult)
    requires Valid(State(nodes, stack, j))
    requires |stack| > 0 && HasRoom(nodes, stack[|stack| - 1].node)
    requires name.Some? <==> stack[|stack| - 1].cType == ObjectType
    requires t.kind == JsmnObject || t.kind == JsmnArray
    ensures r.Next? && Valid(r.st) && r.st.i == j + 1
    ensures
      var added := |nodes|;
      var kind := if t.kind == JsmnObject then ObjectType else ArrayType;
      && |r.st.nodes| == added + 1
      && EntryAdded(nodes, r.st.nodes, stack[|stack| - 1].node, name,
           if t.kind == JsmnObject then ObjectRef(added) else ArrayRef(added))
      && r.st.nodes[added].Type() == kind && r.st.nodes[added].size == 0
      && r.st.nodes[added].Capacity() == t.size
      && r.st.stack == stack + [Frame(t.end, added, kind)]
  {
    var top := stack[|stack| - 1];
    assert FrameOk(nodes, top);
    var n := |nodes|;
    if t.kind == JsmnObject then
      OpenValid(nodes, stack, name, ObjectRef(n), NewObject(t.size), Frame(t.end, n, ObjectType));
      Next(State(Put(nodes, top.node, name, ObjectRef(n)) + [NewObject(t.size)],
                 stack + [Frame(t.end, n, ObjectType)], j + 1))
    else
      OpenValid(nodes, stack, name, ArrayRef(n), NewArray(t.size), Frame(t.end, n, ArrayType));
      Next(State(Put(nodes, top.node, name, ArrayRef(n)) + [NewArray(t.size)],
                 stack + [Frame(t.end, n, ArrayType)], j + 1))
  }

  /** A string token stores its text; a primitive is classified by its text.
      Either fails when its span is outside the text, a primitive also when
      it is longer than 9 characters. */
  function AttachScalar(js: string, t: Token, nodes: seq<Node>, stack: seq<Frame>,
                        name: Option<string>, j: nat): (r: StepResult)
    requires Valid(State(nodes, stack, j))
    requires |stack| > 0 && HasRoom(nodes, stack[|stack| - 1].node)
    requires name.Some? <==> stack[|stack| - 1].cType == ObjectType
    requires t.kind == JsmnString || t.kind == JsmnPrimitive
    ensures r.Next? ==> Valid(r.st) && r.st.i == j + 1
    ensures r.Stuck? <==> !InText(js, t) || (t.kind == JsmnPrimitive && t.end - t.start > 9)
    ensures r.Next? ==>
      && |r.st.nodes| == |nodes| && r.st.stack == stack
      && EntryAdded(nodes, r.st.nodes, stack[|stack| - 1].node, name,
           if t.kind == JsmnString then StringVal(Copy(js, t)) else Classify(Copy(js, t)))
  {
    var top := stack[|stack| - 1];
    assert FrameOk(nodes, top);
    if !InText(js, t) then Stuck(BadSpan, j)
    else if t.kind == JsmnString then
      ScalarValid(nodes, stack, name, StringVal(Copy(js, t)));
      Next(State(Put(nodes, top.node, name, StringVal(Copy(js, t))), stack, j + 1))
    else if t.end - t.start > 9 then Stuck(PrimitiveTooLong, j)
    else
      ScalarValid(nodes, stack, name, Classify(Copy(js, t)));
      Next(State(Put(nodes, top.node, name, Classify(Copy(js, t))), stack, j + 1))
  }

  /** Storing a string, number, boolean or null keeps the invariant. */
  lemma ScalarValid(nodes: seq<Node>, stack: seq<Frame>, name: Option<string>, p: Payload)
    requires ValidArena(nodes, stack)
    requires |stack| > 0 && HasRoom(nodes, stack[|stack| - 1].node)
    requires name.Some? <==> stack[|stack| - 1].cType == ObjectType
    requires p != UndefinedVal && !p.ObjectRef? && !p.ArrayRef?
    ensures ValidArena(Put(nodes, stack[|stack| - 1].node, name, p), stack)
  {
    var k := stack[|stack| - 1].node;
    assert FrameOk(nodes, stack[|stack| - 1]);
    var r := Put(nodes, k, name, p);
    PutKeepsWellFormed(nodes, k, name, p);
    FramesKept(nodes, r, stack);
    forall q: nat, j: nat | q < |nodes|
      ensures ChildAt(r[q], j) == ChildAt(nodes[q], j)
    {
    }
    SameChildrenKeepTree(nodes, r);
  }

  /** Opening a container keeps the invariant: the reference to it is the
      only one, since every other reference points into the old arena. */
  lemma OpenValid(nodes: seq<Node>, stack: seq<Frame>, name: Option<string>, p: Payload, added: Node, f: Frame)
    requires ValidArena(nodes, stack)
    requires |stack| > 0 && HasRoom(nodes, stack[|stack| - 1].node)
    requires name.Some? <==> stack[|stack| - 1].cType == ObjectType
    requires p == ObjectRef(|nodes|) || p == ArrayRef(|nodes|)
    requires p.ObjectRef? <==> added.ObjectNode?
    requires added.size == 0 && forall j :: 0 <= j < added.Capacity() ==> !added.Filled(j)
    requires f.node == |nodes| && f.cType == added.Type()
    ensures ValidArena(Put(nodes, stack[|stack| - 1].node, name, p) + [added], stack + [f])
  {
    var k := stack[|stack| - 1].node;
    assert FrameOk(nodes, stack[|stack| - 1]);
    var r := Put(nodes, k, name, p) + [added];
    PutAndAppendKeepWellFormed(nodes, k, name, p, added);
    FramesKept(nodes, r, stack);
    OpenKeepsOwned(nodes, k, name, p, added);
    OpenKeepsConnected(nodes, k, name, p, added);
  }

  /** The opened container hangs from the slot just written; every other
      node keeps its parent slot. */
  lemma OpenKeepsConnected(nodes: seq<Node>, k: nat, name: Option<string>, p: Payload, added: Node)
    requires WellFormed(nodes) && Connected(nodes) && HasRoom(nodes, k)
    requires name.Some? <==> nodes[k].ObjectNode?
    requires p == ObjectRef(|nodes|) || p == ArrayRef(|nodes|)
    ensures Connected(Put(nodes, k, name, p) + [added])
  {
    var r := Put(nodes, k, name, p) + [added];
    var s := nodes[k].size;
    forall q: nat | 0 < q < |r|
      ensures HasParent(r, q)
    {
      if q == |nodes| {
        assert ChildAt(r[k], s) == Some(q);
      } else {
        assert HasParent(nodes, q);
        var p': nat, j: nat :| p' < |nodes| && j < nodes[p'].size && ChildAt(nodes[p'], j) == Some(q);
        assert ChildAt(r[p'], j) == Some(q);
      }
    }
  }

  lemma OpenKeepsOwned(nodes: seq<Node>, k: nat, name: Option<string>, p: Payload, added: Node)
    requires WellFormed(nodes) && Owned(nodes) && HasRoom(nodes, k)
    requires name.Some? <==> nodes[k].ObjectNode?
    requires p == ObjectRef(|nodes|) || p == ArrayRef(|nodes|)
    requires added.size == 0
    ensures Owned(Put(nodes, k, name, p) + [added])
  {
    var r := Put(nodes, k, name, p) + [added];
    WellFormedIsLinked(nodes);
    var s := nodes[k].size;
    forall p1, j1, p2, j2 |
      0 <= p1 < |r| && 0 <= p2 < |r| && 0 <= j1 < r[p1].size && 0 <= j2 < r[p2].size &&
      ChildAt(r[p1], j1).Some? && ChildAt(r[p1], j1) == ChildAt(r[p2], j2)
      ensures p1 == p2 && j1 == j2
    {
      if (p1, j1) != (k, s) && (p2, j2) != (k, s) {
        assert ChildAt(r[p1], j1) == ChildAt(nodes[p1], j1);
        assert ChildAt(r[p2], j2) == ChildAt(nodes[p2], j2);
      } else if (p1, j1) != (k, s) {
        assert ChildAt(r[p1], j1) == ChildAt(nodes[p1], j1);
        ChildForward(nodes, p1, j1);
      } else if (p2, j2) != (k, s) {
        assert ChildAt(r[p2], j2) == ChildAt(nodes[p2], j2);
        ChildForward(nodes, p2, j2);
      }
    }
  }

  /** A dangling member is not counted by size, so the invariant holds. */
  lemma DangleValid(nodes: seq<Node>, stack: seq<Frame>, name: string)
    requires ValidArena(nodes, stack)
    requires |stack| > 0 && HasRoom(nodes, stack[|stack| - 1].node)
    requires stack[|stack| - 1].cType == ObjectType
    ensures ValidArena(Dangle(nodes, stack[|stack| - 1].node, name), stack)
  {
    var k := stack[|stack| - 1].node;
    assert FrameOk(nodes, stack[|stack| - 1]);
    var r := Dangle(nodes, k, name);
    DangleKeepsWellFormed(nodes, k, name);
    FramesKept(nodes, r, stack);
    assert NodeOk(nodes, k);
    forall q: nat, j: nat | q < |nodes|
      ensures ChildAt(r[q], j) == ChildAt(nodes[q], j)
    {
      if q == k && j < r[k].size {
        assert r[k].members[..r[k].size][j] == nodes[k].members[..nodes[k].size][j];
      }
    }
    SameChildrenKeepTree(nodes, r);
  }

  /** The tree shape depends only on which slot points to which node. */
  lemma SameChildrenKeepTree(nodes: seq<Node>, r: seq<Node>)
    requires Owned(nodes) && Connected(nodes) && |r| == |nodes|
    requires forall q: nat, j: nat :: q < |nodes| ==> ChildAt(r[q], j) == ChildAt(nodes[q], j)
    ensures Owned(r) && Connected(r)
  {
    forall q: nat | 0 < q < |r|
      ensures HasParent(r, q)
    {
      assert HasParent(nodes, q);
      var p: nat, j: nat :| p < |nodes| && j < nodes[p].size && ChildAt(nodes[p], j) == Some(q);
      assert ChildAt(r[p], j) == Some(q);
      assert j < r[p].size;
    }
    forall p1, j1, p2, j2 |
      0 <= p1 < |r| && 0 <= p2 < |r| && 0 <= j1 < r[p1].size && 0 <= j2 < r[p2].size &&
      ChildAt(r[p1], j1).Some? && ChildAt(r[p1], j1) == ChildAt(r[p2], j2)
      ensures p1 == p2 && j1 == j2
    {
      assert ChildAt(nodes[p1], j1) == ChildAt(r[p1], j1);
      assert ChildAt(nodes[p2], j2) == ChildAt(r[p2], j2);
    }
  }

  /** Frames stay valid while nodes keep their kinds and the arena grows. */
  lemma FramesKept(nodes: seq<Node>, nodes': seq<Node>, stack: seq<Frame>)
    requires forall k :: 0 <= k < |stack| ==> FrameOk(nodes, stack[k])
    requires |nodes'| >= |nodes|
    requires forall k :: 0 <= k < |nodes| ==> nodes'[k].Type() == nodes[k].Type()
    ensures forall k :: 0 <= k < |stack| ==> FrameOk(nodes', stack[k])
  {
    forall k | 0 <= k < |stack|
      ensures FrameOk(nodes', stack[k])
    {
      assert FrameOk(nodes, stack[k]);
    }
  }

  /** Writing a reference to a container appended right after. */
  lemma PutAndAppendKeepWellFormed(nodes: seq<Node>, k: nat, name: Option<string>, p: Payload, added: Node)
    requires WellFormed(nodes) && HasRoom(nodes, k)
    requires name.Some? <==> nodes[k].ObjectNode?
    requires p == ObjectRef(|nodes|) || p == ArrayRef(|nodes|)
    requires p.ObjectRef? <==> added.ObjectNode?
    requires added.size == 0 && forall j :: 0 <= j < added.Capacity() ==> !added.Filled(j)
    ensures WellFormed(Put(nodes, k, name, p) + [added])
  {
    var ext := nodes + [added];
    AppendKeepsWellFormed(nodes, added);
    assert Put(nodes, k, name, p) + [added] == Put(ext, k, name, p);
    PutKeepsWellFormed(ext, k, name, p);
  }

  /** One iteration of the for loop (lib/jsmntree.c:138-412): close the
      finished containers, then, in an object, take this token as the key
      and the next one as the value; in an array, this token is the value. */
  function Step(js: string, toks: seq<Token>, st: State): (r: StepResult)
    requires Valid(st) && st.i < |toks| && toks[st.i].kind != JsmnUndefined
    ensures r.Next? ==> Valid(r.st) && st.i < r.st.i <= |toks|
    ensures r.Next? ==> (|r.st.nodes| >= |st.nodes| &&
      forall k :: 0 <= k < |st.nodes| ==>
        r.st.nodes[k].Type() == st.nodes[k].Type() && r.st.nodes[k].Capacity() == st.nodes[k].Capacity())
  {
    var i := st.i;
    var stack := PopClosed(st.stack, toks[i].start);
    if stack == [] then Stuck(EmptyStack, i)
    else
      var top := stack[|stack| - 1];
      assert FrameOk(st.nodes, stack[|stack| - 1]);
      if !HasRoom(st.nodes, top.node) then Stuck(CapacityExceeded, i)
      else if top.cType == ObjectType then
        if !InText(js, toks[i]) then Stuck(BadSpan, i)
        else if i + 1 >= |toks| then Stuck(PastLastToken, i)
        else Attach(js, toks, st.nodes, stack, Some(Copy(js, toks[i])), i + 1)
      else
        Attach(js, toks, st.nodes, stack, None, i)
  }

  /** The for loop from a given state to its end: past the last token, or
      up to an undefined token met where the loop test reads one (a key or
      an array element; an undefined value after a key is read with the
      key, inside the iteration). */
  function Exec(js: string, toks: seq<Token>, st: State): (r: StepResult)
    requires Valid(st) && st.i <= |toks|
    ensures r.Next? ==> Valid(r.st) && st.i <= r.st.i <= |toks|
    ensures r.Next? ==> r.st.i == |toks| || toks[r.st.i].kind == JsmnUndefined
    ensures r.Next? ==> (|r.st.nodes| >= |st.nodes| &&
      forall k :: 0 <= k < |st.nodes| ==>
        r.st.nodes[k].Type() == st.nodes[k].Type() && r.st.nodes[k].Capacity() == st.nodes[k].Capacity())
    decreases |toks| - st.i
  {
    if st.i == |toks| || toks[st.i].kind == JsmnUndefined then Next(st)
    else match Step(js, toks, st)
      case Stuck(f, at) => Stuck(f, at)
      case Next(s) => Exec(js, toks, s)
  }

  /** The state before the loop (lib/jsmntree.c:125-137): an empty root
      object whose capacity is the first token's child count, and one frame
      for it. */
  function Init(t0: Token): (st: State)
    ensures Valid(st) && st.i == 1
  {
    assert NodeOk([NewObject(t0.size)], 0);
    State([NewObject(t0.size)], [Frame(t0.end, 0, ObjectType)], 1)
  }

  /** The whole of jsmntree_make_tree. No tree when the first token is
      undefined; otherwise the root is an object, at index 0, whose capacity
      is the first token's child count. */
  function Build(js: string, toks: seq<Token>): (r: BuildResult)
    requires |toks| > 0
    ensures r.NoTree? <==> toks[0].kind == JsmnUndefined
    ensures r.Built? ==> WellFormed(r.nodes) && Owned(r.nodes) && Connected(r.nodes) && |r.nodes| > 0
    ensures r.Built? ==> r.nodes[0].ObjectNode? && r.nodes[0].Capacity() == toks[0].size
  {
    if toks[0].kind == JsmnUndefined then NoTree
    else match Exec(js, toks, Init(toks[0]))
      case Next(s) => Built(s.nodes)
      case Stuck(f, at) => Failed(f, at)
  }

  /** The max_size field as written: jsmntree_init gets a count of 1 for
      every object and array struct (lib/jsmntree.c:126, 184, 207, 235,
      258), so the field the header documents as the bound of size
      (lib/jsmntree.h:73-76, 87-90) is already below size once a container
      holds two entries. */
  lemma StoredMaxSizeExceeded()
    ensures var n := Put(Put([NewObject(2)], 0, Some("a"), NullVal), 0, Some("b"), NullVal)[0];
      n.size == 2 && n.StoredMaxSize() == 1 && n.size > n.StoredMaxSize()
  {
  }

  /** The intended bound, with the capacity taken from the buffer the
      builder allocates (tokens[i].size slots): in every tree built, size
      never exceeds it, and every slot below size is filled. */
  lemma BuiltWithinCapacity(js: string, toks: seq<Token>)
    requires |toks| > 0 && Build(js, toks).Built?
    ensures var nodes := Build(js, toks).nodes;
      forall k :: 0 <= k < |nodes| ==>
        nodes[k].size <= nodes[k].Capacity() &&
        forall j :: 0 <= j < nodes[k].size ==> nodes[k].Filled(j)
  {
    var nodes := Build(js, toks).nodes;
    forall k | 0 <= k < |nodes|
      ensures nodes[k].size <= nodes[k].Capacity()
      ensures forall j :: 0 <= j < nodes[k].size ==> nodes[k].Filled(j)
    {
      assert NodeOk(nodes, k);
    }
  }

  // ---------------------------------------------------------------------
  // The stack: the chain of open containers, innermost on top

  /** Node c hangs from a counted slot of node p. */
  predicate HangsFrom(nodes: seq<Node>, p: nat, c: nat) {
    p < |nodes| && exists j: nat :: j < nodes[p].size && ChildAt(nodes[p], j) == Some(c)
  }

  /** The bottom frame is the root, and every other frame holds a container
      stored in a counted slot of the container of the frame below it
      (lib/jsmntree.c:133-134 and the pushes at 192-193, 215-216, 243-244,
      266-267). */
  predicate Chain(nodes: seq<Node>, stack: seq<Frame>) {
    && (|stack| > 0 ==> stack[0].node == 0)
    && forall k :: 0 < k < |stack| ==> HangsFrom(nodes, stack[k - 1].node, stack[k].node)
  }

  /** Each frame's text ends no later than the text of the frame below. */
  predicate NestedEnds(stack: seq<Frame>) {
    forall k :: 0 < k < |stack| ==> stack[k].end <= stack[k - 1].end
  }

  /** Every counted slot of `before` is still counted in `after` and points
      to the same node. */
  predicate SlotsKept(before: seq<Node>, after: seq<Node>) {
    && |before| <= |after|
    && forall q, j :: 0 <= q < |before| && 0 <= j < before[q].size ==>
         j < after[q].size && ChildAt(after[q], j) == ChildAt(before[q], j)
  }

  lemma ChainKept(before: seq<Node>, after: seq<Node>, stack: seq<Frame>)
    requires Chain(before, stack) && SlotsKept(before, after)
    ensures Chain(after, stack)
  {
    forall k | 0 < k < |stack|
      ensures HangsFrom(after, stack[k - 1].node, stack[k].node)
    {
      assert HangsFrom(before, stack[k - 1].node, stack[k].node);
      var j: nat :| j < before[stack[k - 1].node].size &&
        ChildAt(before[stack[k - 1].node], j) == Some(stack[k].node);
      assert ChildAt(after[stack[k - 1].node], j) == Some(stack[k].node);
    }
  }

  /** The pop loop leaves a prefix of the chain, which is a chain. */
  lemma ChainPrefix(nodes: seq<Node>, stack: seq<Frame>, n: nat)
    requires Chain(nodes, stack) && n <= |stack|
    ensures Chain(nodes, stack[..n])
  {
    assert forall k :: 0 <= k < n ==> stack[..n][k] == stack[k];
  }

  lemma NestedPrefix(stack: seq<Frame>, n: nat)
    requires NestedEnds(stack) && n <= |stack|
    ensures NestedEnds(stack[..n])
  {
    assert forall k :: 0 <= k < n ==> stack[..n][k] == stack[k];
  }

  /** Storing one entry keeps every counted slot. */
  lemma EntryAddedKeepsSlots(before: seq<Node>, after: seq<Node>, k: nat, name: Option<string>, p: Payload)
    requires k < |before| <= |after| && EntryAdded(before, after, k, name, p)
    ensures SlotsKept(before, after)
  {
    forall q, j | 0 <= q < |before| && 0 <= j < before[q].size
      ensures j < after[q].size && ChildAt(after[q], j) == ChildAt(before[q], j)
    {
      if q == k {
        assert after[k].ObjectNode? ==> after[k].members[j] == before[k].members[j];
        assert after[k].ArrayNode? ==> after[k].elements[j] == before[k].elements[j];
      }
    }
  }

  /** A dangling member keeps every counted slot. */
  lemma DangleKeepsSlots(nodes: seq<Node>, k: nat, name: string)
    requires HasRoom(nodes, k) && nodes[k].ObjectNode?
    ensures SlotsKept(nodes, Dangle(nodes, k, name))
  {
    var r := Dangle(nodes, k, name);
    forall q, j | 0 <= q < |nodes| && 0 <= j < nodes[q].size
      ensures j < r[q].size && ChildAt(r[q], j) == ChildAt(nodes[q], j)
    {
      if q == k {
        assert r[k].members[j] == nodes[k].members[j];
      }
    }
  }

  /** Storing the value token keeps the chain: a scalar or an undefined
      token leaves the stack alone and keeps every counted slot, and an
      opened container is pushed right after being stored in the top one. */
  lemma AttachKeepsChain(js: string, toks: seq<Token>, nodes: seq<Node>, stack: seq<Frame>,
                         name: Option<string>, j: nat)
    requires Valid(State(nodes, stack, j))
    requires |stack| > 0 && HasRoom(nodes, stack[|stack| - 1].node)
    requires name.Some? <==> stack[|stack| - 1].cType == ObjectType
    requires j < |toks|
    requires Chain(nodes, stack)
    ensures var r := Attach(js, toks, nodes, stack, name, j);
      r.Next? ==> Chain(r.st.nodes, r.st.stack)
  {
    var r := Attach(js, toks, nodes, stack, name, j);
    var top := stack[|stack| - 1].node;
    if r.Next? {
      var kind := toks[j].kind;
      if kind == JsmnUndefined {
        if name.Some? {
          DangleKeepsSlots(nodes, top, name.value);
        }
        ChainKept(nodes, r.st.nodes, stack);
      } else if kind == JsmnString || kind == JsmnPrimitive {
        var p := if kind == JsmnString then StringVal(Copy(js, toks[j])) else Classify(Copy(js, toks[j]));
        EntryAddedKeepsSlots(nodes, r.st.nodes, top, name, p);
        ChainKept(nodes, r.st.nodes, stack);
      } else {
        var added := |nodes|;
        var p := if kind == JsmnObject then ObjectRef(added) else ArrayRef(added);
        EntryAddedKeepsSlots(nodes, r.st.nodes, top, name, p);
        ChainKept(nodes, r.st.nodes, stack);
        ChainPush(r.st.nodes, stack, top, nodes[top].size, r.st.stack[|stack|]);
        assert r.st.stack == stack + [r.st.stack[|stack|]];
      }
    }
  }

  /** Pushing a frame for a container stored in a counted slot of the top
      container extends the chain. */
  lemma ChainPush(nodes: seq<Node>, stack: seq<Frame>, top: nat, s: nat, f: Frame)
    requires Chain(nodes, stack) && |stack| > 0 && stack[|stack| - 1].node == top
    requires top < |nodes| && s < nodes[top].size && ChildAt(nodes[top], s) == Some(f.node)
    ensures Chain(nodes, stack + [f])
  {
    var st := stack + [f];
    forall k | 0 < k < |st|
      ensures HangsFrom(nodes, st[k - 1].node, st[k].node)
    {
      if k < |stack| {
        assert st[k - 1] == stack[k - 1] && st[k] == stack[k];
      }
    }
  }

  /** An iteration that goes on found an open container with room and, in
      an object, a key inside the text with a token after it. */
  lemma StepGoesOn(js: string, toks: seq<Token>, st: State)
    requires Valid(st) && st.i < |toks| && toks[st.i].kind != JsmnUndefined
    ensures var stack := PopClosed(st.stack, toks[st.i].start);
      Step(js, toks, st).Next? ==>
        && stack != [] && HasRoom(st.nodes, stack[|stack| - 1].node)
        && (stack[|stack| - 1].cType == ObjectType ==> InText(js, toks[st.i]) && st.i + 1 < |toks|)
  {
  }

  /** In an object, the iteration stores the next token under this key. */
  lemma KeyIsAttach(js: string, toks: seq<Token>, st: State)
    requires Valid(st) && st.i < |toks| && toks[st.i].kind != JsmnUndefined
    requires var stack := PopClosed(st.stack, toks[st.i].start);
      && stack != [] && HasRoom(st.nodes, stack[|stack| - 1].node)
      && stack[|stack| - 1].cType == ObjectType && InText(js, toks[st.i]) && st.i + 1 < |toks|
    ensures Step(js, toks, st) ==
      Attach(js, toks, st.nodes, PopClosed(st.stack, toks[st.i].start), Some(Copy(js, toks[st.i])), st.i + 1)
  {
  }

  /** In an array, the iteration stores this token. */
  lemma ElementIsAttach(js: string, toks: seq<Token>, st: State)
    requires Valid(st) && st.i < |toks| && toks[st.i].kind != JsmnUndefined
    requires var stack := PopClosed(st.stack, toks[st.i].start);
      && stack != [] && HasRoom(st.nodes, stack[|stack| - 1].node)
      && stack[|stack| - 1].cType != ObjectType
    ensures Step(js, toks, st) == Attach(js, toks, st.nodes, PopClosed(st.stack, toks[st.i].start), None, st.i)
  {
  }

  /** A key and its value keep the chain. */
  lemma KeyKeepsChain(js: string, toks: seq<Token>, st: State)
    requires Valid(st) && st.i < |toks| && toks[st.i].kind != JsmnUndefined
    requires var stack := PopClosed(st.stack, toks[st.i].start);
      && stack != [] && HasRoom(st.nodes, stack[|stack| - 1].node)
      && stack[|stack| - 1].cType == ObjectType && InText(js, toks[st.i]) && st.i + 1 < |toks|
    requires Chain(st.nodes, st.stack)
    ensures var r := Step(js, toks, st);
      r.Next? ==> Chain(r.st.nodes, r.st.stack)
  {
    var stack := PopClosed(st.stack, toks[st.i].start);
    ChainPrefix(st.nodes, st.stack, |stack|);
    KeyIsAttach(js, toks, st);
    AttachKeepsChain(js, toks, st.nodes, stack, Some(Copy(js, toks[st.i])), st.i + 1);
  }

  /** An element keeps the chain. */
  lemma ElementKeepsChain(js: string, toks: seq<Token>, st: State)
    requires Valid(st) && st.i < |toks| && toks[st.i].kind != JsmnUndefined
    requires var stack := PopClosed(st.stack, toks[st.i].start);
      && stack != [] && HasRoom(st.nodes, stack[|stack| - 1].node)
      && stack[|stack| - 1].cType != ObjectType
    requires Chain(st.nodes, st.stack)
    ensures var r := Step(js, toks, st);
      r.Next? ==> Chain(r.st.nodes, r.st.stack)
  {
    var stack := PopClosed(st.stack, toks[st.i].start);
    ChainPrefix(st.nodes, st.stack, |stack|);
    ElementIsAttach(js, toks, st);
    AttachKeepsChain(js, toks, st.nodes, stack, None, st.i);
  }

  /** One iteration keeps the chain. */
  lemma StepKeepsChain(js: string, toks: seq<Token>, st: State)
    requires Valid(st) && st.i < |toks| && toks[st.i].kind != JsmnUndefined
    requires Chain(st.nodes, st.stack)
    ensures var r := Step(js, toks, st);
      r.Next? ==> Chain(r.st.nodes, r.st.stack)
  {
    var stack := PopClosed(st.stack, toks[st.i].start);
    StepGoesOn(js, toks, st);
    if Step(js, toks, st).Next? {
      if stack[|stack| - 1].cType == ObjectType {
        KeyKeepsChain(js, toks, st);
      } else {
        ElementKeepsChain(js, toks, st);
      }
    }
  }

  /** The loop keeps the chain, from the state before it on. */
  lemma {:induction false} ExecKeepsChain(js: string, toks: seq<Token>, st: State)
    requires Valid(st) && st.i <= |toks| && Chain(st.nodes, st.stack)
    ensures var r := Exec(js, toks, st);
      r.Next? ==> Chain(r.st.nodes, r.st.stack)
    decreases |toks| - st.i
  {
    if st.i < |toks| && toks[st.i].kind != JsmnUndefined {
      var r := Step(js, toks, st);
      StepKeepsChain(js, toks, st);
      if r.Next? {
        ExecKeepsChain(js, toks, r.st);
      }
    }
  }

  /** The stack before the loop is the root alone. */
  lemma InitChain(t0: Token)
    ensures Chain(Init(t0).nodes, Init(t0).stack) && NestedEnds(Init(t0).stack)
    ensures |Init(t0).stack| == 1 && Init(t0).stack[0].node == 0
  {
  }

  /** What well-nested tokens guarantee: the value read at token i (and at
      i + 1 after a key) ends inside the innermost container still open
      there. The C code does not check this. */
  predicate EndsInside(toks: seq<Token>, st: State)
    requires st.i < |toks|
  {
    var open := PopClosed(st.stack, toks[st.i].start);
    open != [] ==>
      && toks[st.i].end <= open[|open| - 1].end
      && (st.i + 1 < |toks| ==> toks[st.i + 1].end <= open[|open| - 1].end)
  }

  /** Pushing a frame that ends inside the top one keeps the ends nested. */
  lemma NestedPush(stack: seq<Frame>, f: Frame)
    requires NestedEnds(stack) && |stack| > 0 && f.end <= stack[|stack| - 1].end
    ensures NestedEnds(stack + [f])
  {
    var st := stack + [f];
    forall k | 0 < k < |st|
      ensures st[k].end <= st[k - 1].end
    {
      if k < |stack| {
        assert st[k - 1] == stack[k - 1] && st[k] == stack[k];
      }
    }
  }

  /** Under well-nested tokens, storing a value keeps the frames nested by
      end offset. */
  lemma AttachKeepsNesting(js: string, toks: seq<Token>, nodes: seq<Node>, stack: seq<Frame>,
                           name: Option<string>, j: nat)
    requires Valid(State(nodes, stack, j))
    requires |stack| > 0 && HasRoom(nodes, stack[|stack| - 1].node)
    requires name.Some? <==> stack[|stack| - 1].cType == ObjectType
    requires j < |toks|
    requires NestedEnds(stack) && toks[j].end <= stack[|stack| - 1].end
    ensures var r := Attach(js, toks, nodes, stack, name, j);
      r.Next? ==> NestedEnds(r.st.stack)
  {
    var r := Attach(js, toks, nodes, stack, name, j);
    if r.Next? && (toks[j].kind == JsmnObject || toks[j].kind == JsmnArray) {
      NestedPush(stack, r.st.stack[|stack|]);
      assert r.st.stack == stack + [r.st.stack[|stack|]];
    }
  }

  /** Under well-nested tokens, a key and its value keep the frames nested. */
  lemma KeyKeepsNesting(js: string, toks: seq<Token>, st: State)
    requires Valid(st) && st.i < |toks| && toks[st.i].kind != JsmnUndefined
    requires var stack := PopClosed(st.stack, toks[st.i].start);
      && stack != [] && HasRoom(st.nodes, stack[|stack| - 1].node)
      && stack[|stack| - 1].cType == ObjectType && InText(js, toks[st.i]) && st.i + 1 < |toks|
    requires NestedEnds(st.stack) && EndsInside(toks, st)
    ensures var r := Step(js, toks, st);
      r.Next? ==> NestedEnds(r.st.stack)
  {
    var stack := PopClosed(st.stack, toks[st.i].start);
    assert toks[st.i + 1].end <= stack[|stack| - 1].end;
    NestedPrefix(st.stack, |stack|);
    KeyIsAttach(js, toks, st);
    AttachKeepsNesting(js, toks, st.nodes, stack, Some(Copy(js, toks[st.i])), st.i + 1);
  }

  /** Under well-nested tokens, an element keeps the frames nested. */
  lemma ElementKeepsNesting(js: string, toks: seq<Token>, st: State)
    requires Valid(st) && st.i < |toks| && toks[st.i].kind != JsmnUndefined
    requires var stack := PopClosed(st.stack, toks[st.i].start);
      && stack != [] && HasRoom(st.nodes, stack[|stack| - 1].node)
      && stack[|stack| - 1].cType != ObjectType
    requires NestedEnds(st.stack) && EndsInside(toks, st)
    ensures var r := Step(js, toks, st);
      r.Next? ==> NestedEnds(r.st.stack)
  {
    var stack := PopClosed(st.stack, toks[st.i].start);
    assert toks[st.i].end <= stack[|stack| - 1].end;
    NestedPrefix(st.stack, |stack|);
    ElementIsAttach(js, toks, st);
    AttachKeepsNesting(js, toks, st.nodes, stack, None, st.i);
  }

  /** Under well-nested tokens, one iteration keeps the frames nested by end
      offset, innermost on top. */
  lemma StepKeepsNesting(js: string, toks: seq<Token>, st: State)
    requires Valid(st) && st.i < |toks| && toks[st.i].kind != JsmnUndefined
    requires NestedEnds(st.stack) && EndsInside(toks, st)
    ensures var r := Step(js, toks, st);
      r.Next? ==> NestedEnds(r.st.stack)
  {
    var stack := PopClosed(st.stack, toks[st.i].start);
    StepGoesOn(js, toks, st);
    if Step(js, toks, st).Next? {
      if stack[|stack| - 1].cType == ObjectType {
        KeyKeepsNesting(js, toks, st);
      } else {
        ElementKeepsNesting(js, toks, st);
      }
    }
  }

  /** The pop loop itself (lib/jsmntree.c:140-142). */
  method PopWhileClosed(stack: seq<Frame>, start: int) returns (s: seq<Frame>)
    ensures s == PopClosed(stack, start)
  {
    s := stack;
    while |s| > 0 && start > s[|s| - 1].end
      invariant PopClosed(s, start) == PopClosed(stack, start)
      decreases |s|
    {
      s := s[..|s| - 1];
    }
  }

  /** The switch on the value token (lib/jsmntree.c:170-411): compute the
      value, write it at index size of the active container and increment
      size; an object or array token also allocates the new container and
      pushes its frame. */
  method StoreValue(js: string, toks: seq<Token>, nodes: seq<Node>, stack: seq<Frame>,
                    name: Option<string>, j: nat) returns (r: StepResult)
    requires Valid(State(nodes, stack, j))
    requires |stack| > 0 && HasRoom(nodes, stack[|stack| - 1].node)
    requires name.Some? <==> stack[|stack| - 1].cType == ObjectType
    requires j < |toks|
    ensures r == Attach(js, toks, nodes, stack, name, j)
  {
    var top := stack[|stack| - 1];
    assert FrameOk(nodes, stack[|stack| - 1]);
    var node := nodes[top.node];
    var t := toks[j];
    var value: Payload := UndefinedVal;
    if t.kind == JsmnObject {
      value := ObjectRef(|nodes|);
    } else if t.kind == JsmnArray {
      value := ArrayRef(|nodes|);
    } else if t.kind == JsmnString {
      if !(0 <= t.start <= t.end <= |js|) {
        return Stuck(BadSpan, j);
      }
      value := StringVal(CStr(js[t.start..t.end]));
    } else if t.kind == JsmnPrimitive {
      if !(0 <= t.start <= t.end <= |js|) {
        return Stuck(BadSpan, j);
      }
      if t.end - t.start > 9 {
        return Stuck(PrimitiveTooLong, j);
      }
      var text := CStr(js[t.start..t.end]);
      if text == "null" {
        value := NullVal;
      } else if text == "true" || text == "false" {
        value := BooleanVal(if text == "true" then 1 else 0);
      } else {
        value := NumberVal(Atoi(text));
      }
    }
    var nodes', stack' := nodes, stack;
    if t.kind == JsmnUndefined {
      if name.Some? {
        // allocated and named, but size is not incremented
        nodes' := nodes[top.node := ObjectNode(node.size, node.members[node.size := Some(MemberCell(name.value, UndefinedVal))])];
      }
    } else {
      var n := |nodes|;
      if name.Some? {
        nodes' := nodes[top.node := ObjectNode(node.size + 1, node.members[node.size := Some(MemberCell(name.value, value))])];
      } else {
        nodes' := nodes[top.node := ArrayNode(node.size + 1, node.elements[node.size := Some(value)])];
      }
      if t.kind == JsmnObject {
        nodes' := nodes' + [NewObject(t.size)];
        stack' := stack + [Frame(t.end, n, ObjectType)];
      } else if t.kind == JsmnArray {
        nodes' := nodes' + [NewArray(t.size)];
        stack' := stack + [Frame(t.end, n, ArrayType)];
      }
    }
    return Next(State(nodes', stack', j + 1));
  }

  /** The body of the for loop (lib/jsmntree.c:139-411) for token i. */
  method Iterate(js: string, toks: seq<Token>, nodes: seq<Node>, stack: seq<Frame>, i: nat)
    returns (res: StepResult)
    requires Valid(State(nodes, stack, i)) && i < |toks| && toks[i].kind != JsmnUndefined
    ensures res == Step(js, toks, State(nodes, stack, i))
  {
    var open := PopWhileClosed(stack, toks[i].start);
    if |open| == 0 {
      return Stuck(EmptyStack, i);
    }
    var top := open[|open| - 1];
    assert FrameOk(nodes, open[|open| - 1]);
    var node := nodes[top.node];
    if node.size >= node.Capacity() {
      return Stuck(CapacityExceeded, i);
    }
    var name: Option<string> := None;
    var j := i;
    if top.cType == ObjectType {
      // the key: its text becomes the name of the member at index size
      if !(0 <= toks[i].start <= toks[i].end <= |js|) {
        return Stuck(BadSpan, i);
      }
      name := Some(CStr(js[toks[i].start..toks[i].end]));
      j := i + 1;
      if j >= |toks| {
        return Stuck(PastLastToken, i);
      }
    }
    res := StoreValue(js, toks, nodes, open, name, j);
  }

  /** jsmntree_make_tree (lib/jsmntree.c:110-417), its loops and writes as
      in the C code; it computes exactly Build. */
  method MakeTree(js: string, toks: seq<Token>) returns (r: BuildResult)
    requires |toks| > 0
    ensures r == Build(js, toks)
  {
    if toks[0].kind == JsmnUndefined {
      return NoTree;
    }
    var nodes := [NewObject(toks[0].size)];
    var stack := [Frame(toks[0].end, 0, ObjectType)];
    var i := 1;
    ghost var st0 := State(nodes, stack, i);
    assert st0 == Init(toks[0]);
    while i < |toks| && toks[i].kind != JsmnUndefined
      invariant i <= |toks| && Valid(State(nodes, stack, i))
      invariant Exec(js, toks, st0) == Exec(js, toks, State(nodes, stack, i))
      decreases |toks| - i
    {
      var res := Iterate(js, toks, nodes, stack, i);
      if res.Stuck? {
        return Failed(res.fault, res.at);
      }
      nodes, stack, i := res.st.nodes, res.st.stack, res.st.i;
    }
    return Built(nodes);
  }
}
