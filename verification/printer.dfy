/** jsmntree_fprint_tree / _object / _array (lib/jsmntree.c:488-585).
    ObjectText, ArrayText and ValueText give the exact text the printer
    writes for a value; FprintTree and its helpers are the C loops over the
    arena, writing to a stream modelled as the string written so far, and
    are proved to write exactly that text. */
module Printer {
  import opened Options
  import opened CText
  import opened JsmnTreeTypes
  import opened Abstraction

  /** "{ " + the members separated by ", " + " }". */
  function ObjectText(ms: seq<Member>): string
    decreases ms, 1
  {
    "{ " + MembersText(ms) + " }"
  }

  function ArrayText(es: seq<Value>): string
    decreases es, 1
  {
    "[ " + ElementsText(es) + " ]"
  }

  /** Each member, followed by ", " unless it is the last one. */
  function MembersText(ms: seq<Member>): string
    decreases ms, 0
  {
    if ms == [] then ""
    else MemberText(ms[0]) + (if |ms| == 1 then "" else ", " + MembersText(ms[1..]))
  }

  function ElementsText(es: seq<Value>): string
    decreases es, 0
  {
    if es == [] then ""
    else ValueText(es[0]) + (if |es| == 1 then "" else ", " + ElementsText(es[1..]))
  }

  /** "\"%s\": " for the name, then the value. */
  function MemberText(m: Member): string {
    "\"" + m.name + "\": " + ValueText(m.value)
  }

  /** Strings are quoted without escaping; numbers in decimal; a boolean
      is false exactly when it is 0. */
  function ValueText(v: Value): string {
    match v
    case Obj(ms) => ObjectText(ms)
    case Arr(es) => ArrayText(es)
    case Str(s) => "\"" + s + "\""
    case Num(n) => Decimal(n)
    case Bool(b) => if b == 0 then "false" else "true"
    case Null => "null"
  }

  /** jsmntree_fprint_tree: the root object, or nothing for a NULL root,
      then a newline. */
  function TreeText(root: Option<seq<Member>>): string {
    (if root.Some? then ObjectText(root.value) else "") + "\n"
  }

  /** Printing one more member: the text grows by a separator (unless it
      was empty) and that member's text. This is what the C loop does. */
  lemma {:induction false} MembersTextSnoc(ms: seq<Member>, m: Member)
    ensures MembersText(ms + [m]) ==
      MembersText(ms) + (if ms == [] then "" else ", ") + MemberText(m)
  {
    if |ms| > 1 {
      assert (ms + [m])[1..] == ms[1..] + [m];
      MembersTextSnoc(ms[1..], m);
    } else if |ms| == 1 {
      assert (ms + [m])[1..] == [m];
    }
  }

  lemma {:induction false} ElementsTextSnoc(es: seq<Value>, e: Value)
    ensures ElementsText(es + [e]) ==
      ElementsText(es) + (if es == [] then "" else ", ") + ValueText(e)
  {
    if |es| > 1 {
      assert (es + [e])[1..] == es[1..] + [e];
      ElementsTextSnoc(es[1..], e);
    } else if |es| == 1 {
      assert (es + [e])[1..] == [e];
    }
  }

  /** Printed text always opens and closes with the right bracket. */
  lemma ObjectTextShape(ms: seq<Member>)
    ensures |ObjectText(ms)| >= 4
    ensures ObjectText(ms)[..2] == "{ " && ObjectText(ms)[|ObjectText(ms)| - 2..] == " }"
    ensures ms == [] ==> ObjectText(ms) == "{  }"
  {
  }

  /** The text the C switch writes for one payload (lib/jsmntree.c:509-534
      and 554-579); a payload whose value was never set writes nothing. */
  method FprintPayload(nodes: seq<Node>, k: nat, p: Payload, out: string) returns (out': string)
    requires Linked(nodes) && k < |nodes| && PayloadOk(nodes, k, p)
    ensures out' == out + ValueText(AbsPayload(nodes, k, p))
    decreases |nodes| - k, 0, 0
  {
    match p
    case ObjectRef(r) =>
      out' := FprintObject(nodes, r, out);
    case ArrayRef(r) =>
      out' := FprintArray(nodes, r, out);
    case StringVal(s) =>
      out' := out + "\"" + s + "\"";
    case NumberVal(n) =>
      out' := out + Decimal(n);
    case BooleanVal(b) =>
      out' := out + (if b == 0 then "false" else "true");
    case NullVal =>
      out' := out + "null";
  }

  /** One turn of the printer's loop, stated on the output so far. */
  lemma MembersLoopStep(pre: string, ms: seq<Member>, i: nat, before: string, after: string)
    requires i < |ms|
    requires before == pre + MembersText(ms[..i]) + (if 0 < i then ", " else "")
    requires after == before + MemberText(ms[i])
    ensures after == pre + MembersText(ms[..i + 1])
  {
    MembersStep(ms, i);
  }

  /** One turn of the printer's loop: the separator before member i (if
      any) and member i's text extend the members printed so far. */
  lemma MembersStep(ms: seq<Member>, i: nat)
    requires i < |ms|
    ensures MembersText(ms[..i]) + (if 0 < i then ", " else "") + MemberText(ms[i]) ==
      MembersText(ms[..i + 1])
  {
    MembersTextSnoc(ms[..i], ms[i]);
    assert ms[..i + 1] == ms[..i] + [ms[i]];
  }

  lemma ElementsLoopStep(pre: string, es: seq<Value>, i: nat, before: string, after: string)
    requires i < |es|
    requires before == pre + ElementsText(es[..i]) + (if 0 < i then ", " else "")
    requires after == before + ValueText(es[i])
    ensures after == pre + ElementsText(es[..i + 1])
  {
    ElementsStep(es, i);
  }

  lemma ElementsStep(es: seq<Value>, i: nat)
    requires i < |es|
    ensures ElementsText(es[..i]) + (if 0 < i then ", " else "") + ValueText(es[i]) ==
      ElementsText(es[..i + 1])
  {
    ElementsTextSnoc(es[..i], es[i]);
    assert es[..i + 1] == es[..i] + [es[i]];
  }

  /** The body of the object loop for one member: its quoted name, a
      colon, then its value. */
  method FprintMember(nodes: seq<Node>, k: nat, m: MemberCell, out: string) returns (out': string)
    requires Linked(nodes) && k < |nodes| && PayloadOk(nodes, k, m.value)
    ensures out' == out + MemberText(Member(m.name, AbsPayload(nodes, k, m.value)))
    decreases |nodes| - k, 0, 1
  {
    out' := out + "\"" + m.name + "\": ";
    out' := FprintPayload(nodes, k, m.value, out');
  }

  /** jsmntree_fprint_object on node k. */
  method FprintObject(nodes: seq<Node>, k: nat, out: string) returns (out': string)
    requires Linked(nodes) && k < |nodes| && nodes[k].ObjectNode?
    ensures out' == out + ValueText(AbsNode(nodes, k))
    decreases |nodes| - k, 1
  {
    NodeValueSize(nodes, k);
    var obj := nodes[k];
    ghost var ms := AbsNode(nodes, k).members;
    out' := out + "{ ";
    var i := 0;
    while i < obj.size
      invariant 0 <= i <= obj.size && |ms| == obj.size
      invariant out' == out + "{ " + MembersText(ms[..i]) + (if 0 < i < obj.size then ", " else "")
    {
      ObjectMemberAt(nodes, k, i);
      var m := obj.members[i].value;
      ghost var before := out';
      out' := FprintMember(nodes, k, m, out');
      MembersLoopStep(out + "{ ", ms, i, before, out');
      if i < obj.size - 1 {
        out' := out' + ", ";
      }
      i := i + 1;
    }
    assert ms[..i] == ms;
    out' := out' + " }";
    assert ValueText(AbsNode(nodes, k)) == ObjectText(ms);
  }

  /** jsmntree_fprint_array on node k. */
  method FprintArray(nodes: seq<Node>, k: nat, out: string) returns (out': string)
    requires Linked(nodes) && k < |nodes| && nodes[k].ArrayNode?
    ensures out' == out + ValueText(AbsNode(nodes, k))
    decreases |nodes| - k, 1
  {
    NodeValueSize(nodes, k);
    var arr := nodes[k];
    ghost var es := AbsNode(nodes, k).elements;
    out' := out + "[ ";
    var i := 0;
    while i < arr.size
      invariant 0 <= i <= arr.size && |es| == arr.size
      invariant out' == out + "[ " + ElementsText(es[..i]) + (if 0 < i < arr.size then ", " else "")
    {
      ArrayElementAt(nodes, k, i);
      var p := arr.elements[i].value;
      ghost var before := out';
      out' := FprintPayload(nodes, k, p, out');
      ElementsLoopStep(out + "[ ", es, i, before, out');
      if i < arr.size - 1 {
        out' := out' + ", ";
      }
      i := i + 1;
    }
    assert es[..i] == es;
    out' := out' + " ]";
    assert ValueText(AbsNode(nodes, k)) == ArrayText(es);
  }

  /** jsmntree_fprint_tree: a tree is an arena whose root is node 0, and
      no tree (NULL) prints only the newline. */
  method FprintTree(tree: Option<seq<Node>>, out: string) returns (out': string)
    requires tree.Some? ==> Linked(tree.value) && |tree.value| > 0 && tree.value[0].ObjectNode?
    ensures tree.None? ==> out' == out + "\n"
    ensures tree.Some? ==> out' == out + TreeText(Some(AbsNode(tree.value, 0).members))
  {
    out' := out;
    if tree.Some? {
      out' := FprintObject(tree.value, 0, out');
    }
    out' := out' + "\n";
  }
}
