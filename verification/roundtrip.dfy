/** Printing and building are inverse: the builder, fed the printer's text
    together with the tokens that describe that text's layout (spans
    without the quotes for strings, child counts for containers, one child
    for a key: what the jsmn tokenizer reports for it when, as in a
    canonical value, no string or name holds a quote, a backslash or a
    NUL), rebuilds a tree whose value is the one printed.

    The proof follows the builder's loop through the tokens of one value
    at a time. While a container is being filled, the stack is the chain of
    open containers up to it, followed by frames of finished children that
    the pop loop has not dropped yet ("junk"); every junk frame ends before
    the next token starts, so the pop loop drops exactly them. Facts about
    where things lie in the text and in the tokens are proved apart from
    facts about the builder's steps. */
module RoundTrip {
  import opened Options
  import opened CText
  import opened JsmnTreeTypes
  import opened Tokens
  import opened Abstraction
  import opened Builder
  import opened Printer

  /** The token of v's text when that text starts at offset pos, followed
      by the tokens of its members or elements, in pre-order. */
  function Encode(v: Value, pos: int): (r: seq<Token>)
    ensures |r| >= 1 && r[0].kind != JsmnUndefined
    decreases v, 1
  {
    match v
    case Obj(ms) => [Token(JsmnObject, pos, pos + |ObjectText(ms)|, |ms|)] + EncodeMembers(ms, pos + 2)
    case Arr(es) => [Token(JsmnArray, pos, pos + |ArrayText(es)|, |es|)] + EncodeElements(es, pos + 2)
    case Str(s) => [Token(JsmnString, pos + 1, pos + 1 + |s|, 0)]
    case _ => [Token(JsmnPrimitive, pos, pos + |ValueText(v)|, 0)]
  }

  /** A member: the key, a string token with one child, then the value. */
  function EncodeMember(m: Member, pos: int): seq<Token>
    decreases m
  {
    [Token(JsmnString, pos + 1, pos + 1 + |m.name|, 1)] + Encode(m.value, pos + |m.name| + 4)
  }

  function EncodeMembers(ms: seq<Member>, pos: int): seq<Token>
    decreases ms, 0
  {
    if ms == [] then []
    else EncodeMember(ms[0], pos) + EncodeMembers(ms[1..], pos + |MemberText(ms[0])| + 2)
  }

  function EncodeElements(es: seq<Value>, pos: int): seq<Token>
    decreases es, 0
  {
    if es == [] then []
    else Encode(es[0], pos) + EncodeElements(es[1..], pos + |ValueText(es[0])| + 2)
  }

  /** The values the C tree can hold and print back unchanged: booleans are
      0 or 1, a number's decimal text fits the builder's 10-byte buffer,
      and no string or name contains a NUL. Strings and names also hold no
      quote and no backslash, which the printer would write unescaped: only
      then is the printed text one whose JSON tokens are the layout
      below. */
  predicate Canonical(v: Value)
    decreases v, 1
  {
    match v
    case Obj(ms) => CanonicalMembers(ms)
    case Arr(es) => CanonicalElements(es)
    case Str(s) => Plain(s)
    case Num(n) => |Decimal(n)| <= 9
    case Bool(b) => b == 0 || b == 1
    case Null => true
  }

  /** Text that reads back unchanged as a C string and as a JSON string. */
  predicate Plain(s: string) {
    '\0' !in s && '"' !in s && '\\' !in s
  }

  predicate CanonicalMembers(ms: seq<Member>)
    decreases ms, 0
  {
    ms == [] || (Plain(ms[0].name) && Canonical(ms[0].value) && CanonicalMembers(ms[1..]))
  }

  predicate CanonicalElements(es: seq<Value>)
    decreases es, 0
  {
    es == [] || (Canonical(es[0]) && CanonicalElements(es[1..]))
  }

  // ---------------------------------------------------------------------
  // Where things lie in the text and in the tokens

  /** `whole` holds `part` from index `at`. */
  predicate Occurs<T(==)>(whole: seq<T>, at: int, part: seq<T>) {
    0 <= at && at + |part| <= |whole| && forall n :: 0 <= n < |part| ==> whole[at + n] == part[n]
  }

  lemma Split<T>(whole: seq<T>, at: int, a: seq<T>, b: seq<T>)
    requires Occurs(whole, at, a + b)
    ensures Occurs(whole, at, a) && Occurs(whole, at + |a|, b)
  {
    forall n | 0 <= n < |a|
      ensures whole[at + n] == a[n]
    {
      assert (a + b)[n] == a[n];
    }
    forall n | 0 <= n < |b|
      ensures whole[at + |a| + n] == b[n]
    {
      assert (a + b)[|a| + n] == b[n];
    }
  }

  lemma Join<T>(whole: seq<T>, at: int, a: seq<T>, b: seq<T>)
    requires Occurs(whole, at, a) && Occurs(whole, at + |a|, b)
    ensures Occurs(whole, at, a + b)
  {
    forall n | 0 <= n < |a + b|
      ensures whole[at + n] == (a + b)[n]
    {
      if n >= |a| {
        assert whole[at + |a| + (n - |a|)] == b[n - |a|];
      }
    }
  }

  lemma Head<T>(whole: seq<T>, at: int, part: seq<T>)
    requires Occurs(whole, at, part) && |part| > 0
    ensures whole[at] == part[0]
  {
    assert whole[at + 0] == part[0];
  }

  /** The slice of whole that part occupies is part. */
  lemma Slice<T>(whole: seq<T>, at: int, part: seq<T>)
    requires Occurs(whole, at, part)
    ensures whole[at..at + |part|] == part
  {
    forall n | 0 <= n < |part|
      ensures whole[at..at + |part|][n] == part[n]
    {
      assert whole[at + n] == part[n];
    }
  }

  lemma Regroup<T>(a: seq<T>, x: T, b: seq<T>)
    ensures a + [x] + b == a + ([x] + b)
    ensures a + [x] + [] == a + [x]
  {
  }

  lemma EmptyPrefix<T>(s: seq<T>)
    ensures [] + s == s
  {
  }

  lemma Uncons<T>(done: seq<T>, rest: seq<T>)
    requires rest != []
    ensures done + [rest[0]] + rest[1..] == done + rest
    ensures |rest| == 1 ==> done + rest == done + [rest[0]]
  {
  }

  /** Text a, then ", ", then c, then a closing part. */
  lemma SeparatorParts(js: string, p: int, a: string, c: string, close: string)
    requires Occurs(js, p, a + (", " + c) + close)
    ensures Occurs(js, p, a) && Occurs(js, p + |a| + 2, c + close)
  {
    Split(js, p, a + (", " + c), close);
    Split(js, p, a, ", " + c);
    Split(js, p + |a|, ", ", c);
    Join(js, p + |a| + 2, c, close);
  }

  /** A member's key and value in the text and in the tokens. */
  lemma MemberParts(js: string, toks: seq<Token>, i: nat, m: Member, p: int)
    requires Occurs(js, p, MemberText(m)) && Occurs(toks, i, EncodeMember(m, p))
    ensures i + 1 < |toks| && toks[i] == Token(JsmnString, p + 1, p + 1 + |m.name|, 1)
    ensures Occurs(js, p + 1, m.name)
    ensures Occurs(js, p + |m.name| + 4, ValueText(m.value))
    ensures Occurs(toks, i + 1, Encode(m.value, p + |m.name| + 4))
    ensures |EncodeMember(m, p)| == 1 + |Encode(m.value, p + |m.name| + 4)|
    ensures |MemberText(m)| == |m.name| + 4 + |ValueText(m.value)|
  {
    var key := [Token(JsmnString, p + 1, p + 1 + |m.name|, 1)];
    Split(toks, i, key, Encode(m.value, p + |m.name| + 4));
    Head(toks, i, key);
    var quoted := "\"" + m.name;
    Split(js, p, quoted + "\": ", ValueText(m.value));
    Split(js, p, quoted, "\": ");
    Split(js, p, "\"", m.name);
  }

  /** The tokens of the first of the remaining members of an object, and of the
      ones after it. */
  lemma MembersParts(toks: seq<Token>, i: nat, rest: seq<Member>, p: int)
    requires rest != [] && CanonicalMembers(rest) && Occurs(toks, i, EncodeMembers(rest, p))
    ensures '\0' !in rest[0].name && Canonical(rest[0].value) && CanonicalMembers(rest[1..])
    ensures var p' := p + |MemberText(rest[0])| + 2;
      && |EncodeMembers(rest, p)| == |EncodeMember(rest[0], p)| + |EncodeMembers(rest[1..], p')|
      && Occurs(toks, i, EncodeMember(rest[0], p))
      && Occurs(toks, i + |EncodeMember(rest[0], p)|, EncodeMembers(rest[1..], p'))
    ensures |rest| == 1 ==> |EncodeMembers(rest, p)| == |EncodeMember(rest[0], p)|
  {
    Split(toks, i, EncodeMember(rest[0], p), EncodeMembers(rest[1..], p + |MemberText(rest[0])| + 2));
  }

  /** The text of the first of the remaining members of an object, and of the ones
      after it, which lie two characters further on. */
  lemma MembersTextParts(js: string, rest: seq<Member>, p: int)
    requires rest != [] && Occurs(js, p, MembersText(rest) + " }")
    ensures Occurs(js, p, MemberText(rest[0]))
    ensures |rest| == 1 ==> |MembersText(rest)| == |MemberText(rest[0])|
    ensures |rest| > 1 ==>
      var p' := p + |MemberText(rest[0])| + 2;
      && |MembersText(rest)| == |MemberText(rest[0])| + 2 + |MembersText(rest[1..])|
      && Occurs(js, p', MembersText(rest[1..]) + " }")
  {
    if |rest| == 1 {
      MembersTextLast(js, rest, p);
    } else {
      MembersTextNext(js, rest, p);
    }
  }

  lemma MembersTextLast(js: string, rest: seq<Member>, p: int)
    requires |rest| == 1 && Occurs(js, p, MembersText(rest) + " }")
    ensures Occurs(js, p, MemberText(rest[0])) && |MembersText(rest)| == |MemberText(rest[0])|
  {
    assert MembersText(rest) == MemberText(rest[0]);
    Split(js, p, MemberText(rest[0]), " }");
  }

  lemma MembersTextNext(js: string, rest: seq<Member>, p: int)
    requires |rest| > 1 && Occurs(js, p, MembersText(rest) + " }")
    ensures Occurs(js, p, MemberText(rest[0]))
    ensures |MembersText(rest)| == |MemberText(rest[0])| + 2 + |MembersText(rest[1..])|
    ensures Occurs(js, p + |MemberText(rest[0])| + 2, MembersText(rest[1..]) + " }")
  {
    var a := MemberText(rest[0]);
    var c := MembersText(rest[1..]);
    assert MembersText(rest) == a + (", " + c);
    SeparatorParts(js, p, a, c, " }");
  }

  /** The tokens of the first of the remaining elements of an array, and of the
      ones after it. */
  lemma ElementsParts(toks: seq<Token>, i: nat, rest: seq<Value>, p: int)
    requires rest != [] && CanonicalElements(rest) && Occurs(toks, i, EncodeElements(rest, p))
    ensures Canonical(rest[0]) && CanonicalElements(rest[1..])
    ensures var p' := p + |ValueText(rest[0])| + 2;
      && |EncodeElements(rest, p)| == |Encode(rest[0], p)| + |EncodeElements(rest[1..], p')|
      && Occurs(toks, i, Encode(rest[0], p))
      && Occurs(toks, i + |Encode(rest[0], p)|, EncodeElements(rest[1..], p'))
    ensures |rest| == 1 ==> |EncodeElements(rest, p)| == |Encode(rest[0], p)|
  {
    Split(toks, i, Encode(rest[0], p), EncodeElements(rest[1..], p + |ValueText(rest[0])| + 2));
  }

  /** The text of the first of the remaining elements of an array, and of the ones
      after it, which lie two characters further on. */
  lemma ElementsTextParts(js: string, rest: seq<Value>, p: int)
    requires rest != [] && Occurs(js, p, ElementsText(rest) + " ]")
    ensures Occurs(js, p, ValueText(rest[0]))
    ensures |rest| == 1 ==> |ElementsText(rest)| == |ValueText(rest[0])|
    ensures |rest| > 1 ==>
      var p' := p + |ValueText(rest[0])| + 2;
      && |ElementsText(rest)| == |ValueText(rest[0])| + 2 + |ElementsText(rest[1..])|
      && Occurs(js, p', ElementsText(rest[1..]) + " ]")
  {
    if |rest| == 1 {
      ElementsTextLast(js, rest, p);
    } else {
      ElementsTextNext(js, rest, p);
    }
  }

  lemma ElementsTextLast(js: string, rest: seq<Value>, p: int)
    requires |rest| == 1 && Occurs(js, p, ElementsText(rest) + " ]")
    ensures Occurs(js, p, ValueText(rest[0])) && |ElementsText(rest)| == |ValueText(rest[0])|
  {
    assert ElementsText(rest) == ValueText(rest[0]);
    Split(js, p, ValueText(rest[0]), " ]");
  }

  lemma ElementsTextNext(js: string, rest: seq<Value>, p: int)
    requires |rest| > 1 && Occurs(js, p, ElementsText(rest) + " ]")
    ensures Occurs(js, p, ValueText(rest[0]))
    ensures |ElementsText(rest)| == |ValueText(rest[0])| + 2 + |ElementsText(rest[1..])|
    ensures Occurs(js, p + |ValueText(rest[0])| + 2, ElementsText(rest[1..]) + " ]")
  {
    var a := ValueText(rest[0]);
    var c := ElementsText(rest[1..]);
    assert ElementsText(rest) == a + (", " + c);
    SeparatorParts(js, p, a, c, " ]");
  }

  /** An object's token, and where its members lie. */
  lemma ObjectParts(js: string, toks: seq<Token>, j: nat, ms: seq<Member>, q: int)
    requires Occurs(js, q, ValueText(Obj(ms))) && Occurs(toks, j, Encode(Obj(ms), q))
    ensures j < |toks| && toks[j] == Token(JsmnObject, q, q + |MembersText(ms)| + 4, |ms|)
    ensures |ValueText(Obj(ms))| == |MembersText(ms)| + 4
    ensures |Encode(Obj(ms), q)| == 1 + |EncodeMembers(ms, q + 2)|
    ensures Occurs(js, q + 2, MembersText(ms) + " }") && Occurs(toks, j + 1, EncodeMembers(ms, q + 2))
  {
    var head := [Token(JsmnObject, q, q + |ObjectText(ms)|, |ms|)];
    Split(toks, j, head, EncodeMembers(ms, q + 2));
    Head(toks, j, head);
    assert ValueText(Obj(ms)) == "{ " + (MembersText(ms) + " }");
    Split(js, q, "{ ", MembersText(ms) + " }");
  }

  /** An array's token, and where its elements lie. */
  lemma ArrayParts(js: string, toks: seq<Token>, j: nat, es: seq<Value>, q: int)
    requires Occurs(js, q, ValueText(Arr(es))) && Occurs(toks, j, Encode(Arr(es), q))
    ensures j < |toks| && toks[j] == Token(JsmnArray, q, q + |ElementsText(es)| + 4, |es|)
    ensures |ValueText(Arr(es))| == |ElementsText(es)| + 4
    ensures |Encode(Arr(es), q)| == 1 + |EncodeElements(es, q + 2)|
    ensures Occurs(js, q + 2, ElementsText(es) + " ]") && Occurs(toks, j + 1, EncodeElements(es, q + 2))
  {
    var head := [Token(JsmnArray, q, q + |ArrayText(es)|, |es|)];
    Split(toks, j, head, EncodeElements(es, q + 2));
    Head(toks, j, head);
    assert ValueText(Arr(es)) == "[ " + (ElementsText(es) + " ]");
    Split(js, q, "[ ", ElementsText(es) + " ]");
  }

  /** The builder's payload for a string, number, boolean or null. */
  function ScalarPayload(v: Value): Payload {
    match v
    case Str(s) => StringVal(s)
    case Num(n) => NumberVal(n)
    case Bool(b) => BooleanVal(b)
    case _ => NullVal
  }

  /** A string, number, boolean or null: its one token, the text the
      builder copies for it, and the payload that text gives. */
  lemma ScalarParts(js: string, toks: seq<Token>, j: nat, v: Value, q: int)
    requires !v.Obj? && !v.Arr? && Canonical(v)
    requires Occurs(js, q, ValueText(v)) && Occurs(toks, j, Encode(v, q))
    ensures j < |toks| && |Encode(v, q)| == 1
    ensures v.Str? ==> (toks[j] == Token(JsmnString, q + 1, q + 1 + |v.s|, 0) &&
      Occurs(js, q + 1, v.s) && '\0' !in v.s)
    ensures !v.Str? ==> (toks[j] == Token(JsmnPrimitive, q, q + |ValueText(v)|, 0) &&
      '\0' !in ValueText(v) && |ValueText(v)| <= 9 && Classify(ValueText(v)) == ScalarPayload(v))
  {
    Head(toks, j, Encode(v, q));
    match v
    case Str(s) =>
      Split(js, q, "\"" + s, "\"");
      Split(js, q, "\"", s);
    case Num(n) =>
      DecimalHasNoNul(n);
      AtoiDecimal(n);
    case Bool(b) =>
    case Null =>
  }

  // ---------------------------------------------------------------------
  // The builder's steps

  /** The pop loop drops the junk frames and stops at the active container. */
  lemma {:induction false} PopJunk(base: seq<Frame>, junk: seq<Frame>, start: int)
    requires base != [] && start <= base[|base| - 1].end
    requires forall n :: 0 <= n < |junk| ==> junk[n].end < start
    ensures PopClosed(base + junk, start) == base
    decreases |junk|
  {
    if junk == [] {
      assert base + junk == base;
    } else {
      var shorter := junk[..|junk| - 1];
      assert (base + junk)[..|base + junk| - 1] == base + shorter;
      PopJunk(base, shorter, start);
    }
  }

  /** The builder's frames are valid for any prefix of a valid stack. */
  lemma PrefixValid(nodes: seq<Node>, stack: seq<Frame>, base: seq<Frame>, junk: seq<Frame>)
    requires ValidArena(nodes, stack) && stack == base + junk
    ensures ValidArena(nodes, base)
  {
    forall k | 0 <= k < |base|
      ensures FrameOk(nodes, base[k])
    {
      assert base[k] == stack[k];
    }
  }

  /** The builder's loop from st, as Exec, in three mutually recursive
      parts: Run enters the loop, RunTest is the loop's exit test, RunBody
      takes one step and goes round again. The lemmas below pass "st and st'
      run to the same end" along as Run(st) == Run(st'); split this way the
      verifier expands a Run there without expanding the step it hides.
      RunIsExec shows that Run is Exec. */
  function Run(js: string, toks: seq<Token>, st: State): StepResult
    requires Valid(st) && st.i <= |toks|
    decreases |toks| - st.i, 2
  {
    RunTest(js, toks, st)
  }

  function RunTest(js: string, toks: seq<Token>, st: State): StepResult
    requires Valid(st) && st.i <= |toks|
    decreases |toks| - st.i, 1
  {
    if st.i == |toks| || toks[st.i].kind == JsmnUndefined then Next(st) else RunBody(js, toks, st)
  }

  function RunBody(js: string, toks: seq<Token>, st: State): StepResult
    requires Valid(st) && st.i < |toks| && toks[st.i].kind != JsmnUndefined
    decreases |toks| - st.i, 0
  {
    match Step(js, toks, st)
    case Stuck(f, at) => Stuck(f, at)
    case Next(s) => Run(js, toks, s)
  }

  lemma {:induction false} RunIsExec(js: string, toks: seq<Token>, st: State)
    requires Valid(st) && st.i <= |toks|
    ensures Run(js, toks, st) == Exec(js, toks, st)
    decreases |toks| - st.i
  {
    assert Run(js, toks, st) == RunTest(js, toks, st);
    if st.i < |toks| && toks[st.i].kind != JsmnUndefined {
      assert RunTest(js, toks, st) == RunBody(js, toks, st);
      match Step(js, toks, st)
      case Stuck(f, at) =>
      case Next(s) =>
        RunIsExec(js, toks, s);
    }
  }

  /** At the last token or an undefined one the loop is over. */
  lemma RunAtEnd(js: string, toks: seq<Token>, st: State)
    requires Valid(st) && st.i <= |toks|
    requires st.i == |toks| || toks[st.i].kind == JsmnUndefined
    ensures Run(js, toks, st) == Next(st)
  {
    assert Run(js, toks, st) == RunTest(js, toks, st);
  }

  /** A step that does not get stuck continues the loop. */
  lemma StepRun(js: string, toks: seq<Token>, st: State, next: State)
    requires Valid(st) && st.i < |toks| && toks[st.i].kind != JsmnUndefined
    requires Step(js, toks, st) == Next(next)
    ensures Valid(next) && next.i <= |toks|
    ensures Run(js, toks, st) == Run(js, toks, next)
  {
    assert Run(js, toks, st) == RunTest(js, toks, st);
    assert RunTest(js, toks, st) == RunBody(js, toks, st);
  }

  /** What the step at st.i does when it gets past the pop loop and the
      checks before the switch: store token j in the container on top of
      base, under the name of the key at st.i in an object, and with no name
      in an array (lib/jsmntree.c:139-170). */
  predicate Entry(js: string, toks: seq<Token>, st: State, base: seq<Frame>, name: Option<string>, j: nat) {
    && Valid(st) && st.i < |toks| && toks[st.i].kind != JsmnUndefined
    && ValidArena(st.nodes, base) && |base| > 0 && HasRoom(st.nodes, base[|base| - 1].node)
    && (name.Some? <==> base[|base| - 1].cType == ObjectType)
    && j < |toks|
    && PopClosed(st.stack, toks[st.i].start) == base
    && (if name.Some? then j == st.i + 1 && InText(js, toks[st.i]) && Copy(js, toks[st.i]) == name.value
        else j == st.i)
  }

  lemma EntryStep(js: string, toks: seq<Token>, st: State, base: seq<Frame>, name: Option<string>, j: nat)
    requires Entry(js, toks, st, base, name, j)
    ensures Step(js, toks, st) == Attach(js, toks, st.nodes, base, name, j)
  {
  }

  /** In an object, a key token: the pop loop drops the junk, and the step
      stores the next token under the key's text. */
  lemma KeyStep(js: string, toks: seq<Token>, st: State, outer: seq<Frame>, c: nat, end: int,
                junk: seq<Frame>, name: string, p: int)
    requires Valid(st) && st.i + 1 < |toks|
    requires st.stack == outer + [Frame(end, c, ObjectType)] + junk
    requires forall n :: 0 <= n < |junk| ==> junk[n].end < p
    requires p + 1 <= end && HasRoom(st.nodes, c)
    requires toks[st.i] == Token(JsmnString, p + 1, p + 1 + |name|, 1)
    requires Occurs(js, p + 1, name) && '\0' !in name
    ensures Entry(js, toks, st, outer + [Frame(end, c, ObjectType)], Some(name), st.i + 1)
  {
    var base := outer + [Frame(end, c, ObjectType)];
    PrefixValid(st.nodes, st.stack, base, junk);
    PopJunk(base, junk, p + 1);
    CStrNoNul(name);
    Slice(js, p + 1, name);
    assert Copy(js, toks[st.i]) == name;
  }

  /** In an array, any token: the pop loop drops the junk, and the step
      stores the token itself. */
  lemma ElementStep(js: string, toks: seq<Token>, st: State, outer: seq<Frame>, c: nat, end: int,
                    junk: seq<Frame>)
    requires Valid(st) && st.i < |toks| && toks[st.i].kind != JsmnUndefined
    requires st.stack == outer + [Frame(end, c, ArrayType)] + junk
    requires forall n :: 0 <= n < |junk| ==> junk[n].end < toks[st.i].start
    requires toks[st.i].start <= end && HasRoom(st.nodes, c)
    ensures Entry(js, toks, st, outer + [Frame(end, c, ArrayType)], None, st.i)
  {
    var base := outer + [Frame(end, c, ArrayType)];
    PrefixValid(st.nodes, st.stack, base, junk);
    PopJunk(base, junk, toks[st.i].start);
  }

  /** A string token inside the text stores its text. */
  lemma StringAttach(js: string, toks: seq<Token>, nodes: seq<Node>, base: seq<Frame>,
                     name: Option<string>, j: nat, s: string, q: int)
    requires ValidArena(nodes, base) && |base| > 0 && HasRoom(nodes, base[|base| - 1].node)
    requires name.Some? <==> base[|base| - 1].cType == ObjectType
    requires j < |toks| && toks[j] == Token(JsmnString, q + 1, q + 1 + |s|, 0)
    requires Occurs(js, q + 1, s) && '\0' !in s
    ensures Attach(js, toks, nodes, base, name, j) ==
      Next(State(Put(nodes, base[|base| - 1].node, name, StringVal(s)), base, j + 1))
  {
    assert Attach(js, toks, nodes, base, name, j) == AttachScalar(js, toks[j], nodes, base, name, j);
    CStrNoNul(s);
    Slice(js, q + 1, s);
    assert Copy(js, toks[j]) == s;
  }

  /** A primitive token of at most 9 characters stores its classified text. */
  lemma PrimitiveAttach(js: string, toks: seq<Token>, nodes: seq<Node>, base: seq<Frame>,
                        name: Option<string>, j: nat, text: string, q: int)
    requires ValidArena(nodes, base) && |base| > 0 && HasRoom(nodes, base[|base| - 1].node)
    requires name.Some? <==> base[|base| - 1].cType == ObjectType
    requires j < |toks| && toks[j] == Token(JsmnPrimitive, q, q + |text|, 0)
    requires Occurs(js, q, text) && '\0' !in text && |text| <= 9
    ensures Attach(js, toks, nodes, base, name, j) ==
      Next(State(Put(nodes, base[|base| - 1].node, name, Classify(text)), base, j + 1))
  {
    assert Attach(js, toks, nodes, base, name, j) == AttachScalar(js, toks[j], nodes, base, name, j);
    CStrNoNul(text);
    Slice(js, q, text);
    assert Copy(js, toks[j]) == text;
  }

  /** An object or array token appends an empty container of its child
      count, stores a reference to it and pushes its frame. */
  lemma OpenAttach(js: string, toks: seq<Token>, nodes: seq<Node>, base: seq<Frame>,
                   name: Option<string>, j: nat)
    requires ValidArena(nodes, base) && |base| > 0 && HasRoom(nodes, base[|base| - 1].node)
    requires name.Some? <==> base[|base| - 1].cType == ObjectType
    requires j < |toks| && (toks[j].kind == JsmnObject || toks[j].kind == JsmnArray)
    ensures toks[j].kind == JsmnObject ==> (Attach(js, toks, nodes, base, name, j) ==
      Next(State(Put(nodes, base[|base| - 1].node, name, ObjectRef(|nodes|)) + [NewObject(toks[j].size)],
                 base + [Frame(toks[j].end, |nodes|, ObjectType)], j + 1)))
    ensures toks[j].kind == JsmnArray ==> (Attach(js, toks, nodes, base, name, j) ==
      Next(State(Put(nodes, base[|base| - 1].node, name, ArrayRef(|nodes|)) + [NewArray(toks[j].size)],
                 base + [Frame(toks[j].end, |nodes|, ArrayType)], j + 1)))
  {
  }

  /** The step on an object or array token: a new empty node of the
      token's child count at the end of the arena, referenced from the
      active container, and its frame pushed. */
  lemma OpenStep(js: string, toks: seq<Token>, st: State, base: seq<Frame>, name: Option<string>, j: nat)
    returns (st2: State)
    requires Entry(js, toks, st, base, name, j)
    requires toks[j].kind == JsmnObject || toks[j].kind == JsmnArray
    ensures Valid(st2) && st2.i == j + 1 && Run(js, toks, st) == Run(js, toks, st2)
    ensures toks[j].kind == JsmnObject ==>
      && st2.nodes == Put(st.nodes, base[|base| - 1].node, name, ObjectRef(|st.nodes|)) + [NewObject(toks[j].size)]
      && st2.stack == base + [Frame(toks[j].end, |st.nodes|, ObjectType)]
    ensures toks[j].kind == JsmnArray ==>
      && st2.nodes == Put(st.nodes, base[|base| - 1].node, name, ArrayRef(|st.nodes|)) + [NewArray(toks[j].size)]
      && st2.stack == base + [Frame(toks[j].end, |st.nodes|, ArrayType)]
  {
    EntryStep(js, toks, st, base, name, j);
    OpenAttach(js, toks, st.nodes, base, name, j);
    st2 := Attach(js, toks, st.nodes, base, name, j).st;
    StepRun(js, toks, st, st2);
  }

  /** The step on a string or primitive token stores its payload and opens
      nothing. */
  lemma ScalarStep(js: string, toks: seq<Token>, st: State, base: seq<Frame>, name: Option<string>,
                   j: nat, v: Value, q: int)
    returns (st2: State)
    requires Entry(js, toks, st, base, name, j) && !v.Obj? && !v.Arr?
    requires v.Str? ==> (toks[j] == Token(JsmnString, q + 1, q + 1 + |v.s|, 0) &&
      Occurs(js, q + 1, v.s) && '\0' !in v.s)
    requires !v.Str? ==> (toks[j] == Token(JsmnPrimitive, q, q + |ValueText(v)|, 0) &&
      Occurs(js, q, ValueText(v)) && '\0' !in ValueText(v) && |ValueText(v)| <= 9 &&
      Classify(ValueText(v)) == ScalarPayload(v))
    ensures Valid(st2) && st2.i == j + 1 && Run(js, toks, st) == Run(js, toks, st2)
    ensures st2.nodes == Put(st.nodes, base[|base| - 1].node, name, ScalarPayload(v))
    ensures st2.stack == base
  {
    EntryStep(js, toks, st, base, name, j);
    if v.Str? {
      StringAttach(js, toks, st.nodes, base, name, j, v.s, q);
    } else {
      PrimitiveAttach(js, toks, st.nodes, base, name, j, ValueText(v), q);
    }
    st2 := State(Put(st.nodes, base[|base| - 1].node, name, ScalarPayload(v)), base, j + 1);
    StepRun(js, toks, st, st2);
  }

  // ---------------------------------------------------------------------
  // Values of the rebuilt nodes

  /** After one more entry, a node's value has one more member or element,
      and its earlier ones keep their values: the new nodes sit beyond
      the old arena and no node after k changed. */
  lemma AbsAfterPut(n0: seq<Node>, n1: seq<Node>, k: nat, name: Option<string>, p: Payload)
    requires Linked(n0) && Linked(n1) && HasRoom(n0, k) && |n0| <= |n1|
    requires name.Some? <==> n0[k].ObjectNode?
    requires n1[k] == Put(n0, k, name, p)[k]
    requires forall q :: k < q < |n0| ==> n1[q] == n0[q]
    ensures n0[k].ObjectNode? ==>
      AbsNode(n1, k) == Obj(AbsNode(n0, k).members + [Member(name.value, AbsPayload(n1, k, p))])
    ensures n0[k].ArrayNode? ==>
      AbsNode(n1, k) == Arr(AbsNode(n0, k).elements + [AbsPayload(n1, k, p)])
  {
    var s := n0[k].size;
    if n0[k].ObjectNode? {
      var old_ms := AbsNode(n0, k).members;
      var new_ms := AbsNode(n1, k).members;
      NodeValueSize(n0, k);
      ObjectMemberAt(n1, k, s);
      forall j | 0 <= j < s
        ensures new_ms[j] == old_ms[j]
      {
        ObjectMemberAt(n0, k, j);
        ObjectMemberAt(n1, k, j);
        assert n1[k].members[j] == n0[k].members[j];
        PayloadFrame(n0, n1, k, n0[k].members[j].value.value);
      }
      assert new_ms == old_ms + [Member(name.value, AbsPayload(n1, k, p))];
    } else {
      var old_es := AbsNode(n0, k).elements;
      var new_es := AbsNode(n1, k).elements;
      NodeValueSize(n0, k);
      ArrayElementAt(n1, k, s);
      forall j | 0 <= j < s
        ensures new_es[j] == old_es[j]
      {
        ArrayElementAt(n0, k, j);
        ArrayElementAt(n1, k, j);
        assert n1[k].elements[j] == n0[k].elements[j];
        PayloadFrame(n0, n1, k, n0[k].elements[j].value);
      }
      assert new_es == old_es + [AbsPayload(n1, k, p)];
    }
  }

  /** The value of a reference to a later node is that node's value. */
  lemma RefValue(nodes: seq<Node>, k: nat, c: nat)
    requires k < c < |nodes|
    ensures AbsPayload(nodes, k, ObjectRef(c)) == AbsNode(nodes, c)
    ensures AbsPayload(nodes, k, ArrayRef(c)) == AbsNode(nodes, c)
  {
  }

  /** A container with nothing stored yet stands for {} or []. */
  lemma EmptyValue(nodes: seq<Node>, c: nat)
    requires c < |nodes| && nodes[c].size == 0
    ensures nodes[c].ObjectNode? ==> AbsNode(nodes, c) == Obj([])
    ensures nodes[c].ArrayNode? ==> AbsNode(nodes, c) == Arr([])
  {
  }

  /** The payload of a string, number, boolean or null stands for it. */
  lemma ScalarValue(nodes: seq<Node>, k: nat, v: Value)
    requires k < |nodes| && !v.Obj? && !v.Arr?
    ensures AbsPayload(nodes, k, ScalarPayload(v)) == v
  {
    match v
    case Str(s) =>
    case Num(n) =>
    case Bool(b) =>
    case Null =>
  }

  // ---------------------------------------------------------------------
  // The loop over the tokens of one value

  /** The tokens of one value, stored in the active container k (the top of
      base) under the pending name: the loop reaches the state after them,
      k has one more entry whose value is v, no other existing node changed,
      and the frames left above base end within v's text. */
  lemma ValueUnit(js: string, toks: seq<Token>, st: State, base: seq<Frame>, name: Option<string>,
                  j: nat, v: Value, q: int)
    returns (st': State, p: Payload, junk: seq<Frame>)
    requires Entry(js, toks, st, base, name, j)
    requires Occurs(toks, j, Encode(v, q)) && Occurs(js, q, ValueText(v)) && Canonical(v)
    ensures Valid(st') && st'.i == j + |Encode(v, q)|
    ensures Run(js, toks, st) == Run(js, toks, st')
    ensures |st'.nodes| >= |st.nodes|
    ensures forall r :: 0 <= r < |st.nodes| && r != base[|base| - 1].node ==> st'.nodes[r] == st.nodes[r]
    ensures st'.nodes[base[|base| - 1].node] == Put(st.nodes, base[|base| - 1].node, name, p)[base[|base| - 1].node]
    ensures AbsPayload(st'.nodes, base[|base| - 1].node, p) == v
    ensures st'.stack == base + junk
    ensures forall n :: 0 <= n < |junk| ==> junk[n].end <= q + |ValueText(v)|
    decreases v, 3
  {
    match v
    case Obj(ms) =>
      st', p, junk := ObjectUnit(js, toks, st, base, name, j, ms, q);
    case Arr(es) =>
      st', p, junk := ArrayUnit(js, toks, st, base, name, j, es, q);
    case _ =>
      ScalarParts(js, toks, j, v, q);
      st' := ScalarStep(js, toks, st, base, name, j, v, q);
      p := ScalarPayload(v);
      ScalarValue(st'.nodes, base[|base| - 1].node, v);
      junk := [];
      assert st'.stack == base + junk;
  }

  /** A frame pushed under frames that all end by a bound: they all end
      by it. */
  lemma PushedEnds(f: Frame, rest: seq<Frame>, bound: int)
    requires f.end <= bound
    requires forall n :: 0 <= n < |rest| ==> rest[n].end <= bound
    ensures forall n :: 0 <= n < |[f] + rest| ==> ([f] + rest)[n].end <= bound
  {
    forall n | 0 <= n < |[f] + rest|
      ensures ([f] + rest)[n].end <= bound
    {
      if n > 0 {
        assert ([f] + rest)[n] == rest[n - 1];
      }
    }
  }

  /** The step on an object's token: a new empty node at the end of the
      arena, and its frame, which ends where the object's text does. */
  lemma ObjectOpen(js: string, toks: seq<Token>, st: State, base: seq<Frame>, name: Option<string>,
                  j: nat, ms: seq<Member>, q: int)
    returns (st2: State)
    requires Entry(js, toks, st, base, name, j)
    requires Occurs(toks, j, Encode(Obj(ms), q)) && Occurs(js, q, ValueText(Obj(ms)))
    ensures Valid(st2) && st2.i == j + 1 && Run(js, toks, st) == Run(js, toks, st2)
    ensures |Encode(Obj(ms), q)| == 1 + |EncodeMembers(ms, q + 2)|
    ensures |ValueText(Obj(ms))| == |MembersText(ms)| + 4
    ensures Occurs(js, q + 2, MembersText(ms) + " }") && Occurs(toks, j + 1, EncodeMembers(ms, q + 2))
    ensures |st2.nodes| == |st.nodes| + 1
    ensures forall r :: 0 <= r < |st.nodes| && r != base[|base| - 1].node ==> st2.nodes[r] == st.nodes[r]
    ensures st2.nodes[base[|base| - 1].node] ==
      Put(st.nodes, base[|base| - 1].node, name, ObjectRef(|st.nodes|))[base[|base| - 1].node]
    ensures st2.nodes[|st.nodes|].ObjectNode? && st2.nodes[|st.nodes|].size == 0
    ensures st2.nodes[|st.nodes|].Capacity() == |ms|
    ensures AbsNode(st2.nodes, |st.nodes|) == Obj([])
    ensures st2.stack == base + [Frame(q + |MembersText(ms)| + 4, |st.nodes|, ObjectType)]
  {
    ObjectParts(js, toks, j, ms, q);
    st2 := OpenStep(js, toks, st, base, name, j);
    EmptyValue(st2.nodes, |st.nodes|);
  }

  /** ValueUnit for an object: its members fill a new node. */
  lemma ObjectUnit(js: string, toks: seq<Token>, st: State, base: seq<Frame>, name: Option<string>,
                  j: nat, ms: seq<Member>, q: int)
    returns (st': State, p: Payload, junk: seq<Frame>)
    requires Entry(js, toks, st, base, name, j)
    requires Occurs(toks, j, Encode(Obj(ms), q)) && Occurs(js, q, ValueText(Obj(ms))) && CanonicalMembers(ms)
    ensures Valid(st') && st'.i == j + |Encode(Obj(ms), q)|
    ensures Run(js, toks, st) == Run(js, toks, st')
    ensures |st'.nodes| >= |st.nodes|
    ensures forall r :: 0 <= r < |st.nodes| && r != base[|base| - 1].node ==> st'.nodes[r] == st.nodes[r]
    ensures st'.nodes[base[|base| - 1].node] == Put(st.nodes, base[|base| - 1].node, name, p)[base[|base| - 1].node]
    ensures AbsPayload(st'.nodes, base[|base| - 1].node, p) == Obj(ms)
    ensures st'.stack == base + junk
    ensures forall n :: 0 <= n < |junk| ==> junk[n].end <= q + |ValueText(Obj(ms))|
    decreases ms, 2
  {
    var k := base[|base| - 1].node;
    var c := |st.nodes|;
    var st2 := ObjectOpen(js, toks, st, base, name, j, ms, q);
    var f := Frame(q + |MembersText(ms)| + 4, c, ObjectType);
    p := ObjectRef(c);
    if ms == [] {
      st', junk := st2, [f];
    } else {
      var rest;
      Regroup(base, f, []);
      EmptyPrefix(ms);
      st', rest := MembersBody(js, toks, st2, base, c, [], ms, q + 2, []);
      Regroup(base, f, rest);
      junk := [f] + rest;
      PushedEnds(f, rest, q + |MembersText(ms)| + 4);
    }
    RefValue(st'.nodes, k, c);
  }

  /** The step on an array's token: a new empty node at the end of the
      arena, and its frame, which ends where the array's text does. */
  lemma ArrayOpen(js: string, toks: seq<Token>, st: State, base: seq<Frame>, name: Option<string>,
                  j: nat, es: seq<Value>, q: int)
    returns (st2: State)
    requires Entry(js, toks, st, base, name, j)
    requires Occurs(toks, j, Encode(Arr(es), q)) && Occurs(js, q, ValueText(Arr(es)))
    ensures Valid(st2) && st2.i == j + 1 && Run(js, toks, st) == Run(js, toks, st2)
    ensures |Encode(Arr(es), q)| == 1 + |EncodeElements(es, q + 2)|
    ensures |ValueText(Arr(es))| == |ElementsText(es)| + 4
    ensures Occurs(js, q + 2, ElementsText(es) + " ]") && Occurs(toks, j + 1, EncodeElements(es, q + 2))
    ensures |st2.nodes| == |st.nodes| + 1
    ensures forall r :: 0 <= r < |st.nodes| && r != base[|base| - 1].node ==> st2.nodes[r] == st.nodes[r]
    ensures st2.nodes[base[|base| - 1].node] ==
      Put(st.nodes, base[|base| - 1].node, name, ArrayRef(|st.nodes|))[base[|base| - 1].node]
    ensures st2.nodes[|st.nodes|].ArrayNode? && st2.nodes[|st.nodes|].size == 0
    ensures st2.nodes[|st.nodes|].Capacity() == |es|
    ensures AbsNode(st2.nodes, |st.nodes|) == Arr([])
    ensures st2.stack == base + [Frame(q + |ElementsText(es)| + 4, |st.nodes|, ArrayType)]
  {
    ArrayParts(js, toks, j, es, q);
    st2 := OpenStep(js, toks, st, base, name, j);
    EmptyValue(st2.nodes, |st.nodes|);
  }

  /** ValueUnit for an array: its elements fill a new node. */
  lemma ArrayUnit(js: string, toks: seq<Token>, st: State, base: seq<Frame>, name: Option<string>,
                  j: nat, es: seq<Value>, q: int)
    returns (st': State, p: Payload, junk: seq<Frame>)
    requires Entry(js, toks, st, base, name, j)
    requires Occurs(toks, j, Encode(Arr(es), q)) && Occurs(js, q, ValueText(Arr(es))) && CanonicalElements(es)
    ensures Valid(st') && st'.i == j + |Encode(Arr(es), q)|
    ensures Run(js, toks, st) == Run(js, toks, st')
    ensures |st'.nodes| >= |st.nodes|
    ensures forall r :: 0 <= r < |st.nodes| && r != base[|base| - 1].node ==> st'.nodes[r] == st.nodes[r]
    ensures st'.nodes[base[|base| - 1].node] == Put(st.nodes, base[|base| - 1].node, name, p)[base[|base| - 1].node]
    ensures AbsPayload(st'.nodes, base[|base| - 1].node, p) == Arr(es)
    ensures st'.stack == base + junk
    ensures forall n :: 0 <= n < |junk| ==> junk[n].end <= q + |ValueText(Arr(es))|
    decreases es, 2
  {
    var k := base[|base| - 1].node;
    var c := |st.nodes|;
    var st2 := ArrayOpen(js, toks, st, base, name, j, es, q);
    var f := Frame(q + |ElementsText(es)| + 4, c, ArrayType);
    p := ArrayRef(c);
    if es == [] {
      st', junk := st2, [f];
    } else {
      var rest;
      Regroup(base, f, []);
      EmptyPrefix(es);
      st', rest := ElementsBody(js, toks, st2, base, c, [], es, q + 2, []);
      Regroup(base, f, rest);
      junk := [f] + rest;
      PushedEnds(f, rest, q + |ElementsText(es)| + 4);
    }
    RefValue(st'.nodes, k, c);
  }

  /** One member of object c: its key and its value's tokens. */
  lemma MemberUnit(js: string, toks: seq<Token>, st: State, outer: seq<Frame>, c: nat, end: int,
                   junk: seq<Frame>, m: Member, p: int)
    returns (st': State, pl: Payload, junk': seq<Frame>)
    requires Valid(st) && HasRoom(st.nodes, c) && st.nodes[c].ObjectNode?
    requires st.stack == outer + [Frame(end, c, ObjectType)] + junk
    requires forall n :: 0 <= n < |junk| ==> junk[n].end < p
    requires p + |MemberText(m)| < end
    requires '\0' !in m.name && Canonical(m.value)
    requires Occurs(js, p, MemberText(m)) && Occurs(toks, st.i, EncodeMember(m, p))
    ensures Valid(st') && st'.i == st.i + |EncodeMember(m, p)|
    ensures Run(js, toks, st) == Run(js, toks, st')
    ensures |st'.nodes| >= |st.nodes|
    ensures forall r :: 0 <= r < |st.nodes| && r != c ==> st'.nodes[r] == st.nodes[r]
    ensures st'.nodes[c] == Put(st.nodes, c, Some(m.name), pl)[c]
    ensures AbsPayload(st'.nodes, c, pl) == m.value
    ensures st'.stack == outer + [Frame(end, c, ObjectType)] + junk'
    ensures forall n :: 0 <= n < |junk'| ==> junk'[n].end <= p + |MemberText(m)|
    decreases m
  {
    var base := outer + [Frame(end, c, ObjectType)];
    MemberParts(js, toks, st.i, m, p);
    KeyStep(js, toks, st, outer, c, end, junk, m.name, p);
    st', pl, junk' := ValueUnit(js, toks, st, base, Some(m.name), st.i + 1, m.value, p + |m.name| + 4);
    assert base + junk' == outer + [Frame(end, c, ObjectType)] + junk';
  }

  /** One element of array c: its value's tokens. */
  lemma ElementUnit(js: string, toks: seq<Token>, st: State, outer: seq<Frame>, c: nat, end: int,
                    junk: seq<Frame>, e: Value, p: int)
    returns (st': State, pl: Payload, junk': seq<Frame>)
    requires Valid(st) && HasRoom(st.nodes, c) && st.nodes[c].ArrayNode?
    requires st.stack == outer + [Frame(end, c, ArrayType)] + junk
    requires forall n :: 0 <= n < |junk| ==> junk[n].end < p
    requires p + |ValueText(e)| < end
    requires Canonical(e)
    requires Occurs(js, p, ValueText(e)) && Occurs(toks, st.i, Encode(e, p))
    ensures Valid(st') && st'.i == st.i + |Encode(e, p)|
    ensures Run(js, toks, st) == Run(js, toks, st')
    ensures |st'.nodes| >= |st.nodes|
    ensures forall r :: 0 <= r < |st.nodes| && r != c ==> st'.nodes[r] == st.nodes[r]
    ensures st'.nodes[c] == Put(st.nodes, c, None, pl)[c]
    ensures AbsPayload(st'.nodes, c, pl) == e
    ensures st'.stack == outer + [Frame(end, c, ArrayType)] + junk'
    ensures forall n :: 0 <= n < |junk'| ==> junk'[n].end <= p + |ValueText(e)|
    decreases e, 4
  {
    var base := outer + [Frame(end, c, ArrayType)];
    ElementStart(js, toks, st.i, e, p);
    ElementStep(js, toks, st, outer, c, end, junk);
    st', pl, junk' := ValueUnit(js, toks, st, base, None, st.i, e, p);
    assert base + junk' == outer + [Frame(end, c, ArrayType)] + junk';
  }

  /** The first of the remaining members of object c: afterwards c's value
      has it appended, and the state is ready for the members after it. */
  lemma BuildMembersStep(js: string, toks: seq<Token>, st: State, outer: seq<Frame>, c: nat,
                    done: seq<Member>, rest: seq<Member>, p: int, junk: seq<Frame>)
    returns (st1: State, junk1: seq<Frame>)
    requires Valid(st) && c < |st.nodes| && st.nodes[c].ObjectNode?
    requires st.nodes[c].size == |done| && st.nodes[c].Capacity() == |done| + |rest|
    requires AbsNode(st.nodes, c) == Obj(done)
    requires rest != [] && CanonicalMembers(rest)
    requires Occurs(js, p, MembersText(rest) + " }") && Occurs(toks, st.i, EncodeMembers(rest, p))
    requires st.stack == outer + [Frame(p + |MembersText(rest)| + 2, c, ObjectType)] + junk
    requires forall n :: 0 <= n < |junk| ==> junk[n].end < p
    ensures Valid(st1) && st1.i == st.i + |EncodeMember(rest[0], p)|
    ensures Run(js, toks, st) == Run(js, toks, st1)
    ensures |st1.nodes| >= |st.nodes|
    ensures forall r :: 0 <= r < |st.nodes| && r != c ==> st1.nodes[r] == st.nodes[r]
    ensures st1.nodes[c].ObjectNode? && AbsNode(st1.nodes, c) == Obj(done + [rest[0]])
    ensures st1.nodes[c].size == |done| + 1 && st1.nodes[c].Capacity() == |done| + |rest|
    ensures st1.stack == outer + [Frame(p + |MembersText(rest)| + 2, c, ObjectType)] + junk1
    ensures |rest| == 1 ==> |EncodeMembers(rest, p)| == |EncodeMember(rest[0], p)|
    ensures |rest| == 1 ==> forall n :: 0 <= n < |junk1| ==> junk1[n].end <= p + |MembersText(rest)|
    ensures |rest| > 1 ==>
      var p' := p + |MemberText(rest[0])| + 2;
      && p' + |MembersText(rest[1..])| == p + |MembersText(rest)|
      && |EncodeMembers(rest, p)| == |EncodeMember(rest[0], p)| + |EncodeMembers(rest[1..], p')|
      && CanonicalMembers(rest[1..])
      && Occurs(js, p', MembersText(rest[1..]) + " }")
      && Occurs(toks, st1.i, EncodeMembers(rest[1..], p'))
      && (forall n :: 0 <= n < |junk1| ==> junk1[n].end < p')
    decreases rest, 0
  {
    var m := rest[0];
    MembersParts(toks, st.i, rest, p);
    MembersTextParts(js, rest, p);
    var pl;
    st1, pl, junk1 := MemberUnit(js, toks, st, outer, c, p + |MembersText(rest)| + 2, junk, m, p);
    WellFormedIsLinked(st.nodes);
    WellFormedIsLinked(st1.nodes);
    AbsAfterPut(st.nodes, st1.nodes, c, Some(m.name), pl);
  }

  /** The remaining members `rest` of object c, after the members `done`
      already stored: afterwards c's value is done + rest. */
  lemma MembersBody(js: string, toks: seq<Token>, st: State, outer: seq<Frame>, c: nat,
                    done: seq<Member>, rest: seq<Member>, p: int, junk: seq<Frame>)
    returns (st': State, junk': seq<Frame>)
    requires Valid(st) && c < |st.nodes| && st.nodes[c].ObjectNode?
    requires st.nodes[c].size == |done| && st.nodes[c].Capacity() == |done| + |rest|
    requires AbsNode(st.nodes, c) == Obj(done)
    requires rest != [] && CanonicalMembers(rest)
    requires Occurs(js, p, MembersText(rest) + " }") && Occurs(toks, st.i, EncodeMembers(rest, p))
    requires st.stack == outer + [Frame(p + |MembersText(rest)| + 2, c, ObjectType)] + junk
    requires forall n :: 0 <= n < |junk| ==> junk[n].end < p
    ensures Valid(st') && st'.i == st.i + |EncodeMembers(rest, p)|
    ensures Run(js, toks, st) == Run(js, toks, st')
    ensures |st'.nodes| >= |st.nodes|
    ensures forall r :: 0 <= r < |st.nodes| && r != c ==> st'.nodes[r] == st.nodes[r]
    ensures st'.nodes[c].ObjectNode? && AbsNode(st'.nodes, c) == Obj(done + rest)
    ensures st'.stack == outer + [Frame(p + |MembersText(rest)| + 2, c, ObjectType)] + junk'
    ensures forall n :: 0 <= n < |junk'| ==> junk'[n].end <= p + |MembersText(rest)|
    decreases rest, 1
  {
    Uncons(done, rest);
    var st1, junk1 := BuildMembersStep(js, toks, st, outer, c, done, rest, p, junk);
    if |rest| == 1 {
      st', junk' := st1, junk1;
    } else {
      var p' := p + |MemberText(rest[0])| + 2;
      st', junk' := MembersBody(js, toks, st1, outer, c, done + [rest[0]], rest[1..], p', junk1);
    }
  }

  /** The first of the remaining elements of array c: afterwards c's value
      has it appended, and the state is ready for the elements after it. */
  lemma BuildElementsStep(js: string, toks: seq<Token>, st: State, outer: seq<Frame>, c: nat,
                     done: seq<Value>, rest: seq<Value>, p: int, junk: seq<Frame>)
    returns (st1: State, junk1: seq<Frame>)
    requires Valid(st) && c < |st.nodes| && st.nodes[c].ArrayNode?
    requires st.nodes[c].size == |done| && st.nodes[c].Capacity() == |done| + |rest|
    requires AbsNode(st.nodes, c) == Arr(done)
    requires rest != [] && CanonicalElements(rest)
    requires Occurs(js, p, ElementsText(rest) + " ]") && Occurs(toks, st.i, EncodeElements(rest, p))
    requires st.stack == outer + [Frame(p + |ElementsText(rest)| + 2, c, ArrayType)] + junk
    requires forall n :: 0 <= n < |junk| ==> junk[n].end < p
    ensures Valid(st1) && st1.i == st.i + |Encode(rest[0], p)|
    ensures Run(js, toks, st) == Run(js, toks, st1)
    ensures |st1.nodes| >= |st.nodes|
    ensures forall r :: 0 <= r < |st.nodes| && r != c ==> st1.nodes[r] == st.nodes[r]
    ensures st1.nodes[c].ArrayNode? && AbsNode(st1.nodes, c) == Arr(done + [rest[0]])
    ensures st1.nodes[c].size == |done| + 1 && st1.nodes[c].Capacity() == |done| + |rest|
    ensures st1.stack == outer + [Frame(p + |ElementsText(rest)| + 2, c, ArrayType)] + junk1
    ensures |rest| == 1 ==> |EncodeElements(rest, p)| == |Encode(rest[0], p)|
    ensures |rest| == 1 ==> forall n :: 0 <= n < |junk1| ==> junk1[n].end <= p + |ElementsText(rest)|
    ensures |rest| > 1 ==>
      var p' := p + |ValueText(rest[0])| + 2;
      && p' + |ElementsText(rest[1..])| == p + |ElementsText(rest)|
      && |EncodeElements(rest, p)| == |Encode(rest[0], p)| + |EncodeElements(rest[1..], p')|
      && CanonicalElements(rest[1..])
      && Occurs(js, p', ElementsText(rest[1..]) + " ]")
      && Occurs(toks, st1.i, EncodeElements(rest[1..], p'))
      && (forall n :: 0 <= n < |junk1| ==> junk1[n].end < p')
    decreases rest, 0
  {
    var e := rest[0];
    ElementsParts(toks, st.i, rest, p);
    ElementsTextParts(js, rest, p);
    var pl;
    st1, pl, junk1 := ElementUnit(js, toks, st, outer, c, p + |ElementsText(rest)| + 2, junk, e, p);
    WellFormedIsLinked(st.nodes);
    WellFormedIsLinked(st1.nodes);
    AbsAfterPut(st.nodes, st1.nodes, c, None, pl);
  }

  /** The remaining elements `rest` of array c, after the elements `done`
      already stored: afterwards c's value is done + rest. */
  lemma ElementsBody(js: string, toks: seq<Token>, st: State, outer: seq<Frame>, c: nat,
                     done: seq<Value>, rest: seq<Value>, p: int, junk: seq<Frame>)
    returns (st': State, junk': seq<Frame>)
    requires Valid(st) && c < |st.nodes| && st.nodes[c].ArrayNode?
    requires st.nodes[c].size == |done| && st.nodes[c].Capacity() == |done| + |rest|
    requires AbsNode(st.nodes, c) == Arr(done)
    requires rest != [] && CanonicalElements(rest)
    requires Occurs(js, p, ElementsText(rest) + " ]") && Occurs(toks, st.i, EncodeElements(rest, p))
    requires st.stack == outer + [Frame(p + |ElementsText(rest)| + 2, c, ArrayType)] + junk
    requires forall n :: 0 <= n < |junk| ==> junk[n].end < p
    ensures Valid(st') && st'.i == st.i + |EncodeElements(rest, p)|
    ensures Run(js, toks, st) == Run(js, toks, st')
    ensures |st'.nodes| >= |st.nodes|
    ensures forall r :: 0 <= r < |st.nodes| && r != c ==> st'.nodes[r] == st.nodes[r]
    ensures st'.nodes[c].ArrayNode? && AbsNode(st'.nodes, c) == Arr(done + rest)
    ensures st'.stack == outer + [Frame(p + |ElementsText(rest)| + 2, c, ArrayType)] + junk'
    ensures forall n :: 0 <= n < |junk'| ==> junk'[n].end <= p + |ElementsText(rest)|
    decreases rest, 1
  {
    Uncons(done, rest);
    var st1, junk1 := BuildElementsStep(js, toks, st, outer, c, done, rest, p, junk);
    if |rest| == 1 {
      st', junk' := st1, junk1;
    } else {
      var p' := p + |ValueText(rest[0])| + 2;
      st', junk' := ElementsBody(js, toks, st1, outer, c, done + [rest[0]], rest[1..], p', junk1);
    }
  }

  /** A value's first token starts at or just after the start of its text,
      inside it. */
  lemma ElementStart(js: string, toks: seq<Token>, i: nat, v: Value, q: int)
    requires Occurs(toks, i, Encode(v, q))
    ensures i < |toks| && toks[i].kind != JsmnUndefined
    ensures q <= toks[i].start <= q + 1
  {
    Head(toks, i, Encode(v, q));
  }

  /** The text fprint_tree writes for a root object, and the tokens of
      its layout followed by pad: the root token, then the members'. */
  lemma RootLayout(ms: seq<Member>, pad: seq<Token>)
    ensures var js := TreeText(Some(ms)); var toks := Encode(Obj(ms), 0) + pad;
      && |toks| == 1 + |EncodeMembers(ms, 2)| + |pad|
      && toks[0] == Token(JsmnObject, 0, |MembersText(ms)| + 4, |ms|)
      && Occurs(js, 2, MembersText(ms) + " }") && Occurs(toks, 1, EncodeMembers(ms, 2))
      && (|pad| > 0 ==> toks[1 + |EncodeMembers(ms, 2)|] == pad[0])
  {
    var js := TreeText(Some(ms));
    var enc := Encode(Obj(ms), 0);
    var toks := enc + pad;
    Split(js, 0, ObjectText(ms), "\n");
    Split(toks, 0, enc, pad);
    ObjectParts(js, toks, 0, ms, 0);
  }

  /** Tokens laid out as a root object with members ms, over a text that
      holds those members: the loop from the initial state ends with a
      tree whose value is that object. */
  lemma BuildRoot(js: string, toks: seq<Token>, ms: seq<Member>)
    requires CanonicalMembers(ms)
    requires |toks| > 0 && toks[0] == Token(JsmnObject, 0, |MembersText(ms)| + 4, |ms|)
    requires Occurs(js, 2, MembersText(ms) + " }") && Occurs(toks, 1, EncodeMembers(ms, 2))
    requires 1 + |EncodeMembers(ms, 2)| == |toks| || toks[1 + |EncodeMembers(ms, 2)|].kind == JsmnUndefined
    ensures var r := Run(js, toks, Init(toks[0])); r.Next? && AbsNode(r.st.nodes, 0) == Obj(ms)
  {
    if ms == [] {
      BuildEmptyRoot(js, toks);
    } else {
      BuildFullRoot(js, toks, ms);
    }
  }

  /** BuildRoot for the empty object: the loop stops at once. */
  lemma BuildEmptyRoot(js: string, toks: seq<Token>)
    requires |toks| > 0 && toks[0] == Token(JsmnObject, 0, 4, 0)
    requires 1 == |toks| || toks[1].kind == JsmnUndefined
    ensures var r := Run(js, toks, Init(toks[0])); r.Next? && AbsNode(r.st.nodes, 0) == Obj([])
  {
    var st0 := Init(toks[0]);
    EmptyValue(st0.nodes, 0);
    RunAtEnd(js, toks, st0);
  }

  /** BuildRoot for an object with members: they fill the root. */
  lemma BuildFullRoot(js: string, toks: seq<Token>, ms: seq<Member>)
    requires ms != [] && CanonicalMembers(ms)
    requires |toks| > 0 && toks[0] == Token(JsmnObject, 0, |MembersText(ms)| + 4, |ms|)
    requires Occurs(js, 2, MembersText(ms) + " }") && Occurs(toks, 1, EncodeMembers(ms, 2))
    requires 1 + |EncodeMembers(ms, 2)| == |toks| || toks[1 + |EncodeMembers(ms, 2)|].kind == JsmnUndefined
    ensures var r := Run(js, toks, Init(toks[0])); r.Next? && AbsNode(r.st.nodes, 0) == Obj(ms)
  {
    var st0 := Init(toks[0]);
    var f := st0.stack[0];
    EmptyValue(st0.nodes, f.node);
    Regroup([], f, []);
    EmptyPrefix([f]);
    EmptyPrefix(ms);
    var fin, junk := MembersBody(js, toks, st0, [], f.node, [], ms, 2, []);
    RunAtEnd(js, toks, fin);
  }

  /** Build is the loop from the initial state. */
  lemma BuildByRun(js: string, toks: seq<Token>)
    requires |toks| > 0 && toks[0].kind != JsmnUndefined
    ensures var r := Run(js, toks, Init(toks[0]));
      r.Next? ==> Build(js, toks) == Built(r.st.nodes)
  {
    RunIsExec(js, toks, Init(toks[0]));
  }

  /** Build inverts the printer: the text fprint_tree writes for a
      canonical root object, with the tokens of its layout (and nothing, or
      an undefined token, after them), builds a tree whose value is that
      object, and printing that tree writes the same text again. */
  lemma PrintThenBuild(ms: seq<Member>, pad: seq<Token>)
    requires CanonicalMembers(ms)
    requires pad == [] || pad[0].kind == JsmnUndefined
    ensures |Encode(Obj(ms), 0) + pad| > 0
    ensures var js := TreeText(Some(ms));
      var r := Build(js, Encode(Obj(ms), 0) + pad);
      && r.Built? && AbsNode(r.nodes, 0) == Obj(ms)
      && TreeText(Some(AbsNode(r.nodes, 0).members)) == js
  {
    var js := TreeText(Some(ms));
    var toks := Encode(Obj(ms), 0) + pad;
    RootLayout(ms, pad);
    BuildRoot(js, toks, ms);
    BuildByRun(js, toks);
  }
}
