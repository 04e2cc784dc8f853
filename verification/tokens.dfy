/** The builder's input: the tokens of the external jsmn tokenizer
    (jsmntok_t). Each records its kind, the [start, end) span of its text in
    the source buffer and, for a container, its number of direct children. */
module Tokens {
  import opened JsmnTreeTypes

  /** jsmntype_t as the tree code compares it. */
  datatype TokenKind = JsmnUndefined | JsmnObject | JsmnArray | JsmnString | JsmnPrimitive

  function KindCode(k: TokenKind): (c: int)
    ensures 0 <= c <= 4
  {
    match k
    case JsmnUndefined => 0
    case JsmnObject => 1
    case JsmnArray => 2
    case JsmnString => 3
    case JsmnPrimitive => 4
  }

  datatype Token = Token(kind: TokenKind, start: int, end: int, size: nat)

  /** The tree's tags for undefined, object, array and string share the
      tokenizer's codes (so the builder's loop may test a token against
      JSMNTREE_UNDEFINED), and no tree tag takes the primitive's code. */
  lemma TagsAgreeWithTokenKinds(t: JsonType)
    ensures Code(UndefinedType) == KindCode(JsmnUndefined)
    ensures Code(ObjectType) == KindCode(JsmnObject)
    ensures Code(ArrayType) == KindCode(JsmnArray)
    ensures Code(StringType) == KindCode(JsmnString)
    ensures Code(t) != KindCode(JsmnPrimitive)
  {
  }

  /** The token's span lies inside the source text. */
  predicate InText(js: string, t: Token) {
    0 <= t.start <= t.end <= |js|
  }
}
