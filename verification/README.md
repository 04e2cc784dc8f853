# jsmntree in Dafny

jsmntree turns the flat token array of the jsmn JSON tokenizer into a tree of
C structs: `jsmntree_make_tree` makes one forward pass over the tokens. It
keeps a stack of open containers, closes a container as soon as a token starts
past the end of its text, and writes every value at index `size` of the active
object or array. `jsmntree_fprint_tree` prints a tree back as text, and
`jsmntree_free_tree` releases it by a reverse walk.

The model is split into these modules:

- `JsmnTreeTypes` (types.dfy) holds the data model of the header.
  - It covers the type tags and their codes.
  - Members, elements, objects and arrays sit in an arena: a sequence of
    nodes addressed by index.
  - A `Payload` stands for a `(value_type, void *value)` pair.
  - `WellFormed`, `Linked`, `Owned` and `Connected` state what makes the arena
    a tree.
- `Tokens` (tokens.dfy) describes the tokens the builder reads.
- `CText` (ctext.dfy) models the C library behaviour the code relies on:
  - a `strncpy` copy read as a C string;
  - `atoi`;
  - `"%d"`.
- `Abstraction` (abstraction.dfy) gives the JSON `Value` an arena node stands
  for.
- `Builder` (builder.dfy) covers `jsmntree_make_tree`.
  - `Step`, `Exec` and `Build` state what one iteration, the loop and the
    whole function compute.
  - `PopWhileClosed`, `StoreValue`, `Iterate` and `MakeTree` are the C
    loops and writes. Each is proved to compute its function.
  - The invariant `Valid` is kept by every step, as the contracts of
    `Step`/`Attach` state.
  - The stack is a chain of open containers from the root, each stored in a
    counted slot of the one below (`Chain`, kept by every step). Under
    well-nested tokens the frames are also nested by end offset.
  - Undefined behaviour in C becomes a `Stuck` result that names the fault.
- `Printer` (printer.dfy) covers the three print functions.
  - `ValueText` and its companions give the exact text.
  - `FprintTree`, `FprintObject`, `FprintArray` and `FprintPayload` are the C
    loops over the arena. The stream is the string written so far.
- `Destructor` (destructor.dfy) covers the free walk.
  - Each container is emptied from its last slot to its first, and nested
    containers are freed first.
  - It is proved that every size in the freed subtree ends at 0, every other
    node is untouched, and the member names are released in a stated order.
  - That order releases every name exactly once.
- `RoundTrip` (roundtrip.dfy) proves that building undoes printing.
  - The builder is given the printer's text for a canonical object and the
    tokens of that text's layout.
  - It rebuilds a tree with the same value. Since the printed text depends
    only on the value, that tree prints the same text.

## Model

| member | source | states |
|---|---|---|
| JsmnTreeTypes.Code | lib/jsmntree.h:22-37 | every tag's code lies in 0..11 and is never 4, the code kept free for the tokenizer's primitive kind |
| JsmnTreeTypes.TypeOfCode | lib/jsmntree.h:22-37 | decoding a code gives a tag with that code; no tag exactly for the negative codes, 4 and codes above 11 |
| JsmnTreeTypes.CodesDistinct | lib/jsmntree.h:22-37 | two tags with the same code are the same tag; decoding a tag's code gives the tag back |
| JsmnTreeTypes.NewObject | lib/jsmntree.c:125-129 | a fresh object with its zeroed members buffer of tokens[i].size slots has size 0, that many slots, and every slot NULL |
| JsmnTreeTypes.NewArray | lib/jsmntree.c:233-238 | a fresh array with its zeroed elements buffer of tokens[i].size slots has size 0, that many slots, and every slot NULL |
| JsmnTreeTypes.WellFormedIsLinked | lib/jsmntree.h:72-98 | in an arena as the builder keeps it, every node's size is within the number of slots of its buffer, and the slots below size hold set values |
| JsmnTreeTypes.ChildForward | lib/jsmntree.h:45-70 | a nested object or array sits later in the arena, in a filled slot, with the kind its value_type names |
| Tokens.TagsAgreeWithTokenKinds | lib/jsmntree.h:22-31 | the tree tags for undefined, object, array and string equal the tokenizer's kinds, which the loop test at line 138 relies on, and no tree tag equals the primitive kind |
| CText.CStr | lib/jsmntree.c:163-165 | the C string in a zeroed buffer is the longest NUL-free prefix of the copied bytes, and it ends at a NUL or at the buffer's end |
| CText.CStrNoNul | lib/jsmntree.c:163-165 | text without a NUL is copied unchanged |
| CText.SkipSpace | lib/jsmntree.c:355 | atoi drops a prefix made only of white space and stops at the end or at a non-space character |
| CText.LeadingDigits | lib/jsmntree.c:355 | atoi reads the longest all-digit prefix, which is followed by a non-digit or the end |
| CText.Digits | lib/jsmntree.c:524 | "%d" of a natural number is a non-empty run of digits |
| CText.Decimal | lib/jsmntree.c:524 | "%d" is non-empty and starts with a minus sign or a digit |
| CText.DigitsRoundTrip | lib/jsmntree.c:524 | the digits "%d" writes have the printed number as their value |
| CText.AtoiDecimal | lib/jsmntree.c:355 | atoi of the text "%d" writes for n is n, for every integer n |
| CText.AtoiBound | lib/jsmntree.c:321-332 | atoi of at most 9 characters, all the 10-byte buffer holds, lies in ±999999999, so within a 32-bit int |
| CText.DigitsValueBound | lib/jsmntree.c:355 | k digits have a value below 10^k |
| CText.DecimalHasNoNul | lib/jsmntree.c:334-356 | "%d" never writes a NUL and never writes "null", "true" or "false", so its text is read back as a number |
| Abstraction.PayloadTypeAgrees | lib/jsmntree.h:45-70 | in a linked arena a member's or element's value_type is the tag of the value it stands for |
| Abstraction.AbsNodeFrame | lib/jsmntree.c:183-188 | appending nodes and leaving nodes k.. unchanged does not change node k's value |
| Abstraction.PayloadFrame | lib/jsmntree.c:183-188 | the payload form of AbsNodeFrame |
| Abstraction.ObjectMemberAt | lib/jsmntree.h:72-84 | an object's value has size members, and member j is the name and value in slot j |
| Abstraction.ArrayElementAt | lib/jsmntree.h:86-98 | an array's value has size elements, in slot order, element j being the value in slot j |
| Abstraction.NodeValueSize | lib/jsmntree.h:72-98 | an object node stands for an object and an array node for an array, each with exactly size entries |
| Builder.PopClosed | lib/jsmntree.c:140-142 | the pop loop leaves a prefix of the stack; every dropped frame ended before the token's start, and the new top, if any, does not |
| Builder.PopWhileClosed | lib/jsmntree.c:140-142 | the while loop computes PopClosed |
| Builder.Classify | lib/jsmntree.c:331-356 | "null" gives null, "true" boolean 1, "false" boolean 0, anything else the number atoi reads (each case if and only if) |
| Builder.Put | lib/jsmntree.c:280-292 | a value is written at index size of node k, as a member with the pending name in an object and as an element in an array; the buffer is the old one with only that slot replaced; size grows by 1; every other node is unchanged |
| Builder.Dangle | lib/jsmntree.c:154-167 | a key followed by an undefined token leaves a member with that name and no value at index size without incrementing size; the buffer is the old one with only that slot replaced; other nodes are unchanged |
| Builder.PutKeepsWellFormed | lib/jsmntree.c:298-312 | writing a set value into a container with room keeps the arena well formed |
| Builder.DangleKeepsWellFormed | lib/jsmntree.c:154-167 | the dangling member keeps the arena well formed |
| Builder.AppendKeepsWellFormed | lib/jsmntree.c:186-188 | appending a fresh empty container keeps the arena well formed |
| Builder.PutAndAppendKeepWellFormed | lib/jsmntree.c:178-190 | writing a reference to a container appended right after keeps the arena well formed |
| Builder.OpenKeepsConnected | lib/jsmntree.c:178-193 | after an object or array token, every node but the root, the new one included, hangs from a filled slot |
| Builder.OpenKeepsOwned | lib/jsmntree.c:199-216 | after an object or array token, no node hangs from two slots |
| Builder.ScalarValid | lib/jsmntree.c:274-403 | storing a string, number, boolean or null keeps the builder's invariant |
| Builder.OpenValid | lib/jsmntree.c:172-272 | opening a container and pushing its frame keeps the builder's invariant |
| Builder.DangleValid | lib/jsmntree.c:146-168 | the dangling member keeps the builder's invariant |
| Builder.Attach | lib/jsmntree.c:170-411 | storing the value token keeps the invariant and node kinds and capacities; it fails exactly for a span outside the text or a primitive over 9 characters; it adds exactly one entry at the old size; an undefined token adds none, and writes only the dangling member when it follows a key |
| Builder.AttachOpen | lib/jsmntree.c:172-272 | an object or array token adds one entry referencing a new container of size 0 and the token's capacity, and pushes a frame with the token's end |
| Builder.AttachScalar | lib/jsmntree.c:274-403 | a string stores its copied text, a primitive its classified text, as one new entry; the stack is unchanged |
| Builder.Step | lib/jsmntree.c:138-412 | one iteration keeps the invariant, consumes at least one token and keeps every node's kind and capacity |
| Builder.Exec | lib/jsmntree.c:137-412 | the loop ends after the last token or at an undefined token met where a key or an array element is read (an undefined token after a key is consumed with the key), keeping the invariant |
| Builder.Init | lib/jsmntree.c:125-137 | the state before the loop is valid and starts at token 1 |
| Builder.Build | lib/jsmntree.c:110-417 | no tree exactly when the first token is undefined; a built tree is a well-formed, owned, connected arena whose root is an object of capacity tokens[0].size |
| Builder.StoredMaxSizeExceeded | lib/jsmntree.c:72 | as written, the max_size field holds 1, so an object holding two members has size above it |
| Builder.BuiltWithinCapacity | lib/jsmntree.c:128-129 | in every built tree, each node's size is within the slots of its buffer, and the slots below size are filled |
| Builder.ChainKept | lib/jsmntree.c:133-134 | a chain stays a chain when every counted slot keeps its child |
| Builder.ChainPrefix | lib/jsmntree.c:140-142 | what the pop loop leaves of a chain is a chain |
| Builder.NestedPrefix | lib/jsmntree.c:140-142 | what the pop loop leaves of frames nested by end offset is nested |
| Builder.EntryAddedKeepsSlots | lib/jsmntree.c:170-411 | storing one entry keeps every counted slot and its child |
| Builder.DangleKeepsSlots | lib/jsmntree.c:154-167 | the dangling member keeps every counted slot and its child |
| Builder.ChainPush | lib/jsmntree.c:192-193 | pushing a container stored in a counted slot of the top one extends the chain |
| Builder.AttachKeepsChain | lib/jsmntree.c:170-411 | storing the value token keeps the stack a chain of containers from the root |
| Builder.StepGoesOn | lib/jsmntree.c:138-168 | an iteration that goes on found an open container with room and, in an object, a key in the text with a token after it |
| Builder.KeyIsAttach | lib/jsmntree.c:146-170 | in an object the iteration stores the next token under the key's copied text |
| Builder.ElementIsAttach | lib/jsmntree.c:140-170 | in an array the iteration stores the current token |
| Builder.KeyKeepsChain | lib/jsmntree.c:146-411 | a key and its value keep the chain |
| Builder.ElementKeepsChain | lib/jsmntree.c:140-411 | an array element keeps the chain |
| Builder.StepKeepsChain | lib/jsmntree.c:138-412 | one iteration keeps the stack a chain: the bottom frame is the root, every other frame's container hangs from a counted slot of the frame below |
| Builder.ExecKeepsChain | lib/jsmntree.c:137-412 | the whole loop keeps the chain |
| Builder.InitChain | lib/jsmntree.c:131-135 | before the loop the stack is the root's frame alone, which is a chain |
| Builder.NestedPush | lib/jsmntree.c:215-216 | pushing a frame that ends inside the top one keeps the frames nested |
| Builder.AttachKeepsNesting | lib/jsmntree.c:170-411 | a value that ends inside the top container keeps the frames nested by end offset |
| Builder.KeyKeepsNesting | lib/jsmntree.c:146-411 | under well-nested tokens a key and its value keep the frames nested |
| Builder.ElementKeepsNesting | lib/jsmntree.c:140-411 | under well-nested tokens an array element keeps the frames nested |
| Builder.StepKeepsNesting | lib/jsmntree.c:138-412 | when the value tokens end inside the innermost open container, one iteration keeps every frame's end at or before the end of the frame below |
| Builder.StoreValue | lib/jsmntree.c:170-411 | the C switch computes Attach |
| Builder.Iterate | lib/jsmntree.c:139-411 | the loop body, key handling included, computes Step |
| Builder.MakeTree | lib/jsmntree.c:110-417 | the C function computes Build |
| Printer.MembersTextSnoc | lib/jsmntree.c:505-538 | one more member extends the printed members by ", " (unless none came before) and its text |
| Printer.ElementsTextSnoc | lib/jsmntree.c:552-583 | one more element extends the printed elements by ", " (unless none came before) and its text |
| Printer.ObjectTextShape | lib/jsmntree.c:501-539 | an object's text opens with "{ " and closes with " }"; the empty object prints "{  }" |
| Printer.MembersStep | lib/jsmntree.c:505-538 | separator and member i extend the text of members 0..i-1 to that of members 0..i |
| Printer.MembersLoopStep | lib/jsmntree.c:505-538 | the same step stated on the output written so far |
| Printer.ElementsStep | lib/jsmntree.c:552-583 | separator and element i extend the text of elements 0..i-1 to that of elements 0..i |
| Printer.ElementsLoopStep | lib/jsmntree.c:552-583 | the same step stated on the output written so far |
| Printer.FprintPayload | lib/jsmntree.c:509-534 | the switch writes exactly the text of the payload's value |
| Printer.FprintMember | lib/jsmntree.c:507-534 | a member is written as its quoted name, ": ", then its value's text |
| Printer.FprintObject | lib/jsmntree.c:495-540 | the object loop writes exactly the text of the node's value |
| Printer.FprintArray | lib/jsmntree.c:542-585 | the array loop writes exactly the text of the node's value |
| Printer.FprintTree | lib/jsmntree.c:488-493 | the root object's text then "\n"; a NULL tree writes only "\n" |
| Destructor.DescBounds | lib/jsmntree.c:429-483 | a subtree lies at or after its root in the arena |
| Destructor.SlotsDescWitness | lib/jsmntree.c:435-453 | a node below slots j.. lies in the subtree of one of those slots |
| Destructor.SlotsDescHas | lib/jsmntree.c:435-453 | the subtree below slot t is part of what lies below slots j.. for j <= t |
| Destructor.ParentIn | lib/jsmntree.c:429-483 | every node of a subtree but its root has its parent slot inside the subtree |
| Destructor.Nested | lib/jsmntree.c:429-483 | in an owned arena two subtrees that share a node are nested |
| Destructor.SiblingsDisjoint | lib/jsmntree.c:435-453 | subtrees below two different slots of a node are disjoint, so freeing one leaves the other intact |
| Destructor.SlotsDisjoint | lib/jsmntree.c:435-453 | the subtree below slot s is disjoint from those below the later slots |
| Destructor.SlotPayloadInside | lib/jsmntree.c:437-450 | a slot below size is filled with a set value, and what hangs below it is inside the node's subtree |
| Destructor.DescFrame | lib/jsmntree.c:429-483 | a subtree and its value depend only on the nodes of that subtree |
| Destructor.PayloadDescFrame | lib/jsmntree.c:437-450 | a payload keeps its value while its subtree is unchanged |
| Destructor.WithSize | lib/jsmntree.c:452 | setting size keeps the node's kind and capacity |
| Destructor.ShrunkKeepsTree | lib/jsmntree.c:435-453 | lowering sizes part way through the walk keeps the arena linked and owned |
| Destructor.MemberNamesSnoc | lib/jsmntree.h:72-84 | adding a member adds its name and the names inside its value |
| Destructor.ElementNamesSnoc | lib/jsmntree.h:86-98 | adding an element adds the names inside it |
| Destructor.FreeReleasesEveryName | lib/jsmntree.c:429-483 | the walk releases every member name of the tree exactly once |
| Destructor.MembersReleased | lib/jsmntree.c:435-453 | the object loop releases each member's name and the names inside its value, once each |
| Destructor.ElementsReleased | lib/jsmntree.c:464-480 | the array loop releases the names inside each element, once each |
| Destructor.FreeMembersCons | lib/jsmntree.c:435-453 | the last member is released first: the later members' names, then this name, then the names inside its value |
| Destructor.FreeElementsCons | lib/jsmntree.c:464-480 | the last element is released first |
| Destructor.FreeValue | lib/jsmntree.c:437-447 | a nested object or array is emptied entirely and logs its names; any other value changes nothing |
| Destructor.WalkReady | lib/jsmntree.c:435-442 | before freeing below slot size-1, that subtree and its value are untouched and do not contain the node itself |
| Destructor.WalkStep | lib/jsmntree.c:442-452 | after freeing below slot size-1 and decrementing size, the walk's invariant holds for the smaller size |
| Destructor.FreeObject | lib/jsmntree.c:429-456 | every node of the object's subtree ends with size 0, every other node is unchanged, and the names are logged in FreeOrder |
| Destructor.FreeArray | lib/jsmntree.c:458-483 | every node of the array's subtree ends with size 0, every other node is unchanged, and the names are logged in FreeOrder |
| Destructor.DescTrans | lib/jsmntree.c:429-483 | a subtree of a subtree is part of it |
| Destructor.EveryNodeReached | lib/jsmntree.c:422-427 | in a connected arena every node is below the root |
| Destructor.FreeTree | lib/jsmntree.c:422-427 | NULL frees nothing; otherwise the root's subtree is emptied, and on a connected tree (every tree Build returns) every size ends at 0 |
| RoundTrip.Encode | lib/jsmntree.c:138 | the layout tokens of a value are non-empty and start with a defined token |
| RoundTrip.PopJunk | lib/jsmntree.c:140-142 | the pop loop drops exactly the frames of finished children that end before the next token |
| RoundTrip.RunIsExec | lib/jsmntree.c:138-412 | the step-by-step mirror of the loop computes the same result as Exec |
| RoundTrip.KeyStep | lib/jsmntree.c:146-167 | in an object the key token's copied text becomes the pending name and the next token is the value |
| RoundTrip.ElementStep | lib/jsmntree.c:140-144 | in an array the current token is the value |
| RoundTrip.OpenAttach | lib/jsmntree.c:172-272 | an object or array token at the right place opens its container and pushes its frame |
| RoundTrip.StringAttach | lib/jsmntree.c:274-316 | a string token stores exactly the printed string |
| RoundTrip.PrimitiveAttach | lib/jsmntree.c:319-403 | a primitive token stores exactly the printed number, boolean or null |
| RoundTrip.ValueUnit | lib/jsmntree.c:138-412 | the tokens of one canonical value store that value as one new entry of the active container |
| RoundTrip.ObjectUnit | lib/jsmntree.c:172-272 | the tokens of a canonical object build a container whose value is that object |
| RoundTrip.ArrayUnit | lib/jsmntree.c:223-272 | the tokens of a canonical array build a container whose value is that array |
| RoundTrip.MemberUnit | lib/jsmntree.c:146-411 | the tokens of a member store that member, name and value |
| RoundTrip.BuildRoot | lib/jsmntree.c:114-417 | the layout tokens of the printed root object build, through the loop, an arena whose root stands for that object |
| RoundTrip.PrintThenBuild | lib/jsmntree.c:110-585 | building from the printed text of a canonical object and its layout tokens gives a tree with that value (and so with that text) |

## Left out

- The source is modelled as values, not classes. Objects and arrays live in an arena (`seq<Node>`), and pointers are indices into it. The builder and the free walk return new arenas instead of updating structs in place. So aliasing of C pointers is not modelled, beyond the `Owned` invariant that no node hangs from two slots.
- I/O: a `FILE *` stream is the string written so far. `fprintf` cannot fail in the model.
- The jsmn tokenizer is not part of this model. The builder takes any token array, and the round trip uses the layout tokens of `RoundTrip.Encode`, which are the tokens jsmn reports for the printer's text of a canonical value, whose strings and names hold no quote, backslash or NUL (`RoundTrip.Plain`).
- `adt_stack` is not part of this model. It is a sequence of frames.
- `jsmntree_alloc`, `jsmntree_init` and `jsmntree_dealloc` (lib/jsmntree.c:9-108) are malloc, memset and free. A fresh container is `NewObject`/`NewArray`, and releasing memory has no meaning here. The free walk records sizes and the order in which names are released instead.
- The `len` parameter of `jsmntree_make_tree` is not modelled, because the C code never reads it.
- The error enumeration `JSMNTREE_ERROR_INVTOK` is not modelled, because the code never returns it.
- Integers are unbounded. `atoi` overflow is not modelled: `CText.AtoiBound` shows that a primitive that fits the 10-byte buffer cannot overflow.
- `size_t` capacities and sizes are naturals.
- Undefined behaviour is a `Stuck` or `Failed` result naming the fault, not a crash:
  - the top of an empty stack;
  - a write past a buffer's capacity;
  - a read of the token after a key that is the last token;
  - a copy from outside the text;
  - a primitive too long for `temp_string[10]`.
- The printer's `"%s"` stops at the first NUL. The model prints the stored string as it is, and every string the builder stores is already cut at its first NUL (`CText.CStr`).
- A member named by a key that is followed by an undefined token stays allocated at index `size` but is not counted. The free walk never releases it (a leak in the C code). The model keeps that member and does not list it among released names.
- Destructor.FreeTree: requires an owned, linked arena, which every tree `Build` returns. On a shared node the C code would free twice, and the model does not describe that.
- Builder.StepKeepsNesting: the nesting of frames by end offset is proved for one iteration whose value tokens end inside the innermost open container (`EndsInside`). The C code does not check this, and the model does not derive it for every iteration from a nesting property of the whole token array.
- Builder.ExecKeepsChain: the chain is stated for the loop's states. The builder's result keeps only the nodes, so `Build` does not restate it.
- RoundTrip.PrintThenBuild: the other direction, building then printing, is not stated. A built tree need not be canonical, because a copied string may hold a quote or a backslash.
- RoundTrip.Run: a proof device that mirrors `Builder.Exec` one step at a time. `RoundTrip.RunIsExec` proves the two equal.

## Findings

| source | as written | input that shows it | evidently intended | confidence | as-written member | corrected member |
|---|---|---|---|---|---|---|
| lib/jsmntree.c:126 | every object and array struct is initialised with `jsmntree_init(..., 1)`, so `max_size` is 1, while the header documents it as the size bound of the members or elements buffer | `{"a": null, "b": null}`: the root gets a buffer of 2 slots and size 2, with `max_size` 1 | `max_size` equal to the buffer's slot count, `tokens[i].size` | not executed | Builder.StoredMaxSizeExceeded | Builder.BuiltWithinCapacity |
