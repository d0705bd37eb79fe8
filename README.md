# XML-RPC codec of the proxy, in Dafny

This project models `XmlRpcConverter`, the XML-RPC codec at the core of a proxy that
forwards calls to an upstream XML-RPC server. The codec has three public operations:

- `createXmlRpcRequest` builds a `methodCall` document. It has a `methodName` element and
  a `params` element. Every entry of the parameter map is written as a one-member struct:
  `param/value/struct/member` holding `name` and `value/string`.
- `parseXmlRpcResponse` finds the first `value` element whose parent is a `param` and
  decodes it through `parseValue`. A struct is decoded through `parseStruct`. Any other
  typed child becomes `{"result": text}`. A value with no element child, or a document
  with no such value, gives the empty map.
- `parseRawXmlRpcRequest` reads the first `methodName` element. Then it puts
  `name -> extractValueContent(value)` for every `member` element anywhere in the
  document, in document order.

The model works on the parsed document, an abstract W3C DOM tree (module `Dom`). That
module models the queries the Java code uses:

- `getElementsByTagName`: pre-order; the `Document` form includes the root element, the
  `Element` form does not include the element itself.
- `getChildNodes`, `getTextContent` and `setTextContent`.
- `getParentNode().getNodeName()`, with `#document` as the name of the root element's
  parent.
- `String.trim`, which drops every character up to U+0020 from both ends.

Module `XmlRpcSpec` describes each operation as a function over trees. Where Java
throws, the function returns an `Err`:

- `NoMethodName`: the request has no `methodName` element.
- `MemberWithoutName`: a member has no `name` descendant, so Java dereferences null.
- `MemberWithoutValue`: in `parseStruct`, a member has no `value` descendant, so Java
  dereferences null.

Both decoders fill a `HashMap` with `put` in a loop over member elements. `Outcomes`
lists what each member contributes: an entry to put, nothing, or an error. A `Reader`
value says which decoder's per-member step is used. `Fold` then models the loop itself.

Module `XmlRpcConverter` holds the Java methods as imperative Dafny methods: loops over
node lists and child lists, with `return` where the Java has it. Each is proved to
compute its specification function. The inner loop of `parseStruct` (put, then `break`
at the first element child) is the separate method `FirstElementText`, whose result
`ParseStruct` then puts.

- The encoder iterates over the map in an unspecified order: the order of the given
  `Map`'s `entrySet()` is not specified. It is proved to build
  `RequestTree(methodName, es)` for some enumeration `es` that lists each entry of the map exactly once.
- `XmlRpcProperties` proves facts about the fold and the encoded tree, and the round
  trip: the raw decoder reads back, from the tree the encoder builds, the method name
  and exactly the given map.
- `XmlRpcDecoding` characterises both decoders on arbitrary documents: when they fail
  and with which error, which keys they produce, and that the last duplicate key wins.
  It also decodes documents in the wire format.

The model follows the Java code in two places where one might expect otherwise:

- `parseValue` returns the empty map for a value without an element child, even when the
  value holds text. It does not return `{"result": text}` (`XmlRpcDecoding.UntypedResponse`).
- `parseRawXmlRpcRequest` skips only members without any `value` descendant. A member
  whose value has no element child still gets an entry: the value's trimmed text
  (`XmlRpcDecoding.ValueContentUntyped`).

Calling a decoder twice on the same document gives the same map, because each decoder
is proved equal to a function of the document.

## Model

| member | source | states |
|---|---|---|
| `Dom.Children` | src/main/java/com/sang/v2/XmlRpcConverter.java:141 | getChildNodes (also at lines 169 and 183): an element's children in order; a text or comment node has none |
| `Dom.TextContent` | src/main/java/com/sang/v2/XmlRpcConverter.java:194-200 | getTextContent (also at lines 111, 123, 151, 153 and 173): the concatenated data of every descendant text node, in document order; comments add nothing |
| `Dom.TextContentAll` | src/main/java/com/sang/v2/XmlRpcConverter.java:200 | the text content of a list of siblings, the first sibling's before the rest |
| `Dom.DocumentElementsByTagName` | src/main/java/com/sang/v2/XmlRpcConverter.java:86 | Document.getElementsByTagName (also at lines 109 and 118): every item found has the tag; a root element with that tag comes first, with `#document` as its parent's name |
| `Dom.ElementsByTagName` | src/main/java/com/sang/v2/XmlRpcConverter.java:162 | Element.getElementsByTagName (also at lines 122, 125, 166 and 167): every item found has the tag; only descendants are scanned, so a non-element yields nothing |
| `Dom.ByTag` | src/main/java/com/sang/v2/XmlRpcConverter.java:86 | every item found has the tag searched for; the scanned node comes first when it has that tag; non-elements contribute nothing |
| `Dom.ByTagAll` | src/main/java/com/sang/v2/XmlRpcConverter.java:162 | every item found below a list of siblings has the tag searched for |
| `Dom.ByTagAllOne` | src/main/java/com/sang/v2/XmlRpcConverter.java:162 | proof helper about the getElementsByTagName scan: scanning a one-node list is scanning that node |
| `Dom.ByTagAllTwo` | src/main/java/com/sang/v2/XmlRpcConverter.java:162 | proof helper about the getElementsByTagName scan: scanning two siblings lists the matches of the first, then those of the second |
| `Dom.FirstElementChild` | src/main/java/com/sang/v2/XmlRpcConverter.java:170-176 | the index returned is an element child and no earlier child is an element; none is returned only when no child is an element |
| `Dom.WithText` | src/main/java/com/sang/v2/XmlRpcConverter.java:34-35 | the created element has the tag and text content given, no element descendants, and no child at all for empty text |
| `Dom.LeadingBlanks` | src/main/java/com/sang/v2/XmlRpcConverter.java:200 | counts exactly the maximal prefix of characters up to U+0020 |
| `Dom.TrailingBlanks` | src/main/java/com/sang/v2/XmlRpcConverter.java:200 | counts exactly the maximal suffix of characters up to U+0020 |
| `Dom.IsBlank` | src/main/java/com/sang/v2/XmlRpcConverter.java:200 | the whitespace test of String.trim: a character is blank iff it is at most U+0020 |
| `Dom.Trim` | src/main/java/com/sang/v2/XmlRpcConverter.java:200 | the result is a slice of the input starting after the leading blanks, followed only by blanks, and neither starts nor ends with a blank |
| `XmlRpcSpec.MemberNode` | src/main/java/com/sang/v2/XmlRpcConverter.java:51-63 | the member the encoder writes for one entry: name with the key as text, then value holding string with the value as text |
| `XmlRpcSpec.ParamNode` | src/main/java/com/sang/v2/XmlRpcConverter.java:42-52 | the param the encoder writes for one entry: param/value/struct around that entry's member |
| `XmlRpcSpec.ParamNodes` | src/main/java/com/sang/v2/XmlRpcConverter.java:41-43 | the children the entrySet loop appends to params: one param per entry, in the order visited |
| `XmlRpcSpec.RequestTree` | src/main/java/com/sang/v2/XmlRpcConverter.java:31-63 | the methodCall document: methodName with the method name as text, then params with one param per entry, in the order given |
| `XmlRpcSpec.RawEntry` | src/main/java/com/sang/v2/XmlRpcConverter.java:121-130 | what one member adds in parseRawXmlRpcRequest: no name descendant fails (null dereference), no value descendant adds nothing, otherwise the first name's text maps to extractValueContent of the first value |
| `XmlRpcSpec.StructEntry` | src/main/java/com/sang/v2/XmlRpcConverter.java:165-176 | what one member adds in parseStruct: no name or no value descendant fails (null dereference, name checked first), a value without element child adds nothing, otherwise the first name's text maps to the first element child's text |
| `XmlRpcSpec.Fold` | src/main/java/com/sang/v2/XmlRpcConverter.java:120-131 | the put loop (also at lines 164-177): members in order, each entry put over any earlier one, members that add nothing skipped, the first failure ending the loop |
| `XmlRpcSpec.ValueContent` | src/main/java/com/sang/v2/XmlRpcConverter.java:182-200 | extractValueContent: the first element child's text whatever its tag, else the value's own text trimmed |
| `XmlRpcSpec.ValueResult` | src/main/java/com/sang/v2/XmlRpcConverter.java:140-157 | parseValue: by the first element child, a struct is decoded by parseStruct, any other tag gives "result" mapped to its text, no element child gives the empty map |
| `XmlRpcSpec.StructResult` | src/main/java/com/sang/v2/XmlRpcConverter.java:160-180 | parseStruct: the put loop over every member below the struct, nested ones included, starting from the empty map |
| `XmlRpcSpec.DecodeRawRequest` | src/main/java/com/sang/v2/XmlRpcConverter.java:100-138 | parseRawXmlRpcRequest: no methodName element fails; otherwise the first methodName's text and the put loop over every member of the document |
| `XmlRpcSpec.DecodeResponse` | src/main/java/com/sang/v2/XmlRpcConverter.java:80-98 | parseXmlRpcResponse: parseValue of the first value element whose parent is a param, else the empty map |
| `XmlRpcSpec.EntrySet` | src/main/java/com/sang/v2/XmlRpcConverter.java:41 | what iterating the map's entrySet() visits: every entry of the map exactly once, each with its value, in some order |
| `XmlRpcSpec.EntryOf` | src/main/java/com/sang/v2/XmlRpcConverter.java:121-130 | the body of a decoder's put loop applied to one member: the raw decoder's step (lines 121-130) or parseStruct's (lines 165-176) |
| `XmlRpcSpec.Outcomes` | src/main/java/com/sang/v2/XmlRpcConverter.java:118-121 | the NodeList of members (also lines 162-165) mapped item by item to what each contributes, one outcome per member, in order |
| `XmlRpcSpec.OutcomeAt` | src/main/java/com/sang/v2/XmlRpcConverter.java:120-121 | the i-th outcome of the loop is the contribution of the i-th member of the node list |
| `XmlRpcSpec.OutcomesAll` | src/main/java/com/sang/v2/XmlRpcConverter.java:164-177 | proof helper about the put loops: every outcome of the loop is the contribution of the member at the same position |
| `XmlRpcSpec.FirstWithParent` | src/main/java/com/sang/v2/XmlRpcConverter.java:87-92 | the index returned is the first item whose parent has the given name; none only when no item has that parent |
| `XmlRpcConverter.CreateXmlRpcRequest` | src/main/java/com/sang/v2/XmlRpcConverter.java:25-64 | the document is the methodCall tree for some enumeration listing every entry of the map exactly once |
| `XmlRpcConverter.VisitNext` | src/main/java/com/sang/v2/XmlRpcConverter.java:41 | visiting one more key of the entry set keeps the visited entries distinct, from the map, and covering all keys no longer pending |
| `XmlRpcConverter.ParamNodesSnoc` | src/main/java/com/sang/v2/XmlRpcConverter.java:42-43 | appending a param to params matches appending its entry to the enumeration |
| `XmlRpcConverter.ParseXmlRpcResponse` | src/main/java/com/sang/v2/XmlRpcConverter.java:80-98 | returns the decoding of the response document (first param-parented value, else the empty map) |
| `XmlRpcConverter.ParseValue` | src/main/java/com/sang/v2/XmlRpcConverter.java:140-158 | returns the value's decoding: by its first element child, the empty map without one |
| `XmlRpcConverter.ParseStruct` | src/main/java/com/sang/v2/XmlRpcConverter.java:160-180 | returns the fold of all members below the struct with parseStruct's per-member step |
| `XmlRpcConverter.FirstElementText` | src/main/java/com/sang/v2/XmlRpcConverter.java:169-176 | returns the text of the first element child, and nothing exactly when no child is an element |
| `XmlRpcConverter.ParseRawXmlRpcRequest` | src/main/java/com/sang/v2/XmlRpcConverter.java:100-138 | returns the raw decoding: the missing-methodName error, or the first method name and the fold of all the document's members |
| `XmlRpcConverter.ExtractValueContent` | src/main/java/com/sang/v2/XmlRpcConverter.java:182-201 | returns the text of the first element child, whatever its tag, else the value's text trimmed |
| `XmlRpcProperties.FoldFails` | src/main/java/com/sang/v2/XmlRpcConverter.java:120-131 | the put loop fails exactly when some member fails, and then with the first failing member's error |
| `XmlRpcProperties.FoldKeys` | src/main/java/com/sang/v2/XmlRpcConverter.java:164-177 | a key is in the resulting map exactly when it was there before or some member puts it |
| `XmlRpcProperties.FoldKeeps` | src/main/java/com/sang/v2/XmlRpcConverter.java:173 | a key no member puts keeps its earlier value |
| `XmlRpcProperties.FoldLastWins` | src/main/java/com/sang/v2/XmlRpcConverter.java:129 | a key several members put gets the value of the last of them |
| `XmlRpcProperties.RequestTreeShape` | src/main/java/com/sang/v2/XmlRpcConverter.java:31-63 | the encoded tree is methodCall with exactly methodName (the method name as text) and params, holding one param/value/struct/member per entry, in order, with name and value/string texts |
| `XmlRpcProperties.ParamNodesAt` | src/main/java/com/sang/v2/XmlRpcConverter.java:41-64 | the params list has one param per entry and the i-th param is the i-th entry's |
| `XmlRpcProperties.ParamNodeMembers` | src/main/java/com/sang/v2/XmlRpcConverter.java:48-52 | the only member in an encoded param is the one in its struct |
| `XmlRpcProperties.ParamNodeOtherTag` | src/main/java/com/sang/v2/XmlRpcConverter.java:42-63 | an encoded param holds no element with a tag the encoder does not write |
| `XmlRpcProperties.ParamNodesMembers` | src/main/java/com/sang/v2/XmlRpcConverter.java:41-64 | the members of the encoded params are one per entry, in order, each below its struct |
| `XmlRpcProperties.ParamNodesOtherTag` | src/main/java/com/sang/v2/XmlRpcConverter.java:41-64 | the encoded params hold no element with a tag the encoder does not write |
| `XmlRpcProperties.MemberNodeEntry` | src/main/java/com/sang/v2/XmlRpcConverter.java:122-129 | the raw decoder's per-member step reads back the entry of a member written by the encoder |
| `XmlRpcProperties.EncodedMethodName` | src/main/java/com/sang/v2/XmlRpcConverter.java:109-111 | the encoded document has exactly one methodName element, the one the encoder wrote |
| `XmlRpcProperties.EncodedMembers` | src/main/java/com/sang/v2/XmlRpcConverter.java:118 | the members of the encoded document are those of its params |
| `XmlRpcProperties.FoldAddsOk` | src/main/java/com/sang/v2/XmlRpcConverter.java:120-131 | the put loop does not fail when every member yields an entry |
| `XmlRpcProperties.FoldEntrySetHas` | src/main/java/com/sang/v2/XmlRpcConverter.java:129 | each entry of the enumerated map is in the loop's result with its value |
| `XmlRpcProperties.FoldEntrySet` | src/main/java/com/sang/v2/XmlRpcConverter.java:117-131 | putting the entries of an enumeration of a map, one per member, rebuilds exactly that map |
| `XmlRpcProperties.RoundTrip` | src/main/java/com/sang/v2/XmlRpcConverter.java:100-138 | decoding the encoder's tree yields the method name and exactly the parameter map that was encoded |
| `XmlRpcProperties.EncodeThenDecode` | src/main/java/com/sang/v2/XmlRpcConverter.java:25-64 | running the encoder then the raw decoder returns the original method name and map |
| `XmlRpcDecoding.RawRequestOutcome` | src/main/java/com/sang/v2/XmlRpcConverter.java:109-123 | the raw decoder succeeds iff there is a methodName and every member has a name; it fails with the missing-methodName error iff there is no methodName; no other error occurs |
| `XmlRpcDecoding.RawRequestParams` | src/main/java/com/sang/v2/XmlRpcConverter.java:111-131 | on success the method name is the first methodName's text and a key is a parameter iff some member with a name and a value puts it |
| `XmlRpcDecoding.RawRequestLastWins` | src/main/java/com/sang/v2/XmlRpcConverter.java:126-129 | a repeated parameter name gets the content of the last member's first value |
| `XmlRpcDecoding.ValueContentUntyped` | src/main/java/com/sang/v2/XmlRpcConverter.java:200 | a value without element children yields its text, trimmed |
| `XmlRpcDecoding.ValueContentTyped` | src/main/java/com/sang/v2/XmlRpcConverter.java:184-197 | a value yields the untrimmed text of its first element child, whatever the tag and whatever follows |
| `XmlRpcDecoding.StructEntryFails` | src/main/java/com/sang/v2/XmlRpcConverter.java:166-169 | parseStruct's step on one member fails iff the member lacks a name or a value, a missing name reported first |
| `XmlRpcDecoding.StructOutcome` | src/main/java/com/sang/v2/XmlRpcConverter.java:164-169 | parseStruct fails iff some member lacks a name or a value, with the first such member's error, a missing name taking precedence |
| `XmlRpcDecoding.StructSucceeds` | src/main/java/com/sang/v2/XmlRpcConverter.java:164-169 | proof helper, first half of `StructOutcome`: parseStruct succeeds iff every member has a name and a value |
| `XmlRpcDecoding.StructFirstIncomplete` | src/main/java/com/sang/v2/XmlRpcConverter.java:164-169 | proof helper, second half of `StructOutcome`: a failure carries the first incomplete member's error |
| `XmlRpcDecoding.StructOutcomeAt` | src/main/java/com/sang/v2/XmlRpcConverter.java:164-169 | proof helper: member i's step fails iff it is incomplete, with the error of its missing part |
| `XmlRpcDecoding.StructKeys` | src/main/java/com/sang/v2/XmlRpcConverter.java:164-177 | a key is in the struct's map iff some member has it as first name and a value with an element child |
| `XmlRpcDecoding.StructLastWins` | src/main/java/com/sang/v2/XmlRpcConverter.java:173 | a repeated struct member name gets the text of the last such member's value child |
| `XmlRpcDecoding.ResponseWithoutParamValue` | src/main/java/com/sang/v2/XmlRpcConverter.java:86-94 | without a value whose parent is a param the response decodes to the empty map |
| `XmlRpcDecoding.ResponseFirstParamValue` | src/main/java/com/sang/v2/XmlRpcConverter.java:86-91 | the first param-parented value alone decides the response |
| `XmlRpcDecoding.ValueWithoutElement` | src/main/java/com/sang/v2/XmlRpcConverter.java:141-157 | a value without element children decodes to the empty map |
| `XmlRpcDecoding.ValueScalar` | src/main/java/com/sang/v2/XmlRpcConverter.java:147-153 | a value whose first element child is not a struct decodes to the single key "result" with that child's text |
| `XmlRpcDecoding.ValueStruct` | src/main/java/com/sang/v2/XmlRpcConverter.java:147-149 | a value whose first element child is a struct decodes as parseStruct of that struct |
| `XmlRpcDecoding.MemberNodeScan` | src/main/java/com/sang/v2/XmlRpcConverter.java:51-63 | a written member is the only member in itself and holds one value element, directly below it |
| `XmlRpcDecoding.MemberNodeStructEntry` | src/main/java/com/sang/v2/XmlRpcConverter.java:164-176 | parseStruct's per-member step reads back the entry of a written member |
| `XmlRpcDecoding.MemberNodesMembers` | src/main/java/com/sang/v2/XmlRpcConverter.java:162 | the members found in a list of written members are those members, in order |
| `XmlRpcDecoding.MemberNodesValues` | src/main/java/com/sang/v2/XmlRpcConverter.java:86-89 | every value in a list of written members has a member as parent, never a param |
| `XmlRpcDecoding.StructOfEntries` | src/main/java/com/sang/v2/XmlRpcConverter.java:160-180 | a struct of members written as the encoder writes them (string values, distinct names) decodes to exactly the map they enumerate |
| `XmlRpcDecoding.ResponseReadsParamValue` | src/main/java/com/sang/v2/XmlRpcConverter.java:86-90 | a methodResponse decodes as the value of its only param |
| `XmlRpcDecoding.StructResponse` | src/main/java/com/sang/v2/XmlRpcConverter.java:80-98 | a response whose param holds a struct of members written as the encoder writes them (string values, distinct names) decodes to the map they enumerate |
| `XmlRpcDecoding.ScalarResponse` | src/main/java/com/sang/v2/XmlRpcConverter.java:150-153 | a response whose param holds a non-struct typed scalar decodes to "result" mapped to its text |
| `XmlRpcDecoding.UntypedResponse` | src/main/java/com/sang/v2/XmlRpcConverter.java:141-157 | a response whose param holds bare text decodes to the empty map |
| `XmlRpcDecoding.NoParamParent` | src/main/java/com/sang/v2/XmlRpcConverter.java:86-89 | below a node that is not in a param and holds no param element, no value element has a param as its parent |
| `XmlRpcDecoding.NoParamParentAll` | src/main/java/com/sang/v2/XmlRpcConverter.java:86-89 | the same for a list of siblings whose parent is not a param |
| `XmlRpcDecoding.FaultResponse` | src/main/java/com/sang/v2/XmlRpcConverter.java:86-94 | a fault response decodes to the empty map whatever its value holds (an int faultCode included), provided the value contains no param element |
| `XmlRpcDecoding.MissingMethodNameExample` | src/main/java/com/sang/v2/XmlRpcConverter.java:109-113 | a methodCall with params but no methodName fails with the missing-methodName error |
| `XmlRpcDecoding.FoldTwo` | src/main/java/com/sang/v2/XmlRpcConverter.java:120-131 | proof helper about the put loop: two members that each yield an entry put the first, then the second |
| `XmlRpcDecoding.KeyOverwriteExample` | src/main/java/com/sang/v2/XmlRpcConverter.java:118-131 | two params named "x" decode to a map holding only the later value |
| `XmlRpcDecoding.StructResponseExample` | src/main/java/com/sang/v2/XmlRpcConverter.java:160-180 | a param with the struct member result = OK decodes to {"result": "OK"} |

## Left out

- Parsing text into a DOM and serialising a DOM to text (`DocumentBuilder.parse`, `Transformer`) are not modelled. The model starts from the parsed tree and ends with the built tree. So malformed XML, character escaping, the UTF-8 encoding and indentation are out of scope. The round trip holds on trees; that it also holds through a conforming serialiser and parser is not proved.
- The exception messages and the wrapping of every failure into a `RuntimeException` are left out. The model returns the cause as an `Error` value instead.
- Java `null` is not modelled: the method name, keys and values are always strings.
- Attributes, namespaces and entity references are left out. Comments and processing instructions are both `Comment` nodes. CDATA sections behave as `Text`.
- The proxy controller, HTTP transport and JSON mapping around the codec are not part of this model.
- `XmlRpcConverter.CreateXmlRpcRequest`: the order of the params is not fixed. The contract says only that it is some enumeration of the map, because the iteration order of the given `Map`'s `entrySet()` is unspecified.
