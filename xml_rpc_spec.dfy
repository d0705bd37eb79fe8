/** What the XML-RPC codec computes, as functions over DOM trees: the request tree the
    encoder builds, and the results of the response decoder and of the raw request decoder. */
module XmlRpcSpec {
  import opened Dom

  /** Why a call fails. The Java code throws in each case, and the public methods wrap
      what they catch into a RuntimeException. */
  datatype Error =
    | NoMethodName        // parseRawXmlRpcRequest: the document has no methodName element
    | MemberWithoutName   // a member without a name descendant (NullPointerException)
    | MemberWithoutValue  // parseStruct: a member without a value descendant (NullPointerException)

  datatype Result<+T> = Ok(value: T) | Err(error: Error)

  /** A parameter: its name and its string value. */
  type Entry = (string, string)

  /** What parseRawXmlRpcRequest returns: the Java map with exactly the two keys
      "methodName" and "params". */
  datatype RawRequest = RawRequest(methodName: string, params: map<string, string>)

  // ---------------------------------------------------------------------------------
  // Request encoder

  /** One member of the one-member struct that wraps a parameter. */
  function MemberNode(e: Entry): Node
  {
    Element("member", [WithText("name", e.0), Element("value", [WithText("string", e.1)])])
  }

  /** A parameter as the encoder writes it: param/value/struct/member. */
  function ParamNode(e: Entry): Node
  {
    Element("param", [Element("value", [Element("struct", [MemberNode(e)])])])
  }

  function ParamNodes(es: seq<Entry>): seq<Node>
  {
    if es == [] then [] else [ParamNode(es[0])] + ParamNodes(es[1..])
  }

  /** The methodCall document for `methodName` whose params follow the entries `es` in order. */
  function RequestTree(methodName: string, es: seq<Entry>): Node
  {
    Element("methodCall", [WithText("methodName", methodName), Element("params", ParamNodes(es))])
  }

  /** `es` lists every entry of `m` exactly once, in some order (what iterating over
      `entrySet()` of a Java map visits). */
  ghost predicate EntrySet(es: seq<Entry>, m: map<string, string>)
  {
    (forall i :: 0 <= i < |es| ==> es[i].0 in m && m[es[i].0] == es[i].1) &&
    (forall k :: k in m ==> exists i :: 0 <= i < |es| && es[i].0 == k) &&
    (forall i, j :: 0 <= i < j < |es| ==> es[i].0 != es[j].0)
  }

  // ---------------------------------------------------------------------------------
  // Folding members into a map, as both decoders do with HashMap.put

  /** Which of the two decoder loops reads a member. */
  datatype Reader = RawReader | StructReader

  /** What one member contributes to the map in the loop of `reader`. */
  function EntryOf(reader: Reader, member: Node): Result<Option<Entry>>
  {
    match reader
    case RawReader => RawEntry(member)
    case StructReader => StructEntry(member)
  }

  /** What one member contributes to the map: an entry to put, nothing, or an error. */
  type Outcome = Result<Option<Entry>>

  /** What each of `members` contributes in the loop of `reader`, in order. */
  function Outcomes(members: seq<Item>, reader: Reader): (r: seq<Outcome>)
    ensures |r| == |members|
  {
    if members == [] then [] else [EntryOf(reader, members[0].element)] + Outcomes(members[1..], reader)
  }

  /** Outcome `i` is what member `i` contributes. */
  lemma {:induction false} OutcomeAt(members: seq<Item>, reader: Reader, i: nat)
    requires i < |members|
    ensures Outcomes(members, reader)[i] == EntryOf(reader, members[i].element)
    decreases i
  {
    if i > 0 {
      OutcomeAt(members[1..], reader, i - 1);
    }
  }

  /** Every outcome is what its member contributes. */
  lemma {:induction false} OutcomesAll(members: seq<Item>, reader: Reader)
    ensures forall i :: 0 <= i < |members| ==> Outcomes(members, reader)[i] == EntryOf(reader, members[i].element)
  {
    forall i | 0 <= i < |members| ensures Outcomes(members, reader)[i] == EntryOf(reader, members[i].element) {
      OutcomeAt(members, reader, i);
    }
  }

  /** The map that a put loop builds from `acc`, member by member: an entry is put
      (overwriting), nothing is skipped, and an error ends the loop. */
  function Fold(acc: map<string, string>, outcomes: seq<Outcome>): Result<map<string, string>>
    decreases |outcomes|
  {
    if outcomes == [] then Ok(acc)
    else match outcomes[0]
      case Err(e) => Err(e)
      case Ok(None) => Fold(acc, outcomes[1..])
      case Ok(Some(e)) => Fold(acc[e.0 := e.1], outcomes[1..])
  }

  /** Outcome `i` puts an entry with key `k`. */
  ghost predicate Adds(outcomes: seq<Outcome>, i: int, k: string)
  {
    0 <= i < |outcomes| && outcomes[i].Ok? && outcomes[i].value.Some? && outcomes[i].value.value.0 == k
  }

  // ---------------------------------------------------------------------------------
  // Raw request decoder

  /** extractValueContent: the text of the first element child, whatever its tag; with
      no element child, the value's own text, trimmed. */
  function ValueContent(v: Node): string
  {
    var cs := Children(v);
    match FirstElementChild(cs)
    case Some(i) => TextContent(cs[i])
    case None => Trim(TextContent(v))
  }

  /** What one member adds in parseRawXmlRpcRequest: the text of its first name
      descendant mapped to the content of its first value descendant; nothing when it has
      no value descendant; a failure when it has no name descendant. */
  function RawEntry(member: Node): Result<Option<Entry>>
  {
    var names := ElementsByTagName(member, "name");
    if |names| == 0 then Err(MemberWithoutName)
    else
      var values := ElementsByTagName(member, "value");
      if |values| == 0 then Ok(None)
      else Ok(Some((TextContent(names[0].element), ValueContent(values[0].element))))
  }

  /** parseRawXmlRpcRequest over the parsed document `root`. */
  function DecodeRawRequest(root: Node): Result<RawRequest>
  {
    var names := DocumentElementsByTagName(root, "methodName");
    if |names| == 0 then Err(NoMethodName)
    else match Fold(map[], Outcomes(DocumentElementsByTagName(root, "member"), RawReader))
      case Err(e) => Err(e)
      case Ok(params) => Ok(RawRequest(TextContent(names[0].element), params))
  }

  // ---------------------------------------------------------------------------------
  // Response decoder

  /** What one member adds in parseStruct: the text of its first name descendant mapped
      to the text of the first element child of its first value descendant; nothing when
      that value has no element child; a failure when the member has no name or no value
      descendant. */
  function StructEntry(member: Node): Result<Option<Entry>>
  {
    var names := ElementsByTagName(member, "name");
    if |names| == 0 then Err(MemberWithoutName)
    else
      var values := ElementsByTagName(member, "value");
      if |values| == 0 then Err(MemberWithoutValue)
      else
        var cs := Children(values[0].element);
        match FirstElementChild(cs)
        case None => Ok(None)
        case Some(j) => Ok(Some((TextContent(names[0].element), TextContent(cs[j]))))
  }

  /** parseStruct: every member below the struct, nested ones included. */
  function StructResult(s: Node): Result<map<string, string>>
  {
    Fold(map[], Outcomes(ElementsByTagName(s, "member"), StructReader))
  }

  /** parseValue: classified by the value's first element child. */
  function ValueResult(v: Node): Result<map<string, string>>
  {
    var cs := Children(v);
    match FirstElementChild(cs)
    case None => Ok(map[])
    case Some(i) =>
      if cs[i].tag == "struct" then StructResult(cs[i]) else Ok(map["result" := TextContent(cs[i])])
  }

  /** Index of the first item whose parent is named `parentName`. */
  function FirstWithParent(items: seq<Item>, parentName: string): (r: Option<nat>)
    ensures r.Some? ==> r.value < |items| && items[r.value].parentName == parentName
    ensures r.Some? ==> forall j :: 0 <= j < r.value ==> items[j].parentName != parentName
    ensures r.None? ==> forall j :: 0 <= j < |items| ==> items[j].parentName != parentName
  {
    if items == [] then None
    else if items[0].parentName == parentName then Some(0)
    else match FirstWithParent(items[1..], parentName)
      case None => None
      case Some(k) => Some(k + 1)
  }

  /** parseXmlRpcResponse over the parsed document `root`: the first value element whose
      parent is a param decides the result; without one the result is the empty map. */
  function DecodeResponse(root: Node): Result<map<string, string>>
  {
    var values := DocumentElementsByTagName(root, "value");
    match FirstWithParent(values, "param")
    case None => Ok(map[])
    case Some(i) => ValueResult(values[i].element)
  }
}
