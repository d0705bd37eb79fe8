/** How the two decoders treat documents of every shape: when they fail and with which
    error, which keys end up in the map and which value a repeated key keeps, which value
    of a response is read, and what documents in the wire format decode to. */
module XmlRpcDecoding {
  import opened Dom
  import opened XmlRpcSpec
  import opened XmlRpcProperties

  // ---------------------------------------------------------------------------------
  // Raw request decoder

  /** Member `m` makes parseRawXmlRpcRequest put the key `k`: it has a name descendant,
      the first of which has the text `k`, and a value descendant. */
  ghost predicate RawPuts(m: Node, k: string)
  {
    var names := ElementsByTagName(m, "name");
    |names| > 0 && |ElementsByTagName(m, "value")| > 0 && TextContent(names[0].element) == k
  }

  /** The member has a name descendant, so that the raw decoder's loop gets past it. */
  predicate Named(m: Node)
  {
    |ElementsByTagName(m, "name")| > 0
  }

  /** The raw decoder succeeds exactly when the document has a methodName element and
      every member in it has a name; a missing methodName is reported as such, and a
      member without a name is the only other way to fail. */
  lemma {:induction false} RawRequestOutcome(root: Node)
    ensures var members := DocumentElementsByTagName(root, "member");
      DecodeRawRequest(root).Ok? <==>
        |DocumentElementsByTagName(root, "methodName")| > 0 &&
        forall i :: 0 <= i < |members| ==> Named(members[i].element)
    ensures DecodeRawRequest(root) == Err(NoMethodName) <==>
      |DocumentElementsByTagName(root, "methodName")| == 0
    ensures DecodeRawRequest(root).Err? ==>
      DecodeRawRequest(root).error == NoMethodName || DecodeRawRequest(root).error == MemberWithoutName
  {
    var members := DocumentElementsByTagName(root, "member");
    var outcomes := Outcomes(members, RawReader);
    OutcomesAll(members, RawReader);
    FoldFails(map[], outcomes);
    assert forall i :: 0 <= i < |members| ==>
      (outcomes[i].Err? <==> !Named(members[i].element));
    var fold := Fold(map[], outcomes);
    if fold.Err? {
      var i :| 0 <= i < |members| && outcomes[i] == Err(fold.error);
      assert fold.error == MemberWithoutName;
    }
  }

  /** On success the method name is the text of the first methodName element, and a key
      is a parameter exactly when some member puts it. */
  lemma {:induction false} RawRequestParams(root: Node)
    requires DecodeRawRequest(root).Ok?
    ensures DecodeRawRequest(root).value.methodName ==
      TextContent(DocumentElementsByTagName(root, "methodName")[0].element)
    ensures var members := DocumentElementsByTagName(root, "member");
      forall k :: k in DecodeRawRequest(root).value.params <==>
        exists i :: 0 <= i < |members| && RawPuts(members[i].element, k)
  {
    var members := DocumentElementsByTagName(root, "member");
    var params := DecodeRawRequest(root).value.params;
    var outcomes := Outcomes(members, RawReader);
    OutcomesAll(members, RawReader);
    FoldKeys(map[], outcomes);
    forall k | k in params ensures exists i :: 0 <= i < |members| && RawPuts(members[i].element, k) {
      var i :| Adds(outcomes, i, k);
      assert RawPuts(members[i].element, k);
    }
    forall i, k | 0 <= i < |members| && RawPuts(members[i].element, k) ensures k in params {
      assert Adds(outcomes, i, k);
    }
  }

  /** When several members put the same key, the last of them decides its value: the
      content of its first value descendant. */
  lemma {:induction false} RawRequestLastWins(root: Node, i: nat, k: string)
    requires DecodeRawRequest(root).Ok?
    requires var members := DocumentElementsByTagName(root, "member");
      i < |members| && RawPuts(members[i].element, k) &&
      forall j :: i < j < |members| ==> !RawPuts(members[j].element, k)
    ensures var member := DocumentElementsByTagName(root, "member")[i].element;
      k in DecodeRawRequest(root).value.params &&
      DecodeRawRequest(root).value.params[k] == ValueContent(ElementsByTagName(member, "value")[0].element)
  {
    var members := DocumentElementsByTagName(root, "member");
    var member := members[i].element;
    var e := (k, ValueContent(ElementsByTagName(member, "value")[0].element));
    var outcomes := Outcomes(members, RawReader);
    OutcomesAll(members, RawReader);
    assert outcomes[i] == Ok(Some(e));
    forall j | i < j ensures !Adds(outcomes, j, k) {
      if j < |members| {
        assert !RawPuts(members[j].element, k);
      }
    }
    FoldLastWins(map[], outcomes, i, e);
  }

  /** extractValueContent on a value with no element child: its text, trimmed. */
  lemma {:induction false} ValueContentUntyped(cs: seq<Node>)
    requires forall j :: 0 <= j < |cs| ==> !cs[j].Element?
    ensures ValueContent(Element("value", cs)) == Trim(TextContentAll(cs))
  {
    if FirstElementChild(cs).Some? {
      assert false;
    }
  }

  /** extractValueContent on a value whose first element child is `c`: the text of `c`,
      untrimmed, whatever its tag and whatever follows it. */
  lemma {:induction false} ValueContentTyped(before: seq<Node>, c: Node, after: seq<Node>)
    requires c.Element?
    requires forall j :: 0 <= j < |before| ==> !before[j].Element?
    ensures ValueContent(Element("value", before + [c] + after)) == TextContent(c)
  {
    var cs := before + [c] + after;
    assert cs[|before|] == c;
    var first := FirstElementChild(cs);
    assert first.Some?;
    assert forall j :: 0 <= j < |before| ==> cs[j] == before[j];
    assert !(first.value < |before|);
    assert !(|before| < first.value);
  }

  // ---------------------------------------------------------------------------------
  // Struct decoding

  /** Member `m` makes parseStruct put the key `k`: it has a name and a value
      descendant, the first name has the text `k`, and the first value has an element child. */
  ghost predicate StructPuts(m: Node, k: string)
  {
    var names := ElementsByTagName(m, "name");
    var values := ElementsByTagName(m, "value");
    |names| > 0 && |values| > 0 && TextContent(names[0].element) == k &&
    FirstElementChild(Children(values[0].element)).Some?
  }

  /** The text of the first element child of the member's first value. */
  function StructText(m: Node): string
    requires |ElementsByTagName(m, "value")| > 0
    requires FirstElementChild(Children(ElementsByTagName(m, "value")[0].element)).Some?
  {
    var cs := Children(ElementsByTagName(m, "value")[0].element);
    TextContent(cs[FirstElementChild(cs).value])
  }

  /** The member has both a name and a value descendant, so that parseStruct gets past it. */
  predicate Complete(m: Node)
  {
    Named(m) && |ElementsByTagName(m, "value")| > 0
  }

  /** parseStruct's step on one member fails exactly when the member is incomplete: a
      missing name is reported before a missing value. */
  lemma {:induction false} StructEntryFails(m: Node)
    ensures StructEntry(m).Ok? <==> Complete(m)
    ensures StructEntry(m).Err? ==>
      StructEntry(m).error == (if !Named(m) then MemberWithoutName else MemberWithoutValue)
  {
  }

  /** parseStruct fails exactly when some member has no name or no value descendant, and
      then with the error of the first such member: a missing name before a missing value. */
  lemma {:induction false} StructOutcome(s: Node)
    ensures var members := ElementsByTagName(s, "member");
      StructResult(s).Ok? <==> forall i :: 0 <= i < |members| ==> Complete(members[i].element)
    ensures var members := ElementsByTagName(s, "member");
      StructResult(s).Err? ==> exists i :: (0 <= i < |members| &&
        (forall j :: 0 <= j < i ==> Complete(members[j].element)) && !Complete(members[i].element) &&
        StructResult(s).error == (if !Named(members[i].element) then MemberWithoutName else MemberWithoutValue))
  {
    StructSucceeds(s);
    StructFirstIncomplete(s);
  }

  /** parseStruct succeeds exactly when every member has a name and a value descendant.
      The first half of `StructOutcome`, proved on its own to keep each proof small. */
  lemma {:induction false} StructSucceeds(s: Node)
    ensures var members := ElementsByTagName(s, "member");
      StructResult(s).Ok? <==> forall i :: 0 <= i < |members| ==> Complete(members[i].element)
  {
    var members := ElementsByTagName(s, "member");
    var outcomes := Outcomes(members, StructReader);
    FoldFails(map[], outcomes);
    forall i | 0 <= i < |members| ensures outcomes[i].Ok? <==> Complete(members[i].element) {
      StructOutcomeAt(members, i);
    }
  }

  /** A failing parseStruct reports the error of its first incomplete member. The second
      half of `StructOutcome`, proved on its own to keep each proof small. */
  lemma {:induction false} StructFirstIncomplete(s: Node)
    ensures var members := ElementsByTagName(s, "member");
      StructResult(s).Err? ==> exists i :: (0 <= i < |members| &&
        (forall j :: 0 <= j < i ==> Complete(members[j].element)) && !Complete(members[i].element) &&
        StructResult(s).error == (if !Named(members[i].element) then MemberWithoutName else MemberWithoutValue))
  {
    var members := ElementsByTagName(s, "member");
    var outcomes := Outcomes(members, StructReader);
    FoldFails(map[], outcomes);
    var result := StructResult(s);
    if result.Err? {
      var i :| 0 <= i < |outcomes| && outcomes[i] == Err(result.error) &&
        forall j :: 0 <= j < i ==> outcomes[j].Ok?;
      forall j | 0 <= j < i ensures Complete(members[j].element) {
        StructOutcomeAt(members, j);
      }
      StructOutcomeAt(members, i);
    }
  }

  /** Member `i` of parseStruct's loop fails exactly when it is incomplete, with the
      error of its missing part; the per-member step of the two halves of `StructOutcome`. */
  lemma {:induction false} StructOutcomeAt(members: seq<Item>, i: nat)
    requires i < |members|
    ensures Outcomes(members, StructReader)[i].Ok? <==> Complete(members[i].element)
    ensures Outcomes(members, StructReader)[i].Err? ==>
      Outcomes(members, StructReader)[i].error ==
        (if !Named(members[i].element) then MemberWithoutName else MemberWithoutValue)
  {
    OutcomeAt(members, StructReader, i);
    StructEntryFails(members[i].element);
  }

  /** On success a key is in the struct's map exactly when some member puts it. */
  lemma {:induction false} StructKeys(s: Node)
    requires StructResult(s).Ok?
    ensures var members := ElementsByTagName(s, "member");
      forall k :: k in StructResult(s).value <==>
        exists i :: 0 <= i < |members| && StructPuts(members[i].element, k)
  {
    var members := ElementsByTagName(s, "member");
    var result := StructResult(s).value;
    var outcomes := Outcomes(members, StructReader);
    OutcomesAll(members, StructReader);
    FoldKeys(map[], outcomes);
    forall k | k in result ensures exists i :: 0 <= i < |members| && StructPuts(members[i].element, k) {
      var i :| Adds(outcomes, i, k);
      assert StructPuts(members[i].element, k);
    }
    forall i, k | 0 <= i < |members| && StructPuts(members[i].element, k) ensures k in result {
      assert Adds(outcomes, i, k);
    }
  }

  /** When several members of a struct put the same key, the last of them decides its value. */
  lemma {:induction false} StructLastWins(s: Node, i: nat, k: string)
    requires StructResult(s).Ok?
    requires var members := ElementsByTagName(s, "member");
      i < |members| && StructPuts(members[i].element, k) &&
      forall j :: i < j < |members| ==> !StructPuts(members[j].element, k)
    ensures var member := ElementsByTagName(s, "member")[i].element;
      k in StructResult(s).value && StructResult(s).value[k] == StructText(member)
  {
    var members := ElementsByTagName(s, "member");
    var member := members[i].element;
    var e := (k, StructText(member));
    var outcomes := Outcomes(members, StructReader);
    OutcomesAll(members, StructReader);
    assert outcomes[i] == Ok(Some(e));
    forall j | i < j ensures !Adds(outcomes, j, k) {
      if j < |members| {
        assert !StructPuts(members[j].element, k);
      }
    }
    FoldLastWins(map[], outcomes, i, e);
  }

  // ---------------------------------------------------------------------------------
  // Response decoder

  /** Without a value element whose parent is a param the response decodes to the empty map. */
  lemma {:induction false} ResponseWithoutParamValue(root: Node)
    requires var values := DocumentElementsByTagName(root, "value");
      forall i :: 0 <= i < |values| ==> values[i].parentName != "param"
    ensures DecodeResponse(root) == Ok(map[])
  {
    var values := DocumentElementsByTagName(root, "value");
    var first := FirstWithParent(values, "param");
    if first.Some? {
      assert false;
    }
  }

  /** The first value element whose parent is a param alone decides the response. */
  lemma {:induction false} ResponseFirstParamValue(root: Node, i: nat)
    requires var values := DocumentElementsByTagName(root, "value");
      i < |values| && values[i].parentName == "param" &&
      forall j :: 0 <= j < i ==> values[j].parentName != "param"
    ensures DecodeResponse(root) == ValueResult(DocumentElementsByTagName(root, "value")[i].element)
  {
    var values := DocumentElementsByTagName(root, "value");
    var first := FirstWithParent(values, "param");
    assert first.Some?;
    assert !(first.value < i);
    assert !(i < first.value);
  }

  /** A value without element children (only text, or nothing) decodes to the empty map,
      its text notwithstanding. */
  lemma {:induction false} ValueWithoutElement(v: Node)
    requires forall j :: 0 <= j < |Children(v)| ==> !Children(v)[j].Element?
    ensures ValueResult(v) == Ok(map[])
  {
    var first := FirstElementChild(Children(v));
    if first.Some? {
      assert false;
    }
  }

  /** A value whose first element child is not a struct decodes to the single key
      "result", mapped to that child's text; children before it that are not elements are
      ignored. */
  lemma {:induction false} ValueScalar(v: Node, i: nat)
    requires i < |Children(v)| && Children(v)[i].Element? && Children(v)[i].tag != "struct"
    requires forall j :: 0 <= j < i ==> !Children(v)[j].Element?
    ensures ValueResult(v) == Ok(map["result" := TextContent(Children(v)[i])])
  {
    var first := FirstElementChild(Children(v));
    assert first.Some?;
    assert !(first.value < i);
    assert !(i < first.value);
  }

  /** A value whose first element child is a struct decodes as that struct, through
      parseStruct; children before it that are not elements are ignored. */
  lemma {:induction false} ValueStruct(v: Node, i: nat)
    requires i < |Children(v)| && Children(v)[i].Element? && Children(v)[i].tag == "struct"
    requires forall j :: 0 <= j < i ==> !Children(v)[j].Element?
    ensures ValueResult(v) == StructResult(Children(v)[i])
  {
    var first := FirstElementChild(Children(v));
    assert first.Some?;
    assert !(first.value < i);
    assert !(i < first.value);
  }

  // ---------------------------------------------------------------------------------
  // Documents in the wire format

  /** The members of a struct, one per entry, each as the encoder writes a member. */
  function MemberNodes(es: seq<Entry>): seq<Node>
  {
    if es == [] then [] else [MemberNode(es[0])] + MemberNodes(es[1..])
  }

  /** A methodResponse whose only param holds `value`. */
  function ResponseTree(value: Node): Node
  {
    Element("methodResponse", [Element("params", [Element("param", [value])])])
  }

  /** A methodResponse holding a fault whose value is `value`. */
  function FaultTree(value: Node): Node
  {
    Element("methodResponse", [Element("fault", [value])])
  }

  /** The value inside a member is the only value element below it, and its parent is the member. */
  lemma {:induction false} MemberNodeScan(e: Entry, parentName: string)
    ensures ByTag(MemberNode(e), parentName, "member") == [Item(parentName, MemberNode(e))]
    ensures ByTag(MemberNode(e), parentName, "value") ==
      [Item("member", Element("value", [WithText("string", e.1)]))]
  {
    var name := WithText("name", e.0);
    var str := WithText("string", e.1);
    var memberValue := Element("value", [str]);
    ByTagAllOne(str, "value", "member");
    ByTagAllOne(str, "value", "value");
    ByTagAllTwo(name, memberValue, "member", "member");
    ByTagAllTwo(name, memberValue, "member", "value");
  }

  /** parseStruct reads back the entry of a member written as the encoder writes it. */
  lemma {:induction false} MemberNodeStructEntry(e: Entry)
    ensures StructEntry(MemberNode(e)) == Ok(Some(e))
  {
    var name := WithText("name", e.0);
    var str := WithText("string", e.1);
    var memberValue := Element("value", [str]);
    ByTagAllTwo(name, memberValue, "member", "name");
    ByTagAllOne(str, "value", "name");
    assert ElementsByTagName(MemberNode(e), "name") == [Item("member", name)];
    ByTagAllTwo(name, memberValue, "member", "value");
    ByTagAllOne(str, "value", "value");
    assert ElementsByTagName(MemberNode(e), "value") == [Item("member", memberValue)];
    assert FirstElementChild(Children(memberValue)) == Some(0);
  }

  /** The members found in a list of written members are those members, in order. */
  lemma {:induction false} MemberNodesMembers(es: seq<Entry>, parentName: string)
    ensures var r := ByTagAll(MemberNodes(es), parentName, "member");
      |r| == |es| && forall i :: 0 <= i < |es| ==> r[i] == Item(parentName, MemberNode(es[i]))
  {
    if es != [] {
      MemberNodeScan(es[0], parentName);
      MemberNodesMembers(es[1..], parentName);
      assert MemberNodes(es)[1..] == MemberNodes(es[1..]);
      var r := ByTagAll(MemberNodes(es), parentName, "member");
      var rest := ByTagAll(MemberNodes(es[1..]), parentName, "member");
      assert r == [Item(parentName, MemberNode(es[0]))] + rest;
      forall i | 0 < i < |es| ensures r[i] == Item(parentName, MemberNode(es[i])) {
        assert r[i] == rest[i - 1];
      }
    }
  }

  /** Every value element in a list of written members sits directly in a member. */
  lemma {:induction false} MemberNodesValues(es: seq<Entry>, parentName: string)
    ensures var r := ByTagAll(MemberNodes(es), parentName, "value");
      forall i :: 0 <= i < |r| ==> r[i].parentName == "member"
  {
    if es != [] {
      MemberNodeScan(es[0], parentName);
      MemberNodesValues(es[1..], parentName);
      assert MemberNodes(es)[1..] == MemberNodes(es[1..]);
      assert ByTagAll(MemberNodes(es), parentName, "value") ==
        ByTag(MemberNode(es[0]), parentName, "value") + ByTagAll(MemberNodes(es[1..]), parentName, "value");
    }
  }

  /** A struct of members written as the encoder writes them (string values, distinct
      names) decodes to exactly the map the members enumerate. */
  lemma {:induction false} StructOfEntries(es: seq<Entry>, params: map<string, string>)
    requires EntrySet(es, params)
    ensures StructResult(Element("struct", MemberNodes(es))) == Ok(params)
  {
    var members := ElementsByTagName(Element("struct", MemberNodes(es)), "member");
    MemberNodesMembers(es, "struct");
    var outcomes := Outcomes(members, StructReader);
    OutcomesAll(members, StructReader);
    forall i | 0 <= i < |outcomes| ensures outcomes[i] == Ok(Some(es[i])) {
      MemberNodeStructEntry(es[i]);
    }
    FoldEntrySet(outcomes, es, params);
  }

  /** The response decoder reads the value of the only param of a methodResponse. */
  lemma {:induction false} ResponseReadsParamValue(value: Node)
    requires value.Element? && value.tag == "value"
    ensures DecodeResponse(ResponseTree(value)) == ValueResult(value)
  {
    var param := Element("param", [value]);
    var params := Element("params", [param]);
    ByTagAllOne(value, "param", "value");
    ByTagAllOne(param, "params", "value");
    ByTagAllOne(params, "methodResponse", "value");
    ResponseFirstParamValue(ResponseTree(value), 0);
  }

  /** A response carrying a struct of members written as the encoder writes them (string
      values, distinct names) decodes to the map they enumerate. */
  lemma {:induction false} StructResponse(es: seq<Entry>, params: map<string, string>)
    requires EntrySet(es, params)
    ensures DecodeResponse(ResponseTree(Element("value", [Element("struct", MemberNodes(es))]))) == Ok(params)
  {
    var struct := Element("struct", MemberNodes(es));
    ResponseReadsParamValue(Element("value", [struct]));
    assert FirstElementChild([struct]) == Some(0);
    StructOfEntries(es, params);
  }

  /** A response carrying a typed scalar other than a struct decodes to "result" mapped to
      the scalar's text, whatever its type tag. */
  lemma {:induction false} ScalarResponse(tag: string, s: string)
    requires tag != "struct"
    ensures DecodeResponse(ResponseTree(Element("value", [WithText(tag, s)]))) == Ok(map["result" := s])
  {
    ResponseReadsParamValue(Element("value", [WithText(tag, s)]));
    ValueScalar(Element("value", [WithText(tag, s)]), 0);
  }

  /** A response carrying an untyped scalar (text directly in the value) decodes to the
      empty map: the text is not read. */
  lemma {:induction false} UntypedResponse(s: string)
    ensures DecodeResponse(ResponseTree(Element("value", [Text(s)]))) == Ok(map[])
  {
    ResponseReadsParamValue(Element("value", [Text(s)]));
    ValueWithoutElement(Element("value", [Text(s)]));
  }

  /** Below a node whose parent is not a param, and holding no param element, no value
      element has a param as its parent. */
  lemma {:induction false} NoParamParent(n: Node, parentName: string)
    requires parentName != "param" && ByTag(n, parentName, "param") == []
    ensures var values := ByTag(n, parentName, "value");
      forall i :: 0 <= i < |values| ==> values[i].parentName != "param"
    decreases n, 1
  {
    if n.Element? {
      assert n.tag != "param";
      assert ByTag(n, parentName, "param") == ByTagAll(n.children, n.tag, "param");
      var values := ByTag(n, parentName, "value");
      var head := if n.tag == "value" then [Item(parentName, n)] else [];
      var rest := ByTagAll(n.children, n.tag, "value");
      NoParamParentAll(n.children, n.tag);
      assert forall i :: 0 <= i < |ByTagAll(n.children, n.tag, "value")| ==>
        ByTagAll(n.children, n.tag, "value")[i].parentName != "param";
      assert values == head + rest;
      forall i | 0 <= i < |values| ensures values[i].parentName != "param" {
        if i < |head| {
          assert values[i] == head[i];
        } else {
          assert values[i] == rest[i - |head|];
          assert rest[i - |head|].parentName != "param";
        }
      }
    }
  }

  /** The same for a list of siblings whose parent is not a param. */
  lemma {:induction false} NoParamParentAll(cs: seq<Node>, parentName: string)
    requires parentName != "param" && ByTagAll(cs, parentName, "param") == []
    ensures var values := ByTagAll(cs, parentName, "value");
      forall i :: 0 <= i < |values| ==> values[i].parentName != "param"
    decreases cs, 0
  {
    if cs != [] {
      var params := ByTagAll(cs, parentName, "param");
      assert params == ByTag(cs[0], parentName, "param") + ByTagAll(cs[1..], parentName, "param");
      assert |params| == 0;
      var values := ByTagAll(cs, parentName, "value");
      var first := ByTag(cs[0], parentName, "value");
      var rest := ByTagAll(cs[1..], parentName, "value");
      NoParamParent(cs[0], parentName);
      assert forall i :: 0 <= i < |ByTag(cs[0], parentName, "value")| ==>
        ByTag(cs[0], parentName, "value")[i].parentName != "param";
      NoParamParentAll(cs[1..], parentName);
      assert forall i :: 0 <= i < |ByTagAll(cs[1..], parentName, "value")| ==>
        ByTagAll(cs[1..], parentName, "value")[i].parentName != "param";
      assert values == first + rest;
      forall i | 0 <= i < |values| ensures values[i].parentName != "param" {
        if i < |first| {
          assert values[i] == first[i];
          assert first[i].parentName != "param";
        } else {
          assert values[i] == rest[i - |first|];
          assert rest[i - |first|].parentName != "param";
        }
      }
    }
  }

  /** A fault response decodes to the empty map, whatever its value holds (a struct with
      an int faultCode and a string faultString, say), as long as that value contains no
      param element: no value in it has a param as its parent. */
  lemma {:induction false} FaultResponse(value: Node)
    requires ByTag(value, "fault", "param") == []
    ensures DecodeResponse(FaultTree(value)) == Ok(map[])
  {
    var fault := Element("fault", [value]);
    ByTagAllOne(value, "fault", "value");
    ByTagAllOne(fault, "methodResponse", "value");
    assert DocumentElementsByTagName(FaultTree(value), "value") == ByTag(value, "fault", "value");
    NoParamParent(value, "fault");
    ResponseWithoutParamValue(FaultTree(value));
  }

  // ---------------------------------------------------------------------------------
  // Examples

  /** A methodCall with params but no methodName fails with the missing-methodName error. */
  lemma {:induction false} MissingMethodNameExample()
    ensures DecodeRawRequest(Element("methodCall", [Element("params", [])])) == Err(NoMethodName)
  {
    ByTagAllOne(Element("params", []), "methodCall", "methodName");
    RawRequestOutcome(Element("methodCall", [Element("params", [])]));
  }

  /** Two members that each put an entry: the first is put, then the second. */
  lemma {:induction false} FoldTwo(ea: Entry, eb: Entry)
    ensures Fold(map[], [Ok(Some(ea)), Ok(Some(eb))]) == Ok(map[ea.0 := ea.1][eb.0 := eb.1])
  {
    var outcomes: seq<Outcome> := [Ok(Some(ea)), Ok(Some(eb))];
    var m1 := map[ea.0 := ea.1];
    assert outcomes[1..] == [Ok(Some(eb))];
    assert Fold(map[], outcomes) == Fold(m1, outcomes[1..]);
    assert outcomes[1..][1..] == [];
    assert Fold(m1, outcomes[1..]) == Fold(m1[eb.0 := eb.1], []);
  }

  /** Two params with the member name "x": the later one's value is the one kept. */
  lemma {:induction false} KeyOverwriteExample(first: string, second: string)
    ensures DecodeRawRequest(RequestTree("m", [("x", first), ("x", second)])) ==
      Ok(RawRequest("m", map["x" := second]))
  {
    var es := [("x", first), ("x", second)];
    var doc := RequestTree("m", es);
    EncodedMethodName("m", es);
    EncodedMembers("m", es);
    ParamNodesMembers(es);
    MemberNodeEntry(es[0]);
    MemberNodeEntry(es[1]);
    var members := DocumentElementsByTagName(doc, "member");
    assert members == [Item("struct", MemberNode(es[0])), Item("struct", MemberNode(es[1]))];
    OutcomesAll(members, RawReader);
    assert Outcomes(members, RawReader) == [Ok(Some(es[0])), Ok(Some(es[1]))];
    FoldTwo(es[0], es[1]);
    assert map["x" := first]["x" := second] == map["x" := second];
  }

  /** A response whose param holds a struct with the one member result = OK decodes to
      that one entry. */
  lemma {:induction false} StructResponseExample()
    ensures DecodeResponse(ResponseTree(Element("value", [Element("struct", [MemberNode(("result", "OK"))])]))) ==
      Ok(map["result" := "OK"])
  {
    var es := [("result", "OK")];
    assert MemberNodes(es) == [MemberNode(("result", "OK"))];
    assert EntrySet(es, map["result" := "OK"]) by {
      assert es[0].0 == "result";
    }
    StructResponse(es, map["result" := "OK"]);
  }
}
