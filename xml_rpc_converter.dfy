/** The codec's methods as the Java code runs them: loops over NodeLists and child lists
    that build the DOM tree or fill a map with `put`. Each method is proved to compute the
    function of XmlRpcSpec that describes it. */
module XmlRpcConverter {
  import opened Dom
  import opened XmlRpcSpec

  /** createXmlRpcRequest, up to serialisation: the methodCall tree holding one
      struct-wrapped param per entry of `params`, in the map's (unspecified) iteration order. */
  method CreateXmlRpcRequest(methodName: string, params: map<string, string>) returns (doc: Node)
    ensures exists es :: EntrySet(es, params) && doc == RequestTree(methodName, es)
  {
    var methodNameElement := WithText("methodName", methodName);
    var parameters: seq<Node> := [];
    ghost var visited: seq<Entry> := [];
    var rest := params.Keys;
    while rest != {}
      invariant rest <= params.Keys
      invariant VisitedSoFar(visited, params, rest)
      invariant parameters == ParamNodes(visited)
      decreases rest
    {
      var key :| key in rest;
      var name := WithText("name", key);
      var str := WithText("string", params[key]);
      var memberValue := Element("value", [str]);
      var member := Element("member", [name, memberValue]);
      var struct := Element("struct", [member]);
      var value := Element("value", [struct]);
      var param := Element("param", [value]);
      ParamNodesSnoc(visited, (key, params[key]));
      VisitNext(visited, params, rest, key);
      parameters := parameters + [param];
      visited := visited + [(key, params[key])];
      rest := rest - {key};
    }
    assert EntrySet(visited, params);
    doc := Element("methodCall", [methodNameElement, Element("params", parameters)]);
  }

  /** The loop of createXmlRpcRequest has visited the entries `visited` of `m`, each once,
      and the keys `rest` are still to come. */
  ghost predicate VisitedSoFar(visited: seq<Entry>, m: map<string, string>, rest: set<string>)
  {
    (forall i :: 0 <= i < |visited| ==> visited[i].0 in m && visited[i].0 !in rest && m[visited[i].0] == visited[i].1) &&
    (forall k :: k in m && k !in rest ==> exists i :: 0 <= i < |visited| && visited[i].0 == k) &&
    (forall i, j :: 0 <= i < j < |visited| ==> visited[i].0 != visited[j].0)
  }

  /** Visiting one more key keeps VisitedSoFar. */
  lemma {:induction false} VisitNext(visited: seq<Entry>, m: map<string, string>, rest: set<string>, key: string)
    requires rest <= m.Keys && key in rest
    requires VisitedSoFar(visited, m, rest)
    ensures VisitedSoFar(visited + [(key, m[key])], m, rest - {key})
  {
    var next := visited + [(key, m[key])];
    forall k | k in m && k !in rest - {key}
      ensures exists i :: 0 <= i < |next| && next[i].0 == k
    {
      if k == key {
        assert next[|visited|].0 == k;
      } else {
        var i :| 0 <= i < |visited| && visited[i].0 == k;
        assert next[i].0 == k;
      }
    }
  }

  /** Appending a param node follows appending its entry. */
  lemma {:induction false} ParamNodesSnoc(es: seq<Entry>, e: Entry)
    ensures ParamNodes(es + [e]) == ParamNodes(es) + [ParamNode(e)]
  {
    if es == [] {
      assert ParamNodes([e]) == [ParamNode(e)] + ParamNodes([]);
    } else {
      assert (es + [e])[1..] == es[1..] + [e];
      ParamNodesSnoc(es[1..], e);
    }
  }

  /** parseXmlRpcResponse over the parsed document: the first value whose parent is a param. */
  method ParseXmlRpcResponse(root: Node) returns (r: Result<map<string, string>>)
    ensures r == DecodeResponse(root)
  {
    var valueNodes := DocumentElementsByTagName(root, "value");
    for i := 0 to |valueNodes|
      invariant forall j :: 0 <= j < i ==> valueNodes[j].parentName != "param"
    {
      if valueNodes[i].parentName == "param" {
        r := ParseValue(valueNodes[i].element);
        return;
      }
    }
    r := Ok(map[]);
  }

  /** parseValue: a struct child decodes as a struct, any other element child as "result". */
  method ParseValue(valueElement: Node) returns (r: Result<map<string, string>>)
    ensures r == ValueResult(valueElement)
  {
    var children := Children(valueElement);
    for i := 0 to |children|
      invariant forall j :: 0 <= j < i ==> !children[j].Element?
    {
      var child := children[i];
      if child.Element? {
        if child.tag == "struct" {
          r := ParseStruct(child);
        } else if child.tag == "string" {
          r := Ok(map["result" := TextContent(child)]);
        } else {
          r := Ok(map["result" := TextContent(child)]);
        }
        return;
      }
    }
    r := Ok(map[]);
  }

  /** parseStruct: puts, for every member below the struct, its name and the text of the
      first element child of its value. */
  method ParseStruct(structElement: Node) returns (r: Result<map<string, string>>)
    ensures r == StructResult(structElement)
  {
    var result: map<string, string> := map[];
    var memberElements := ElementsByTagName(structElement, "member");
    ghost var outcomes := Outcomes(memberElements, StructReader);
    for i := 0 to |memberElements|
      invariant Fold(result, outcomes[i..]) == StructResult(structElement)
    {
      assert outcomes[i..][1..] == outcomes[i + 1..];
      var memberElement := memberElements[i].element;
      var names := ElementsByTagName(memberElement, "name");
      if |names| == 0 {
        OutcomeAt(memberElements, StructReader, i);
        return Err(MemberWithoutName);
      }
      var name := TextContent(names[0].element);
      var values := ElementsByTagName(memberElement, "value");
      if |values| == 0 {
        OutcomeAt(memberElements, StructReader, i);
        return Err(MemberWithoutValue);
      }
      var valueChildren := Children(values[0].element);
      var text := FirstElementText(valueChildren);
      if text.Some? {
        result := result[name := text.value];
      }
      OutcomeAt(memberElements, StructReader, i);
    }
    r := Ok(result);
  }

  /** The inner loop of parseStruct: the text of the first element child, if there is one. */
  method FirstElementText(children: seq<Node>) returns (text: Option<string>)
    ensures FirstElementChild(children).None? ==> text == None
    ensures FirstElementChild(children).Some? ==> text == Some(TextContent(children[FirstElementChild(children).value]))
  {
    for j := 0 to |children|
      invariant forall k :: 0 <= k < j ==> !children[k].Element?
    {
      if children[j].Element? {
        return Some(TextContent(children[j]));
      }
    }
    return None;
  }

  /** parseRawXmlRpcRequest over the parsed document: the first methodName, then every
      member of the document put into the params map. */
  method ParseRawXmlRpcRequest(root: Node) returns (r: Result<RawRequest>)
    ensures r == DecodeRawRequest(root)
  {
    var methodNameNodes := DocumentElementsByTagName(root, "methodName");
    if |methodNameNodes| == 0 {
      return Err(NoMethodName);
    }
    var methodName := TextContent(methodNameNodes[0].element);
    var params: map<string, string> := map[];
    var memberNodes := DocumentElementsByTagName(root, "member");
    ghost var outcomes := Outcomes(memberNodes, RawReader);
    for i := 0 to |memberNodes|
      invariant Fold(params, outcomes[i..]) == Fold(map[], outcomes)
    {
      assert outcomes[i..][1..] == outcomes[i + 1..];
      var memberElement := memberNodes[i].element;
      OutcomeAt(memberNodes, RawReader, i);
      var names := ElementsByTagName(memberElement, "name");
      if |names| == 0 {
        return Err(MemberWithoutName);
      }
      var paramName := TextContent(names[0].element);
      var valueNodes := ElementsByTagName(memberElement, "value");
      if |valueNodes| > 0 {
        var paramValue := ExtractValueContent(valueNodes[0].element);
        params := params[paramName := paramValue];
      }
    }
    r := Ok(RawRequest(methodName, params));
  }

  /** extractValueContent: the text of the first element child, or the trimmed text of the value. */
  method ExtractValueContent(valueElement: Node) returns (content: string)
    ensures content == ValueContent(valueElement)
  {
    var children := Children(valueElement);
    for i := 0 to |children|
      invariant forall j :: 0 <= j < i ==> !children[j].Element?
    {
      var child := children[i];
      if child.Element? {
        if child.tag in {"string", "i4", "int", "double", "boolean"} {
          return TextContent(child);
        } else {
          return TextContent(child);
        }
      }
    }
    content := Trim(TextContent(valueElement));
  }
}
