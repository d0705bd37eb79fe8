/** Properties of the codec: what folding members yields, the shape of the encoded
    request, the encoder/raw-decoder round trip, and how both decoders treat documents of
    every shape. */
module XmlRpcProperties {
  import opened Dom
  import opened XmlRpcSpec
  import opened XmlRpcConverter

  // ---------------------------------------------------------------------------------
  // The put loop: failure, keys, last duplicate wins

  /** The put loop fails exactly when some member fails, and then with the error of the
      first failing member. */
  lemma {:induction false} FoldFails(acc: map<string, string>, outcomes: seq<Outcome>)
    ensures Fold(acc, outcomes).Err? <==> exists i :: 0 <= i < |outcomes| && outcomes[i].Err?
    ensures Fold(acc, outcomes).Err? ==>
      exists i :: 0 <= i < |outcomes| && outcomes[i] == Err(Fold(acc, outcomes).error) &&
        forall j :: 0 <= j < i ==> outcomes[j].Ok?
    decreases |outcomes|
  {
    if outcomes != [] && outcomes[0].Ok? {
      var acc' := if outcomes[0].value.Some? then acc[outcomes[0].value.value.0 := outcomes[0].value.value.1] else acc;
      var rest := outcomes[1..];
      assert Fold(acc, outcomes) == Fold(acc', rest);
      FoldFails(acc', rest);
      if exists i :: 0 <= i < |outcomes| && outcomes[i].Err? {
        var i :| 0 <= i < |outcomes| && outcomes[i].Err?;
        assert rest[i - 1].Err?;
      }
      if Fold(acc, outcomes).Err? {
        var i :| 0 <= i < |rest| && rest[i] == Err(Fold(acc, outcomes).error) &&
          forall j :: 0 <= j < i ==> rest[j].Ok?;
        assert outcomes[i + 1] == rest[i];
        forall j | 0 <= j < i + 1 ensures outcomes[j].Ok? {
          if j > 0 { assert outcomes[j] == rest[j - 1]; }
        }
      }
    }
  }

  /** A key is in the map the put loop builds exactly when it was in `acc` or some member
      puts it. */
  lemma {:induction false} FoldKeys(acc: map<string, string>, outcomes: seq<Outcome>)
    requires Fold(acc, outcomes).Ok?
    ensures forall k :: k in Fold(acc, outcomes).value <==> k in acc || exists i :: Adds(outcomes, i, k)
    decreases |outcomes|
  {
    if outcomes != [] {
      assert outcomes[0].Ok?;
      var acc' := if outcomes[0].value.Some? then acc[outcomes[0].value.value.0 := outcomes[0].value.value.1] else acc;
      var rest := outcomes[1..];
      assert Fold(acc, outcomes) == Fold(acc', rest);
      FoldKeys(acc', rest);
      assert forall k :: k in acc' <==> k in acc || Adds(outcomes, 0, k);
      forall k ensures (exists i :: Adds(outcomes, i, k)) <==>
        (Adds(outcomes, 0, k) || exists i :: Adds(rest, i, k))
      {
        if exists i :: Adds(outcomes, i, k) {
          var i :| Adds(outcomes, i, k);
          if i > 0 { assert Adds(rest, i - 1, k); }
        }
        if exists i :: Adds(rest, i, k) {
          var i :| Adds(rest, i, k);
          assert Adds(outcomes, i + 1, k);
        }
      }
    }
  }

  /** A key that no member puts keeps its value from `acc`. */
  lemma {:induction false} FoldKeeps(acc: map<string, string>, outcomes: seq<Outcome>, k: string)
    requires Fold(acc, outcomes).Ok?
    requires k in acc
    requires forall i :: !Adds(outcomes, i, k)
    ensures k in Fold(acc, outcomes).value
    ensures Fold(acc, outcomes).value[k] == acc[k]
    decreases |outcomes|
  {
    if outcomes != [] {
      assert !Adds(outcomes, 0, k);
      var acc' := if outcomes[0].value.Some? then acc[outcomes[0].value.value.0 := outcomes[0].value.value.1] else acc;
      var rest := outcomes[1..];
      assert Fold(acc, outcomes) == Fold(acc', rest);
      forall i ensures !Adds(rest, i, k) {
        assert Adds(rest, i, k) ==> Adds(outcomes, i + 1, k);
      }
      FoldKeeps(acc', rest, k);
    }
  }

  /** When several members put the same key, the last of them decides its value. */
  lemma {:induction false} FoldLastWins(acc: map<string, string>, outcomes: seq<Outcome>, i: nat, e: Entry)
    requires Fold(acc, outcomes).Ok?
    requires i < |outcomes| && outcomes[i] == Ok(Some(e))
    requires forall j :: i < j ==> !Adds(outcomes, j, e.0)
    ensures e.0 in Fold(acc, outcomes).value
    ensures Fold(acc, outcomes).value[e.0] == e.1
    decreases |outcomes|
  {
    var acc' := if outcomes[0].value.Some? then acc[outcomes[0].value.value.0 := outcomes[0].value.value.1] else acc;
    var rest := outcomes[1..];
    assert Fold(acc, outcomes) == Fold(acc', rest);
    if i == 0 {
      forall j ensures !Adds(rest, j, e.0) {
        assert Adds(rest, j, e.0) ==> Adds(outcomes, j + 1, e.0);
      }
      FoldKeeps(acc', rest, e.0);
    } else {
      assert rest[i - 1] == outcomes[i];
      forall j | i - 1 < j ensures !Adds(rest, j, e.0) {
        assert Adds(rest, j, e.0) ==> Adds(outcomes, j + 1, e.0);
      }
      FoldLastWins(acc', rest, i - 1, e);
    }
  }

  // ---------------------------------------------------------------------------------
  // The encoded request

  /** A param exactly as the encoder writes it: param/value/struct/member, the member
      holding a name with text `key` and a value/string with text `val`. */
  ghost predicate IsStructParam(p: Node, key: string, val: string)
  {
    p.Element? && p.tag == "param" && |p.children| == 1 &&
    var value := p.children[0];
    value.Element? && value.tag == "value" && |value.children| == 1 &&
    var struct := value.children[0];
    struct.Element? && struct.tag == "struct" && |struct.children| == 1 &&
    var member := struct.children[0];
    member.Element? && member.tag == "member" && |member.children| == 2 &&
    var name := member.children[0];
    var memberValue := member.children[1];
    name.Element? && name.tag == "name" && TextContent(name) == key &&
    (forall c :: c in name.children ==> c.Text?) &&
    memberValue.Element? && memberValue.tag == "value" && |memberValue.children| == 1 &&
    var str := memberValue.children[0];
    str.Element? && str.tag == "string" && TextContent(str) == val &&
    (forall c :: c in str.children ==> c.Text?)
  }

  /** The encoded tree: root methodCall whose children are exactly methodName (with the
      method name as text) and params; params holds one struct-wrapped param per entry, in
      the order of the entries. */
  lemma {:induction false} RequestTreeShape(methodName: string, es: seq<Entry>)
    ensures var doc := RequestTree(methodName, es);
      doc.Element? && doc.tag == "methodCall" && |doc.children| == 2 &&
      doc.children[0].Element? && doc.children[0].tag == "methodName" &&
      TextContent(doc.children[0]) == methodName &&
      doc.children[1].Element? && doc.children[1].tag == "params" &&
      |doc.children[1].children| == |es| &&
      forall i :: 0 <= i < |es| ==> IsStructParam(doc.children[1].children[i], es[i].0, es[i].1)
  {
    ParamNodesAt(es);
  }

  lemma {:induction false} ParamNodesAt(es: seq<Entry>)
    ensures |ParamNodes(es)| == |es|
    ensures forall i :: 0 <= i < |es| ==> ParamNodes(es)[i] == ParamNode(es[i])
    ensures forall i :: 0 <= i < |es| ==> IsStructParam(ParamNodes(es)[i], es[i].0, es[i].1)
  {
    if es != [] {
      ParamNodesAt(es[1..]);
      forall i | 0 <= i < |es| ensures ParamNodes(es)[i] == ParamNode(es[i]) {
        if i > 0 { assert ParamNodes(es)[i] == ParamNodes(es[1..])[i - 1]; }
      }
    }
  }

  /** The only member in an encoded param is the member of its struct. */
  lemma {:induction false} ParamNodeMembers(e: Entry)
    ensures ByTag(ParamNode(e), "params", "member") == [Item("struct", MemberNode(e))]
  {
    var str := WithText("string", e.1);
    var name := WithText("name", e.0);
    var memberValue := Element("value", [str]);
    var member := MemberNode(e);
    var struct := Element("struct", [member]);
    var value := Element("value", [struct]);
    ByTagAllOne(str, "value", "member");
    assert ByTag(memberValue, "member", "member") == [];
    ByTagAllTwo(name, memberValue, "member", "member");
    assert ByTag(member, "struct", "member") == [Item("struct", member)];
    ByTagAllOne(member, "struct", "member");
    ByTagAllOne(struct, "value", "member");
    ByTagAllOne(value, "param", "member");
  }

  /** An encoded param holds no element whose tag is not one of the tags the encoder writes. */
  lemma {:induction false} ParamNodeOtherTag(e: Entry, tag: string)
    requires tag !in {"param", "value", "struct", "member", "name", "string"}
    ensures ByTag(ParamNode(e), "params", tag) == []
  {
    var str := WithText("string", e.1);
    var name := WithText("name", e.0);
    var memberValue := Element("value", [str]);
    var member := MemberNode(e);
    var struct := Element("struct", [member]);
    var value := Element("value", [struct]);
    ByTagAllOne(str, "value", tag);
    ByTagAllTwo(name, memberValue, "member", tag);
    ByTagAllOne(member, "struct", tag);
    ByTagAllOne(struct, "value", tag);
    ByTagAllOne(value, "param", tag);
  }

  /** The members of the encoded params, in order: one per entry, below its struct. */
  lemma {:induction false} ParamNodesMembers(es: seq<Entry>)
    ensures var r := ByTagAll(ParamNodes(es), "params", "member");
      |r| == |es| && forall i :: 0 <= i < |es| ==> r[i] == Item("struct", MemberNode(es[i]))
  {
    if es != [] {
      ParamNodeMembers(es[0]);
      ParamNodesMembers(es[1..]);
      var r := ByTagAll(ParamNodes(es), "params", "member");
      assert r == [Item("struct", MemberNode(es[0]))] + ByTagAll(ParamNodes(es[1..]), "params", "member");
    }
  }

  /** No element with a tag the encoder does not write inside the encoded params. */
  lemma {:induction false} ParamNodesOtherTag(es: seq<Entry>, tag: string)
    requires tag !in {"param", "value", "struct", "member", "name", "string"}
    ensures ByTagAll(ParamNodes(es), "params", tag) == []
  {
    if es != [] {
      ParamNodeOtherTag(es[0], tag);
      ParamNodesOtherTag(es[1..], tag);
    }
  }

  /** The raw decoder reads back the entry of an encoded member. */
  lemma {:induction false} MemberNodeEntry(e: Entry)
    ensures RawEntry(MemberNode(e)) == Ok(Some(e))
  {
    var name := WithText("name", e.0);
    var str := WithText("string", e.1);
    var memberValue := Element("value", [str]);
    ByTagAllTwo(name, memberValue, "member", "name");
    ByTagAllOne(str, "value", "name");
    assert ElementsByTagName(MemberNode(e), "name") == [Item("member", name)];
    ByTagAllTwo(name, memberValue, "member", "value");
    ByTagAllOne(str, "value", "value");
    assert ElementsByTagName(MemberNode(e), "value") == [Item("member", memberValue)];
    assert FirstElementChild(Children(memberValue)) == Some(0);
  }

  /** The encoded document has one methodName element: the one the encoder wrote. */
  lemma {:induction false} EncodedMethodName(methodName: string, es: seq<Entry>)
    ensures DocumentElementsByTagName(RequestTree(methodName, es), "methodName") ==
      [Item("methodCall", WithText("methodName", methodName))]
  {
    var mn := WithText("methodName", methodName);
    ParamNodesOtherTag(es, "methodName");
    ByTagAllTwo(mn, Element("params", ParamNodes(es)), "methodCall", "methodName");
  }

  /** The members of the encoded document are those of its params. */
  lemma {:induction false} EncodedMembers(methodName: string, es: seq<Entry>)
    ensures DocumentElementsByTagName(RequestTree(methodName, es), "member") ==
      ByTagAll(ParamNodes(es), "params", "member")
  {
    ByTagAllTwo(WithText("methodName", methodName), Element("params", ParamNodes(es)), "methodCall", "member");
  }

  /** Members that each put an entry never make the put loop fail. */
  lemma {:induction false} FoldAddsOk(outcomes: seq<Outcome>, es: seq<Entry>)
    requires |outcomes| == |es|
    requires forall i :: 0 <= i < |outcomes| ==> outcomes[i] == Ok(Some(es[i]))
    ensures Fold(map[], outcomes).Ok?
  {
    FoldFails(map[], outcomes);
    assert forall i :: 0 <= i < |outcomes| ==> outcomes[i].Ok?;
  }

  /** Every entry of `params` that an enumeration `es` lists survives the put loop. */
  lemma {:induction false} FoldEntrySetHas(outcomes: seq<Outcome>, es: seq<Entry>, params: map<string, string>, k: string)
    requires EntrySet(es, params)
    requires |outcomes| == |es|
    requires forall i :: 0 <= i < |outcomes| ==> outcomes[i] == Ok(Some(es[i]))
    requires Fold(map[], outcomes).Ok?
    requires k in params
    ensures k in Fold(map[], outcomes).value
    ensures Fold(map[], outcomes).value[k] == params[k]
  {
    var i :| 0 <= i < |es| && es[i].0 == k;
    forall j | i < j ensures !Adds(outcomes, j, k) {
      if j < |outcomes| {
        assert outcomes[j] == Ok(Some(es[j]));
      }
    }
    FoldLastWins(map[], outcomes, i, es[i]);
  }

  /** Members that put, in order, the entries of an enumeration `es` of `params` rebuild
      exactly `params`. */
  lemma {:induction false} FoldEntrySet(outcomes: seq<Outcome>, es: seq<Entry>, params: map<string, string>)
    requires EntrySet(es, params)
    requires |outcomes| == |es|
    requires forall i :: 0 <= i < |outcomes| ==> outcomes[i] == Ok(Some(es[i]))
    ensures Fold(map[], outcomes) == Ok(params)
  {
    FoldAddsOk(outcomes, es);
    var result := Fold(map[], outcomes).value;
    FoldKeys(map[], outcomes);
    forall k | k in params ensures k in result && result[k] == params[k] {
      FoldEntrySetHas(outcomes, es, params, k);
    }
    forall k | k in result ensures k in params {
      var i :| Adds(outcomes, i, k);
      assert outcomes[i] == Ok(Some(es[i]));
    }
    assert result == params;
  }

  /** Round trip: the raw request decoder reads back, from the tree the encoder builds,
      the method name and exactly the map of parameters it was given. */
  lemma {:induction false} RoundTrip(methodName: string, params: map<string, string>, es: seq<Entry>)
    requires EntrySet(es, params)
    ensures DecodeRawRequest(RequestTree(methodName, es)) == Ok(RawRequest(methodName, params))
  {
    var doc := RequestTree(methodName, es);
    EncodedMethodName(methodName, es);
    EncodedMembers(methodName, es);
    ParamNodesMembers(es);
    var outcomes := Outcomes(DocumentElementsByTagName(doc, "member"), RawReader);
    OutcomesAll(DocumentElementsByTagName(doc, "member"), RawReader);
    forall i | 0 <= i < |outcomes| ensures outcomes[i] == Ok(Some(es[i])) {
      MemberNodeEntry(es[i]);
    }
    FoldEntrySet(outcomes, es, params);
  }

  /** Encoding then decoding, as the two methods run: the method name and the parameters
      come back unchanged. */
  method EncodeThenDecode(methodName: string, params: map<string, string>) returns (r: Result<RawRequest>)
    ensures r == Ok(RawRequest(methodName, params))
  {
    var doc := CreateXmlRpcRequest(methodName, params);
    ghost var es :| EntrySet(es, params) && doc == RequestTree(methodName, es);
    RoundTrip(methodName, params, es);
    r := ParseRawXmlRpcRequest(doc);
  }
}
