/** Trees outside the decoder's domain: wherever in a tree the bad tag or the long list is, it does not come back. */
module ImproperTrees {
  import opened Bytes
  import opened Tokens
  import opened BinaryXml
  import opened RoundTrip

  /** What is read is not the tree's normal form: an error, or something else. */
  predicate ReadsOther<T(==)>(r: Parse<T>, expected: T) {
    r.Ok? ==> r.value != expected
  }

  // ---- Attributes ----

  /** Reading attributes adds at most `count` names; if it adds that many, no name was read twice, and what was there
      before is still there. */
  lemma {:induction false} ReadAttrsGrow(t: Tables, d: Bytes, i: nat, count: nat, attrs: map<Bytes, Value>)
    requires i <= |d| && ReadAttrs(t, d, i, count, attrs).Ok?
    ensures var r := ReadAttrs(t, d, i, count, attrs).value;
            && |r| <= |attrs| + count
            && (|r| == |attrs| + count ==> forall k :: k in attrs ==> k in r && r[k] == attrs[k])
    decreases count
  {
    hide Read;
    if count > 0 {
      var (key, j) := Read(t, d, i, true).Extract();
      var (value, k) := Read(t, d, j, true).Extract();
      ReadAttrsGrow(t, d, k, count - 1, attrs[key.text := value]);
      MapGrows(attrs, key.text, value);
    }
  }

  lemma MapGrows(attrs: map<Bytes, Value>, k: Bytes, v: Value)
    ensures |attrs[k := v]| == |attrs| + if k in attrs then 0 else 1
  {
    if k in attrs {
      assert attrs[k := v].Keys == attrs.Keys;
    } else {
      assert attrs[k := v].Keys == attrs.Keys + {k};
    }
    assert |attrs[k := v].Keys| == |attrs[k := v]| && |attrs.Keys| == |attrs|;
  }

  lemma NormAttrsSize(ix: Index, n: Node, keys: set<Bytes>, attrs: map<Bytes, Value>)
    requires keys <= n.attrs.Keys && keys !! attrs.Keys
    ensures |attrs + NormAttrs(ix, n, keys)| == |attrs| + |keys|
  {
    hide Norm;
    assert (attrs + NormAttrs(ix, n, keys)).Keys == attrs.Keys + keys;
  }

  /** The attribute `k` has been misread as `v`: whatever follows, it stays wrong or another one gets lost. */
  lemma MisreadAttr(t: Tables, ix: Index, n: Node, keys: set<Bytes>, d: Bytes, i: nat, attrs: map<Bytes, Value>,
                    k: Bytes, j: nat, v: Value, l: nat)
    requires keys <= n.attrs.Keys && keys !! attrs.Keys && k in keys && i <= |d|
    requires Read(t, d, i, true) == Ok(Str(k), j) && Read(t, d, j, true) == Ok(v, l)
    requires v != Norm(ix, n.attrs[k], true)
    ensures ReadsOther(ReadAttrs(t, d, i, |keys|, attrs), attrs + NormAttrs(ix, n, keys))
  {
    hide Read, ReadAttrs, Norm;
    assert |keys| == |keys - {k}| + 1;
    ReadAttrsStep(t, d, i, |keys - {k}|, attrs, k, j, v, l);
    var r := ReadAttrs(t, d, l, |keys - {k}|, attrs[k := v]);
    if r.Ok? {
      ReadAttrsGrow(t, d, l, |keys - {k}|, attrs[k := v]);
      MapGrows(attrs, k, v);
      NormAttrsSize(ix, n, keys, attrs);
    }
  }

  predicate FitsAttrs(n: Node) {
    forall k :: k in n.attrs ==> FitsText(k) && Fits(n.attrs[k])
  }

  lemma GoodAttrStep(t: Tables, ix: Index, n: Node, keys: set<Bytes>, d: Bytes, i: nat, attrs: map<Bytes, Value>,
                     k: Bytes, j: nat, l: nat)
    requires keys <= n.attrs.Keys && k in keys && i <= |d|
    requires Read(t, d, i, true) == Ok(Str(k), j) && Read(t, d, j, true) == Ok(Norm(ix, n.attrs[k], true), l)
    requires var attrs' := attrs[k := Norm(ix, n.attrs[k], true)];
             ReadsOther(ReadAttrs(t, d, l, |keys - {k}|, attrs'), attrs' + NormAttrs(ix, n, keys - {k}))
    ensures ReadsOther(ReadAttrs(t, d, i, |keys|, attrs), attrs + NormAttrs(ix, n, keys))
  {
    hide Read, ReadAttrs, Norm, NormAttrs;
    assert |keys| == |keys - {k}| + 1;
    ReadAttrsStep(t, d, i, |keys - {k}|, attrs, k, j, Norm(ix, n.attrs[k], true), l);
    NormAttrsStep(ix, n, keys, k, attrs);
  }

  lemma ValueFails(t: Tables, n: Node, keys: set<Bytes>, d: Bytes, i: nat, attrs: map<Bytes, Value>, k: Bytes, j: nat)
    requires keys <= n.attrs.Keys && k in keys && i <= |d|
    requires Read(t, d, i, true) == Ok(Str(k), j) && Read(t, d, j, true).Err?
    ensures ReadAttrs(t, d, i, |keys|, attrs).Err?
  {
    hide Read;
    assert |keys| == |keys - {k}| + 1;
  }

  lemma AfterGoodAttr(t: Tables, ix: Index, n: Node, keys: set<Bytes>, d: Bytes, i: nat, attrs: map<Bytes, Value>,
                      k: Bytes, j: nat, value: Bytes, rest: Bytes)
    requires ValidTables(t, ix) && FitsAttrs(n) && keys <= n.attrs.Keys && keys !! attrs.Keys && k in keys
    requires Proper(n.attrs[k]) && exists bad :: bad in keys && !Proper(n.attrs[bad])
    requires WritesValue(ix, n.attrs[k], value) && WritesAttrs(ix, n, keys - {k}, rest)
    requires i <= |d| && Read(t, d, i, true) == Ok(Str(k), j) && At(d, j, value) && At(d, j + |value|, rest)
    ensures ReadsOther(ReadAttrs(t, d, i, |keys|, attrs), attrs + NormAttrs(ix, n, keys))
    decreases n, 1, |keys|, 0
  {
    hide At, Read, ReadAttrs, Norm, NormAttrs, Fits, FitsText, Proper, ValidTables, WritesValue, WritesAttrs,
      ReadsOther;
    var bad :| bad in keys && !Proper(n.attrs[bad]);
    assert bad in keys - {k};
    ValueRoundTrip(t, ix, n.attrs[k], value, d, j, true);
    AttrsGoWrong(t, ix, n, keys - {k}, rest, d, j + |value|, attrs[k := Norm(ix, n.attrs[k], true)]);
    GoodAttrStep(t, ix, n, keys, d, i, attrs, k, j, j + |value|);
  }

  lemma AttrsStepGoesWrong(t: Tables, ix: Index, n: Node, keys: set<Bytes>, d: Bytes, i: nat, attrs: map<Bytes, Value>,
                           k: Bytes, value: Bytes, rest: Bytes)
    requires ValidTables(t, ix) && FitsAttrs(n) && keys <= n.attrs.Keys && keys !! attrs.Keys && k in keys
    requires exists bad :: bad in keys && !Proper(n.attrs[bad])
    requires WritesValue(ix, n.attrs[k], value) && WritesAttrs(ix, n, keys - {k}, rest)
    requires At(d, i, EncodeString(ix, k) + value + rest)
    ensures ReadsOther(ReadAttrs(t, d, i, |keys|, attrs), attrs + NormAttrs(ix, n, keys))
    decreases n, 1, |keys|, 1
  {
    hide At, Read, ReadAttrs, EncodeString, Norm, NormAttrs, Fits, FitsText, Proper, ValidTables, WritesValue,
      WritesAttrs, ReadsOther;
    var j := i + |EncodeString(ix, k)|;
    AtSplit3(d, i, EncodeString(ix, k), value, rest);
    StringRoundTrip(t, ix, k, d, i, true);
    if Proper(n.attrs[k]) {
      AfterGoodAttr(t, ix, n, keys, d, i, attrs, k, j, value, rest);
    } else {
      ValueGoesWrong(t, ix, n.attrs[k], value, d, j, true);
      BadAttrStep(t, ix, n, keys, d, i, attrs, k, j);
    }
  }

  lemma BadAttrStep(t: Tables, ix: Index, n: Node, keys: set<Bytes>, d: Bytes, i: nat, attrs: map<Bytes, Value>,
                    k: Bytes, j: nat)
    requires keys <= n.attrs.Keys && keys !! attrs.Keys && k in keys && i <= |d|
    requires Read(t, d, i, true) == Ok(Str(k), j)
    requires ReadsOther(Read(t, d, j, true), Norm(ix, n.attrs[k], true))
    ensures ReadsOther(ReadAttrs(t, d, i, |keys|, attrs), attrs + NormAttrs(ix, n, keys))
  {
    hide Read, ReadAttrs, Norm, NormAttrs;
    match Read(t, d, j, true)
    case Err(_) => ValueFails(t, n, keys, d, i, attrs, k, j);
    case Ok(v, l) => MisreadAttr(t, ix, n, keys, d, i, attrs, k, j, v, l);
  }

  lemma {:induction false} AttrsGoWrong(
      t: Tables, ix: Index, n: Node, keys: set<Bytes>, b: Bytes, d: Bytes, i: nat, attrs: map<Bytes, Value>)
    requires ValidTables(t, ix) && FitsAttrs(n) && keys <= n.attrs.Keys && keys !! attrs.Keys
    requires exists k :: k in keys && !Proper(n.attrs[k])
    requires WritesAttrs(ix, n, keys, b) && At(d, i, b)
    ensures ReadsOther(ReadAttrs(t, d, i, |keys|, attrs), attrs + NormAttrs(ix, n, keys))
    decreases n, 1, |keys|, 2
  {
    hide At, ReadAttrs, EncodeString, NormAttrs, FitsAttrs, ValidTables, WritesValue, Proper, ReadsOther;
    assert keys != {};
    var k, value, rest :|
      && k in keys && WritesValue(ix, n.attrs[k], value) && WritesAttrs(ix, n, keys - {k}, rest)
      && b == EncodeString(ix, k) + value + rest;
    AttrsStepGoesWrong(t, ix, n, keys, d, i, attrs, k, value, rest);
  }

  // ---- Lists ----

  lemma {:induction false} NormNodesSize(ix: Index, ns: seq<Node>)
    ensures |NormNodes(ix, ns)| == |ns|
  {
    if ns != [] {
      NormNodesSize(ix, ns[1..]);
    }
  }

  lemma {:induction false} NodesGoWrong(t: Tables, ix: Index, ns: seq<Node>, b: Bytes, d: Bytes, i: nat)
    requires ValidTables(t, ix) && FitsNodes(ns) && !ProperNodes(ns) && WritesNodes(ix, ns, b) && At(d, i, b)
    ensures ReadsOther(ReadNodes(t, d, i, |ns|), NormNodes(ix, ns))
    decreases ns, 0
  {
    hide At, ReadNode, NormNode, FitsNode, ProperNode, WritesNode, ValidTables;
    var first, rest :|
      WritesNode(ix, ns[0], first) && WritesNodes(ix, ns[1..], rest) && b == first + rest;
    AtSplit(d, i, first, rest);
    assert forall x: Node, xs: seq<Node> :: ([x] + xs)[0] == x && ([x] + xs)[1..] == xs;
    if ProperNode(ns[0]) {
      NodeRoundTrip(t, ix, ns[0], first, d, i);
      NodesGoWrong(t, ix, ns[1..], rest, d, i + |first|);
    } else {
      NodeGoesWrong(t, ix, ns[0], first, d, i);
    }
  }

  lemma {:induction false} ValueGoesWrong(t: Tables, ix: Index, v: Value, b: Bytes, d: Bytes, i: nat, asString: bool)
    requires ValidTables(t, ix) && Fits(v) && !Proper(v) && WritesValue(ix, v, b) && At(d, i, b)
    ensures ReadsOther(Read(t, d, i, asString), Norm(ix, v, asString))
    decreases v, 0
  {
    hide At, Read, EncodeListStart, ReadListSize, ReadNodes, NormNodes, WritesNodes, FitsNodes, ProperNodes,
      ValidTables;
    var ns := v.nodes;
    var rest :| WritesNodes(ix, ns, rest) && b == EncodeListStart(|ns|) + rest;
    AtSplit(d, i, EncodeListStart(|ns|), rest);
    ListStartRoundTrip(d, i, |ns|);
    assert ns != [] by {
      assert ProperNodes([]) by { EmptyIsProper(); }
    }
    var (size, k) := ReadListSize(d, i + 1, d[i]).Extract();
    ReadListValue(t, d, i, asString, size, k);
    NormNodesSize(ix, ns);
    if |ns| < 0x1_0000 {
      NodesGoWrong(t, ix, ns, rest, d, k);
    }
  }

  lemma EmptyIsProper()
    ensures ProperNodes([])
  {
  }

  // ---- Nodes ----

  lemma ReadNodeFrom(t: Tables, d: Bytes, i: nat, size: nat, k: nat, tag: Bytes, l: nat)
    requires i < |d| && ReadListSize(d, i + 1, d[i]) == Ok(size, k) && Read(t, d, k, true) == Ok(Str(tag), l)
    ensures ReadNode(t, d, i)
         == if size == 0 || tag == [] then Err(InvalidNode)
            else match ReadAttrs(t, d, l, (size - 1) / 2, map[])
              case Err(e) => Err(e)
              case Ok(attrs, m) =>
                if size % 2 == 1 then Ok(Node(tag, attrs, Nil), m)
                else match Read(t, d, m, false)
                  case Err(e) => Err(e)
                  case Ok(content, next) => Ok(Node(tag, attrs, content), next)
  {
    hide Read, ReadAttrs, ReadListSize;
    ReadIntByte(d, i);
  }

  /** Whatever follows it, the header of a "0" node is the header of an empty node. */
  lemma ZeroTagFails(t: Tables, ix: Index, n: Node, b: Bytes, d: Bytes, i: nat)
    requires n.tag == ZERO_TAG && WritesNode(ix, n, b) && At(d, i, b)
    ensures ReadNode(t, d, i).Err?
  {
    hide Read, ReadAttrs;
    AtByte(d, i, b, 0);
    AtByte(d, i, b, 1);
    ReadIntByte(d, i);
    ReadIntByte(d, i + 1);
  }

  /** The attributes of a node of 65536 elements or more do not all come back. */
  lemma LongNodeGoesWrong(t: Tables, ix: Index, n: Node, d: Bytes, i: nat, size: nat, k: nat, l: nat)
    requires i < |d| && ReadListSize(d, i + 1, d[i]) == Ok(size, k) && Read(t, d, k, true) == Ok(Str(n.tag), l)
    requires size == ListSize(n) % 0x1_0000 && size != ListSize(n)
    ensures ReadsOther(ReadNode(t, d, i), NormNode(ix, n))
  {
    hide Read, ReadAttrs, ReadListSize, Norm;
    ReadNodeFrom(t, d, i, size, k, n.tag, l);
    if size > 0 && ReadAttrs(t, d, l, (size - 1) / 2, map[]).Ok? {
      ReadAttrsGrow(t, d, l, (size - 1) / 2, map[]);
      assert NormNode(ix, n).attrs.Keys == KeptKeys(n.attrs);
      assert |NormNode(ix, n).attrs| == |KeptKeys(n.attrs)|;
    }
  }

  lemma ImproperAttr(n: Node, k: Bytes)
    requires k in n.attrs && !Proper(n.attrs[k])
    ensures k in KeptKeys(n.attrs)
  {
  }

  lemma NodeSizes(ix: Index, n: Node)
    ensures KeptKeys(n.attrs) <= n.attrs.Keys
    ensures ListSize(n) > 0 && (ListSize(n) - 1) / 2 == |KeptKeys(n.attrs)|
    ensures ListSize(n) % 2 == 1 <==> n.content == Nil
    ensures map[] + NormAttrs(ix, n, KeptKeys(n.attrs)) == NormNode(ix, n).attrs
    ensures NormNode(ix, n) == Node(n.tag, NormNode(ix, n).attrs, Norm(ix, n.content, false))
  {
    hide Norm;
  }

  /** The tag and the size are in order; an attribute or the content is not. */
  lemma InnerGoesWrong(t: Tables, ix: Index, n: Node, attrs: Bytes, content: Bytes, d: Bytes, i: nat, k: nat, l: nat)
    requires ValidTables(t, ix) && FitsAttrs(n) && Fits(n.content) && n.tag != []
    requires WritesAttrs(ix, n, KeptKeys(n.attrs), attrs) && WritesContent(ix, n, content)
    requires (exists k :: k in n.attrs && !Proper(n.attrs[k])) || !Proper(n.content)
    requires i < |d| && ReadListSize(d, i + 1, d[i]) == Ok(ListSize(n), k) && Read(t, d, k, true) == Ok(Str(n.tag), l)
    requires At(d, l, attrs) && At(d, l + |attrs|, content)
    ensures ReadsOther(ReadNode(t, d, i), NormNode(ix, n))
    decreases n, 2, 0
  {
    hide At, Read, ReadNode, ReadAttrs, ReadListSize, Norm, NormNode, NormAttrs, WritesAttrs, WritesValue, ListSize,
      KeptKeys, ValidTables, Proper, Fits, FitsText;
    NodeSizes(ix, n);
    ReadNodeFrom(t, d, i, ListSize(n), k, n.tag, l);
    if k' :| k' in n.attrs && !Proper(n.attrs[k']) {
      ImproperAttr(n, k');
      AttrsGoWrong(t, ix, n, KeptKeys(n.attrs), attrs, d, l, map[]);
    } else {
      AttrsRoundTrip(t, ix, n, KeptKeys(n.attrs), attrs, d, l, map[]);
      ContentIsWritten(ix, n, content);
      ValueGoesWrong(t, ix, n.content, content, d, l + |attrs|, false);
    }
  }

  lemma ContentIsWritten(ix: Index, n: Node, content: Bytes)
    requires WritesContent(ix, n, content) && !Proper(n.content)
    ensures n.content != Nil && WritesValue(ix, n.content, content)
  {
  }

  lemma PartsGoWrong(t: Tables, ix: Index, n: Node, attrs: Bytes, content: Bytes, b: Bytes, d: Bytes, i: nat)
    requires ValidTables(t, ix) && FitsNode(n) && !ProperNode(n) && n.tag != ZERO_TAG && At(d, i, b)
    requires WritesAttrs(ix, n, KeptKeys(n.attrs), attrs) && WritesContent(ix, n, content)
    requires b == EncodeListStart(ListSize(n)) + EncodeString(ix, n.tag) + attrs + content
    ensures ReadsOther(ReadNode(t, d, i), NormNode(ix, n))
    decreases n, 2, 1
  {
    hide At, Read, ReadNode, ReadListSize, EncodeString, EncodeListStart, ListSize, KeptKeys, ValidTables, NormNode,
      WritesAttrs, WritesContent, Fits, Proper, FitsText;
    var start, tag := EncodeListStart(ListSize(n)), EncodeString(ix, n.tag);
    AtSplit4(d, i, start, tag, attrs, content);
    ListStartRoundTrip(d, i, ListSize(n));
    StringRoundTrip(t, ix, n.tag, d, i + |start|, true);
    var size, k := ListSize(n) % 0x1_0000, i + |start|;
    var l := k + |tag|;
    if n.tag == [] {
      ReadNodeFrom(t, d, i, size, k, n.tag, l);
    } else if size != ListSize(n) {
      LongNodeGoesWrong(t, ix, n, d, i, size, k, l);
    } else {
      InnerGoesWrong(t, ix, n, attrs, content, d, i, k, l);
    }
  }

  /** Wherever it stands and whatever follows it, a node that is not proper is not read back. */
  lemma {:induction false} NodeGoesWrong(t: Tables, ix: Index, n: Node, b: Bytes, d: Bytes, i: nat)
    requires ValidTables(t, ix) && FitsNode(n) && !ProperNode(n) && WritesNode(ix, n, b) && At(d, i, b)
    ensures ReadsOther(ReadNode(t, d, i), NormNode(ix, n))
    decreases n, 3
  {
    if n.tag == ZERO_TAG {
      ZeroTagFails(t, ix, n, b, d, i);
    } else {
      hide At, Read, ReadNode, EncodeString, EncodeListStart, ListSize, KeptKeys, ValidTables, NormNode, WritesAttrs,
        WritesContent, FitsNode, ProperNode;
      var attrs, content :|
        && WritesAttrs(ix, n, KeptKeys(n.attrs), attrs) && WritesContent(ix, n, content)
        && b == EncodeListStart(ListSize(n)) + EncodeString(ix, n.tag) + attrs + content;
      PartsGoWrong(t, ix, n, attrs, content, b, d, i);
    }
  }
}
