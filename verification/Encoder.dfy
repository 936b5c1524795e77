/** The encoder object (binary/encoder.go) writes exactly what the wire format allows. */
module Encoders {
  import opened Bytes
  import opened Tokens
  import opened Jids
  import opened BinaryXml
  import WireFormat

  // The loops of the encoder append at the end, while the format is defined from the front.

  lemma WritesNodesFirst(ix: Index, ns: seq<Node>, first: Bytes, rest: Bytes)
    requires ns != [] && WritesNode(ix, ns[0], first) && WritesNodes(ix, ns[1..], rest)
    ensures WritesNodes(ix, ns, first + rest)
  {
    hide WritesNode;
  }

  lemma {:induction false} WritesNodesAppend(ix: Index, ns: seq<Node>, b: Bytes, n: Node, last: Bytes)
    requires WritesNodes(ix, ns, b) && WritesNode(ix, n, last)
    ensures WritesNodes(ix, ns + [n], b + last)
  {
    hide WritesNode;
    if ns == [] {
      assert ns + [n] == [n] && b + last == last + [];
      assert WritesNodes(ix, [n][1..], []);
    } else {
      var first, rest :|
        WritesNode(ix, ns[0], first) && WritesNodes(ix, ns[1..], rest) && b == first + rest;
      WritesNodesAppend(ix, ns[1..], rest, n, last);
      HeadOfConcat(ns, [n]);
      Associative(first, rest, last);
      WritesNodesFirst(ix, ns + [n], first, rest + last);
    }
  }

  lemma WritesAttrsFirst(ix: Index, n: Node, keys: set<Bytes>, k: Bytes, value: Bytes, rest: Bytes, b: Bytes)
    requires keys <= n.attrs.Keys && k in keys
    requires WritesValue(ix, n.attrs[k], value) && WritesAttrs(ix, n, keys - {k}, rest)
    requires b == EncodeString(ix, k) + value + rest
    ensures WritesAttrs(ix, n, keys, b)
  {
    hide WritesValue, EncodeString;
  }

  lemma Reassociate(a: Bytes, b: Bytes, c: Bytes, e: Bytes, f: Bytes)
    ensures a + b + c + e + f == a + b + (c + e + f)
  {
  }

  lemma {:induction false} WritesAttrsAppend(ix: Index, n: Node, keys: set<Bytes>, b: Bytes, k: Bytes, value: Bytes)
    requires keys <= n.attrs.Keys && k in n.attrs.Keys && k !in keys
    requires WritesAttrs(ix, n, keys, b) && WritesValue(ix, n.attrs[k], value)
    ensures WritesAttrs(ix, n, keys + {k}, b + EncodeString(ix, k) + value)
    decreases |keys|
  {
    hide WritesValue, EncodeString;
    var key := EncodeString(ix, k);
    if keys == {} {
      assert keys + {k} - {k} == {};
      WritesAttrsFirst(ix, n, keys + {k}, k, value, [], b + key + value);
    } else {
      var k0, v0, rest :|
        && k0 in keys && WritesValue(ix, n.attrs[k0], v0) && WritesAttrs(ix, n, keys - {k0}, rest)
        && b == EncodeString(ix, k0) + v0 + rest;
      hide WritesAttrs;
      WritesAttrsAppend(ix, n, keys - {k0}, rest, k, value);
      assert keys + {k} - {k0} == keys - {k0} + {k};
      Reassociate(EncodeString(ix, k0), v0, rest, key, value);
      WritesAttrsFirst(ix, n, keys + {k}, k0, v0, rest + key + value, b + key + value);
    }
  }

  /** `b` was appended. */
  ghost predicate Appended(before: Bytes, b: Bytes, after: Bytes) {
    after == before + b
  }

  lemma AppendedTail(before: Bytes, b: Bytes, after: Bytes)
    requires Appended(before, b, after)
    ensures |before| <= |after| && after[|before|..] == b
  {
  }

  lemma Append2(d0: Bytes, a: Bytes, d1: Bytes, b: Bytes, d2: Bytes)
    requires Appended(d0, a, d1) && Appended(d1, b, d2)
    ensures Appended(d0, a + b, d2)
  {
  }

  lemma AppendNothing(ix: Index, n: Node, d: Bytes)
    ensures Appended(d, [], d) && WritesAttrs(ix, n, {}, []) && WritesNodes(ix, [], [])
  {
  }

  lemma PackPairsStep(hex: bool, s: Bytes, i: nat)
    requires Packable(hex, s) && i + 2 <= |s|
    ensures PackPairs(hex, s[i..]) == [16 * Pack(hex, s[i]) + Pack(hex, s[i + 1])] + PackPairs(hex, s[i + 2..])
  {
    assert s[i..][2..] == s[i + 2..];
  }

  lemma PackPairsEnd(hex: bool, s: Bytes)
    requires Packable(hex, s)
    ensures if |s| % 2 == 0 then PackPairs(hex, s[2 * (|s| / 2)..]) == []
            else PackPairs(hex, s[2 * (|s| / 2)..]) == [16 * Pack(hex, s[|s| - 1]) + Pack(hex, 0)]
    ensures PackPairs(hex, s[0..]) == PackPairs(hex, s)
  {
    assert s[0..] == s;
    assert |s| % 2 == 1 ==> s[2 * (|s| / 2)..] == [s[|s| - 1]];
  }

  class Encoder {
    const index: Index
    var data: Bytes

    constructor (index: Index)
      ensures this.index == index && data == [0]
    {
      this.index := index;
      data := [0];
    }

    method PushByte(b: Byte)
      modifies this
      ensures Appended(old(data), [b], data)
    {
      data := data + [b];
    }

    method PushBytes(bytes: Bytes)
      modifies this
      ensures Appended(old(data), bytes, data)
    {
      data := data + bytes;
    }

    method PushIntN(value: nat, n: nat)
      modifies this
      ensures Appended(old(data), BigEndian(value, n), data)
    {
      var i := 0;
      while i < n
        invariant 0 <= i <= n
        invariant data == old(data) + BigEndian(ShiftRight(value, n - i), i)
      {
        PushByte(ShiftRight(value, n - i - 1) % 256);
        i := i + 1;
      }
    }

    method PushInt20(value: nat)
      modifies this
      ensures Appended(old(data), [value / 0x1_0000 % 16, value / 256 % 256, value % 256], data)
    {
      PushBytes([value / 0x1_0000 % 16, value / 256 % 256, value % 256]);
    }

    method WriteByteLength(length: nat)
      requires length < MAX_INT32
      modifies this
      ensures Appended(old(data), EncodeLength(length), data)
    {
      if length < 256 {
        PushByte(BINARY_8);
        PushIntN(length, 1);
      } else if length < 0x10_0000 {
        PushByte(BINARY_20);
        PushInt20(length);
      } else {
        PushByte(BINARY_32);
        PushIntN(length, 4);
      }
    }

    method WriteListStart(listSize: nat)
      modifies this
      ensures Appended(old(data), EncodeListStart(listSize), data)
    {
      if listSize == 0 {
        PushByte(LIST_EMPTY);
      } else if listSize < 256 {
        PushByte(LIST_8);
        PushIntN(listSize, 1);
      } else {
        PushByte(LIST_16);
        PushIntN(listSize, 2);
      }
    }

    method WriteBytes(value: Bytes)
      requires FitsText(value)
      modifies this
      ensures Appended(old(data), EncodeLength(|value|) + value, data)
    {
      WriteByteLength(|value|);
      PushBytes(value);
    }

    method WritePackedBytes(value: Bytes, hex: bool)
      requires Packable(hex, value)
      modifies this
      ensures Appended(old(data), EncodePacked(hex, value), data)
    {
      hide PackPairs, PackHex, PackNibble;
      PushByte(PackedTag(hex));
      PushByte((|value| + 1) / 2 + if |value| % 2 == 1 then 128 else 0);
      ghost var header := data;
      var i, l := 0, |value| / 2;
      while i < l
        invariant 0 <= i <= l
        invariant data + PackPairs(hex, value[2 * i..]) == header + PackPairs(hex, value)
      {
        PackPairsStep(hex, value, 2 * i);
        PushByte(16 * Pack(hex, value[2 * i]) + Pack(hex, value[2 * i + 1]));
        i := i + 1;
      }
      PackPairsEnd(hex, value);
      if |value| % 2 != 0 {
        PushByte(16 * Pack(hex, value[|value| - 1]) + Pack(hex, 0));
      }
      assert data == header + PackPairs(hex, value);
    }

    method WriteString(value: Bytes)
      requires FitsText(value)
      modifies this
      ensures Appended(old(data), EncodeString(index, value), data)
      ensures |old(data)| <= |data| && WireFormat.StringBytes(index, value, data[|old(data)|..])
    {
      if value in index.single {
        PushByte(index.single[value]);
      } else if value in index.double {
        PushByte((DICTIONARY_0 + index.double[value].0) % 256);
        PushByte(index.double[value].1);
      } else if ValidateNibble(value) {
        WritePackedBytes(value, false);
      } else if ValidateHex(value) {
        WritePackedBytes(value, true);
      } else {
        WriteBytes(value);
      }
      hide EncodeString, WireFormat.StringBytes;
      AppendedTail(old(data), EncodeString(index, value), data);
      WireFormat.StringForm(index, value);
    }

    method WriteJID(jid: JID)
      requires FitsText(jid.user) && FitsText(jid.server)
      modifies this
      ensures Appended(old(data), EncodeJid(index, jid), data)
      ensures |old(data)| <= |data| && WireFormat.JidBytes(index, jid, data[|old(data)|..])
    {
      hide EncodeString, FitsText, BigEndian, Appended, WireFormat.JidBytes, WireFormat.StringBytes;
      ghost var d0 := data;
      if IsADJid(jid) {
        PushByte(AD_JID);
        ghost var d1 := data;
        PushByte(jid.ActualAgent());
        Append2(d0, [AD_JID], d1, [jid.ActualAgent()], data);
        ghost var d2 := data;
        PushByte(jid.device % 256);
        Append2(d0, [AD_JID] + [jid.ActualAgent()], d2, [jid.device % 256], data);
        assert [AD_JID] + [jid.ActualAgent()] + [jid.device % 256] == [AD_JID, jid.ActualAgent(), jid.device % 256];
        ghost var d3 := data;
        WriteString(jid.user);
        Append2(d0, [AD_JID, jid.ActualAgent(), jid.device % 256], d3, EncodeString(index, jid.user), data);
      } else if jid.server == MESSENGER_SERVER {
        PushByte(FB_JID);
        ghost var d1 := data;
        WriteString(jid.user);
        ghost var d2, user := data, [FB_JID] + EncodeString(index, jid.user);
        Append2(d0, [FB_JID], d1, EncodeString(index, jid.user), d2);
        PushIntN(jid.device, 2);
        ghost var d3 := data;
        Append2(d0, user, d2, BigEndian(jid.device, 2), d3);
        WriteString(jid.server);
        Append2(d0, user + BigEndian(jid.device, 2), d3, EncodeString(index, jid.server), data);
      } else if jid.server == INTEROP_SERVER {
        PushByte(INTEROP_JID);
        ghost var d1 := data;
        WriteString(jid.user);
        ghost var d2, user := data, [INTEROP_JID] + EncodeString(index, jid.user);
        Append2(d0, [INTEROP_JID], d1, EncodeString(index, jid.user), d2);
        PushIntN(jid.device, 2);
        ghost var d3 := data;
        Append2(d0, user, d2, BigEndian(jid.device, 2), d3);
        PushIntN(jid.integrator, 2);
        ghost var d4 := data;
        Append2(d0, user + BigEndian(jid.device, 2), d3, BigEndian(jid.integrator, 2), d4);
        WriteString(jid.server);
        Append2(d0, user + BigEndian(jid.device, 2) + BigEndian(jid.integrator, 2), d4,
                EncodeString(index, jid.server), data);
      } else {
        PushByte(JID_PAIR);
        ghost var d1 := data;
        if |jid.user| == 0 {
          PushByte(LIST_EMPTY);
        } else {
          WriteString(jid.user);
        }
        ghost var d2 := data;
        Append2(d0, [JID_PAIR], d1, EncodeJidUser(index, jid.user), d2);
        WriteString(jid.server);
        Append2(d0, [JID_PAIR] + EncodeJidUser(index, jid.user), d2, EncodeString(index, jid.server), data);
      }
      hide EncodeJid;
      AppendedTail(d0, EncodeJid(index, jid), data);
      WireFormat.JidForm(index, jid);
    }

    /** Go visits the map in an order of its own choosing: any order is allowed here. */
    method WriteAttributes(n: Node) returns (ghost b: Bytes)
      requires FitsNode(n) && n.tag != ZERO_TAG
      modifies this
      ensures Appended(old(data), b, data) && WritesAttrs(index, n, KeptKeys(n.attrs), b)
      decreases n, 1
    {
      hide EncodeString, Fits, FitsText, Kept, WritesValue, WritesAttrs, Appended;
      var todo := n.attrs.Keys;
      ghost var done: set<Bytes> := {};
      b := [];
      AppendNothing(index, n, data);
      while todo != {}
        invariant todo !! done && done <= KeptKeys(n.attrs) <= todo + done <= n.attrs.Keys
        invariant Appended(old(data), b, data) && WritesAttrs(index, n, done, b)
        decreases |todo|
      {
        var key :| key in todo;
        var value := n.attrs[key];
        todo := todo - {key};
        if Kept(value) {
          ghost var d1 := data;
          WriteString(key);
          ghost var d2 := data;
          Append2(old(data), b, d1, EncodeString(index, key), d2);
          ghost var bv := Write(value);
          Append2(old(data), b + EncodeString(index, key), d2, bv, data);
          WritesAttrsAppend(index, n, done, b, key, bv);
          b := b + EncodeString(index, key) + bv;
          done := done + {key};
        }
      }
      assert done == KeptKeys(n.attrs);
    }

    method CountAttributes(attrs: map<Bytes, Value>) returns (count: nat)
      ensures count == |KeptKeys(attrs)|
    {
      var todo := attrs.Keys;
      ghost var done: set<Bytes> := {};
      count := 0;
      while todo != {}
        invariant todo !! done && done <= KeptKeys(attrs) <= todo + done <= attrs.Keys
        invariant count == |done|
        decreases |todo|
      {
        var key :| key in todo;
        todo := todo - {key};
        if Kept(attrs[key]) {
          count := count + 1;
          done := done + {key};
        }
      }
      assert done == KeptKeys(attrs);
    }

    method Write(v: Value) returns (ghost b: Bytes)
      requires Fits(v)
      modifies this
      ensures Appended(old(data), b, data) && WritesValue(index, v, b)
      decreases v, 0
    {
      match v
      case Nil =>
        PushByte(LIST_EMPTY);
        b := [LIST_EMPTY];
      case Jid(jid) =>
        WriteJID(jid);
        b := EncodeJid(index, jid);
      case Str(text) =>
        WriteString(text);
        b := EncodeString(index, text);
      case Num(n) =>
        WriteString(Decimal.Itoa(n));
        b := EncodeString(index, Decimal.Itoa(n));
      case Bool(p) =>
        WriteString(BoolText(p));
        b := EncodeString(index, BoolText(p));
      case Blob(bytes) =>
        WriteBytes(bytes);
        b := EncodeLength(|bytes|) + bytes;
      case Nodes(nodes) =>
        ghost var rest := WriteList(nodes);
        b := EncodeListStart(|nodes|) + rest;
    }

    /** The `[]Node` case of `write`. */
    method WriteList(nodes: seq<Node>) returns (ghost rest: Bytes)
      requires FitsNodes(nodes)
      modifies this
      ensures Appended(old(data), EncodeListStart(|nodes|) + rest, data) && WritesNodes(index, nodes, rest)
      decreases nodes, 0
    {
      hide EncodeListStart, FitsNodes, FitsNode, WritesNodes, WritesNode;
      WriteListStart(|nodes|);
      rest := [];
      AppendNothing(index, Node([], map[], Nil), data);
      for i := 0 to |nodes|
        invariant Appended(old(data), EncodeListStart(|nodes|) + rest, data)
        invariant WritesNodes(index, nodes[..i], rest)
      {
        FitsNodesAt(nodes, i);
        ghost var d1 := data;
        ghost var b := WriteNode(nodes[i]);
        assert Appended(old(data), EncodeListStart(|nodes|) + (rest + b), data) by {
          assert d1 + b == old(data) + (EncodeListStart(|nodes|) + (rest + b));
        }
        WritesNodesAppend(index, nodes[..i], rest, nodes[i], b);
        assert nodes[..i + 1] == nodes[..i] + [nodes[i]];
        rest := rest + b;
      }
      assert nodes[..|nodes|] == nodes;
    }

    method WriteNode(n: Node) returns (ghost b: Bytes)
      requires FitsNode(n)
      modifies this
      ensures Appended(old(data), b, data) && WritesNode(index, n, b)
      decreases n, 2
    {
      hide EncodeListStart, EncodeString, FitsText, Fits, WritesNode, WritesAttrs, WritesValue;
      if n.tag == ZERO_TAG {
        PushByte(LIST_8);
        PushByte(LIST_EMPTY);
        b := [LIST_8, LIST_EMPTY];
        WritesZero(index, n);
        return;
      }
      var hasContent := if n.content != Nil then 1 else 0;
      var count := CountAttributes(n.attrs);
      ghost var d0 := data;
      WriteListStart(2 * count + 1 + hasContent);
      ghost var d1, start := data, EncodeListStart(ListSize(n));
      WriteString(n.tag);
      ghost var d2, tag := data, EncodeString(index, n.tag);
      ghost var attrs := WriteAttributes(n);
      ghost var d3 := data;
      ghost var content := [];
      if n.content != Nil {
        content := Write(n.content);
      }
      b := start + tag + attrs + content;
      Append4(d0, start, d1, tag, d2, attrs, d3, content, data);
      WritesNodeParts(index, n, attrs, content);
    }
  }

  lemma Append4(d0: Bytes, a: Bytes, d1: Bytes, b: Bytes, d2: Bytes, c: Bytes, d3: Bytes, e: Bytes, d4: Bytes)
    requires Appended(d0, a, d1) && Appended(d1, b, d2) && Appended(d2, c, d3) && Appended(d3, e, d4)
    ensures Appended(d0, a + b + c + e, d4)
  {
    hide Appended;
    Append2(d0, a, d1, b, d2);
    Append2(d0, a + b, d2, c, d3);
    Append2(d0, a + b + c, d3, e, d4);
  }

  lemma WritesZero(ix: Index, n: Node)
    requires n.tag == ZERO_TAG
    ensures WritesNode(ix, n, [LIST_8, LIST_EMPTY])
  {
  }

  lemma WritesNodeParts(ix: Index, n: Node, attrs: Bytes, content: Bytes)
    requires n.tag != ZERO_TAG && WritesAttrs(ix, n, KeptKeys(n.attrs), attrs) && WritesContent(ix, n, content)
    ensures WritesNode(ix, n, EncodeListStart(ListSize(n)) + EncodeString(ix, n.tag) + attrs + content)
  {
    hide WritesAttrs, WritesContent, EncodeString, EncodeListStart, ListSize;
  }

  lemma {:induction false} FitsNodesAt(ns: seq<Node>, i: nat)
    requires FitsNodes(ns) && i < |ns|
    ensures FitsNode(ns[i])
  {
    if i > 0 {
      FitsNodesAt(ns[1..], i - 1);
    }
  }
}
