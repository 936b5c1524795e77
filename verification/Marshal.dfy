/** Marshalling and unmarshalling whole nodes (binary/node.go, binary/unpack.go). */
module Marshalling {
  import opened Bytes
  import opened Tokens
  import opened BinaryXml
  import opened RoundTrip
  import opened ImproperTrees
  import Encoders
  import Decoders

  /** `b` is a possible result of marshalling `n`: a zero byte, then an encoding of the node. */
  ghost predicate Marshals(ix: Index, n: Node, b: Bytes) {
    exists body :: WritesNode(ix, n, body) && b == [0] + body
  }

  method Marshal(ix: Index, n: Node) returns (b: Bytes)
    requires FitsNode(n)
    ensures Marshals(ix, n, b)
  {
    var w := new Encoders.Encoder(ix);
    ghost var body := w.WriteNode(n);
    b := w.data;
  }

  datatype Unmarshalled = Parsed(node: Node) | Leftover(node: Node, count: nat) | Failed(error: Error)

  function UnmarshalSpec(t: Tables, d: Bytes): Unmarshalled {
    match ReadNode(t, d, 0)
    case Err(e) => Failed(e)
    case Ok(n, next) => if next != |d| then Leftover(n, |d| - next) else Parsed(n)
  }

  method Unmarshal(t: Tables, d: Bytes) returns (r: Unmarshalled)
    ensures r == UnmarshalSpec(t, d)
  {
    var decoder := new Decoders.Decoder(t, d);
    var n := decoder.ReadNode();
    if n.Failure? {
      r := Failed(n.error);
    } else if decoder.index != |d| {
      r := Leftover(n.value, |d| - decoder.index);
    } else {
      r := Parsed(n.value);
    }
  }

  datatype Unpacked = Unpacked(data: Bytes) | BadZlib | NoData

  /** `inflate` stands for zlib. Data without its leading byte makes the program panic. */
  function Unpack(inflate: Bytes -> Unpacked, d: Bytes): Unpacked {
    if d == [] then NoData
    else if d[0] / 2 % 2 == 1 then inflate(d[1..])
    else Unpacked.Unpacked(d[1..])
  }

  /** The second bit of the first byte says that the rest is compressed; the first byte itself is dropped. */
  lemma UnpackByFirstByte(inflate: Bytes -> Unpacked, first: Byte, rest: Bytes)
    ensures Unpack(inflate, [first] + rest) == if first % 4 >= 2 then inflate(rest) else Unpacked.Unpacked(rest)
    ensures Unpack(inflate, []) == NoData
  {
    assert ([first] + rest)[1..] == rest;
  }

  /** Unpacking and unmarshalling whatever was marshalled gives the node back in normal form. */
  lemma MarshalRoundTrip(t: Tables, ix: Index, n: Node, b: Bytes, inflate: Bytes -> Unpacked)
    requires ValidTables(t, ix) && FitsNode(n) && ProperNode(n) && Marshals(ix, n, b)
    ensures Unpack(inflate, b).Unpacked?
    ensures UnmarshalSpec(t, Unpack(inflate, b).data) == Parsed(NormNode(ix, n))
  {
    hide WritesNode, ReadNode, NormNode, ValidTables, FitsNode, ProperNode;
    var body :| WritesNode(ix, n, body) && b == [0] + body;
    assert b[1..] == body;
    assert At(body, 0, body) by {
      assert body[0..|body|] == body;
    }
    NodeRoundTrip(t, ix, n, body, body, 0);
  }

  /** What follows an encoding is not lost sight of: it is counted. */
  lemma LeftoversAreCounted(t: Tables, ix: Index, n: Node, b: Bytes, rest: Bytes)
    requires ValidTables(t, ix) && FitsNode(n) && ProperNode(n) && WritesNode(ix, n, b)
    ensures UnmarshalSpec(t, b + rest)
         == if rest == [] then Parsed(NormNode(ix, n)) else Leftover(NormNode(ix, n), |rest|)
  {
    hide WritesNode, ReadNode, NormNode, ValidTables, FitsNode, ProperNode;
    assert At(b + rest, 0, b) by {
      assert (b + rest)[0..|b|] == b;
    }
    NodeRoundTrip(t, ix, n, b, b + rest, 0);
  }

  /** No byte string encodes two nodes that differ in more than their normal form forgets. */
  lemma EncodingIsUnambiguous(t: Tables, ix: Index, n1: Node, n2: Node, b: Bytes)
    requires ValidTables(t, ix)
    requires FitsNode(n1) && ProperNode(n1) && FitsNode(n2) && ProperNode(n2)
    requires WritesNode(ix, n1, b) && WritesNode(ix, n2, b)
    ensures NormNode(ix, n1) == NormNode(ix, n2)
  {
    hide ReadNode, NormNode, WritesNode, ValidTables, FitsNode, ProperNode;
    assert At(b, 0, b) by {
      assert b[0..|b|] == b;
    }
    NodeRoundTrip(t, ix, n1, b, b, 0);
    NodeRoundTrip(t, ix, n2, b, b, 0);
  }

  /** For every tree that the encoder accepts, in every attribute order: it is read back in normal form exactly when no
      tag in it is empty or "0" and no list in it has 65536 elements or more. */
  lemma UnmarshalsIff(t: Tables, ix: Index, n: Node, b: Bytes)
    requires ValidTables(t, ix) && FitsNode(n) && WritesNode(ix, n, b)
    ensures UnmarshalSpec(t, b) == Parsed(NormNode(ix, n)) <==> ProperNode(n)
  {
    hide ReadNode, NormNode, WritesNode, ValidTables, FitsNode, ProperNode;
    assert At(b, 0, b) by {
      assert b[0..|b|] == b;
    }
    if ProperNode(n) {
      NodeRoundTrip(t, ix, n, b, b, 0);
    } else {
      NodeGoesWrong(t, ix, n, b, b, 0);
    }
  }
}
