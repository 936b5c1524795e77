/** Whatever the encoder may write for a value, the decoder reads back as that value's normal form. */
module RoundTrip {
  import opened Bytes
  import opened Tokens
  import opened Jids
  import opened BinaryXml

  // ---- What survives a round trip ----

  /** The fields of a JID that its wire form carries. */
  function CarriedJid(j: JID): JID {
    if IsADJid(j) then JID(j.user, 0, j.device % 256, 0, j.server)
    else if j.server == MESSENGER_SERVER then JID(j.user, 0, j.device, 0, j.server)
    else if j.server == INTEROP_SERVER then JID(j.user, 0, j.device, j.integrator, j.server)
    else NewJID(j.user, j.server)
  }

  /** A raw string read as content comes back as bytes, since it is written like bytes. */
  function NormText(ix: Index, s: Bytes, asString: bool): Value {
    if asString || !IsRaw(ix, s) then Str(s) else Blob(s)
  }

  function Norm(ix: Index, v: Value, asString: bool): Value
    decreases v, 0
  {
    match v
    case Nil => Nil
    case Jid(j) => Jid(CarriedJid(j))
    case Str(s) => NormText(ix, s, asString)
    case Num(n) => NormText(ix, Decimal.Itoa(n), asString)
    case Bool(b) => NormText(ix, BoolText(b), asString)
    case Blob(data) => if asString then Str(data) else Blob(data)
    case Nodes(ns) => if ns == [] then Nil else Nodes(NormNodes(ix, ns))
  }

  function NormNodes(ix: Index, ns: seq<Node>): seq<Node>
    decreases ns, 0
  {
    if ns == [] then [] else [NormNode(ix, ns[0])] + NormNodes(ix, ns[1..])
  }

  function NormNode(ix: Index, n: Node): Node
    decreases n, 0
  {
    Node(n.tag, map k | k in n.attrs && Kept(n.attrs[k]) :: Norm(ix, n.attrs[k], true), Norm(ix, n.content, false))
  }

  // ---- The domain ----

  /** Nodes the decoder can read back: a tag that is neither empty nor "0", and list sizes below 65536. */
  predicate Proper(v: Value)
    decreases v, 0
  {
    v.Nodes? ==> |v.nodes| < 0x1_0000 && ProperNodes(v.nodes)
  }

  predicate ProperNodes(ns: seq<Node>)
    decreases ns, 0
  {
    ns == [] || (ProperNode(ns[0]) && ProperNodes(ns[1..]))
  }

  predicate ProperNode(n: Node)
    decreases n, 0
  {
    && n.tag != [] && n.tag != ZERO_TAG && ListSize(n) < 0x1_0000
    && (forall k :: k in n.attrs ==> Proper(n.attrs[k]))
    && Proper(n.content)
  }

  ghost predicate ValidTables(t: Tables, ix: Index) {
    t.Valid() && ix.Of(t)
  }

  // ---- Integers and lengths ----

  lemma ReadIntAt(d: Bytes, i: nat, v: nat, k: nat)
    requires At(d, i, BigEndian(v, k)) && v < Pow256(k)
    ensures ReadInt(d, i, k) == Ok(v, i + k)
  {
    BigEndianRoundTrip(v, k);
  }

  lemma Pow256Values()
    ensures Pow256(1) == 0x100 && Pow256(2) == 0x1_0000 && Pow256(4) == 0x1_0000_0000
  {
    assert Pow256(1) == 256 * Pow256(0);
    assert Pow256(2) == 256 * Pow256(1);
    assert Pow256(3) == 256 * Pow256(2);
    assert Pow256(4) == 256 * Pow256(3);
  }

  lemma ReadInt16At(d: Bytes, i: nat, v: Uint16)
    requires At(d, i, BigEndian(v, 2))
    ensures ReadInt(d, i, 2) == Ok(v as nat, i + 2)
  {
    Pow256Values();
    ReadIntAt(d, i, v, 2);
  }

  /** A list size is read back modulo 65536. */
  lemma ListStartRoundTrip(d: Bytes, i: nat, n: nat)
    requires At(d, i, EncodeListStart(n))
    ensures d[i] in {LIST_EMPTY, LIST_8, LIST_16} && (d[i] == LIST_EMPTY <==> n == 0)
    ensures ReadListSize(d, i + 1, d[i]).Ok? && ReadListSize(d, i + 1, d[i]).next == i + |EncodeListStart(n)|
    ensures ReadListSize(d, i + 1, d[i]).value == n % 0x1_0000
  {
    Pow256Values();
    AtByte(d, i, EncodeListStart(n), 0);
    if 0 < n < 256 {
      AtSplit(d, i, [LIST_8], BigEndian(n, 1));
      BigEndianRoundTrip(n, 1);
    } else if 256 <= n {
      AtSplit(d, i, [LIST_16], BigEndian(n, 2));
      LowBytes(n);
    }
  }

  /** What two bytes hold of a number. */
  lemma LowBytes(n: nat)
    ensures FromBigEndian(BigEndian(n, 2)) == n % 0x1_0000
  {
    assert BigEndian(n, 2) == BigEndian(n / 256, 1) + [n % 256];
    assert BigEndian(n / 256, 1) == BigEndian(n / 256 / 256, 0) + [n / 256 % 256] == [n / 256 % 256];
    assert [n / 256 % 256, n % 256][..1] == [n / 256 % 256] && [n / 256 % 256][..0] == [];
    assert FromBigEndian([n / 256 % 256]) == n / 256 % 256;
    assert n / 256 % 256 * 256 + n % 256 == n % 0x1_0000;
  }

  lemma Int20RoundTrip(n: nat)
    requires n < 0x10_0000
    ensures n / 0x1_0000 % 16 * 0x1_0000 + n / 256 % 256 * 256 + n % 256 == n
  {
    assert n / 0x1_0000 == n / 256 / 256;
  }

  lemma LengthRoundTrip(d: Bytes, i: nat, n: nat)
    requires n < MAX_INT32 && At(d, i, EncodeLength(n))
    ensures i < |d| && (d[i] == BINARY_8 || d[i] == BINARY_20 || d[i] == BINARY_32)
    ensures (if d[i] == BINARY_8 then ReadInt(d, i + 1, 1)
             else if d[i] == BINARY_20 then ReadInt20(d, i + 1)
             else ReadInt(d, i + 1, 4)) == Ok(n, i + |EncodeLength(n)|)
  {
    Pow256Values();
    AtByte(d, i, EncodeLength(n), 0);
    if n < 256 {
      AtSplit(d, i, [BINARY_8], BigEndian(n, 1));
      ReadIntAt(d, i + 1, n, 1);
    } else if n < 0x10_0000 {
      AtByte(d, i, EncodeLength(n), 1);
      AtByte(d, i, EncodeLength(n), 2);
      AtByte(d, i, EncodeLength(n), 3);
      Int20RoundTrip(n);
    } else {
      AtSplit(d, i, [BINARY_32], BigEndian(n, 4));
      ReadIntAt(d, i + 1, n, 4);
    }
  }

  /** `i` holds the tag of a scalar that reads as `v` and ends before `next`. */
  ghost predicate Scalar(t: Tables, d: Bytes, i: nat, asString: bool, v: Value, next: nat) {
    && i < |d|
    && d[i] !in {LIST_EMPTY, LIST_8, LIST_16, FB_JID, INTEROP_JID, JID_PAIR, AD_JID}
    && ReadScalar(t, d, i + 1, d[i], asString) == Ok(v, next)
  }

  lemma SizedRoundTrip(t: Tables, d: Bytes, i: nat, data: Bytes, asString: bool)
    requires FitsText(data) && At(d, i, EncodeLength(|data|) + data)
    ensures Scalar(t, d, i, asString, if asString then Str(data) else Blob(data), i + |EncodeLength(|data|) + data|)
  {
    hide At, EncodeLength, ReadInt, ReadInt20;
    AtSplit(d, i, EncodeLength(|data|), data);
    LengthRoundTrip(d, i, |data|);
    AtIs(d, i + |EncodeLength(|data|)|, data);
  }

  lemma AtIs(d: Bytes, i: nat, b: Bytes)
    requires At(d, i, b)
    ensures i + |b| <= |d| && d[i..i + |b|] == b
  {
  }

  // ---- Strings ----

  lemma UnpackPack(hex: bool, c: Byte)
    requires if hex then IsHex(c) else IsNibble(c)
    ensures Unpack(hex, Pack(hex, c)) == Ok(c, 0)
  {
  }

  lemma HalfBytes(high: Byte, low: Byte)
    requires high < 16 && low < 16
    ensures (16 * high + low) / 16 == high && (16 * high + low) % 16 == low
  {
  }

  /** Unpacking gives the characters back, with one padding character after an odd number of them. */
  ghost predicate ReadsPairs(hex: bool, s: Bytes, d: Bytes, i: nat, half: nat)
    requires i <= |d|
  {
    var r := ReadPairs(hex, d, i, half);
    r.Ok? && |s| <= 2 * half <= |s| + 1 && r.value[..|s|] == s
  }

  lemma OnePair(hex: bool, s: Bytes, d: Bytes, i: nat, half: nat, high: Byte, low: Byte)
    requires high < 16 && low < 16 && i < |d| && d[i] == 16 * high + low
    requires Unpack(hex, high).Ok? && Unpack(hex, low).Ok?
    requires ReadsPairs(hex, s, d, i + 1, half)
    ensures var r := ReadPairs(hex, d, i, half + 1);
            r.Ok? && r.value == [Unpack(hex, high).value, Unpack(hex, low).value] + ReadPairs(hex, d, i + 1, half).value
  {
    HalfBytes(high, low);
  }

  lemma LastPair(hex: bool, c: Byte, d: Bytes, i: nat)
    requires Packable(hex, [c]) && At(d, i, PackPairs(hex, [c]))
    ensures ReadsPairs(hex, [c], d, i, 1)
  {
    AtByte(d, i, PackPairs(hex, [c]), 0);
    assert [c][0] == c;
    UnpackPack(hex, c);
    OnePair(hex, [], d, i, 0, Pack(hex, c), 15);
  }

  lemma FirstPair(hex: bool, c0: Byte, c1: Byte, rest: Bytes, d: Bytes, i: nat, half: nat)
    requires i < |d| && (if hex then IsHex(c0) && IsHex(c1) else IsNibble(c0) && IsNibble(c1))
    requires d[i] == 16 * Pack(hex, c0) + Pack(hex, c1)
    requires ReadsPairs(hex, rest, d, i + 1, half)
    ensures ReadsPairs(hex, [c0, c1] + rest, d, i, half + 1)
  {
    UnpackPack(hex, c0);
    UnpackPack(hex, c1);
    OnePair(hex, rest, d, i, half, Pack(hex, c0), Pack(hex, c1));
    var chars := ReadPairs(hex, d, i + 1, half).value;
    assert ([c0, c1] + chars)[..|rest| + 2] == [c0, c1] + chars[..|rest|];
  }

  lemma {:induction false} PairsRoundTrip(hex: bool, s: Bytes, d: Bytes, i: nat)
    requires Packable(hex, s) && At(d, i, PackPairs(hex, s))
    ensures ReadsPairs(hex, s, d, i, (|s| + 1) / 2)
  {
    if |s| == 1 {
      assert s == [s[0]];
      LastPair(hex, s[0], d, i);
    } else if |s| > 1 {
      var first := [16 * Pack(hex, s[0]) + Pack(hex, s[1])];
      AtSplit(d, i, first, PackPairs(hex, s[2..]));
      AtByte(d, i, first, 0);
      PairsRoundTrip(hex, s[2..], d, i + 1);
      FirstPair(hex, s[0], s[1], s[2..], d, i, (|s| - 1) / 2);
      assert [s[0], s[1]] + s[2..] == s;
    }
  }

  lemma ReadPackedAt(hex: bool, s: Bytes, d: Bytes, i: nat, half: nat)
    requires |s| <= PACKED_MAX && half == (|s| + 1) / 2
    requires i < |d| && d[i] == half + if |s| % 2 == 1 then 128 else 0
    requires ReadsPairs(hex, s, d, i + 1, half)
    ensures ReadPacked(hex, d, i) == Ok(s, i + 1 + half)
  {
    var chars := ReadPairs(hex, d, i + 1, half).value;
    assert d[i] % 128 == half;
    assert |s| % 2 == 0 ==> chars == s;
    assert |s| % 2 == 1 ==> chars[..|chars| - 1] == s;
  }

  lemma PackedRoundTrip(t: Tables, hex: bool, s: Bytes, d: Bytes, i: nat, asString: bool)
    requires Packable(hex, s) && At(d, i, EncodePacked(hex, s))
    ensures Scalar(t, d, i, asString, Str(s), i + |EncodePacked(hex, s)|)
  {
    var half := (|s| + 1) / 2;
    var header := [PackedTag(hex), half + if |s| % 2 == 1 then 128 else 0];
    AtSplit(d, i, header, PackPairs(hex, s));
    AtByte(d, i, header, 0);
    AtByte(d, i, header, 1);
    PairsRoundTrip(hex, s, d, i + 2);
    ReadPackedAt(hex, s, d, i + 1, half);
  }

  lemma StringScalar(t: Tables, ix: Index, s: Bytes, d: Bytes, i: nat, asString: bool)
    requires ValidTables(t, ix) && FitsText(s) && At(d, i, EncodeString(ix, s))
    ensures Scalar(t, d, i, asString, NormText(ix, s, asString), i + |EncodeString(ix, s)|)
  {
    if s in ix.single {
      AtByte(d, i, EncodeString(ix, s), 0);
    } else if s in ix.double {
      AtByte(d, i, EncodeString(ix, s), 0);
      AtByte(d, i, EncodeString(ix, s), 1);
      assert d[i + 1..i + 2] == BigEndian(ix.double[s].1, 1);
      Pow256Values();
      ReadIntAt(d, i + 1, ix.double[s].1, 1);
    } else if ValidateNibble(s) {
      PackedRoundTrip(t, false, s, d, i, asString);
    } else if ValidateHex(s) {
      PackedRoundTrip(t, true, s, d, i, asString);
    } else {
      SizedRoundTrip(t, d, i, s, asString);
    }
  }

  /** Every string survives, whichever of the five forms is chosen for it. */
  lemma StringRoundTrip(t: Tables, ix: Index, s: Bytes, d: Bytes, i: nat, asString: bool)
    requires ValidTables(t, ix) && FitsText(s) && At(d, i, EncodeString(ix, s))
    ensures Read(t, d, i, asString) == Ok(NormText(ix, s, asString), i + |EncodeString(ix, s)|)
  {
    StringScalar(t, ix, s, d, i, asString);
  }

  // ---- JIDs ----

  lemma ADJidRoundTrip(t: Tables, ix: Index, j: JID, d: Bytes, i: nat)
    requires ValidTables(t, ix) && FitsText(j.user) && IsADJid(j) && At(d, i, EncodeJid(ix, j))
    ensures ReadADJid(t, d, i + 1) == Ok(Jid(CarriedJid(j)), i + |EncodeJid(ix, j)|)
    ensures d[i] == AD_JID
  {
    hide At, Ascii, Read, EncodeString, FitsText, ValidTables;
    var header := [AD_JID, j.ActualAgent(), j.device % 256];
    AtSplit(d, i, header, EncodeString(ix, j.user));
    AtByte(d, i, header, 0);
    AtByte(d, i, header, 1);
    AtByte(d, i, header, 2);
    StringRoundTrip(t, ix, j.user, d, i + 3, true);
  }

  lemma FBJidParts(ix: Index, j: JID, d: Bytes, i: nat)
    requires !IsADJid(j) && j.server == MESSENGER_SERVER && At(d, i, EncodeJid(ix, j))
    ensures i < |d| && d[i] == FB_JID
    ensures var user, server, k := EncodeString(ix, j.user), EncodeString(ix, j.server), i + 1 + |EncodeString(ix, j.user)|;
            && |EncodeJid(ix, j)| == 3 + |user| + |server| && k + 2 <= |d|
            && At(d, i + 1, user) && At(d, k, BigEndian(j.device, 2)) && At(d, k + 2, server)
  {
    hide At, Ascii, EncodeString, BigEndian;
    var user, device, server := EncodeString(ix, j.user), BigEndian(j.device, 2), EncodeString(ix, j.server);
    assert EncodeJid(ix, j) == [FB_JID] + user + device + server;
    hide EncodeJid;
    AtSplit4(d, i, [FB_JID], user, device, server);
    AtByte(d, i, [FB_JID], 0);
  }

  lemma FBJidRoundTrip(t: Tables, ix: Index, j: JID, d: Bytes, i: nat)
    requires ValidTables(t, ix) && FitsText(j.user) && FitsText(j.server)
    requires !IsADJid(j) && j.server == MESSENGER_SERVER && At(d, i, EncodeJid(ix, j))
    ensures d[i] == FB_JID
    ensures ReadFBJid(t, d, i + 1) == Ok(Jid(CarriedJid(j)), i + |EncodeJid(ix, j)|)
  {
    hide At, Ascii, Read, ReadInt, EncodeString, EncodeJid, BigEndian, FitsText, ValidTables;
    FBJidParts(ix, j, d, i);
    var k := i + 1 + |EncodeString(ix, j.user)|;
    StringRoundTrip(t, ix, j.user, d, i + 1, true);
    ReadInt16At(d, k, j.device);
    StringRoundTrip(t, ix, j.server, d, k + 2, true);
  }

  lemma InteropJidParts(ix: Index, j: JID, d: Bytes, i: nat)
    requires !IsADJid(j) && j.server == INTEROP_SERVER && At(d, i, EncodeJid(ix, j))
    ensures i < |d| && d[i] == INTEROP_JID
    ensures var user, server, k := EncodeString(ix, j.user), EncodeString(ix, j.server), i + 1 + |EncodeString(ix, j.user)|;
            && |EncodeJid(ix, j)| == 5 + |user| + |server| && k + 4 <= |d|
            && At(d, i + 1, user) && At(d, k, BigEndian(j.device, 2)) && At(d, k + 2, BigEndian(j.integrator, 2))
            && At(d, k + 4, server)
  {
    hide At, Ascii, EncodeString, BigEndian;
    ServersDiffer();
    var user, server := EncodeString(ix, j.user), EncodeString(ix, j.server);
    var device, integrator := BigEndian(j.device, 2), BigEndian(j.integrator, 2);
    assert EncodeJid(ix, j) == [INTEROP_JID] + user + device + integrator + server;
    hide EncodeJid;
    AtSplit(d, i, [INTEROP_JID] + user + device + integrator, server);
    AtSplit4(d, i, [INTEROP_JID], user, device, integrator);
    AtByte(d, i, [INTEROP_JID], 0);
  }

  lemma InteropJidRoundTrip(t: Tables, ix: Index, j: JID, d: Bytes, i: nat)
    requires ValidTables(t, ix) && FitsText(j.user) && FitsText(j.server) && !IsADJid(j)
    requires j.server != MESSENGER_SERVER && j.server == INTEROP_SERVER && At(d, i, EncodeJid(ix, j))
    ensures d[i] == INTEROP_JID
    ensures ReadInteropJid(t, d, i + 1) == Ok(Jid(CarriedJid(j)), i + |EncodeJid(ix, j)|)
  {
    hide At, Ascii, Read, ReadInt, EncodeString, EncodeJid, BigEndian, FitsText, ValidTables;
    InteropJidParts(ix, j, d, i);
    var k := i + 1 + |EncodeString(ix, j.user)|;
    StringRoundTrip(t, ix, j.user, d, i + 1, true);
    ReadInt16At(d, k, j.device);
    ReadInt16At(d, k + 2, j.integrator);
    StringRoundTrip(t, ix, j.server, d, k + 4, true);
  }

  lemma JidUserRoundTrip(t: Tables, ix: Index, user: Bytes, d: Bytes, i: nat)
    requires ValidTables(t, ix) && FitsText(user) && At(d, i, EncodeJidUser(ix, user))
    ensures Read(t, d, i, true) == Ok(if user == [] then Nil else Str(user), i + |EncodeJidUser(ix, user)|)
  {
    if user == [] {
      AtByte(d, i, [LIST_EMPTY], 0);
    } else {
      hide Read, EncodeString, At;
      StringRoundTrip(t, ix, user, d, i, true);
    }
  }

  lemma JidPairRoundTrip(t: Tables, ix: Index, j: JID, d: Bytes, i: nat)
    requires ValidTables(t, ix) && FitsText(j.user) && FitsText(j.server) && !IsADJid(j)
    requires j.server != MESSENGER_SERVER && j.server != INTEROP_SERVER && At(d, i, EncodeJid(ix, j))
    ensures d[i] == JID_PAIR
    ensures ReadJidPair(t, d, i + 1) == Ok(Jid(CarriedJid(j)), i + |EncodeJid(ix, j)|)
  {
    hide At, Read, EncodeString, EncodeJidUser, FitsText, ValidTables;
    AtSplit3(d, i, [JID_PAIR], EncodeJidUser(ix, j.user), EncodeString(ix, j.server));
    AtByte(d, i, [JID_PAIR], 0);
    JidUserRoundTrip(t, ix, j.user, d, i + 1);
    StringRoundTrip(t, ix, j.server, d, i + 1 + |EncodeJidUser(ix, j.user)|, true);
  }

  /** Every JID comes back with the fields its wire form carries, whichever of the four forms it takes. */
  lemma JidRoundTrip(t: Tables, ix: Index, j: JID, d: Bytes, i: nat, asString: bool)
    requires ValidTables(t, ix) && FitsText(j.user) && FitsText(j.server) && At(d, i, EncodeJid(ix, j))
    ensures Read(t, d, i, asString) == Ok(Jid(CarriedJid(j)), i + |EncodeJid(ix, j)|)
  {
    if IsADJid(j) {
      ADJidRoundTrip(t, ix, j, d, i);
    } else if j.server == MESSENGER_SERVER {
      FBJidRoundTrip(t, ix, j, d, i);
    } else if j.server == INTEROP_SERVER {
      InteropJidRoundTrip(t, ix, j, d, i);
    } else {
      JidPairRoundTrip(t, ix, j, d, i);
    }
  }

  /** The identifiers that have a wire form of their own: exactly these come back unchanged. */
  predicate JidHasWireForm(j: JID) {
    && j.rawAgent == 0
    && (j.server == INTEROP_SERVER || j.integrator == 0)
    && (if j.server in {DEFAULT_USER_SERVER, HIDDEN_USER_SERVER, HOSTED_SERVER} then j.device < 256
        else j.server in {MESSENGER_SERVER, INTEROP_SERVER} || j.device == 0)
  }

  lemma JidSurvives(t: Tables, ix: Index, j: JID, d: Bytes, i: nat, asString: bool)
    requires ValidTables(t, ix) && FitsText(j.user) && FitsText(j.server) && At(d, i, EncodeJid(ix, j))
    ensures Read(t, d, i, asString) == Ok(Jid(j), i + |EncodeJid(ix, j)|) <==> JidHasWireForm(j)
  {
    JidRoundTrip(t, ix, j, d, i, asString);
    ServersDiffer();
  }

  lemma ServersDiffer()
    ensures MESSENGER_SERVER != INTEROP_SERVER && INTEROP_SERVER != DEFAULT_USER_SERVER
    ensures INTEROP_SERVER != HIDDEN_USER_SERVER && INTEROP_SERVER != HOSTED_SERVER
    ensures MESSENGER_SERVER != DEFAULT_USER_SERVER && MESSENGER_SERVER != HIDDEN_USER_SERVER
    ensures MESSENGER_SERVER != HOSTED_SERVER
  {
    assert |MESSENGER_SERVER| == 4 && |INTEROP_SERVER| == 7 && |DEFAULT_USER_SERVER| == 14;
    assert |HIDDEN_USER_SERVER| == 3 && |HOSTED_SERVER| == 6;
  }

  // ---- Trees ----

  function NormAttrs(ix: Index, n: Node, keys: set<Bytes>): map<Bytes, Value>
    requires keys <= n.attrs.Keys
  {
    map k | k in keys :: Norm(ix, n.attrs[k], true)
  }

  lemma NormAttrsStep(ix: Index, n: Node, keys: set<Bytes>, k: Bytes, attrs: map<Bytes, Value>)
    requires keys <= n.attrs.Keys && k in keys
    ensures attrs[k := Norm(ix, n.attrs[k], true)] + NormAttrs(ix, n, keys - {k}) == attrs + NormAttrs(ix, n, keys)
  {
    hide Norm;
  }

  lemma ReadAttrsStep(t: Tables, d: Bytes, i: nat, count: nat, attrs: map<Bytes, Value>,
                      k: Bytes, j: nat, v: Value, l: nat)
    requires i <= |d| && Read(t, d, i, true) == Ok(Str(k), j) && Read(t, d, j, true) == Ok(v, l)
    ensures ReadAttrs(t, d, i, count + 1, attrs) == ReadAttrs(t, d, l, count, attrs[k := v])
  {
    hide Read;
  }

  /** The encoder writes all attributes and the decoder can read them back. */
  predicate SafeAttrs(n: Node) {
    forall k :: k in n.attrs ==> FitsText(k) && Fits(n.attrs[k]) && Proper(n.attrs[k])
  }

  lemma SafeAttr(n: Node, k: Bytes)
    requires SafeAttrs(n) && k in n.attrs
    ensures FitsText(k) && Fits(n.attrs[k]) && Proper(n.attrs[k])
  {
  }

  lemma AttrsCompose(t: Tables, ix: Index, n: Node, keys: set<Bytes>, d: Bytes, i: nat, attrs: map<Bytes, Value>,
                     k: Bytes, j: nat, l: nat, next: nat)
    requires keys <= n.attrs.Keys && k in keys && i <= |d|
    requires Read(t, d, i, true) == Ok(Str(k), j)
    requires Read(t, d, j, true) == Ok(Norm(ix, n.attrs[k], true), l)
    requires ReadAttrs(t, d, l, |keys - {k}|, attrs[k := Norm(ix, n.attrs[k], true)])
          == Ok(attrs[k := Norm(ix, n.attrs[k], true)] + NormAttrs(ix, n, keys - {k}), next)
    ensures ReadAttrs(t, d, i, |keys|, attrs) == Ok(attrs + NormAttrs(ix, n, keys), next)
  {
    hide Read, ReadAttrs, Norm, NormAttrs;
    assert |keys| == |keys - {k}| + 1;
    ReadAttrsStep(t, d, i, |keys - {k}|, attrs, k, j, Norm(ix, n.attrs[k], true), l);
    NormAttrsStep(ix, n, keys, k, attrs);
  }

  lemma AttrsStep(t: Tables, ix: Index, n: Node, keys: set<Bytes>, d: Bytes, i: nat, attrs: map<Bytes, Value>,
                  k: Bytes, value: Bytes, rest: Bytes)
    requires ValidTables(t, ix) && SafeAttrs(n) && keys <= n.attrs.Keys && k in keys
    requires WritesValue(ix, n.attrs[k], value) && WritesAttrs(ix, n, keys - {k}, rest)
    requires At(d, i, EncodeString(ix, k) + value + rest)
    ensures ReadAttrs(t, d, i, |keys|, attrs)
         == Ok(attrs + NormAttrs(ix, n, keys), i + |EncodeString(ix, k)| + |value| + |rest|)
    decreases n, 1, |keys|, 0
  {
    hide At, Read, ReadAttrs, EncodeString, Norm, NormAttrs, Fits, FitsText, Proper, SafeAttrs, ValidTables,
      WritesValue, WritesAttrs;
    SafeAttr(n, k);
    var j, v := i + |EncodeString(ix, k)|, Norm(ix, n.attrs[k], true);
    AtSplit3(d, i, EncodeString(ix, k), value, rest);
    StringRoundTrip(t, ix, k, d, i, true);
    ValueRoundTrip(t, ix, n.attrs[k], value, d, j, true);
    AttrsRoundTrip(t, ix, n, keys - {k}, rest, d, j + |value|, attrs[k := v]);
    AttrsCompose(t, ix, n, keys, d, i, attrs, k, j, j + |value|, j + |value| + |rest|);
  }

  lemma {:induction false} AttrsRoundTrip(
      t: Tables, ix: Index, n: Node, keys: set<Bytes>, b: Bytes, d: Bytes, i: nat, attrs: map<Bytes, Value>)
    requires ValidTables(t, ix) && SafeAttrs(n) && keys <= n.attrs.Keys
    requires WritesAttrs(ix, n, keys, b) && At(d, i, b)
    ensures ReadAttrs(t, d, i, |keys|, attrs) == Ok(attrs + NormAttrs(ix, n, keys), i + |b|)
    decreases n, 1, |keys|, 1
  {
    if keys == {} {
      assert attrs + NormAttrs(ix, n, keys) == attrs;
    } else {
      hide At, ReadAttrs, EncodeString, NormAttrs, SafeAttrs, ValidTables, WritesValue;
      var k, value, rest :|
        && k in keys && WritesValue(ix, n.attrs[k], value) && WritesAttrs(ix, n, keys - {k}, rest)
        && b == EncodeString(ix, k) + value + rest;
      AttrsStep(t, ix, n, keys, d, i, attrs, k, value, rest);
    }
  }

  lemma {:induction false} NodesRoundTrip(t: Tables, ix: Index, ns: seq<Node>, b: Bytes, d: Bytes, i: nat)
    requires ValidTables(t, ix) && FitsNodes(ns) && ProperNodes(ns) && WritesNodes(ix, ns, b) && At(d, i, b)
    ensures ReadNodes(t, d, i, |ns|) == Ok(NormNodes(ix, ns), i + |b|)
    decreases ns, 0
  {
    hide At, ReadNode, NormNode, FitsNode, ProperNode, WritesNode, ValidTables;
    if ns != [] {
      var first, rest :|
        WritesNode(ix, ns[0], first) && WritesNodes(ix, ns[1..], rest) && b == first + rest;
      AtSplit(d, i, first, rest);
      NodeRoundTrip(t, ix, ns[0], first, d, i);
      NodesRoundTrip(t, ix, ns[1..], rest, d, i + |first|);
    }
  }

  lemma {:induction false} ValueRoundTrip(
      t: Tables, ix: Index, v: Value, b: Bytes, d: Bytes, i: nat, asString: bool)
    requires ValidTables(t, ix) && Fits(v) && Proper(v) && WritesValue(ix, v, b) && At(d, i, b)
    ensures Read(t, d, i, asString) == Ok(Norm(ix, v, asString), i + |b|)
    decreases v, 0
  {
    hide At, EncodeString, EncodeJid, EncodeListStart, EncodeLength, ReadNodes, NormNodes, NormText, FitsText,
      ValidTables;
    match v
    case Nil => AtByte(d, i, b, 0);
    case Jid(j) => JidRoundTrip(t, ix, j, d, i, asString);
    case Str(s) => StringRoundTrip(t, ix, s, d, i, asString);
    case Num(n) => StringRoundTrip(t, ix, Decimal.Itoa(n), d, i, asString);
    case Bool(p) => StringRoundTrip(t, ix, BoolText(p), d, i, asString);
    case Blob(data) => SizedRoundTrip(t, d, i, data, asString);
    case Nodes(ns) =>
      if ns == [] {
        EmptyListRoundTrip(t, ix, b, d, i, asString);
      } else {
        var rest :| WritesNodes(ix, ns, rest) && b == EncodeListStart(|ns|) + rest;
        ListRoundTrip(t, ix, ns, rest, b, d, i, asString);
      }
  }

  lemma ReadListValue(t: Tables, d: Bytes, i: nat, asString: bool, size: nat, k: nat)
    requires i < |d| && d[i] in {LIST_8, LIST_16} && ReadListSize(d, i + 1, d[i]) == Ok(size, k)
    ensures Read(t, d, i, asString) == match ReadNodes(t, d, k, size)
                                       case Ok(nodes, next) => Ok(Nodes(nodes), next)
                                       case Err(e) => Err(e)
  {
    hide ReadListSize, ReadNodes;
  }

  lemma EmptyListRoundTrip(t: Tables, ix: Index, b: Bytes, d: Bytes, i: nat, asString: bool)
    requires WritesValue(ix, Nodes([]), b) && At(d, i, b)
    ensures b == [LIST_EMPTY] && Read(t, d, i, asString) == Ok(Nil, i + 1)
  {
    var rest :| WritesNodes(ix, [], rest) && b == EncodeListStart(0) + rest;
    assert b == [LIST_EMPTY];
    AtByte(d, i, b, 0);
  }

  lemma ListRoundTrip(t: Tables, ix: Index, ns: seq<Node>, rest: Bytes, b: Bytes, d: Bytes, i: nat, asString: bool)
    requires ValidTables(t, ix) && FitsNodes(ns) && ProperNodes(ns) && 0 < |ns| < 0x1_0000
    requires WritesNodes(ix, ns, rest) && b == EncodeListStart(|ns|) + rest && At(d, i, b)
    ensures Read(t, d, i, asString) == Ok(Nodes(NormNodes(ix, ns)), i + |b|)
    decreases ns, 1
  {
    hide At, EncodeListStart, Read, ReadListSize, ReadNodes, NormNodes, FitsNodes, ProperNodes, WritesNodes,
      ValidTables;
    var start := EncodeListStart(|ns|);
    AtSplit(d, i, start, rest);
    ListStartRoundTrip(d, i, |ns|);
    NodesRoundTrip(t, ix, ns, rest, d, i + |start|);
    ReadListValue(t, d, i, asString, |ns|, i + |start|);
  }

  lemma ReadIntByte(d: Bytes, i: nat)
    requires i < |d|
    ensures ReadInt(d, i, 1) == Ok(d[i] as nat, i + 1)
  {
    assert d[i..i + 1] == [d[i]];
    assert FromBigEndian([]) == 0 && [d[i]][..0] == [];
  }

  lemma ReadNodeParts(t: Tables, d: Bytes, i: nat, size: nat, k: nat, tag: Bytes, l: nat,
                      attrs: map<Bytes, Value>, m: nat, content: Value, next: nat)
    requires i < |d| && size > 0 && tag != []
    requires ReadListSize(d, i + 1, d[i]) == Ok(size, k)
    requires Read(t, d, k, true) == Ok(Str(tag), l)
    requires ReadAttrs(t, d, l, (size - 1) / 2, map[]) == Ok(attrs, m)
    requires if size % 2 == 1 then content == Nil && next == m else Read(t, d, m, false) == Ok(content, next)
    ensures ReadNode(t, d, i) == Ok(Node(tag, attrs, content), next)
  {
    hide Read, ReadAttrs, ReadListSize;
    ReadIntByte(d, i);
  }

  lemma NodeFacts(ix: Index, n: Node)
    requires FitsNode(n) && ProperNode(n)
    ensures SafeAttrs(n) && KeptKeys(n.attrs) <= n.attrs.Keys
    ensures ListSize(n) > 0 && (ListSize(n) - 1) / 2 == |KeptKeys(n.attrs)|
    ensures ListSize(n) % 2 == 1 <==> n.content == Nil
    ensures n.tag != [] && FitsText(n.tag) && Fits(n.content) && Proper(n.content) && ListSize(n) < 0x1_0000
    ensures map[] + NormAttrs(ix, n, KeptKeys(n.attrs)) == NormNode(ix, n).attrs
    ensures NormNode(ix, n) == Node(n.tag, NormNode(ix, n).attrs, Norm(ix, n.content, false))
    ensures n.content == Nil ==> Norm(ix, n.content, false) == Nil
  {
    hide Fits, Proper;
  }

  lemma NodeParts(t: Tables, ix: Index, n: Node, attrs: Bytes, content: Bytes, b: Bytes, d: Bytes, i: nat)
    requires ValidTables(t, ix) && FitsNode(n) && ProperNode(n) && At(d, i, b)
    requires WritesAttrs(ix, n, KeptKeys(n.attrs), attrs) && WritesContent(ix, n, content)
    requires b == EncodeListStart(ListSize(n)) + EncodeString(ix, n.tag) + attrs + content
    ensures ReadNode(t, d, i) == Ok(NormNode(ix, n), i + |b|)
    decreases n, 2
  {
    hide At, Read, ReadNode, ReadListSize, ReadAttrs, EncodeString, EncodeListStart, Fits, FitsNode, FitsText,
      Proper, ProperNode, ListSize, SafeAttrs, KeptKeys, Norm, NormNode, NormAttrs, ValidTables, WritesValue,
      WritesAttrs;
    NodeFacts(ix, n);
    var start, tag := EncodeListStart(ListSize(n)), EncodeString(ix, n.tag);
    AtSplit4(d, i, start, tag, attrs, content);
    ListStartRoundTrip(d, i, ListSize(n));
    var k, l := i + |start|, i + |start| + |tag|;
    var m := l + |attrs|;
    StringRoundTrip(t, ix, n.tag, d, k, true);
    AttrsRoundTrip(t, ix, n, KeptKeys(n.attrs), attrs, d, l, map[]);
    if n.content != Nil {
      ValueRoundTrip(t, ix, n.content, content, d, m, false);
    }
    ReadNodeParts(t, d, i, ListSize(n), k, n.tag, l, NormNode(ix, n).attrs, m, Norm(ix, n.content, false), i + |b|);
  }

  /** Any encoding of a node, followed by anything, reads as the node's normal form and ends where it ends. */
  lemma {:induction false} NodeRoundTrip(t: Tables, ix: Index, n: Node, b: Bytes, d: Bytes, i: nat)
    requires ValidTables(t, ix) && FitsNode(n) && ProperNode(n) && WritesNode(ix, n, b) && At(d, i, b)
    ensures ReadNode(t, d, i) == Ok(NormNode(ix, n), i + |b|)
    decreases n, 3
  {
    hide At, ReadNode, EncodeString, EncodeListStart, ListSize, ValidTables, NormNode, WritesAttrs, WritesContent;
    var attrs, content :|
      && WritesAttrs(ix, n, KeptKeys(n.attrs), attrs) && WritesContent(ix, n, content)
      && b == EncodeListStart(ListSize(n)) + EncodeString(ix, n.tag) + attrs + content;
    NodeParts(t, ix, n, attrs, content, b, d, i);
  }
}
