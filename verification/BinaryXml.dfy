/**
 The binary XML wire format (binary/encoder.go, binary/decoder.go, binary/node.go).

 `Writes*` relates a value to the byte strings the encoder may produce for it: Go iterates maps in an
 unspecified order, so a node with several attributes has several encodings. `Read*` are the functions
 the decoder computes from a position in the input.
 */
module BinaryXml {
  import opened Bytes
  import opened Tokens
  import opened Jids
  import Decimal

  /** The dynamic types that a node's attributes and content may have. */
  datatype Value =
    | Nil
    | Jid(jid: JID)
    | Str(text: Bytes)
    | Num(n: int)
    | Bool(b: bool)
    | Blob(data: Bytes)
    | Nodes(nodes: seq<Node>)

  /** An XML element. A nil attribute map and an empty one are the same. */
  datatype Node = Node(tag: Bytes, attrs: map<Bytes, Value>, content: Value)

  const MAX_INT32 := 0x7FFF_FFFF
  const ZERO_TAG: Bytes := Ascii("0")

  // ---- Writing ----

  function EncodeLength(n: nat): Bytes {
    if n < 256 then [BINARY_8] + BigEndian(n, 1)
    else if n < 0x10_0000 then [BINARY_20, n / 0x1_0000 % 16, n / 256 % 256, n % 256]
    else [BINARY_32] + BigEndian(n, 4)
  }

  /** Sizes from 65536 on lose their high bits: the encoder writes two bytes whatever the size. */
  function EncodeListStart(n: nat): Bytes {
    if n == 0 then [LIST_EMPTY]
    else if n < 256 then [LIST_8] + BigEndian(n, 1)
    else [LIST_16] + BigEndian(n, 2)
  }

  predicate IsNibble(c: Byte) {
    Decimal.IsDigit(c) || c == 45 || c == 46 // '-' and '.'
  }

  predicate IsHex(c: Byte) {
    Decimal.IsDigit(c) || 65 <= c <= 70 // 'A' to 'F'
  }

  predicate ValidateNibble(s: Bytes) {
    |s| <= PACKED_MAX && forall i :: 0 <= i < |s| ==> IsNibble(s[i])
  }

  predicate ValidateHex(s: Bytes) {
    |s| <= PACKED_MAX && forall i :: 0 <= i < |s| ==> IsHex(s[i])
  }

  function PackNibble(c: Byte): (h: Byte)
    requires IsNibble(c) || c == 0
    ensures h < 16
  {
    if c == 45 then 10 else if c == 46 then 11 else if c == 0 then 15 else c - 48
  }

  function PackHex(c: Byte): (h: Byte)
    requires IsHex(c) || c == 0
    ensures h < 16
  {
    if Decimal.IsDigit(c) then c - 48 else if c == 0 then 15 else 10 + c - 65
  }

  predicate Packable(hex: bool, s: Bytes) {
    if hex then ValidateHex(s) else ValidateNibble(s)
  }

  function Pack(hex: bool, c: Byte): (h: Byte)
    requires c == 0 || if hex then IsHex(c) else IsNibble(c)
    ensures h < 16
  {
    if hex then PackHex(c) else PackNibble(c)
  }

  function PackPairs(hex: bool, s: Bytes): (b: Bytes)
    requires Packable(hex, s)
    ensures |b| == (|s| + 1) / 2
  {
    if s == [] then []
    else if |s| == 1 then [16 * Pack(hex, s[0]) + Pack(hex, 0)]
    else [16 * Pack(hex, s[0]) + Pack(hex, s[1])] + PackPairs(hex, s[2..])
  }

  function PackedTag(hex: bool): Byte {
    if hex then HEX_8 else NIBBLE_8
  }

  /** Two characters a byte; the high bit of the count says that the last half byte is padding. */
  function EncodePacked(hex: bool, s: Bytes): Bytes
    requires Packable(hex, s)
  {
    [PackedTag(hex), (|s| + 1) / 2 + if |s| % 2 == 1 then 128 else 0] + PackPairs(hex, s)
  }

  /** No token and no packed form applies, so the string is written byte for byte. */
  predicate IsRaw(ix: Index, s: Bytes) {
    s !in ix.single && s !in ix.double && !ValidateNibble(s) && !ValidateHex(s)
  }

  function EncodeString(ix: Index, s: Bytes): Bytes {
    if s in ix.single then [ix.single[s]]
    else if s in ix.double then [(DICTIONARY_0 + ix.double[s].0) % 256, ix.double[s].1]
    else if ValidateNibble(s) then EncodePacked(false, s)
    else if ValidateHex(s) then EncodePacked(true, s)
    else EncodeLength(|s|) + s
  }

  predicate IsADJid(j: JID) {
    || ((j.server == DEFAULT_USER_SERVER || j.server == HIDDEN_USER_SERVER) && j.device > 0)
    || j.server == HOSTED_SERVER
  }

  function EncodeJidUser(ix: Index, user: Bytes): Bytes {
    if user == [] then [LIST_EMPTY] else EncodeString(ix, user)
  }

  function EncodeJid(ix: Index, j: JID): Bytes {
    if IsADJid(j) then
      [AD_JID, j.ActualAgent(), j.device % 256] + EncodeString(ix, j.user)
    else if j.server == MESSENGER_SERVER then
      [FB_JID] + EncodeString(ix, j.user) + BigEndian(j.device, 2) + EncodeString(ix, j.server)
    else if j.server == INTEROP_SERVER then
      [INTEROP_JID] + EncodeString(ix, j.user) + BigEndian(j.device, 2) + BigEndian(j.integrator, 2)
      + EncodeString(ix, j.server)
    else
      [JID_PAIR] + EncodeJidUser(ix, j.user) + EncodeString(ix, j.server)
  }

  /** Empty and nil attributes are not written. */
  predicate Kept(v: Value) {
    v != Nil && v != Str([])
  }

  function KeptKeys(attrs: map<Bytes, Value>): set<Bytes> {
    set k | k in attrs && Kept(attrs[k])
  }

  function ListSize(n: Node): nat {
    2 * |KeptKeys(n.attrs)| + 1 + if n.content == Nil then 0 else 1
  }

  function BoolText(b: bool): Bytes {
    if b then Ascii("true") else Ascii("false")
  }

  ghost predicate WritesValue(ix: Index, v: Value, b: Bytes)
    decreases v, 0
  {
    match v
    case Nil => b == [LIST_EMPTY]
    case Jid(j) => b == EncodeJid(ix, j)
    case Str(s) => b == EncodeString(ix, s)
    case Num(n) => b == EncodeString(ix, Decimal.Itoa(n))
    case Bool(p) => b == EncodeString(ix, BoolText(p))
    case Blob(data) => b == EncodeLength(|data|) + data
    case Nodes(ns) => exists rest :: WritesNodes(ix, ns, rest) && b == EncodeListStart(|ns|) + rest
  }

  ghost predicate WritesNodes(ix: Index, ns: seq<Node>, b: Bytes)
    decreases ns, 0
  {
    if ns == [] then b == []
    else exists first, rest ::
           WritesNode(ix, ns[0], first) && WritesNodes(ix, ns[1..], rest) && b == first + rest
  }

  ghost predicate WritesNode(ix: Index, n: Node, b: Bytes)
    decreases n, 2
  {
    if n.tag == ZERO_TAG then b == [LIST_8, LIST_EMPTY]
    else exists attrs, content ::
           && WritesAttrs(ix, n, KeptKeys(n.attrs), attrs)
           && WritesContent(ix, n, content)
           && b == EncodeListStart(ListSize(n)) + EncodeString(ix, n.tag) + attrs + content
  }

  ghost predicate WritesContent(ix: Index, n: Node, b: Bytes)
    decreases n, 1
  {
    if n.content == Nil then b == [] else WritesValue(ix, n.content, b)
  }

  /** The attributes named by `keys`, in some order. */
  ghost predicate WritesAttrs(ix: Index, n: Node, keys: set<Bytes>, b: Bytes)
    requires keys <= n.attrs.Keys
    decreases n, 1, |keys|
  {
    if keys == {} then b == []
    else exists k, value, rest ::
           && k in keys
           && WritesValue(ix, n.attrs[k], value)
           && WritesAttrs(ix, n, keys - {k}, rest)
           && b == EncodeString(ix, k) + value + rest
  }

  /** Longer strings make the encoder panic. */
  predicate FitsText(s: Bytes) {
    |s| < MAX_INT32
  }

  /** The encoder does not panic: no string it reaches is too long. */
  predicate Fits(v: Value)
    decreases v, 0
  {
    match v
    case Nil => true
    case Jid(j) => FitsText(j.user) && FitsText(j.server)
    case Str(s) => FitsText(s)
    case Num(n) => FitsText(Decimal.Itoa(n))
    case Bool(b) => true
    case Blob(data) => FitsText(data)
    case Nodes(ns) => FitsNodes(ns)
  }

  predicate FitsNodes(ns: seq<Node>)
    decreases ns, 0
  {
    ns == [] || (FitsNode(ns[0]) && FitsNodes(ns[1..]))
  }

  predicate FitsNode(n: Node)
    decreases n, 0
  {
    n.tag == ZERO_TAG ||
    (&& FitsText(n.tag)
     && (forall k :: k in n.attrs ==> FitsText(k) && Fits(n.attrs[k]))
     && Fits(n.content))
  }

  // ---- Reading ----

  /** `Fault` is a Go panic: a failed type assertion or a slice out of range. */
  datatype Error =
    | EOF | InvalidNode | InvalidToken | NonStringKey | InvalidJid | InvalidPacked | InvalidListTag
    | InvalidDictionary | Fault

  /** What was read and where reading goes on. */
  datatype Parse<+T> = Ok(value: T, next: nat) | Err(error: Error) {
    predicate IsFailure() { Err? }
    function PropagateFailure<U>(): Parse<U>
      requires Err?
    { Err(error) }
    function Extract(): (T, nat)
      requires Ok?
    { (value, next) }
  }

  function ReadByte(d: Bytes, i: nat): Parse<Byte> {
    if i + 1 > |d| then Err(EOF) else Ok(d[i], i + 1)
  }

  function ReadRaw(d: Bytes, i: nat, n: nat): Parse<Bytes> {
    if i + n > |d| then Err(EOF) else Ok(d[i..i + n], i + n)
  }

  function ReadInt(d: Bytes, i: nat, n: nat): Parse<nat> {
    if i + n > |d| then Err(EOF) else Ok(FromBigEndian(d[i..i + n]), i + n)
  }

  function ReadInt20(d: Bytes, i: nat): Parse<nat> {
    if i + 3 > |d| then Err(EOF)
    else Ok((d[i] as int) % 16 * 0x1_0000 + (d[i + 1] as int) * 256 + d[i + 2], i + 3)
  }

  function UnpackNibble(h: Byte): Parse<Byte> {
    if h < 10 then Ok(48 + h, 0) else if h == 10 then Ok(45, 0) else if h == 11 then Ok(46, 0)
    else if h == 15 then Ok(0, 0) else Err(InvalidPacked)
  }

  function UnpackHex(h: Byte): Parse<Byte> {
    if h < 10 then Ok(48 + h, 0) else if h < 16 then Ok(65 + h - 10, 0) else Err(InvalidPacked)
  }

  function Unpack(hex: bool, h: Byte): Parse<Byte> {
    if hex then UnpackHex(h) else UnpackNibble(h)
  }

  function ReadPairs(hex: bool, d: Bytes, i: nat, count: nat): (r: Parse<Bytes>)
    requires i <= |d|
    ensures r.Ok? ==> r.next == i + count <= |d| && |r.value| == 2 * count
    decreases count
  {
    if count == 0 then Ok([], i)
    else
      var (b, j) :- ReadByte(d, i);
      var (lower, _) :- Unpack(hex, b / 16);
      var (upper, _) :- Unpack(hex, b % 16);
      var (rest, next) :- ReadPairs(hex, d, j, count - 1);
      Ok([lower, upper] + rest, next)
  }

  function ReadPacked(hex: bool, d: Bytes, i: nat): (r: Parse<Bytes>)
    requires i <= |d|
    ensures r.Ok? ==> i < r.next <= |d|
  {
    var (start, j) :- ReadByte(d, i);
    var (chars, next) :- ReadPairs(hex, d, j, start % 128);
    if start / 128 == 0 then Ok(chars, next)
    else if chars == [] then Err(Fault)
    else Ok(chars[..|chars| - 1], next)
  }

  function ReadListSize(d: Bytes, i: nat, tag: int): (r: Parse<nat>)
    requires i <= |d|
    ensures r.Ok? ==> i <= r.next <= |d|
  {
    if tag == LIST_EMPTY then Ok(0, i)
    else if tag == LIST_8 then ReadInt(d, i, 1)
    else if tag == LIST_16 then ReadInt(d, i, 2)
    else Err(InvalidListTag)
  }

  function ReadSized(d: Bytes, size: Parse<nat>, asString: bool): (r: Parse<Value>)
    requires size.Ok? ==> size.next <= |d|
    ensures r.Ok? ==> size.Ok? && size.next <= r.next <= |d|
  {
    var (n, j) :- size;
    var (data, next) :- ReadRaw(d, j, n);
    Ok(if asString then Str(data) else Blob(data), next)
  }

  function GetDoubleToken(t: Tables, dict: int, index: int): Parse<Bytes> {
    if dict < 0 || dict >= |t.double| then Err(InvalidDictionary)
    else if index < 0 || index >= |t.double[dict]| then Err(InvalidDictionary)
    else Ok(t.double[dict][index], 0)
  }

  /** The forms that hold no other value: bytes, tokens and packed strings. */
  function ReadScalar(t: Tables, d: Bytes, i: nat, tag: Byte, asString: bool): (r: Parse<Value>)
    requires i <= |d|
    ensures r.Ok? ==> i <= r.next <= |d|
  {
    if tag == BINARY_8 then ReadSized(d, ReadInt(d, i, 1), asString)
    else if tag == BINARY_20 then ReadSized(d, ReadInt20(d, i), asString)
    else if tag == BINARY_32 then ReadSized(d, ReadInt(d, i, 4), asString)
    else if DICTIONARY_0 <= tag <= DICTIONARY_3 then
      var (index, next) :- ReadInt(d, i, 1);
      var (token, _) :- GetDoubleToken(t, tag - DICTIONARY_0, index);
      Ok(Str(token), next)
    else if tag == NIBBLE_8 || tag == HEX_8 then
      var (s, next) :- ReadPacked(tag == HEX_8, d, i);
      Ok(Str(s), next)
    else if 1 <= tag < |t.single| then Ok(Str(t.single[tag]), i)
    else Err(InvalidToken)
  }

  function Read(t: Tables, d: Bytes, i: nat, asString: bool): (r: Parse<Value>)
    requires i <= |d|
    ensures r.Ok? ==> i < r.next <= |d|
    decreases |d| - i, 0
  {
    var (tag, j) :- ReadByte(d, i);
    if tag == LIST_EMPTY then Ok(Nil, j)
    else if tag == LIST_8 || tag == LIST_16 then
      var (size, k) :- ReadListSize(d, j, tag);
      var (nodes, next) :- ReadNodes(t, d, k, size);
      Ok(Nodes(nodes), next)
    else if tag == FB_JID then ReadFBJid(t, d, j)
    else if tag == INTEROP_JID then ReadInteropJid(t, d, j)
    else if tag == JID_PAIR then ReadJidPair(t, d, j)
    else if tag == AD_JID then ReadADJid(t, d, j)
    else ReadScalar(t, d, j, tag, asString)
  }

  function ReadJidPair(t: Tables, d: Bytes, i: nat): (r: Parse<Value>)
    requires i <= |d|
    ensures r.Ok? ==> i < r.next <= |d|
    decreases |d| - i, 1
  {
    var (user, j) :- Read(t, d, i, true);
    var (server, next) :- Read(t, d, j, true);
    if server == Nil then Err(InvalidJid)
    else if user == Nil && server.Str? then Ok(Jid(NewJID([], server.text)), next)
    else if user.Str? && server.Str? then Ok(Jid(NewJID(user.text, server.text)), next)
    else Err(Fault)
  }

  function ReadInteropJid(t: Tables, d: Bytes, i: nat): (r: Parse<Value>)
    requires i <= |d|
    ensures r.Ok? ==> i < r.next <= |d|
    decreases |d| - i, 1
  {
    var (user, j) :- Read(t, d, i, true);
    var (device, k) :- ReadInt(d, j, 2);
    var (integrator, l) :- ReadInt(d, k, 2);
    var (server, next) :- Read(t, d, l, true);
    if server != Str(INTEROP_SERVER) then Err(InvalidJid)
    else if !user.Str? then Err(Fault)
    else Ok(Jid(JID(user.text, 0, device, integrator, INTEROP_SERVER)), next)
  }

  function ReadFBJid(t: Tables, d: Bytes, i: nat): (r: Parse<Value>)
    requires i <= |d|
    ensures r.Ok? ==> i < r.next <= |d|
    decreases |d| - i, 1
  {
    var (user, j) :- Read(t, d, i, true);
    var (device, k) :- ReadInt(d, j, 2);
    var (server, next) :- Read(t, d, k, true);
    if server != Str(MESSENGER_SERVER) then Err(InvalidJid)
    else if !user.Str? then Err(Fault)
    else Ok(Jid(JID(user.text, 0, device, 0, server.text)), next)
  }

  function ReadADJid(t: Tables, d: Bytes, i: nat): (r: Parse<Value>)
    requires i <= |d|
    ensures r.Ok? ==> i < r.next <= |d|
    decreases |d| - i, 1
  {
    var (agent, j) :- ReadByte(d, i);
    var (device, k) :- ReadByte(d, j);
    var (user, next) :- Read(t, d, k, true);
    if !user.Str? then Err(Fault) else Ok(Jid(NewADJID(user.text, agent, device)), next)
  }

  function ReadNodes(t: Tables, d: Bytes, i: nat, count: nat): (r: Parse<seq<Node>>)
    requires i <= |d|
    ensures r.Ok? ==> i <= r.next <= |d| && |r.value| == count
    decreases |d| - i, 3
  {
    if count == 0 then Ok([], i)
    else
      var (first, j) :- ReadNode(t, d, i);
      var (rest, next) :- ReadNodes(t, d, j, count - 1);
      Ok([first] + rest, next)
  }

  /** Later attributes overwrite earlier ones of the same name. */
  function ReadAttrs(t: Tables, d: Bytes, i: nat, count: nat, attrs: map<Bytes, Value>): (r: Parse<map<Bytes, Value>>)
    requires i <= |d|
    ensures r.Ok? ==> i <= r.next <= |d|
    decreases |d| - i, 1
  {
    if count == 0 then Ok(attrs, i)
    else
      var (key, j) :- Read(t, d, i, true);
      if !key.Str? then Err(NonStringKey)
      else
        var (value, k) :- Read(t, d, j, true);
        ReadAttrs(t, d, k, count - 1, attrs[key.text := value])
  }

  function ReadNode(t: Tables, d: Bytes, i: nat): (r: Parse<Node>)
    requires i <= |d|
    ensures r.Ok? ==> i < r.next <= |d|
    decreases |d| - i, 2
  {
    var (listTag, j) :- ReadInt(d, i, 1);
    var (size, k) :- ReadListSize(d, j, listTag);
    var (tag, l) :- Read(t, d, k, true);
    if !tag.Str? then Err(Fault)
    else if size == 0 || tag.text == [] then Err(InvalidNode)
    else
      var (attrs, m) :- ReadAttrs(t, d, l, (size - 1) / 2, map[]);
      if size % 2 == 1 then Ok(Node(tag.text, attrs, Nil), m)
      else
        var (content, next) :- Read(t, d, m, false);
        Ok(Node(tag.text, attrs, content), next)
  }
}
