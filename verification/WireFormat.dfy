/**
 The bytes of every form on the wire, by number and position: the forms the encoder writes (binary/encoder.go), and what
 the decoder makes of the bytes that the encoder never writes (binary/decoder.go, types/jid.go).
 */
module WireFormat {
  import opened Bytes
  import opened Tokens
  import opened Jids
  import opened BinaryXml
  import opened RoundTrip

  // ---- Lengths ----

  lemma TwoBytes(v: nat)
    ensures BigEndian(v, 2) == [v / 256 % 256, v % 256]
  {
    BigEndianDigits(v, 2, 0);
    BigEndianDigits(v, 2, 1);
    assert ShiftRight(v, 1) == ShiftRight(v, 0) / 256;
  }

  lemma FourBytes(v: nat)
    ensures BigEndian(v, 4) == [v / 0x100_0000 % 256, v / 0x1_0000 % 256, v / 256 % 256, v % 256]
  {
    BigEndianDigits(v, 4, 0);
    BigEndianDigits(v, 4, 1);
    BigEndianDigits(v, 4, 2);
    BigEndianDigits(v, 4, 3);
    assert ShiftRight(v, 1) == v / 256;
    assert ShiftRight(v, 2) == v / 256 / 256 == v / 0x1_0000;
    assert ShiftRight(v, 3) == v / 0x1_0000 / 256 == v / 0x100_0000;
  }

  lemma ThreeDigits(n: nat)
    requires n < 0x100_0000
    ensures n == n / 0x1_0000 * 0x1_0000 + n / 256 % 256 * 0x100 + n % 256
  {
    assert n / 0x1_0000 == n / 256 / 256;
  }

  lemma FourDigits(n: nat)
    requires n < 0x1_0000_0000
    ensures n / 0x100_0000 < 256
    ensures n == n / 0x100_0000 * 0x100_0000 + n / 0x1_0000 % 256 * 0x1_0000 + n / 256 % 256 * 0x100 + n % 256
  {
    assert n / 0x100_0000 == n / 0x1_0000 / 256 && n / 0x1_0000 == n / 256 / 256;
  }

  /** 252 and one byte, 253 and 20 bits in three, 254 and four bytes, most significant first. */
  lemma LengthBytes(n: nat)
    requires n < 0x8000_0000
    ensures var b := EncodeLength(n);
            if n < 0x100 then b == [252, n]
            else if n < 0x10_0000 then
              |b| == 4 && b[0] == 253 && b[1] < 16
              && n == b[1] as int * 0x1_0000 + b[2] as int * 0x100 + b[3]
            else
              |b| == 5 && b[0] == 254
              && n == b[1] as int * 0x100_0000 + b[2] as int * 0x1_0000 + b[3] as int * 0x100 + b[4]
  {
    if n < 0x100 {
      BigEndianDigits(n, 1, 0);
      assert EncodeLength(n) == [252, n];
    } else if n < 0x10_0000 {
      ThreeDigits(n);
    } else {
      hide BigEndian;
      FourBytes(n);
      FourDigits(n);
    }
  }

  /** 0 for the empty list, 248 and one byte, 249 and the two low bytes of the size. */
  lemma ListBytes(n: nat)
    ensures EncodeListStart(n)
         == if n == 0 then [0] else if n < 256 then [248, n] else [249, n / 256 % 256, n % 256]
  {
    if 0 < n < 256 {
      BigEndianDigits(n, 1, 0);
      assert EncodeListStart(n) == [248, n];
    } else if n >= 256 {
      TwoBytes(n);
    }
  }

  // ---- Strings ----

  const NIBBLES: Bytes := Ascii("0123456789-.")
  const HEX_DIGITS: Bytes := Ascii("0123456789ABCDEF")

  /** At most 127 characters, all of them in the alphabet. */
  predicate Spelled(s: Bytes, alphabet: Bytes) {
    |s| <= 127 && forall c :: c in s ==> c in alphabet
  }

  /** Half byte `k` from a position on, the high half first. */
  function HalfByte(d: Bytes, i: nat, k: nat): (h: int)
    requires i + k / 2 < |d|
    ensures 0 <= h < 16
  {
    if k % 2 == 0 then d[i + k / 2] / 16 else d[i + k / 2] % 16
  }

  /** A tag, the number of bytes with the high bit for an odd number of characters, and then half a byte for each
      character, its place in the alphabet; 15 fills up. */
  ghost predicate PackedBytes(b: Bytes, tag: Byte, s: Bytes, alphabet: Bytes) {
    && |b| == 2 + (|s| + 1) / 2 && b[0] == tag && b[1] == (|s| + 1) / 2 + (if |s| % 2 == 1 then 128 else 0)
    && (forall i :: 0 <= i < |s| ==>
          HalfByte(b, 2, i) < |alphabet| && alphabet[HalfByte(b, 2, i)] == s[i])
    && (|s| % 2 == 1 ==> HalfByte(b, 2, |s|) == 15)
  }

  /** The first form that applies: single token, dictionary token, nibbles, hex digits, or length and bytes. */
  ghost predicate StringBytes(ix: Index, s: Bytes, b: Bytes) {
    if s in ix.single then b == [ix.single[s]]
    else if s in ix.double then b == [(ix.double[s].0 as int + 236) % 256, ix.double[s].1]
    else if Spelled(s, NIBBLES) then PackedBytes(b, 255, s, NIBBLES)
    else if Spelled(s, HEX_DIGITS) then PackedBytes(b, 251, s, HEX_DIGITS)
    else b == EncodeLength(|s|) + s
  }

  lemma NibbleAlphabet(c: Byte)
    ensures |NIBBLES| == 12 && (c in NIBBLES <==> IsNibble(c))
    ensures IsNibble(c) ==> PackNibble(c) < 12 && NIBBLES[PackNibble(c)] == c
  {
    var s := "0123456789-.";
    assert |s| == 12;
    assert forall i :: 0 <= i < 12 ==> NIBBLES[i] == s[i] as int;
    if IsNibble(c) {
      assert NIBBLES[PackNibble(c)] == c;
    }
  }

  lemma HexAlphabet(c: Byte)
    ensures |HEX_DIGITS| == 16 && (c in HEX_DIGITS <==> IsHex(c))
    ensures IsHex(c) ==> PackHex(c) < 16 && HEX_DIGITS[PackHex(c)] == c
  {
    var s := "0123456789ABCDEF";
    assert |s| == 16;
    assert forall i :: 0 <= i < 16 ==> HEX_DIGITS[i] == s[i] as int;
    if IsHex(c) {
      assert HEX_DIGITS[PackHex(c)] == c;
    }
  }

  function Alphabet(hex: bool): Bytes {
    if hex then HEX_DIGITS else NIBBLES
  }

  lemma AlphabetOf(hex: bool, c: Byte)
    ensures c in Alphabet(hex) <==> if hex then IsHex(c) else IsNibble(c)
    ensures c in Alphabet(hex) ==> Pack(hex, c) < |Alphabet(hex)| && Alphabet(hex)[Pack(hex, c)] == c
  {
    NibbleAlphabet(c);
    HexAlphabet(c);
  }

  lemma SpelledIff(hex: bool, s: Bytes)
    ensures Packable(hex, s) <==> Spelled(s, Alphabet(hex))
  {
    hide IsHex, IsNibble, Alphabet;
    forall c
      ensures c in Alphabet(hex) <==> if hex then IsHex(c) else IsNibble(c)
    {
      AlphabetOf(hex, c);
    }
    assert forall i :: 0 <= i < |s| ==> s[i] in s;
  }

  lemma {:induction false} PairHalves(hex: bool, s: Bytes, i: nat)
    requires Packable(hex, s) && i < 2 * ((|s| + 1) / 2)
    ensures HalfByte(PackPairs(hex, s), 0, i)
         == if i < |s| then Pack(hex, s[i]) else 15
  {
    hide Pack;
    if i < 2 {
      FirstHalves(hex, s);
    } else {
      PairHalves(hex, s[2..], i - 2);
      assert PackPairs(hex, s)[1..] == PackPairs(hex, s[2..]);
    }
  }

  lemma FirstHalves(hex: bool, s: Bytes)
    requires Packable(hex, s) && s != []
    ensures HalfByte(PackPairs(hex, s), 0, 0) == Pack(hex, s[0])
    ensures HalfByte(PackPairs(hex, s), 0, 1) == if |s| == 1 then 15 else Pack(hex, s[1])
  {
    assert Pack(hex, 0) == 15;
    hide Pack;
    HalfBytes(Pack(hex, s[0]), if |s| == 1 then Pack(hex, 0) else Pack(hex, s[1]));
  }

  lemma PackedForm(hex: bool, s: Bytes)
    requires Packable(hex, s)
    ensures PackedBytes(EncodePacked(hex, s), if hex then 251 else 255, s, Alphabet(hex))
  {
    hide PackPairs, Pack, Alphabet;
    var b := EncodePacked(hex, s);
    assert b[2..] == PackPairs(hex, s);
    forall i | 0 <= i < |s|
      ensures HalfByte(b, 2, i) < |Alphabet(hex)| && Alphabet(hex)[HalfByte(b, 2, i)] == s[i]
    {
      PairHalves(hex, s, i);
      AlphabetOf(hex, s[i]);
    }
    if |s| % 2 == 1 {
      PairHalves(hex, s, |s|);
    }
  }

  lemma StringForm(ix: Index, s: Bytes)
    ensures StringBytes(ix, s, EncodeString(ix, s))
  {
    hide EncodePacked, PackedBytes, Spelled, ValidateNibble, ValidateHex;
    SpelledIff(false, s);
    SpelledIff(true, s);
    if Packable(false, s) {
      PackedForm(false, s);
    }
    if Packable(true, s) {
      PackedForm(true, s);
    }
  }

  // ---- JIDs ----

  /** The domain number of a server that has one. */
  function Domain(server: Bytes): Byte {
    if server == Ascii("s.whatsapp.net") then 0 else if server == Ascii("lid") then 1 else 128
  }

  /** The four forms, told apart by server and device. */
  ghost predicate JidBytes(ix: Index, j: JID, b: Bytes) {
    if || ((j.server == Ascii("s.whatsapp.net") || j.server == Ascii("lid")) && j.device > 0)
       || j.server == Ascii("hosted") then
      b == [247, Domain(j.server), j.device % 256] + EncodeString(ix, j.user)
    else if j.server == Ascii("msgr") then
      b == [246] + EncodeString(ix, j.user) + [j.device / 256, j.device % 256] + EncodeString(ix, j.server)
    else if j.server == Ascii("interop") then
      b == [245] + EncodeString(ix, j.user) + [j.device / 256, j.device % 256]
           + [j.integrator / 256, j.integrator % 256] + EncodeString(ix, j.server)
    else
      b == [250] + (if j.user == [] then [0] else EncodeString(ix, j.user)) + EncodeString(ix, j.server)
  }

  lemma JidForm(ix: Index, j: JID)
    ensures JidBytes(ix, j, EncodeJid(ix, j))
  {
    hide EncodeString;
    ServersDiffer();
    TwoBytes(j.device);
    TwoBytes(j.integrator);
  }

  /** The first byte tells the form, and the fields follow at their places. */
  lemma JidFirstByte(ix: Index, j: JID)
    ensures var b := EncodeJid(ix, j);
            && (b[0] == 247 <==>
                  ((j.server == Ascii("s.whatsapp.net") || j.server == Ascii("lid")) && j.device > 0)
                  || j.server == Ascii("hosted"))
            && (b[0] == 246 <==> j.server == Ascii("msgr"))
            && (b[0] == 245 <==> j.server == Ascii("interop"))
            && b[0] in {245, 246, 247, 250}
  {
    hide EncodeString;
    JidForm(ix, j);
    ServersDiffer();
  }

  /** The domain number of a server is read back as the server; without one, the agent is the number. */
  lemma DomainRoundTrip(j: JID, device: Byte)
    ensures if j.server in {Ascii("s.whatsapp.net"), Ascii("lid"), Ascii("hosted"), Ascii("hosted.lid")} then
              NewADJID(j.user, j.ActualAgent(), device) == JID(j.user, 0, device, 0, j.server)
            else j.ActualAgent() == j.rawAgent
  {
    ServersDiffer();
  }

  // ---- Nodes ----

  /** The attributes that count: neither nil nor the empty string. */
  function Present(attrs: map<Bytes, Value>): set<Bytes> {
    set k | k in attrs && !attrs[k].Nil? && !(attrs[k].Str? && attrs[k].text == [])
  }

  /** A node starts with its list size, twice the attributes, one for the tag and one for the content, and its tag. */
  lemma NodeHead(ix: Index, n: Node, b: Bytes)
    requires WritesNode(ix, n, b)
    ensures if n.tag == Ascii("0") then b == [248, 0]
            else
              var head := EncodeListStart(2 * |Present(n.attrs)| + 1 + if n.content.Nil? then 0 else 1)
                          + EncodeString(ix, n.tag);
              |head| <= |b| && b[..|head|] == head
  {
    hide EncodeListStart, EncodeString;
    if n.tag != ZERO_TAG {
      var attrs, content :|
        && WritesAttrs(ix, n, KeptKeys(n.attrs), attrs) && WritesContent(ix, n, content)
        && b == EncodeListStart(ListSize(n)) + EncodeString(ix, n.tag) + attrs + content;
      assert Present(n.attrs) == KeptKeys(n.attrs);
    }
  }

  /** Numbers, booleans and bytes are written as their text, byte attributes with their length. */
  lemma ValueForms(ix: Index, v: Value, b: Bytes)
    requires WritesValue(ix, v, b)
    ensures v.Nil? ==> b == [0]
    ensures v.Bool? ==> StringBytes(ix, if v.b then Ascii("true") else Ascii("false"), b)
    ensures v.Str? ==> StringBytes(ix, v.text, b)
    ensures v.Blob? ==> b == EncodeLength(|v.data|) + v.data
    ensures v.Jid? ==> JidBytes(ix, v.jid, b)
    ensures v.Nodes? ==>
              var start := EncodeListStart(|v.nodes|);
              |start| <= |b| && b[..|start|] == start
  {
    hide EncodeString, StringBytes, JidBytes, EncodeLength, EncodeListStart, WritesNodes;
    match v
    case Bool(p) => StringForm(ix, BoolText(p));
    case Str(s) => StringForm(ix, s);
    case Jid(j) => JidForm(ix, j);
    case Nodes(ns) =>
      var rest :| WritesNodes(ix, ns, rest) && b == EncodeListStart(|ns|) + rest;
    case _ =>
  }

  // ---- Reading what is not written ----

  /** The half bytes that stand for no character. */
  lemma UnusedHalves(h: Byte)
    requires h < 16
    ensures Unpack(false, h).Err? <==> 12 <= h <= 14
    ensures Unpack(true, h).Ok?
    ensures Unpack(false, h).Ok? && h < 12 ==> Unpack(false, h).value == NIBBLES[h]
    ensures Unpack(true, h).value == HEX_DIGITS[h]
    ensures Unpack(false, 15).value == 0
  {
    var s, t := "0123456789-.", "0123456789ABCDEF";
    assert forall i :: 0 <= i < 12 ==> NIBBLES[i] == s[i] as int;
    assert forall i :: 0 <= i < 16 ==> HEX_DIGITS[i] == t[i] as int;
  }

  /** Whether a half byte stands for a character, and which one; the filling reads as a zero byte among nibbles. */
  predicate Stands(hex: bool, h: Byte) {
    hex || h < 12 || h == 15
  }

  function Character(hex: bool, h: Byte): Byte
    requires h < 16
  {
    if h < |Alphabet(hex)| then Alphabet(hex)[h] else 0
  }

  lemma UnpackStands(hex: bool, h: Byte)
    requires h < 16
    ensures Unpack(hex, h) == if Stands(hex, h) then Ok(Character(hex, h), 0) else Err(InvalidPacked)
  {
    UnusedHalves(h);
    assert |"0123456789-."| == 12 && |"0123456789ABCDEF"| == 16;
  }

  lemma {:induction false} PairsRead(hex: bool, d: Bytes, i: nat, count: nat)
    requires i + count <= |d|
    ensures var r := ReadPairs(hex, d, i, count);
            if forall k :: 0 <= k < 2 * count ==> Stands(hex, HalfByte(d, i, k)) then
              r.Ok? && r.next == i + count
              && forall k :: 0 <= k < 2 * count ==> r.value[k] == Character(hex, HalfByte(d, i, k))
            else r == Err(InvalidPacked)
    decreases count
  {
    hide Unpack, Stands, Character;
    if count > 0 {
      PairsRead(hex, d, i + 1, count - 1);
      UnpackStands(hex, d[i] / 16);
      UnpackStands(hex, d[i] % 16);
      assert HalfByte(d, i, 0) == d[i] / 16 && HalfByte(d, i, 1) == d[i] % 16;
      var next := i + 1;
      assert forall k :: 0 <= k < 2 * (count - 1) ==> HalfByte(d, next, k) == HalfByte(d, i, k + 2);
      assert forall k :: 2 <= k < 2 * count ==> HalfByte(d, i, k) == HalfByte(d, next, k - 2);
    }
  }

  /** 251 and 255: the second byte holds how many bytes follow, and in its high bit that the last half is no character; an
      odd number of characters in no bytes panics. */
  lemma ReadPackedByTag(t: Tables, d: Bytes, i: nat, asString: bool)
    requires i + 2 <= |d| && d[i] in {251, 255} && i + 2 + d[i + 1] % 128 <= |d|
    ensures var n, hex, start, r := d[i + 1] % 128, d[i] == 251, i + 2, Read(t, d, i, asString);
            if exists k :: 0 <= k < 2 * n && !Stands(hex, HalfByte(d, start, k)) then r == Err(InvalidPacked)
            else if d[i + 1] == 128 then r == Err(Fault)
            else
              && r.Ok? && r.next == start + n && r.value.Str?
              && |r.value.text| == 2 * n - (if d[i + 1] > 128 then 1 else 0)
              && forall k :: 0 <= k < |r.value.text| ==> r.value.text[k] == Character(hex, HalfByte(d, start, k))
  {
    hide Stands, Character, HalfByte;
    PairsRead(d[i] == 251, d, i + 2, d[i + 1] % 128);
    assert Read(t, d, i, asString) == ReadScalar(t, d, i + 1, d[i], asString);
  }

  /** Tags by number: 0 is nil, 1 to 235 are tokens, 236 to 239 dictionaries, and 240 to 244 mean nothing. */
  lemma ReadByTag(t: Tables, d: Bytes, i: nat, asString: bool)
    requires t.Valid() && i < |d|
    ensures d[i] == 0 ==> Read(t, d, i, asString) == Ok(Nil, i + 1)
    ensures 1 <= d[i] <= 235 ==> Read(t, d, i, asString) == Ok(Str(t.single[d[i]]), i + 1)
    ensures 236 <= d[i] <= 239 ==>
              Read(t, d, i, asString)
              == if i + 1 == |d| then Err(EOF)
                 else if d[i + 1] < |t.double[d[i] - 236]| then Ok(Str(t.double[d[i] - 236][d[i + 1]]), i + 2)
                 else Err(InvalidDictionary)
    ensures 240 <= d[i] <= 244 ==> Read(t, d, i, asString) == Err(InvalidToken)
  {
    if i + 1 < |d| {
      ReadIntByte(d, i + 1);
    }
  }

  lemma ReadFourBytes(d: Bytes, i: nat)
    requires i + 4 <= |d|
    ensures ReadInt(d, i, 4)
         == Ok(d[i] as int * 0x100_0000 + d[i + 1] as int * 0x1_0000 + d[i + 2] as int * 0x100 + d[i + 3], i + 4)
  {
    var b := d[i..i + 4];
    assert b[..3][..2] == d[i..i + 2] && b[..3][2] == d[i + 2];
    ReadTwoBytes(d, i);
    assert FromBigEndian(b[..3]) == 256 * FromBigEndian(d[i..i + 2]) + d[i + 2];
  }

  /** 252, 253 and 254 read as many bytes as they say, or report the end of the input. */
  lemma ReadSizedByTag(t: Tables, d: Bytes, i: nat, asString: bool, n: nat, k: nat)
    requires t.Valid() && i < |d|
    requires || (d[i] == 252 && i + 2 <= |d| && n == d[i + 1] && k == i + 2)
             || (d[i] == 253 && i + 4 <= |d| && k == i + 4
                 && n == d[i + 1] as int % 16 * 0x1_0000 + d[i + 2] as int * 0x100 + d[i + 3])
             || (d[i] == 254 && i + 5 <= |d| && k == i + 5
                 && n == d[i + 1] as int * 0x100_0000 + d[i + 2] as int * 0x1_0000 + d[i + 3] as int * 0x100 + d[i + 4])
    ensures Read(t, d, i, asString)
         == if k + n > |d| then Err(EOF)
            else Ok(if asString then Str(d[k..k + n]) else Blob(d[k..k + n]), k + n)
  {
    if d[i] == 252 {
      ReadIntByte(d, i + 1);
    } else if d[i] == 254 {
      ReadFourBytes(d, i + 1);
      hide ReadInt;
    }
  }

  /** The size behind the first byte of a list. */
  lemma ReadListSizes(d: Bytes, i: nat, tag: Byte)
    requires i <= |d|
    ensures ReadListSize(d, i, tag)
         == if tag == 0 then Ok(0, i)
            else if tag == 248 then if i == |d| then Err(EOF) else Ok(d[i] as int, i + 1)
            else if tag == 249 then
              if i + 2 > |d| then Err(EOF) else Ok(d[i] as int * 256 + d[i + 1], i + 2)
            else Err(InvalidListTag)
  {
    if tag == 248 && i < |d| {
      ReadIntByte(d, i);
    } else if tag == 249 && i + 2 <= |d| {
      ReadTwoBytes(d, i);
    }
  }

  /** The domain numbers of the form with tag 247: any other number stays as the agent, without a server. */
  lemma ReadDomains(t: Tables, d: Bytes, i: nat, asString: bool, user: Bytes, next: nat)
    requires i + 3 <= |d| && d[i] == 247 && Read(t, d, i + 3, true) == Ok(Str(user), next)
    ensures var agent, device := d[i + 1], d[i + 2];
            Read(t, d, i, asString)
            == Ok(Jid(if agent == 0 then JID(user, 0, device, 0, Ascii("s.whatsapp.net"))
                      else if agent == 1 then JID(user, 0, device, 0, Ascii("lid"))
                      else if agent == 128 then JID(user, 0, device, 0, Ascii("hosted"))
                      else if agent == 129 then JID(user, 0, device, 0, Ascii("hosted.lid"))
                      else JID(user, agent, device, 0, [])), next)
  {
  }

  /** An agent and device form holds no user but a string. */
  lemma ReadNoUser(t: Tables, d: Bytes, i: nat, asString: bool)
    requires i + 3 <= |d| && d[i] == 247 && Read(t, d, i + 3, true).Ok? && !Read(t, d, i + 3, true).value.Str?
    ensures Read(t, d, i, asString) == Err(Fault)
  {
  }

  /** A server and user pair: the user may be nil, the server may not. */
  lemma ReadPairs250(t: Tables, d: Bytes, i: nat, asString: bool, user: Value, j: nat, server: Value, next: nat)
    requires i < |d| && d[i] == 250 && Read(t, d, i + 1, true) == Ok(user, j) && Read(t, d, j, true) == Ok(server, next)
    ensures Read(t, d, i, asString)
         == if server.Nil? then Err(InvalidJid)
            else if server.Str? && user.Nil? then Ok(Jid(JID([], 0, 0, 0, server.text)), next)
            else if server.Str? && user.Str? then Ok(Jid(JID(user.text, 0, 0, 0, server.text)), next)
            else Err(Fault)
  {
  }

  /** The forms with tags 245 and 246 name their server, and no other one is accepted. */
  lemma ReadInterop(t: Tables, d: Bytes, i: nat, asString: bool, user: Value, j: nat, server: Value, next: nat)
    requires i < |d| && d[i] == 245 && Read(t, d, i + 1, true) == Ok(user, j)
    requires j + 4 <= |d| && Read(t, d, j + 4, true) == Ok(server, next)
    ensures var device, integrator := d[j] as int * 256 + d[j + 1], d[j + 2] as int * 256 + d[j + 3];
            Read(t, d, i, asString)
            == if server != Str(Ascii("interop")) then Err(InvalidJid)
               else if !user.Str? then Err(Fault)
               else Ok(Jid(JID(user.text, 0, device, integrator, Ascii("interop"))), next)
  {
    ReadTwoBytes(d, j);
    ReadTwoBytes(d, j + 2);
    hide ReadInt;
  }

  lemma ReadMessenger(t: Tables, d: Bytes, i: nat, asString: bool, user: Value, j: nat, server: Value, next: nat)
    requires i < |d| && d[i] == 246 && Read(t, d, i + 1, true) == Ok(user, j)
    requires j + 2 <= |d| && Read(t, d, j + 2, true) == Ok(server, next)
    ensures Read(t, d, i, asString)
         == if server != Str(Ascii("msgr")) then Err(InvalidJid)
            else if !user.Str? then Err(Fault)
            else Ok(Jid(JID(user.text, 0, d[j] as int * 256 + d[j + 1], 0, Ascii("msgr"))), next)
  {
    ReadTwoBytes(d, j);
    hide ReadInt;
  }

  lemma ReadTwoBytes(d: Bytes, i: nat)
    requires i + 2 <= |d|
    ensures ReadInt(d, i, 2) == Ok(d[i] as int * 256 + d[i + 1], i + 2)
  {
    assert d[i..i + 2] == [d[i], d[i + 1]];
    assert [d[i], d[i + 1]][..1] == [d[i]] && [d[i]][..0] == [];
    assert FromBigEndian([d[i]]) == d[i];
  }

  /** One more attribute after some others gives its name its value, whatever the name had before. */
  lemma {:induction false} LastAttrWins(t: Tables, d: Bytes, i: nat, count: nat, attrs: map<Bytes, Value>,
                                        before: map<Bytes, Value>, j: nat, name: Bytes, k: nat, value: Value, next: nat)
    requires i <= |d| && ReadAttrs(t, d, i, count, attrs) == Ok(before, j)
    requires Read(t, d, j, true) == Ok(Str(name), k) && Read(t, d, k, true) == Ok(value, next)
    ensures ReadAttrs(t, d, i, count + 1, attrs) == Ok(before[name := value], next)
    decreases count
  {
    hide Read;
    if count > 0 {
      var first, l := Read(t, d, i, true), Read(t, d, i, true).next;
      var second := Read(t, d, l, true);
      LastAttrWins(t, d, second.next, count - 1, attrs[first.value.text := second.value], before, j, name, k, value, next);
    }
  }

  /** An attribute name must be a string; the tag must be one, and neither it nor the list may be empty. */
  lemma ReadBadNames(t: Tables, d: Bytes, i: nat, count: nat, attrs: map<Bytes, Value>, v: Value, next: nat)
    requires i <= |d| && count > 0 && Read(t, d, i, true) == Ok(v, next) && !v.Str?
    ensures ReadAttrs(t, d, i, count, attrs) == Err(NonStringKey)
  {
  }

  lemma ReadBadNodes(t: Tables, d: Bytes, i: nat, size: nat, k: nat, tag: Value, l: nat)
    requires i < |d| && ReadListSize(d, i + 1, d[i]) == Ok(size, k) && Read(t, d, k, true) == Ok(tag, l)
    ensures !tag.Str? ==> ReadNode(t, d, i) == Err(Fault)
    ensures tag.Str? && (size == 0 || tag.text == []) ==> ReadNode(t, d, i) == Err(InvalidNode)
  {
    hide Read, ReadAttrs, ReadListSize;
    ReadIntByte(d, i);
  }

  /** A node starts with 0, 248 or 249. */
  lemma ReadNoNode(t: Tables, d: Bytes, i: nat)
    requires i < |d| && d[i] !in {0, 248, 249}
    ensures ReadNode(t, d, i) == Err(InvalidListTag)
  {
    hide Read, ReadAttrs;
    ReadIntByte(d, i);
  }
}
