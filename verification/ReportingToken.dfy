/**
 The content of a reporting token (reportingtoken.go): the scanner over the wire bytes of a protobuf message, and
 the projection of the message's field tree that it computes.
 */
module ReportingToken {
  import opened Wrappers
  import opened Bytes
  import opened Sorting
  import opened Varints

  /** Which fields belong to the token, and for messages which of their fields. */
  datatype Config = Config(number: int, isMessage: bool, subfields: seq<Config>) {
    predicate HoldsMessage() {
      isMessage || subfields != []
    }
  }

  /** The first entry for a number counts. */
  function GetConfig(config: seq<Config>, number: int): (r: Option<Config>)
    ensures r.Some? ==> r.value in config && r.value.number == number
  {
    if config == [] then None
    else if config[0].number == number then Some(config[0])
    else GetConfig(config[1..], number)
  }

  /** `c` is the first entry that has the number. */
  ghost predicate FirstEntry(config: seq<Config>, number: int, c: Config) {
    exists i :: 0 <= i < |config| && config[i] == c && c.number == number
                && forall k :: 0 <= k < i ==> config[k].number != number
  }

  /** A number is found exactly when some entry has it, and then the first one that does. */
  lemma {:induction false} ConfigLookup(config: seq<Config>, number: int)
    ensures GetConfig(config, number).None? <==> forall c :: c in config ==> c.number != number
    ensures forall c :: GetConfig(config, number) == Some(c) <==> FirstEntry(config, number, c)
  {
    if config != [] {
      if config[0].number == number {
        assert FirstEntry(config, number, config[0]);
      } else {
        ConfigLookup(config[1..], number);
        FirstEntryOfTail(config, number);
      }
    }
  }

  lemma FirstEntryOfTail(config: seq<Config>, number: int)
    requires config != [] && config[0].number != number
    ensures forall c :: FirstEntry(config[1..], number, c) <==> FirstEntry(config, number, c)
    ensures (forall c :: c in config ==> c.number != number) <==> forall c :: c in config[1..] ==> c.number != number
  {
    forall c
      ensures FirstEntry(config[1..], number, c) <==> FirstEntry(config, number, c)
    {
      if FirstEntry(config[1..], number, c) {
        var i :| 0 <= i < |config| - 1 && config[1..][i] == c && c.number == number
                 && forall k :: 0 <= k < i ==> config[1..][k].number != number;
        assert forall k :: 1 <= k <= i ==> config[k] == config[1..][k - 1];
        assert config[i + 1] == c;
      }
      if FirstEntry(config, number, c) {
        var i :| 0 <= i < |config| && config[i] == c && c.number == number
                 && forall k :: 0 <= k < i ==> config[k].number != number;
        assert i > 0 && config[1..][i - 1] == c;
      }
    }
  }

  const WIRE_VARINT := 0
  const WIRE_64BIT := 1
  const WIRE_BYTES := 2
  const WIRE_32BIT := 5

  const INT64_RANGE := 0x8000_0000_0000_0000

  // ---- The scanner ----

  /** A field that is kept: its number and the bytes that will represent it. */
  datatype Piece = Piece(number: int, data: Bytes)

  /** `NoToken`: an unknown wire type, after which nothing at all is returned. `Malformed`: a length or varint that
      makes the cursor or a slice leave the input. */
  datatype Scanned = Pieces(pieces: seq<Piece>) | NoToken | Malformed

  datatype Extracted = Token(data: Bytes) | Broken

  /** Where a field ends whose payload starts at `i`, and how many bytes its length takes. */
  datatype FieldEnd = EndsAt(end: nat, n: nat) | UnknownWireType | Overrun

  function FindEnd(d: Bytes, i: nat, wire: int): (r: FieldEnd)
    requires i <= |d|
    ensures r.EndsAt? ==> i <= r.end && i + r.n <= |d| && (wire == WIRE_BYTES ==> i + r.n <= r.end)
  {
    var u := ReadUvarint(d[i..]);
    if wire == WIRE_VARINT then if u.n < 0 then Overrun else EndsAt(i + u.n, 0)
    else if wire == WIRE_64BIT then EndsAt(i + 8, 0)
    else if wire == WIRE_BYTES then
      if u.n < 0 || i + u.n + u.value >= INT64_RANGE then Overrun else EndsAt(i + u.n + u.value, u.n)
    else if wire == WIRE_32BIT then EndsAt(i + 4, 0)
    else UnknownWireType
  }

  function WithPieces(before: seq<Piece>, rest: Scanned): Scanned {
    if rest.Pieces? then Pieces(before + rest.pieces) else rest
  }

  /** The pieces of the fields from `i` on. */
  function Scan(order: Order, d: Bytes, i: nat, config: seq<Config>): Scanned
    requires Sorts(order)
    decreases |d|, 1, if i < |d| then |d| - i else 0
  {
    if i >= |d| then Pieces([])
    else
      var tag := ReadUvarint(d[i..]);
      if tag.n <= 0 then Pieces([])
      else match FindEnd(d, i + tag.n, tag.value % 8)
        case Overrun => Malformed
        case UnknownWireType => NoToken
        case EndsAt(end, n) =>
          match GetConfig(config, tag.value / 8)
          case None => Scan(order, d, end, config)
          case Some(c) =>
            if end > |d| then Malformed
            else match ScanField(order, d, i, tag.value, tag.n, n, end, c)
              case None => Malformed
              case Some(pieces) => WithPieces(pieces, Scan(order, d, end, config))
  }

  /** A kept field from `i` to `end`: as it is, or with its message reduced and its tag and length written anew. */
  function ScanField(order: Order, d: Bytes, i: nat, tag: nat, tagLen: nat, n: nat, end: nat, c: Config)
      : Option<seq<Piece>>
    requires Sorts(order)
    requires i + tagLen + n <= |d| && i + tagLen <= end <= |d| && tagLen > 0
    requires tag % 8 == WIRE_BYTES ==> i + tagLen + n <= end
    decreases |d|, 0
  {
    if tag % 8 == WIRE_BYTES && c.HoldsMessage() then
      match Extract(order, d[i + tagLen + n..end], c.subfields)
      case Broken => None
      case Token(sub) =>
        Some(if sub == [] then [] else [Piece(tag / 8, PutUvarint(tag) + PutUvarint(|sub|) + sub)])
    else Some([Piece(tag / 8, d[i..end])])
  }

  function Concat(pieces: seq<Piece>): Bytes {
    if pieces == [] then [] else pieces[0].data + Concat(pieces[1..])
  }

  function PieceNumber(p: Piece): int {
    p.number
  }

  /** `extractReportingTokenContent`; `order` stands for the library sort. */
  function Extract(order: Order, d: Bytes, config: seq<Config>): Extracted
    requires Sorts(order)
    decreases |d|, 2
  {
    match Scan(order, d, 0, config)
    case Malformed => Broken
    case NoToken => Token([])
    case Pieces(pieces) => Token(Concat(Sort(order, PieceNumber, pieces)))
  }

  lemma PiecesNothing(rest: Scanned)
    ensures WithPieces([], rest) == rest
  {
    if rest.Pieces? {
      assert [] + rest.pieces == rest.pieces;
    }
  }

  lemma PiecesTwice(a: seq<Piece>, b: seq<Piece>, rest: Scanned)
    ensures WithPieces(a, WithPieces(b, rest)) == WithPieces(a + b, rest)
  {
    if rest.Pieces? {
      assert a + (b + rest.pieces) == a + b + rest.pieces;
    }
  }

  /** The scanner as a loop over a cursor, recursing into messages. */
  method ExtractReportingTokenContent(order: Order, d: Bytes, config: seq<Config>) returns (r: Extracted)
    requires Sorts(order)
    ensures r == Extract(order, d, config)
    decreases |d|
  {
    hide FindEnd, Sort, Sorts, GetConfig;
    var fields: seq<Piece> := [];
    var i := 0;
    PiecesNothing(Scan(order, d, 0, config));
    while i < |d|
      invariant 0 <= i
      invariant Scan(order, d, 0, config) == WithPieces(fields, Scan(order, d, i, config))
      decreases |d| - i
    {
      var tag := ReadUvarint(d[i..]);
      if tag.n <= 0 {
        assert Scan(order, d, i, config) == Pieces([]);
        break;
      }
      var fieldNum, wireType := tag.value / 8, tag.value % 8;
      var fieldCfg := GetConfig(config, fieldNum);
      var fieldStart := i;
      var end := FindEnd(d, i + tag.n, wireType);
      FindEndAdvances(d, i + tag.n, wireType);
      if end.Overrun? {
        return Broken;
      }
      if end.UnknownWireType? {
        return Token([]);
      }
      if fieldCfg.None? {
        i := end.end;
        continue;
      }
      if end.end > |d| {
        return Broken;
      }
      if wireType == WIRE_BYTES && fieldCfg.value.HoldsMessage() {
        var sub := ExtractReportingTokenContent(order, d[i + tag.n + end.n..end.end], fieldCfg.value.subfields);
        if sub.Broken? {
          return Broken;
        }
        if |sub.data| > 0 {
          var piece := Piece(fieldNum, PutUvarint(tag.value) + PutUvarint(|sub.data|) + sub.data);
          PiecesTwice(fields, [piece], Scan(order, d, end.end, config));
          fields := fields + [piece];
        } else {
          PiecesNothing(Scan(order, d, end.end, config));
        }
      } else {
        PiecesTwice(fields, [Piece(fieldNum, d[fieldStart..end.end])], Scan(order, d, end.end, config));
        fields := fields + [Piece(fieldNum, d[fieldStart..end.end])];
      }
      i := end.end;
    }
    assert fields + [] == fields;
    var sorted := Sort(order, PieceNumber, fields);
    var out: Bytes := [];
    for k := 0 to |sorted|
      invariant out + Concat(sorted[k..]) == Concat(sorted)
    {
      assert sorted[k..][1..] == sorted[k + 1..];
      out := out + sorted[k].data;
    }
    r := Token(out);
  }

  lemma FindEndAdvances(d: Bytes, i: nat, wire: int)
    requires i <= |d|
    ensures var r := FindEnd(d, i, wire);
            r.EndsAt? ==> i <= r.end && i + r.n <= |d| && (wire == WIRE_BYTES ==> i + r.n <= r.end)
  {
  }
}
