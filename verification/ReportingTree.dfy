/**
 What the reporting-token scanner computes on well-formed input: a recursive projection of the field tree of the
 message, under whichever sort the library uses.
 */
module ReportingTree {
  import opened Wrappers
  import opened Bytes
  import opened Sorting
  import opened Varints
  import opened ReportingToken

  /** A field as it stands on the wire. Tags and lengths are varints, not necessarily shortest ones. */
  datatype Field = Field(tag: Bytes, payload: Payload)

  datatype Payload =
    | Varint(raw: Bytes)
    | Fixed64(data: Bytes)
    | Fixed32(data: Bytes)
    | Blob(len: Bytes, data: Bytes)
    | Message(len: Bytes, fields: seq<Field>)

  function Tag(f: Field): nat {
    ReadUvarint(f.tag).value
  }

  function Number(f: Field): int {
    Tag(f) / 8
  }

  function RenderPayload(p: Payload): Bytes {
    match p
    case Varint(raw) => raw
    case Fixed64(data) => data
    case Fixed32(data) => data
    case Blob(len, data) => len + data
    case Message(len, fields) => len + Render(fields)
  }

  function RenderField(f: Field): Bytes {
    f.tag + RenderPayload(f.payload)
  }

  function Render(fs: seq<Field>): Bytes {
    if fs == [] then [] else RenderField(fs[0]) + Render(fs[1..])
  }

  function WireType(p: Payload): int {
    match p
    case Varint(_) => WIRE_VARINT
    case Fixed64(_) => WIRE_64BIT
    case Fixed32(_) => WIRE_32BIT
    case _ => WIRE_BYTES
  }

  predicate WellFormedPayload(p: Payload) {
    match p
    case Varint(raw) => IsVarint(raw, ReadUvarint(raw).value)
    case Fixed64(data) => |data| == 8
    case Fixed32(data) => |data| == 4
    case Blob(len, data) => IsVarint(len, |data|)
    case Message(len, fields) => IsVarint(len, |Render(fields)|) && WellFormed(fields)
  }

  predicate WellFormedField(f: Field) {
    IsVarint(f.tag, Tag(f)) && Tag(f) % 8 == WireType(f.payload) && WellFormedPayload(f.payload)
  }

  predicate WellFormed(fs: seq<Field>) {
    fs == [] || (WellFormedField(fs[0]) && WellFormed(fs[1..]))
  }

  /** Where the configuration expects a message, the bytes of the field are read as one. */
  predicate ConformsField(f: Field, config: seq<Config>)
    decreases f, 1
  {
    var c := GetConfig(config, Number(f));
    c.Some? && WireType(f.payload) == WIRE_BYTES ==>
      if c.value.HoldsMessage() then f.payload.Message? && Conforms(f.payload.fields, c.value.subfields)
      else f.payload.Blob?
  }

  predicate Conforms(fs: seq<Field>, config: seq<Config>)
    decreases fs, 0
  {
    fs == [] || (ConformsField(fs[0], config) && Conforms(fs[1..], config))
  }

  // ---- The projection ----

  /** Unlisted fields and messages of which nothing is left disappear; what is left of a message gets a shortest tag
      and length. */
  function ProjectField(order: Order, f: Field, config: seq<Config>): seq<Field>
    requires Sorts(order)
    decreases f, 1
  {
    match GetConfig(config, Number(f))
    case None => []
    case Some(c) =>
      if f.payload.Message? && c.HoldsMessage() then
        var sub := Projection(order, f.payload.fields, c.subfields);
        if sub == [] then [] else [Field(PutUvarint(Tag(f)), Message(PutUvarint(|Render(sub)|), sub))]
      else [f]
  }

  function ProjectAll(order: Order, fs: seq<Field>, config: seq<Config>): seq<Field>
    requires Sorts(order)
    decreases fs, 0
  {
    if fs == [] then [] else ProjectField(order, fs[0], config) + ProjectAll(order, fs[1..], config)
  }

  /** What is left of a message, by field number. */
  function Projection(order: Order, fs: seq<Field>, config: seq<Config>): seq<Field>
    requires Sorts(order)
    decreases fs, 1
  {
    Sort(order, Number, ProjectAll(order, fs, config))
  }

  // ---- The scanner computes the projection ----

  function PieceOf(f: Field): Piece {
    Piece(Number(f), RenderField(f))
  }

  function PiecesOf(fs: seq<Field>): (ps: seq<Piece>)
    ensures |ps| == |fs|
  {
    if fs == [] then [] else [PieceOf(fs[0])] + PiecesOf(fs[1..])
  }

  lemma {:induction false} PiecesOfConcat(a: seq<Field>, b: seq<Field>)
    ensures PiecesOf(a + b) == PiecesOf(a) + PiecesOf(b)
  {
    hide PieceOf;
    if a == [] {
      assert a + b == b;
    } else {
      PiecesOfConcat(a[1..], b);
      HeadOfConcat(a, b);
      Associative([PieceOf(a[0])], PiecesOf(a[1..]), PiecesOf(b));
    }
  }

  lemma NoPieces()
    ensures PiecesOf([]) == []
  {
  }

  lemma {:induction false} PieceAt(fs: seq<Field>, i: nat)
    requires i < |fs|
    ensures PiecesOf(fs)[i] == PieceOf(fs[i])
  {
    if i > 0 {
      PieceAt(fs[1..], i - 1);
    }
  }

  /** Pieces are sorted as the fields they come from. */
  lemma PiecesOfSort(order: Order, fs: seq<Field>)
    requires Sorts(order)
    ensures Sort(order, PieceNumber, PiecesOf(fs)) == PiecesOf(Sort(order, Number, fs))
  {
    hide PieceOf;
    var sorted, p := Sort(order, Number, fs), order(Keys(Number, fs));
    SameNumbers(fs);
    assert Arranges(p, Keys(Number, fs));
    forall i | 0 <= i < |p|
      ensures Sort(order, PieceNumber, PiecesOf(fs))[i] == PiecesOf(sorted)[i]
    {
      PieceAt(fs, p[i]);
      PieceAt(sorted, i);
    }
  }

  lemma SameNumbers(fs: seq<Field>)
    ensures Keys(PieceNumber, PiecesOf(fs)) == Keys(Number, fs)
  {
    forall i | 0 <= i < |fs|
      ensures PieceNumber(PiecesOf(fs)[i]) == Number(fs[i])
    {
      PieceAt(fs, i);
    }
  }

  lemma {:induction false} ConcatIsRender(fs: seq<Field>)
    ensures Concat(PiecesOf(fs)) == Render(fs)
  {
    if fs != [] {
      ConcatIsRender(fs[1..]);
    }
  }

  /** The end of a field's payload, found from its first byte. */
  lemma PayloadEnd(d: Bytes, i: nat, p: Payload)
    requires WellFormedPayload(p) && At(d, i, RenderPayload(p)) && |d| < INT64_RANGE && i <= |d|
    ensures FindEnd(d, i, WireType(p)).EndsAt? && FindEnd(d, i, WireType(p)).end == i + |RenderPayload(p)|
    ensures p.Blob? || p.Message? ==>
              FindEnd(d, i, WIRE_BYTES).n == |p.len| && i + |RenderPayload(p)| <= |d| && At(d, i, p.len)
    ensures p.Message? ==>
              d[i + |p.len|..i + |RenderPayload(p)|] == Render(p.fields)
  {
    hide Render;
    match p
    case Varint(raw) => ReadUvarintAt(d, i, raw, ReadUvarint(raw).value);
    case Fixed64(data) =>
    case Fixed32(data) =>
    case Blob(len, data) =>
      AtSplit(d, i, len, data);
      ReadUvarintAt(d, i, len, |data|);
    case Message(len, fields) =>
      AtSplit(d, i, len, Render(fields));
      ReadUvarintAt(d, i, len, |Render(fields)|);
  }

  lemma {:induction false} FieldScans(order: Order, d: Bytes, i: nat, f: Field, config: seq<Config>)
    requires Sorts(order)
    requires WellFormedField(f) && ConformsField(f, config) && At(d, i, RenderField(f)) && |d| < INT64_RANGE
    ensures i < |d| && i + |RenderField(f)| <= |d|
    ensures Scan(order, d, i, config)
         == WithPieces(PiecesOf(ProjectField(order, f, config)), Scan(order, d, i + |RenderField(f)|, config))
    decreases f, 1
  {
    hide FindEnd, WellFormedPayload, Render, RenderPayload, ProjectField, PiecesOf, ScanField, At;
    AtSplit(d, i, f.tag, RenderPayload(f.payload));
    ReadUvarintAt(d, i, f.tag, Tag(f));
    var j := i + |f.tag|;
    PayloadEnd(d, j, f.payload);
    var end := i + |RenderField(f)|;
    match GetConfig(config, Number(f))
    case None =>
      NotConfigured(order, f, config);
      PiecesNothing(Scan(order, d, end, config));
    case Some(c) =>
      if f.payload.Message? && c.HoldsMessage() {
        MessageScans(order, d, i, f, config, c, end);
      } else {
        KeptWhole(order, d, i, f, config, c, end, FindEnd(d, j, Tag(f) % 8).n);
      }
  }

  lemma NotConfigured(order: Order, f: Field, config: seq<Config>)
    requires Sorts(order)
    requires GetConfig(config, Number(f)).None?
    ensures PiecesOf(ProjectField(order, f, config)) == []
  {
  }

  lemma KeptWhole(order: Order, d: Bytes, i: nat, f: Field, config: seq<Config>, c: Config, end: nat, n: nat)
    requires Sorts(order)
    requires WellFormedField(f) && ConformsField(f, config) && At(d, i, RenderField(f)) && end == i + |RenderField(f)|
    requires GetConfig(config, Number(f)) == Some(c) && !(f.payload.Message? && c.HoldsMessage())
    requires i + |f.tag| + n <= |d| && |f.tag| > 0
    requires Tag(f) % 8 == WIRE_BYTES ==> i + |f.tag| + n <= end
    ensures ScanField(order, d, i, Tag(f), |f.tag|, n, end, c) == Some(PiecesOf(ProjectField(order, f, config)))
  {
    hide Render, RenderPayload, WellFormedPayload, At;
    Occurs(d, i, RenderField(f));
    assert PiecesOf([f]) == [PieceOf(f)];
    assert Some([PieceOf(f)]) == ScanField(order, d, i, Tag(f), |f.tag|, n, end, c);
  }

  lemma Occurs(d: Bytes, i: nat, b: Bytes)
    requires At(d, i, b)
    ensures i + |b| <= |d| && d[i..i + |b|] == b
  {
  }

  /** A configured message: the recursive extraction is the rendering of its projection. */
  lemma {:induction false} MessageScans(order: Order, d: Bytes, i: nat, f: Field, config: seq<Config>, c: Config,
                                        end: nat)
    requires Sorts(order)
    requires f.payload.Message? && WellFormedField(f) && ConformsField(f, config) && |d| < INT64_RANGE
    requires GetConfig(config, Number(f)) == Some(c) && c.HoldsMessage()
    requires end == i + |f.tag| + |f.payload.len| + |Render(f.payload.fields)| <= |d|
    requires d[i + |f.tag| + |f.payload.len|..end] == Render(f.payload.fields)
    ensures ScanField(order, d, i, Tag(f), |f.tag|, |f.payload.len|, end, c)
         == Some(PiecesOf(ProjectField(order, f, config)))
    decreases f, 0
  {
    hide Projection, Render, Extract;
    var fields := f.payload.fields;
    ExtractIsProjection(order, fields, c.subfields);
    var sub := Projection(order, fields, c.subfields);
    ProjectionTags(order, fields, c.subfields);
    EmptyRender(sub);
    if sub != [] {
      MessagePiece(order, f, config, c, sub);
    }
  }

  lemma MessagePiece(order: Order, f: Field, config: seq<Config>, c: Config, sub: seq<Field>)
    requires Sorts(order)
    requires f.payload.Message? && IsVarint(f.tag, Tag(f))
    requires GetConfig(config, Number(f)) == Some(c) && c.HoldsMessage()
    requires sub == Projection(order, f.payload.fields, c.subfields) && sub != []
    ensures PiecesOf(ProjectField(order, f, config))
         == [Piece(Number(f), PutUvarint(Tag(f)) + PutUvarint(|Render(sub)|) + Render(sub))]
  {
    hide Projection, Render, PutUvarint, IsVarint;
    var g := Field(PutUvarint(Tag(f)), Message(PutUvarint(|Render(sub)|), sub));
    assert ProjectField(order, f, config) == [g];
    VarintBound(f.tag, Tag(f));
    TagOfPut(Tag(f), g.payload);
    assert PiecesOf([g]) == [PieceOf(g)] + PiecesOf([]);
    assert RenderField(g) == PutUvarint(Tag(f)) + (PutUvarint(|Render(sub)|) + Render(sub));
    assert RenderField(g) == PutUvarint(Tag(f)) + PutUvarint(|Render(sub)|) + Render(sub);
  }

  lemma TagOfPut(tag: nat, p: Payload)
    requires tag < 0x1_0000_0000_0000_0000
    ensures Tag(Field(PutUvarint(tag), p)) == tag
  {
    PutRoundTrip(tag);
  }

  lemma {:induction false} ProjectAllTags(order: Order, fs: seq<Field>, config: seq<Config>)
    requires Sorts(order)
    requires WellFormed(fs)
    ensures forall f :: f in ProjectAll(order, fs, config) ==> f.tag != []
  {
    if fs != [] {
      ProjectAllTags(order, fs[1..], config);
    }
  }

  lemma ProjectionTags(order: Order, fs: seq<Field>, config: seq<Config>)
    requires Sorts(order)
    requires WellFormed(fs)
    ensures forall f :: f in Projection(order, fs, config) ==> f.tag != []
  {
    ProjectAllTags(order, fs, config);
    SortSorts(order, Number, ProjectAll(order, fs, config));
    forall f | f in Projection(order, fs, config)
      ensures f.tag != []
    {
      assert f in multiset(ProjectAll(order, fs, config));
    }
  }

  lemma EmptyRender(fs: seq<Field>)
    requires forall f :: f in fs ==> f.tag != []
    ensures Render(fs) == [] <==> fs == []
  {
  }

  /** Whatever follows the fields. */
  lemma {:induction false} FieldsScan(order: Order, d: Bytes, i: nat, fs: seq<Field>, config: seq<Config>)
    requires Sorts(order)
    requires WellFormed(fs) && Conforms(fs, config) && |d| < INT64_RANGE
    requires At(d, i, Render(fs))
    ensures i + |Render(fs)| <= |d|
    ensures Scan(order, d, i, config)
         == WithPieces(PiecesOf(ProjectAll(order, fs, config)), Scan(order, d, i + |Render(fs)|, config))
    decreases fs, 0
  {
    hide RenderField, ProjectField, WellFormedField, ConformsField, PiecesOf, Scan;
    if fs == [] {
      NoPieces();
      PiecesNothing(Scan(order, d, i, config));
    } else {
      hide At;
      AtSplit(d, i, RenderField(fs[0]), Render(fs[1..]));
      FieldScans(order, d, i, fs[0], config);
      FieldsScan(order, d, i + |RenderField(fs[0])|, fs[1..], config);
      var first, rest := ProjectField(order, fs[0], config), ProjectAll(order, fs[1..], config);
      PiecesOfConcat(first, rest);
      PiecesTwice(PiecesOf(first), PiecesOf(rest), Scan(order, d, i + |Render(fs)|, config));
    }
  }

  lemma ScanEnd(order: Order, d: Bytes, config: seq<Config>)
    requires Sorts(order)
    ensures Scan(order, d, |d|, config) == Pieces([])
  {
  }

  /** On the wire form of a field tree, the scanner gives the wire form of the tree's projection. */
  lemma {:induction false} ExtractIsProjection(order: Order, fs: seq<Field>, config: seq<Config>)
    requires Sorts(order)
    requires WellFormed(fs) && Conforms(fs, config) && |Render(fs)| < INT64_RANGE
    ensures Extract(order, Render(fs), config) == Token(Render(Projection(order, fs, config)))
    decreases fs, 1
  {
    hide WellFormed, Conforms, Scan, Render, ProjectAll, Sort, PiecesOf, Concat;
    var d := Render(fs);
    assert At(d, 0, d) by {
      assert d[0..|d|] == d;
    }
    FieldsScan(order, d, 0, fs, config);
    ScanEnd(order, d, config);
    assert PiecesOf(ProjectAll(order, fs, config)) + [] == PiecesOf(ProjectAll(order, fs, config));
    PiecesOfSort(order, ProjectAll(order, fs, config));
    ConcatIsRender(Sort(order, Number, ProjectAll(order, fs, config)));
  }
}
