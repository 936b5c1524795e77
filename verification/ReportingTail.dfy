/**
 What the reporting-token scanner makes of bytes behind the fields of a message that are no whole field
 (reportingtoken.go): a message may be cut anywhere.
 */
module ReportingTails {
  import opened Wrappers
  import opened Bytes
  import opened Sorting
  import opened Varints
  import opened ReportingToken
  import opened ReportingTree

  /** No byte ends a varint. */
  predicate CutShort(b: Bytes) {
    |b| <= 10 && forall k :: 0 <= k < |b| ==> b[k] >= 128
  }

  /** More than 64 bits. */
  predicate Overflows(b: Bytes) {
    && |b| >= 10 && (forall k :: 0 <= k < 9 ==> b[k] >= 128)
    && b[9] > 1 && (b[9] >= 128 ==> |b| > 10)
  }

  /** No entry has the number of the tag. */
  predicate UnlistedTag(v: nat, config: seq<Config>) {
    forall c :: c in config ==> c.number != v / 8
  }

  lemma ReadsNothing(b: Bytes)
    ensures CutShort(b) ==> ReadUvarint(b) == Uvarint(0, 0)
    ensures Overflows(b) ==> ReadUvarint(b).n < 0
  {
    if CutShort(b) {
      UvarintCases(b, |b|);
    }
    if Overflows(b) {
      UvarintCases(b, if b[9] < 128 then 9 else 10);
    }
  }

  /** What extraction gives when the rest of the input is scanned into the pieces of some more fields, or into nothing. */
  lemma ExtractWithTail(order: Order, fs: seq<Field>, tail: Bytes, config: seq<Config>, left: seq<Field>)
    requires Sorts(order) && WellFormed(fs) && Conforms(fs, config) && |Render(fs) + tail| < INT64_RANGE
    ensures var d := Render(fs) + tail;
            match Scan(order, d, |Render(fs)|, config)
            case Malformed => Extract(order, d, config) == Broken
            case NoToken => Extract(order, d, config) == Token([])
            case Pieces(pieces) =>
              pieces == PiecesOf(left) ==>
                Extract(order, d, config) == Token(Render(Sort(order, Number, ProjectAll(order, fs, config) + left)))
  {
    hide WellFormed, Conforms, Scan, Render, ProjectAll, Sort;
    var d := Render(fs) + tail;
    assert At(d, 0, Render(fs)) by {
      assert d[0..|Render(fs)|] == Render(fs);
    }
    FieldsScan(order, d, 0, fs, config);
    var all := ProjectAll(order, fs, config) + left;
    PiecesOfConcat(ProjectAll(order, fs, config), left);
    PiecesOfSort(order, all);
    ConcatIsRender(Sort(order, Number, all));
  }

  lemma TagScans(order: Order, d: Bytes, i: nat, tag: Bytes, v: nat, rest: Bytes)
    requires i <= |d| && d[i..] == tag + rest && IsVarint(tag, v)
    ensures tag != [] && i + |tag| <= |d| && d[i..i + |tag|] == tag && d[i + |tag|..] == rest
    ensures ReadUvarint(d[i..]) == Uvarint(v, |tag|)
  {
    ReadFromPrefix(tag, rest, 0);
  }

  lemma TailOf(fs: seq<Field>, tail: Bytes)
    ensures (Render(fs) + tail)[|Render(fs)|..] == tail
  {
  }

  /** Without another tag the fields before it are the token's. */
  lemma StopsWithoutTag(order: Order, fs: seq<Field>, tail: Bytes, config: seq<Config>)
    requires Sorts(order) && WellFormed(fs) && Conforms(fs, config) && |Render(fs) + tail| < INT64_RANGE
    requires CutShort(tail) || Overflows(tail)
    ensures Extract(order, Render(fs) + tail, config) == Token(Render(Projection(order, fs, config)))
  {
    hide WellFormed, Conforms, Render, ProjectAll, Sort, Extract, CutShort, Overflows;
    ReadsNothing(tail);
    TailOf(fs, tail);
    NoPieces();
    ExtractWithTail(order, fs, tail, config, []);
    assert ProjectAll(order, fs, config) + [] == ProjectAll(order, fs, config);
  }

  /** After a tag of wire type 3, 4, 6 or 7 nothing is returned at all. */
  lemma UnknownWireTypeDrops(order: Order, fs: seq<Field>, tag: Bytes, v: nat, rest: Bytes, config: seq<Config>)
    requires Sorts(order) && WellFormed(fs) && Conforms(fs, config) && |Render(fs) + (tag + rest)| < INT64_RANGE
    requires IsVarint(tag, v) && v % 8 in {3, 4, 6, 7}
    ensures Extract(order, Render(fs) + (tag + rest), config) == Token([])
  {
    hide WellFormed, Conforms, Render, ProjectAll, Sort, Extract, IsVarint;
    TailOf(fs, tag + rest);
    TagScans(order, Render(fs) + (tag + rest), |Render(fs)|, tag, v, rest);
    assert Scan(order, Render(fs) + (tag + rest), |Render(fs)|, config) == NoToken;
    ExtractWithTail(order, fs, tag + rest, config, []);
  }

  /** The payload of a field, cut: fewer bytes than its wire type or its length calls for. */
  ghost predicate CutPayload(wire: int, rest: Bytes, before: nat) {
    || (wire == 1 && |rest| < 8)
    || (wire == 5 && |rest| < 4)
    || (wire == 2 && ReadUvarint(rest).n > 0
        && |rest| < ReadUvarint(rest).n + ReadUvarint(rest).value < INT64_RANGE - before)
  }

  /** A length that leads beyond 64 bits. */
  predicate TooFar(rest: Bytes, before: nat) {
    ReadUvarint(rest).n > 0 && before + ReadUvarint(rest).n + ReadUvarint(rest).value >= INT64_RANGE
  }

  lemma CutEnds(d: Bytes, j: nat, wire: int)
    requires j <= |d| && CutPayload(wire, d[j..], j)
    ensures FindEnd(d, j, wire).EndsAt? && FindEnd(d, j, wire).end > |d|
  {
  }

  lemma UnlistedIsNone(v: nat, config: seq<Config>)
    ensures UnlistedTag(v, config) <==> GetConfig(config, v / 8).None?
  {
    ConfigLookup(config, v / 8);
  }

  /** A field cut in the middle does no harm if it is not listed. */
  lemma UnlistedCut(order: Order, fs: seq<Field>, tag: Bytes, v: nat, rest: Bytes, config: seq<Config>)
    requires Sorts(order) && WellFormed(fs) && Conforms(fs, config) && |Render(fs) + (tag + rest)| < INT64_RANGE
    requires IsVarint(tag, v) && UnlistedTag(v, config)
    requires (v % 8 in {0, 2} && CutShort(rest)) || CutPayload(v % 8, rest, |Render(fs)| + |tag|)
    ensures Extract(order, Render(fs) + (tag + rest), config) == Token(Render(Projection(order, fs, config)))
  {
    hide WellFormed, Conforms, Render, ProjectAll, Sort, Sorts, Extract, IsVarint, CutShort, UnlistedTag, CutPayload;
    hide GetConfig, ScanField, ReadFrom;
    var d, i := Render(fs) + (tag + rest), |Render(fs)|;
    TailOf(fs, tag + rest);
    TagScans(order, d, i, tag, v, rest);
    UnlistedIsNone(v, config);
    NoPieces();
    if CutPayload(v % 8, rest, i + |tag|) {
      CutEnds(d, i + |tag|, v % 8);
      hide FindEnd;
      assert Scan(order, d, i, config) == Pieces([]);
    } else {
      ReadsNothing(rest);
      assert Scan(order, d, i + |tag|, config) == Pieces([]);
      assert FindEnd(d, i + |tag|, v % 8).EndsAt? && FindEnd(d, i + |tag|, v % 8).end == i + |tag|;
      hide FindEnd;
    }
    ExtractWithTail(order, fs, tag + rest, config, []);
    assert ProjectAll(order, fs, config) + [] == ProjectAll(order, fs, config);
  }

  /** Of a listed field whose varint or length is cut, the tag alone is kept, unless it is taken apart. */
  lemma ListedTagIsKept(order: Order, fs: seq<Field>, tag: Bytes, v: nat, rest: Bytes, config: seq<Config>, c: Config)
    requires Sorts(order) && WellFormed(fs) && Conforms(fs, config) && |Render(fs) + (tag + rest)| < INT64_RANGE
    requires IsVarint(tag, v) && FirstEntry(config, v / 8, c) && v % 8 in {0, 2} && CutShort(rest)
    ensures var left := if v % 8 == 2 && (c.isMessage || c.subfields != []) then [] else [Field(tag, Varint([]))];
            Extract(order, Render(fs) + (tag + rest), config)
            == Token(Render(Sort(order, Number, ProjectAll(order, fs, config) + left)))
  {
    var i := |Render(fs)|;
    var d, f := Render(fs) + (tag + rest), Field(tag, Varint([]));
    hide WellFormed, Conforms, Render, ProjectAll, Sort, Sorts, Extract, IsVarint, CutShort, FirstEntry, PiecesOf, Scan;
    hide GetConfig, ReadUvarint;
    TagPiece(tag, v);
    TailOf(fs, tag + rest);
    TagScans(order, d, i, tag, v, rest);
    ListedTagScans(order, d, i, v, |tag|, config, c);
    var scanned := Scan(order, d, i, config);
    if v % 8 == 2 && (c.isMessage || c.subfields != []) {
      assert scanned == Pieces(PiecesOf([]));
      ExtractWithTail(order, fs, tag + rest, config, []);
    } else {
      assert scanned == Pieces(PiecesOf([f]));
      ExtractWithTail(order, fs, tag + rest, config, [f]);
    }
  }

  lemma ListedTagScans(order: Order, d: Bytes, i: nat, v: nat, n: nat, config: seq<Config>, c: Config)
    requires Sorts(order) && n > 0 && i + n <= |d| && ReadUvarint(d[i..]) == Uvarint(v, n)
    requires FirstEntry(config, v / 8, c) && v % 8 in {0, 2} && CutShort(d[i + n..]) && |d| < INT64_RANGE
    ensures Scan(order, d, i, config)
         == Pieces(if v % 8 == 2 && (c.isMessage || c.subfields != []) then [] else [Piece(v / 8, d[i..i + n])])
  {
    hide Extract, CutShort, FirstEntry, ScanField, GetConfig, Sorts, ReadFrom;
    var j := i + n;
    ConfigLookup(config, v / 8);
    ReadsNothing(d[j..]);
    assert Scan(order, d, j, config) == Pieces([]);
    assert FindEnd(d, j, v % 8) == EndsAt(j, 0);
    hide FindEnd;
    CutField(order, d, i, v, n, c);
    var kept := ScanField(order, d, i, v, n, 0, j, c).value;
    assert kept + [] == kept;
  }

  lemma CutField(order: Order, d: Bytes, i: nat, v: nat, n: nat, c: Config)
    requires Sorts(order) && n > 0 && i + n <= |d|
    ensures ScanField(order, d, i, v, n, 0, i + n, c)
         == Some(if v % 8 == 2 && (c.isMessage || c.subfields != []) then [] else [Piece(v / 8, d[i..i + n])])
  {
    NothingToExtract(order, c.subfields);
    assert d[i + n..i + n] == [];
    hide Extract, PutUvarint;
  }

  lemma TagPiece(tag: Bytes, v: nat)
    requires IsVarint(tag, v)
    ensures PiecesOf([Field(tag, Varint([]))]) == [Piece(v / 8, tag)] && PiecesOf([]) == []
  {
    var f := Field(tag, Varint([]));
    assert [f][1..] == [] && tag + [] == tag;
    assert Number(f) == v / 8 && RenderField(f) == tag;
    assert PiecesOf([f]) == [PieceOf(f)] + PiecesOf([]);
  }

  lemma NothingToExtract(order: Order, config: seq<Config>)
    requires Sorts(order)
    ensures Extract(order, [], config) == Token([])
  {
    ScanEnd(order, [], config);
    assert Keys(PieceNumber, []) == [];
    SortNothing(order);
  }

  lemma SortNothing(order: Order)
    requires Sorts(order)
    ensures Sort(order, PieceNumber, []) == []
  {
  }

  /** A listed field cut otherwise, and a varint or length of more than 64 bits, break extraction. */
  lemma CutBreaks(order: Order, fs: seq<Field>, tag: Bytes, v: nat, rest: Bytes, config: seq<Config>)
    requires Sorts(order) && WellFormed(fs) && Conforms(fs, config) && |Render(fs) + (tag + rest)| < INT64_RANGE
    requires IsVarint(tag, v)
    requires || (v % 8 in {0, 2} && Overflows(rest))
             || (v % 8 == 2 && TooFar(rest, |Render(fs)| + |tag|))
             || (!UnlistedTag(v, config) && CutPayload(v % 8, rest, |Render(fs)| + |tag|))
    ensures Extract(order, Render(fs) + (tag + rest), config) == Broken
  {
    hide WellFormed, Conforms, Render, ProjectAll, Sort, Sorts, Extract, IsVarint, Overflows, UnlistedTag, CutPayload;
    hide GetConfig, ScanField, ReadFrom;
    var d, i := Render(fs) + (tag + rest), |Render(fs)|;
    TailOf(fs, tag + rest);
    TagScans(order, d, i, tag, v, rest);
    UnlistedIsNone(v, config);
    ReadsNothing(rest);
    if (v % 8 in {0, 2} && Overflows(rest)) || (v % 8 == 2 && TooFar(rest, i + |tag|)) {
      assert FindEnd(d, i + |tag|, v % 8) == Overrun;
      hide FindEnd;
    } else {
      CutEnds(d, i + |tag|, v % 8);
      hide FindEnd;
      assert GetConfig(config, v / 8).Some?;
    }
    assert Scan(order, d, i, config) == Malformed;
    ExtractWithTail(order, fs, tag + rest, config, []);
  }
}
