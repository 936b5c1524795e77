/** The projection behind a reporting token: when it does not depend on the sort, on the order of the fields, and is
    idempotent. */
module ReportingProperties {
  import opened Wrappers
  import opened Bytes
  import opened Sorting
  import opened Varints
  import opened ReportingToken
  import opened ReportingTree

  // ---- Ties ----

  /** At every level, kept fields of one number are equal: the sort has nothing to decide. In particular where no number
      is repeated. */
  predicate TieFree(fs: seq<Field>, config: seq<Config>)
    decreases fs, 1
  {
    && (forall i, k :: 0 <= i < k < |fs| && Number(fs[i]) == Number(fs[k]) && GetConfig(config, Number(fs[i])).Some? ==>
          fs[i] == fs[k])
    && TieFreeBelow(fs, config)
  }

  predicate TieFreeBelow(fs: seq<Field>, config: seq<Config>)
    decreases fs, 0
  {
    fs == [] || (TieFreeField(fs[0], config) && TieFreeBelow(fs[1..], config))
  }

  predicate TieFreeField(f: Field, config: seq<Config>)
    decreases f, 0
  {
    var c := GetConfig(config, Number(f));
    c.Some? && f.payload.Message? && c.value.HoldsMessage() ==> TieFree(f.payload.fields, c.value.subfields)
  }

  /** The projection of a field keeps its number. */
  lemma ProjectedNumber(order: Order, f: Field, config: seq<Config>)
    requires Sorts(order) && WellFormedField(f)
    ensures |ProjectField(order, f, config)| <= 1
    ensures forall g :: g in ProjectField(order, f, config) ==>
              Number(g) == Number(f) && GetConfig(config, Number(f)).Some?
  {
    hide Projection, Render, Sorts;
    VarintBound(f.tag, Tag(f));
    PutRoundTrip(Tag(f));
  }

  /** Every projected field comes from a kept field of the same number. */
  lemma {:induction false} ProjectedFrom(order: Order, fs: seq<Field>, config: seq<Config>, g: Field) returns (i: nat)
    requires Sorts(order) && WellFormed(fs) && g in ProjectAll(order, fs, config)
    ensures i < |fs| && ProjectField(order, fs[i], config) == [g] && Number(fs[i]) == Number(g)
    ensures GetConfig(config, Number(fs[i])).Some?
  {
    hide ProjectField, Number, WellFormedField, Sorts;
    ProjectedNumber(order, fs[0], config);
    if g in ProjectField(order, fs[0], config) {
      i := 0;
    } else {
      i := ProjectedFrom(order, fs[1..], config, g);
      i := i + 1;
    }
  }

  lemma ProjectionTells(order: Order, fs: seq<Field>, config: seq<Config>)
    requires Sorts(order) && WellFormed(fs) && TieFree(fs, config)
    ensures KeysTell(Number, multiset(ProjectAll(order, fs, config)))
  {
    hide ProjectField, ProjectAll, WellFormed, Sorts, Number;
    var all := ProjectAll(order, fs, config);
    forall x, y | x in multiset(all) && y in multiset(all) && Number(x) == Number(y)
      ensures x == y
    {
      var i := ProjectedFrom(order, fs, config, x);
      var k := ProjectedFrom(order, fs, config, y);
      assert fs[i] == fs[k];
    }
  }

  // ---- The result is again well-formed, no longer, and projects to itself ----

  ghost predicate Settled(order: Order, f: Field, config: seq<Config>)
    requires Sorts(order)
  {
    WellFormedField(f) && ConformsField(f, config) && ProjectField(order, f, config) == [f]
  }

  lemma {:induction false} AllSettled(order: Order, fs: seq<Field>, config: seq<Config>)
    requires Sorts(order)
    requires forall f :: f in fs ==> Settled(order, f, config)
    ensures WellFormed(fs) && Conforms(fs, config) && ProjectAll(order, fs, config) == fs
  {
    hide WellFormedField, ConformsField, ProjectField;
    if fs != [] {
      assert Settled(order, fs[0], config);
      AllSettled(order, fs[1..], config);
    }
  }

  lemma {:induction false} RenderPermutation(a: seq<Field>, b: seq<Field>)
    requires multiset(a) == multiset(b)
    ensures |Render(a)| == |Render(b)|
    decreases |a|
  {
    hide RenderField, Render;
    if a == [] {
      assert |multiset(b)| == 0;
      assert b == [];
    } else {
      var i := Position(a[0], b, multiset(a));
      RenderWithout(a, 0);
      RenderWithout(b, i);
      MultisetWithout(a, 0);
      MultisetWithout(b, i);
      var a', b' := a[..0] + a[1..], b[..i] + b[i + 1..];
      CancelOne(multiset(a'), multiset(b'), a[0]);
      RenderPermutation(a', b');
    }
  }

  lemma RenderWithout(fs: seq<Field>, i: nat)
    requires i < |fs|
    ensures |Render(fs)| == |Render(fs[..i] + fs[i + 1..])| + |RenderField(fs[i])|
  {
    hide RenderField;
    assert fs == fs[..i] + ([fs[i]] + fs[i + 1..]);
    RenderConcat(fs[..i], [fs[i]] + fs[i + 1..]);
    RenderConcat([fs[i]], fs[i + 1..]);
    RenderConcat(fs[..i], fs[i + 1..]);
    RenderOne(fs[i]);
  }

  lemma SortMembers(order: Order, fs: seq<Field>, f: Field)
    requires Sorts(order)
    ensures f in Sort(order, Number, fs) <==> f in fs
  {
    hide Sort;
    SortSorts(order, Number, fs);
    assert f in multiset(Sort(order, Number, fs)) <==> f in multiset(fs);
  }

  lemma {:induction false} RenderConcat(a: seq<Field>, b: seq<Field>)
    ensures Render(a + b) == Render(a) + Render(b)
  {
    hide RenderField;
    if a == [] {
      assert a + b == b;
    } else {
      RenderConcat(a[1..], b);
      HeadOfConcat(a, b);
      Associative(RenderField(a[0]), Render(a[1..]), Render(b));
    }
  }

  lemma {:induction false} ProjectFieldSettles(order: Order, f: Field, config: seq<Config>)
    requires Sorts(order)
    requires WellFormedField(f) && ConformsField(f, config) && (KeepsSorted(order) || TieFreeField(f, config))
    ensures forall g :: g in ProjectField(order, f, config) ==> Settled(order, g, config)
    ensures |Render(ProjectField(order, f, config))| <= |RenderField(f)|
    decreases f, 1
  {
    match GetConfig(config, Number(f))
    case None => assert Render([]) == [];
    case Some(c) =>
      if f.payload.Message? && c.HoldsMessage() {
        hide Projection, Sorts, KeepsSorted, TieFree, Settled, Render, WellFormed, Conforms, ProjectField;
        ProjectionSettles(order, f.payload.fields, c.subfields);
        ProjectedMessageSettles(order, f, config, c);
      } else {
        hide Sorts, WellFormedField, ConformsField, RenderField, ProjectField;
        OneKept(order, f, config);
        RenderOne(f);
      }
  }

  lemma ProjectedMessageSettles(order: Order, f: Field, config: seq<Config>, c: Config)
    requires Sorts(order) && f.payload.Message? && WellFormedField(f)
    requires GetConfig(config, Number(f)) == Some(c) && c.HoldsMessage()
    requires var sub := Projection(order, f.payload.fields, c.subfields);
             && WellFormed(sub) && Conforms(sub, c.subfields) && Projection(order, sub, c.subfields) == sub
             && |Render(sub)| <= |Render(f.payload.fields)|
    ensures forall g :: g in ProjectField(order, f, config) ==> Settled(order, g, config)
    ensures |Render(ProjectField(order, f, config))| <= |RenderField(f)|
  {
    hide Projection, Sorts, Settled, Render, WellFormed, Conforms;
    var sub := Projection(order, f.payload.fields, c.subfields);
    if sub == [] {
      NothingRenders();
    } else {
      MessageSettles(order, f, config, c, sub);
    }
  }

  lemma NothingRenders()
    ensures Render([]) == []
  {
  }

  lemma MessageSettles(order: Order, f: Field, config: seq<Config>, c: Config, sub: seq<Field>)
    requires Sorts(order)
    requires f.payload.Message? && IsVarint(f.tag, Tag(f)) && Tag(f) % 8 == WIRE_BYTES
    requires IsVarint(f.payload.len, |Render(f.payload.fields)|)
    requires GetConfig(config, Number(f)) == Some(c) && c.HoldsMessage()
    requires sub != [] && WellFormed(sub) && Conforms(sub, c.subfields) && Projection(order, sub, c.subfields) == sub
    requires |Render(sub)| <= |Render(f.payload.fields)|
    ensures var g := Field(PutUvarint(Tag(f)), Message(PutUvarint(|Render(sub)|), sub));
            Settled(order, g, config) && |Render([g])| <= |RenderField(f)|
  {
    hide Render, Projection, WellFormed, Conforms, PutUvarint, ReadUvarint;
    var g := Field(PutUvarint(Tag(f)), Message(PutUvarint(|Render(sub)|), sub));
    VarintBound(f.tag, Tag(f));
    VarintBound(f.payload.len, |Render(f.payload.fields)|);
    PutRoundTrip(Tag(f));
    PutRoundTrip(|Render(sub)|);
    PutIsShortest(f.tag, Tag(f));
    PutIsShortest(f.payload.len, |Render(f.payload.fields)|);
    PutIsMonotone(|Render(sub)|, |Render(f.payload.fields)|);
    RenderOne(g);
    assert Tag(g) == Tag(f);
    assert WellFormedPayload(g.payload);
    assert ConformsField(g, config);
    assert ProjectField(order, g, config) == [g];
  }

  lemma RenderOne(g: Field)
    ensures Render([g]) == RenderField(g)
  {
    assert Render([g]) == RenderField(g) + Render([]);
  }

  lemma PutIsShortest(raw: Bytes, v: nat)
    requires IsVarint(raw, v)
    ensures |PutUvarint(v)| <= |raw|
  {
    PutIsShortestFrom(raw, 0);
  }

  lemma {:induction false} ProjectAllSettles(order: Order, fs: seq<Field>, config: seq<Config>)
    requires Sorts(order)
    requires WellFormed(fs) && Conforms(fs, config) && (KeepsSorted(order) || TieFreeBelow(fs, config))
    ensures forall g :: g in ProjectAll(order, fs, config) ==> Settled(order, g, config)
    ensures |Render(ProjectAll(order, fs, config))| <= |Render(fs)|
    decreases fs, 0
  {
    hide RenderField, ProjectField, WellFormedField, ConformsField, Settled;
    if fs != [] {
      ProjectFieldSettles(order, fs[0], config);
      ProjectAllSettles(order, fs[1..], config);
      RenderConcat(ProjectField(order, fs[0], config), ProjectAll(order, fs[1..], config));
    }
  }

  /** Projecting a second time changes nothing, if the sort leaves alone what is sorted or has nothing to decide. */
  lemma {:induction false} ProjectionSettles(order: Order, fs: seq<Field>, config: seq<Config>)
    requires Sorts(order)
    requires WellFormed(fs) && Conforms(fs, config) && (KeepsSorted(order) || TieFree(fs, config))
    ensures WellFormed(Projection(order, fs, config)) && Conforms(Projection(order, fs, config), config)
    ensures Projection(order, Projection(order, fs, config), config) == Projection(order, fs, config)
    ensures |Render(Projection(order, fs, config))| <= |Render(fs)|
    decreases fs, 1
  {
    if !KeepsSorted(order) {
      ProjectionTells(order, fs, config);
    }
    hide ProjectAll, Render, WellFormed, Conforms, Settled, Sorts, Sort, KeepsSorted, KeysTell;
    var all := ProjectAll(order, fs, config);
    var sorted := Sort(order, Number, all);
    ProjectAllSettles(order, fs, config);
    SortSorts(order, Number, all);
    RenderPermutation(sorted, all);
    forall g | g in sorted
      ensures Settled(order, g, config)
    {
      SortMembers(order, all, g);
    }
    AllSettled(order, sorted, config);
    if KeepsSorted(order) {
      SortKeepsSorted(order, Number, sorted);
    } else {
      SortSorts(order, Number, sorted);
      SortedIsUnique(Number, sorted, Sort(order, Number, sorted));
    }
  }

  /** Extracting from what was extracted gives the same, and what is extracted is never longer than the input. */
  lemma ExtractIsIdempotent(order: Order, fs: seq<Field>, config: seq<Config>)
    requires Sorts(order)
    requires WellFormed(fs) && Conforms(fs, config) && |Render(fs)| < INT64_RANGE
    requires KeepsSorted(order) || TieFree(fs, config)
    ensures var once := Extract(order, Render(fs), config);
            once.Token? && |once.data| <= |Render(fs)| && Extract(order, once.data, config) == once
  {
    hide WellFormed, Conforms, Extract, Render, Projection, Sorts, KeepsSorted, TieFree;
    ExtractIsProjection(order, fs, config);
    ProjectionSettles(order, fs, config);
    ExtractIsProjection(order, Projection(order, fs, config), config);
  }

  // ---- The order of the fields ----

  /** The same fields at every level, in any order at every level. */
  ghost predicate Reordered(fs: seq<Field>, gs: seq<Field>)
    decreases fs, 1
  {
    exists hs :: Pairwise(fs, hs) && multiset(hs) == multiset(gs)
  }

  ghost predicate Pairwise(fs: seq<Field>, hs: seq<Field>)
    decreases fs, 0
  {
    |fs| == |hs| && (fs == [] || (SameField(fs[0], hs[0]) && Pairwise(fs[1..], hs[1..])))
  }

  ghost predicate SameField(f: Field, h: Field)
    decreases f, 0
  {
    f == h ||
    (&& f.tag == h.tag && f.payload.Message? && h.payload.Message? && f.payload.len == h.payload.len
     && Reordered(f.payload.fields, h.payload.fields))
  }

  lemma {:induction false} ProjectAllConcat(order: Order, a: seq<Field>, b: seq<Field>, config: seq<Config>)
    requires Sorts(order)
    ensures ProjectAll(order, a + b, config) == ProjectAll(order, a, config) + ProjectAll(order, b, config)
  {
    hide ProjectField;
    if a == [] {
      assert a + b == b;
    } else {
      ProjectAllConcat(order, a[1..], b, config);
      HeadOfConcat(a, b);
      Associative(ProjectField(order, a[0], config), ProjectAll(order, a[1..], config), ProjectAll(order, b, config));
    }
  }

  lemma ProjectAllWithout(order: Order, fs: seq<Field>, i: nat, config: seq<Config>)
    requires Sorts(order)
    requires i < |fs|
    ensures multiset(ProjectAll(order, fs, config))
         == multiset(ProjectAll(order, fs[..i] + fs[i + 1..], config)) + multiset(ProjectField(order, fs[i], config))
    ensures multiset(fs) == multiset(fs[..i] + fs[i + 1..]) + multiset{fs[i]}
  {
    hide ProjectField;
    assert fs == fs[..i] + ([fs[i]] + fs[i + 1..]);
    ProjectAllConcat(order, fs[..i], [fs[i]] + fs[i + 1..], config);
    assert ([fs[i]] + fs[i + 1..])[1..] == fs[i + 1..];
    ProjectAllConcat(order, fs[..i], fs[i + 1..], config);
  }

  lemma {:induction false} ProjectAllPermutation(order: Order, fs: seq<Field>, gs: seq<Field>, config: seq<Config>)
    requires Sorts(order)
    requires multiset(fs) == multiset(gs)
    ensures multiset(ProjectAll(order, fs, config)) == multiset(ProjectAll(order, gs, config))
    decreases |fs|
  {
    hide ProjectField, ProjectAll;
    if fs == [] {
      assert |multiset(gs)| == 0;
      assert gs == [];
    } else {
      ProjectAllWithout(order, fs, 0, config);
      assert fs[..0] + fs[1..] == fs[1..];
      var i := Position(fs[0], gs, multiset(fs));
      ProjectAllWithout(order, gs, i, config);
      var rest := gs[..i] + gs[i + 1..];
      CancelOne(multiset(fs[1..]), multiset(rest), fs[0]);
      ProjectAllPermutation(order, fs[1..], rest, config);
    }
  }

  lemma {:induction false} PairwiseSelf(fs: seq<Field>)
    ensures Pairwise(fs, fs)
  {
    if fs != [] {
      PairwiseSelf(fs[1..]);
    }
  }

  lemma ReorderedSelf(fs: seq<Field>)
    ensures Reordered(fs, fs)
  {
    hide Pairwise;
    PairwiseSelf(fs);
  }

  lemma {:induction false} SameFieldProjects(order: Order, order': Order, f: Field, h: Field, config: seq<Config>)
    requires Sorts(order) && Sorts(order')
    requires SameField(f, h) && WellFormedField(f) && ConformsField(f, config) && TieFreeField(f, config)
    ensures ProjectField(order, f, config) == ProjectField(order', h, config)
    decreases f, 0
  {
    match GetConfig(config, Number(f))
    case None =>
    case Some(c) =>
      if f.payload.Message? && c.HoldsMessage() {
        hide Projection, Reordered, TieFree, Render, Sorts;
        if f == h {
          ReorderedSelf(f.payload.fields);
        }
        ReorderedProjects(order, order', f.payload.fields, h.payload.fields, c.subfields);
      }
  }

  lemma {:induction false} PairwiseProjects(order: Order, order': Order, fs: seq<Field>, hs: seq<Field>,
                                            config: seq<Config>)
    requires Sorts(order) && Sorts(order')
    requires Pairwise(fs, hs) && WellFormed(fs) && Conforms(fs, config) && TieFreeBelow(fs, config)
    ensures ProjectAll(order, fs, config) == ProjectAll(order', hs, config)
    decreases fs, 0
  {
    hide ProjectField, SameField, WellFormedField, ConformsField, TieFreeField, Sorts;
    if fs != [] {
      SameFieldProjects(order, order', fs[0], hs[0], config);
      PairwiseProjects(order, order', fs[1..], hs[1..], config);
    }
  }

  /** Neither the order of the fields, at any level, nor the sorting function matters. */
  lemma {:induction false} ReorderedProjects(order: Order, order': Order, fs: seq<Field>, gs: seq<Field>,
                                             config: seq<Config>)
    requires Sorts(order) && Sorts(order')
    requires Reordered(fs, gs) && WellFormed(fs) && Conforms(fs, config) && TieFree(fs, config)
    ensures Projection(order, fs, config) == Projection(order', gs, config)
    decreases fs, 1
  {
    ProjectionTells(order, fs, config);
    hide Pairwise, WellFormed, Conforms, TieFreeBelow, ProjectAll, Number, Sorts, Sort, KeysTell;
    var hs :| Pairwise(fs, hs) && multiset(hs) == multiset(gs);
    PairwiseProjects(order, order', fs, hs, config);
    ProjectAllPermutation(order', hs, gs, config);
    var a, b := ProjectAll(order, fs, config), ProjectAll(order', gs, config);
    SortSorts(order, Number, a);
    SortSorts(order', Number, b);
    SortedIsUnique(Number, Sort(order, Number, a), Sort(order', Number, b));
  }

  /** So two messages that differ only in the order of their fields have the same token content, whatever the sort. */
  lemma ExtractIgnoresOrder(order: Order, order': Order, fs: seq<Field>, gs: seq<Field>, config: seq<Config>)
    requires Sorts(order) && Sorts(order') && Reordered(fs, gs) && TieFree(fs, config)
    requires WellFormed(fs) && Conforms(fs, config) && |Render(fs)| < INT64_RANGE
    requires WellFormed(gs) && Conforms(gs, config) && |Render(gs)| < INT64_RANGE
    ensures Extract(order, Render(fs), config) == Extract(order', Render(gs), config)
  {
    hide Reordered, TieFree, WellFormed, Conforms, Render, Extract, Sorts;
    ReorderedProjects(order, order', fs, gs, config);
    ExtractIsProjection(order, fs, config);
    ExtractIsProjection(order', gs, config);
  }

  /** In particular one message has only one token content. */
  lemma SortDoesNotMatter(order: Order, order': Order, fs: seq<Field>, config: seq<Config>)
    requires Sorts(order) && Sorts(order') && TieFree(fs, config)
    requires WellFormed(fs) && Conforms(fs, config) && |Render(fs)| < INT64_RANGE
    ensures Extract(order, Render(fs), config) == Extract(order', Render(fs), config)
  {
    hide Reordered, TieFree, WellFormed, Conforms, Render, Extract, Sorts;
    ReorderedSelf(fs);
    ExtractIgnoresOrder(order, order', fs, fs, config);
  }

  // ---- With ties ----

  /** A field that the token holds as it is. */
  predicate KeptAsIs(f: Field, config: seq<Config>) {
    var c := GetConfig(config, Number(f));
    WellFormedField(f) && ConformsField(f, config) && c.Some? && !(f.payload.Message? && c.value.HoldsMessage())
  }

  lemma TwoKept(order: Order, f: Field, g: Field, config: seq<Config>)
    requires Sorts(order) && KeptAsIs(f, config) && KeptAsIs(g, config)
    ensures WellFormed([f, g]) && Conforms([f, g], config) && ProjectAll(order, [f, g], config) == [f, g]
    ensures Render([f, g]) == RenderField(f) + RenderField(g)
  {
    hide Sorts, WellFormedField, ConformsField, RenderField, ProjectField;
    OneKept(order, f, config);
    OneKept(order, g, config);
    assert [f, g][1..] == [g];
    RenderOne(g);
  }

  lemma OneKept(order: Order, f: Field, config: seq<Config>)
    requires Sorts(order) && KeptAsIs(f, config)
    ensures WellFormedField(f) && ConformsField(f, config) && ProjectField(order, f, config) == [f]
    ensures WellFormed([f]) && Conforms([f], config) && ProjectAll(order, [f], config) == [f]
  {
    hide Sorts, WellFormedPayload;
    assert [f][1..] == [];
    assert ProjectAll(order, [], config) == [];
  }

  /** What the token of two kept fields is, by where the sort puts them. */
  lemma TwoSorted(order: Order, f: Field, g: Field, config: seq<Config>)
    requires Sorts(order) && KeptAsIs(f, config) && KeptAsIs(g, config) && |Render([f, g])| < INT64_RANGE
    requires Number(f) == Number(g) && order([Number(f), Number(f)]) in [[0, 1], [1, 0]]
    ensures Extract(order, Render([f, g]), config)
         == if order([Number(f), Number(f)]) == [0, 1] then Token(RenderField(f) + RenderField(g))
            else Token(RenderField(g) + RenderField(f))
  {
    hide Sorts, KeptAsIs, Extract, Render, RenderField, Number, WellFormed, Conforms, ProjectAll;
    TwoKept(order, f, g, config);
    ExtractIsProjection(order, [f, g], config);
    assert Keys(Number, [f, g]) == [Number(f), Number(f)];
    var sorted := Sort(order, Number, [f, g]);
    assert sorted == if order([Number(f), Number(f)]) == [0, 1] then [f, g] else [g, f];
    TwoKept(order, g, f, config);
  }

  lemma TwoInOrder(n: int)
    ensures |InOrder([n, n])| == 2 && InOrder([n, n]) == [0, 1]
  {
    hide InOrder, Places;
    InOrderKeepsSorted();
    assert Ordered([n, n]);
    assert InOrder([n, n]) == Places(0, 2) == [0, 1];
  }

  /** With two kept fields of one number, the library sort decides in which order they stand in the token: it may leave
      them or exchange them. */
  lemma TiesAreOpen(f: Field, g: Field, config: seq<Config>)
    requires KeptAsIs(f, config) && KeptAsIs(g, config) && Number(f) == Number(g) && |Render([f, g])| < INT64_RANGE
    ensures |InOrder([Number(f), Number(f)])| == 2
    ensures var order, order' := InOrder, Otherwise(InOrder, [Number(f), Number(f)], 0, 1);
            && Sorts(order) && Extract(order, Render([f, g]), config) == Token(RenderField(f) + RenderField(g))
            && Sorts(order') && Extract(order', Render([f, g]), config) == Token(RenderField(g) + RenderField(f))
  {
    var n := Number(f);
    TwoInOrder(n);
    InOrderSorts();
    OtherwiseSorts(InOrder, [n, n], 0, 1);
    var order' := Otherwise(InOrder, [n, n], 0, 1);
    assert order'([n, n]) == [1, 0];
    TwoSorted(InOrder, f, g, config);
    TwoSorted(order', f, g, config);
  }
}
