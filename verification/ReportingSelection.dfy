/**
 What a reporting token holds (reportingtoken.go), field by field: the listed fields as often as the message has them, and
 of listed messages what is left of them in turn.
 */
module ReportingSelection {
  import opened Wrappers
  import opened Bytes
  import opened Sorting
  import opened Varints
  import opened ReportingToken
  import opened ReportingTree
  import opened ReportingProperties

  /** The configuration's first entry for the number of a field is `c`. */
  ghost predicate Listed(config: seq<Config>, f: Field, c: Config) {
    exists i :: 0 <= i < |config| && config[i] == c && c.number == Tag(f) / 8
                && forall k :: 0 <= k < i ==> config[k].number != Tag(f) / 8
  }

  /** No entry has the number of the field. */
  predicate Unlisted(config: seq<Config>, f: Field) {
    forall c :: c in config ==> c.number != Tag(f) / 8
  }

  /** The entry wants the field taken apart: it is marked as a message or has entries of its own. */
  predicate TakenApart(f: Field, c: Config) {
    f.payload.Message? && (c.isMessage || c.subfields != [])
  }

  lemma ListedIff(config: seq<Config>, f: Field)
    ensures forall c :: Listed(config, f, c) <==> GetConfig(config, Number(f)) == Some(c)
    ensures Unlisted(config, f) <==> GetConfig(config, Number(f)).None?
  {
    ConfigLookup(config, Number(f));
    forall c
      ensures Listed(config, f, c) <==> FirstEntry(config, Number(f), c)
    {
    }
  }

  /** What is left of one field: nothing, the field as it is, or a message of the same tag, in shortest form, whose fields
      are what is left of its own, sorted, if anything is. */
  ghost predicate LeftOf(order: Order, f: Field, config: seq<Config>, left: seq<Field>)
    requires Sorts(order)
    decreases f, 1
  {
    && (Unlisted(config, f) ==> left == [])
    && (forall c :: Listed(config, f, c) ==>
          if TakenApart(f, c) then
            exists rest, sorted ::
              && LeftOfAll(order, f.payload.fields, c.subfields, rest)
              && SortedBy(Number, sorted) && multiset(sorted) == multiset(rest) && sorted == Sort(order, Number, rest)
              && left == if rest == [] then []
                         else [Field(PutUvarint(Tag(f)), Message(PutUvarint(|Render(sorted)|), sorted))]
          else left == [f])
  }

  ghost predicate LeftOfAll(order: Order, fs: seq<Field>, config: seq<Config>, left: seq<Field>)
    requires Sorts(order)
    decreases fs, 0
  {
    if fs == [] then left == []
    else exists first, rest ::
           LeftOf(order, fs[0], config, first) && LeftOfAll(order, fs[1..], config, rest) && left == first + rest
  }

  lemma {:induction false} ProjectFieldIsLeft(order: Order, f: Field, config: seq<Config>)
    requires Sorts(order)
    ensures LeftOf(order, f, config, ProjectField(order, f, config))
    decreases f, 1
  {
    ListedIff(config, f);
    match GetConfig(config, Number(f))
    case None =>
    case Some(c) =>
      if TakenApart(f, c) {
        var rest := ProjectAll(order, f.payload.fields, c.subfields);
        ProjectAllIsLeft(order, f.payload.fields, c.subfields);
        hide LeftOfAll, ProjectAll, Sort, SortedBy, Sorts;
        SortSorts(order, Number, rest);
        var sorted := Sort(order, Number, rest);
        assert rest == [] <==> sorted == [] by {
          assert |multiset(rest)| == |rest| && |multiset(sorted)| == |sorted|;
        }
        assert LeftOfAll(order, f.payload.fields, c.subfields, rest);
      }
  }

  lemma {:induction false} ProjectAllIsLeft(order: Order, fs: seq<Field>, config: seq<Config>)
    requires Sorts(order)
    ensures LeftOfAll(order, fs, config, ProjectAll(order, fs, config))
    decreases fs, 0
  {
    hide LeftOf, ProjectField, Sorts;
    if fs != [] {
      ProjectFieldIsLeft(order, fs[0], config);
      ProjectAllIsLeft(order, fs[1..], config);
    }
  }

  /** The projection of any tree is what is left of its fields, sorted by number. */
  lemma ProjectionIsLeft(order: Order, fs: seq<Field>, config: seq<Config>)
    requires Sorts(order)
    ensures exists left ::
              LeftOfAll(order, fs, config, left) && SortedBy(Number, Projection(order, fs, config))
              && multiset(Projection(order, fs, config)) == multiset(left)
  {
    var left := ProjectAll(order, fs, config);
    ProjectAllIsLeft(order, fs, config);
    hide LeftOfAll, ProjectAll, Sort, SortedBy, Sorts;
    SortSorts(order, Number, left);
    assert LeftOfAll(order, fs, config, left);
  }

  // ---- In particular ----

  /** Of a field that is kept as it is, the projection of any field has one exactly when it is that field. */
  lemma KeptOnce(order: Order, f: Field, g: Field, c: Config, config: seq<Config>)
    requires Sorts(order) && WellFormedField(g) && Listed(config, f, c) && !TakenApart(f, c)
    ensures multiset(ProjectField(order, g, config))[f] == if g == f then 1 else 0
  {
    ListedIff(config, f);
    ListedIff(config, g);
    if g != f && f in ProjectField(order, g, config) {
      ProjectedNumber(order, g, config);
      hide Projection;
      assert false;
    }
  }

  lemma {:induction false} KeptInAll(order: Order, fs: seq<Field>, f: Field, c: Config, config: seq<Config>)
    requires Sorts(order) && WellFormed(fs) && Listed(config, f, c) && !TakenApart(f, c)
    ensures multiset(ProjectAll(order, fs, config))[f] == multiset(fs)[f]
  {
    hide ProjectField, WellFormedField, Sorts, Listed;
    if fs != [] {
      KeptOnce(order, f, fs[0], c, config);
      KeptInAll(order, fs[1..], f, c, config);
      assert fs == [fs[0]] + fs[1..];
    }
  }

  /** A listed field that is not taken apart stands in the projection as often as in the message. */
  lemma KeptAsOften(order: Order, fs: seq<Field>, f: Field, c: Config, config: seq<Config>)
    requires Sorts(order) && WellFormed(fs) && Listed(config, f, c) && !TakenApart(f, c)
    ensures multiset(Projection(order, fs, config))[f] == multiset(fs)[f]
  {
    KeptInAll(order, fs, f, c, config);
    hide ProjectAll, Sort, Sorts;
    SortSorts(order, Number, ProjectAll(order, fs, config));
  }

  /** What a field leaves has its number; a field taken apart leaves a message of the same tag. */
  lemma FieldLeaves(order: Order, f: Field, g: Field, config: seq<Config>) returns (c: Config)
    requires Sorts(order) && WellFormedField(f) && ProjectField(order, f, config) == [g]
    ensures Listed(config, f, c) && Tag(g) / 8 == Tag(f) / 8
    ensures if TakenApart(f, c) then
              && g.payload.Message? && Tag(g) == Tag(f) && g.payload.fields != []
              && g.payload.fields == Projection(order, f.payload.fields, c.subfields)
            else g == f
  {
    hide Projection, Render, Sorts;
    ListedIff(config, f);
    c := GetConfig(config, Number(f)).value;
    VarintBound(f.tag, Tag(f));
    PutRoundTrip(Tag(f));
  }

  /** Nothing unlisted stands in the projection, and everything in it comes from a field of the same number. */
  lemma OnlyListed(order: Order, fs: seq<Field>, g: Field, config: seq<Config>) returns (i: nat, c: Config)
    requires Sorts(order) && WellFormed(fs) && g in Projection(order, fs, config)
    ensures i < |fs| && Tag(fs[i]) / 8 == Tag(g) / 8 && Listed(config, fs[i], c)
    ensures if TakenApart(fs[i], c) then
              && g.payload.Message? && Tag(g) == Tag(fs[i]) && g.payload.fields != []
              && g.payload.fields == Projection(order, fs[i].payload.fields, c.subfields)
            else g == fs[i]
  {
    SortMembers(order, ProjectAll(order, fs, config), g);
    i := ProjectedFrom(order, fs, config, g);
    WellFormedAt(fs, i);
    c := FieldLeaves(order, fs[i], g, config);
  }

  lemma {:induction false} WellFormedAt(fs: seq<Field>, i: nat)
    requires WellFormed(fs) && i < |fs|
    ensures WellFormedField(fs[i])
  {
    hide WellFormedField;
    if i > 0 {
      WellFormedAt(fs[1..], i - 1);
    }
  }

  /** Of a listed message that is taken apart, exactly what is left of its fields stands in the projection; if nothing is,
      neither does it. */
  lemma MessageRemains(order: Order, fs: seq<Field>, i: nat, c: Config, config: seq<Config>)
    requires Sorts(order) && WellFormed(fs) && i < |fs| && Listed(config, fs[i], c) && TakenApart(fs[i], c)
    ensures var sub := Projection(order, fs[i].payload.fields, c.subfields);
            sub != [] ==>
              Field(PutUvarint(Tag(fs[i])), Message(PutUvarint(|Render(sub)|), sub)) in Projection(order, fs, config)
  {
    var sub := Projection(order, fs[i].payload.fields, c.subfields);
    ListedIff(config, fs[i]);
    if sub != [] {
      ProjectedIn(order, fs, i, config);
      var g := Field(PutUvarint(Tag(fs[i])), Message(PutUvarint(|Render(sub)|), sub));
      assert ProjectField(order, fs[i], config) == [g];
      SortMembers(order, ProjectAll(order, fs, config), g);
    }
  }

  lemma {:induction false} ProjectedIn(order: Order, fs: seq<Field>, i: nat, config: seq<Config>)
    requires Sorts(order) && i < |fs|
    ensures forall g :: g in ProjectField(order, fs[i], config) ==> g in ProjectAll(order, fs, config)
  {
    hide ProjectField;
    if i > 0 {
      ProjectedIn(order, fs[1..], i - 1, config);
    }
  }
}
