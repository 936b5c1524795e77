/** The token tables of the binary XML format and their reverse index (binary/token/token.go). */
module Tokens {
  import opened Bytes

  const LIST_EMPTY: Byte := 0
  const DICTIONARY_0: Byte := 236
  const DICTIONARY_3: Byte := 239
  const INTEROP_JID: Byte := 245
  const FB_JID: Byte := 246
  const AD_JID: Byte := 247
  const LIST_8: Byte := 248
  const LIST_16: Byte := 249
  const JID_PAIR: Byte := 250
  const HEX_8: Byte := 251
  const BINARY_8: Byte := 252
  const BINARY_20: Byte := 253
  const BINARY_32: Byte := 254
  const NIBBLE_8: Byte := 255

  const PACKED_MAX := 127

  /** The two token tables. Nothing below depends on which strings they hold. */
  datatype Tables = Tables(single: seq<Bytes>, double: seq<seq<Bytes>>) {
    /** The shape of the shipped tables: 236 single-byte tokens, the first one empty, and four dictionaries
        of at most 256. */
    ghost predicate Valid() {
      && |single| == DICTIONARY_0 && single[0] == []
      && |double| == 4
      && forall dict :: 0 <= dict < |double| ==> |double[dict]| <= 256
    }
  }

  /** The two reverse indexes that the package builds when it is loaded. */
  datatype Index = Index(single: map<Bytes, Byte>, double: map<Bytes, (Byte, Byte)>) {
    /** Every non-empty single-byte token is indexed, by the last position that holds it. */
    ghost predicate SingleOf(tokens: seq<Bytes>) {
      && (forall s :: s in single ==> s != [] && single[s] < |tokens| && tokens[single[s]] == s)
      && (forall i :: 0 <= i < |tokens| && tokens[i] != [] ==> tokens[i] in single && i <= single[tokens[i]])
    }

    /** The dictionaries are indexed likewise: the last dictionary wins, then the last position in it. */
    ghost predicate DoubleOf(dicts: seq<seq<Bytes>>) {
      && (forall s :: s in double ==>
            && double[s].0 < |dicts|
            && double[s].1 < |dicts[double[s].0]|
            && dicts[double[s].0][double[s].1] == s)
      && (forall dict, i :: 0 <= dict < |dicts| && 0 <= i < |dicts[dict]| ==>
            && dicts[dict][i] in double
            && (dict < double[dicts[dict][i]].0 ||
                (dict == double[dicts[dict][i]].0 && i <= double[dicts[dict][i]].1)))
    }

    ghost predicate Of(t: Tables) {
      SingleOf(t.single) && DoubleOf(t.double)
    }
  }

  /** The single-byte half of the package's `init`. */
  method IndexSingle(tokens: seq<Bytes>) returns (single: map<Bytes, Byte>)
    requires |tokens| <= 256
    ensures Index(single, map[]).SingleOf(tokens)
  {
    single := map[];
    for i := 0 to |tokens|
      invariant Index(single, map[]).SingleOf(tokens[..i])
    {
      if tokens[i] != [] {
        single := single[tokens[i] := i];
      }
      assert tokens[..i + 1] == tokens[..i] + [tokens[i]];
    }
    assert tokens[..|tokens|] == tokens;
  }

  lemma DoubleStep(double: map<Bytes, (Byte, Byte)>, done: seq<seq<Bytes>>, row: seq<Bytes>, token: Bytes)
    requires |done| < 256 && |row| < 256
    requires Index(map[], double).DoubleOf(done + [row])
    ensures Index(map[], double[token := (|done|, |row|)]).DoubleOf(done + [row + [token]])
  {
    var before := done + [row];
    var after := done + [row + [token]];
    assert forall d :: 0 <= d < |done| ==> before[d] == after[d];
    forall d, i | 0 <= d < |after| && 0 <= i < |after[d]|
      ensures after[d][i] == token || (i < |before[d]| && before[d][i] == after[d][i])
    {
    }
  }

  /** One dictionary of the package's `init`: the inner loop. */
  method IndexDictionary(start: map<Bytes, (Byte, Byte)>, ghost done: seq<seq<Bytes>>, dict: Byte, tokens: seq<Bytes>)
    returns (double: map<Bytes, (Byte, Byte)>)
    requires |done| == dict && |tokens| <= 256
    requires Index(map[], start).DoubleOf(done)
    ensures Index(map[], double).DoubleOf(done + [tokens])
  {
    double := start;
    for i := 0 to |tokens|
      invariant Index(map[], double).DoubleOf(done + [tokens[..i]])
    {
      DoubleStep(double, done, tokens[..i], tokens[i]);
      double := double[tokens[i] := (dict, i)];
      assert tokens[..i + 1] == tokens[..i] + [tokens[i]];
    }
    assert tokens[..|tokens|] == tokens;
  }

  /** The package's `init`: both indexes are exact, duplicates included. */
  method BuildIndex(t: Tables) returns (index: Index)
    requires t.Valid()
    ensures index.Of(t)
  {
    var single := IndexSingle(t.single);
    var double: map<Bytes, (Byte, Byte)> := map[];
    for dict := 0 to |t.double|
      invariant Index(map[], double).DoubleOf(t.double[..dict])
    {
      double := IndexDictionary(double, t.double[..dict], dict, t.double[dict]);
      assert t.double[..dict + 1] == t.double[..dict] + [t.double[dict]];
    }
    assert t.double[..|t.double|] == t.double;
    index := Index(single, double);
  }
}
