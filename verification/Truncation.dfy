/**
 Inputs that are cut off (binary/decoder.go): whatever is read from an input is read from every beginning of it that holds
 it, and every shorter one ends too early.
 */
module Truncations {
  import opened Bytes
  import opened Tokens
  import opened BinaryXml
  import opened RoundTrip
  import opened Marshalling

  /** What was read up to `len`, or that the input ended. */
  predicate IsCut<T(==)>(full: Parse<T>, cut: Parse<T>, len: nat) {
    full.Ok? ==> cut == if full.next <= len then full else Err(EOF)
  }

  lemma CutInt(d: Bytes, e: Bytes, i: nat, n: nat)
    requires e <= d && i <= |e|
    ensures IsCut(ReadInt(d, i, n), ReadInt(e, i, n), |e|)
    ensures ReadInt(d, i, n).Ok? ==> ReadInt(d, i, n).next == i + n <= |d|
    ensures ReadInt(e, i, n).Ok? ==> ReadInt(e, i, n).next == i + n <= |e|
  {
    if i + n <= |e| {
      assert d[i..i + n] == e[i..i + n];
    }
  }

  lemma CutListSize(d: Bytes, e: Bytes, i: nat, tag: int)
    requires e <= d && i <= |e|
    ensures IsCut(ReadListSize(d, i, tag), ReadListSize(e, i, tag), |e|)
  {
    hide ReadInt;
    CutInt(d, e, i, 1);
    CutInt(d, e, i, 2);
  }

  lemma CutSized(d: Bytes, e: Bytes, full: Parse<nat>, cut: Parse<nat>, asString: bool)
    requires e <= d && IsCut(full, cut, |e|)
    requires (full.Ok? ==> full.next <= |d|) && (cut.Ok? ==> cut.next <= |e|)
    ensures IsCut(ReadSized(d, full, asString), ReadSized(e, cut, asString), |e|)
  {
    if cut.Ok? && cut.next + cut.value <= |e| {
      assert d[cut.next..cut.next + cut.value] == e[cut.next..cut.next + cut.value];
    }
  }

  lemma {:induction false} CutPairs(hex: bool, d: Bytes, e: Bytes, i: nat, count: nat)
    requires e <= d && i <= |e|
    ensures IsCut(ReadPairs(hex, d, i, count), ReadPairs(hex, e, i, count), |e|)
    decreases count
  {
    hide BinaryXml.Unpack;
    if count > 0 && i < |e| {
      CutPairs(hex, d, e, i + 1, count - 1);
    }
  }

  lemma CutPacked(hex: bool, d: Bytes, e: Bytes, i: nat)
    requires e <= d && i <= |e|
    ensures IsCut(ReadPacked(hex, d, i), ReadPacked(hex, e, i), |e|)
  {
    hide ReadPairs;
    if i < |e| {
      CutPairs(hex, d, e, i + 1, d[i] % 128);
    }
  }

  lemma CutScalar(t: Tables, d: Bytes, e: Bytes, i: nat, tag: Byte, asString: bool)
    requires e <= d && i <= |e|
    ensures IsCut(ReadScalar(t, d, i, tag, asString), ReadScalar(t, e, i, tag, asString), |e|)
  {
    hide ReadInt, ReadSized, ReadPacked, GetDoubleToken;
    CutInt(d, e, i, 1);
    CutInt(d, e, i, 4);
    CutSized(d, e, ReadInt(d, i, 1), ReadInt(e, i, 1), asString);
    CutSized(d, e, ReadInt20(d, i), ReadInt20(e, i), asString);
    CutSized(d, e, ReadInt(d, i, 4), ReadInt(e, i, 4), asString);
    CutPacked(tag == HEX_8, d, e, i);
  }

  lemma {:induction false} CutRead(t: Tables, d: Bytes, e: Bytes, i: nat, asString: bool)
    requires e <= d && i <= |e|
    ensures IsCut(Read(t, d, i, asString), Read(t, e, i, asString), |e|)
    decreases |d| - i, 0
  {
    hide ReadScalar, ReadListSize, ReadNodes, ReadFBJid, ReadInteropJid, ReadJidPair, ReadADJid;
    if i < |e| {
      var tag, j := d[i], i + 1;
      if tag == LIST_8 || tag == LIST_16 {
        CutListSize(d, e, j, tag);
        var size := ReadListSize(d, j, tag);
        if size.Ok? && size.next <= |e| {
          CutNodes(t, d, e, size.next, size.value);
        }
      } else if tag == FB_JID {
        CutFBJid(t, d, e, j);
      } else if tag == INTEROP_JID {
        CutInteropJid(t, d, e, j);
      } else if tag == JID_PAIR {
        CutJidPair(t, d, e, j);
      } else if tag == AD_JID {
        CutADJid(t, d, e, j);
      } else {
        CutScalar(t, d, e, j, tag, asString);
      }
    }
  }

  lemma {:induction false} CutJidPair(t: Tables, d: Bytes, e: Bytes, i: nat)
    requires e <= d && i <= |e|
    ensures IsCut(ReadJidPair(t, d, i), ReadJidPair(t, e, i), |e|)
    decreases |d| - i, 1
  {
    hide Read;
    CutRead(t, d, e, i, true);
    var user := Read(t, d, i, true);
    if user.Ok? && user.next <= |e| {
      CutRead(t, d, e, user.next, true);
    }
  }

  lemma {:induction false} CutInteropJid(t: Tables, d: Bytes, e: Bytes, i: nat)
    requires e <= d && i <= |e|
    ensures IsCut(ReadInteropJid(t, d, i), ReadInteropJid(t, e, i), |e|)
    decreases |d| - i, 1
  {
    hide Read;
    CutRead(t, d, e, i, true);
    var user := Read(t, d, i, true);
    if user.Ok? && user.next <= |e| {
      CutInt(d, e, user.next, 2);
      if user.next + 2 <= |e| {
        CutInt(d, e, user.next + 2, 2);
        if user.next + 4 <= |e| {
          CutRead(t, d, e, user.next + 4, true);
        }
      }
    }
  }

  lemma {:induction false} CutFBJid(t: Tables, d: Bytes, e: Bytes, i: nat)
    requires e <= d && i <= |e|
    ensures IsCut(ReadFBJid(t, d, i), ReadFBJid(t, e, i), |e|)
    decreases |d| - i, 1
  {
    hide Read;
    CutRead(t, d, e, i, true);
    var user := Read(t, d, i, true);
    if user.Ok? && user.next <= |e| {
      CutInt(d, e, user.next, 2);
      if user.next + 2 <= |e| {
        CutRead(t, d, e, user.next + 2, true);
      }
    }
  }

  lemma {:induction false} CutADJid(t: Tables, d: Bytes, e: Bytes, i: nat)
    requires e <= d && i <= |e|
    ensures IsCut(ReadADJid(t, d, i), ReadADJid(t, e, i), |e|)
    decreases |d| - i, 1
  {
    hide Read;
    if i + 2 <= |e| {
      CutRead(t, d, e, i + 2, true);
    }
  }

  lemma {:induction false} CutNodes(t: Tables, d: Bytes, e: Bytes, i: nat, count: nat)
    requires e <= d && i <= |e|
    ensures IsCut(ReadNodes(t, d, i, count), ReadNodes(t, e, i, count), |e|)
    decreases |d| - i, 3
  {
    hide ReadNode;
    if count > 0 {
      CutNode(t, d, e, i);
      var first := ReadNode(t, d, i);
      if first.Ok? && first.next <= |e| {
        CutNodes(t, d, e, first.next, count - 1);
      }
    }
  }

  lemma {:induction false} CutAttrs(t: Tables, d: Bytes, e: Bytes, i: nat, count: nat, attrs: map<Bytes, Value>)
    requires e <= d && i <= |e|
    ensures IsCut(ReadAttrs(t, d, i, count, attrs), ReadAttrs(t, e, i, count, attrs), |e|)
    decreases |d| - i, 1
  {
    hide Read;
    if count > 0 {
      CutRead(t, d, e, i, true);
      var key := Read(t, d, i, true);
      if key.Ok? && key.next <= |e| && key.value.Str? {
        CutRead(t, d, e, key.next, true);
        var value := Read(t, d, key.next, true);
        if value.Ok? && value.next <= |e| {
          CutAttrs(t, d, e, value.next, count - 1, attrs[key.value.text := value.value]);
        }
      }
    }
  }

  lemma {:induction false} CutNode(t: Tables, d: Bytes, e: Bytes, i: nat)
    requires e <= d && i <= |e|
    ensures IsCut(ReadNode(t, d, i), ReadNode(t, e, i), |e|)
    decreases |d| - i, 2
  {
    hide Read, ReadAttrs, ReadListSize, ReadInt;
    CutInt(d, e, i, 1);
    var listTag := ReadInt(d, i, 1);
    if listTag.Ok? && listTag.next <= |e| {
      CutListSize(d, e, listTag.next, listTag.value);
      var size := ReadListSize(d, listTag.next, listTag.value);
      if size.Ok? && size.next <= |e| {
        CutRead(t, d, e, size.next, true);
        var tag := Read(t, d, size.next, true);
        if tag.Ok? && tag.next <= |e| && tag.value.Str? && size.value > 0 {
          CutAttrs(t, d, e, tag.next, (size.value - 1) / 2, map[]);
          var attrs := ReadAttrs(t, d, tag.next, (size.value - 1) / 2, map[]);
          if attrs.Ok? && attrs.next <= |e| {
            CutRead(t, d, e, attrs.next, false);
          }
        }
      }
    }
  }

  // ---- Whole messages ----

  /** A message that unmarshals, cut anywhere, fails with the end of the input. */
  lemma CutMessageFails(t: Tables, d: Bytes, n: nat)
    requires UnmarshalSpec(t, d).Parsed? && n < |d|
    ensures UnmarshalSpec(t, d[..n]) == Failed(EOF)
  {
    hide ReadNode;
    CutNode(t, d, d[..n], 0);
  }

  /** So no message that unmarshals is the beginning of another. */
  lemma MessagesArePrefixFree(t: Tables, d: Bytes, e: Bytes)
    requires UnmarshalSpec(t, d).Parsed? && UnmarshalSpec(t, e).Parsed? && e <= d
    ensures e == d
  {
    hide UnmarshalSpec;
    if |e| < |d| {
      assert e == d[..|e|];
      CutMessageFails(t, d, |e|);
    }
  }

  /** In particular every encoding of a proper tree, cut anywhere, does. */
  lemma CutEncodingFails(t: Tables, ix: Index, node: Node, b: Bytes, n: nat)
    requires ValidTables(t, ix) && FitsNode(node) && ProperNode(node) && WritesNode(ix, node, b) && n < |b|
    ensures UnmarshalSpec(t, b[..n]) == Failed(EOF)
  {
    hide UnmarshalSpec, WritesNode, ValidTables, FitsNode, ProperNode;
    UnmarshalsIff(t, ix, node, b);
    CutMessageFails(t, b, n);
  }
}
