/** The decoder object (binary/decoder.go) computes the reading functions of the wire format. */
module Decoders {
  import opened Wrappers
  import opened Bytes
  import opened Tokens
  import opened Jids
  import opened BinaryXml

  /** The result is the one that was specified, and after a success the cursor is where the value ends. */
  ghost predicate Reads<T>(r: Result<T, Error>, spec: Parse<T>, index: nat) {
    match spec
    case Ok(v, next) => r == Success(v) && index == next
    case Err(e) => r == Failure(e)
  }

  function WithPrefix<T>(done: seq<T>, rest: Parse<seq<T>>): Parse<seq<T>> {
    match rest
    case Ok(more, next) => Ok(done + more, next)
    case Err(e) => Err(e)
  }

  lemma PrefixNothing<T>(rest: Parse<seq<T>>)
    ensures WithPrefix([], rest) == rest
  {
    if rest.Ok? {
      assert [] + rest.value == rest.value;
    }
  }

  lemma PrefixTwice<T>(done: seq<T>, more: seq<T>, rest: Parse<seq<T>>)
    ensures WithPrefix(done, WithPrefix(more, rest)) == WithPrefix(done + more, rest)
  {
    if rest.Ok? {
      assert done + (more + rest.value) == done + more + rest.value;
    }
  }

  lemma PrefixDone<T>(done: seq<T>, i: nat)
    ensures WithPrefix(done, Ok([], i)) == Ok(done, i)
  {
    assert done + [] == done;
  }

  lemma ReadNodesStep(t: Tables, d: Bytes, i: nat, count: nat)
    requires i <= |d| && count > 0
    ensures match BinaryXml.ReadNode(t, d, i)
      case Err(e) => ReadNodes(t, d, i, count) == Err(e)
      case Ok(n, j) => ReadNodes(t, d, i, count) == WithPrefix([n], ReadNodes(t, d, j, count - 1))
  {
    hide BinaryXml.ReadNode;
  }

  lemma ReadPairsStep(hex: bool, d: Bytes, i: nat, count: nat)
    requires i <= |d| && count > 0
    ensures ReadPairs(hex, d, i, count) ==
      if i == |d| then Err(EOF)
      else if Unpack(hex, d[i] / 16).Err? then Err(Unpack(hex, d[i] / 16).error)
      else if Unpack(hex, d[i] % 16).Err? then Err(Unpack(hex, d[i] % 16).error)
      else WithPrefix([Unpack(hex, d[i] / 16).value, Unpack(hex, d[i] % 16).value], ReadPairs(hex, d, i + 1, count - 1))
  {
    hide Unpack;
  }

  lemma ReadPairsEnd(hex: bool, d: Bytes, i: nat)
    requires i <= |d|
    ensures ReadPairs(hex, d, i, 0) == Ok([], i)
  {
  }

  class Decoder {
    const tables: Tables
    const data: Bytes
    var index: nat

    ghost predicate Valid()
      reads this
    {
      index <= |data|
    }

    constructor (tables: Tables, data: Bytes)
      ensures Valid() && this.tables == tables && this.data == data && index == 0
    {
      this.tables := tables;
      this.data := data;
      index := 0;
    }

    method ReadByte() returns (r: Result<Byte, Error>)
      requires Valid()
      modifies this
      ensures Valid() && Reads(r, BinaryXml.ReadByte(data, old(index)), index)
    {
      if index + 1 > |data| {
        return Failure(EOF);
      }
      r := Success(data[index]);
      index := index + 1;
    }

    method ReadIntN(n: nat) returns (r: Result<nat, Error>)
      requires Valid()
      modifies this
      ensures Valid() && Reads(r, ReadInt(data, old(index), n), index)
    {
      if index + n > |data| {
        return Failure(EOF);
      }
      var ret: nat := 0;
      var i := 0;
      ShiftZero(n);
      assert data[index..index] == [];
      while i < n
        invariant 0 <= i <= n
        invariant index == old(index)
        invariant ret == ShiftLeft(FromBigEndian(data[index..index + i]), n - i)
      {
        ret := ret + ShiftLeft(data[index + i], n - i - 1);
        assert data[index..index + i + 1][..i] == data[index..index + i];
        ShiftLeftSum(256 * FromBigEndian(data[index..index + i]), data[index + i], n - i - 1);
        i := i + 1;
      }
      index := index + n;
      assert ShiftLeft(FromBigEndian(data[old(index)..index]), 0) == FromBigEndian(data[old(index)..index]);
      r := Success(ret);
    }

    method ReadInt20() returns (r: Result<nat, Error>)
      requires Valid()
      modifies this
      ensures Valid() && Reads(r, BinaryXml.ReadInt20(data, old(index)), index)
    {
      if index + 3 > |data| {
        return Failure(EOF);
      }
      r := Success((data[index] as int) % 16 * 0x1_0000 + (data[index + 1] as int) * 256 + data[index + 2]);
      index := index + 3;
    }

    method ReadPacked8(hex: bool) returns (r: Result<Bytes, Error>)
      requires Valid()
      modifies this
      ensures Valid() && Reads(r, ReadPacked(hex, data, old(index)), index)
    {
      hide Unpack, ReadPairs;
      var startByte :- ReadByte();
      ghost var first := index;
      var build: Bytes := [];
      PrefixNothing(ReadPairs(hex, data, first, startByte % 128));
      for i := 0 to startByte % 128
        invariant Valid()
        invariant ReadPairs(hex, data, first, startByte % 128)
               == WithPrefix(build, ReadPairs(hex, data, index, startByte % 128 - i))
      {
        ghost var at := index;
        ReadPairsStep(hex, data, at, startByte % 128 - i);
        var currByte :- ReadByte();
        var lower := Unpack(hex, currByte / 16);
        if lower.Err? {
          return Failure(lower.error);
        }
        var upper := Unpack(hex, currByte % 16);
        if upper.Err? {
          return Failure(upper.error);
        }
        PrefixTwice(build, [lower.value, upper.value], ReadPairs(hex, data, index, startByte % 128 - i - 1));
        build := build + [lower.value, upper.value];
      }
      ReadPairsEnd(hex, data, index);
      PrefixDone(build, index);
      if startByte / 128 != 0 {
        if build == [] {
          return Failure(Fault);
        }
        build := build[..|build| - 1];
      }
      r := Success(build);
    }

    method ReadListSize(tag: int) returns (r: Result<nat, Error>)
      requires Valid()
      modifies this
      ensures Valid() && Reads(r, BinaryXml.ReadListSize(data, old(index), tag), index)
    {
      if tag == LIST_EMPTY {
        r := Success(0);
      } else if tag == LIST_8 {
        r := ReadIntN(1);
      } else if tag == LIST_16 {
        r := ReadIntN(2);
      } else {
        r := Failure(InvalidListTag);
      }
    }

    method ReadBytesOrString(ghost size: Parse<nat>, length: nat, asString: bool) returns (r: Result<Value, Error>)
      requires Valid() && size == Ok(length, index)
      modifies this
      ensures Valid() && Reads(r, ReadSized(data, size, asString), index)
    {
      if index + length > |data| {
        return Failure(EOF);
      }
      var ret := data[index..index + length];
      index := index + length;
      r := Success(if asString then Str(ret) else Blob(ret));
    }

    /** The cases of `read` that hold no other value. */
    method ReadScalar(tag: Byte, asString: bool) returns (r: Result<Value, Error>)
      requires Valid()
      modifies this
      ensures Valid() && Reads(r, BinaryXml.ReadScalar(tables, data, old(index), tag, asString), index)
    {
      hide ReadInt, ReadPacked;
      ghost var i := index;
      if tag == BINARY_8 {
        var size :- ReadIntN(1);
        r := ReadBytesOrString(ReadInt(data, i, 1), size, asString);
      } else if tag == BINARY_20 {
        var size :- ReadInt20();
        r := ReadBytesOrString(BinaryXml.ReadInt20(data, i), size, asString);
      } else if tag == BINARY_32 {
        var size :- ReadIntN(4);
        r := ReadBytesOrString(ReadInt(data, i, 4), size, asString);
      } else if DICTIONARY_0 <= tag <= DICTIONARY_3 {
        var j :- ReadIntN(1);
        var token := GetDoubleToken(tables, tag - DICTIONARY_0, j);
        r := if token.Ok? then Success(Str(token.value)) else Failure(token.error);
      } else if tag == NIBBLE_8 || tag == HEX_8 {
        var s :- ReadPacked8(tag == HEX_8);
        r := Success(Str(s));
      } else if 1 <= tag < |tables.single| {
        r := Success(Str(tables.single[tag]));
      } else {
        r := Failure(InvalidToken);
      }
    }

    method Read(asString: bool) returns (r: Result<Value, Error>)
      requires Valid()
      modifies this
      ensures Valid() && Reads(r, BinaryXml.Read(tables, data, old(index), asString), index)
      decreases |data| - index, 0
    {
      hide BinaryXml.ReadScalar, BinaryXml.ReadNodes, BinaryXml.ReadListSize, BinaryXml.ReadFBJid,
        BinaryXml.ReadInteropJid, BinaryXml.ReadJidPair, BinaryXml.ReadADJid;
      var tag :- ReadByte();
      if tag == LIST_EMPTY {
        r := Success(Nil);
      } else if tag == LIST_8 || tag == LIST_16 {
        var nodes :- ReadList(tag);
        r := Success(Nodes(nodes));
      } else if tag == FB_JID {
        r := ReadFBJID();
      } else if tag == INTEROP_JID {
        r := ReadInteropJID();
      } else if tag == JID_PAIR {
        r := ReadJIDPair();
      } else if tag == AD_JID {
        r := ReadADJID();
      } else {
        r := ReadScalar(tag, asString);
      }
    }

    method ReadJIDPair() returns (r: Result<Value, Error>)
      requires Valid()
      modifies this
      ensures Valid() && Reads(r, ReadJidPair(tables, data, old(index)), index)
      decreases |data| - index, 1
    {
      hide BinaryXml.Read;
      var user :- Read(true);
      var server :- Read(true);
      if server == Nil {
        r := Failure(InvalidJid);
      } else if user == Nil && server.Str? {
        r := Success(Jid(NewJID([], server.text)));
      } else if user.Str? && server.Str? {
        r := Success(Jid(NewJID(user.text, server.text)));
      } else {
        r := Failure(Fault);
      }
    }

    method ReadInteropJID() returns (r: Result<Value, Error>)
      requires Valid()
      modifies this
      ensures Valid() && Reads(r, ReadInteropJid(tables, data, old(index)), index)
      decreases |data| - index, 1
    {
      hide BinaryXml.Read;
      var user :- Read(true);
      var device :- ReadIntN(2);
      var integrator :- ReadIntN(2);
      var server :- Read(true);
      if server != Str(INTEROP_SERVER) {
        r := Failure(InvalidJid);
      } else if !user.Str? {
        r := Failure(Fault);
      } else {
        r := Success(Jid(JID(user.text, 0, device, integrator, INTEROP_SERVER)));
      }
    }

    method ReadFBJID() returns (r: Result<Value, Error>)
      requires Valid()
      modifies this
      ensures Valid() && Reads(r, ReadFBJid(tables, data, old(index)), index)
      decreases |data| - index, 1
    {
      hide BinaryXml.Read;
      var user :- Read(true);
      var device :- ReadIntN(2);
      var server :- Read(true);
      if server != Str(MESSENGER_SERVER) {
        r := Failure(InvalidJid);
      } else if !user.Str? {
        r := Failure(Fault);
      } else {
        r := Success(Jid(JID(user.text, 0, device, 0, server.text)));
      }
    }

    method ReadADJID() returns (r: Result<Value, Error>)
      requires Valid()
      modifies this
      ensures Valid() && Reads(r, ReadADJid(tables, data, old(index)), index)
      decreases |data| - index, 1
    {
      hide BinaryXml.Read;
      var agent :- ReadByte();
      var device :- ReadByte();
      var user :- Read(true);
      r := if user.Str? then Success(Jid(NewADJID(user.text, agent, device))) else Failure(Fault);
    }

    method ReadAttributes(n: nat) returns (r: Result<map<Bytes, Value>, Error>)
      requires Valid()
      modifies this
      ensures Valid() && Reads(r, ReadAttrs(tables, data, old(index), n, map[]), index)
      decreases |data| - index, 1
    {
      hide BinaryXml.Read;
      var ret: map<Bytes, Value> := map[];
      for i := 0 to n
        invariant Valid() && old(index) <= index
        invariant ReadAttrs(tables, data, old(index), n, map[]) == ReadAttrs(tables, data, index, n - i, ret)
      {
        var key :- Read(true);
        if !key.Str? {
          return Failure(NonStringKey);
        }
        var value :- Read(true);
        ret := ret[key.text := value];
      }
      r := Success(ret);
    }

    method ReadList(tag: Byte) returns (r: Result<seq<Node>, Error>)
      requires Valid()
      modifies this
      ensures Valid()
      ensures match BinaryXml.ReadListSize(data, old(index), tag)
        case Err(e) => r == Failure(e)
        case Ok(size, k) => Reads(r, ReadNodes(tables, data, k, size), index)
      decreases |data| - index, 3
    {
      hide BinaryXml.ReadNode, BinaryXml.ReadListSize;
      var size :- ReadListSize(tag);
      ghost var first := index;
      var ret: seq<Node> := [];
      PrefixNothing(ReadNodes(tables, data, first, size));
      for i := 0 to size
        invariant Valid() && first <= index
        invariant ReadNodes(tables, data, first, size) == WithPrefix(ret, ReadNodes(tables, data, index, size - i))
      {
        ReadNodesStep(tables, data, index, size - i);
        var n :- ReadNode();
        PrefixTwice(ret, [n], ReadNodes(tables, data, index, size - i - 1));
        ret := ret + [n];
      }
      PrefixDone(ret, index);
      r := Success(ret);
    }

    method ReadNode() returns (r: Result<Node, Error>)
      requires Valid()
      modifies this
      ensures Valid() && Reads(r, BinaryXml.ReadNode(tables, data, old(index)), index)
      decreases |data| - index, 2
    {
      hide BinaryXml.Read, ReadAttrs, BinaryXml.ReadListSize;
      var size :- ReadIntN(1);
      var listSize :- ReadListSize(size);
      var rawDesc :- Read(true);
      if !rawDesc.Str? {
        return Failure(Fault);
      }
      if listSize == 0 || rawDesc.text == [] {
        return Failure(InvalidNode);
      }
      var attrs :- ReadAttributes((listSize - 1) / 2);
      if listSize % 2 == 1 {
        return Success(Node(rawDesc.text, attrs, Nil));
      }
      var content :- Read(false);
      r := Success(Node(rawDesc.text, attrs, content));
    }
  }
}
