/** The text form of a JID (types/jid.go): printing and parsing. */
module JidText {
  import opened Bytes
  import opened Jids
  import opened Decimal

  const AT: Byte := 64
  const DOT: Byte := 46
  const COLON: Byte := 58

  datatype Parsed = Jid(jid: JID) | TooManyDots | TooManyColons | BadNumber

  /** `JID.String`. */
  function Print(j: JID): Bytes {
    if j.rawAgent > 0 then
      j.user + [DOT] + Itoa(j.rawAgent) + [COLON] + Itoa(j.device) + [AT] + j.server
    else if j.device > 0 then j.user + [COLON] + Itoa(j.device) + [AT] + j.server
    else if |j.user| > 0 then j.user + [AT] + j.server
    else j.server
  }

  /** `strings.Split` with a one-byte separator. */
  function Split(s: Bytes, sep: Byte): (parts: seq<Bytes>)
    ensures |parts| >= 1
  {
    if s == [] then [[]]
    else if s[0] == sep then [[]] + Split(s[1..], sep)
    else
      var rest := Split(s[1..], sep);
      [[s[0]] + rest[0]] + rest[1..]
  }

  /** `ParseJID`. Agents and devices are cut down to their 8 and 16 bits. */
  function Parse(s: Bytes): Parsed {
    var parts := Split(s, AT);
    if |parts| == 1 then Jid(NewJID([], parts[0]))
    else
      var user, server := parts[0], parts[1];
      if DOT in user then
        var halves := Split(user, DOT);
        if |halves| != 2 then TooManyDots
        else
          var ad := Split(halves[1], COLON);
          if |ad| > 2 then TooManyColons
          else match Atoi(ad[0])
            case NotANumber => BadNumber
            case Number(agent) =>
              if |ad| == 1 then Jid(JID(halves[0], agent % 256, 0, 0, server))
              else match Atoi(ad[1])
                case NotANumber => BadNumber
                case Number(device) => Jid(JID(halves[0], agent % 256, device % 0x1_0000, 0, server))
      else if COLON in user then
        var halves := Split(user, COLON);
        if |halves| != 2 then TooManyColons
        else match Atoi(halves[1])
          case NotANumber => BadNumber
          case Number(device) => Jid(JID(halves[0], 0, device % 0x1_0000, 0, server))
      else Jid(JID(user, 0, 0, 0, server))
  }

  lemma {:induction false} SplitWhole(s: Bytes, sep: Byte)
    requires sep !in s
    ensures Split(s, sep) == [s]
  {
    if s != [] {
      SplitWhole(s[1..], sep);
      assert s == [s[0]] + s[1..];
    }
  }

  lemma SplitCons(c: Byte, s: Bytes, sep: Byte)
    requires c != sep
    ensures Split([c] + s, sep) == [[c] + Split(s, sep)[0]] + Split(s, sep)[1..]
  {
    assert ([c] + s)[1..] == s;
  }

  lemma {:induction false} SplitOnce(a: Bytes, sep: Byte, b: Bytes)
    requires sep !in a && sep !in b
    ensures Split(a + [sep] + b, sep) == [a, b]
  {
    if a == [] {
      SplitWhole(b, sep);
      assert a + [sep] + b == [sep] + b;
      assert ([sep] + b)[1..] == b;
    } else {
      hide Split;
      SplitOnce(a[1..], sep, b);
      assert a + [sep] + b == [a[0]] + (a[1..] + [sep] + b);
      SplitCons(a[0], a[1..] + [sep] + b, sep);
      assert a == [a[0]] + a[1..];
    }
  }

  /** The first separator ends the first part. */
  lemma {:induction false} SplitFirst(a: Bytes, sep: Byte, b: Bytes)
    requires sep !in a
    ensures Split(a + [sep] + b, sep) == [a] + Split(b, sep)
  {
    if a == [] {
      assert a + [sep] + b == [sep] + b;
      assert ([sep] + b)[1..] == b;
    } else {
      hide Split;
      SplitFirst(a[1..], sep, b);
      assert a + [sep] + b == [a[0]] + (a[1..] + [sep] + b);
      SplitCons(a[0], a[1..] + [sep] + b, sep);
      assert a == [a[0]] + a[1..];
    }
  }

  /** One part more than there are separators. */
  lemma {:induction false} SplitCount(s: Bytes, sep: Byte)
    ensures |Split(s, sep)| == 1 + multiset(s)[sep]
  {
    if s != [] {
      SplitCount(s[1..], sep);
      assert s == [s[0]] + s[1..];
    }
  }

  /** No part holds the separator, and nothing in a part is new. */
  lemma {:induction false} SplitParts(s: Bytes, sep: Byte)
    ensures forall part :: part in Split(s, sep) ==> sep !in part && forall c :: c in part ==> c in s
  {
    if s != [] {
      SplitParts(s[1..], sep);
    }
  }

  lemma ItoaIsDigits(n: nat)
    ensures forall c :: c in Itoa(n) ==> IsDigit(c)
  {
  }

  /** The identifiers whose printed form can be taken apart again. A colon in the user does no harm when an agent is
      printed, since the first dot then ends the user. */
  predicate Printable(j: JID) {
    && AT !in j.user && AT !in j.server && DOT !in j.user
    && (COLON in j.user ==> j.rawAgent > 0)
    && j.integrator == 0
  }

  lemma NumberReads(n: nat)
    requires n < 0x1_0000
    ensures Atoi(Itoa(n)) == Number(n)
  {
    ItoaRoundTrip(n);
  }

  lemma AgentForm(j: JID)
    requires Printable(j) && j.rawAgent > 0
    ensures Parse(Print(j)) == Jid(j)
  {
    hide Itoa, Atoi, Split;
    ItoaIsDigits(j.rawAgent);
    ItoaIsDigits(j.device);
    NumberReads(j.rawAgent);
    NumberReads(j.device);
    var ad := Itoa(j.rawAgent) + [COLON] + Itoa(j.device);
    var user := j.user + [DOT] + ad;
    assert Print(j) == user + [AT] + j.server;
    SplitOnce(user, AT, j.server);
    SplitOnce(j.user, DOT, ad);
    SplitOnce(Itoa(j.rawAgent), COLON, Itoa(j.device));
    assert user[|j.user|] == DOT;
  }

  lemma DeviceForm(j: JID)
    requires Printable(j) && j.rawAgent == 0 && j.device > 0
    ensures Parse(Print(j)) == Jid(j)
  {
    hide Itoa, Atoi, Split;
    ItoaIsDigits(j.device);
    NumberReads(j.device);
    var user := j.user + [COLON] + Itoa(j.device);
    SplitOnce(user, AT, j.server);
    SplitOnce(j.user, COLON, Itoa(j.device));
    assert user[|j.user|] == COLON;
  }

  /** In all four printed forms, a printable JID comes back. */
  lemma PrintParse(j: JID)
    requires Printable(j)
    ensures Parse(Print(j)) == Jid(j)
  {
    if j.rawAgent > 0 {
      AgentForm(j);
    } else if j.device > 0 {
      DeviceForm(j);
    } else if |j.user| > 0 {
      SplitOnce(j.user, AT, j.server);
    } else {
      SplitWhole(j.server, AT);
    }
  }

  /** A text that ends here or goes on with another '@'. */
  predicate Ends(tail: Bytes) {
    tail == [] || tail[0] == AT
  }

  lemma SplitAt(user: Bytes, server: Bytes, tail: Bytes)
    requires AT !in user && AT !in server && Ends(tail)
    ensures var parts := Split(user + [AT] + server + tail, AT);
            |parts| >= 2 && parts[0] == user && parts[1] == server
  {
    hide Split;
    assert user + [AT] + server + tail == user + [AT] + (server + tail);
    SplitFirst(user, AT, server + tail);
    if tail == [] {
      assert server + tail == server;
      SplitWhole(server, AT);
    } else {
      assert server + tail == server + [AT] + tail[1..];
      SplitFirst(server, AT, tail[1..]);
    }
  }

  /** Without a dot and a colon the user is what stands before the first '@' and the server what stands up to the next;
      without an '@' everything is the server. */
  lemma ParsePlain(user: Bytes, server: Bytes, tail: Bytes)
    requires AT !in user && AT !in server && Ends(tail) && DOT !in user && COLON !in user
    ensures Parse(user + [AT] + server + tail) == Jid(JID(user, 0, 0, 0, server))
    ensures Parse(server) == Jid(JID([], 0, 0, 0, server))
  {
    hide Split;
    SplitAt(user, server, tail);
    SplitWhole(server, AT);
  }

  /** Behind a colon comes the device, of which 16 bits are kept. */
  lemma ParseDevice(user: Bytes, device: Bytes, server: Bytes, tail: Bytes)
    requires AT !in user + device && AT !in server && Ends(tail) && DOT !in user + device
    requires COLON !in user && COLON !in device
    ensures Parse(user + [COLON] + device + [AT] + server + tail)
         == match Atoi(device)
            case NotANumber => BadNumber
            case Number(n) => Jid(JID(user, 0, n % 0x1_0000, 0, server))
  {
    hide Split, Atoi;
    var whole := user + [COLON] + device;
    assert whole[|user|] == COLON;
    SplitAt(whole, server, tail);
    SplitOnce(user, COLON, device);
  }

  /** Behind a dot comes the agent, of which 8 bits are kept; with no device after it, the device is zero. */
  lemma ParseAgent(user: Bytes, agent: Bytes, server: Bytes, tail: Bytes)
    requires AT !in user + agent && AT !in server && Ends(tail) && DOT !in user && DOT !in agent && COLON !in agent
    ensures Parse(user + [DOT] + agent + [AT] + server + tail)
         == match Atoi(agent)
            case NotANumber => BadNumber
            case Number(n) => Jid(JID(user, n % 256, 0, 0, server))
  {
    hide Split, Atoi;
    var whole := user + [DOT] + agent;
    assert whole[|user|] == DOT;
    SplitAt(whole, server, tail);
    SplitOnce(user, DOT, agent);
    SplitWhole(agent, COLON);
  }

  lemma ParseAgentAndDevice(user: Bytes, agent: Bytes, device: Bytes, server: Bytes, tail: Bytes)
    requires AT !in user + agent + device && AT !in server && Ends(tail)
    requires DOT !in user && DOT !in agent + device && COLON !in agent && COLON !in device
    ensures Parse(user + [DOT] + agent + [COLON] + device + [AT] + server + tail)
         == match Atoi(agent)
            case NotANumber => BadNumber
            case Number(n) =>
              match Atoi(device)
              case NotANumber => BadNumber
              case Number(m) => Jid(JID(user, n % 256, m % 0x1_0000, 0, server))
  {
    hide Split, Atoi;
    var ad := agent + [COLON] + device;
    var whole := user + [DOT] + ad;
    assert whole[|user|] == DOT;
    assert user + [DOT] + agent + [COLON] + device == whole;
    SplitAt(whole, server, tail);
    SplitOnce(user, DOT, ad);
    SplitOnce(agent, COLON, device);
  }

  /** Too many separators: a second dot before the '@', or a second colon behind the dot or, without one, at all. */
  lemma ParseRefuses(user: Bytes, server: Bytes, tail: Bytes)
    requires AT !in user && AT !in server && Ends(tail)
    ensures Parse(user + [AT] + server + tail) == TooManyDots <==> multiset(user)[DOT] > 1
    ensures DOT !in user ==>
              (Parse(user + [AT] + server + tail) == TooManyColons <==> multiset(user)[COLON] > 1)
    ensures forall i :: 0 <= i < |user| && user[i] == DOT && multiset(user)[DOT] == 1 ==>
              (Parse(user + [AT] + server + tail) == TooManyColons <==> multiset(user[i + 1..])[COLON] > 1)
  {
    hide Split, Atoi;
    SplitAt(user, server, tail);
    SplitCount(user, DOT);
    SplitCount(user, COLON);
    forall i | 0 <= i < |user| && user[i] == DOT && multiset(user)[DOT] == 1
      ensures Split(user, DOT)[1] == user[i + 1..] && |Split(user[i + 1..], COLON)| == 1 + multiset(user[i + 1..])[COLON]
    {
      assert user == user[..i] + [DOT] + user[i + 1..];
      SplitFirst(user[..i], DOT, user[i + 1..]);
      SplitWhole(user[i + 1..], DOT);
      SplitCount(user[i + 1..], COLON);
    }
  }

  /** What parsing can give: a colon is left in the user only behind a dot in the text. */
  lemma ParsedParts(s: Bytes)
    requires Parse(s).Jid?
    ensures var j := Parse(s).jid;
            && AT !in j.user && AT !in j.server && DOT !in j.user && j.integrator == 0
            && (COLON in j.user ==> |Split(s, AT)| > 1 && DOT in Split(s, AT)[0])
  {
    hide Split, Atoi;
    SplitParts(s, AT);
    var parts := Split(s, AT);
    assert parts[0] in parts;
    if |parts| > 1 {
      assert parts[1] in parts;
      SplitParts(parts[0], DOT);
      SplitParts(parts[0], COLON);
      assert Split(parts[0], DOT)[0] in Split(parts[0], DOT);
      assert Split(parts[0], COLON)[0] in Split(parts[0], COLON);
    }
  }

  lemma ColonNeedsAgent(j: JID)
    requires AT !in j.user && AT !in j.server && DOT !in j.user && COLON in j.user && j.rawAgent == 0
    ensures |Split(Print(j), AT)| == 2 && DOT !in Split(Print(j), AT)[0]
  {
    hide Itoa, Split;
    ItoaIsDigits(j.device);
    if j.device > 0 {
      SplitOnce(j.user + [COLON] + Itoa(j.device), AT, j.server);
    } else {
      SplitOnce(j.user, AT, j.server);
    }
  }

  /** Only what is there is printed: an '@' when there is a user, agent or device, a device of zero only behind an agent,
      and nothing but the server when there is nothing else. */
  lemma PrintedParts(user: Bytes, agent: Byte, device: Uint16, integrator: Uint16, server: Bytes)
    ensures var text := Print(JID(user, agent, device, integrator, server));
            && (user == [] && agent == 0 && device == 0 ==> text == server)
            && (user != [] && agent == 0 && device == 0 ==> text == user + Ascii("@") + server)
            && (agent == 0 && device > 0 ==> text == user + Ascii(":") + Itoa(device) + Ascii("@") + server)
            && (agent > 0 ==>
                  text == user + Ascii(".") + Itoa(agent) + Ascii(":") + Itoa(device) + Ascii("@") + server)
  {
    hide Itoa;
    assert Ascii("@") == [AT] && Ascii(":") == [COLON] && Ascii(".") == [DOT];
  }

  /** Printing and parsing gives a JID back exactly when it is printable. */
  lemma TextRoundTripIff(j: JID)
    ensures Parse(Print(j)) == Jid(j) <==> Printable(j)
  {
    hide Parse, Print;
    if Printable(j) {
      PrintParse(j);
    } else if Parse(Print(j)) == Jid(j) {
      ParsedParts(Print(j));
      ColonNeedsAgent(j);
      assert false;
    }
  }
}
