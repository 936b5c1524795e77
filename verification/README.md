# whatsmeow, verified

A Dafny model of the parts of whatsmeow where bytes, hashes and state have to agree exactly, with proofs.

- **Binary XML** (`Bytes`, `Decimal`, `Tokens`, `Jid`, `BinaryXml`, `RoundTrip`, `WireFormat`, `ImproperTrees`,
  `Encoder`, `Decoder`, `Marshal`, `Truncation`). The wire format is given twice: as a relation `Writes*` between a
  value and every byte string the encoder may produce for it (Go visits attribute maps in any order), and as functions
  `Read*` that say what the decoder makes of any input. The encoder and decoder classes are proved to produce and
  compute exactly these, and the round trip connects the two for all trees: it says exactly which of them come back.
  `WireFormat` says of every form, by number and position, which bytes it has, and what is read from bytes that are
  never written.
- **App state** (`LtHash`, `Multiplicity`, `AppState`, `HashInvariant`, `Drift`, `SyncHistory`, `HistoryDrift`,
  `EncodePatch`, `Mac`, `Reported`, `OutgoingPatch`, `Processor`). The additive hash is updated incrementally; the table of
  value MACs is stored separately. `HashInvariant.Drift` is an exact account, computed from a patch alone, of how far the
  two move apart; everything about when they stay together follows from it, up to the account of whole histories. `Mac`
  says what each MAC covers and that nothing of it can be changed, and `Reported` what is accepted and reported.
- **Reporting tokens** (`Varint`, `Sorting`, `ReportingToken`, `ReportingTree`, `ReportingTail`, `ReportingProperties`,
  `ReportingSelection`). The byte scanner computes a recursive projection of the field tree, for every way the library
  sort may order fields of one number, in the format of the Protocol Buffers Encoding specification, sections "Base 128
  Varints" and "Message Structure"; `ReportingSelection` says of every field whether, how often and as what it stands in
  it.
- **Frames** (`FrameSocket`). Reassembly of frames from websocket messages, with the exact condition under which it works.
- **JID text** (`JidText`), **session cache** (`SessionCache`), **response waiters** (`ResponseWaiters`), **recent
  messages** (`RecentMessages`), **retry counters** (`Retries`), **rate limits** (`RateLimiter`) and the **event
  buffer** (`EventBuffer`): state machines with invariants over every run.

`dafny verify dfyconfig.toml` checks the whole project.

## How to read it

Code that changes state step by step is a class or a loop, and its `ensures` clauses equate the new state with a
function of the old one; the properties are then lemmas about that function. Lemmas use `hide` to keep definitions they
do not need out of the solver's way.

Go strings are byte strings here. Token tables, cryptography, protobuf, JSON, zlib and the random initialisation vectors
are parameters: every theorem holds for all of them that satisfy the stated laws (`Tables.Valid`, `Env.Sized`,
`Env.Inverts`, `Serializer.Inverts`). A Go panic is an explicit outcome (`Fault`, `Panic`). Clocks, timeouts and what the
network or a cipher delivers are parameters of the steps. Go's `int` is 64 bits wide in `Retries`, where the peer chooses
what a counter starts from; other counters and lengths are unbounded, since they would have to count 2^63 steps to wrap.

## Where the code does less than it promises

- **Frames** (socket/framesocket.go:172): the received length counts the three length bytes as payload. So the frames
  come back exactly when no message ends inside a payload or right after a length
  (`FrameSockets.ReassemblesIff`); `FrameSockets.CutAfterLength` is an input that makes the program panic.
- **App-state patches** (appstate/decode.go:273-277): the value MAC to subtract is that of the previous mention of the
  index, even if that was a REMOVE, and deletions are stored before additions (appstate/decode.go:183-187). So a patch
  keeps the hash and the table together exactly when its drift vanishes modulo 2^16 in every lane
  (`HashInvariant.PatchKeepsHashIff`). For every hash function it does exactly when each value MAC is added and removed in
  excess equally often modulo 2^16 (`Drifts.DriftFreeIff`); for a patch of at most 65536 mutations that is when no removed
  index is mentioned twice (`Drifts.SmallPatchDriftFreeIff`), and not for longer ones (`Drifts.ManyRemovalsComeBack`).
  `Drifts.AcceptedPatchDrifts`: a patch that sets an index and removes it again is accepted with validation on, keeps the
  removed index in the table and loses its value from the hash.
- **Outgoing patches** (appstate/encode.go:312-314) look up only what is stored, while the decoder looks in the patch as
  well. So a patch of one's own is accepted with validation on exactly when the value MACs it replaces for repeated indexes
  add up to those stored instead, or HMAC collides (`OutgoingPatches.EncodedPatchApplies`). For every hash function that is
  when both occur equally often modulo 2^16 (`OutgoingPatches.AlwaysReplacesSameIff`); for at most 65536 mutations, when
  a repeated index was only set to what is stored for it, provided that value MACs tell indexes apart
  (`OutgoingPatches.SmallPatchAgreesIff`); and for new indexes, when they are distinct
  (`OutgoingPatches.NewIndexesAgreeIff`). `OutgoingPatches.IndexSetTwiceIsRefused` is a refused patch.
- **Reporting tokens** (reportingtoken.go:168-169): the library sort does not promise to keep fields of one number in
  order, and does not for more than 12 fields. So a message that repeats a number can have several token contents
  (`ReportingProperties.TiesAreOpen`), each the rendering of its projection under the sort used. It has only one where kept
  fields of one number are equal (`ReportingProperties.SortDoesNotMatter`), and at one level only there are all sorts the
  same (`Sorting.SortDoesNotMatterIff`).
- **JIDs on the wire** (binary/encoder.go:161-187) and **in text** (types/jid.go:216-226, whose comment says that the
  output can be parsed): they come back exactly under `RoundTrip.JidHasWireForm` and `JidText.Printable`.
- **Recent messages** (retry.go:50-63): adding a key again leaves its older slot in the ring, and giving that slot away
  deletes the newer message (`RecentMessages.AddedAgainIsLost`). `RecentMessages.FoundIff` says exactly what a lookup
  finds.
- **Retry receipts** (retry.go:389-394): the count is one more than the count in the message, which the sender chooses, so
  it can wrap. The counts lie between 1 and 4 exactly when the retries before and in the run add up to less than 2^63
  (`Retries.ReceiptCountsIff`), and `Retries.AtMostFourReceiptsIff` says when at most four receipts are sent.
  `Retries.WrappedReceipt`: a message with the count 2^63 - 1 gets a receipt with the count -2^63.
- **Rate limits** (cmd/whatsapp_mcp/action_executor.go:40-52): executions are recorded by goroutines of their own, with a
  clock reading of their own, after the check that admitted them. With at most k executions admitted and not recorded
  yet, limits are exceeded by at most k - 1 (`RateLimiter.LimitsHold`), and that many are reached
  (`RateLimiter.BoundIsReached`). So the limits hold when each execution is recorded before the next check.
- **Trees with an empty tag, a tag "0" or a list of 65536 elements or more**, anywhere in them, do not come back, and
  exactly these (`Marshalling.UnmarshalsIff`). Long lists lose the high bits of their size (binary/encoder.go:210-220).

## Model

| member | source | states |
|---|---|---|
| Bytes.BigEndianRoundTrip | binary/encoder.go:32-42 | An integer survives writing and reading in k big-endian bytes exactly when it fits in them |
| Decimal.ItoaRoundTrip | binary/encoder.go:108-119 | Decimal text reads back as the number it was printed from, exactly for 64-bit integers |
| Decimal.AtoiForms | types/jid.go:175-185 | Leading zeros and a sign do not keep a number from being read |
| Decimal.AtoiReads | types/jid.go:175-185 | Nothing but digits, at least one, behind an optional sign is read as a number |
| Tokens.IndexSingle | binary/token/token.go:33-37 | The reverse index of the single-byte tokens holds every non-empty token at its last position |
| Tokens.IndexDictionary | binary/token/token.go:38-42 | One more dictionary is indexed, later entries taking over earlier equal ones |
| Tokens.BuildIndex | binary/token/token.go:30-43 | Both reverse indexes are exact, duplicate tokens included |
| BinaryXml.PackPairs | binary/encoder.go:243-248 | Packing takes half a byte for each character, rounded up |
| BinaryXml.ReadPairs | binary/decoder.go:91-109 | A successful unpacking uses one byte for each pair of characters and stays inside the input |
| BinaryXml.ReadPacked | binary/decoder.go:83-116 | A successful packed read moves the cursor forward and not past the end |
| BinaryXml.Read | binary/decoder.go:168-223 | On every input the mutually recursive decoder terminates; a successful read moves forward and not past the end |
| BinaryXml.ReadNodes | binary/decoder.go:332-350 | A list yields exactly as many nodes as its size says, inside the input |
| BinaryXml.ReadAttrs | binary/decoder.go:306-330 | Reading attributes never moves back or past the end |
| BinaryXml.ReadNode | binary/decoder.go:352-384 | A successful node read moves forward and not past the end |
| RoundTrip.ListStartRoundTrip | binary/encoder.go:210-220 | A list size is read back modulo 65536, in whichever of the three forms |
| RoundTrip.LengthRoundTrip | binary/encoder.go:64-77 | Each of the three byte-length forms is read back by the reader its tag selects |
| RoundTrip.PairsRoundTrip | binary/encoder.go:222-253 | Packed nibbles and hex digits unpack to the same characters, odd lengths included |
| RoundTrip.PackedRoundTrip | binary/encoder.go:222-249 | A packed string reads back without its padding and ends where its encoding ends |
| RoundTrip.StringRoundTrip | binary/encoder.go:135-149 | Every string the encoder accepts survives in whichever of the five forms is chosen; as content, a raw one comes back as bytes |
| RoundTrip.JidRoundTrip | binary/encoder.go:161-187 | Every JID, in each of the four forms, comes back with exactly the fields its form carries |
| RoundTrip.JidSurvives | binary/decoder.go:225-304 | A JID comes back unchanged if and only if it has a wire form of its own |
| RoundTrip.AttrsRoundTrip | binary/encoder.go:189-198 | Attributes written in any order are read back as the same map |
| RoundTrip.ValueRoundTrip | binary/encoder.go:101-133 | Every attribute or content value is read back in normal form, with any bytes before and after it |
| RoundTrip.NodeRoundTrip | binary/encoder.go:81-99 | Any encoding of any node tree, whatever follows it, is read back as the tree's normal form and ends exactly at its end |
| WireFormat.LengthBytes | binary/encoder.go:64-77 | Lengths take 252 and one byte, 253 and 20 bits in three, or 254 and four bytes, the highest digit first |
| WireFormat.ListBytes | binary/encoder.go:210-220 | Lists start with 0 when empty, with 248 and one byte, or with 249 and the two low bytes of their size |
| WireFormat.PackedForm | binary/encoder.go:222-309 | Packed strings have a tag, a size with the high bit for odd lengths, and at half byte i the place of character i in the alphabet; 15 fills up |
| WireFormat.StringForm | binary/encoder.go:135-149 | The form of a string is the first that applies: single token, dictionary token, nibbles, hex digits, length and bytes |
| WireFormat.JidForm | binary/encoder.go:161-187 | The bytes of every JID, by server and device alone: its tag, domain or device and integrator bytes, and its strings in order |
| WireFormat.JidFirstByte | binary/encoder.go:161-187 | A JID starts with 247 if and only if it is on s.whatsapp.net or lid with a device above 0, or on hosted; with 246 if and only if on msgr; with 245 if and only if on interop; and else with 250 |
| WireFormat.DomainRoundTrip | types/jid.go:76-155 | The domain number of each of the four servers that have one is read back as that server; for any other server it is the agent |
| WireFormat.NodeHead | binary/encoder.go:81-99 | Every encoding of a node starts with twice the number of its attributes that are there, plus one, plus one with content, and its tag; the tag "0" is two bytes |
| WireFormat.ValueForms | binary/encoder.go:101-133 | Every encoding of a value has the form of its kind |
| WireFormat.UnusedHalves | binary/decoder.go:118-153 | Which half bytes mean which character, and that 12 to 14 mean none among nibbles |
| WireFormat.ReadByTag | binary/decoder.go:168-223 | What each tag from 0 to 244 is read as, by number: nil, tokens, dictionary tokens with their errors, invalid tokens |
| WireFormat.ReadSizedByTag | binary/decoder.go:178-192 | Tags 252, 253 and 254 read the bytes their length says, 20 bits of it for the second, or report the end of the input |
| WireFormat.ReadListSizes | binary/decoder.go:155-166 | The size of a list is 0, one byte or two, by its tag, and any other tag is refused |
| WireFormat.ReadPackedByTag | binary/decoder.go:83-153 | What every packed string is read as, half byte by half byte, its errors and its panic included |
| WireFormat.ReadDomains | types/jid.go:132-156 | The domains 0, 1, 128 and 129 give their servers, and any other number stays as an agent without a server |
| WireFormat.ReadNoUser | binary/decoder.go:290-304 | A user that is no string panics in the form with tag 247 |
| WireFormat.ReadPairs250 | binary/decoder.go:225-239 | In a pair the user may be nil and the server may not; anything else but strings panics |
| WireFormat.ReadInterop | binary/decoder.go:241-266 | The form with tag 245 holds device and integrator, and only its own server is accepted |
| WireFormat.ReadMessenger | binary/decoder.go:268-288 | The form with tag 246 holds a device, and only its own server is accepted |
| WireFormat.LastAttrWins | binary/decoder.go:306-330 | One more attribute gives its name its value, whatever the name had before |
| WireFormat.ReadBadNames | binary/decoder.go:306-330 | An attribute name that is no string is an error |
| WireFormat.ReadBadNodes | binary/decoder.go:352-384 | A tag that is no string panics; an empty tag or an empty list is an invalid node |
| WireFormat.ReadNoNode | binary/decoder.go:352-384 | A node that starts with anything but 0, 248 or 249 is refused |
| ImproperTrees.ReadAttrsGrow | binary/decoder.go:306-330 | Reading that many attributes yields that many names only if none was read twice, and then nothing read before is lost |
| ImproperTrees.AttrsGoWrong | binary/decoder.go:306-330 | If an attribute value is outside the domain, whatever the order, the map read is an error or another map |
| ImproperTrees.NodeGoesWrong | binary/decoder.go:352-384 | A node outside the domain, at any depth and with anything after it, is read as an error or as something else |
| Encoders.Encoder.PushIntN | binary/encoder.go:32-42 | The shift loop appends the big-endian bytes and nothing else |
| Encoders.Encoder.WriteByteLength | binary/encoder.go:64-77 | Appends the length form that the size calls for |
| Encoders.Encoder.WritePackedBytes | binary/encoder.go:222-249 | Appends the packed form of the string |
| Encoders.Encoder.WriteString | binary/encoder.go:135-149 | Appends the bytes of the first form that applies to the string |
| Encoders.Encoder.WriteJID | binary/encoder.go:161-187 | Appends the bytes that server and device call for |
| Encoders.Encoder.WriteAttributes | binary/encoder.go:189-198 | Appends the non-empty attributes, each once, in some order |
| Encoders.Encoder.CountAttributes | binary/encoder.go:200-208 | Counts exactly the attributes that are written |
| Encoders.Encoder.Write | binary/encoder.go:101-133 | Appends an encoding of the value |
| Encoders.Encoder.WriteNode | binary/encoder.go:81-99 | Appends an encoding of the node and changes nothing before it |
| Decoders.Decoder.ReadIntN | binary/decoder.go:40-59 | The loop of shifts computes the big-endian integer, or reports the end of the input |
| Decoders.Decoder.ReadPacked8 | binary/decoder.go:83-116 | The loop computes the packed string, or the error or panic of the source |
| Decoders.Decoder.Read | binary/decoder.go:168-223 | The object computes the reading function, and its cursor ends where the value ends |
| Decoders.Decoder.ReadAttributes | binary/decoder.go:306-330 | The loop computes the attribute map, later values replacing earlier ones |
| Decoders.Decoder.ReadList | binary/decoder.go:332-350 | The loop computes the list of nodes |
| Decoders.Decoder.ReadNode | binary/decoder.go:352-384 | The object computes the node function on every input and never leaves it |
| Marshalling.Marshal | binary/node.go:123-127 | The result is a zero byte followed by an encoding of the node |
| Marshalling.Unmarshal | binary/node.go:130-139 | The result is the node, the node with a count of leftover bytes, or the error |
| Marshalling.MarshalRoundTrip | binary/unpack.go:21-31 | Unpacking and unmarshalling whatever was marshalled gives the node in normal form, for every attribute order |
| Marshalling.UnpackByFirstByte | binary/unpack.go:21-31 | The second bit of the first byte alone says whether the rest is inflated, and the first byte is dropped |
| Marshalling.LeftoversAreCounted | binary/node.go:130-139 | Bytes behind an encoding are reported with their number, next to the node |
| Marshalling.EncodingIsUnambiguous | binary/node.go:123-139 | Two nodes with a common encoding have the same normal form |
| Marshalling.UnmarshalsIff | binary/node.go:123-139 | For every tree and attribute order, the encoding is read back as the tree's normal form if and only if no tag in it is empty or "0" and no list has 65536 elements or more |
| Truncations.CutNode | binary/decoder.go:21-59 | Whatever a node read from an input is, it is read from every beginning of the input that holds it, and a shorter one is the end of the input |
| Truncations.CutMessageFails | binary/node.go:130-139 | Any input that unmarshals, cut anywhere, fails with the end of the input |
| Truncations.MessagesArePrefixFree | binary/node.go:130-139 | No input that unmarshals is a proper beginning of another |
| Truncations.CutEncodingFails | binary/node.go:123-139 | So every encoding of a proper tree, cut anywhere, fails |
| JidText.TextRoundTripIff | types/jid.go:158-226 | For every JID, parsing its text gives it back if and only if it is printable |
| JidText.PrintParse | types/jid.go:216-226 | All four printed forms parse back |
| JidText.ParsedParts | types/jid.go:158-199 | What parsing can put into user and server |
| JidText.SplitParts | types/jid.go:159-166 | Parts of a split hold no separator and nothing new |
| JidText.SplitFirst | types/jid.go:159-166 | The first separator ends the first part |
| JidText.SplitCount | types/jid.go:159-166 | There is one part more than there are separators |
| JidText.ParsePlain | types/jid.go:158-166 | Without dot and colon the user stands before the first "@" and the server up to the next; without an "@" all is server |
| JidText.ParseDevice | types/jid.go:187-198 | Behind a colon comes the device, of which 16 bits are kept, or an error |
| JidText.ParseAgent | types/jid.go:164-179 | Behind a dot comes the agent, of which 8 bits are kept, or an error; without a device after it the device is 0 |
| JidText.ParseAgentAndDevice | types/jid.go:164-186 | Behind a dot come agent and device |
| JidText.ParseRefuses | types/jid.go:164-191 | There are too many dots if and only if a second one stands before the "@", and too many colons if and only if there are two behind the only dot, or two at all without one |
| JidText.PrintedParts | types/jid.go:216-226 | The printed text of every JID, piece by piece |
| LtHash.PerformPointwiseWithOverflow | appstate/lthash/lthash.go:45-58 | Every 16-bit lane is added or subtracted in place with wrap-around |
| LtHash.MultipleOp | appstate/lthash/lthash.go:39-43 | All items are added or subtracted, lane by lane |
| LtHash.SubtractThenAddInPlace | appstate/lthash/lthash.go:34-37 | The array ends up as the updated hash |
| LtHash.SubtractThenAdd | appstate/lthash/lthash.go:27-32 | The same on a copy, leaving the base alone |
| LtHash.Update | appstate/lthash/lthash.go:19-24 | The hash whose every lane is the base minus the removed plus the added expansions, modulo 2^16 |
| LtHash.BytesCarry | appstate/lthash/lthash.go:45-58 | Byte by byte, the first byte of a lane carries into the second or borrows from it, and the second into nothing |
| LtHash.UpdateOrderIrrelevant | appstate/lthash/lthash.go:19-24 | The update depends only on the multisets of removed and added items |
| LtHash.UpdateUndone | appstate/lthash/lthash.go:34-37 | Swapping the two lists undoes an update |
| HashInvariant.AfterLookup | appstate/decode.go:178-191 | After a patch the table holds the last SET of each index; an index only removed is gone; others are untouched |
| HashInvariant.AfterStep | appstate/decode.go:183-190 | What one more mutation does to the table, given that deletions are stored before additions |
| HashInvariant.PreviousIsLastMention | appstate/decode.go:272-281 | The value MAC subtracted is that of the last mention in the patch, or else the stored one |
| HashInvariant.HashChange | appstate/hash.go:40-60 | For every patch, the change of the hash is the change of the table sum plus the drift |
| HashInvariant.PatchHash | appstate/decode.go:268-309 | After any successful patch the hash is the table sum, off by exactly the drift of the patch |
| HashInvariant.PatchKeepsHashIff | appstate/decode.go:268-309 | A patch keeps hash and table together if and only if its drift vanishes in every lane |
| HashInvariant.NoDrift | appstate/decode.go:273-277 | A patch that mentions removed indexes only once has no drift |
| HashInvariant.SameTableSameHash | appstate/hash.go:78-80 | The table determines the hash and the snapshot MAC |
| SyncHistory.SnapshotKeepsHashIff | appstate/decode.go:206-248 | A snapshot keeps hash and table together if and only if what it overwrites adds up to nothing |
| SyncHistory.SnapshotKeepsHash | appstate/decode.go:206-248 | A snapshot of distinct indexes that are not stored yet does |
| SyncHistory.StopsAtFailure | appstate/decode.go:268-312 | Whatever the outcome, what is stored is what some prefix of the patches leaves, and the patch after it is the one that failed |
| SyncHistory.AppliedIsVerified | appstate/decode.go:290-306 | With validation on, an applied patch passed its snapshot, patch, content and index MAC checks |
| SyncHistory.SnapshotIsVerified | appstate/decode.go:206-248 | With validation on, an applied snapshot passed its own MAC check and the content and index MAC checks of every record |
| SyncHistory.EveryAppliedIsVerified | appstate/decode.go:268-312 | Every patch of the applied prefix did, in the state it left |
| SyncHistory.OnlyVerifiedIsStored | appstate/decode.go:250-313 | For every list and outcome: what is stored and reported is the snapshot and a prefix of the patches, all of them verified when validation is on, and nothing of the element that failed |
| Macs.AcceptedPatchMACs | appstate/hash.go:78-92 | With validation on, the MACs of an applied patch are HMACs over the hash, version and name, and over the snapshot MAC, the last 32 bytes of every blob at their positions, the version and the name |
| Macs.AcceptedSnapshotMAC | appstate/hash.go:78-80 | So is that of an applied snapshot over hash, version and name |
| Macs.AcceptedContentMAC | appstate/hash.go:94-98 | The last 32 bytes of an accepted blob are an HMAC over operation, key id, the rest of the blob, and the length of the first two |
| Macs.PatchMACIsTamperEvident | appstate/hash.go:82-92 | Two patches accepted for one name under one key with one patch MAC agree in snapshot MAC, version, and value MACs in order, or HMAC collides |
| Macs.ContentMACIsTamperEvident | appstate/hash.go:94-98 | Two mutations accepted under one key with one value MAC agree in operation and content, or HMAC collides |
| Macs.EncodedPatchMACs | appstate/encode.go:312-327 | The MACs of an outgoing patch cover the state it leads to, its mutations and the next version |
| Macs.EncodedMutationParts | appstate/encode.go:273-310 | The blob of an outgoing mutation is initialisation vector, encrypted action and the content MAC of both, under the index MAC of its index |
| ReportedMutations.MutationReports | appstate/decode.go:121-176 | A decoded mutation has the operation, both MACs, and value, version and index of the action its ciphertext decrypts to |
| ReportedMutations.SnapshotReports | appstate/decode.go:206-248 | An applied snapshot reports a SET for each of its records, in order |
| ReportedMutations.PatchReports | appstate/decode.go:268-311 | An applied patch reports each of its mutations, in order |
| ReportedMutations.ListReports | appstate/decode.go:250-313 | For every list and outcome: reported are, in order, all records of an applied snapshot and then all mutations of the applied patches |
| ReportedMutations.ListStoresVersion | appstate/decode.go:178-191 | The stored version is that of the last element applied; when none was, nothing is stored |
| ReportedMutations.MutationAcceptedIff | appstate/decode.go:121-176 | A mutation is decoded if and only if its key, action and index are readable and, with validation on, its content and index MACs are HMACs of what they cover |
| ReportedMutations.PatchAcceptedIff | appstate/decode.go:268-311 | A patch is applied if and only if all its mutations are readable and, with validation on, all its MACs and theirs are HMACs of what they cover |
| ReportedMutations.SnapshotAcceptedIff | appstate/decode.go:206-248 | And so is a snapshot |
| ReportedMutations.MutationErrors | appstate/decode.go:121-176 | Which error a mutation that is not decoded gives |
| ReportedMutations.FirstError | appstate/decode.go:121-176 | The error of a list of mutations is that of the first one not decoded |
| ReportedMutations.PatchErrors | appstate/decode.go:268-311 | Which error a patch that is not applied gives: key, snapshot MAC, patch MAC, mutations, in this order |
| ReportedMutations.SnapshotErrors | appstate/decode.go:206-248 | And which one a snapshot gives |
| SyncHistory.HistoryKeepsHash | appstate/decode.go:250-313 | Over every allowed history of lists, failed ones included, the stored hash is the sum over the stored table |
| SyncHistory.HistoriesAgree | appstate/lthash/lthash.go:7-10 | Two allowed histories that end in the same table end with the same hash |
| HistoryDrifts.HistoryAccount | appstate/decode.go:250-313 | Over every history of lists, every lane of the stored hash is the sum over the stored table plus the drifts of the applied patches and what applied snapshots overwrote |
| HistoryDrifts.HistoryKeepsHashIff | appstate/decode.go:250-313 | So every history keeps hash and table together if and only if all of that vanishes modulo 2^16 in every lane |
| EncodePatches.MutationsRoundTrip | appstate/encode.go:273-310 | The decoder reads the encoded mutations back in order, with their MACs accepted |
| OutgoingPatches.ListsDiffer | appstate/hash.go:40-60 | Encoder and decoder add the same value MACs and subtract different ones only for mutations whose index the patch mentions before |
| OutgoingPatches.StatesAgreeIff | appstate/encode.go:312-330 | They come to the same state if and only if what is replaced for repeated indexes adds up to what is stored instead, modulo 2^16 in every lane |
| OutgoingPatches.AlwaysReplacesSameIff | appstate/decode.go:272-281 | For every hash function: if and only if each value MAC is replaced equally often in the patch and in the table, modulo 2^16 |
| OutgoingPatches.SmallPatchAgreesIff | appstate/decode.go:272-281 | For at most 65536 mutations: if and only if the same value MACs are replaced; where value MACs tell indexes apart, if and only if a repeated index was only set to what is stored for it |
| OutgoingPatches.NewIndexesAgreeIff | appstate/encode.go:312-314 | For at most 65536 mutations of indexes not stored yet: if and only if the indexes are distinct |
| OutgoingPatches.EncodedPatchApplies | appstate/encode.go:263-337 | An outgoing patch, stamped with the next version, is accepted in the same state if and only if validation is off, or it replaces the same, or HMAC collides; it then yields the original mutations in order, and is otherwise refused for its hash; with distinct indexes it is accepted |
| OutgoingPatches.EncodedPatchKeepsHash | appstate/encode.go:312-330 | And if it is accepted, it keeps hash and table together |
| OutgoingPatches.IndexSetTwiceIsRefused | appstate/encode.go:312-330 | A patch that sets one new index twice is refused, unless the first value expands to zeros or HMAC collides |
| Multiplicities.SameSumsIff | appstate/lthash/lthash.go:19-24 | Two lists add up to the same in every lane, for every hash function, if and only if each item occurs in both equally often modulo 2^16 |
| Drifts.DriftIsExcess | appstate/decode.go:272-281 | The drift is the sum over the value MACs that a patch adds and removes in excess |
| Drifts.DriftFreeIff | appstate/hash.go:36-62 | No hash function makes a patch drift in any 16-bit lane if and only if each value MAC is added and removed in excess equally often modulo 2^16 |
| Drifts.SmallPatchDriftFreeIff | appstate/decode.go:273-277 | For at most 65536 mutations: if and only if no removed index is mentioned twice |
| Drifts.ManyRemovalsComeBack | appstate/lthash/lthash.go:45-58 | That bound is sharp: 65537 removals of an index do not drift, since 2^16 times any value is nothing |
| Drifts.AcceptedPatchDrifts | appstate/decode.go:268-312 | A patch that sets and then removes an index passes all checks, leaves the index in the table, and hash and table disagree unless its value expands to zeros |
| Processors.Processor.GetPrevious | appstate/decode.go:272-281 | The backward search through the patch and then the store |
| Processors.Processor.UpdateHash | appstate/hash.go:36-62 | The hash array is overwritten with the updated hash, or left alone on a panic |
| Processors.Processor.DecodeMutations | appstate/decode.go:121-176 | The loop collects removed and added MACs and mutations, or stops with the first error |
| Processors.Processor.StoreMACs | appstate/decode.go:178-191 | Version, hash and table after deletions and then additions |
| Processors.Processor.DecodeSnapshot | appstate/decode.go:206-248 | A failed snapshot stores nothing; a successful one stores all of it |
| Processors.Processor.DecodePatch | appstate/decode.go:268-311 | A failed patch stores nothing; a successful one stores all of it |
| Processors.Processor.DecodePatches | appstate/decode.go:250-313 | The store, mutations and error are those of applying the snapshot and patches until one fails |
| Varints.PutRoundTrip | reportingtoken.go:149-152 | Every 64-bit value survives writing and reading as a varint |
| Varints.UvarintCases | reportingtoken.go:103-106 | A varint ends with its first byte below 128, of at most ten, and its value is that of its groups of seven bits; else nothing is read, or it overflows |
| Varints.ReadUvarintAt | reportingtoken.go:103-106 | What follows a varint does not change how it is read |
| Sorting.SortSorts | reportingtoken.go:169 | Whatever the library sort does with ties, its result is a sorted permutation |
| Sorting.SortedIsUnique | reportingtoken.go:169 | Where elements of one key are equal there is only one sorted arrangement |
| Sorting.SortDoesNotMatterIff | reportingtoken.go:169 | All sorting functions give the same if and only if elements of one key are equal |
| ReportingToken.FindEnd | reportingtoken.go:113-127 | A field ends at or after where its payload starts |
| ReportingToken.ConfigLookup | reportingtoken.go:76-83 | The configuration of a field is the first entry with its number, and there is none if and only if no entry has it |
| ReportingToken.ExtractReportingTokenContent | reportingtoken.go:94-176 | The cursor loop computes the extraction function; varints that overflow and kept fields past the end are one outcome |
| ReportingTree.FieldScans | reportingtoken.go:108-166 | One field of the tree is scanned into the pieces of its projection |
| ReportingTree.ExtractIsProjection | reportingtoken.go:94-176 | For every sort, on the wire form of any field tree, extraction is the wire form of the tree's projection under that sort |
| ReportingTails.StopsWithoutTag | reportingtoken.go:101-106 | Behind any fields, bytes that hold no varint of 64 bits end the message, and the token is that of the fields |
| ReportingTails.UnknownWireTypeDrops | reportingtoken.go:124-125 | After a tag of wire type 3, 4, 6 or 7 the token is empty, whatever came before |
| ReportingTails.UnlistedCut | reportingtoken.go:111-127 | An unlisted last field, cut anywhere in its payload, does no harm |
| ReportingTails.ListedTagIsKept | reportingtoken.go:129-164 | Of a listed last field whose varint or length is cut, the tag alone stands in the token, unless it is taken apart |
| ReportingTails.CutBreaks | reportingtoken.go:113-164 | A listed last field cut otherwise breaks extraction, as does a payload or length of more than 64 bits |
| ReportingSelection.ProjectionIsLeft | reportingtoken.go:94-176 | The projection of every tree is, sorted, what is left of each of its fields: nothing if unlisted; if it is a message whose entry is a message or has subfields, a message of what is left in it, if anything is; and else the field itself |
| ReportingSelection.KeptAsOften | reportingtoken.go:108-166 | A listed field that is not taken apart stands in the projection as often as in the message |
| ReportingSelection.OnlyListed | reportingtoken.go:108-166 | Everything in the projection comes from a listed field of its number, unchanged or as the projection of its message |
| ReportingSelection.MessageRemains | reportingtoken.go:130-157 | A listed message in which something is left stands in the projection with exactly that |
| ReportingProperties.ProjectionSettles | reportingtoken.go:143-157 | The projection is well-formed, never longer than the message, and projecting it again changes nothing, where kept fields of one number are equal or the sort leaves alone what is sorted |
| ReportingProperties.ExtractIsIdempotent | reportingtoken.go:94-176 | Under the same condition, extracting from an extraction gives the same bytes |
| ReportingProperties.ReorderedProjects | reportingtoken.go:168-169 | Where kept fields of one number are equal, neither reordering fields at any level nor another sort changes the projection |
| ReportingProperties.ExtractIgnoresOrder | reportingtoken.go:168-175 | Nor does it change the extracted bytes |
| ReportingProperties.SortDoesNotMatter | reportingtoken.go:168-175 | In particular such a message has one token content, whatever the sort |
| ReportingProperties.TiesAreOpen | reportingtoken.go:168-175 | Two kept fields of one number stand in the token in either order, depending on the sort |
| FrameSockets.FeedConserves | socket/framesocket.go:161-200 | Bytes are conserved, except that every frame that had to wait for payload uses three too few |
| FrameSockets.Reassembles | socket/framesocket.go:161-200 | Messages that end between frames or inside a length give back exactly the frames, and nothing pends |
| FrameSockets.ReassemblesIff | socket/framesocket.go:161-200 | And only those do |
| FrameSockets.CutAfterLength | socket/framesocket.go:188-191 | A concrete stream whose reassembly panics |
| FrameSockets.CutInPayload | socket/framesocket.go:176-193 | Every frame cut inside its payload waits with zeros for the rest, the three bytes of its length counted as received |
| FrameSockets.ResumedFrame | socket/framesocket.go:183-198 | What any next message makes of it: a frame with three zeros in place of bytes of the payload, a longer wait, or, with fewer than three bytes missing, a panic |
| FrameSockets.FrameBytes | socket/framesocket.go:141-144 | A frame is preceded by the three digits of its length in base 256, the highest first |
| FrameSockets.LengthRoundTrip | socket/framesocket.go:141-144 | The three length bytes of a sent frame are read back |
| FrameSockets.FrameSocket.SendFrame | socket/framesocket.go:120-150 | Sends the length and the frame, after the connection header the first time, or refuses a frame that is too large |
| FrameSockets.FrameSocket.FrameComplete | socket/framesocket.go:152-159 | Resets the receive state and hands the frame on |
| FrameSockets.FrameSocket.ProcessData | socket/framesocket.go:161-200 | The loop over one message computes the feeding function, in-place copies and panics included |
| SessionCache.Device.WithCachedSessions | store/sessioncache.go:72-104 | The cache holds every wanted session that can be read, new ones for absent addresses |
| SessionCache.Device.LoadSession | store/signal.go:85-103 | A load asks the cache and then the store |
| SessionCache.Device.StoreSession | store/signal.go:109-120 | A store goes to the cache if there is one, and otherwise to the store |
| SessionCache.Device.PutCachedSessions | store/sessioncache.go:106-125 | All dirty sessions, and only those, are written back, and the cache is emptied |
| SessionCache.CacheIsTransparent | store/sessioncache.go:47-125 | Any loads and stores under a cache of any addresses, then written back, give the loads and the final store of working on the store directly |
| SessionCache.CachedRunHolds | store/sessioncache.go:47-125 | After any operations under a cache of any addresses, a load gives the last session stored for its address, or what the store began with, or a new session; written back, the store holds the last session stored for each address and is unchanged elsewhere |
| SessionCache.PrefetchHolds | store/sessioncache.go:72-104 | The cache holds exactly the wanted addresses that are absent or readable, not dirty, with what is stored or a new session |
| ResponseWaiters.AlwaysSound | request.go:43-89 | Over every interleaving registered channels are open and empty, and no channel is handed two nodes |
| ResponseWaiters.ClearReachesAll | request.go:43-54 | Clearing hands the node to every waiter: the closing arm is never taken |
| ResponseWaiters.ResponseArrives | request.go:71-89 | After every interleaving, a response to a registered request is put into its channel, which its receiver can then take it from, and the request is forgotten |
| ResponseWaiters.RequestIsRegistered | request.go:56-62 | A request gets an open and empty channel of its own, and nothing else changes |
| ResponseWaiters.CancelledGetsNothing | request.go:64-83 | After every interleaving, a cancelled request is forgotten, its channel closed, and a response to it finds no waiter; cancelling again panics |
| ResponseWaiters.ClearLeavesOthers | request.go:43-54 | Clearing empties the table and leaves channels alone that are not in it |
| ResponseWaiters.DeliveryOutcomes | request.go:71-89 | When a delivery or a receiver blocks or panics |
| ResponseWaiters.Client.WaitResponse | request.go:56-62 | Registers a new channel |
| ResponseWaiters.Client.CancelResponse | request.go:64-69 | Closes the channel and forgets the id, or panics on a closed channel |
| ResponseWaiters.Client.TakeWaiter | request.go:76-83 | Takes the waiter of an id out of the table |
| ResponseWaiters.Client.ClearResponseWaiters | request.go:43-54 | The loop over all waiters, then an empty table |
| RecentMessages.Client.AddRecentMessage | retry.go:50-63 | One addition to ring and map |
| RecentMessages.Client.GetRecentMessage | retry.go:65-70 | Over all additions to the client so far, a lookup finds a message if and only if its key was kept, and then the last one added under it |
| RecentMessages.FoundIff | retry.go:50-70 | After every run, a lookup finds a message if and only if no slot of its key was given away since it was last added, and then that last one |
| RecentMessages.DistinctKeysFound | retry.go:34-70 | When no key repeats, exactly the last 256 messages are found |
| RecentMessages.AddedAgainIsLost | retry.go:50-63 | A key added twice in a row is not found after 255 other additions, though its last message is among the last 256 |
| RecentMessages.BoundedBySlots | retry.go:34-63 | With non-empty ids the map's keys are among the ring's slots, so at most 256 |
| Retries.ReceiptCounts | retry.go:387-401 | Until the counter wraps it is the number of retries, and the receipts carry, in the order of assignment, the counts after the retries before the run up to four |
| Retries.ReceiptsAfterWrap | retry.go:389-394 | Once it wraps, a receipt with the count -2^63 is sent, and every later failure sends another |
| Retries.ReceiptCountsIff | retry.go:387-401 | In every run the receipts of a message carry counts between 1 and 4 if and only if its retries stay below 2^63 |
| Retries.AtMostFourReceiptsIff | retry.go:387-401 | At most four are sent if and only if failures after a wrap have not yet outnumbered the retries, up to four, before the run |
| Retries.WrappedReceipt | retry.go:390-394 | One failure of a message with the count 2^63 - 1 sends a receipt with the count -2^63 |
| Retries.NineResends | retry.go:142-150 | Of the requests of one requester for one message exactly the first nine pass, and more do if and only if 2^63 or more are made |
| Retries.Client.SendRetryReceipt | retry.go:387-401 | The counter after a failure, and whether a receipt goes out |
| Retries.Client.HandleRetryReceipt | retry.go:142-150 | The counter after a request, and whether it passes |
| RateLimiter.Limiter.CheckRateLimits | cmd/whatsapp_mcp/event_matcher.go:219-269 | Admits an event when none of its buckets is full, leaving at most an empty table behind |
| RateLimiter.Limiter.RecordExecution | cmd/whatsapp_mcp/event_matcher.go:272-332 | Counts an execution and prunes the old buckets and senders |
| RateLimiter.PruningIsSafe | cmd/whatsapp_mcp/event_matcher.go:309-331 | With a clock that does not run backwards, over every interleaving of checks and recordings, all buckets since the cutoff equal the counts over the whole history |
| RateLimiter.AdmitsIff | cmd/whatsapp_mcp/event_matcher.go:219-269 | After every such interleaving, an event is admitted if and only if none of its limits is reached by the whole history |
| RateLimiter.CheckedLeaves | cmd/whatsapp_mcp/event_matcher.go:255-267 | A check changes no count; an empty table is left exactly for a known sender without one when only the sender's limit is still to be checked |
| RateLimiter.RecordDrops | cmd/whatsapp_mcp/event_matcher.go:309-331 | A bucket is kept if and only if it ends less than two hours ago, and no sender without a bucket |
| RateLimiter.LimitsHold | cmd/whatsapp_mcp/event_matcher.go:219-332 | With at most k executions admitted and unrecorded at once, no minute, hour or hour of a sender exceeds its limit by more than k - 1; so none does when each is recorded before the next check |
| RateLimiter.BoundIsReached | cmd/whatsapp_mcp/action_executor.go:40-52 | For each kind of limit, every limit and every k there is a run that exceeds the limit by k - 1 |
| EventBuffer.Client.DecryptBuffered | message.go:487-537 | An existing row gives its plaintext, or that it was processed, and stays; without one, what decrypts and is committed leaves a row and is handed on |
| EventBuffer.Client.HandleThenClear | message.go:410-448 | A handler is reached unless nothing was parsed or the message was passed over; the row is cleared only when that succeeded |
| EventBuffer.DecryptedOnce | message.go:487-537 | While its row is kept, a ciphertext is committed at most once and handlers only see that plaintext |
| EventBuffer.ClearedStaysCleared | message.go:379-448 | After a clear, no later delivery reaches a handler |
| EventBuffer.NextDelivery | message.go:487-537 | After every run without deletion of its row, the next delivery of a ciphertext hands exactly the committed plaintext to a handler that is reached, until it is cleared; if none was committed, it commits and hands on what can be decrypted and stored |

## Left out

- Websocket, HTTP, media, SQL, SSE and MCP plumbing; Signal sessions, Noise, HKDF, HMAC, AES and zlib internals: seen only through parameters.
- Store errors: reads and writes of the app-state, session and event-buffer stores succeed, except where a step says otherwise. The SQL table of value MACs keeps several versions of an index and refuses an index twice in one version; here it is a map, as its interface reads.
- AppState.ApplyPatches: does not model that decrypting overwrites the ciphertext of a mutation in place (util/cbcutil/cbc.go:38), so that the same patch object cannot be decoded twice; a ciphertext that is not a whole number of blocks counts as a failed decryption.
- The versions of app-state mutations sent by the server are not compared with the stored one, as in the code.
- Encoders.Encoder.WriteNode: requires strings below 2^31 - 1 bytes, where the code panics; it asks this also of strings that would be written as tokens or packed.
- Marshalling.Unmarshal: error texts and positions are not modelled, only which error it is; what is left in the cursor after an error is only bounded.
- ReportingToken.ExtractReportingTokenContent: a varint that overflows, a length beyond 2^63 or a kept field beyond the end of the input give one outcome, `Broken`; in the program they move the cursor back or read past a slice.
- SessionCache.CacheIsTransparent: sessions are values, so a record that a caller changes without storing it is not modelled; lookups and deletions that bypass the cache are excluded.
- ResponseWaiters.AlwaysSound: says nothing about a cancellation between taking a waiter out and sending to it beyond that the send then panics.
- FrameSockets.FrameSocket.ProcessData: a frame handed on is a copy, so that it may share memory with the message is not modelled.
- RateLimiter.LimitsHold: the cooldown, the circuit breaker and the event filter appear only as the flag that says whether an admitted event is executed, and the limits do not change during a run.
- The circuit breaker and cooldowns of event handlers, JSON and XML views of nodes, group info, newsletters, presence, receipts and connection timing: no invariant across functions.
