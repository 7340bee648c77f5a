# Verified models of the messaging core

This project models, in Dafny, the parts of a C++ messaging library and its management framework (QMF)
where correctness depends on several operations working together, and proves what those parts are for.
`dafny verify dfyconfig.toml` checks everything.

| area | files | main results |
|---|---|---|
| Session replay (AMQP 0-10 idempotence barrier) | `SessionPoints`, `SessionCommands`, `SessionModel`, `SessionState`, `SessionReplay`, `SessionHandlers` | exactly which streams of frames are sequences of commands; exactly-once in-order delivery over every run with broken connections; the session state can always be resumed; exactly when the session handlers do resume it; completion end to end |
| Command sets | `RangeLists`, `RangeSets`, `RangeIterators` | sorted range lists refine mathematical sets through every merge, split and truncation; the representation is unique; iteration is a sorted enumeration |
| Generated struct codec | `Words`, `StructGen`, `StructCodec`, `StructRoundTrip`, `StructWire` | for every struct definition and every target object, exactly when decode gives back what was encoded; sizes agree; encoding succeeds exactly on values that fit; what is cut short or has a wrong type code is refused |
| Broker URLs | `UrlSyntax`, `UrlRoundTrip`, `UrlStops`, `UrlSurvival`, `UrlAcceptance`, `UrlParser` | for every configuration, exactly which URLs come back from being printed and parsed; exactly which configurations let every text survive a round trip |
| QMF query stream | `QueryStream` | batching on the agent and reassembly on the console conserve the results |
| QMF data index | `OrderedKeys`, `DataIndex` | the index by class agrees with the primary index in every run, so queries by class find what a full scan would; after every run exactly the data added and not deleted since is held |
| QMF agent directory | `AgentDirectory`, `AgentEvents`, `AgentAgeing`, `AgentConsole` | exactly which messages and filters list an agent and which events they cause; the event log rebuilds the directory in every reachable state; no agent goes early, every silent agent goes in the end, and what a clock that goes back does |
| Schema hash | `SchemaHash`, `SchemaFields`, `SchemaCollisions`, `SchemaHasher` | each step can be undone; every field is covered; nine bytes is the exact width of a change to a schema that always shows; exactly when moved text shows |

## How the model is built

State that the library changes in place is a class whose methods are proved against functions on values
(`SessionStates.SessionState` against `SessionModel`, `UrlParsing.UrlParser` against `UrlSyntax`,
`AgentConsoles.ConsoleSession` against `AgentDirectory`, `SchemaHashing.Hasher` against `SchemaHash`).
The theorems over runs are about those functions.

**Sessions.** A frame has a segment type, first/last marks and a size; a session point is a command number and
a byte offset. `SessionReplay.System` joins a sender and a receiver by a connection that keeps order while it
lasts and loses everything in flight when it breaks. Completions, confirmations and known-completed reports
travel back with no promise: any that was ever sent may arrive late, repeatedly or never. A resume may start at
any command between the sender's replay point and the command being received. Assumed: the session has a timeout
when it first records (`RecordKeeps` shows the invariant fails otherwise, and `UnkeptStays` what holds instead),
frames offered to the sender are accepted by `advance`, and a command is completed only once it is fully received.
A frame that trips the hard limit is recorded and the connection is dropped.

The session state itself can always be resumed (`ResumeAlwaysPossible`), but the session handlers do not always do so.
An end that has state asks its peer for the expected command; a peer without state names none
(`src/qpid/amqp_0_10/SessionHandler.cpp:261-265`), and the asking end then throws (`:224-226`). A session whose first
frames are lost with the connection is in that position (`FirstFrameLost`). Each end has one flag for having state, which
traffic in either direction sets, so `HandlersReattach` is stated for any flags that this direction's own traffic allows,
`OneWayResumes` for a session used one way, and `TwoWayResumes` for both directions together. Where the handlers do not
refuse, the command they choose is always in range.

**Range sets.** `RangeSet::back()` returns one past the last element (`src/qpid/RangeSet.h:163`), so the range
check on known-completed commands compares an exclusive end; the model does the same. Elements are unbounded
integers.

**Structs.** A struct definition is any list of fields: fixed-width words, strings with a length prefix, bits and
nested structs, packed or not, with or without a size and a type code. The generator's choices (flag positions,
bit groups, guards) are modelled as a list of statements that encode, size and decode all follow. The result of
decoding is stated for any target object: fields that are absent keep what the target had.

**URLs.** A configuration lists the registered protocol tags and the default protocol; nothing is assumed of it.
`Survives` says which URLs come back from being printed and parsed, and `PrintThenParse` that it is exactly those. The
ordinary case is `Printable`: every protocol registered and free of colons, every host valid, credentials without
separators in the wrong place, and, when there are no credentials, no at-sign in a protocol (it would be taken for the
end of some). The default protocol does not matter, because the printer always names the protocol. What `Survives` adds
is a corner of the code: a protocol that is the default and begins like an unfinished IPv6 literal is dropped by the host
rule and assumed again (`UnregisteredCanSurvive`). Whether every text survives being parsed, printed and parsed again
depends on the configuration alone, and `RoundTripsExactly` says on what. The comment above the parser gives a grammar
in which a list has at least one address; the code accepts an empty list, and the model follows the code.

**QMF.** Each handler is one atomic step. Query predicates and attribute values are opaque. Keys of sorted maps
are numbered in the order of the map. Agent records are shared by reference in the library; here a handle is an
index into the sequence of all records. The clock is in nanoseconds and is handed to the periodic work in whole
seconds, as unsigned numbers that wrap.

## Model

| member | source | states |
|---|---|---|
| SessionPoints.FlowsConcat | src/qpid/SessionState.cpp:53-83 | a stream of frames is accepted frame by frame exactly when its first part is and the rest is from where that part ends; the points compose |
| SessionPoints.PastGrows | src/qpid/SessionState.cpp:53-91 | each accepted frame moves a session point strictly forward in the points' order, over any stretch of a stream |
| SessionPoints.SkipToBoundary | src/qpid/SessionState.cpp:109-114 | walking a list of frames while the command is too small stops exactly at the start of the wanted command, and the frames left lead from there to the end |
| SessionCommands.WholeFlows | src/qpid/SessionState.cpp:53-83 | the frames of one command, told by their four flags, are accepted from any command boundary and lead to the next one, and every part of them to the bytes so far within the command |
| SessionCommands.AcceptedExactly | src/qpid/SessionState.cpp:53-83 | from any command boundary a stream is accepted and ends n commands on at offset b if and only if it is n whole commands followed by b bytes of a command begun, told by the flags alone |
| SessionCommands.Refusals | src/qpid/SessionState.cpp:53-74 | which frame is refused in the middle of a command and which between commands, with which of the three errors |
| SessionModel.RecordKeeps | src/qpid/SessionState.cpp:117-130 | recording keeps the sender invariant if and only if the frame is a control, or the session has a timeout and the frame is accepted |
| SessionModel.FlushKeeps | src/qpid/SessionState.cpp:139-142 | recording a flush keeps the sender invariant |
| SessionModel.ConfirmKeeps | src/qpid/SessionState.cpp:152-169 | confirming up to a sent command keeps the invariant (points ordered, list leads from replay point to send point, both byte counts exact) and moves the replay point to that command and never back |
| SessionModel.CompleteSentKeeps | src/qpid/SessionState.cpp:171-178 | completion removes exactly the named commands from the incomplete set and confirms up to the end of the first range when that has been sent; the invariant is kept either way |
| SessionModel.ReplayReaches | src/qpid/SessionState.cpp:105-115 | the frames handed back for replay lead from the start of the expected command to the send point |
| SessionModel.UnkeptStays | src/qpid/SessionState.cpp:117-178 | a session without a timeout never comes to keep a frame, and confirmation leaves its counters alone |
| SessionStates.SessionState.constructor | src/qpid/SessionState.cpp:245-249 | a new session is the empty sender and receiver with no timeout and no state |
| SessionStates.SessionState.SenderRecord | src/qpid/SessionState.cpp:117-130 | the new sender state and the outcome for every frame: ignored exactly for a control, refused by the point exactly when it does not accept the frame, after the counters moved, and over the hard limit exactly when there is one and the new replay bytes exceed it |
| SessionStates.SessionState.SenderRecordFlush | src/qpid/SessionState.cpp:139-142 | the flush point is the send point and nothing is unflushed |
| SessionStates.SessionState.SenderConfirmed | src/qpid/SessionState.cpp:152-169 | refused exactly past the send point; otherwise the loop computes the confirmed state, with no counter going below zero |
| SessionStates.SessionState.SenderCompleted | src/qpid/SessionState.cpp:171-178 | the completed state; refused exactly when the first range ends past the commands sent |
| SessionStates.SessionState.SenderExpected | src/qpid/SessionState.cpp:105-115 | refused exactly outside replay point to send point; otherwise the frames of the expected command and later ones, leading to the send point when the session keeps frames |
| SessionStates.SessionState.ReceiverSetCommandPoint | src/qpid/SessionState.cpp:180-187 | refused exactly when the session has state and the point is past what was received; otherwise the expected point moves and received never moves back |
| SessionStates.SessionState.ReceiverRecord | src/qpid/SessionState.cpp:189-203 | the new receiver state and whether the frame is new, a duplicate, a control, untracked or refused |
| SessionStates.SessionState.ReceiverCompleted | src/qpid/SessionState.cpp:205-215 | the command, or all from the first incomplete one, moves from incomplete to completed-but-unknown |
| SessionStates.SessionState.ReceiverKnownCompleted | src/qpid/SessionState.cpp:217-223 | refused exactly when the report goes past what was received; otherwise the named commands leave the unknown set |
| SessionStates.ConfirmStep | src/qpid/SessionState.cpp:157-164 | one turn of the confirmation loop: the frame is accepted, the send point is not passed, and neither subtraction underflows |
| SessionReplay.StepKeeps | src/qpid/SessionState.cpp:105-240 | every step of the joined system, including a hard-limit failure, a broken connection and a resume, keeps the whole invariant |
| SessionReplay.ExactlyOnceInOrder | src/qpid/SessionState.cpp:105-203 | over any run the frames taken as new are, in order, a prefix of those recorded, are never taken back, and are all of them once nothing is in flight |
| SessionReplay.NeverStuck | src/qpid/SessionState.cpp:105-178 | in any run every step the environment allows can be taken: the code never walks a list whose frames it would refuse |
| SessionReplay.SenderAlwaysConsistent | src/qpid/SessionState.h:201-212 | at every moment of every run the sender's points, list and counters satisfy their stated invariant, and unflushed bytes are at most the replay bytes |
| SessionReplay.HardLimitExactly | src/qpid/SessionState.cpp:117-130 | in every reachable state, a data frame leaves the session attached if and only if there is no hard limit or the bytes held for replay, with the frame's body and its 12 or 14 bytes of header, are within it |
| SessionReplay.CountsSinceKnown | src/qpid/SessionState.cpp:117-223 | in every run the sender's count is of all bytes sent, and the receiver's of the bytes that arrived since the last report of known completions |
| SessionReplay.ResumeAlwaysPossible | src/qpid/SessionState.cpp:105-115 | however stale the completions seen, replay from the command being received passes the range checks on both sides and yields exactly the sent frames from that command on |
| SessionReplay.ResumeRecovers | src/qpid/SessionState.cpp:105-203 | from any broken connection, any allowed resume and the arrival of what it replays delivers everything sent |
| SessionReplay.CompletionEndToEnd | src/qpid/SessionState.cpp:171-240 | received commands split into incomplete and completed; a sent command missing from the sender's incomplete set was completed by the receiver; unknown completions lie below the received command |
| SessionReplay.ReportedUntilKnown | src/qpid/SessionState.cpp:217-223 | a completed command stops being reported only when a known-completed report names it, and then the sender no longer waits for it |
| SessionHandlers.ExpectedKeepsUp | src/qpid/amqp_0_10/SessionHandler.cpp:259-266 | when every resume is at the reported command, the expected point is always in the command being received |
| SessionHandlers.StateFollowsHistory | src/qpid/SessionState.cpp:117-203 | in every run the sending end has state exactly when it has recorded a frame, and the receiving end exactly when a frame has arrived as new |
| SessionHandlers.HandlersReattach | src/qpid/amqp_0_10/SessionHandler.cpp:213-236 | at any break of any such run the handlers refuse a direction exactly when the sending end has state and the receiving end has none; otherwise both range checks pass and the step taken is the resume of the model |
| SessionHandlers.OneWayResumes | src/qpid/amqp_0_10/SessionHandler.cpp:213-266 | with no traffic the other way, a broken session comes back if and only if nothing was sent or something has arrived |
| SessionHandlers.TwoWayResumes | src/qpid/amqp_0_10/SessionHandler.cpp:146-163 | a broken session with traffic both ways comes back if and only if nothing was sent, both ends have sent, or something has arrived either way |
| SessionHandlers.FirstFrameLost | src/qpid/amqp_0_10/SessionHandler.cpp:222-226 | a session that attaches, records one frame and loses the connection before it arrives is refused when it comes back |
| RangeLists.Range.Merge | src/qpid/RangeSet.h:76-81 | merging touching ranges holds exactly the elements of both |
| RangeLists.CanonicalUnique | src/qpid/RangeSet.h:92-103 | two canonical lists with the same elements are the same list |
| RangeLists.SizeIsCardinality | src/qpid/RangeSet.h:323-325 | the sum of the range sizes is the number of elements |
| RangeSets.LowerBound | src/qpid/RangeSet.h:213-216 | binary search splits a canonical list into the ranges wholly before the argument and the others |
| RangeSets.MergeTouched | src/qpid/RangeSet.h:232-238 | replacing the ranges an argument touches by their hull is canonical and adds exactly the argument |
| RangeSets.CutBothEnds | src/qpid/RangeSet.h:261-271 | truncating at both ends and erasing between is canonical and removes exactly the argument |
| RangeSets.SplitOne | src/qpid/RangeSet.h:256-260 | splitting a range that strictly contains the argument is canonical and removes exactly the argument |
| RangeSets.RangeSet.AddRange | src/qpid/RangeSet.h:227-239 | the list stays canonical and the set becomes the union with the range |
| RangeSets.RangeSet.RemoveRange | src/qpid/RangeSet.h:248-272 | the list stays canonical and the set becomes the difference with the range |
| RangeSets.RangeSet.AddSet | src/qpid/RangeSet.h:242-246 | set union, also with itself |
| RangeSets.RangeSet.RemoveSet | src/qpid/RangeSet.h:274-278 | set difference with another set |
| RangeSets.RangeSet.AddClosed | src/qpid/framing/SequenceSet.cpp:71-73 | adds exactly the numbers between the two bounds, given in either order |
| RangeSets.RangeSet.RemoveClosed | src/qpid/framing/SequenceSet.cpp:79-81 | removes exactly the numbers between the two bounds, given in either order |
| RangeSets.RangeSet.Contains | src/qpid/RangeSet.h:213-218 | the lookup is exactly membership |
| RangeSets.RangeSet.ContainsRange | src/qpid/RangeSet.h:220-225 | for a non-empty range exactly inclusion; for an empty one exactly whether it lies in or at the end of a run |
| RangeSets.RangeSet.RangeContaining | src/qpid/RangeSet.h:312-316 | the maximal run that holds the number, or the empty range at it |
| RangeSets.RangeSet.Size | src/qpid/RangeSet.h:323-325 | the number of elements |
| RangeSets.SameSetSameRanges | src/qpid/RangeSet.h:227-278 | two histories of additions and removals end in the same list of ranges if and only if they reach the same set |
| RangeIterators.Iterator.Begin | src/qpid/RangeSet.h:300-306 | the end iterator for an empty set, otherwise the least element |
| RangeIterators.Iterator.Increment | src/qpid/RangeSet.h:285-294 | the next larger element, or the end exactly when there is none |
| RangeIterators.Traverse | src/qpid/RangeSet.h:285-310 | from begin to end every element is visited once, in ascending order, in as many steps as the size |
| Words.BitWithBit | rubygen/framing.0-10/structs.rb:299-329 | setting or clearing one bit changes that bit only |
| Words.GetPut | src/qpid/framing/Buffer.cpp:43-69 | big-endian bytes give the word back |
| StructGen.FlagsDistinct | rubygen/framing.0-10/structs.rb:94-97 | different fields have different flag bits, all within the flag word |
| StructGen.FlagOnWire | rubygen/framing.0-10/structs.rb:94-100 | on the wire the flag of field i is bit i mod 8 of byte i div 8 |
| StructGen.ProcessFields | rubygen/framing.0-10/structs.rb:199-222 | the one-pass loop yields exactly the greedy grouping of adjacent bits |
| StructGen.GroupsCover | rubygen/framing.0-10/structs.rb:199-222 | the groups tile the fields in order, each a single other field or one to eight bits, and a bit group is followed by another only when it is full |
| StructCodec.EmitFits | rubygen/framing.0-10/structs.rb:99-131 | every statement the generator emits refers to a field of the right kind |
| StructRoundTrip.BitGroupRoundTrip | rubygen/framing.0-10/structs.rb:148-168 | a byte of grouped bits decodes to those bits and touches no other field |
| StructRoundTrip.RoundTrip | rubygen/framing.0-10/structs.rb:498-584 | decoding an encoded value into any object consumes exactly the bytes written and yields that object with everything present in the value written over it |
| StructRoundTrip.RoundTripInto | rubygen/framing.0-10/structs.rb:498-584 | into any object the value itself comes back if and only if the object agrees with it on everything absent, at any depth |
| StructRoundTrip.RoundTripFresh | rubygen/framing.0-10/structs.rb:73-82 | into a new object, whatever its unset booleans hold, the value itself is sure to come back if and only if its absent fields are of kinds that get a default and hold it |
| StructRoundTrip.SizesAgree | rubygen/framing.0-10/structs.rb:170-186 | the bytes written are exactly the computed encoded size |
| StructRoundTrip.EncodesExactly | rubygen/framing.0-10/structs.rb:188-193 | encoding succeeds if and only if every string that is present, at any depth, is short enough for its length prefix |
| StructRoundTrip.SizePrefixExact | rubygen/framing.0-10/structs.rb:498-584 | the size written in front of a struct counts the bytes that follow it if and only if that count fits the size field; otherwise it is cut off silently |
| StructWire.OnlyItsCode | rubygen/framing.0-10/structs.rb:546-556 | what decodes as a struct with a type code holds that code, big-endian, right after the size; anything else is refused |
| StructWire.StructMore | rubygen/framing.0-10/structs.rb:535-556 | a buffer that decodes gives the same object with any bytes after it, and leaves those |
| StructWire.TruncatedIsRefused | rubygen/framing.0-10/structs.rb:535-556 | every encoding cut short anywhere is refused, whatever the object decoded into |
| StructWire.FieldOnWire | src/qpid/framing/Buffer.cpp:43-261 | a boolean is written as 1 or 0, a word as its big-endian bytes, a string as its length and then its bytes |
| StructWire.CodeOnWire | rubygen/framing.0-10/structs.rb:513-523 | the encoder writes the type code big-endian right after the size |
| StructWire.FlagsOnWire | rubygen/framing.0-10/structs.rb:94-100 | the body of a packed struct begins with its flags, field i being bit i mod 8 of byte i div 8 |
| StructWire.GroupOnWire | rubygen/framing.0-10/structs.rb:148-168 | a group of bits is one byte, with the first field in the lowest bit and nothing above the last |
| StructRoundTrip.SetFlagOnly | rubygen/framing.0-10/structs.rb:299-329 | a packed accessor changes the presence of its own field only |
| UrlRoundTrip.HostSpanExact | src/qpid/Url.cpp:150-181 | the host loop stops exactly at the end of a name, partial percent escape included |
| UrlRoundTrip.PrintedAddress | src/qpid/Address.cpp:30-38 | for every configuration, a printed address whose protocol is registered and has no colon and whose host is valid, bracketed or not, parses back to itself and leaves the rest of the text |
| UrlRoundTrip.ParsedIsWellFormed | src/qpid/Url.cpp:99-236 | with a default that is registered and has no colon, whatever the text, what the parser leaves is a well-formed URL |
| UrlStops.AddressStops | src/qpid/Url.cpp:125-195 | read from anywhere inside a printed address, an address ends where the printed one does or before the colon of its port, never in between and never beyond |
| UrlSurvival.ReadsExactly | src/qpid/Url.cpp:125-175 | a protocol, a host and a port are read as a given address up to their end if and only if the protocol is named and the host valid, or the text before the host is swallowed by the bracket rule and the default assumed |
| UrlSurvival.NoFewerItems | src/qpid/Url.cpp:206-217 | a printed list is never read as fewer addresses than were printed, and as just as many only if each item ends where it was printed |
| UrlSurvival.ListExactly | src/qpid/Url.cpp:206-217 | a printed list is read back if and only if each of its addresses is |
| UrlSurvival.PrintThenParse | src/qpid/Url.cpp:76-88 | for every configuration and every URL, the printed text parses to that URL if and only if it survives: credentials clean, every address read back, and at-signs in protocols only where they do no harm |
| UrlSurvival.PrintableSurvives | src/qpid/Url.cpp:76-88 | for every configuration, a URL with registered protocols, valid hosts and clean credentials comes back |
| UrlSurvival.PrintableExactly | src/qpid/Url.cpp:76-88 | with a default that is registered and has neither colon nor at-sign, those are the only ones that come back |
| UrlSurvival.UnregisteredCanSurvive | src/qpid/Url.cpp:150-175 | with the default "[1" and no tags registered, an address of that protocol at host "g" comes back all the same |
| UrlSurvival.ParsePrintParse | src/qpid/Url.cpp:253-258 | with a configuration as in RoundTripsExactly, for every text, printing what was parsed and parsing again changes nothing |
| UrlSurvival.RoundTripsExactly | src/qpid/Url.cpp:103-145 | for every configuration, all texts survive the round trip if and only if the default is registered without a colon and no tag without a colon has an at-sign |
| UrlSurvival.UnregisteredDefaultIsLost | src/qpid/Url.cpp:125-145 | with the default protocol unregistered, the bare host "a" does not survive the round trip |
| UrlAcceptance.UntaggedAccepted | src/qpid/Url.cpp:103-195 | for every configuration, a name over letters, digits and - . _ ~ or a bracketed literal, with a port below 65536 or none and no tag in front, is read as that host and port under the default protocol |
| UrlAcceptance.TaggedAccepted | src/qpid/Url.cpp:125-145 | the same after a registered tag, under that protocol |
| UrlAcceptance.BareNameAccepted | src/qpid/Url.cpp:125-132 | a name alone is read with port 5672 |
| UrlAcceptance.NameAndDigits | src/qpid/Url.cpp:125-195 | what a name, a colon and any digits are read as, in every case: a tag and a host, a host and a port, or nothing |
| UrlAcceptance.OnlyHostsRead | src/qpid/Url.cpp:150-181 | for every configuration and text, every host read is a literal over hexadecimal digits, colons and dots or a name over letters, digits, - . _ ~ and percent escapes |
| UrlAcceptance.PrintedExample | src/qpid/Url.cpp:76-88 | the printed form, character by character, of a URL with credentials, a name and an IPv6 address |
| UrlParsing.UrlParser.PctEncoded | src/qpid/Url.cpp:179-181 | consumes the sign and up to two hexadecimal digits, and succeeds only on both |
| UrlParsing.UrlParser.SkipHost | src/qpid/Url.cpp:154-155 | the loop consumes exactly the host characters of the grammar, cut escapes included |
| UrlParsing.UrlParser.Ip6 | src/qpid/Url.cpp:162-175 | accepts and consumes exactly what the bracket rule does, failures included |
| UrlParsing.UrlParser.HostRule | src/qpid/Url.cpp:150-159 | a bracketed literal, or else a name from wherever the failed bracket rule stopped |
| UrlParsing.UrlParser.PortRule | src/qpid/Url.cpp:183-195 | a decimal number below 65536, or failure with the digits consumed |
| UrlParsing.UrlParser.TagRule | src/qpid/Url.cpp:134-145 | the text before the next colon if it is a registered tag, else the default and nothing consumed |
| UrlParsing.UrlParser.AddrRule | src/qpid/Url.cpp:125-132 | pushes exactly the address the grammar reads, and only on success |
| UrlParsing.UrlParser.ListRule | src/qpid/Url.cpp:206-217 | the list loop reads exactly the addresses of the grammar and fails on a separator with no item |
| UrlParsing.UrlParser.UserPassRule | src/qpid/Url.cpp:112-121 | user and password are split at the first at-sign and the first slash before it |
| UrlParsing.ParseNoThrow | src/qpid/Url.cpp:253-258 | the cursor parser computes the grammar's result for every text, an empty address list on failure |
| UrlParsing.PrintUrl | src/qpid/Url.cpp:76-88 | the printing loop produces the specified text |
| QueryStreams.AgentEvent.EnqueueData | src/qmf/AgentEvent.cpp:47-52 | appends to the queue and returns its length |
| QueryStreams.AgentEvent.DequeueData | src/qmf/AgentEvent.cpp:55-63 | takes the first item, or gives an invalid one when the queue is empty |
| QueryStreams.AgentSession.FlushResponses | src/qmf/AgentSession.cpp:919-947 | sends one message with the queued items up to the first invalid one, partial unless final |
| QueryStreams.FlushTakes | src/qmf/AgentSession.cpp:919-947 | a flush sends exactly the items before the first invalid one and drops them and that one |
| QueryStreams.AgentSession.Answer | src/qmf/AgentSession.cpp:429-441 | responding with each result and completing sends exactly the specified stream |
| QueryStreams.StreamShape | src/qmf/AgentSession.cpp:429-441 | n results make n/8 + 1 messages; all but the last are partial with eight items; the last holds the remainder |
| QueryStreams.SyncContext.HandleQueryResponse | src/qmf/Agent.cpp:408-470 | appends the items, and marks the response final exactly on a message that is not partial |
| QueryStreams.StreamConserves | src/qmf/Agent.cpp:408-470 | after each message but the last the response holds the results so far and is not final; after the last it is final and holds all of them in order |
| QueryStreams.QueryEndToEnd | src/qmf/AgentSession.cpp:429-441 | agent and console together: whatever the results, the console ends with exactly them, final |
| DataIndexes.AddKeeps | src/qmf/AgentSession.cpp:310-319 | adding data keeps the two indexes in agreement, duplicates included |
| DataIndexes.DeleteKeeps | src/qmf/AgentSession.cpp:329-341 | deleting data keeps the two indexes in agreement |
| DataIndexes.RegisterKeeps | src/qmf/AgentSession.cpp:278-293 | registering a class keeps the agreement if and only if no data of that class is held |
| DataIndexes.AlwaysAgree | src/qmf/AgentSession.cpp:278-341 | in every run that registers classes before their data, the indexes agree |
| DataIndexes.SelectOfClass | src/qmf/AgentSession.cpp:375-386 | scanning the data of a class in order gives what scanning all data with the class as a further condition gives, in the same order |
| DataIndexes.QueryFindsAll | src/qmf/AgentSession.cpp:375-386 | in every such run a query by class returns what a filtered scan of all data would |
| DataIndexes.SelectedOnce | src/qmf/AgentSession.cpp:375-386 | a query answers with the data at exactly the matching addresses, each once, in ascending order of address |
| DataIndexes.FreeExactly | src/qmf/AgentSession.cpp:296-341 | after any run an address is free if and only if everything added there was deleted again |
| DataIndexes.HeldExactly | src/qmf/AgentSession.cpp:296-341 | after any run an address holds a datum if and only if that datum was added while the address was free and the address was not deleted since |
| DataIndexes.AgentData.RegisterSchema | src/qmf/AgentSession.cpp:278-293 | the class index is reset to empty, nothing else changes |
| DataIndexes.AgentData.AddData | src/qmf/AgentSession.cpp:296-326 | refused exactly for a taken address or when the application keeps the data; otherwise entered in both indexes |
| DataIndexes.AgentData.DelData | src/qmf/AgentSession.cpp:329-346 | removed from both indexes, or nothing for an unknown address |
| DataIndexes.AgentData.AuthAccept | src/qmf/AgentSession.cpp:349-389 | handed to an application that keeps the data; otherwise a query by address finds at most that datum, a query by class finds the matching data of the class index, which is the filtered scan when the indexes agree, and any other query is an error |
| AgentDirectory.RemovalsMirror | src/qmf/ConsoleSession.cpp:135-140 | the events of a removal loop, followed in order, remove exactly those names, each naming the agent that was listed |
| AgentDirectory.DispatchMirrors | src/qmf/ConsoleSession.cpp:468-589 | every message leaves the log rebuilding the directory: broker-locate replies, new agents, refreshes, restarts and filtered ones |
| AgentDirectory.SetFilterMirrors | src/qmf/ConsoleSession.cpp:118-154 | so does every filter change, the return of the broker's own agent included |
| AgentDirectory.PeriodicMirrors | src/qmf/ConsoleSession.cpp:600-632 | so does every ageing pass |
| AgentDirectory.FilterPurges | src/qmf/ConsoleSession.cpp:118-154 | after a filter change every listed agent matches the filter |
| AgentDirectory.LogMirrorsDirectory | src/qmf/ConsoleSession.cpp:468-589 | in every reachable state replaying the added and removed events rebuilds the directory exactly, and every removal is of the agent listed under that name |
| AgentEvents.OnlyHeard | src/qmf/ConsoleSession.cpp:350-372 | any other message changes neither list nor log, and marks its agent as heard from if it is listed |
| AgentEvents.ListedExactly | src/qmf/ConsoleSession.cpp:468-589 | after a message an agent is listed if and only if it was, or the message is an update of it that the filter lets through |
| AgentEvents.FilteredOut | src/qmf/ConsoleSession.cpp:522-527 | an update that the filter stops, and that is no reply of the connected broker, changes neither list nor log |
| AgentEvents.NewlyListed | src/qmf/ConsoleSession.cpp:500-551 | an agent not known yet, or found by the broker's reply, is listed and announced with a record of its own that holds the update's attributes, and the epoch apart from them; the broker's is marked as listed |
| AgentEvents.BrokerRemembered | src/qmf/ConsoleSession.cpp:500-520 | the broker's own agent is remembered even when the filter keeps it off the list |
| AgentEvents.RefreshEvents | src/qmf/ConsoleSession.cpp:551-587 | an update of a listed agent announces a restart if and only if the epoch changed, and new schemas if and only if their time stamp rose and the epoch did not change |
| AgentEvents.RefreshRecord | src/qmf/ConsoleSession.cpp:551-587 | the record takes over the epoch, and the time stamp when it rose, and nothing else of the update |
| AgentEvents.FilterExactly | src/qmf/ConsoleSession.cpp:118-154 | after a filter change an agent is listed if and only if it was and matches, or it is the broker's own coming back |
| AgentEvents.FilterEvents | src/qmf/ConsoleSession.cpp:118-154 | a filter change announces exactly the agents it takes off, as filtered, and the broker's own if that comes back |
| AgentEvents.FilterTwice | src/qmf/ConsoleSession.cpp:118-154 | setting the same filter again changes nothing and announces nothing |
| AgentEvents.PeriodicEvents | src/qmf/ConsoleSession.cpp:600-632 | the periodic work announces exactly the agents it takes off, as aged, and nothing else |
| AgentEvents.BrokerNeverAges | src/qmf/ConsoleSession.cpp:620-623 | the connected broker's own agent is never dropped or counted by the ageing pass |
| AgentEvents.SameSecond | src/qmf/ConsoleSession.cpp:606-608 | a second visit within the same second does nothing |
| AgentAgeing.RunsAreTimely | src/qmf/ConsoleSession.cpp:355-361 | in every run with a clock that does not go back, an agent counted silent for k passes has not been heard from for 60k seconds |
| AgentAgeing.AgedOnlyWhenSilent | src/qmf/ConsoleSession.cpp:600-632 | in every such run an agent removed by ageing was silent for at least 60 * (limit + 1) whole seconds, within one second of real time |
| AgentAgeing.CountsWithinLimit | src/qmf/ConsoleSession.cpp:620-630 | in every run, whatever the clock does, the count of every listed agent is within the limit |
| AgentAgeing.SilentAgentsGo | src/qmf/ConsoleSession.cpp:600-632 | from any reachable state and whatever other agents and filters do, an agent not heard from is unlisted by the tick (limit + 1) * (59 + g) + 60 seconds after the last pass before its silence, when ticks come at most g seconds apart |
| AgentAgeing.ListedWhileCounted | src/qmf/AgentImpl.h:48-49 | over any passes without a message in between, an agent stays listed if and only if its count is within the limit |
| AgentAgeing.EarlyPass | src/qmf/ConsoleSession.cpp:613-616 | on a 64-bit nanosecond clock a pass runs less than a minute after the last one if and only if the clock is behind it |
| AgentAgeing.BackwardClockReached | src/qmf/ConsoleSession.cpp:600-632 | a new agent's heartbeat and a tick in the same second lead to a state as BackwardClockAges starts from |
| AgentAgeing.BackwardClockAges | src/qmf/ConsoleSession.cpp:613-630 | an agent just heard from is removed at the tick number limit + 2 of a clock that runs back a second at a time, and not before |
| AgentConsoles.ConsoleSession.SetAgentFilter | src/qmf/ConsoleSession.cpp:118-154 | the whole new state: who is removed and told, in order, and whether the broker's agent returns |
| AgentConsoles.ConsoleSession.RemoveAll | src/qmf/ConsoleSession.cpp:135-140 | the removal loop erases exactly the given names and queues their events in the order of the directory |
| AgentConsoles.ConsoleSession.Receive | src/qmf/ConsoleSession.cpp:350-372 | a message touches its agent if listed, then updates the directory if it is an agent update |
| AgentConsoles.ConsoleSession.HandleAgentUpdate | src/qmf/ConsoleSession.cpp:468-589 | the whole new state for each branch |
| AgentConsoles.ConsoleSession.RefreshAgent | src/qmf/ConsoleSession.cpp:551-587 | touch, restart event on a new epoch, schema event only when newer and no restart |
| AgentConsoles.ConsoleSession.PeriodicProcessing | src/qmf/ConsoleSession.cpp:600-632 | the whole new state: nothing within a second, a pass when a minute has elapsed |
| AgentConsoles.ConsoleSession.AgeAgents | src/qmf/ConsoleSession.cpp:620-623 | the loop ages exactly the listed agents other than the broker's and sets aside exactly those over the limit |
| SchemaHash.UnstepStep | src/qmf/Hash.cpp:37-43 | for a given byte a hash step can be undone |
| SchemaHash.StepUnstep | src/qmf/Hash.cpp:37-43 | and every state is reached: with the above, each step is a bijection on the 128-bit state |
| SchemaHash.UpdateInjective | src/qmf/Hash.cpp:32-44 | equal hashes after the same bytes mean equal hashes before them |
| SchemaHash.NoShortCollision | src/qmf/Hash.cpp:32-44 | inputs of the same length that differ only within nine consecutive bytes never collide, from any state, whether or not characters are signed |
| SchemaCollisions.CollisionThreshold | src/qmf/Hash.cpp:32-44 | inputs of length n never collide, whatever the state they start from, if and only if n is at most nine |
| SchemaCollisions.TenCollide | src/qmf/Hash.cpp:32-44 | from a state at the brim of a carry, two inputs of ten bytes that collide, for signed and for unsigned characters |
| SchemaCollisions.BrimReached | src/qmf/Schema.cpp:244-250 | a schema kind and seven bytes of package and name lead from the initial state to such a state |
| SchemaCollisions.SameClassCollides | src/qmf/Schema.cpp:244-262 | two schemas of the same class with the same hash that differ in ten bytes of a property's name, whatever their other properties and methods |
| SchemaCollisions.ShowsExactly | src/qmf/Schema.cpp:244-262 | every change of a schema's bytes within n consecutive ones shows in the hash if and only if n is at most nine |
| SchemaHash.HashShowsBytes | src/qmf/Schema.cpp:244-262 | schemas whose bytes differ only within nine consecutive ones have the same hash if and only if the bytes are the same |
| SchemaHash.PropertyChangeShows | src/qmf/SchemaProperty.cpp:301-312 | changing a property's type, its direction, or any of access, index and optional together changes the schema's hash |
| SchemaHash.ArgumentChangeShows | src/qmf/SchemaMethod.cpp:152-158 | the same for an argument of a method |
| SchemaFields.PropertyTextShows | src/qmf/SchemaProperty.cpp:301-312 | a change within nine bytes of a property's name, subtype, unit or description changes the schema's hash |
| SchemaFields.ArgumentTextShows | src/qmf/SchemaMethod.cpp:152-158 | the same for an argument of a method |
| SchemaFields.MethodTextShows | src/qmf/SchemaMethod.cpp:152-158 | a change within nine bytes of a method's name or description changes the schema's hash |
| SchemaFields.HeadShows | src/qmf/Schema.cpp:244-250 | a change of a schema's kind, or within nine bytes of its package or class name, changes its hash |
| SchemaFields.PropertyLayout | src/qmf/SchemaProperty.cpp:301-312 | where each field of a property stands among the bytes hashed |
| SchemaHash.BoundariesAreLost | src/qmf/SchemaProperty.cpp:301-312 | a unit and description of up to nine bytes in all can be replaced by others of the same total length without changing the hash if and only if the two read the same run together |
| SchemaHash.MovedTextCollides | src/qmf/SchemaProperty.cpp:301-312 | so every schema with a unit has the hash of a different schema, the one with the unit's text moved into the description |
| SchemaHashing.ShiftIn | src/qmf/Hash.cpp:38-40 | shifting the second word up and filling in a byte shifts its eight bytes |
| SchemaHashing.Hasher.constructor | src/qmf/Hash.cpp:26-30 | both words hold the initial pattern |
| SchemaHashing.Hasher.Add | src/qmf/Hash.cpp:32-44 | the loop over the two words computes the specified hash of the bytes |
| SchemaHashing.Hasher.AddProperty | src/qmf/SchemaProperty.cpp:301-312 | feeds the fields of a property in order |
| SchemaHashing.Finalize | src/qmf/Schema.cpp:244-262 | the walk over a schema ends in the hash of all its bytes |

## Left out

- SessionStates.SessionState.SenderExpected: a session that keeps no frames can only be asked for the command at its replay point; anything else fails an assertion in the source.
- SessionStates.SessionState.SenderCompleted: the sender's own set of incomplete commands is not an argument; the library hands out copies of it only.
- SessionStates.SessionState.ReceiverKnownCompleted: the receiver's own set of unknown completions is not an argument; the library passes the set of a control.
- RangeSets.RangeSet.RemoveSet: removing a set from itself is left out; the loop then runs over the list it is erasing, past its end.
- QueryStreams.SyncContext.HandleQueryResponse: covers data content of a synchronous query; schema content, asynchronous responses and the lookup by correlation number would only add easy members.
- DataIndexes.AgentData.RegisterSchema: leaves out the table of schemas and the time of the last change, which no property here reads.
- DataIndexes.AgentData.AddData: names are given; the name generated for unnamed data is not modelled.
- AgentConsoles.ConsoleSession.HandleAgentUpdate: starts from attributes under their present names and of the right types; old names and the exceptions a malformed update raises are left out.
- AgentAgeing.AgedOnlyWhenSilent: needs a clock that does not go back; EarlyPass and BackwardClockAges say what happens otherwise.
- Wrap-around of 32-bit command numbers and of 64-bit byte offsets: command numbers are unbounded.
- Restoring a session with `setState`, and switching receiver tracking on and off in mid-session.
- `RangeSet::operator==`, which compares constant ranges through their conversion to bool; equality of range lists is treated by `CanonicalUnique`.
- The wire form of command sets, field tables, arrays, variants, the execution header and whole frames.
- 32-bit totals of struct sizes: sizes are unbounded.
- The cached text of a URL, and credentials kept from an earlier parse into the same object: parsing is into a fresh object.
- Invalid data handles among query results in `StreamConserves`; `FlushResponses` covers them.
- Threads, locks, waiting, timeouts of synchronous calls and the transport itself.
- Schema types and directions outside one byte: the library narrows them to a byte before hashing, and the model starts from the byte.
- Security layers, options, plug-ins, daemon and platform code, language bindings and the other code generators: input/output or easy members.
