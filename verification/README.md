# Verified models of AWS IoT Greengrass nucleus lite

This project models the parts of Greengrass nucleus lite whose correctness is hardest to see from the code, and
proves what they are for. `dafny verify dfyconfig.toml` checks everything. Each module follows one component:

- `PolicyMatcher`: authorisation of local IPC requests against wildcard policies.
- `Semver`, `Resolution`, `Resolver`: version ranges, what resolving a deployment's components and their dependencies
  means, and the code that does it.
- `PacketStore`: unacknowledged MQTT publishes packed into one buffer.
- `Crc32`, `EventStream`: the event stream packet format. `ObjectSerde`, `ObjectDecode`: its object payloads, written
  and read with an explicit stack. `Words`, `Objects`, `Buffer`, `BumpBuffer` are shared.
- `JsonSyntax`, `JsonTree`, `JsonGrammar`, `JsonUnescape`, `JsonDecode`, `JsonEvents`: the JSON decoder, from parser
  combinators to the in-place second pass over one buffer, and what decides how it ends. `JsonEncode`, `JsonWriter`,
  `Int64Text`, `JsonRoundTrip`: the encoder and the round trip.
- `SocketPool`, `BusServer`: socket handles with generations, and the core bus server as a concurrent state machine.
- `ConfigMap`, `ConfigTables`, `ConfigStore`, `ConfigMerge`: the configuration database as a timestamped map.
- `Subscriptions`, `SubscriptionRuns`: the MQTT subscription table, and subscribing as a concurrent state machine.
- `DeploymentQueue`, `Base64`: the deployment ring and base64.

Code that changes things in place is modelled by classes and methods with loops and is proved against functions and
predicates on values; the laws about those values are lemmas. Concurrency is a state machine over atomic steps.

Some properties one would expect do not hold of the code. They are stated with the exact condition under which they
do:

- Joining two version requirements with a space loses a version that is in both ranges exactly when the first is empty
  or ends in a space, or the second is empty and the byte behind the buffer is not a requirement that the version meets
  (`Semver.JoinIsConjunction`, `Semver.JoinLosesVersions`). So a root without a version that another component needs,
  too, is never resolved (`Resolution.VersionlessRootBlocks`).
- Resolution reports success with nothing resolved when the answer has no list of thing groups, or when the first defect
  in the list is an item that is not a map and the item before it left no error behind (`Resolver.MalformedSucceeds`). It
  loses roots of other groups exactly when more than 64 distinct roots exist (`Resolver.ResolveDependencies`,
  `Resolver.LosesRoot`).
- A policy pattern has its documented meaning exactly when it has no NUL byte, which acts as a wildcard
  (`PolicyMatcher.NulFreeExactly`, `PolicyMatcher.NulIsWildcard`).
- Clearing a stored packet removes another one exactly when an empty packet lies right before it
  (`PacketStore.FreesTheRightPacket`, `PacketStore.EmptyPacketRun`). The MQTT library, the one caller, stores no empty
  packet.
- A JSON string is decoded to what it denotes exactly when it has no `\uXXXX` escape. If its first escape is one, and not
  one for the backslash, decoding writes one to four bytes behind the string, over its quote and what follows
  (`JsonUnescape.UnescapeString`, `JsonUnescape.SpillExample`). How the decoding of a whole text ends is decided by the
  first of its strings, numbers and collections that fails. It leaves the memory exactly when the first one to fail is a
  string that spills more bytes than follow it (`JsonEvents.FirstFailureDecides`, `JsonEvents.LeavesExactly`). Bytes
  outside ASCII are never accepted although the parser has cases for them (`JsonEncode.TreeIsAscii`).
- Decoding an encoded object gives the object back exactly when its strings are printable ASCII, it is not one integer
  that fills the buffer, and the memory suffices (`JsonRoundTrip.RoundTrip`, `JsonWriter.ShownIsEncoded`).
- A released socket handle is accepted again each time its slot has been released another 65536 times
  (`SocketPool.AcceptedIff`).
- An event frame follows an unfinished one exactly when a socket refused bytes within a frame while the connection stayed
  open, and was written to again (`BusServer.TornExactly`, `BusServer.TornRun`).
- The broker is left with a filter that nobody holds exactly when one of three things happened and neither a new session
  nor a new registration of the filter followed (`SubscriptionRuns.StrayExactly`, `SubscriptionRuns.ReconnectStrands`). A
  refused request was rolled back that alone held the filter, and since its registration the table was subscribed again
  in the session that lasts, or the filter had been left over already at the registration and the session has not ended
  (`SubscriptionRuns.RollbackStrands`). A request was granted after a reconnection had cleared all slots with its filter
  (`SubscriptionRuns.RequestStrands`). Or the filter was refused on a reconnection after it had been requested in the
  same session (`SubscriptionRuns.ResubscribeStrands`).
- Closing a connection asks the broker to unsubscribe from an empty filter exactly when one of its slots was already
  inactive, as after a refused reconnection (`Subscriptions.Table.Unregister`).
- A configuration read succeeds with values missing exactly when memory suffices for the key itself and the names of its
  children, but not below (`ConfigStore.ReadKey`, `ConfigStore.ReadLosesValue`).
- Merging an object below a path puts its values where they belong and restores the path exactly when the path and the
  nesting of maps together have at most 15 elements. Otherwise a failed push is ignored, a value goes to the path without
  its key, and the pop takes off an element of the path (`ConfigMerge.EntriesLaidOutExactly`, `ConfigMerge.TooDeep`).
- A deployment whose copy does not fit leaves its record with the new bytes under the old lengths. One that was to be
  replaced keeps its id, with a document that is partly overwritten. One in a newly taken slot breaks the queue exactly
  when the id that is read there now is in use or the slot's last use left it in progress behind the head
  (`DeploymentQueue.SpoiltIsProper`, `DeploymentQueue.SpoilsTwice`).

## Model

| member | source | states |
|---|---|---|
| `PolicyMatcher.DefaultPolicyMatcher` | ggipcd/src/ipc_authz.c:121-180 | for every resource and pattern the in-place rewrite and the greedy search decide the stored-pattern meaning, and for a pattern without NUL bytes exactly the documented meaning of `*`, `${*}`, `${?}` and `${$}` |
| `PolicyMatcher.RewritePattern` | ggipcd/src/ipc_authz.c:127-151 | the first loop leaves in the array exactly the tokens of the pattern it was given, although it reads what it overwrites |
| `PolicyMatcher.GreedySearch` | ggipcd/src/ipc_authz.c:153-180 | prefix for the first segment, leftmost occurrence for the middle ones and suffix for the last decide exactly the existential meaning of the wildcards |
| `PolicyMatcher.LeftmostSuffices` | ggipcd/src/ipc_authz.c:160-171 | taking the leftmost occurrence of a segment between two wildcards loses no match and invents none |
| `PolicyMatcher.LiteralFirst` | ggipcd/src/ipc_authz.c:153-158 | a literal segment in front matches exactly when it is a prefix and the rest matches the rest |
| `PolicyMatcher.LastSegment` | ggipcd/src/ipc_authz.c:173-179 | a wildcard and a last segment match exactly the strings that end in the segment |
| `PolicyMatcher.WholeSegment` | ggipcd/src/ipc_authz.c:153-158 | without a wildcard only the pattern itself matches |
| `PolicyMatcher.NulFreeTokens` | ggipcd/src/ipc_authz.c:127-151 | a pattern without NUL bytes is read back from its stored form as the same tokens |
| `PolicyMatcher.MatchesIsGlob` | ggipcd/src/ipc_authz.c:121-180 | on patterns without NUL bytes matching is the declarative wildcard relation, both ways |
| `PolicyMatcher.NulFreeExactly` | ggipcd/src/ipc_authz.c:127-180 | the matcher gives the documented meaning on every resource exactly when the pattern has no NUL byte |
| `PolicyMatcher.NulIsWildcard` | ggipcd/src/ipc_authz.c:136-136 | a concrete pattern with a NUL byte matches a resource that its tokens do not |
| `PolicyMatcher.StarMatchesAll` | ggipcd/src/ipc_authz.c:53-53 | the shortcut for the pattern `*` agrees with the matcher |
| `PolicyMatcher.PolicyMatch` | ggipcd/src/ipc_authz.c:20-63 | one policy grants exactly its listed operations on resources that one of its patterns matches; the two error results exactly when they occur |
| `PolicyMatcher.Auth` | ggipcd/src/ipc_authz.c:65-119 | a request is allowed exactly when some policy grants it and no entry in front of it is not a map; it is refused as misconfigured or with the error of the read exactly when that applies |
| `Buffer.Find` | ggl-lib/src/buffer.c:40-51 | the occurrence found is the leftmost, and none is reported exactly when there is none |
| `Semver.IsInRange` | ggl-semver/src/semver.c:74-134 | the scanning loop over two fixed buffers decides the recursive meaning of a requirement string, including over-long requirements and a trailing separator |
| `Semver.OverlongFails` | ggl-semver/src/semver.c:85-110 | a requirement that outgrows its buffer can no longer be met, whatever follows |
| `Semver.RangeIsAllRequirements` | ggl-semver/src/semver.c:74-134 | for a well-formed string, being in range is meeting every single requirement in it |
| `Semver.JoinImpliesBoth` | ggl-semver/src/semver.c:74-134 | a version in the range of two strings joined by a space is in the range of each, for all strings |
| `Semver.JoinIsConjunction` | ggl-semver/src/semver.c:74-134 | for any two strings, the range of the two joined by a space: empty if the first is empty or ends in a space, otherwise what both allow, an empty second string standing for the byte behind the buffer; so a version in both ranges is lost exactly in three named cases |
| `Semver.JoinLosesVersions` | ggl-semver/src/semver.c:74-134 | a version that is in both ranges and not in the joined one, for each of the three cases |
| `Semver.BadStartFails` | ggl-semver/src/semver.c:17-72 | a requirement beginning with a space or NUL is never met |
| `Resolver.ResolveDependencies` | ggdeploymentd/src/deployment_handler.c:1135-1622 | how it ends for every input: unusable roots, a failed request, an answer without groups, a merge that stops, or the one outcome of resolving the merged roots; success on a well-formed list yields distinct names, every dependency provided at a version in its range, every component justified by a root, and the roots of all groups exactly when at most 64 distinct names are asked for |
| `Resolver.EndsOnce` | ggdeploymentd/src/deployment_handler.c:1135-1622 | the inputs determine the status and the components, so each error is reported exactly when its condition holds |
| `Resolver.MalformedSucceeds` | ggdeploymentd/src/deployment_handler.c:1218-1256 | the resolution ends in success with nothing resolved if the answer has no list of groups, or the first defect in the list is an item that is not a map and the item before it left no error behind |
| `Resolver.LosesRoot` | ggdeploymentd/src/deployment_handler.c:1364-1382 | with one root of its own and 64 of another group the resolution succeeds and one root is not provided |
| `Resolver.ConflictIsReal` | ggdeploymentd/src/deployment_handler.c:1304-1347 | a reported conflict names two roots of one component in two different versions |
| `Resolver.StopsOnce` | ggdeploymentd/src/deployment_handler.c:1249-1385 | one item stops the merge of the groups, with one status |
| `Resolver.ResolveAll` | ggdeploymentd/src/deployment_handler.c:1387-1620 | the growing worklist loop ends with the outcome that the roots, the memory and the world determine; on success the result is closed, consistent and justified and provides every root, whatever order dependencies appear in |
| `Resolver.ResolveNext` | ggdeploymentd/src/deployment_handler.c:1387-1620 | one round resolves the next entry at the preferred version for its joined requirement and keeps every earlier requirement met or still pending; otherwise it gives the reason, which for a requirement that starts with a space is that there is no version |
| `Resolver.AddDependencies` | ggdeploymentd/src/deployment_handler.c:1487-1619 | after the dependency loop each dependency of the component resolved last is met or queued; otherwise the first one that is not, and why |
| `Resolver.AddDependency` | ggdeploymentd/src/deployment_handler.c:1509-1617 | one dependency is checked against a resolved version, joined onto a queued requirement or queued, for exactly the bytes that takes; out of memory exactly when the bytes, the path buffer or the 64 entries do not suffice |
| `Resolver.QueueRequirement` | ggdeploymentd/src/deployment_handler.c:1535-1617 | a requirement on an unresolved component is joined or queued exactly when the bytes, the path buffer and the 64 entries suffice, for exactly the bytes that takes |
| `Resolver.ChooseVersion` | ggdeploymentd/src/deployment_handler.c:1387-1429 | the chosen version is in range and is the local choice, or the answer of the cloud when the device has nothing in range; none is chosen only if neither has one in range |
| `Resolution.PreferredIsUnique` | ggdeploymentd/src/deployment_handler.c:1387-1429 | the running version, the recipe order and the answer of the cloud leave at most one version for a requirement |
| `Resolver.ResolveLocally` | ggdeploymentd/src/component_manager.c:21-110 | the running version if it is in range, else the first stored recipe in range; none only if no such version exists |
| `Resolver.JoinKeeps` | ggdeploymentd/src/deployment_handler.c:1553-1588 | joining a requirement onto a queued entry keeps every requirement accounted for and accounts for the new one |
| `Resolver.PushKeeps` | ggdeploymentd/src/deployment_handler.c:1590-1616 | queueing an entry keeps every requirement accounted for and accounts for its own |
| `Resolver.ResolveKeeps` | ggdeploymentd/src/deployment_handler.c:1431-1486 | resolving an entry at a version in its joined range meets every requirement that was joined onto it |
| `Resolver.AllAccountedIsClosed` | ggdeploymentd/src/deployment_handler.c:1387-1620 | when the worklist is exhausted the resolved set is closed under dependencies, free of duplicates and justified |
| `Resolver.MergeRoot` | ggdeploymentd/src/deployment_handler.c:1299-1382 | a root of another group is added, found identical, refused for memory or reported as a conflict, each exactly when that applies; a push that does not fit is dropped silently |
| `Resolver.MergeGroups` | ggdeploymentd/src/deployment_handler.c:1249-1385 | all roots of the other groups are merged exactly when every item is well formed and every root can be merged; otherwise the item that stops it, and with which status |
| `Resolver.RootsResolved` | ggdeploymentd/src/deployment_handler.c:1364-1382 | all merged roots are provided exactly when at most 64 distinct names exist |
| `Resolution.VersionlessRootBlocks` | ggdeploymentd/src/deployment_handler.c:1553-1588 | a root without a version that a component resolved before it needs, too, is never resolved, and a resolution that gets as far as this root ends there for lack of a version |
| `Resolution.OutcomeIsUnique` | ggdeploymentd/src/deployment_handler.c:1387-1620 | the roots, the memory and the world determine the components resolved, their versions and how the resolution ends: the conditions given for success and for each error exclude one another |
| `Resolution.PickedNames` | ggdeploymentd/src/deployment_handler.c:1387-1486 | components are resolved in the order of the growing list, each once |
| `Resolution.GathersSpace` | ggdeploymentd/src/deployment_handler.c:1553-1588 | a requirement joined onto an empty one starts with a space, and stays so |
| `PacketStore.Store.StorePacket` | iotcored/src/mqtt.c:205-236 | a packet is stored behind the others exactly when a record and the bytes are free; otherwise nothing changes |
| `PacketStore.Store.RetrievePacket` | iotcored/src/mqtt.c:238-260 | the address and length returned for an id hold exactly the bytes stored for it |
| `PacketStore.Store.ClearPacket` | iotcored/src/mqtt.c:262-274 | removes the packet of the id and moves the later ones, byte for byte, in records and buffer |
| `PacketStore.Store.FreeAt` | iotcored/src/mqtt.c:152-203 | closing the gap keeps all other packets and their order |
| `PacketStore.Store.Free` | iotcored/src/mqtt.c:144-203 | frees the first record at the address, or nothing if there is none |
| `PacketStore.Store.Alloc` | iotcored/src/mqtt.c:107-142 | the address behind the last packet exactly when the packet fits |
| `PacketStore.Tile` | iotcored/src/mqtt.c:107-203 | packets lie end to end, and removing one removes exactly its bytes |
| `PacketStore.FreesTheRightPacket` | iotcored/src/mqtt.c:262-270 | clearing an id removes the packet of that id exactly when no empty packet lies right before it; otherwise another packet goes and that one stays |
| `PacketStore.EmptyPacketRun` | iotcored/src/mqtt.c:262-270 | a run of two stores and a clear that removes the wrong packet |
| `PacketStore.RunKeepsPackets` | iotcored/src/mqtt.c:107-274 | over every run of stores and clears of non-empty packets the table holds exactly the packets accepted and not cleared, byte for byte, within its limits |
| `Crc32.UpdateCrc` | eventstream/src/crc32.c:31-37 | the table-driven checksum is bit-by-bit polynomial division, for every start value and every byte string |
| `Crc32.MakeCrcTable` | eventstream/src/crc32.c:17-29 | every table entry is the division of its index |
| `Crc32.DivideByte` | eventstream/src/crc32.c:18-27 | the inner loop divides one byte |
| `Crc32.TableStep` | eventstream/src/crc32.c:33-35 | one lookup and shift is eight division steps |
| `Crc32.BlockStep` | eventstream/src/crc32.c:33-35 | dividing several bits at once needs only the low bits |
| `Crc32.StepXor` | eventstream/src/crc32.c:20-26 | a division step is linear |
| `Crc32.CrcConcat` | eventstream/src/crc32.c:31-37 | a checksum can be continued: two parts in turn give the checksum of the whole |
| `EventStream.Encode` | eventstream/src/encode.c:103-178 | succeeds exactly when headers and payload are encodable and fit the buffer and 32 bits, and then the buffer holds the packet with both checksums and lengths in place |
| `EventStream.FinishPacket` | eventstream/src/encode.c:153-177 | back-filling the lengths and checksums completes the packet |
| `EventStream.HeadersEncode` | eventstream/src/encode.c:128-142 | the headers follow each other in order, or the call fails exactly when one is not encodable or does not fit |
| `EventStream.HeaderEncode` | eventstream/src/encode.c:26-101 | one header is written exactly when name and value lengths are legal and it fits |
| `EventStream.Decode` | eventstream/src/decode.c:145-219 | a message is accepted exactly when its checksum and every header are right, with the exact header count |
| `EventStream.CountHeaders` | eventstream/src/decode.c:127-143 | the count is that of the recursive header grammar, or none |
| `EventStream.HeaderLength` | eventstream/src/decode.c:70-125 | the length of a checked header lies within the section |
| `EventStream.HeaderNext` | eventstream/src/decode.c:221-273 | the unchecked iterator yields the header whose encoding it passes over and stays within the section |
| `EventStream.ReadHeaders` | eventstream/src/decode.c:221-273 | iterating an accepted section yields exactly the counted headers, whose encoding is the section |
| `EventStream.CheckedIsInside` | eventstream/src/decode.c:70-125 | whatever passed the header check is safe for the unchecked iterator |
| `EventStream.ChainedCrc` | eventstream/src/decode.c:160-175 | the checksum continued from the prelude is the checksum of the whole message |
| `EventStream.ReceiverAcceptsExactlyPackets` | eventstream/src/decode.c:31-219 | for every byte string the receiver accepts exactly the packets of the format |
| `EventStream.HeadersInjective` | eventstream/src/encode.c:26-101 | different header lists have different encodings |
| `EventStream.RoundTrip` | eventstream/src/encode.c:103-178 | what the encoder writes is received with the same headers and payload |
| `ObjectSerde.Serialize` | core-bus/src/object_serde.c:417-463 | the explicit stack writes exactly the recursive encoding, and succeeds exactly when it fits, nests at most 14 deep and has 32-bit lengths; each error only for its reason |
| `ObjectSerde.WriteEntry` | core-bus/src/object_serde.c:430-459 | one round writes the next key and head and moves the stack on, or fails exactly for the stated reasons |
| `ObjectSerde.WriteObj` | core-bus/src/object_serde.c:351-377 | tag and value or length, and a push for a collection |
| `ObjectSerde.WriteBuf` | core-bus/src/object_serde.c:139-157 | length-prefixed bytes, or the error that applies |
| `ObjectSerde.EntryProgress` | core-bus/src/object_serde.c:423-459 | written bytes and pending levels always make up the encoding, and every round makes progress |
| `ObjectDecode.Deserialize` | core-bus/src/object_serde.c:465-523 | reads exactly the objects of the format, with no trailing bytes, exactly when the nesting fits the stack and the memory suffices, with copied buffers and the padding before each collection; the allocator ends at the index that the object determines |
| `ObjectDecode.ReadEntry` | core-bus/src/object_serde.c:478-517 | one round fills the slot that was promised next and keeps the others promised |
| `ObjectDecode.AdvancePromises` | core-bus/src/object_serde.c:478-517 | filling a slot leaves all other promises as they were |
| `ObjectDecode.FillsKeeps` | core-bus/src/object_serde.c:234-349 | what is held stays held while the memory is filled |
| `ObjectDecode.DecodedOf` | core-bus/src/object_serde.c:379-415 | decoding undoes encoding, for every object and whatever bytes follow |
| `ObjectDecode.WritableIsReadable` | core-bus/src/object_serde.c:41-50 | whatever nests shallowly enough to be written can be read back |
| `ObjectDecode.RoundTrip` | core-bus/src/object_serde.c:417-523 | whatever the writer accepts is read back as the same object exactly when the memory suffices, with or without copying |
| `ObjectDecode.UncopiedNeed` | ggl-lib/src/bump_alloc.c:10-27 | without copies nothing is padded: an object takes exactly the bytes of its slots |
| `JsonGrammar.ParseTakesPrefix` | ggl-json/src/json_decode.c:51-243 | whatever parser is built from the combinators, a call that returns leaves the buffer alone or takes a prefix of it |
| `JsonGrammar.CodepointLength` | ggl-json/src/json_decode.c:272-322 | exactly the bytes from the space to DEL except quote and backslash are taken as a character; no multi-byte sequence is |
| `JsonGrammar.OnStrBody` | ggl-json/src/json_decode.c:251-344 | the string parser stops exactly after the longest run of characters and escapes |
| `JsonGrammar.OnNumber` | ggl-json/src/json_decode.c:346-373 | the number parser takes exactly the longest number and reports its text |
| `JsonGrammar.OnEntries` | ggl-json/src/json_decode.c:395-434 | repetition, lookahead and counting of entries find exactly the entries and their number |
| `JsonGrammar.OnAlternatives` | ggl-json/src/json_decode.c:445-457 | trying the alternatives in order is running the one that the first byte selects |
| `JsonGrammar.OnTree` | ggl-json/src/json_decode.c:445-457 | running the self-referential grammar always returns, accepts exactly what the recogniser accepts, stops there and reports type, content, the place of the content and count |
| `JsonTree.ReadTreeSound` | ggl-json/src/json_decode.c:445-457 | what is recognised is the text of a well-formed syntax tree followed by the rest |
| `JsonTree.ReadTreeOf` | ggl-json/src/json_decode.c:445-457 | the text of every well-formed tree is recognised as that tree wherever a value may end |
| `JsonTree.AcceptsExactlyTrees` | ggl-json/src/json_decode.c:795-811 | a text is accepted as a whole exactly when it is the text of a well-formed tree, and of only one |
| `JsonSyntax.ReadNumberOf` | ggl-json/src/json_decode.c:346-373 | the text of every number is read back as that number |
| `JsonUnescape.UnescapeString` | ggl-json/src/json_decode.c:604-621 | decoding in place gives the string denoted by the text exactly when the text has no `\uXXXX` escape; if the first escape is one, its value is copied on over the rest of the text and as many bytes behind it as the value has, byte for byte, which leaves the memory exactly when there are fewer; any other text changes nothing outside it |
| `JsonUnescape.HandleEscape` | ggl-json/src/json_decode.c:526-602 | one escape keeps the account of what has been read and written, or the text is not one that can be decoded |
| `JsonUnescape.UnicodeRound` | ggl-json/src/json_decode.c:526-562 | after a `\uXXXX` escape writing runs ahead of reading for good, stays behind it, or the text is refused |
| `JsonUnescape.WindowMisses` | ggl-json/src/json_decode.c:531-535 | the four digits are looked for behind the write position, where there are none if anything was shortened shortly before |
| `JsonUnescape.UnicodeExample` | ggl-json/src/json_decode.c:526-562 | a concrete body with a `\uXXXX` escape that denotes one letter |
| `JsonUnescape.SpillExample` | ggl-json/src/json_decode.c:526-562 | the whole text `"\u0800"`: decoding writes over the closing quote and two bytes behind the end |
| `JsonUnescape.SimpleFirst` | ggl-json/src/json_decode.c:604-621 | a text without `\uXXXX` escapes spills nothing |
| `JsonUnescape.EchoRound` | ggl-json/src/json_decode.c:613-616 | while writing is ahead, each byte copied continues the repetition |
| `JsonUnescape.EchoesIs` | ggl-json/src/json_decode.c:613-616 | bytes that each repeat the one a value-length earlier are the value repeated, to any length |
| `JsonUnescape.DenotesShrinks` | ggl-json/src/json_decode.c:491-524 | what a body denotes is never longer than the body |
| `JsonDecode.TakeVal` | ggl-json/src/json_decode.c:763-793 | in the one buffer that holds the whole text, the second pass takes exactly the value that the first pass recognised; the result, also an error, and the bytes spoilt behind it are those of the run of its tree; nothing in front changes |
| `JsonDecode.TakeStr` | ggl-json/src/json_decode.c:623-632 | a string is decoded where it stands; the write leaves the memory exactly when what its first escape spills has no room |
| `JsonDecode.DecodeEntries` | ggl-json/src/json_decode.c:670-760 | the entries of a collection are decoded where they stand, in order and with the memory threaded through; result and spoilt bytes are those of the run of the entries, and without `\uXXXX` escapes nothing behind the collection changes |
| `JsonDecode.DecodeEntry` | ggl-json/src/json_decode.c:727-756 | one member or element, exactly as its run says, and where the next begins |
| `JsonDecode.DecodeKey` | ggl-json/src/json_decode.c:728-744 | the key and the colon behind it; refused exactly when the key cannot be decoded or its bytes spill onto the colon |
| `JsonDecode.PlainRun` | ggl-json/src/json_decode.c:670-793 | without `\uXXXX` escapes a run yields the value of its tree and spoils nothing |
| `JsonDecode.EscapeMisreads` | ggl-json/src/json_decode.c:526-793 | a run of a tree with a `\uXXXX` escape that does not fail yields another value than the tree has |
| `JsonDecode.MisreadAt` | ggl-json/src/json_decode.c:670-760 | one entry that is misread makes the whole collection wrong, whatever the rest yields |
| `JsonDecode.DecodeNumber` | ggl-json/src/json_decode.c:634-665 | an integer in range, a double, or a range error, as the number says |
| `JsonDecode.DecodeDestructive` | ggl-json/src/json_decode.c:795-811 | the text of a tree ends in exactly the result of its run, with the memory behind it; without `\uXXXX` escapes that is the value of the tree and nothing behind the text changes, with one an error or some other value; a text that is no tree fails |
| `JsonDecode.DecodesExactly` | ggl-json/src/json_decode.c:670-793 | an accepted value is decoded exactly when its numbers are in range and the memory suffices, using exactly that memory; syntax is never at fault |
| `JsonEvents.FirstFailureDecides` | ggl-json/src/json_decode.c:670-811 | the strings, numbers and allocations of a text in order, each with the bytes behind it: the first that fails is the error that decoding ends with, and if none does it succeeds with the memory that is left |
| `JsonEvents.LeavesExactly` | ggl-json/src/json_decode.c:526-632 | for every text, with strings at any depth: decoding writes behind the end of the memory exactly when some string spills more bytes than follow it and everything in front of it succeeds |
| `JsonEvents.NodePlays` | ggl-json/src/json_decode.c:670-793 | the same for a value inside a text, with the bytes behind it that are not read any more |
| `Int64Text.StrToInt64` | ggl-lib/src/buffer.c:62-112 | digit-by-digit parsing with overflow checks gives the number exactly when it is in range, and the right error otherwise |
| `Int64Text.Int64Of` | ggl-lib/src/buffer.c:74-112 | accepted exactly when the text is an optional sign and digits and the number is in range |
| `Int64Text.DecimalValue` | ggl-json/src/json_encode.c:47-59 | parsing undoes printing for every integer |
| `JsonWriter.Encode` | ggl-json/src/json_encode.c:207-215 | succeeds exactly when the text fits, and gives its length and bytes |
| `JsonWriter.WriteObj` | ggl-json/src/json_encode.c:186-205 | an object is written exactly when it fits; only a number ending at the end of the buffer loses its last byte |
| `JsonWriter.WriteCollection` | ggl-json/src/json_encode.c:121-183 | brackets, commas, keys and values in order |
| `JsonWriter.WriteStr` | ggl-json/src/json_encode.c:75-118 | quotes and escapes byte by byte give exactly the escaped text |
| `JsonWriter.Print` | ggl-json/src/json_encode.c:47-59 | a printed number that exactly fills the buffer is reported as written although its last byte is a NUL |
| `JsonWriter.WroteBoth` | ggl-json/src/json_encode.c:19-29 | a byte lost at the end of the buffer is never followed by a piece that fits |
| `JsonWriter.ShownIsEncoded` | ggl-json/src/json_encode.c:47-59 | the output is the text of the object exactly unless the object is one integer whose digits fill the buffer |
| `JsonEncode.RoundTrip` | ggl-json/src/json_encode.c:186-215 | an object without floating point numbers has a text that is accepted and free of `\uXXXX` escapes exactly when all its strings are printable ASCII, and then its tree has that object as its value |
| `JsonRoundTrip.RoundTrip` | ggl-json/src/json_encode.c:207-215 | encoding an object into a buffer and decoding what stands there gives the object back exactly when all its strings are printable ASCII, it is not one integer that fills the buffer, and the memory suffices |
| `JsonRoundTrip.DecodesOwnText` | ggl-json/src/json_decode.c:795-811 | whatever decoding the text of an object yields, it is that object exactly when all strings are printable ASCII and the memory suffices |
| `JsonRoundTrip.TreeEnd` | ggl-json/src/json_decode.c:445-457 | no accepted text ends in a NUL, so an integer that lost its last digit to one is refused |
| `JsonEncode.EscapedIsSimple` | ggl-json/src/json_encode.c:75-118 | a string is written as an acceptable body exactly when it is ASCII, which then stands for the string, and without `\uXXXX` escapes exactly when it is printable |
| `JsonEncode.TreeIsAscii` | ggl-json/src/json_decode.c:272-322 | no accepted text has a byte outside ASCII |
| `JsonEncode.NodeRoundTrip` | ggl-json/src/json_encode.c:186-205 | the tree of an object with ASCII strings stands for the object, which takes exactly the memory it needs |
| `SocketPool.Pool.RegisterFd` | ggl-socket/src/socket_handle.c:70-115 | the first free slot takes the descriptor; each error exactly when it applies; a failed callback leaves the pool as it was |
| `SocketPool.Pool.ReleaseHandle` | ggl-socket/src/socket_handle.c:117-159 | an accepted handle frees its slot, gives back the descriptor in it and advances the generation; otherwise nothing changes |
| `SocketPool.Pool.CloseHandle` | ggl-socket/src/socket_handle.c:223-235 | closing releases and closes what was in the slot; no descriptor is closed more often than it was registered |
| `SocketPool.Pool.Validate` | ggl-socket/src/socket_handle.c:31-50 | the two refusals and acceptance as slot and generation say, including a zero low half |
| `SocketPool.HandleParts` | ggl-socket/src/socket_handle.c:16-29 | slot and generation are read back from every handle |
| `SocketPool.AcceptedIff` | ggl-socket/src/socket_handle.c:31-50 | an issued handle is accepted exactly when its slot has since been released a multiple of 65536 times |
| `SocketPool.LiveOnly` | ggl-socket/src/socket_handle.c:16-50 | before the generation wraps exactly the live handles are accepted, each for its own descriptor |
| `SocketPool.LiveHandlesDiffer` | ggl-socket/src/socket_handle.c:16-29 | no two live registrations have the same handle |
| `SocketPool.RunKeeps` | ggl-socket/src/socket_handle.c:70-159 | over every run through issued handles each registered descriptor is in a slot or has been returned, as often as it was registered |
| `BusServer.RunIsSafe` | core-bus/src/server.c:109-482 | in every state of every interleaving each connection carries frames one after the other, nothing after a response or an error, and events only after a whole acceptance; only the last frame can be incomplete unless a socket refused bytes in the middle of one |
| `BusServer.StepKeeps` | core-bus/src/server.c:109-482 | every step of the dispatcher, of event senders and of the environment keeps the invariant on locks, replies, the current handle and streams |
| `BusServer.WriterMay` | core-bus/src/server.c:353-482 | whoever writes holds the lock and finds the stream free of unfinished frames of others, of replies and, for an event, with a whole acceptance |
| `BusServer.ReplyKeeps` | core-bus/src/server.c:291-321 | the one reply to a request is started only on a connection without one |
| `BusServer.CallKeeps` | core-bus/src/server.c:117-159 | waiting, locking, closing, unlocking and clearing keep the invariant: an event stops waiting only after its request was handled, and that is over only when an acceptance was sent or the connection is closed |
| `BusServer.Locally` | core-bus/src/server.c:109-482 | a step that touches one connection and one call on it leaves every other connection and call as the invariant has it |
| `BusServer.TornFrame` | core-bus/src/server.c:444-482 | the lock is released before the connection is closed, so an event can follow a torn one if the socket still takes bytes |
| `BusServer.TornExactly` | core-bus/src/server.c:353-482 | over every run, a connection carries an unfinished frame before another exactly when a socket refused bytes within a frame while the connection stayed open, and was written to again |
| `BusServer.TornRun` | core-bus/src/server.c:444-482 | a run from the initial state that ends with such a frame |
| `ConfigStore.Store.WriteValue` | ggconfigd/src/db_interface.c:640-766 | accepted exactly when no value lies above or below; the configuration changes as the timestamps say; a refused or older write changes nothing and tells nobody; an applied one tells each subscription to a key on the path exactly once |
| `ConfigStore.Store.CreateKeyPath` | ggconfigd/src/db_interface.c:470-548 | the missing keys are created below the existing ones, refused exactly when a key on the way has a value |
| `ConfigStore.Store.NextKey` | ggconfigd/src/db_interface.c:500-545 | the next key is found, or created with a new id and path |
| `ConfigStore.GetKeyIds` | ggconfigd/src/db_interface.c:403-461 | the ids from the root to the key, found exactly when the whole path exists |
| `ConfigStore.FindRoot` | ggconfigd/src/db_interface.c:247-280 | the root with a name, or none exactly when there is none |
| `ConfigStore.FindChild` | ggconfigd/src/db_interface.c:190-244 | the child with a name, or none exactly when there is none |
| `ConfigStore.Store.NotifyNestedKey` | ggconfigd/src/db_interface.c:629-638 | the subscribers of the keys on the path, from the root down |
| `ConfigStore.NoticesAreExact` | ggconfigd/src/db_interface.c:575-638 | telling the keys on a path tells exactly the subscribers of keys on it, once per subscription |
| `ConfigStore.ReadKey` | ggconfigd/src/db_interface.c:813-893 | what is read shows exactly the configuration at and below the key, exactly when every allocation succeeds; the read itself succeeds exactly when the allocations of the key and of the names of its children do, each numbered right behind the allocations of the child before it; each value is right or missing |
| `ConfigStore.ReadLosesValue` | ggconfigd/src/db_interface.c:881-881 | a table and a failing allocation for which the read succeeds and the only value is missing |
| `ConfigStore.ReadsBack` | ggconfigd/src/db_interface.c:813-893 | looking up a path in what was read is looking it up in the configuration |
| `ConfigStore.PartlyReadsBack` | ggconfigd/src/db_interface.c:813-893 | nothing found in what was read, even incompletely, is wrong |
| `ConfigStore.Store.GetValue` | ggconfigd/src/db_interface.c:895-921 | nothing is found exactly when no value lies at or below the path; otherwise what is read is exact exactly when memory suffices throughout, and the read succeeds exactly when the allocations of the key itself and of the names of its children succeed, which a trace of the read numbers |
| `ConfigStore.Store.Subscribe` | ggconfigd/src/db_interface.c:923-972 | a handle is subscribed to the key of the path exactly when it exists |
| `ConfigTables.AddRootKeeps` | ggconfigd/src/db_interface.c:247-280 | a new root keeps the forest and the configuration |
| `ConfigTables.AddChildKeeps` | ggconfigd/src/db_interface.c:500-520 | a new child keeps the forest, distinct sibling names and the configuration |
| `ConfigTables.SetValueKeeps` | ggconfigd/src/db_interface.c:663-668 | a value at a key without children keeps the forest, and every key has a value or a child, never both |
| `ConfigTables.ShownIsPrefixFree` | ggconfigd/src/sql/create_db.sql:1-24 | in the tables no value lies above another |
| `ConfigTables.ExistingAccepts` | ggconfigd/src/db_interface.c:689-716 | an existing key has a value exactly when it has no child, and only then may be written |
| `ConfigTables.MissingAccepts` | ggconfigd/src/db_interface.c:470-548 | a missing path may be written exactly when no key on the way has a value |
| `ConfigMap.LastWriterWins` | ggconfigd/src/db_interface.c:737-766 | after any run each path holds the latest among its accepted writes with the greatest timestamp, and has a value exactly when a write was accepted |
| `ConfigMap.RunIsPrefixFree` | ggconfigd/src/db_interface.c:640-766 | no run puts a value above or below another |
| `ConfigMap.MergesCommute` | ggconfigd/src/db_interface.c:737-766 | compatible groups of writes with different timestamps commute |
| `ConfigMap.CompatibleRun` | ggconfigd/src/db_interface.c:640-766 | compatible writes are all accepted and each path goes its own way |
| `ConfigMerge.ProcessMap` | ggconfigd/src/db_corebus.c:197-221 | a map is merged key by key, depth first, up to the first value that cannot be stored, at the paths that a key path of at most 15 elements leaves; they are the intended ones if the path and the nesting together stay within 15 |
| `ConfigMerge.EntriesLaidOutExactly` | ggconfigd/src/db_corebus.c:197-221 | under a non-empty path the entries of a map are stored at the intended paths, and the path is restored, exactly when its length and the nesting together are at most 15; otherwise elements of the path itself are lost |
| `ConfigMerge.LaidOutExactly` | ggconfigd/src/db_corebus.c:203-218 | the same for one value at its path |
| `ConfigMerge.RootEntries` | ggconfigd/src/db_corebus.c:197-221 | at the root the path is always restored, so each entry is stored as if it were alone |
| `ConfigMerge.TooDeep` | ggconfigd/src/db_corebus.c:203-218 | at a path of 15 elements the first value of a map is stored at the path itself and the second beside it, not below it |
| `ConfigMerge.ProcessNonmap` | ggconfigd/src/db_corebus.c:161-191 | any other object is stored as its JSON text, if that fits 1024 bytes and the path is free |
| `ConfigMerge.MergeIsRun` | ggconfigd/src/db_corebus.c:197-221 | a merge of compatible shape whose texts fit succeeds and is the run of its writes |
| `ConfigMerge.ObjectMergesCommute` | ggconfigd/src/db_corebus.c:197-221 | two merges that fit together, made at different times, give the same configuration in either order |
| `DeploymentQueue.Ring.EnqueueDeployment` | ggdeploymentd/src/deployment_queue.c:263-311 | a new deployment is appended, a queued one with the same id replaced in place; refused exactly when in progress or full; if the copy does not fit, what fitted is read under the old lengths, in the record that was to be replaced or in a newly taken slot with the state left over in it |
| `DeploymentQueue.Ring.DequeueDeployment` | ggdeploymentd/src/deployment_queue.c:313-326 | the head is marked and handed out, nothing else changes |
| `DeploymentQueue.Ring.ReleaseDeployment` | ggdeploymentd/src/deployment_queue.c:328-335 | the head is removed |
| `DeploymentQueue.Ring.GetMatching` | ggdeploymentd/src/deployment_queue.c:40-49 | the slot of the first deployment with the id, exactly when there is one |
| `DeploymentQueue.RunIsOrdered` | ggdeploymentd/src/deployment_queue.c:263-335 | in every run whose copies fit, ids are distinct, only the head is in progress, and deployments leave in the order in which they entered |
| `DeploymentQueue.InProgressIsStable` | ggdeploymentd/src/deployment_queue.c:281-326 | a deployment in progress stays as it is until released |
| `DeploymentQueue.AcceptedIsProper` | ggdeploymentd/src/deployment_queue.c:281-306 | an accepted deployment keeps ids distinct and the head in progress untouched |
| `DeploymentQueue.SpoiltIsProper` | ggdeploymentd/src/deployment_queue.c:281-306 | after a copy that did not fit the queue is proper exactly when the record was to be replaced, or no deployment has the id that now stands in the new slot and it is not marked in progress behind the head |
| `DeploymentQueue.SpoiltId` | ggdeploymentd/src/deployment_queue.c:281-306 | a record with an id as long as the new one reads with the new id after a copy that did not fit |
| `DeploymentQueue.SpoilsTwice` | ggdeploymentd/src/deployment_queue.c:281-306 | two deployments that do not fit, in two slots never used, leave two records with the same empty id |
| `Subscriptions.Table.Register` | iotcored/src/subscription_dispatch.c:47-93 | all filters go into the first free slots or, with the exact error, the active slots stay as they were |
| `Subscriptions.Table.Unregister` | iotcored/src/subscription_dispatch.c:96-132 | the slots of the handle become inactive, and the broker is told of exactly the filters that are no longer active, and of an empty filter exactly when a slot of the handle was inactive before |
| `Subscriptions.Table.Reconnect` | iotcored/src/subscription_dispatch.c:184-203 | undisturbed, every active filter is requested again and refused ones lose their slot; the broker has been asked for exactly the active filters |
| `Subscriptions.Table.Resubscribe` | iotcored/src/subscription_dispatch.c:184-203 | every active filter is requested and refused ones lose their slot, whatever was requested before |
| `Subscriptions.Table.Subscribe` | iotcored/src/bus_server.c:156-169 | undisturbed, all filters are active and requested, or nothing has changed; the broker has been asked for exactly the active filters |
| `Subscriptions.Table.IsHeldElsewhere` | iotcored/src/subscription_dispatch.c:101-118 | whether another active slot has the same filter |
| `Subscriptions.ClearedFilters` | iotcored/src/subscription_dispatch.c:99-130 | clearing a slot ends a filter exactly when no other active slot holds it |
| `Subscriptions.FilledAdds` | iotcored/src/subscription_dispatch.c:64-82 | registering adds exactly the given filters |
| `Subscriptions.UndoRegister` | iotcored/src/subscription_dispatch.c:84-90 | dropping a fresh handle undoes its registration |
| `SubscriptionRuns.InStepExactly` | iotcored/src/bus_server.c:156-169 | over every interleaving of registrations, requests, rollbacks and reconnections, with closes between requests: when nothing is going on, the requested filters are exactly the active ones unless a step has stranded some and none since has ended that |
| `SubscriptionRuns.StrayExactly` | iotcored/src/bus_server.c:156-169 | over every run, the broker has a filter that nobody holds exactly when some step has stranded it and no later one has ended that |
| `SubscriptionRuns.StrayStep` | iotcored/src/bus_server.c:156-169 | exactly which steps make a filter stray and which end it |
| `SubscriptionRuns.RollbackStrands` | iotcored/src/bus_server.c:156-169 | in every run, a rollback strands a filter exactly when its handle alone holds it and, since the registration, the table was subscribed again with no later session, or the filter was stray at the registration and no session has begun |
| `SubscriptionRuns.RequestStrands` | iotcored/src/bus_server.c:156-169 | in every run, a granted request strands one of its filters exactly when a reconnection since the registration has cleared all slots that held it |
| `SubscriptionRuns.ResubscribeStrands` | iotcored/src/mqtt.c:322-342 | in every run, subscribing the table again strands a filter exactly when all its slots are refused and it was asked for earlier and not forgotten since |
| `SubscriptionRuns.RequestedExactly` | iotcored/src/mqtt.c:322-342 | in every run, a filter counts as requested exactly when some step asked for it and no later one began a session or ended its last holder |
| `SubscriptionRuns.NoneForgotten` | iotcored/src/subscription_dispatch.c:184-203 | over every run, when nothing is going on, every active filter is requested |
| `SubscriptionRuns.UndisturbedIsInStep` | iotcored/src/bus_server.c:156-169 | if nothing reconnects while a request is handled, the requested filters are exactly the active ones whenever nothing is going on |
| `SubscriptionRuns.ReconnectStrands` | iotcored/src/mqtt.c:322-342 | a run in which a reconnection requests a filter whose own request is then refused: the broker keeps it and nobody holds it |
| `Base64.Decode` | ggl-lib/src/base64.c:99-124 | succeeds exactly on canonical texts whose room suffices and yields their bytes, also when text and target are the same buffer |
| `Base64.DecodeSegment` | ggl-lib/src/base64.c:30-97 | four characters give one to three bytes exactly when digits, padding and unused bits are right |
| `Base64.Encode` | ggl-lib/src/base64.c:129-165 | the text of the bytes, or nothing exactly when it does not fit |
| `Base64.DecodeOfEncode` | ggl-lib/src/base64.c:99-165 | decoding undoes encoding for every byte string |
| `Base64.EncodeOfDecode` | ggl-lib/src/base64.c:99-165 | only canonical texts are accepted: encoding gives the text back |

## Left out

- Resolver.ResolveDependencies: the memory of the caller's allocator, reading recipes from disk, and the cloud are not modelled; recipes, stored versions and cloud answers are parameters, the cloud is taken to answer within the requested range, and the roots of the deployment are not empty (the source asserts it) and have distinct names.
- Semver.IsInRange: `strverscmp` is a parameter, and the byte that follows the requirement buffer is one too.
- PacketStore.Store.StorePacket: packet ids are not zero, as in MQTT.
- PacketStore.RunKeepsPackets: covers runs in which packets are non-empty and no id is stored twice while live, which the MQTT library guarantees; single calls are covered without this.
- EventStream.Encode: the payload reader is its result; readers that write and then fail are one case.
- ObjectDecode.Deserialize: a bump allocator is given (a missing one is not modelled), and a copied buffer is its bytes, not its place in memory.
- JsonDecode.TakeVal: strings of the result are copied when they are decoded instead of pointing into the buffer; for texts without `\uXXXX` escapes later decoding leaves them alone, by its own contract. The grammar runs on a copy of the unread part. What a write behind the end of the memory destroys is not modelled; decoding ends there.
- JsonDecode.DecodeDestructive: for a text that is not one value with nothing behind it, it says that decoding fails, not with which error; `strtod` is a parameter.
- JsonRoundTrip.RoundTrip: floating point numbers are left out, because `strtod` and `%g` are parameters.
- SocketPool.Pool.RegisterFd: reading, writing and the recursive mutex are not modelled; callbacks are their answers.
- BusServer.RunIsSafe: each connection makes one request, and handles are not reused; decoding of requests and the calls of close callbacks are left out.
- ConfigStore.Store.WriteValue: failures of the database itself are not modelled, and paths are not empty; vectors of key ids hold 15 elements in the code, which every path that merging builds fits; `value_insert` is taken to succeed, since its result is ignored.
- ConfigStore.ReadKey: the allocator is a sequence of answers; the order of children is arbitrary.
- DeploymentQueue.Ring.DequeueDeployment: waiting for a deployment is a precondition; parsing of deployment documents and the lock are left out, and a release is one step.
- DeploymentQueue.Ring.EnqueueDeployment: everything of a deployment but its id is the bytes of one document, without padding between the copies.
- Subscriptions.Table.Register: the handle owns no active slot yet and at least one filter is given, as the one caller ensures.
- Subscriptions.Table.Subscribe: nothing comes between its three steps, which `SubscriptionRuns` takes apart; argument checks before the table is touched, the limit on the number of filters of a request, delivery of messages and the status table are left out; the four parallel arrays are one array of records.
- SubscriptionRuns.StrayExactly: an unsubscribe request counts as made, since its result is ignored; requests to the broker are atomic, although they share one static array; registrations that are refused change no active slot and are no steps.
- Recipe parsing, component life cycles, IPC handlers, HTTP, TLS, fleet provisioning, logging and the unit generator: left out, being input and output or only adding easy members.
