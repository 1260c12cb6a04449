# A verified model of the nps core

nps is a reverse tunnel: clients behind a NAT keep a connection to a public server, and
the server forwards tcp, udp, http, https and socks5 traffic to targets that the clients
can reach. This project models the parts of it in which something can go wrong quietly:
small protocols between client and server, shared counters, parsers, caches and the
registry, and proves what they promise.

| files | what they model |
|---|---|
| `HealthProtocol`, `HealthFraming`, `HealthReports`, `HealthAgreement`, `Targets`, `TargetRace` | health checks: the client counts failures and sends "0"/"1" messages, the server edits its target lists, round robin picks among what is left |
| `RateLimiter` | the token bucket, with any number of callers beside the refilling goroutine |
| `LruCache`, `LruHistory` | the least-recently-used cache: a list and a map, and what it holds after any history |
| `ClientHello`, `ClientHelloGrammar` | the TLS ClientHello parser against the grammar of section 7.4.1.2 of RFC 5246 and section 3 of RFC 6066 |
| `SocksUdp` | UDP datagrams of section 7 of RFC 1928, with the extension that makes them self-delimiting on a stream |
| `ByteStreams`, `Handshake` | the verification of a new connection as two programs on two byte streams |
| `VirtualHosts`, `JsonDb` | the registry of hosts, the choice of a host for a request, and the files |
| `PortShuffle`, `Ports`, `TaskExpansion` | port arithmetic: random order, lists and ranges, one task per port |
| `Replay` | connections that replay bytes somebody has peeked at |
| `FlowTotals`, `Admission`, `Handlers` | traffic totals; the limit on connections and the handlers that keep it |
| `Common`, `Text`, `LittleEndian` | shared types and small functions, `strings.Split` and its laws, int32 lengths |

Code that changes state is modelled by methods on classes with the same fields, loops
included, and each method is proved to compute a specification function on values. What
the system promises is then proved about those functions: for every input, every run
and, where goroutines meet, every interleaving.

Places where the code does not do what its surroundings expect are kept as they are. For
each there is a run or input that shows it and the exact condition under which it does
not happen: `HealthAgreement.MissingAtStart` and `AgreementExactly`,
`HealthAgreement.RepeatedLineStays` and `AgreementExactlyWhenNotRepeated`,
`HealthAgreement.DownAndUpIsLive` with `ForeignTargetExactly` and `OwnTargetsExactly`,
`HealthAgreement.BlankLineIsPicked` with `BlankTargetExactly` and `OfflineExactly`,
`HealthFraming.EndingConditionNeeded` and `FrameRoundTrip`,
`TargetRace.OneRemovalIsEnough` with `OneRemovalExactly` and `OutOfRangeExactly`,
`SocksUdp.WriteHeader`, whose outcome names the domains that are too long,
`VirtualHosts.AllJoinsHttp` and `OrderMattersExactlyWhenShadowed`,
`TaskExpansion.SecretTaskWithPort` and `InRangeExactlyWhenEnoughTargets`,
`Replay.PeekIsTransparent`, and `Replay.SecondShortReadRepeats` and `PortConnExactly`.

`dafny verify dfyconfig.toml` checks everything.

## Model

| member | source | states |
|---|---|---|
| HealthProtocol.TrimArr | lib/common/util.go:345-353 | the list without its empty strings, in order |
| HealthProtocol.IsArrContains | lib/common/util.go:356-366 | true exactly for members |
| HealthProtocol.RemoveArrVal | lib/common/util.go:369-377 | only the first occurrence goes, the order stays |
| HealthProtocol.Watched.Receive | bridge/bridge.go:95-152 | what one message does to one task or host: load a nil or empty list, move the target between the live and the removed list |
| HealthProtocol.GetHealthFromClient | bridge/bridge.go:93-155 | one message updates every task and host of the client, each as Receive says, and nothing else |
| HealthProtocol.MessageReaches | bridge/bridge.go:97-152 | field by field: a message reaches every host and every tcp task of its client and nothing else; a "0" takes the first copy of a text that occurs out, a "1" puts a remembered text that is not live back at the end, anything else changes nothing |
| HealthProtocol.HealthRecord.Check | client/health.go:67-102 | a pass over the targets leaves the counters and sends the messages that counting alone determines |
| HealthAgreement.MessageEffect | bridge/bridge.go:97-152 | for any entry and any text: a "0" for a text that occurs takes one copy of it out and is remembered once more, even if it repeats an earlier one; a "1" puts one copy back exactly if the text is remembered and not live, and is then forgotten once; no other text loses or gains a copy unless the list is loaded; any other message changes nothing |
| HealthAgreement.CounterCrossing | client/health.go:87-99 | a message is sent when the counter crosses the limit, so the last message always tells on which side it is |
| HealthReports.ReportsExactly | client/health.go:87-99 | in every run: a failed check sends a "0" exactly if it makes the failures since the last "1" a multiple of the limit, a successful one sends a "1" exactly if they have reached it, and nothing else is sent |
| HealthReports.QuietExactly | client/health.go:87-99 | behind a "1", or from a fresh counter, nothing is sent about a target if and only if fewer of its checks than the limit fail, whatever successes, messages and checks of other targets lie between |
| HealthReports.LimitIsReported | client/health.go:96-99 | the failure that reaches the limit then sends exactly one "0" |
| HealthReports.LastUp | client/health.go:90-94 | every run whose last message about a target is a "1" is covered by that: it is a run that ends with this "1", and steps that sent nothing |
| HealthAgreement.SentTells | client/health.go:87-99 | in every run: something has been sent about a target exactly if it has been at its limit, a "0" comes first, and the last message tells on which side of the limit the counter is |
| HealthAgreement.LinkConserves | client/health.go:67-102 | in every run: what was sent about a text is what was received about it followed by what is in flight |
| HealthAgreement.CopiesFollowReports | bridge/bridge.go:93-155 | in every run, for every text that occurs: its live copies are those the list began with, changed by the messages received about it and by nothing else, whatever is reported, loaded or picked meanwhile |
| HealthAgreement.PassIsChecks | client/health.go:67-102 | a pass of a health record is the sequence of single checks used in the runs: same counters, same messages, same order |
| HealthAgreement.UpIsLiveExactly | bridge/bridge.go:93-155 | from any lists on the server and for any text, once all messages are consumed: a monitored text that occurs, line or not, repeated or not, is handed out while it is up if and only if the list began with it or the client has seen it at its limit since |
| HealthAgreement.AgreementExactly | bridge/bridge.go:93-155 | for a target that neither text nor list holds twice, the two sides agree in both directions under the same condition; nothing is asked of other lines |
| HealthAgreement.EmptyListLoadsExactly | bridge/bridge.go:102-104 | a list that starts empty stays so exactly until the client has seen some text that occurs in the target text at its limit |
| HealthAgreement.MissingAtStart | bridge/bridge.go:102-104 | a concrete empty list, and the list a host has after a restart, with a line that is up for the client and not handed out, until it has been down and up |
| HealthAgreement.Agreement | bridge/bridge.go:93-155 | from a list that has not been loaded, in every run and for whatever texts the client reports: once all messages are consumed, a monitored line that the text does not repeat is live on the server exactly when the client's counter is below the limit |
| HealthAgreement.RepeatedLineStays | lib/common/util.go:369-377 | a monitored line that the text holds twice or more: after as many failures as the limit and the delivery of the "0" it is still handed out, since one copy goes at a time |
| HealthAgreement.AgreementExactlyWhenNotRepeated | lib/common/util.go:369-377 | so the two sides agree about a line in every run if and only if the text holds it once |
| HealthAgreement.ListsStayConsistent | bridge/bridge.go:97-152 | in every run, in flight or not: never more live copies than text or list had at the start, one being allowed to any text that occurs; and from a list that has not been loaded every line is live or remembered as removed |
| HealthAgreement.OwnTargetsExactly | bridge/bridge.go:100 | the server hands out pieces of its text only, in every run, exactly when every text reported is a piece of it or does not occur in it |
| HealthAgreement.ForeignTargetExactly | bridge/bridge.go:100-109 | in a given run, once all messages are consumed: a reported text that occurs but is no piece is handed out as a target of its own exactly when it has been at its limit and is below it again |
| HealthAgreement.DrainAgrees | bridge/bridge.go:93-155 | from every reachable state, delivering what is in flight brings both sides into agreement about a target that is not repeated, under the condition of AgreementExactly |
| HealthAgreement.RecoversAfterOneSuccess | client/health.go:90-94 | one successful check brings a target back, however often it was reported down and however often the text repeats it, if and only if the list began with it or it has been down since |
| HealthAgreement.RemovedAfterMaxFail | client/health.go:96-99 | as many failures in a row as the limit, times the copies that text or list held, take a target out, from every reachable state and whatever the lists were |
| HealthAgreement.OfflineExactly | lib/file/obj.go:200-202 | for every text: "all targets are offline" is reported exactly when the list is loaded and no copy is left of any piece, blank or not, or reported text that occurs, each decided by what loaded the list and by what the client has sent |
| HealthAgreement.PlainOfflineExactly | lib/file/obj.go:200-202 | without blank lines, repeated lines and partial reports: exactly when every line is monitored and over its limit |
| HealthAgreement.BlankTargetExactly | lib/file/obj.go:194-196 | the blank text is a target exactly while copies of it are left of those a pick has loaded, by the messages about it; if no health record has a blank target, exactly when the text has a blank line and the list was loaded by a pick, before any "0" |
| HealthAgreement.BlankLineIsPicked | lib/file/obj.go:194-199 | a concrete run in which every line is down and the pick answers the blank line |
| HealthFraming.GetWriteStr | lib/common/util.go:184-193 | every field followed by the separator |
| HealthFraming.RefusedExactly | lib/conn/conn.go:176-198 | a frame is refused exactly if it is too short, its length is not in 1..65536 or its body holds no separator; it means up exactly for "1" or "true" |
| HealthFraming.CleanIsSeparable | lib/conn/conn.go:192 | a field survives splitting exactly when it holds no separator and does not end in its first two characters |
| HealthFraming.FrameRoundTrip | lib/conn/conn.go:176-198 | a message reads back as itself, and leaves the rest of the stream alone, exactly when its target text is of that kind |
| HealthFraming.StreamRoundTrip | lib/conn/conn.go:176-198 | a stream of messages reads back as the same messages in order |
| HealthFraming.EndingConditionNeeded | lib/conn/conn.go:192-194 | a text ending in "*#" is read back wrongly although it holds no separator |
| Targets.Target.GetRandomTarget | lib/file/obj.go:193-210 | new index, loaded list and answer of one call; never out of range whatever the index was |
| Targets.PickAnswers | lib/file/obj.go:193-210 | an error exactly when the loaded list is empty, otherwise the member behind the index, and the first one from the last index on, also for an index past the end |
| Targets.HitCount | lib/file/obj.go:203-209 | how often k calls choose a given position, in closed form |
| Targets.RoundRobinFair | lib/file/obj.go:203-209 | k calls choose each of n positions floor(k/n) or ceil(k/n) times, n calls each exactly once |
| Targets.AnswersFollowPositions | lib/file/obj.go:193-210 | the answers of k calls are the targets at those positions |
| TargetRace.UndisturbedCallIsPick | lib/file/obj.go:193-210 | read by read, a call that no message disturbs gives the answer and new value of the call in one step |
| TargetRace.SafeWithoutRemoval | lib/file/obj.go:193-210 | with messages arriving between any two reads, none of which is a "0", the index never leaves the list |
| TargetRace.OutOfRangeExactly | lib/file/obj.go:193-210 | for a whole call, on a nil list or on any list whose members occur in the text: some messages between its reads make the index leave the list if and only if the entry is one that health messages are about |
| TargetRace.OneRemovalExactly | lib/file/obj.go:197-209 | for a whole call on any list: a single "0" between two reads can do that if and only if the entry is watched, some member occurs in the text, and the list has one member or its last index is next |
| TargetRace.OneRemovalIsEnough | lib/file/obj.go:197-209 | the schedule that does it: the "0" arrives just before the member is taken |
| TargetRace.RemovalIsLost | lib/file/obj.go:194-196 | a "0" between finding the list nil and storing the loaded list is lost: its target stays live |
| RateLimiter.Rate.constructor | lib/rate/rate.go:16-23 | an empty bucket of twice the refill |
| RateLimiter.Rate.Add | lib/rate/rate.go:29-35 | one refill, capped at the bucket's size |
| RateLimiter.Rate.Get | lib/rate/rate.go:47-63 | a lone caller of any size, watched for any number of refills: it is served after the first number of refills that suffices, and then subtracts its size; else it still waits |
| RateLimiter.RefilledIsCapped | lib/rate/rate.go:29-35 | k refills add k amounts up to the size of the bucket, for every surplus |
| RateLimiter.TwoRefillsFill | lib/rate/rate.go:29-35 | two refills fill the bucket exactly |
| RateLimiter.ServedExactlyWhenFits | lib/rate/rate.go:47-62 | a lone call is served sooner or later exactly when it fits the bucket, and then after at most two refills |
| RateLimiter.StepInv | lib/rate/rate.go:29-62 | every step of every interleaving keeps the bounds on surplus and bytes in flight |
| RateLimiter.SurplusBounds | lib/rate/rate.go:29-80 | in every interleaving the surplus is at most the bucket's size and, bytes in flight included, at least -(M-1) times the largest size that fits, the smaller of X and the bucket |
| RateLimiter.WindowBound | lib/rate/rate.go:29-80 | any window of any run with k refills lets through at most size + k refills + (M-1) times that size |
| RateLimiter.TooLargeNeverPasses | lib/rate/rate.go:47-62 | a call larger than the bucket passes in no reachable state |
| RateLimiter.BoundsAreAttained | lib/rate/rate.go:29-80 | for every refill, M, X and k some window lets through exactly that much and leaves the bucket overdrawn by exactly that much |
| LruCache.Cache.Add | lib/cache/lru.go:41-52 | the entry comes to the front with the new value, the oldest goes if there are too many; list and map agree |
| LruCache.Cache.Get | lib/cache/lru.go:55-61 | the value cached, and its entry at the front |
| LruCache.Cache.Remove | lib/cache/lru.go:64-68 | exactly that key goes |
| LruCache.Cache.RemoveOldest | lib/cache/lru.go:71-76 | exactly the last entry goes |
| LruCache.Cache.RemoveElement | lib/cache/lru.go:78-85 | list and map lose the same entry |
| LruCache.HoldsMostRecent | lib/cache/lru.go:41-61 | after any run the cache holds the N most recently touched distinct keys, in order of recency |
| LruCache.HoldsLastAdded | lib/cache/lru.go:41-61 | every cached value is the one added last |
| LruCache.RecencyIsReuseDistance | lib/cache/lru.go:41-61 | in front of a key stand exactly the keys touched since |
| LruCache.CachedExactlyWhenRecent | lib/cache/lru.go:41-61 | a lookup after any history of Add and Get: the last value added if fewer than N distinct keys were touched since, else nothing |
| LruHistory.KeysAreHeld | lib/cache/lru.go:41-85 | with Remove in the history, too: the keys cached, and the keys in front of each, in terms of the history alone |
| LruHistory.CachedExactlyWhenHeld | lib/cache/lru.go:41-85 | with Remove: a lookup finds the last value added exactly if the last touch was not undone and at no moment since N other keys, touched later and not removed, were ahead |
| ClientHello.ClientHelloMsg.Unmarshal | lib/crypt/clientHello.go:50-253 | result and every field, also those already set when it fails, are those of the grammar-shaped parser; all loops end and no index leaves its slice on any input |
| ClientHello.ClientHelloMsg.ReadExtensions | lib/crypt/clientHello.go:114-250 | the loop over the extension records |
| ClientHello.ClientHelloMsg.ReadNames | lib/crypt/clientHello.go:136-157 | the loop over the server names, which stops at the first host name |
| ClientHello.ClientHelloMsg.ReadProtocols | lib/crypt/clientHello.go:234-242 | the loop over the ALPN protocols |
| ClientHelloGrammar.RoundTrip | lib/crypt/clientHello.go:50-253 | every well-formed hello is accepted, and all fields are those it means |
| ClientHelloGrammar.Recovered | lib/crypt/clientHello.go:114-250 | each extension of a hello with one extension per type is found in its own field, whatever the others are |
| ClientHelloGrammar.NoServerName | lib/crypt/clientHello.go:92 | without an SNI extension the server name is empty, whatever was there before |
| ClientHelloGrammar.AbsentFields | lib/crypt/clientHello.go:73-98 | the fields of the extensions a hello does not have are blank, but for curves, points and renegotiation info, which stay as the object held them, whatever else the hello has; 0x00ff among the suites counts as renegotiation |
| ClientHelloGrammar.NoTrailingDot | lib/crypt/clientHello.go:146-153 | no accepted input leaves a server name that ends in a dot |
| ClientHelloGrammar.UnparseExts | lib/crypt/clientHello.go:114-250 | an accepted extension block is tiled exactly by its (type, length, body) records |
| ClientHelloGrammar.Unparse | lib/crypt/clientHello.go:50-253 | every accepted input is the encoding of a well-formed hello |
| ClientHelloGrammar.AcceptsExactlyTheGrammar | lib/crypt/clientHello.go:50-253 | an input is accepted if and only if it is the encoding of a well-formed hello |
| ClientHelloGrammar.NameListIsCovered | lib/crypt/clientHello.go:126-157 | every list of names whose first host name has no trailing dot is an SNI body, and that host name is found |
| SocksUdp.AddrObject.Encode | lib/common/netpackager.go:72-101 | the bytes of the address at its place in the buffer, all others untouched; for every address and room, an index out of range exactly if they do not fit |
| SocksUdp.AddrObject.Decode | lib/common/netpackager.go:48-70 | the address at the beginning of any slice; the error for an unknown type; an index out of range exactly for a slice that is too short |
| SocksUdp.WriteHeader | lib/common/netpackager.go:103-118 | the header's bytes, zeros for a missing address, independent of what the pooled buffer held; an index out of range exactly for a domain of more than 1665 bytes |
| SocksUdp.WriteDatagram | lib/common/netpackager.go:189-204 | header and data, or the same index out of range |
| SocksUdp.ReadUDPDatagram | lib/common/netpackager.go:125-180 | result and rest of the stream depend on the stream alone, not on stale bytes of the pooled buffer |
| SocksUdp.AddrRoundTrip | lib/common/netpackager.go:48-101 | a canonical address decodes from its own encoding |
| SocksUdp.EncodedExactly | lib/common/netpackager.go:72-101 | an address byte by byte, for every type: no IPv4 text is 0.0.0.0, no address text is ::, an unknown type is 0.0.0.0, of a domain's length the low byte is kept |
| SocksUdp.DecodeFailsExactly | lib/common/netpackager.go:48-70 | which slices are refused and which are too short, for every slice |
| SocksUdp.DomainReadsBackExactly | lib/common/netpackager.go:60-84 | a domain reads back from its own encoding exactly if it is shorter than 256 bytes |
| SocksUdp.ReadFailsExactly | lib/common/netpackager.go:141-180 | which inputs end in the error and which stop the program, for every stream |
| SocksUdp.AddrUnique | lib/common/netpackager.go:48-101 | whatever decodes is the encoding of its result |
| SocksUdp.ReadBack | lib/common/netpackager.go:125-180 | a datagram that carries its length reads back as itself and leaves the rest of the stream |
| SocksUdp.ReadBackStandard | lib/common/netpackager.go:155-162 | so does a standard datagram, with zero in the reserved field, followed by the end of input |
| SocksUdp.ReadIsUnique | lib/common/netpackager.go:125-180 | whatever is read consumed exactly the encoding of the result |
| SocksUdp.StreamRoundTrip | lib/common/netpackager.go:125-204 | datagrams written back to back are read one by one as the same datagrams |
| ByteStreams.ActOk | lib/conn/conn.go:94-142 | one move keeps the books: what a side has read, holds and will find is what the other wrote |
| ByteStreams.SomebodyMoves | lib/conn/conn.go:94-142 | as long as an operation of the reference run is missing, one side can move |
| ByteStreams.EveryRestIsTheSame | lib/conn/conn.go:94-142 | under every fragmentation and interleaving two such programs come to rest in one and the same state |
| ByteStreams.EveryRunComesToRest | lib/conn/conn.go:94-142 | until then some move is possible, and only so many are |
| ByteStreams.FieldsAreWhatWasSent | lib/conn/conn.go:94-142 | at every moment the fields read are the first fields of the reference run |
| ByteStreams.LastWordWasSaid | lib/conn/conn.go:94-142 | a server that is through with its part has read the client's last word, so the client has said it |
| Handshake.HandshakeEnds | client/control.go:217-252 | the two ends never wait for each other for ever, every field read is the one written, and both stop where the outcome says |
| Handshake.FieldsAtRest | client/control.go:217-252 | what each end has read when nothing moves any more, field by field and byte by byte, in the three outcomes |
| Handshake.HandshakeAgreement | bridge/bridge.go:166-210 | connected exactly for equal versions and a key under which an enabled client is registered: then nothing is left over and the server serves the client's own flag and version under the id of such a client; with no such client it is the validation error, with other versions a failed read, and nothing is served |
| Handshake.NeverServedEarly | bridge/bridge.go:204-205 | in every state of every run, what is served is that, and the client already counts itself connected |
| Handshake.LookupFinds | lib/file/db.go:76-92 | unless a registered key collides with the key tried, an id is found exactly when an enabled client holds the key, and it is the id of such a client |
| VirtualHosts.Registry.IsHostExist | lib/file/db.go:151-162 | true exactly if another entry clashes in host, location and scheme |
| VirtualHosts.Registry.NewHost | lib/file/db.go:164-175 | the registry with the host, location filled in, or unchanged on a clash |
| VirtualHosts.AddedExactly | lib/file/db.go:151-175 | a host is refused exactly if another entry has its name, its location, "/" if empty, and its scheme or all schemes |
| VirtualHosts.Registry.DelHost | lib/file/db.go:145-149 | the registry without that id |
| VirtualHosts.Registry.Candidates | lib/file/db.go:323-344 | the open hosts of matching name and scheme, in the order of the walk |
| VirtualHosts.Registry.GetInfoByHost | lib/file/db.go:319-361 | a matching host with a longest location, the first of them on the walk; an error exactly when none matches; empty locations filled in |
| VirtualHosts.HostNameExactly | lib/common/util.go:260-263 | the name is what stands in front of the first ":" |
| VirtualHosts.WildcardMatchesExactly | lib/file/db.go:331-342 | an open host with one "*", of the right scheme and location, takes exactly the requests whose name holds the rest of its name, with anything before and behind |
| VirtualHosts.PlainMatchesExactly | lib/file/db.go:331-344 | one without "*" exactly those for its name |
| VirtualHosts.OnlyHostAnswers | lib/file/db.go:319-361 | a registry with only such a host answers it, or the error, exactly so |
| VirtualHosts.AnswerIsFirstLongest | lib/file/db.go:347-357 | no host that fits has a longer location than the answer, and none in front of it on the walk one as long |
| VirtualHosts.TriplesStayDistinct | lib/file/db.go:145-175 | after any run of additions, deletions and lookups (host, location, scheme) are pairwise distinct, and an entry for all schemes is the youngest of its host and location |
| VirtualHosts.IndependentExactlyWhenNotTied | lib/file/db.go:347-357 | every order of walking the map gives the same answer exactly when no two hosts tie for the longest match |
| VirtualHosts.OrderMattersExactlyWhenShadowed | lib/file/db.go:151-162 | without "*" hosts that fails exactly when a longest match was joined later by an "all" entry of the same host and location |
| VirtualHosts.AllJoinsHttp | lib/file/db.go:151-175 | such a registry: an http entry, then the same host for all schemes |
| JsonDb.Clients.StoreClientsToJsonFile | lib/file/file.go:149-201 | the file holds the texts of the clients that may be stored, in the order of the walk |
| JsonDb.Clients.LoadClientFromJsonFile | lib/file/file.go:57-75 | clients and counter after loading any file; connections zero, rate as the settings ask |
| JsonDb.OwnedTable.StoreToJsonFile | lib/file/file.go:105-119 | the same for tasks and hosts |
| JsonDb.OwnedTable.LoadFromJsonFile | lib/file/file.go:40-94 | tasks or hosts whose client is registered, pointing at its object; the others are dropped |
| JsonDb.GetDb | lib/file/db.go:26-35 | loading the three files, clients first |
| JsonDb.FileRoundTrip | lib/file/file.go:139-201 | every file reads back as the records written to it, in order |
| JsonDb.ClientsSurvive | lib/file/file.go:57-75 | storing and loading gives exactly the clients that may be stored, each as it was but without connections, for every order, and the highest id as counter |
| JsonDb.OwnedSurvive | lib/file/file.go:40-94 | the same for the tasks or hosts that may be stored and whose client was |
| JsonDb.Restart | lib/file/file.go:40-201 | all three tables through their files: what survives, links to the loaded client objects, and counters below which all loaded ids lie |
| JsonDb.Clients.GetClientId | lib/file/file.go:127-129 | an id that no loaded or registered client has |
| JsonDb.OwnedTable.GetId | lib/file/file.go:131-137 | the same for tasks and hosts |
| PortShuffle.GetRandomPortArr | client/control.go:509-526 | the descending range, shuffled in place as the draws say |
| PortShuffle.ShuffledByPerm | client/control.go:520-524 | the shuffle is one permutation of places, built up from the draws |
| PortShuffle.PermIsCycle | client/control.go:520-524 | that permutation is a single cycle through all places |
| PortShuffle.ShuffleIsOneCycle | client/control.go:509-526 | for all draws: every port of the range once, passed round in one cycle, and none at its old place if there are two |
| PortShuffle.TestPorts | client/control.go:385-412 | for an interval other than zero 51 different ports of the range |
| PortShuffle.RangeIsLongEnough | client/control.go:385-390 | the 51 indices are in range exactly when the interval is not zero |
| Ports.GetPorts | lib/common/util.go:216-237 | the ports of a text, piece by piece, malformed pieces skipped |
| Ports.AtoiOfItoa | lib/common/util.go:216-249 | a printed number parses back |
| Ports.EveryPortIsInRange | lib/common/util.go:240-249 | every port parsed from any text lies in 1..65536 |
| Ports.PrintReadsBack | lib/common/util.go:216-237 | a printed list of ports and ranges parses to the ports it means, in order |
| Ports.ListAsTyped | lib/common/util.go:216-237 | the text "80,90-92" is the ports 80, 90, 91, 92 |
| Ports.NoDigitNoPort | lib/common/util.go:216-249 | a piece without a digit counts for nothing |
| TaskExpansion.NewTask | bridge/bridge.go:466-535 | which ports are acknowledged, which tasks are registered and which of them are opened because the client has none there yet, with which port, target and remark, and where and why the loop stops; a task whose port fails its test stays registered and is not opened |
| TaskExpansion.RefusedExactly | bridge/bridge.go:474-486 | which tasks are turned down before anything is registered |
| TaskExpansion.MissingExactly | bridge/bridge.go:510-526 | what is opened is the task of every acknowledged port at which the client had none, and nothing else |
| TaskExpansion.PairedTasksStayInRange | bridge/bridge.go:472-511 | a tcp or udp task pairs the i-th port with the i-th target, behind its target address and ":" if it has one, with the port in its remark, and never leaves the list |
| TaskExpansion.PrintedListsPairUp | bridge/bridge.go:472-511 | from the two texts: lists of equal length pair up in order |
| TaskExpansion.InRangeExactlyWhenEnoughTargets | bridge/bridge.go:474-500 | for any mode the look-ups are in range exactly for tcp, udp, a single port or enough targets |
| TaskExpansion.SecretTaskWithPort | bridge/bridge.go:478-480 | a secret or p2p task with a port and fewer than two targets leaves the list |
| Replay.Conn.Read | lib/conn/conn.go:282-293 | the bytes put into the buffer, what is left in Rb and in the stream, the rest of the buffer untouched |
| Replay.ReadsDeliverInOrder | lib/conn/conn.go:282-293 | for all sequences of buffers: what was delivered and what is to come is Rb followed by the stream |
| Replay.ReadsMakeProgress | lib/conn/conn.go:282-293 | how much a read delivers: all there is room for of Rb, or of what the connection gives; something if there is room and something is there |
| Replay.ReadsDrain | lib/conn/conn.go:282-293 | as many such reads as there are bytes deliver all of them |
| Replay.PeekIsTransparent | server/proxy/https.go:161-175 | the peer behind the peek sees the original bytes exactly when the first read got 42 bytes or more, or none |
| Replay.PortConn.Read | lib/pmux/pconn.go:23-43 | the bytes put into the buffer, the rest of it untouched, and the new position |
| Replay.PortReadsMakeProgress | lib/pmux/pconn.go:23-43 | how much a read delivers, of the peeked bytes and of the stream behind them, for every buffer and position |
| Replay.PortReadsDrain | lib/pmux/pconn.go:23-43 | enough reads come to the end of everything, and without a misplaced short read they have delivered the original bytes |
| Replay.PortConnExactly | lib/pmux/pconn.go:23-43 | the original bytes are delivered, whatever they are, exactly when every nonempty read shorter than the rest of the peeked bytes is made before any was delivered |
| Replay.SecondShortReadRepeats | lib/pmux/pconn.go:24-28 | two reads of one byte from three peeked bytes deliver the first byte twice |
| FlowTotals.Registry.DealClient | server/server.go:284-311 | one client's counters become the sums over its hosts and tasks |
| FlowTotals.Registry.DealClientData | server/server.go:283-313 | the same for every client, hosts and tasks untouched |
| FlowTotals.Registry.GetDashboardData | server/server.go:360-374 | the dashboard's totals are the sums over the clients after that |
| FlowTotals.OnlineCountExactly | server/server.go:365-370 | the count is the number of registered clients that are online |
| FlowTotals.TotalsAreConserved | server/server.go:283-313 | the clients' totals add up to what the hosts and tasks of registered clients have counted |
| FlowTotals.OrderIsNoMatter | server/server.go:293-308 | a client's sum is the same for every order of walking the map |
| FlowTotals.SecondRunChangesNothing | server/server.go:283-313 | a second run changes nothing, whatever order it uses |
| Admission.Client.GetConn | lib/file/obj.go:83-89 | one more connection exactly if the limit allows it |
| Admission.Client.CheckFlowAndConnNum | server/proxy/base.go:76-84 | both limits; a refusal leaves the counter alone |
| Handlers.EveryExitIsPaired | server/proxy/tcp.go:36-45 | every way out of the tcp, socks5, udp and https handlers: one that passed the check counts itself once and calls AddConn exactly once, any other leaves the counter alone |
| Handlers.StepRefines | server/proxy/https.go:102-128 | a step of any handler is a check, a count or a finish for the counter, or nothing |
| Handlers.CounterIsExact | server/proxy/udp.go:54-93 | in every interleaving of any mix of the four handlers the counter is the number of admitted unfinished connections |
| Handlers.BackToZero | server/proxy/socks5.go:371-382 | once all handlers have ended the counter is zero |
| Handlers.LimitHolds | lib/file/obj.go:75-89 | with at most M handlers between check and increment at most limit + M-1 connections are open |
| Handlers.CheckPassesExactly | lib/file/obj.go:83-89 | in every reachable state a handler at its check passes exactly if the traffic limit is not exceeded and there is no limit on connections or fewer are admitted and unfinished |
| Handlers.UnlimitedAdmits | lib/file/obj.go:84 | without a limit every number of connections of every kind can be unfinished at a time |
| Admission.LimitHolds | lib/file/obj.go:75-89 | with at most M handlers between check and increment the limit is overstepped by at most M-1; not at all for M = 1 |
| Admission.LimitIsOverstepped | lib/file/obj.go:83-89 | for every limit and every M some run gets exactly there |

## Left out

- Sockets, listeners, kcp, the multiplexer, TLS and compression wrappers, goroutine pools, web interface, installer and configuration files.
- MD5, JSON texts and the text form of IP addresses are parameters with the laws that matter (`Handshake.LookupFinds`, `JsonDb.Json`, `SocksUdp.Laws`); random numbers, map iteration orders, and what a connection delivers at a time are parameters without any.
- Numbers are unbounded: overflow of the int64 flow counters, of the bucket and of the int32 ids and connection counters is not modelled.
- Time: tickers are steps that happen in any order; deadlines, stopping and `NowRate` are left out.
- Reconnection in the health protocol (client/health.go:22-26), which resets the client's counters but not the server's lists, and the scheduler of the checks (client/health.go:41-65). Runs keep to one connection, and each target belongs to one health record.
- HealthAgreement.Agreement: one choice is one step; what messages between its reads can do is in `TargetRace`. The reload of tasks with a stored list of removed targets is covered, that list being any list.
- Targets.Target.GetRandomTarget: one call is one step here; `TargetRace` splits it into its reads of the list. That a removal shifts the members of a list in place while it is read is not modelled.
- TargetRace.OutOfRangeExactly: a list can hold a member that does not occur in the target text, if the text was edited after the list was loaded, and no "0" removes it; about such lists only `OneRemovalExactly` and `SafeWithoutRemoval` speak.
- RateLimiter.Rate.Get: several refilling goroutines on one bucket are not modelled.
- LruCache.Cache.Add: the list of the standard library is a sequence of element objects here; `Clear` (lib/cache/lru.go:93-102), which leaves the map filled, and the eviction callback, which is nil in every use, are left out.
- ClientHello.ClientHelloMsg.Unmarshal: the field `raw` is not modelled, since nothing reads it.
- SocksUdp.ReadUDPDatagram: the panics of nps on datagrams shorter than their header or longer than the buffer are an outcome of their own; the stream is read on values.
- HealthFraming.FrameRoundTrip: writing and reading a frame are functions on byte sequences; the pooled buffer is not modelled, because only the part just filled is looked at.
- Handshake.HandshakeEnds: the two ends are state machines over their reads and writes, and a client that reads on after the server has closed the connection gets an error. A flag is taken to be the bytes read, for which `ReadFlag` (lib/conn/conn.go:137-140) relies on the order in which Go evaluates a return statement.
- VirtualHosts.Registry.GetInfoByHost: hosts are values in the registry map, so other holders of a host object do not see a location being filled in. `EditHost` in web/controllers/index.go skips the uniqueness check when only location or scheme changes, and is outside the registry's invariant.
- VirtualHosts.Registry.NewHost: the fresh flow counters and the write to the file that follows are left out; files are in `JsonDb`.
- VirtualHosts.Registry.DelHost: the write to the file that follows is left out.
- JsonDb.OwnedTable.LoadFromJsonFile: tasks and hosts are handled by the same code on two tables; fields that JSON does not keep and records without a client are left out.
- TaskExpansion.NewTask: fields that are only copied into a task, its id, and the removal of the client after a failure are left out; the bytes written to the client are counted as acknowledgements only.
- Replay.PeekIsTransparent: a first read that fails together with some bytes counts as a read of no bytes.
- FlowTotals.Registry.GetDashboardData: only connection count and traffic of the dashboard; Bridge.Client is the set of ids online.
- Handlers.CounterIsExact: the http path may decrement for a new host before it increments (server/proxy/http.go:139-149) and is not among the programs; a panic inside a handler is not modelled. The limit does not change during a run.
- Protocol recognition of the port multiplexer, the ini parser, the login throttle and block padding would add only easy members or are driven by text patterns and time.
