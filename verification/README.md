# Verified models of nim-libp2p

This project models the parts of nim-libp2p in which several steps, tables or encodings have to fit
together, and proves what they guarantee for every input and every interleaving.

nim-libp2p runs on one cooperative event loop, so the code between two awaits is atomic. Concurrent parts are
machines of such steps, with an invariant every step keeps, theorems over all reachable states and a measure
that bounds every run. Code that changes objects in place is a class or a loop, proved against the functions
the theorems are about.

- **Ranked dial** (`DialCandidate`, `DialQueue`, `RankedDial*`): the bounded parallel scheduler with budgets, a
  stable priority queue, late name lookups, one winner and losers to close.
- **Negotiation** (`Multistream*`): multistream-select between a dialer, which sends its first proposal before
  the handshake is answered, and a listener, over two ordered channels.
- **Addresses** (`Multicodec`, `Varint`, `VBuffer`, `Multiaddress*`, `Text`, `Protocols`, `PeerInfo`): canonical
  varints, the binary and text forms of multiaddresses and what undoes what.
- **Patterns** (`Patterns`, `ShippedPatterns`, `PatternWords`): the greedy address matcher against the languages it
  stands for, and the lists each shipped pattern matches.
- **Address manager** (`AddressBook`, `AddressManager`, `AddressAnnounce`, `ObservedAddrs`): candidates and
  their sources, mapper passes, verdicts, refuted guesses, observations and the announce set.
- **Connections** (`DialLocks`, `MuxerStore`, `ConnTrim`, `DialBackoff`): per-peer dial locks, the muxer table,
  watermark trimming and dial backoff.
- **Crypto helpers** (`Hkdf`, `Rng`, `Shuffle`): the HKDF output stream, unbiased sampling and the shuffle.

`dafny verify dfyconfig.toml` checks the whole project.

Where the code does not do what one might expect, the model follows the code:

- A proposal `na` the listener does not support, or `ls` to a listener whose protocol list prints as `ls`, is
  echoed and taken for an agreement. `AgreementIff` says, on the inputs, exactly when the two sides agree.
- The address matcher is greedy and cuts off by length, so it is incomplete for some patterns
  (`GreedyMisses`, `CutOffMisses`). For greedy-safe patterns, all shipped ones among them, it is exact. The
  condition is about one direction: it is sufficient, not necessary.
- A refuted guess is documented to stay out for twelve runs. Counting starts with the run that refuted it, so
  eleven later runs skip it (`StaysOutIff`, `LetInIff`).
- `rand` over all 64-bit integers computes a width of zero, which passes the size check (`WidthIff`,
  `WidthCheckIff`).
- `shuffle` draws below `i`, not up to it, so it produces exactly the single cycles, and each from one choice
  of places (`BuiltIff`); the draw itself is even only below divisors of 65536 (`EvenIff`).
- The skip-scan for an IP reads on behind an empty prefixed part, where the iterator stops
  (`ScanPassesAnEmptyPart`); no valid address has such a part.

What the theorems take as given:

- A transcoder is a predicate with a parser and a printer; text round trips ask that these two invert each
  other on the payload. IP, peer id, base32 and base58 text are such pairs.
- The lock inside a dial lock is a first-come mutex that skips cancelled waiters and hands over at once.
- HMAC is any function with a 32-byte result, random bytes are parameters, and jitter is any part of the wait.
- Negotiation messages fit the size limit; the table of candidates is changed by mapper passes, feeders,
  verdicts and verification runs only, no mapper is registered as `Identify`, and only verification runs add
  that source.

## Model

| member | source | states |
|---|---|---|
| `RankedDialTheorems.EveryMuxerAccounted` | libp2p/rankeddial.nim:82-205 | when a run is over, in every interleaving, every muxer an attempt produced is either the one returned, and open, or closed; no attempt still runs |
| `RankedDialTheorems.AttemptsBounded` | libp2p/rankeddial.nim:15-21 | in every reachable state at most 32 attempts started, at most 8 run, and no candidate key was attempted twice |
| `RankedDialTheorems.OpensBestFirst` | libp2p/rankeddial.nim:138-146 | what a turn opens, followed by what stays queued, is sorted by rank: no queued candidate beats an opened one |
| `RankedDialTheorems.FirstComeFirstServed` | libp2p/rankeddial.nim:113-119 | within a rank the opened candidates are, in order, the first arrivals, late insertions included |
| `RankedDialTheorems.WorkConserving` | libp2p/rankeddial.nim:109-146 | while the dial waits with time left, a queued candidate and a free slot mean it is already woken; `lookups` is the number of unfinished name tasks |
| `RankedDialTheorems.NilOnlyAtTheEnd` | libp2p/rankeddial.nim:164-203 | without a cancellation nil comes back only when every attempt failed, no lookup is alive, and the queue is empty or the deadline has passed |
| `RankedDialOffers.ArrivedIsOffered` | libp2p/rankeddial.nim:51-136 | in every run the candidates queued so far are exactly the first 32 with a new key of those given at the start, by rank, and of each answer of a lookup, by rank, in the order the answers came |
| `RankedDialOffers.OpenedIsOffered` | libp2p/rankeddial.nim:116-146 | within a rank the opened candidates are, in order, the first of those offered |
| `RankedDialOffers.NilTriedAll` | libp2p/rankeddial.nim:116-203 | when nil comes back without a cancellation, every candidate ever offered was attempted under its key, or 32 were, or the deadline has passed |
| `RankedDialOffers.TaskPerName` | libp2p/rankeddial.nim:126-136 | there is one name task for each of the first 32 different names |
| `RankedDialOffers.ResolvesExpanded` | libp2p/rankeddial.nim:126-136 | the lookups started by the tasks are as many as the different addresses the names expanded to, up to the limit |
| `RankedDialTheorems.RunsEnd` | libp2p/rankeddial.nim:126-205 | no run of the machine is longer than 740 steps, whatever lookups return |
| `RankedDialTheorems.NeverStuck` | libp2p/rankeddial.nim:164-205 | until the dial is over some step other than the clock or a cancellation is enabled |
| `RankedDialSafety.StepKeeps` | libp2p/rankeddial.nim:82-205 | every step of dial, attempts, lookups, clock and cancellation keeps the whole invariant |
| `RankedDialSafety.TakeWinnerKeeps` | libp2p/rankeddial.nim:148-162 | the swap-delete scan drops failed attempts only, and takes a connected one out exactly when there is one |
| `RankedDialSafety.RunKeeps` | libp2p/rankeddial.nim:190-205 | the invariant holds along every run |
| `RankedDialLoop.Dial.Queue` | libp2p/rankeddial.nim:113-119 | the in-place queueing equals the queueing step of the machine |
| `RankedDialLoop.Dial.OpenSlotsLoop` | libp2p/rankeddial.nim:138-146 | the loop that opens slots equals the opening step of the machine |
| `RankedDialLoop.Dial.TakeWinnerLoop` | libp2p/rankeddial.nim:148-162 | the scanning loop, which deletes from the list it scans, ends and equals the specified scan |
| `RankedDialLoop.Dial.TurnLoop` | libp2p/rankeddial.nim:164-188 | one turn of the waiting loop equals the turn of the machine |
| `DialQueue.TakenOnce` | libp2p/rankeddial.nim:51-64 | a shared budget hands out no key twice and none it saw, pays for each one it hands out, and skips nothing new while it has some left |
| `DialQueue.DialBudget.Take` | libp2p/rankeddial.nim:51-64 | the in-place budget equals its specification |
| `DialQueue.AllInsertedIsStable` | libp2p/rankeddial.nim:113-119 | late insertions keep the queue sorted, and in each rank append in order of arrival |
| `DialQueue.SortedByRankIsStable` | libp2p/rankeddial.nim:113-119 | sorting arrivals by rank is stable |
| `DialQueue.SortedByRankIff` | libp2p/rankeddial.nim:113-119 | the sorted list is the only one that is ranked and keeps the order within each rank |
| `DialCandidate.RankMeaning` | libp2p/dialcandidate.nim:30-39 | on a readable address the rank is relayed exactly if a circuit part occurs, and QUIC exactly if the leading parts are a QUIC transport |
| `Multistream.DecodeIff` | libp2p/multistream.nim:44-48 | a message decodes to a text exactly when it is that text and a newline |
| `Multistream.FalseEcho` | libp2p/multistream.nim:133-178 | the answer to a proposal repeats it exactly if the listener takes it, or it is `na`, or it is `ls` and the protocol list prints as `ls` |
| `MultistreamSafety.StepKeeps` | libp2p/multistream.nim:53-178 | every step of either side keeps the channel invariant: what is in flight is a slice of the script, or of the answers to it |
| `MultistreamSafety.RunKeeps` | libp2p/multistream.nim:53-178 | the channel invariant holds along every run |
| `MultistreamTheorems.DialerOutcome` | libp2p/multistream.nim:53-92 | in every run the dialer ends without failure, with the first proposal that is echoed or with nothing |
| `MultistreamTheorems.ListenerOutcome` | libp2p/multistream.nim:133-178 | what the listener ends with is the first proposal it takes, and the dialer ends with nothing else |
| `MultistreamTheorems.AgreementIff` | libp2p/multistream.nim:53-178 | once the dialer is done, both sides have the first proposal the listener takes, or the dialer has none if there is none, exactly if no `na`, and no `ls` that prints as `ls`, which it does not take stands before that |
| `MultistreamTheorems.EndsTogether` | libp2p/multistream.nim:53-178 | when the dialer ended with a proposal, the listener ended with the same exactly if it takes it |
| `MultistreamTheorems.Agreement` | libp2p/multistream.nim:53-178 | without `na` and `ls` among the proposals both sides end with the first proposal the listener takes, and the dialer ends empty-handed only if it takes none |
| `MultistreamTheorems.FalseAgreement` | libp2p/multistream.nim:76-79 | a run in which the dialer ends with an unsupported `na` and the listener keeps reading |
| `MultistreamTheorems.NeverStuck` | libp2p/multistream.nim:60-178 | until the dialer is done one of the two sides can step |
| `MultistreamTheorems.Settles` | libp2p/multistream.nim:53-178 | a run that cannot go on has both sides done |
| `MultistreamTheorems.AnswersInOrder` | libp2p/multistream.nim:145-178 | the i-th message on the way back answers the i-th line of the script |
| `MultistreamTheorems.WritesBounded` | libp2p/multistream.nim:60-86 | over a whole run the dialer sends at most one message more than it has proposals |
| `MultistreamTheorems.RunsEnd` | libp2p/multistream.nim:53-178 | every run has at most 4n + 6 steps for n proposals |
| `MultistreamLoop.TrySelect` | libp2p/multistream.nim:53-92 | the dialer sends the header and its first proposal, asks for the next one only after a reply that is something else, and ends on the header that is not the codec, on a reply that is not a line, on the first reply that repeats its proposal, which alone sets the protocol, or with nothing after the last; what is sent and what is left unread is stated for each end |
| `MultistreamLoop.TryHandle` | libp2p/multistream.nim:133-178 | without a handshake behind it the first message is the codec, which is repeated, or the listener ends with `InvalidFirstMessage`, nothing written and no protocol set; after that `ls` is answered by the list and everything it does not take by `na`, until the first message it takes, which is repeated and set as the protocol, a message that is not a line, or the end of the stream |
| `MultistreamLoop.ListenerRunHandles` | libp2p/multistream.nim:133-178 | the same of the listener machine of the theorems |
| `MultistreamLoop.DialerRunSelects` | libp2p/multistream.nim:53-92 | the same of the dialer machine of the theorems |
| `MultistreamList.ListsBackIff` | libp2p/multistream.nim:123-131 | the answer to `ls`, split at its newlines without the empty pieces, is the protocol list exactly if no name in it is empty or has a newline |
| `MultistreamList.ReadList` | libp2p/multistream.nim:126-131 | the loop keeps the non-empty pieces |
| `MultistreamLoop.LookupProtocol` | libp2p/multistream.nim:191-197 | finds a handler exactly if one serves the name, and then the first |
| `MultistreamLoop.AllProtosAndMatchers` | libp2p/multistream.nim:199-210 | the protocols are listed in order of registration, and the gathered support takes exactly the non-empty names some handler serves |
| `Varint.DecodeEncoded` | libp2p/varint.nim:101-181 | decoding an encoding returns the value and its length, at most 9 bytes, whatever follows |
| `Varint.AcceptedIffEncoded` | libp2p/varint.nim:101-147 | an input is accepted exactly if it starts with the encoding of the value it yields |
| `Varint.AcceptedIff` | libp2p/varint.nim:101-147 | n bytes are accepted for a value exactly if the high bit is set on all of them but the last, the last is not zero unless it is alone, and their low seven bits, times 128 to their places, add up to the value, which is below 2^63 |
| `Varint.RefusedIff` | libp2p/varint.nim:101-147 | incomplete exactly if the groups do not end within at most ten bytes; an overflow exactly if the first ten of more bytes all go on, or the value is 2^63 or more; overlong exactly if the last of several groups is zero |
| `Varint.EncodedForm` | libp2p/varint.nim:149-181 | an encoding is the shortest form of its value |
| `Varint.PrefixFree` | libp2p/varint.nim:101-181 | no encoding is a prefix of another |
| `Varint.PutUVarint` | libp2p/varint.nim:149-181 | writes the base-128 groups of the value, least significant first, in the shortest form and in front of an unchanged rest; values over 63 bits and short buffers are refused and leave the buffer alone |
| `VBuffers.WriteThenRead` | libp2p/vbuffer.nim:59-176 | any sequence of writes, then finishing, reads back in the same order with nothing left |
| `VBuffers.TakeVarintIff` | libp2p/vbuffer.nim:98-112 | a varint is read exactly if the bytes are its encoding and the rest |
| `VBuffers.TakeSeqIff` | libp2p/vbuffer.nim:114-134 | a prefixed array is read exactly if the bytes are its length, the array and the rest |
| `VBuffers.VBuffer.WriteVarint` | libp2p/vbuffer.nim:59-70 | growing the buffer and putting the varint in place: a read at the old cursor gives the value, masked to 63 bits, and ends at the new cursor; nothing before it changes |
| `VBuffers.VBuffer.WriteSeq` | libp2p/vbuffer.nim:72-84 | a read of a prefixed array at the old cursor gives the value and ends at the new cursor; nothing before it changes |
| `VBuffers.VBuffer.WriteArray` | libp2p/vbuffer.nim:86-92 | a read of that many bytes at the old cursor gives the value and ends at the new cursor; nothing before it changes |
| `VBuffers.VBuffer.ReadVarint` | libp2p/vbuffer.nim:150-157 | the offset moves past exactly what the specified reader takes, or stays |
| `VBuffers.VBuffer.ReadSeq` | libp2p/vbuffer.nim:159-167 | the offset moves past exactly what the specified reader takes, or stays |
| `VBuffers.VBuffer.ReadArray` | libp2p/vbuffer.nim:169-176 | the offset moves past exactly the bytes asked for, or stays |
| `Multiaddress.HeadIff` | libp2p/multiaddress.nim:619-660 | a component is read off the front exactly if the bytes are its encoding and the rest |
| `Multiaddress.PartWire` | libp2p/multiaddress.nim:619-660 | the bytes of a component are the varint of its code, the varint of the length of its payload exactly for length-prefixed and path protocols, and the payload |
| `Multiaddress.ItemsRebuild` | libp2p/multiaddress.nim:691-729 | the parts the iterator yields concatenate to a prefix of the buffer, and to all of it if it reads to the end |
| `Multiaddress.ItemsOfFlatten` | libp2p/multiaddress.nim:691-729 | iterating the bytes of components and a rest gives those components and the parts of the rest |
| `Multiaddress.ItemsOfConcat` | libp2p/multiaddress.nim:1078-1091 | the parts of a concatenation are the parts of both |
| `Multiaddress.ValidIffItems` | libp2p/multiaddress.nim:814-833 | an address validates exactly if the iterator reads it to the end and every part is a marker or passes the transcoder of its protocol |
| `Multiaddress.ConcatIff` | libp2p/multiaddress.nim:1078-1091 | concatenation onto a readable address succeeds exactly if both sides are valid |
| `Multiaddress.GetPartOfItems` | libp2p/multiaddress.nim:619-660 | the part at an index is the part the iterator yields there, and past a complete end there is none |
| `Multiaddress.SliceOfValid` | libp2p/multiaddress.nim:662-677 | on a valid address a slice is exactly the parts it names, and one that leaves the address fails |
| `Multiaddress.SlicesRejoin` | libp2p/multiaddress.nim:662-677 | cutting a valid address anywhere and concatenating the two slices gives back its bytes |
| `MultiaddressScan.Validate` | libp2p/multiaddress.nim:814-833 | the cursor loop decides the specified validity |
| `MultiaddressScan.ItemsOf` | libp2p/multiaddress.nim:691-737 | the cursor loop yields the specified parts, byte for byte |
| `MultiaddressScan.GetPartAt` | libp2p/multiaddress.nim:619-660 | the cursor loop finds the specified part; a negative index fails |
| `MultiaddressScan.GetParts` | libp2p/multiaddress.nim:662-677 | the append loop builds the specified slice |
| `MultiaddressIp.GetIp` | libp2p/multiaddress.nim:1276-1323 | the skip-scan loop computes the specified scan and returns IP components only |
| `MultiaddressIp.ScanIpOfItems` | libp2p/multiaddress.nim:1276-1323 | the skip-scan finds the first IP part of the iterator, and nothing where the iterator reads all and sees none |
| `MultiaddressIp.ScanPassesAnEmptyPart` | libp2p/multiaddress.nim:1276-1323 | behind an empty prefixed part the scan finds an IP the iterator never reaches |
| `MultiaddressIp.WithIpChanges` | libp2p/multiaddress.nim:1334-1364 | a replacement changes the first IP part at most |
| `MultiaddressIp.ReplaceIp` | libp2p/multiaddress.nim:1334-1364 | succeeds exactly on valid addresses with an IP part, with that part alone replaced |
| `MultiaddressIp.ReplacedIp` | libp2p/multiaddress.nim:1334-1364 | the result is valid, iterates to the replaced parts, and a scan finds the new IP |
| `PeerInfo.ParsedParts` | libp2p/peerinfo.nim:130-170 | a valid address parses exactly if its last part is a peer id, into that id and the bytes before |
| `PeerInfo.ParseUndoesBuild` | libp2p/peerinfo.nim:130-170 | parsing the full address of any valid address and peer id gives both back |
| `PeerInfo.BuildUndoesParse` | libp2p/peerinfo.nim:130-170 | rebuilding from a parse gives back the full address |
| `PeerInfo.StripIsParse` | libp2p/peerinfo.nim:130-170 | stripping removes what parsing splits off, except from a bare peer id address |
| `MultiaddressText.TextRoundTrip` | libp2p/multiaddress.nim:756-987 | printing and parsing a non-empty address of fixed, prefixed and marker parts with inverting transcoders gives the same bytes |
| `MultiaddressText.PathRoundTripIff` | libp2p/multiaddress.nim:935-987 | with a path part last, the round trip holds exactly if the path starts with a slash, does not end in one, and its protocol name stands between slashes nowhere earlier in the text |
| `MultiaddressText.ToString` | libp2p/multiaddress.nim:756-784 | the cursor loop prints the specified text |
| `MultiaddressText.InitText` | libp2p/multiaddress.nim:935-987 | the loop over the split text parses as specified |
| `MultiaddressSpelling.ParsesIff` | libp2p/multiaddress.nim:935-987 | a text parses exactly if it starts with a slash, is longer than that, and its segments without the trailing slashes are registered names, each but a marker followed by text its transcoder parses, which for a path is all from the first place its name stands between slashes; the address is the bytes of those components |
| `Text.TrimRight` | libp2p/multiaddress.nim:532-540 | the loop trims the specified trailing slashes |
| `Text.SplitJoined` | libp2p/multiaddress.nim:935-987 | splitting joined slash-free segments gives them back |
| `Protocols.StandardSound` | libp2p/multiaddress.nim:401-446 | the shipped protocol table meets what the address theorems ask of one |
| `Protocols.StandardNamed` | libp2p/multicodec.nim:35-50 | every name of the shipped table is slash-free and maps back to its own protocol |
| `Protocols.NamesInvert` | libp2p/multiaddress.nim:401-446 | DNS names, IPv6 zones and SNI names print and parse back on every payload they accept |
| `Patterns.MatchSound` | libp2p/multiaddress.nim:1126-1153 | for every pattern and list a success consumed a word of the pattern and leaves the rest |
| `Patterns.MatchLongest` | libp2p/multiaddress.nim:1126-1153 | on greedy-safe patterns every prefix in the language is matched with at least its length |
| `Patterns.MatchDecides` | libp2p/multiaddress.nim:1155-1169 | on greedy-safe patterns full and partial matching decide the language and its prefixes |
| `Patterns.GreedyMisses` | libp2p/multiaddress.nim:1126-1153 | a pattern and list where greed loses a match |
| `Patterns.CutOffMisses` | libp2p/multiaddress.nim:1126-1153 | a pattern and list where the length cut-off loses a match |
| `Patterns.RunMatchPart` | libp2p/multiaddress.nim:1126-1153 | the loops compute the specified match |
| `ShippedPatterns.CheckedIsSafe` | libp2p/multiaddress.nim:1126-1153 | a check on the shape of a pattern that implies it is greedy-safe and epsilon-free |
| `ShippedPatterns.ShippedAreExact` | libp2p/multiaddress.nim:448-513 | each of the 51 shipped patterns is matched exactly, in full and partially, as a language |
| `PatternWords.ShippedMatch` | libp2p/multiaddress.nim:448-513 | each of the 51 patterns matches exactly the protocol lists of a table that writes them out, and partially what begins with one of them |
| `AddressBook.RunKeeps` | libp2p/address_manager.nim:211-543 | over every run: candidates have sources; chain addresses stay candidates with their chain sources; refuted guesses are distinct, at most `maxSize`, have 1 to 12 runs left and are no live guesses |
| `AddressBook.StepKeeps` | libp2p/address_manager.nim:211-543 | each change of the table keeps that invariant |
| `AddressBook.VerdictSparesChain` | libp2p/address_manager.nim:528-543 | no verdict drops or changes the sources of an address the chain produces |
| `AddressBook.StaysOutIff` | libp2p/address_manager.nim:517-526 | through any changes with fewer than `maxSize` further refutations and no stop, a refuted guess stays in the ring for fewer than twelve verification runs and, unless refuted again, is out of it from the twelfth on |
| `AddressBook.LetInIff` | libp2p/address_manager.nim:511-526 | a verification run that guesses the address again makes it a candidate exactly if it is the twelfth or later |
| `AddressBook.StateIsLastVerdict` | libp2p/address_manager.nim:211-543 | over every run the state of a candidate is that of the last verdict or update on it since it entered, and unverified without one |
| `AddressManager.AddressManager.AddSources` | libp2p/address_manager.nim:211-218 | the address alone gains the sources; a new one is unverified and last, a known one keeps its state and place |
| `AddressManager.AddressManager.Add` | libp2p/address_manager.nim:220-225 | as above for one source, and the invariant is kept for every source but `Identify` |
| `AddressManager.AddressManager.Update` | libp2p/address_manager.nim:227-233 | sets the state of a known candidate and nothing else |
| `AddressManager.AddressManager.Withdraw` | libp2p/address_manager.nim:355-368 | the loop, in any order over the chain table, withdraws exactly the lost chain sources and drops the emptied candidates |
| `AddressManager.AddressManager.Track` | libp2p/address_manager.nim:370-384 | the two loops leave each address its old and fresh sources without the lost chain sources, drop exactly those left with none, change no state and keep the invariant |
| `AddressManager.AddressManager.ExpireRefuted` | libp2p/address_manager.nim:523-526 | every entry loses one run, and exactly those with a run left stay |
| `AddressManager.AddressManager.ApplyVerdict` | libp2p/address_manager.nim:528-543 | the address leaves the table for the end of the ring exactly if `Identify` is its only source and the verdict is unreachable; otherwise a candidate keeps its sources and takes the state; no other address changes; true exactly if it left or its state differed |
| `AddressManager.AddressManager.AddIdentifyCandidates` | libp2p/address_manager.nim:511-515 | exactly the guesses that are not refuted are candidates with the `Identify` source; no state and no other address changes |
| `AddressManager.AddressManager.StartRun` | libp2p/address_manager.nim:594-598 | the ring loses one run of every entry, then exactly the guesses that are left out of it become candidates |
| `AddressAnnounce.RunChain` | libp2p/address_manager.nim:460-480 | each address is credited to the listener, to the mappers that introduced it and to the operator, and everything kept has a producer |
| `AddressAnnounce.ConfirmedFamilies` | libp2p/address_manager.nim:398-407 | the families of the confirmed, public, direct candidates |
| `AddressAnnounce.FedAddrs` | libp2p/address_manager.nim:419-421 | the candidates no mapper produces |
| `AddressAnnounce.AnnounceSet` | libp2p/address_manager.nim:423-434 | duplicate-free, and of the mapped and fed addresses exactly those that are confirmed, or unverified and no mere guess, or unreachable and not public, and not behind a relay while a public address of their IP family is confirmed without one |
| `AddressAnnounce.Resolve` | libp2p/address_manager.nim:460-488 | without an operator list the announced addresses are exactly the candidates that pass that test, each once; with one, that list; the table takes exactly one pass |
| `AddressAnnounce.ResolveAfter` | libp2p/address_manager.nim:386-488 | after any changes of the table a public address whose last verdict is unreachable is not announced, a mere guess never judged is not, and one confirmed last is, unless it is relayed and its IP family is confirmed without a relay |
| `ObservedAddrs.Observer.AddObservation` | libp2p/address_manager.nim:131-146 | refused reports change nothing; others replace the observer's report and evict the oldest, with one entry per observer and at most `maxSize` |
| `ObservedAddrs.StoredIsLatest` | libp2p/address_manager.nim:131-146 | after any reports the store is the end, `maxSize` long, of the latest reports of all peers by time |
| `ObservedAddrs.CountIsReporters` | libp2p/address_manager.nim:148-173 | counting reported first parts counts distinct observers |
| `ObservedAddrs.MostObserved` | libp2p/address_manager.nim:155-165 | the answer reaches the minimum and is most frequent of its protocol; none comes back only if none reaches it |
| `ObservedAddrs.MostObservedPart` | libp2p/address_manager.nim:167-173 | the same for first parts, counted in distinct observers |
| `ObservedAddrs.ExternalAddrFor` | libp2p/address_manager.nim:185-199 | a substituted first part is reported by at least `minCount` distinct observers and most of its protocol; otherwise the address comes back for one of the listed reasons |
| `ObservedAddrs.SubstituteKeepsRest` | libp2p/address_manager.nim:185-199 | on a valid address the substitution changes the first part only, within its protocol |
| `DialLocks.OneInside` | libp2p/dialer.nim:461-487 | an entry exists exactly while a dial of the peer is in flight; its count is their number; exactly one is inside, the others wait, and all were given the lock in the table |
| `DialLocks.Dialer.Acquire` | libp2p/dialer.nim:475-487 | a dial is inside at once exactly if the peer has no other, and else joins the end of the line |
| `DialLocks.Dialer.Cancel` | libp2p/dialer.nim:481-486 | a cancelled waiter leaves the line, all others stay in place |
| `DialLocks.Dialer.Release` | libp2p/dialer.nim:468-473 | the first waiter is inside next; without one the entry goes |
| `DialLocks.Drive` | libp2p/dialer.nim:576-599 | any schedule of starts, cancellations and releases keeps the locks in order |
| `MuxerStores.MuxerStore.Add` | libp2p/muxer_store.nim:48-57 | adds a muxer unless it is there; lists stay non-empty and duplicate-free |
| `MuxerStores.MuxerStore.RemovePeer` | libp2p/muxer_store.nim:32-35 | removes a peer and returns exactly its muxers |
| `MuxerStores.MuxerStore.Remove` | libp2p/muxer_store.nim:37-46 | removes one muxer by swap-delete, and its peer exactly with its last |
| `MuxerStores.SwapDeleteIsRemoval` | libp2p/muxer_store.nim:41-42 | swap-delete from a duplicate-free list removes that element only |
| `ConnTrim.ConnManager.Protect` | libp2p/connmanager.nim:673-676 | adds a tag to that peer only |
| `ConnTrim.ConnManager.Unprotect` | libp2p/connmanager.nim:678-687 | removes a tag, and reports whether another still protects |
| `ConnTrim.ConnManager.PeerScore` | libp2p/connmanager.nim:706-720 | the bonus for an outgoing connection and the sums of both tag tables, in any order of reading |
| `ConnTrim.ConnManager.Candidates` | libp2p/connmanager.nim:795-802 | exactly the connected peers that are not exempt, each once, with score and connect time |
| `ConnTrim.ConnManager.DropUntil` | libp2p/connmanager.nim:815-820 | drops a prefix of the list, ending at the low mark or at the end of the list |
| `ConnTrim.ConnManager.TrimConnections` | libp2p/connmanager.nim:787-827 | spares exactly the peers connected for less than the grace period and the protected ones; leaves exactly max(low mark, spared peers) when started above the mark; nobody dropped has a higher score than a surviving peer that is not spared, nor at the same score a later connect time |
| `ConnTrim.ConnManager.TriggerTrim` | libp2p/connmanager.nim:829-841 | a trim starts exactly if none is under way, the high mark is passed and the silence is over, and then leaves that number of peers |
| `DialBackoff.Delay` | libp2p/dial_backoff.nim:59-77 | equals min(base * factor^(failures - tolerance - 1), ceiling) above the tolerance, with no intermediate product over the ceiling |
| `DialBackoff.DelayGrows` | libp2p/dial_backoff.nim:59-77 | the wait never shrinks with more failures and never passes the ceiling |
| `DialBackoff.BackoffTable.Prune` | libp2p/dial_backoff.nim:83-92 | exactly the entries whose wait ended at least `maxDelay` ago go |
| `DialBackoff.BackoffTable.EvictSoonest` | libp2p/dial_backoff.nim:94-109 | one entry whose wait ends first goes |
| `DialBackoff.BackoffTable.CountFailure` | libp2p/dial_backoff.nim:132-157 | the count goes on exactly if the wait ended less than `maxDelay` ago, and else starts at one; the wait is what the jitter leaves of min(base * factor^(count - tolerance - 1), maxDelay); keys make way only for a new key in a full table, all that ended `maxDelay` ago or else one that ends first; no other key changes |
| `DialBackoff.BackoffTable.RecordSuccess` | libp2p/dial_backoff.nim:180-184 | forgets the key and ends its streak |
| `DialBackoff.BackoffTable.Blocked` | libp2p/dial_backoff.nim:111-121 | a key is blocked exactly until the end of the wait of its last failure, while its streak counts, and never later than the ceiling after that failure |
| `DialBackoff.Drive` | libp2p/dial_backoff.nim:132-188 | over any run the table holds exactly the keys with a streak, and the count of each is its failures since its last success, since it made way, or since `maxDelay` went by after its wait; the n-th failure of every streak waits what the jitter leaves of min(base * factor^(n - tolerance - 1), maxDelay); keys made way only in a full table |
| `Hkdf.Expand` | libp2p/crypto/hkdf.nim:21-61 | the outputs, row after row, are the bytes of blocks T(1), T(2), ..., each the keyed hash of the block before it, the info and its number; as many blocks as the outputs need, at most 255 |
| `Hkdf.BlocksAt` | libp2p/crypto/hkdf.nim:21-61 | every prefix of the concatenated blocks is read off the byte stream |
| `Rng.Unbiased` | libp2p/crypto/rng.nim:109-121 | every value below the bound comes from the same number of accepted words |
| `Rng.WordBijection` | libp2p/crypto/rng.nim:116-119 | every word comes from exactly one draw of four bytes |
| `Rng.TakesMost` | libp2p/crypto/rng.nim:113 | fewer than half of all words are rejected |
| `Rng.RandBelow` | libp2p/crypto/rng.nim:109-121 | the first accepted word decides, by its residue |
| `Rng.WidthIff` | libp2p/crypto/rng.nim:127-131 | the width is right for every range except that of all integers, where it wraps to zero |
| `Rng.WidthCheckIff` | libp2p/crypto/rng.nim:127-132 | the size check passes exactly for ranges that fit, and for that one |
| `Rng.Rand` | libp2p/crypto/rng.nim:123-134 | the value lies in the range, across sign changes, by the residue of an accepted word |
| `Rng.PicksDistinct` | libp2p/crypto/rng.nim:136-153 | no position is picked twice |
| `Rng.PicksInjective` | libp2p/crypto/rng.nim:136-153 | different draws pick differently |
| `Rng.PicksSurjective` | libp2p/crypto/rng.nim:136-153 | every ordered selection of distinct positions comes from some draws |
| `Rng.Pick` | libp2p/crypto/rng.nim:136-153 | the in-place swaps return the elements at the specified positions; nothing from an empty list |
| `Shuffles.Shuffle` | libp2p/crypto/rng.nim:96-107 | the in-place loop leaves the elements in the order built by the choices (low byte + 256 * high byte) mod i, which is a single cycle |
| `Shuffles.BuiltIff` | libp2p/crypto/rng.nim:103-107 | an order comes from some choice of places exactly if it is a single cycle, and then from one choice only |
| `Shuffles.BuiltBySwaps` | libp2p/crypto/rng.nim:103-107 | the built order is what swapping each place, from the last down, with its choice leaves |
| `Shuffles.OrdersIff` | libp2p/crypto/rng.nim:96-107 | an order comes from some bytes exactly if it is a single cycle whose choices lie below 65536, which up to 65537 elements is every single cycle |
| `Shuffles.CycleMovesAll` | libp2p/crypto/rng.nim:103-107 | so of two or more elements none keeps its place |
| `Shuffles.NamedIff` | libp2p/crypto/rng.nim:105-106 | two bytes name a place exactly if it is one of the first 65536 |
| `Shuffles.EvenIff` | libp2p/crypto/rng.nim:105-106 | the choice below a place is even exactly if that place divides 65536 |

## Left out

- Transports, sockets, DNS, TLS, the FFI layer and logging: input and output, not logic.
- Cryptographic primitives, signatures, base32, base58 and base64, IP and UTF-8 parsing: foreign code, taken as
  parameters or inverse pairs.
- Text of `onion` and `onion3` with port 0, and peer id text: their transcoders do not invert there, so the
  round trip does not cover them; their binary form is covered.
- Protobuf varints, signed (zigzag) varints and integer types narrower than 64 bits: easier variants of the
  modelled codec.
- Cancellation of a ranked dial anywhere but at the race.
- Bounded channels, resets that lose data and cancellation of a negotiation: channels are unbounded and
  ordered, and a side stops only where its program does.
- The exchange around `list`, and the overloads of `select` and `handle`, which wrap the two modelled loops.
- Awaits inside `resolve`: mappers are functions, and nothing changes the table between the pass and the answer.
- Reachability summaries, their notifications and the address policy: plain reads of the modelled table.
- Decaying tags: their values are part of the score; the decay loop itself is not modelled.
- Waiting for connections to close in `dropPeer`, and peer events: only the part before the first wait matters
  to a trim.
- `multihash.nim` equality, peer store books, switch and builder wiring, service lifecycles.
- Patterns.MatchDecides: states completeness for greedy-safe patterns only; what other patterns miss depends on
  the words themselves, as the two counterexamples show.
- DialBackoff.BackoffTable.CountFailure: does not model the floating-point rounding of the jitter, which is any
  part of the wait.
- MultiaddressText.PathRoundTripIff: a path protocol is last in an address, since its text takes up the rest.
- DialCandidate.RankMeaning: states the rank of readable addresses; the `key` text of a candidate is opaque.
