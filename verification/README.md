# Byte buffers, socket streams and the device hub

A model of the parts of the hub and of its vendored Asio headers that do real work on state, with proofs of what they
promise.

- **Buffers, BufferCopy.** Scatter/gather buffers over one memory. Every overload of `buffer_copy` copies a prefix of
  the flattened source into the flattened target, whatever the cutting into buffers, empty ones included. Target bytes
  must not overlap each other or the source (`memcpy`); source buffers may overlap each other.
- **BuffersIterator.** The random-access iterator over a buffer sequence. Each position has one canonical place, every
  operation keeps to it, and `advance(n)` ends where `n` single steps end.
- **BoundedFifo, Streambuf, DynamicBuffers, QueueRuns.** Three growable byte queues with the prepare/commit/consume
  protocol (DynamicBuffer, section [buffer.reqmts.dynamicbuffer] of ISO/IEC TS 19216). All of them are one bounded
  first-in first-out queue over every legal history; the streambuf still is when stream reads and writes
  ([streambuf.virt.get] and [streambuf.virt.put] of ISO/IEC 14882) are mixed in. The string and the vector adapter are
  one class with a `Backing`, as their code differs in one expression of `consume`.
- **SocketAnswers, SocketStreambuf, SocketWrites, SocketReads.** The socket stream's flush and refill loops. `send`,
  `recv`, `poll` and the clock give arbitrary answers, one per loop round; a call whose answers run out has not returned
  yet. What each call of a history does is a function of the calls and the answers, and from these it is decided exactly
  when bytes are sent twice, and when stepping back gives back what was read.
- **Hub, SocketServer, HubSystem.** The dispatch loop, the socket server in front of it, and both together: which
  devices exist, where messages go and what is answered, for every history of packets, heartbeat reports and empty polls.

A method that the source has is a method here, on a class with the source's fields. `std::vector` and `std::string`
members that are resized are fields of type `seq`; memory, and the two fixed buffers of the socket stream, are arrays.
Pointers into a buffer are offsets from its start. A `length_error` is a false or None result. Methods named `Run...`,
`...Run`, `Serve` and `Dispatch` perform a whole history on a fresh object and return what a caller observes, so their
contracts speak of all histories. Loop bodies and branches that cost a solver much stand in methods of their own
(`CopyRound`, `AdvanceForward`, `ShiftAndGrow`, `MakeRoom`, `Flush`, `Receive`, `DispatchOne`).

## Where the code and its promise part

- A failed `reserve` has already moved the bytes (basic_streambuf.hpp:325 before :339). `SlippedSame` and
  `SlippedHarmless` say exactly when the contents survive; `FailedPrepareScrambles` is a reachable case where they do not.
- `prepare` of the string and vector adapters stores the uncapped length (buffer.hpp:1723), so the size in use can exceed
  the maximum. `RunPrepared`: after a first `prepare(0)` either adapter is the bounded queue with all of the initial
  contents in it, over the maximum or not, and every later `prepare(n)` succeeds iff the size then in use plus n fits.
- The two adapters erase differently without a prior `prepare` (buffer.hpp:1803 and 2076). `EraseBoth`: they agree iff the
  amount or the length is within the maximum.
- A flush that does not complete forgets what it has sent, so the next one sends it again. `SocketWrites.WriteRun`: sent
  followed by pending is what was written iff no call was offered some, but not all, of the bytes due, where `Offered`
  counts what the socket's answers take before one that makes the flush give up. `FailedFlushRepeats` is a case.
- The put-back area of the socket stream is never filled. `SocketReads.FaithfulIff`: stepping back gives nothing or the
  byte last taken iff more was taken than stepped back over since the last refill, or eight steps into the put-back area
  are used up, or that byte is a 0. `UngetAcrossRefill` is a case.
- `isDeviceRegistered` and `getRegisteredDevice` are documented as looking for a UUID, but they accept any UUID inside
  which it occurs. `WelcomedForwarded`, `RoutedHome` and `Route` have the exact conditions; `ShadowedUuid` and
  `ShadowedRoute` follow any UUID that registers after a longer one around it. A UUID whose first registration has an
  unknown type never gets a device either, since later ones do not reach the hub.

## Model

| member | source | states |
|---|---|---|
| Buffers.BytesAt | include/asio/buffer.hpp:107-160 | reading memory through the flat address list of a buffer sequence is reading the concatenation of its buffers |
| Buffers.BufferSize | include/asio/buffer.hpp:558-572 | the loop's total is the length of the concatenation, for every memory |
| BufferCopy.BufferCopy1 | include/asio/buffer.hpp:2173-2183 | the lesser size is copied, and nothing else in memory changes |
| BufferCopy.CopyOneOne | include/asio/buffer.hpp:2185-2201 | both forms meet the flat specification on two one-buffer sequences |
| BufferCopy.CopyOneMany | include/asio/buffer.hpp:2203-2224 | the loop over the sources meets the flat specification |
| BufferCopy.CopyManyOne | include/asio/buffer.hpp:2226-2247 | the loop over the targets meets the flat specification |
| BufferCopy.CopyRound | include/asio/buffer.hpp:2262-2287 | one round keeps both walks at the same flat place, copies what lies between, and moves on in at least one or uses up the limit |
| BufferCopy.CopyManyMany | include/asio/buffer.hpp:2249-2291 | terminates for all cuttings and returns the lesser total; the flat target gets exactly that prefix of the flat source |
| BufferCopy.CopyManyManyLimited | include/asio/buffer.hpp:2293-2339 | the same with the limit as a third bound on the count |
| BufferCopy.BufferCopy | include/asio/buffer.hpp:2361-2411 | every pair of cardinalities, limited or not: target bytes become source[..n] + old target[n..], source bytes stay; n is at most the limit and either length, and equal to one of these |
| BufferCopy.CopiedBytes | include/asio/buffer.hpp:2343-2360 | the address-level outcome, in terms of contents, with everything outside the target unchanged |
| BufferCopy.CopiedUnique | include/asio/buffer.hpp:2185-2339 | the specification has one outcome, fixed by the flat sequences alone, so all overloads and all cuttings agree |
| BufferCopy.GatherThenScatter | include/asio/buffer.hpp:2203-2291 | gathering into one buffer of the total size and scattering over any other cutting reproduces the bytes |
| BuffersIterator.BuffersIterator.Begin | include/asio/buffers_iterator.hpp:167-184 | stands at position 0, past leading empty buffers |
| BuffersIterator.BuffersIterator.End | include/asio/buffers_iterator.hpp:187-203 | stands at the total size, the end place |
| BuffersIterator.BuffersIterator.Increment | include/asio/buffers_iterator.hpp:354-374 | one canonical place forward, past any number of empty buffers |
| BuffersIterator.BuffersIterator.Decrement | include/asio/buffers_iterator.hpp:377-404 | one canonical place back; the search always finds an earlier non-empty buffer |
| BuffersIterator.BuffersIterator.AdvanceForward | include/asio/buffers_iterator.hpp:409-443 | terminates for every in-range n at the canonical place n on; the exit at the end is taken with nothing left |
| BuffersIterator.BuffersIterator.AdvanceBack | include/asio/buffers_iterator.hpp:444-484 | terminates for every in-range n at the canonical place n back; the exit at the beginning is never taken |
| BuffersIterator.BuffersIterator.Advance | include/asio/buffers_iterator.hpp:407-485 | reaches the buffer, offset and position that n increments, or -n decrements, reach |
| BuffersIterator.BuffersIterator.Plus | include/asio/buffers_iterator.hpp:269-294 | iter + n and iter - n are new iterators n steps away; the old one stays |
| BuffersIterator.BuffersIterator.Dereference | include/asio/buffers_iterator.hpp:341-345 | gives the byte of the concatenation at the iterator's position |
| BuffersIterator.BuffersIterator.At | include/asio/buffers_iterator.hpp:217-223 | iter[n] is the byte of the concatenation n further |
| BuffersIterator.CanonicalUnique | include/asio/buffers_iterator.hpp:348-351 | equal positions imply equal buffer and offset, so comparing positions is right |
| BuffersIterator.PrevOfNext | include/asio/buffers_iterator.hpp:354-404 | decrement undoes increment on buffer, offset and position |
| BuffersIterator.NextOfPrev | include/asio/buffers_iterator.hpp:354-404 | increment undoes decrement on buffer, offset and position |
| BuffersIterator.StepsCompose | include/asio/buffers_iterator.hpp:255-267 | advancing by m and then n, of either sign, is advancing by m + n |
| BuffersIterator.BeginToEnd | include/asio/buffers_iterator.hpp:167-203 | end - begin is the total size, and that many steps lead from one to the other |
| BuffersIterator.RandomAccessLaws | include/asio/buffers_iterator.hpp:296-337 | a + (b - a) is b, == is equality of buffer and offset, < holds iff b is some positive number of steps ahead |
| BuffersIterator.WalkReads | include/asio/buffers_iterator.hpp:341-374 | k steps from the beginning reads byte k of the concatenation |
| BufferCopy.CopiedWhole | include/asio/buffer.hpp:2203-2224 | a whole copy into one buffer puts byte k of the concatenation at its place k |
| BuffersIterator.WalkReadsCopy | include/asio/buffers_iterator.hpp:341-374 | iterating yields the bytes that buffer_copy puts into one flat buffer |
| BoundedFifo.Order | include/asio/basic_streambuf.hpp:221-253 | what is readable after a run is the tail of all that was there or committed, in order |
| BoundedFifo.RunBounded | include/asio/basic_streambuf.hpp:201-214 | size() <= max_size() after every step of every legal run, and only prepare fails |
| BoundedFifo.LegalIff | include/asio/basic_streambuf.hpp:201-238 | a history is legal iff each commit that its run comes to directly follows a prepare of at least its size |
| BoundedFifo.FinalIff | include/asio/basic_streambuf.hpp:221-253 | a run comes to an end state iff every step is performed and the last one does not fail |
| Streambuf.Streambuf.constructor | include/asio/basic_streambuf.hpp:131-141 | starts empty, with a put area of min(max_size, 128) |
| Streambuf.Streambuf.Reserve | include/asio/basic_streambuf.hpp:308-346 | succeeds iff size() + n <= max_size(), keeps the contents and gives n bytes of room; the whole new state, and what a failure leaves |
| Streambuf.Streambuf.Prepare | include/asio/basic_streambuf.hpp:214-219 | the output sequence of n bytes at the put pointer iff it fits, with the contents unchanged |
| Streambuf.Streambuf.Commit | include/asio/basic_streambuf.hpp:233-238 | appends the first n output bytes, or all of them if there are fewer |
| Streambuf.Streambuf.Consume | include/asio/basic_streambuf.hpp:247-254 | drops the first n bytes, or all of them if there are fewer |
| Streambuf.Streambuf.Underflow | include/asio/basic_streambuf.hpp:263-274 | gives the first byte or eof without changing the contents, and makes all of them gettable |
| Streambuf.Streambuf.MakeRoom | include/asio/basic_streambuf.hpp:287-299 | from a full put area: room for one more iff size() < max_size(), up to 128 more as the maximum allows, and the same contents; otherwise nothing changes |
| Streambuf.Streambuf.Overflow | include/asio/basic_streambuf.hpp:283-306 | appends exactly c iff size() < max_size(), through every choice of growth; otherwise nothing at all changes |
| Streambuf.Streambuf.Put | include/asio/basic_streambuf.hpp:283-306 | a character write, as the stream base class makes it, appends iff size() < max_size() |
| Streambuf.Streambuf.Take | include/asio/basic_streambuf.hpp:263-274 | a character read, as the stream base class makes it, removes the first byte iff there is one |
| Streambuf.Streambuf.ReadSizeHelper | include/asio/basic_streambuf.hpp:353-359 | the most that is at most m, that prepare can give, and that is at most 512 or fits the capacity; 0 iff m is 0 or the buffer is full |
| Streambuf.SlippedSame | include/asio/basic_streambuf.hpp:321-340 | a failed reserve keeps the contents iff they repeat with the get pointer's offset as period |
| Streambuf.SlippedHarmless | include/asio/basic_streambuf.hpp:321-340 | it keeps all contents of a size iff the get pointer is at the base or the size is at most its offset |
| Streambuf.FailedPrepareScrambles | include/asio/basic_streambuf.hpp:308-340 | a reachable failing prepare that turns 2, 3 into 3, 3 |
| DynamicBuffers.DynamicBuffer.Prepare | include/asio/buffer.hpp:1714-1728 | succeeds iff size() + n fits; leaves the sentinel mode, keeps the contents and the bound, resizes by n |
| DynamicBuffers.DynamicBuffer.Commit | include/asio/buffer.hpp:1743-1747 | appends up to n output bytes and discards the rest of the output |
| DynamicBuffers.DynamicBuffer.Grow | include/asio/buffer.hpp:1757-1766 | appends n zeros to the bytes within the maximum iff they then still fit; otherwise changes nothing |
| DynamicBuffers.DynamicBuffer.Shrink | include/asio/buffer.hpp:1775-1778 | keeps the bytes within the maximum but the last n of them, or none if there are fewer |
| DynamicBuffers.DynamicBuffer.Consume | include/asio/buffer.hpp:1792-1804 | drops from the front in either mode, keeps the bound, and keeps prepared output behind; over a vector (2065-2077) the sentinel mode stops at the maximum |
| DynamicBuffers.Window | include/asio/buffer.hpp:1672-1676 | data(pos, n) covers at most n of the bytes from pos on that lie within both the store and the maximum |
| DynamicBuffers.DynamicBuffer.Write | include/asio/buffer.hpp:1672-1676 | writing through data(pos, n) puts the data at pos, as far as the window reaches; all bytes before and after stay |
| QueueRuns.RunStreambuf | include/asio/basic_streambuf.hpp:214-254 | every legal history on a fresh streambuf shows what the bounded queue shows, up to the same first failure |
| QueueRuns.RunDynamic | include/asio/buffer.hpp:1714-1804 | the same over a string or a vector with any initial contents within the maximum |
| QueueRuns.RunPrepared | include/asio/buffer.hpp:1714-1728 | after prepare(0) with any initial length, either adapter shows the bounded queue with those contents, for every legal history: over the maximum no prepare succeeds until enough is consumed |
| QueueRuns.QueuesAgree | include/asio/buffer.hpp:1714-2077 | the three implementations are indistinguishable by readable bytes and first failing step |
| QueueRuns.RunStream | include/asio/basic_streambuf.hpp:214-346 | histories that mix prepare/commit/consume with character writes and reads still show one bounded queue |
| QueueRuns.RunEdits | include/asio/buffer.hpp:1672-1804 | every history of grow, shrink, write and consume on a string or a vector makes just these plain edits of the contents, within the maximum, up to the same first failure |
| QueueRuns.EditsAgree | include/asio/buffer.hpp:1757-2077 | string and vector agree on contents and first failure over every history of grow, shrink, write and consume |
| QueueRuns.GrowThenShrink | include/asio/buffer.hpp:1757-1778 | grow(n) then shrink(n) restores the contents iff they were within the maximum |
| QueueRuns.EraseBoth | include/asio/buffer.hpp:1803-2076 | the two consumes leave the same bytes iff the amount or the length is within the maximum |
| SocketAnswers.FlushSends | include/asio/basic_socket_streambuf.hpp:489-522 | a flush sends what the answers offer, up to all; it completes iff that is all, and has failed iff it is not and some round gives up |
| SocketAnswers.FlushFirstRound | include/asio/basic_socket_streambuf.hpp:489-522 | what a flush makes of its first round: taken bytes are sent, would_block and try_again are polled and tried again, anything else fails with its own error, and an expired round with timed_out |
| SocketAnswers.FlushError | include/asio/basic_socket_streambuf.hpp:489-522 | for all answers: a failed flush has the error of the first round to give up, a complete one that of the round that took the last byte, a waiting one what its last round left |
| SocketAnswers.OfferedSome | include/asio/basic_socket_streambuf.hpp:489-522 | something is offered iff a round takes bytes and none before it is expired, refused or unready |
| SocketAnswers.RefillGets | include/asio/basic_socket_streambuf.hpp:423-464 | a refill gets the bytes of the first round that does not try again; without any it waits iff all rounds try again, and has failed otherwise |
| SocketAnswers.RefillFirstRound | include/asio/basic_socket_streambuf.hpp:423-464 | what a refill makes of its first round: bytes are a chunk, no bytes are eof, would_block and try_again are polled and tried again, anything else fails with its own error |
| SocketAnswers.RefillError | include/asio/basic_socket_streambuf.hpp:423-464 | for all answers: no error with a chunk, otherwise that of the first round that does not try again, or of the last poll while waiting |
| SocketStreambuf.SocketStreambuf.constructor | include/asio/basic_socket_streambuf.hpp:566-577 | starts with an empty get area at 8 and nothing pending, in two buffers of 512 |
| SocketStreambuf.SocketStreambuf.Flush | include/asio/basic_socket_streambuf.hpp:489-522 | sends a prefix, the whole one iff it completes, with the outcome and error that the answers decide |
| SocketStreambuf.SocketStreambuf.Overflow | include/asio/basic_socket_streambuf.hpp:468-540 | completing sends all that is pending and stores c, or sends c itself when unbuffered; otherwise a proper prefix is sent and the put area stays |
| SocketStreambuf.SocketStreambuf.Sync | include/asio/basic_socket_streambuf.hpp:542-545 | completing sends all that is pending; otherwise a proper prefix is sent and the put area stays |
| SocketStreambuf.SocketStreambuf.Unbuffer | include/asio/basic_socket_streambuf.hpp:547-558 | gives up the put buffer iff nothing is pending, and sends nothing |
| SocketStreambuf.SocketStreambuf.Put | include/asio/basic_socket_streambuf.hpp:468-540 | with room, a character write appends c and sends nothing; without, it flushes as the answers decide and then holds c alone, or sends c itself when unbuffered |
| SocketStreambuf.SocketStreambuf.Receive | include/asio/basic_socket_streambuf.hpp:423-464 | at most one chunk is taken from the socket, with the outcome and error that the answers decide |
| SocketStreambuf.SocketStreambuf.Underflow | include/asio/basic_socket_streambuf.hpp:414-466 | refills an empty get area with exactly the delivered chunk after the put-back area, or leaves everything; fails at once on a non-empty one |
| SocketStreambuf.SocketStreambuf.Get | include/asio/basic_socket_streambuf.hpp:414-466 | a character read takes the first byte of the get area, or, when that is empty, of the chunk that the answers decide; otherwise it fails or waits as they decide and moves nothing |
| SocketStreambuf.SocketStreambuf.Peek | include/asio/basic_socket_streambuf.hpp:414-466 | the same without taking the byte |
| SocketStreambuf.SocketStreambuf.Unget | include/asio/basic_socket_streambuf.hpp:441-446 | gives back the delivered byte before the get area while past the start of the refill, a 0 from each place of the put-back area, and nothing before it |
| SocketWrites.WriteRun | include/asio/basic_socket_streambuf.hpp:468-558 | for every history of writes, flushes and unbuffering and all answers: the outcome of each call, what was sent and what is pending; sent + pending == written iff no call was offered some but not all of what was due |
| SocketWrites.CompleteCall | include/asio/basic_socket_streambuf.hpp:468-540 | a completing call sends what is due; that and what it keeps is what was pending and its own character |
| SocketWrites.IncompleteCall | include/asio/basic_socket_streambuf.hpp:489-516 | any other call changes nothing but to send, of the bytes that stay pending, exactly the offered prefix |
| SocketWrites.SettledConserved | include/asio/basic_socket_streambuf.hpp:468-558 | in every history, what the completing calls have sent followed by what is pending is what was written |
| SocketWrites.RecentAt | include/asio/basic_socket_streambuf.hpp:468-558 | what is pending is always the last characters written, 512 at most |
| SocketWrites.Conserved | include/asio/basic_socket_streambuf.hpp:468-558 | sent + pending == written, in order, iff no call repeats |
| SocketWrites.FailedFlushRepeats | include/asio/basic_socket_streambuf.hpp:489-516 | from a fresh stream, 1, 2 arrive as 1, 1, 2 when the first flush fails half way |
| SocketReads.ReadRun | include/asio/basic_socket_streambuf.hpp:414-466 | for every history of reads, peeks and steps back and all answers: what each call gives, what was delivered, what is held and what is still to be read; held + get area == delivered iff every step back gave back the last byte |
| SocketReads.ReadKeepsStream | include/asio/basic_socket_streambuf.hpp:414-466 | a read or peek changes the held and readable bytes only by what arrives, at their end |
| SocketReads.Conserved | include/asio/basic_socket_streambuf.hpp:414-466 | held + get area == delivered, in order, iff every step back was faithful |
| SocketReads.UngetGivesBack | include/asio/basic_socket_streambuf.hpp:441-446 | the exact condition for a step back to give nothing or the last byte taken |
| SocketReads.FaithfulIff | include/asio/basic_socket_streambuf.hpp:441-446 | that condition after every history |
| SocketReads.UngetAcrossRefill | include/asio/basic_socket_streambuf.hpp:441-446 | from a fresh stream, two bytes in two chunks: the second step back gives 0 and not the first byte |
| Hub.ClassOfName | src/main.cpp:63-102 | each of the ten type names selects the class of that name |
| Hub.ClassOf | src/main.cpp:63-102 | a device is of the class that its type names |
| Hub.KnownTypes | src/main.cpp:63-102 | exactly the ten listed type names select a class |
| Hub.RegistryKeeps | src/main.cpp:63-66 | once registered, a UUID keeps the device of its first registration |
| Hub.HandledIffRegistered | src/main.cpp:104-115 | another message is handled by the device of the first registration before it, with its type, iff there is one; else it causes exactly one NOT_REGISTERED reply |
| Hub.EffectExplained | src/main.cpp:43-116 | a registration of a known type causes exactly one construction, of that UUID, type and class; of an unknown type, as an empty poll, nothing; any other message exactly one handling by the first such device or one error 10 |
| Hub.EffectsInOrder | src/main.cpp:43-116 | for every history the effects are one for each such item, in the order of the items, and nothing else |
| Hub.ConstructedFirst | src/main.cpp:43-116 | in every history, no device handles a message before it is constructed |
| Hub.RegistryExtends | src/main.cpp:58-103 | one message changes the registry exactly if it is the first known registration of its UUID |
| Hub.DispatchOne | src/main.cpp:43-116 | one round of the loop brings the registry from one point of the history to the next and causes just that message's effects |
| Hub.Dispatch | src/main.cpp:43-116 | for every history the registry holds exactly the first registrations with known types, all constructed in it, and the effects are as `EffectsInOrder` says |
| SocketServer.ContainsIff | src/Websocket/SocketServer.cpp:210-219 | the search for a UUID succeeds iff the registered one is some text, the UUID, and some text |
| SocketServer.FoundInside | src/Websocket/SocketServer.cpp:210-219 | a UUID is found wherever it stands inside another, prefix or not |
| SocketServer.SocketServer.FindEntry | src/Websocket/SocketServer.cpp:210-258 | the first entry inside which the UUID occurs |
| SocketServer.SocketServer.SendMessage | src/Websocket/SocketServer.cpp:63-76 | sends on that entry's connection, or returns false iff there is none |
| SocketServer.SocketServer.EraseEntry | src/Websocket/SocketServer.cpp:160-167 | removes the UUID's own entry and keeps all others in order |
| SocketServer.SocketServer.Receive | src/Websocket/SocketServer.cpp:117-186 | one packet brings the list, the hub's inbox and the replies from one point of the history to the next |
| SocketServer.SocketServer.ReportStatus | src/Websocket/SocketServer.cpp:333-358 | a status report adds one heartbeat message to the hub's inbox and changes nothing else |
| SocketServer.EventOutputs | src/Websocket/SocketServer.cpp:117-186 | what one event adds: error 11 for what is no message, error 10 for a message of an unknown UUID but a registration, a forwarded message for a new registration, any command but a heartbeat of a known UUID and each status report, and nothing otherwise |
| SocketServer.RepliesInOrder | src/Websocket/SocketServer.cpp:117-186 | for every history the errors go to the senders of just those events, in their order |
| SocketServer.ForwardedInOrder | src/Websocket/SocketServer.cpp:117-186 | for every history the inbox holds the messages of just those events, in their order |
| SocketServer.Serve | src/Websocket/SocketServer.cpp:103-186 | after every history: one entry per registered UUID with its last connection, in order of last registration; exactly these messages forwarded and these errors sent |
| SocketServer.Route | src/Websocket/SocketServer.cpp:63-76 | after every history, a message goes out on the connection of the earliest of the last registrations of the UUIDs around the given one, and on none iff there is none |
| SocketServer.ContainedInList | src/Websocket/SocketServer.cpp:210-219 | counting as registered is occurring inside some UUID registered before |
| HubSystem.WelcomedForwarded | src/Websocket/SocketServer.cpp:141-180 | at every moment, a registration that makes a device has reached the hub iff the UUID's first one has a known type and no UUID registered before contains it |
| HubSystem.DeviceExists | src/main.cpp:43-116 | however much of its inbox the hub has polled, and whatever empty polls come between, it has seen first registrations of exactly the UUIDs welcomed by the events behind that much |
| HubSystem.Run | src/main.cpp:43-116 | server and hub together, at any moment: a UUID has a device iff it was welcomed so, and is then connected |
| HubSystem.WelcomedWhenApart | src/Websocket/SocketServer.cpp:210-219 | with no UUID inside another, the type of the first registration alone decides |
| HubSystem.RoutedHome | src/Websocket/SocketServer.cpp:247-257 | a message goes to the UUID's own connection iff it is registered and no UUID containing it was last registered before it |
| HubSystem.ShadowedUuid | src/Websocket/SocketServer.cpp:141-180 | any UUID registering after a longer one around it gets no device, and its messages are answered as not registered |
| HubSystem.ShadowedRoute | src/Websocket/SocketServer.cpp:247-257 | what is sent to such a UUID goes out on the connection of the longer one |

## Left out

- BufferCopy: overlapping target memory, which `memcpy` excludes; all sizes are assumed to be addressable.
- Buffers.BufferSize: does not model wrap-around of the total, which only overlapping source buffers could reach.
- BuffersIterator: the default-constructed iterator in an undefined state, and steps out of range, which the assertions exclude.
- Grow: is not modelled after `prepare`; mixing the v1 and v2 operations of one adapter is undocumented. The same holds for Shrink.
- Streambuf and DynamicBuffers: allocation failure, `capacity()`, pointer overflow, and the narrowing to `int` in `pbump` and `gbump`.
- The sentinel `SIZE_MAX` of the adapters is a None, as no stored length can equal it.
- SocketStreambuf: move operations, `close`, `connect`, the destructor's flush, switching the socket to non-blocking, and the Windows Runtime branches.
- Termination of would-block retries: it depends on the answers, so completed, failed and still waiting calls are told apart instead.
- Devices: their own state, messages and `HandleMessage`; none of src/Devices changes the map of devices.
- HeartbeatThread: when a status is reported; reports appear as arbitrary heartbeat messages at arbitrary moments.
- Locks and the unlocked read of the connection list by the main thread; every step is taken as a whole.
- JSON parsing, sleeping and printing: messages are already parsed, and malformed payloads are None.
- The socket, acceptor, timer and serial wrappers, composed operations, coroutines and the website: forwarding, templates and DOM updates.
