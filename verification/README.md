# Models and proofs for tom_slab.h, tom_rcon.h and tom_ply.h

This project models three single-header C libraries in Dafny and proves properties of their whole runs. Every
statement below is a Dafny contract.

**SLAB allocator (`tom_slab.h`).** `SlabModel` is the allocator as a state machine on values: three lists of
pages, each page a base address, a set of free slots and the counter `numelems`. `SlabList` and
`SlabAllocator` are the allocator as the source has it: footers relinked in place in circular lists with a
sentinel, bitmap words and counters overwritten, pages found from addresses. Every method of
`SlabAllocator.Slab` is proved to take the state exactly where the state machine goes, and the theorems about
runs are proved of the state machine. `SlabLayout` is the address arithmetic (mask and division on addresses),
`SlabBitmap` the bitmap words as sets. `SlabLifetimes` and `SlabOrder` read the trace of calls to the page
allocator, the constructor and the destructor: how many there are of each, and that every one is in place.
`SlabQueues` says which pages are served, kept and returned, and in which order. The page allocator is a
parameter of each call: it offers a fresh page-aligned base or fails. Each locked operation is one step.

- `slab_free` lowers `numelems` only when the page changes lists (`tom_slab.h:473-489`). So the counter is an
  upper bound of the slots in use, not their number. The project proves the bound in every reachable state,
  exactly when one free breaks equality (`SlabRuns.FreeExact`), that equality holds in all reachable states
  exactly for pages of at most two elements (`SlabRuns.CountersExactIff`), and what the drift costs: with room
  for three elements or more, a page that ever counted two is never released again until a reset
  (`SlabRetention.RunHolds`).
- With one element per page (the FIXME at `tom_slab.h:472`) a freed page stays on the partial list with a
  counter of zero; the invariant allows it and the safety theorems cover it. Pages without a live slot all get
  back to the empty list exactly with room for two (`SlabIdle.ReturnedIff`).
- A pointer behind the last slot of a page, which no allocation returned, is not always caught: its bit is
  clear, so no panic fires. `SlabTails.FreeDecided` says when an assertion stops it, in every reachable state.
  If none does, the page is left with a bit set for a slot it does not have, and a later allocation can hand
  out memory over the page's footer (`SlabTails.TailRun`, a run for every layout).
- `slab_reset` does not trim: afterwards the bound on empty pages holds only if there are no pages
  (`SlabRuns.ResetTrimmed`).

**RCON (`tom_rcon.h`).** `RconFraming` has the wire format (Source RCON Protocol, sections "Basic Packet
Structure" and "Multiple-packet Responses"), `RconCompare` the branch-free password comparison, `RconModel`
one client as a value, `RconStream` and `RconRuns` a whole connection with its history, `RconAuth` the AUTH
packets that are compared past their end, `RconReplies` what the client reads in the bytes it is sent, with
the numbers of the protocol, `RconServer` the slots and calls in place, `RconServerRuns` whole runs of the
server, `RconSessions` who is connected and that a client that keeps to the protocol is served. How bytes
arrive, what waiting and accepting answer and when calls are made is arbitrary; what is sent is kept as a
trace.

- `rcon_read_i32` reads through plain `char` (`tom_rcon.h:315-320`), whose sign depends on the platform.
  Streams are parsed with the same function on both sides, for any way of reading words; packets written by
  `rcon_send` are read back in full where `char` is unsigned, and where it is signed exactly when no byte with
  its top bit set is followed by anything but all ones (`RconFraming.ReadBackSigned`,
  `RconFraming.SendParsesBack`).
- An AUTH packet whose payload holds no NUL is compared past its end (the FIXME at `tom_rcon.h:411`), into
  whatever the slot's buffer held before. The code fails what it is for there: for every password there is a
  run in which a client is authorised without it, because its predecessor in the slot sent it
  (`RconAuth.LeftoverPassword`; accepting a client at `tom_rcon.h:382-388` does not clear the buffer). Such an
  outcome is defined, and no error. A packet is safe from it exactly if its payload holds a NUL or is not the
  start of the password (`RconAuth.AuthExactly`), which the proofs call settled; every other one passes after
  the same honest login. Framing and conservation are proved for every byte stream; replies and authorisation
  for connections whose own AUTH packets all settled.
- A comparison that runs off the buffer, and a payload length below zero (`tom_rcon.h:434` with a length below
  14), are the outcome `Undefined`. Streams of well-formed packets never reach it and always settle
  (`RconRuns.WellFormedRun`).

**PLY parser (`tom_ply.h`).** `PlyTokens` cuts lines in place, `PlyHeaderSpec` says what a header means as a
fold over its lines, `PlyTypeNames` which names the types have, `PlyHeaderFacts` what follows for every
header, `PlyHeaderLines` which lines are accepted, `PlyHeaderText` writes headers from data and proves they
are read back, `PlyRecords` has the linked records, `PlyHeader` the parser working in its memory block.
`PlyScalar` has the binary scalars, `PlyNumbers` the numbers their bytes stand for, `PlyDouble` the conversion
of 64-bit ones, `PlyDecoder` decodes a body without any buffer and `PlyWindow` through the parser's window,
`PlyDelivery` is what callbacks see of it, `PlyCalls` in which order they are called, `PlyEncoder` writes
bodies and proves the decoder reads them back, `PlyPositions` compares the order of `ply_advance` with that of
the nested loops, `PlyStream` is the sliding window and the streaming functions, `PlyDriver` the driver with
callbacks, proved equal to the decoder, `PlyFile` a whole file. A read fills the request unless the input
ends; after any number of reads one may fail; callbacks answer by an arbitrary function of all calls so far.

- Elements without tuples or properties are not supported by the code (the FIXME at `tom_ply.h:762`).
  `PlyPositions.Lockstep` says exactly which bodies the stream goes through in the order of the nested loops:
  those where no element with values comes after one without. The driver's theorem covers all of these.
- Tuples must fit the buffer (the TODO at `tom_ply.h:811`), and a body cut short is not noticed: the readers
  go past the bytes in the window. `PlyDriver.ProcessWithCallbacks` covers all bodies up to that point, and
  `PlyWindow.CutExactly` says when it is reached.
- float64 values are converted to double from the integer their bits form (`tom_ply.h:687`, `tom_ply.h:736`).
  `PlyDouble.ConvertedAsMeant` says for which bits that is the number meant: two patterns of all.
- `strchr` in `ply_process_header` may look past the bytes read (`tom_ply.h:530`). The header's meaning is
  left open for a line that ends neither in a newline nor at a NUL within the 1024 bytes in view, and the
  model reports `Undefined` there; for all other input the parser is proved to agree with the fold.

Platform: 8-byte pointers and longs, 32-bit int and unsigned.

## Model

| member | source | states |
|---|---|---|
| SlabLayout.CreateLayoutExact | tom_slab.h:322-348 | for every int asked for: rounding overflows exactly for the sixteen largest; otherwise slab_create rounds the size up to the least multiple of 16 that holds it and is at least 16, and refuses exactly the sizes that then do not fit beside the footer |
| SlabLayout.MaxElemsFits | tom_slab.h:168-168 | for every accepted size and page size: at least one element fits, all lie below the footer, the bitmap has a bit for each |
| SlabLayout.MaskIsFloor | tom_slab.h:170-170 | masking off the low bits of any address is rounding down to the page size |
| SlabLayout.SlotRoundTrip | tom_slab.h:458-460 | from any address inside slot i, the base and index computed by slab_free are the page and i |
| SlabLayout.SlotAligned | tom_slab.h:438-439 | slots are 16-aligned |
| SlabLayout.SlotsDisjoint | tom_slab.h:287-289 | different slots, of one page or of two, share no byte |
| SlabLayout.NodeBase | tom_slab.h:438-438 | the base is also recovered from the address of the list node in the footer |
| SlabLayout.FooterFits | tom_slab.h:168-200 | the footer holds signature, links, bitmap and counter with less than eight bytes to spare, and the bitmap has a bit for each sixteen bytes of the page with less than a word to spare |
| SlabBitmap.SetBitInserts | tom_slab.h:163-163 | setting a bit, in any word, adds just that index to the free set |
| SlabBitmap.ClrBitRemoves | tom_slab.h:164-164 | clearing a bit removes just that index |
| SlabBitmap.FindFirstSet | tom_slab.h:422-422 | one plus the position of the least significant one bit, zero for zero |
| SlabBitmap.ScanFirstFree | tom_slab.h:419-426 | the word scan finds the least free index, and -1 exactly if there is none |
| SlabList.Link | tom_slab.h:213-218 | the two link fields are set, nothing else |
| SlabList.List.constructor | tom_slab.h:220-226 | a new list is empty and its sentinel points at itself |
| SlabList.List.PushBack | tom_slab.h:228-234 | the ring represents the old sequence with the node at its end; count is the length |
| SlabList.List.Remove | tom_slab.h:236-252 | the node is taken out wherever it stands, the order of the others is kept, and none of the consistency assertions fails |
| SlabList.List.PopFront | tom_slab.h:254-263 | NULL exactly for the empty list, else the first node, which is removed; slab_alloc takes its empty page with it |
| SlabList.List.IsEmpty | tom_slab.h:265-269 | true exactly if the list represents the empty sequence |
| SlabAllocator.Slab.Grow | tom_slab.h:278-294 | exactly the state machine's growth: a page with every slot constructed and free at the end of the empty list, or no change if the page allocator fails |
| SlabAllocator.Slab.Release | tom_slab.h:296-309 | the page leaves its list, the trace goes on with the state machine's release (its order is SlabOrder.ReleasedAscends), the others are untouched |
| SlabAllocator.Slab.ReleaseList | tom_slab.h:311-320 | the walk that removes while walking ends, having released every node once in order |
| SlabAllocator.Slab.Destroy | tom_slab.h:353-363 | the new state and trace are the state machine's after destruction: all pages of all lists released (order: SlabOrder.RunOrderly, SlabQueues.DestroyReturns) |
| SlabAllocator.Slab.ResetList | tom_slab.h:365-382 | every node of the list ends, cleared, at the end of the empty list, in order |
| SlabAllocator.Slab.Reset | tom_slab.h:384-393 | the new state is the state machine's after reset |
| SlabAllocator.Slab.MakeReady | tom_slab.h:402-412 | afterwards a partial page is at hand, taken from the empty list or grown; or nothing changed and the page allocator failed |
| SlabAllocator.Slab.Alloc | tom_slab.h:395-440 | the new state and the pointer are those of the state machine; the assertion on the counter holds |
| SlabAllocator.Slab.Trim | tom_slab.h:442-448 | the loop ends in the state machine's trimmed state, whose lists SlabModel.Trim gives in numbers, also where a pointer behind the last slot was accepted |
| SlabAllocator.Slab.Free | tom_slab.h:450-494 | for every pointer but into foreign memory: the new state and the outcome (done, which of the two panics, or an assertion that fails) are those of the state machine; the allocator is as it should be unless a pointer behind the last slot was accepted |
| SlabModel.Trim | tom_slab.h:442-448 | the partial and full lists and the sizes stay; the empty list keeps its last pages, as many as there are of the others, or all if they are no more |
| SlabSteps.CreateInv | tom_slab.h:333-350 | a new allocator satisfies the invariant and has no live pointer |
| SlabSteps.HeadHasRoom | tom_slab.h:414-427 | at the head of the partial list the counter is below the maximum and bounds the slots in use, and a free slot exists |
| SlabSteps.AllocCorrect | tom_slab.h:395-440 | the invariant is kept; NULL exactly if there is neither a partial nor an empty page and the page allocator fails, and then nothing changed; else a pointer nobody holds is added to the live set |
| SlabPanics.FreeInOwnPage | tom_slab.h:458-491 | for every pointer into an own page, its unused tail and its footer included, whenever the invariant holds: which of panic, failed assertion and return happens, by the counter and the slots in use; the invariant is kept for pointers into slots and when the call does not return |
| SlabTails.FreeDecided | tom_slab.h:450-494 | for every reachable state and every pointer, in own pages or not: carried out for a pointer into a live slot, and then just that slot is given back and no more empty pages are left than others; the panics are exactly "no page of mine" and "already free"; a pointer behind the last slot is taken or stopped by an assertion as its page's counter says, and taken breaks the allocator |
| SlabTails.TailExactly | tom_slab.h:458-491 | a pointer behind the last slot is taken if and only if its page's counter is two or more, or the maximum; then, after trimming, the allocator is broken |
| SlabTails.TailRun | tom_slab.h:419-494 | for every accepted layout, a run after which slab_free takes the last byte of a full page, and the next slab_alloc hands out memory over the footer |
| SlabSteps.FreeLive | tom_slab.h:450-494 | freeing a live pointer never panics and removes exactly it |
| SlabSteps.GiveBackKeeps | tom_slab.h:462-489 | before trimming, the page state machine is kept and the same pages remain |
| SlabSteps.GiveBackAtFull | tom_slab.h:473-477 | a full page goes to the partial list with its counter lowered, unless the slot is already free |
| SlabSteps.TrimKeeps | tom_slab.h:442-448 | trim keeps the invariant, the live set, and the partial and full lists; it releases only the oldest empty pages, and stops exactly when there are no more empty than other pages |
| SlabQueues.TrimExactly | tom_slab.h:442-448 | the pages that trim returns are, in order, exactly the first ones by which the empty pages outnumber the others; if they do not, nothing is called |
| SlabQueues.FreeReturns | tom_slab.h:450-494 | freeing a live pointer returns exactly the pages by which the empty ones, with the one it may empty, outnumber the others |
| SlabQueues.RunReturns | tom_slab.h:450-494 | over every run: a free returns no page and calls nothing if and only if the empty pages, with the one it may empty, are no more than the others |
| SlabQueues.StepQueues | tom_slab.h:395-494 | alloc and free use each of the three lists as a queue: pages leave from the front or by name, keep their order and join at the end |
| SlabQueues.AllocServes | tom_slab.h:402-439 | alloc serves the page longest partial, else the one longest empty, else the page offered, and of it the lowest free slot |
| SlabQueues.ResetQueues | tom_slab.h:384-393 | after reset the empty list holds the pages in the order empty, partial, full; nothing is called |
| SlabQueues.DestroyReturns | tom_slab.h:353-363 | destroy returns every page, in the order empty, partial, full |
| SlabSteps.ResetCorrect | tom_slab.h:384-393 | reset keeps the invariant and every page and empties the live set |
| SlabRuns.RunRefines | tom_slab.h:384-494 | over every run of alloc, free and reset the allocator is a set of live pointers, its invariant holds throughout, and no pointer in use is handed out |
| SlabRuns.CounterPositive | tom_slab.h:468-468 | the assertion on the counter in slab_free holds for every live pointer |
| SlabRuns.RunTrimmed | tom_slab.h:491-491 | in every run without reset there are never more empty pages than others |
| SlabRuns.ResetTrimmed | tom_slab.h:384-393 | after a reset that bound holds exactly if there is no page |
| SlabRuns.FreeExact | tom_slab.h:473-489 | from exact counters, a free leaves them exact if and only if the page's counter was one or the maximum |
| SlabRuns.SmallRunExact | tom_slab.h:473-489 | with at most two elements a page, counters stay exact over every run |
| SlabRuns.CountersExactIff | tom_slab.h:473-489 | counters equal occupancy in all reachable states if and only if a page holds at most two elements |
| SlabRuns.InexactRun | tom_slab.h:473-489 | for three or more elements a page, a run after which a counter is too high |
| SlabRetention.RunHolds | tom_slab.h:473-489 | with three or more elements a page, a page that counted two is never released or emptied in any run without reset |
| SlabIdle.ReturnedIff | tom_slab.h:472-489 | every page without a live slot is on the empty list, in all reachable states, if and only if a page holds exactly two elements |
| SlabIdle.HeldIdle | tom_slab.h:473-489 | with three or more elements a page, any run without reset that leaves no live pointer leaves a page that counted two owned and off the empty list |
| SlabIdle.OneElementRun | tom_slab.h:472-477 | with one element a page, a run after which a page without a live slot is not on the empty list |
| SlabLifetimes.RunAccounted | tom_slab.h:278-309 | over every run, constructions minus destructions of a slot say whether its page is owned, and takings minus returns do so for pages |
| SlabLifetimes.SlotsOnceAlive | tom_slab.h:278-309 | in every reachable state a slot was constructed once more than destructed exactly if its page is owned |
| SlabLifetimes.EveryLifetimeEnds | tom_slab.h:353-363 | over every run ending in destruction each slot is constructed and destructed once per lifetime of its page, and each page taken is returned |
| SlabOrder.RunOrderly | tom_slab.h:278-363 | over every run, also if it ends in destruction: each constructor and destructor call is on a slot of a page then held, each destructor call on a slot then alive, and each page is returned with no slot alive and taken only when not held |
| SlabOrder.GrownAscends | tom_slab.h:278-294 | growing takes the page and then constructs its slots from the first byte up |
| SlabOrder.ReleasedAscends | tom_slab.h:296-309 | releasing destructs its slots from the first byte up and then returns the page |
| SlabCapacity.ResetThenFill | tom_slab.h:365-440 | from any reachable state, reset and then as many allocs as the pages have slots never ask the page allocator and fill every page |
| SlabCapacity.CapacityAfterReset | tom_slab.h:365-440 | alloc number p * maxelems + i then returns slot i of page p, in list order |
| SlabCapacity.SlotsInOrder | tom_slab.h:414-439 | the sequence of slots so returned in closed form |
| RconCompare.SmearFills | tom_rcon.h:253-262 | the shift-or cascade makes all low 16 bits one for every char but NUL, and zero for NUL, for both kinds of char |
| RconCompare.StepIndex | tom_rcon.h:264-265 | the branch-free increment goes on by one past a char and starts again at the NUL, for secrets below 2^16 |
| RconCompare.StreqConsttime | tom_rcon.h:236-267 | one exactly if neither pointer is NULL and the strings are equal; no index passes the NULs |
| RconFraming.ReadBackUnsigned | tom_rcon.h:306-320 | where char is unsigned every word survives being written and read |
| RconFraming.ReadBackSigned | tom_rcon.h:306-320 | where char is signed exactly the sign-safe words do |
| RconFraming.FragmentsExact | tom_rcon.h:322-339 | the fragments put together are the payload, all but the last have 4086 bytes, the last no more, and there are max(1, ceil(length / 4086)) |
| RconFraming.EncodedFrame | tom_rcon.h:322-339 | a packet sent is at most 4100 bytes; it is read as a frame, and with its id, type and payload, always where char is unsigned, and where it is signed exactly if the low byte of the length is below 128 and exactly if id and type are sign-safe |
| RconFraming.SendParsesBack | tom_rcon.h:322-411 | for every payload, both kinds of char and whatever follows, the framing of the receiver splits what rcon_send emits into exactly those packets if and only if the length of each fragment survives the way words are read; each then decodes to what was sent if and only if id and type survive |
| RconFraming.SignedLengthReadsBack | tom_rcon.h:315-339 | where char is signed a packet is still a frame if and only if the low byte of its length is below 128 |
| RconFraming.ParseFrames | tom_rcon.h:402-411 | a concatenation of frames parses into those frames, then the rest |
| RconFraming.ParseGrows | tom_rcon.h:402-411 | bytes that arrive later never change the packets already complete |
| RconFraming.ParseYieldsFrames | tom_rcon.h:402-411 | whatever is parsed from any stream is a frame |
| RconModel.Received | tom_rcon.h:364-374 | received bytes go behind the pending ones, which stay |
| RconModel.Consumed | tom_rcon.h:438-439 | the pending bytes lose exactly the packet at the front |
| RconStream.HandleKeeps | tom_rcon.h:402-440 | for any packet at the front: conservation and the command in flight are kept, and, while every AUTH packet handled settles its comparison, replies in order and authorisation |
| RconStream.FetchKeeps | tom_rcon.h:394-440 | for all bytes a client can send and any password: fetching keeps these, whatever it ends with; what follows a fetch that ends Undefined is conservation alone |
| RconRuns.RunConserves | tom_rcon.h:350-460 | for every byte stream and every run, no byte is lost, invented or reordered, and a command that is out is the next packet |
| RconRuns.RunKeeps | tom_rcon.h:350-460 | every run without undefined behaviour, however receiving, fetching and completing interleave, keeps the whole invariant |
| RconRuns.ChunkingIndependence | tom_rcon.h:350-460 | for all bytes, however they arrive: the packets handled are the first ones parsed from the whole stream and the buffer holds the rest; if no fetch was undefined and every AUTH packet handled settled its comparison, the trace is the in-order fold of their replies, which RconReplies.RunTold reads |
| RconRuns.WellFormedRun | tom_rcon.h:394-440 | a stream whose packets have at least 14 bytes, and a NUL if they are AUTH packets, meets both conditions in every run |
| RconRuns.SameStreamSameReplies | tom_rcon.h:350-460 | two connections that got the same bytes in different pieces, neither undefined and all AUTH packets settled, sent the same, as far as both got |
| RconRuns.CommandNeedsAuth | tom_rcon.h:413-431 | for all bytes: the command in flight is the next packet of the stream and its client is authorised; if the AUTH packets handled settled their comparisons, a client is authorised exactly if a matching one was handled since it was accepted, and every command came after one |
| RconRuns.CommandHeld | tom_rcon.h:364-400 | until it is completed, a command, its length and its request id stay as they are under any further input and fetching |
| RconRuns.CommandStringHeld | tom_rcon.h:427-431 | for every command, of ten bytes or more: the C string given to the caller stays the same under all further input if and only if it ends within the bytes received, or no more fits |
| RconRuns.FetchDrains | tom_rcon.h:402-440 | fetching ends waiting only with no complete packet left, and a full buffer then holds one longer than the buffer; what it ends with otherwise |
| RconRuns.FetchStuck | tom_rcon.h:402-426 | after a refused packet fetching again, with any password, changes nothing, sends nothing and is refused again |
| RconRuns.FullBufferComplete | tom_rcon.h:402-411 | a full buffer holds a complete first packet if and only if the length decoded there is between 10 and 4100 |
| RconAuth.AuthExactly | tom_rcon.h:402-423 | for any packet that can be taken for an AUTH packet, those of 10 to 13 bytes included, and every buffer of 4100 bytes that holds it: handling it keeps authorisation what it should be, whatever else the buffer holds, if and only if the payload holds a NUL or is not the start of the password |
| RconAuth.LeftoverPassword | tom_rcon.h:376-423 | for every password, both kinds of char where its length survives, and every packet that passes for an AUTH packet: after an honest client has logged in and left, the next one in its slot is authorised by the packet without having sent the password if and only if the packet does not settle the comparison |
| RconAuth.BareAuthPasses | tom_rcon.h:402-416 | a packet of twelve bytes, without a payload, is such a packet for every password |
| RconReplies.OnTheWire | tom_rcon.h:306-339 | a packet sent is, byte by byte, its length less four, its id and its type, least significant byte first, then the payload and two zeros |
| RconReplies.ReadNumber | tom_rcon.h:315-320 | where char is unsigned four bytes are read as their number, least significant first |
| RconReplies.RepliesRead | tom_rcon.h:402-460 | what the client decodes: for type 3 an empty packet of type 0 with its id, then one of type 2 with the same id if the payload gave the password and 0xFFFFFFFF if not; for type 2 the response in pieces of type 0; else its payload back in pieces and the bytes 1 and 0, type 0 |
| RconReplies.RunTold | tom_rcon.h:350-460 | over every run of a connection, however the bytes arrive: the bytes sent are parsed by the client into just these packets, about each of its packets in order |
| RconServer.Slot.Send | tom_rcon.h:322-339 | the packets handed to the send callback are exactly the specified fragments |
| RconServer.FillPacket | tom_rcon.h:325-335 | the packet array holds the encoded packet |
| RconServer.MoveDown | tom_rcon.h:439-439 | memmove of the bytes behind a packet to the front |
| RconServer.Slot.Consume | tom_rcon.h:438-439 | the slot becomes the client value after consumption |
| RconServer.Slot.Authenticate | tom_rcon.h:413-423 | authorisation and the packets sent are those of the client value for the comparison's verdict; what the client reads in them is RconReplies.RepliesRead |
| RconServer.Slot.Fetch | tom_rcon.h:402-440 | the loop over one slot computes the specified client, sends the specified packets and ends as specified |
| RconServer.Slot.Receive | tom_rcon.h:364-374 | the slot becomes the specified client for data, end of stream and error |
| RconServer.Slot.Answer | tom_rcon.h:456-458 | the response is sent in fragments and the packet leaves the buffer |
| RconServer.Server.constructor | tom_rcon.h:285-297 | distinct slots, all zero, none closed; the password is left as the caller had it |
| RconServer.Create | tom_rcon.h:285-297 | an error and no server exactly if calloc fails; otherwise distinct slots, all zero, none closed, nothing sent |
| RconServer.Server.WaitForInput | tom_rcon.h:350-392 | nothing happens unless waiting succeeds; input is taken slot by slot up to the first error, and cb_close is called exactly for the clients this drops; a client is accepted only if there was no error, and is then in use (RconSessions.AcceptedIsIn) |
| RconServer.FullDrops | tom_rcon.h:364-372 | a client that has data is dropped whatever cb_recv answers if and only if its buffer is full, even with a command in flight |
| RconServer.Server.FetchCommand | tom_rcon.h:394-443 | slots are served in order up to the first that has something to report, the others are untouched |
| RconServer.Server.CompleteCommand | tom_rcon.h:446-460 | exactly the slot named changes, if it is in use with a command out; else the specified status; undefined past the last slot, which the code does not check |
| RconServer.Server.SetPassword | tom_rcon.h:462-471 | a password too long is refused and leaves none |
| RconServer.Server.DropClient | tom_rcon.h:341-348 | cb_close is called once for the slot and only its in-use flag changes, in no other slot anything |
| RconServerRuns.WaitTracks | tom_rcon.h:350-392 | what rcon_wait_for_input promises is, for every slot, one step of its connection |
| RconServerRuns.FetchTracks | tom_rcon.h:394-443 | so is what rcon_fetch_command promises, with what was sent |
| RconServerRuns.CompleteTracks | tom_rcon.h:446-460 | so is what rcon_complete_command promises, with what was sent |
| RconServerRuns.DropTracks | tom_rcon.h:341-348 | so is what rcon_drop_client promises |
| RconServerRuns.DoKeeps | tom_rcon.h:341-460 | no call of the server damages the invariant of any connection, whatever its client or others sent, as long as no fetch is undefined |
| RconServerRuns.ServerRunsSafe | tom_rcon.h:341-460 | over every run of the server from its creation without undefined behaviour, with clients coming and going: each connection has handled the first packets of its stream; if its own AUTH packets settled their comparisons, its replies and authorisation are as above, whatever the others sent; RconSessions.InUseExactly says which slots these are |
| RconServerRuns.CommandsAreAuthorised | tom_rcon.h:394-443 | the command rcon_fetch_command hands out is the next packet of an authorised client, which authenticated since it was accepted if its AUTH packets settled their comparisons; undefined behaviour is met only where the packets pending are not well-formed |
| RconServerRuns.FetchAgain | tom_rcon.h:394-443 | once rcon_fetch_command has answered with a protocol error it does so for ever, at the same slot, and the slots behind are never served |
| RconSessions.AcceptedIsIn | tom_rcon.h:350-392 | if waiting succeeds and no receive fails: the client accepted is in use in its slot, with nothing received, not authorised, without a command and with the slot's old bytes; every other slot is in use if it was and its client has not gone |
| RconSessions.InUseExactly | tom_rcon.h:341-392 | over every run of the server: a slot is in use if and only if a client was accepted into it and has neither gone nor been dropped since |
| RconSessions.ServerTold | tom_rcon.h:341-460 | over every run of the server: if a connection's AUTH packets settled their comparisons, the bytes sent on it are parsed into just what it is to be told, and it is authorised if and only if one of its packets gave the password |
| RconSessions.LoginServed | tom_rcon.h:285-440 | from a new server, whoever connects and sends a packet of type 3 that gives the password ends in use and authorised, with just that packet handled and the two replies that say so |
| RconSessions.CommandServed | tom_rcon.h:394-460 | an authorised client with nothing pending that sends a command has it handed out, up to its NUL, and once it is answered is sent the response in pieces, with its id, and has nothing pending |
| PlyTokens.SpansExact | tom_ply.h:337-353 | the tokens are the maximal delimiter-free runs, all of them and nothing else |
| PlyTokens.SpansOrdered | tom_ply.h:337-353 | in order, each once |
| PlyTokens.TokensAreRuns | tom_ply.h:337-353 | the token texts are the texts at those runs |
| PlyTokens.NextToken | tom_ply.h:337-353 | each call returns the next token and NULL from the end on for ever, and writes only inside the part of the line consumed |
| PlyHeader.ParseType | tom_ply.h:355-365 | the loop over the table of names finds the type named |
| PlyTypeNames.TypeOfExact | tom_ply.h:355-365 | a token is read as a type if and only if it is, to the last byte, one of the two names of that type |
| PlyHeader.Parser.Reserve | tom_ply.h:326-335 | the record is 16-aligned, at or above 1024, below the earlier ones and zeroed; the buffer is untouched; nothing if there is no room |
| PlyHeader.SpreadMore | tom_ply.h:326-335 | records so placed stay disjoint |
| PlyRecords.Element.Append | tom_ply.h:452-461 | the property is at the end of the list and the last pointer at it; count is the length |
| PlyRecords.Schema.Append | tom_ply.h:410-416 | the same for elements |
| PlyRecords.Schema.AppendProperty | tom_ply.h:452-461 | the last element has the property at its end, the other elements are untouched |
| PlyRecords.Element.GetProperty | tom_ply.h:546-555 | the property at that position, NULL past the end |
| PlyRecords.Element.GetPropertyByName | tom_ply.h:557-567 | the first property of that name, NULL exactly if there is none |
| PlyRecords.Schema.GetElement | tom_ply.h:570-578 | the element at that position, NULL past the end |
| PlyRecords.Schema.GetElementByName | tom_ply.h:581-589 | the first element of that name, NULL exactly if there is none |
| PlyHeader.Parser.ParseFormat | tom_ply.h:367-390 | the format line's effect, or the error, as the fold says; which word is which byte order is PlyHeaderText.HeaderReadsBack |
| PlyHeader.Parser.ParseElement | tom_ply.h:392-419 | the element line's effect on the linked records, or the error; a line without a token is refused even if there is no room for the record |
| PlyHeader.Parser.ParseProperty | tom_ply.h:421-466 | the property line's effect, or the error, likewise |
| PlyHeader.Parser.ParseHeaderLine | tom_ply.h:469-498 | every kind of line comes out as the fold says, and nothing behind the line is written |
| PlyHeader.Parser.Refill | tom_ply.h:525-528 | it fails if and only if the application's read does; otherwise bytes move from the input to the window, none is lost, and the upper part of the memory is left alone |
| PlyHeader.Parser.Shift | tom_ply.h:537-538 | the window loses exactly its first bytes |
| PlyHeader.Parser.ProcessHeader | tom_ply.h:500-544 | for every file, every size of memory and whichever read fails: the linked records, the format, the heap and the reads left are those of the fold over the file's lines, and window plus unread input is the body; or the fold's error; what the fold makes of a header is PlyHeaderText.HeaderReadsBack |
| PlyHeaderFacts.HeaderIsGrouping | tom_ply.h:392-498 | a header that parses has one element per element line, in order, each with the properties listed under it, and the format named last; what each line says is PlyHeaderText.HeaderReadsBack |
| PlyHeaderFacts.InputConserved | tom_ply.h:515-540 | header and body together are the file |
| PlyHeaderFacts.HeaderWellMade | tom_ply.h:392-466 | names have at most 31 bytes, tuple counts fit, list lengths are never floating-point, records are aligned |
| PlyHeaderFacts.ReadErrorExactly | tom_ply.h:515-528 | a header ends in a read error if and only if a read fails that it takes, one for the first bytes and one before each line; otherwise it comes out as if no read ever failed |
| PlyHeaderText.HeaderReadsBack | tom_ply.h:318-544 | every header written from data (either binary format or ascii, comments anywhere, names of any length, counts in decimal digits, both names of each type) and followed by any body is read as exactly these data and that body; names are kept up to 31 bytes and counts up to 2^64 - 1; 80 bytes of memory for an element and 64 for a property, of which 1024 must be left, decide whether there is room |
| PlyHeaderText.NumeralCounts | tom_ply.h:406-408 | the decimal digits of any number are read as it, those beyond an unsigned long as the largest |
| PlyHeaderLines.LineExactly | tom_ply.h:367-498 | a header line is accepted if and only if it is a comment, one of the three formats with version 1.0, an element with a name and a number, or a property with its types and name under some element, nothing behind it, and its record has room; everything else ends the header, asks for a record without room, or is a syntax error |
| PlyHeaderLines.NumberExactly | tom_ply.h:406-408 | a tuple count is accepted if and only if it is white space, a sign or none, and at least one digit, to the end of the token |
| PlyHeaderLines.MagicExactly | tom_ply.h:515-517 | a file that does not start with the bytes of "ply" and a newline is a syntax error |
| PlyHeaderLines.CutLine | tom_ply.h:530-531 | so is a line cut short by a NUL, wherever it stands |
| PlyScalar.ReadBinary | tom_ply.h:646-743 | both readers return the bytes of the scalar put together in their order, and its size; an unknown format is an error |
| PlyScalar.ReadsBack | tom_ply.h:646-743 | in both orders a value is read back from the bytes written for it if and only if it fits its type |
| PlyScalar.ShortNeverNegative | tom_ply.h:650-663 | int8 and int16 are extended with zeros and never come out negative |
| PlyNumbers.NumberRead | tom_ply.h:646-743 | in both byte orders what is read is the number its 1, 2, 4 or 8 bytes stand for, and there is a value exactly if they are all there |
| PlyNumbers.LengthExactly | tom_ply.h:830-848 | the length of a list is the number its bytes stand for, but an int32 from 2^31 on and every floating-point length are refused |
| PlyDouble.ConvertedAsMeant | tom_ply.h:675-688 | a float64 reaches the application as the number its bits stand for if and only if they are all zero or 0x43D0F43D0F43D0F4, rounding included |
| PlyPositions.Lockstep | tom_ply.h:775-822 | ply_advance goes through a body value by value in the order of the nested loops if and only if no element with values comes after one without |
| PlyStream.StartStreaming | tom_ply.h:764-773 | the stream is before the first value and the input is what is left |
| PlyStream.Advance | tom_ply.h:775-822 | it fails if and only if a new tuple begins and the read fails; otherwise the pointers move to the next (element, tuple, property), no input is lost, and at a new tuple the window begins there and is as full as memory and input allow |
| PlyStream.StreamValue | tom_ply.h:824-856 | a read error exactly if the refill fails; otherwise the value, length or error is that of the window decoded, and bytes past the window are read exactly if the value ends behind it |
| PlyStream.StreamListItem | tom_ply.h:858-872 | likewise for list items, and the position stays |
| PlyDecoder.ValuesCounted | tom_ply.h:875-944 | a complete body gives one value for every property of every tuple of every element |
| PlyWindow.ThroughDecodes | tom_ply.h:775-822 | if no tuple is longer than the memory left and no read fails that the body takes, decoding through the window is decoding without one |
| PlyWindow.CutExactly | tom_ply.h:811-819 | decoding a tuple leaves the window if and only if the read goes well and bytes of it are missing or it is longer than the window |
| PlyWindow.ThroughBegins | tom_ply.h:775-944 | whatever reads fail and however long the tuples are, what is decoded is the beginning of what the body says, and all of it if decoding is complete |
| PlyDelivery.DeliverMore | tom_ply.h:875-944 | delivering a run and then another is delivering both in a row: the calls up to the first callback that answers with an error, its answer, and whether the body was cut short before |
| PlyDelivery.CallsBegin | tom_ply.h:875-944 | and so the calls made are the first of those for the whole body, whatever the callbacks answer |
| PlyCalls.DeliverExactly | tom_ply.h:875-944 | the calls made are the first ones, up to one answered with an error, whose answer comes out, or all of them |
| PlyCalls.CallsInOrder | tom_ply.h:875-944 | for any body, memory, reads and answers: the calls walk through the elements, tuples, properties and list items the header declares and nothing else, none follows an error, and they end behind the last element exactly if the result is zero and nothing was missing, else where a value is awaited |
| PlyCalls.ReadsOnce | tom_ply.h:775-822 | for any body, memory and reads: the body takes one read for each tuple with properties that is begun and no other, and decoding ends in a read error exactly if the read of the last one failed |
| PlyEncoder.ItemsReadBack | tom_ply.h:909-918 | list items written are read back, and nothing behind them is touched |
| PlyEncoder.LengthReadsBack | tom_ply.h:830-848 | every list length that its type can carry is read back and accepted |
| PlyEncoder.RoundTrip | tom_ply.h:875-944 | for all data that fit the header, in both byte orders, decoding what was written makes exactly the calls the data stand for and stops where they end |
| PlyDriver.DriveProperty | tom_ply.h:894-932 | one property gives the calls of the decoder on the window, with the stream at the driver's own position; a read error exactly if the refill fails |
| PlyDriver.DriveTuple | tom_ply.h:886-938 | one tuple gives the calls of the decoder through the window |
| PlyDriver.DriveElement | tom_ply.h:880-944 | one element does |
| PlyDriver.ProcessWithCallbacks | tom_ply.h:875-944 | for every body, every size of memory and whichever read fails: all calls made, the result, and whether bytes past the window were read, are exactly those for the body decoded through the window, up to the first callback that answers with an error; the records are not overwritten |
| PlyFile.ProcessFile | tom_ply.h:500-944 | header and body together: the calls made and the result follow from the bytes of the file, the size of the memory and the number of reads that go well |
| PlyFile.WrittenFile | tom_ply.h:500-944 | a file whose body was written for its header comes out as exactly the calls its data stand for, for all data that fit and callbacks that answer anything |
| PlyFile.FileReadsBack | tom_ply.h:500-944 | a file whose header and body were written from data gives exactly the calls the data stand for |

## Left out

- SlabTails.FreeDecided: a pointer outside all pages is taken to find no page signature at the place where a footer would be; what foreign memory holds is not modelled. Runs after a pointer behind the last slot was taken are not modelled beyond the next allocation.
- SlabAllocator.Slab.constructor: failure of malloc for the allocator itself, and the mutex calls, are not modelled; NULL allocators are not values of the class.
- SlabAllocator.Slab.Alloc: interleavings inside the lock are not modelled; each call is one step.
- SlabLayout.CreateLayoutExact: the footer's size is computed for 8-byte pointers and a page size that is a power of two.
- RconRuns.ChunkingIndependence: after a fetch that is undefined, and for an AUTH packet that does not settle its comparison, framing and conservation are proved and the replies are not; RconAuth.AuthExactly says which packets these are, and for each there is a buffer that makes the verdict wrong.
- RconCompare.StreqConsttime: that the time taken does not depend on the strings is not expressible here.
- RconServer.Server.WaitForInput: sockets, polling and error texts are callbacks; only what they answer is modelled. An overflow of 4 plus the length wraps.
- PlyHeader.Parser.ProcessHeader: the memory is taken to have at least the 1024 bytes the code reads without asking; what follows once ply_reserve has returned NULL and the record is used, which its callers do not check, is Undefined.
- PlyRecords.Element.Append: the fields of records are those of objects with an offset; their bytes in the memory block are not modelled, only that their place is disjoint and not written by later reads.
- PlyDriver.ProcessWithCallbacks: assumes that no element with values comes after one without, and a format other than ASCII; a NULL callback is one that answers zero. What is read past the window, and what follows it, is not modelled. Reads fill the request unless the input ends.
- PlyScalar.ReadBinary: float32 values stay bit patterns, as they do in the code; the number a float64 is converted to is PlyDouble.Converted, and the type double itself is not modelled. ASCII scalars depend on strtol and strtod and are not part of this model.
- PlyHeader.Parser.ParseElement: strtoul is the function TupleCount of the token, written from its definition in the C standard; the library call itself is not modelled.
- RconServer.Server.DropClient: an index past the last slot is excluded; the server itself never passes one.
- ply_cast, ply_cast_normalized, error strings and port formatting: easy members.
- tom_rtree.h, tom_spatial.h and tom_particles.h: unfinished; insertion is a stub.
- Examples, drivers and Makefiles: not part of this model.
