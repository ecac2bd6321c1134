# A verified model of the cores of libevent 2.1.8

The project models the parts of libevent in which pointer-linked structures have to agree with a plain sequence or
set, and the codecs that have to undo each other, and proves that they do.  Every operation keeps the form it has in C:
classes whose fields are updated in place, loops, circular lists and arrays.  Each is proved against a specification on
values, and the properties of the specification are proved as lemmas.

| file | models |
|---|---|
| `Bytes.dfy`, `Lists.dfy`, `Timevals.dfy` | byte windows and searching; sequences without duplicates; `struct timeval` and the tags of common timeouts |
| `Chains.dfy`, `Evbuffer.dfy` | `buffer.c`: the linked list of chains and every way to change, move, read and search it |
| `DnsNames.dfy` | `evdns.c`: domain names with compression (section 4.1.4 of RFC 1035), written and read |
| `DnsRequests.dfy` | `evdns.c`: rings of outstanding requests hashed by transaction id, and their counters |
| `HashTable.dfy` | `ht-internal.h`: lookup, insertion, removal and growth of the intrusive hash table |
| `Evmap.dfy` | `evmap.c`: counts of interested events and the coalesced list of backend changes |
| `EventQueues.dfy`, `EventBase.dfy` | `event.c`: memberships of events, active and later queues, timers, common timeouts, the loop |
| `Inet6.dfy` | `evutil.c`: IPv6 addresses to text and back |
| `TokenBucket.dfy` | `bufferevent_ratelim.c`: token buckets with wrap-around arithmetic |
| `Tagging.dfy` | `event_tagging.c`: tagged streams over an evbuffer |
| `Monotonic.dfy` | `evutil_time.c`: the clock ratchet |

`dafny verify dfyconfig.toml` checks all of it.

## How to read it

* An `Evbuffer` is `Valid()` when its chains are linked from `first` to `last`, no two share a buffer, every window lies
  inside its buffer, chains with data come before empty ones, `last_with_datap` (modelled as the chain before the one
  it points to, or null) names the last chain with data, and `total_len` is the sum of the windows.  `Contents()` is the
  flattened byte sequence; every method says what becomes of it and keeps `Valid()`.
* An `EventBase` is `Valid()` when what `event_base_assert_ok_nolock_` checks holds, each flag is membership in the
  queue it stands for, and both counters are what they count.  `CoveredBut({})` says that every non-empty
  common-timeout queue has its internal timer active or scheduled no later than its head.  The ghost field `starts`
  records every callback start, each call of a signal event on its own, together with the events active then, and those
  of them that had become active since the queue was begun: `slipped` without `event_continue` being set, `flagged` with
  it.  `Strict(starts)` is strict priority.
* An `EvdnsBase` is `Valid()` when the rings hold exactly the requests in flight, each in the ring of its id, ids are
  unique, waiting requests are exactly those without a nameserver, and the global and per-server counters are right.
  `Placed()` says that no request that was never sent waits at a failed server while another one works.
* A `HashTable` is `Valid()` when the buckets hold each element once, in the bucket of its hash, with no two equal keys,
  and the counters are right: what `HT_REP_IS_BAD_` audits.
* In `Evmap`, a `Slot` is all there is to one descriptor: its events, its pending change and what the backend watches.

## Where the code does not meet the plain promise

Each of these is proved: a lemma or contract gives the exact condition, and a lemma or method shows an input.

* Strict priority among the active events fails for three reasons, and, for what callbacks can ask for in the model, for
  no other (`StrictExactly`).  A deferred callback (`event_deferred_cb_schedule_`) and a callback that is finalized
  (`event_callback_finalize_nolock_`, as `bufferevent_free` does it) become active without `event_continue` being set;
  when such a callback is more urgent than the queue being run, and the queue goes on, less urgent events are started
  before it (`DeferredWaits`, `FinalizerWaits`).  And a signal event is called as often as its signal came, whatever its
  calls have made active (`SignalGoesOn`).  `ProcessActive` says when the first callback of a dispatch does any of this.
* `evbuffer_prepend_buffer` leaves an empty chain between chains with data exactly when the target is not empty and the
  source ends in an empty chain (`PrependBuffer`, `PackedJoinIff`, `EmptyBetween`).
* `evbuffer_prepend` that fails to get its second chain has already put part of the data in front (`Prepend`,
  `PartInFront`).
* `evbuffer_remove_buffer` drains bytes that it could not add to the target for want of memory (`FinishMove`,
  `RemoveBuffer`, `ByteLost`), and like `evbuffer_remove` returns a length cast to an `int` (`CastExactly`).
* The zero byte that ends a name in `dnsname_to_labels` is not covered by the space check.  It lies past the limit exactly
  when no pointer ends the name, the name has no final dot and its last label ends right at the limit (`PastTheLimit`,
  `OneTooMany`).
* `dnsname_to_labels` accepts names with empty labels, and exactly those do not read back, but for a single dot where a
  pointer is written for it (`RoundTrip`, `NameAtStart`, `EmptyLabel`).
* A compression pointer loses bits exactly from 0x4000 on (`PointerExactly`).  The one caller that has a table writes to a
  buffer of 1500 bytes, where such offsets do not arise.
* `HT_GROW` finds a larger prime exactly when the last one is large enough, and would otherwise search past the array
  (`SearchEndsExactly`, `TooManyElements`).  `HT_INSERT` never asks for so much (`RoomForOne`, `Insert`).
* `evutil_inet_ntop` returns the text without its last character when the buffer is exactly as long as the text
  (`RoundTripExactly`, `CutText`); `evutil_inet_pton` accepts blanks and signs in a dotted quad (`LaxQuad`).
* A token bucket above its maximum can grow further (`AddTicksExactly`, `AboveTheMaximum`).
* `ev_token_bucket_cfg_new` accepts tick lengths for which the tick cannot be computed: those that are a multiple of 2^32
  in whole milliseconds, in particular those under one millisecond (`TickLength`, `NoTick`).
* `decode_tag_internal` looks at a sixth byte although it made only five contiguous; the byte can lie behind the window
  and even behind the memory of the first chain (`DecodeTag`, `LookBehind`).
* `event_base_init_common_timeout` carries only fractions above 1000000, so one of exactly 1000000 is kept as it is
  (`Carry`, `FullSecond`).

## Model

| member | source | states |
|---|---|---|
| `Chains.ChainNew` | vs2015_libevent-2.1.8/libevent/buffer.c:155-193 | null exactly above EVBUFFER_CHAIN_MAX - EVBUFFER_CHAIN_SIZE or when malloc fails; otherwise a fresh, empty, unlinked chain with room for the size asked for, whose allocation is the minimum doubled no more often than it takes, or from half the maximum on exactly that size |
| `Chains.PullWhole` | vs2015_libevent-2.1.8/libevent/buffer.c:1414-1428 | walking the list, every chain that fits is emptied into the target in order; reports whether the last chain with data and the chain before it were among them |
| `Evbuffers.Evbuffer.FreeTrailingEmptyChains` | vs2015_libevent-2.1.8/libevent/buffer.c:289-305 | exactly the chains after the last one with data are cut off, the bytes stay, and the place to link at is returned |
| `Evbuffers.Evbuffer.ChainInsert` | vs2015_libevent-2.1.8/libevent/buffer.c:307-326 | a new chain is linked after the last chain with data: bytes appended, empty tail gone, total_len grown by off, last and last_with_datap right whether or not the new chain is empty |
| `Evbuffers.Evbuffer.Add` | vs2015_libevent-2.1.8/libevent/buffer.c:1722-1817 | succeeds iff not frozen at the end, no size overflow, and the data fits the last chain with data (perhaps realigned) or a new chain can be that large and is allocated; then exactly the data is appended; in every failing branch nothing changes |
| `Evbuffers.Evbuffer.Prepend` | vs2015_libevent-2.1.8/libevent/buffer.c:1819-1900 | when it succeeds (condition given exactly, malloc included) the data stands in front; when the new chain for the rest fails, exactly the tail that fitted the first chain has been put in front; in the other failing branches nothing changes |
| `Evbuffers.PartInFront` | vs2015_libevent-2.1.8/libevent/buffer.c:1819-1900 | add 1 and 2, drain one byte, prepend 8 and 9 without memory: the call fails and the buffer holds 9 and 2 |
| `Chains.Chain.Align` | vs2015_libevent-2.1.8/libevent/buffer.c:1902-1909 | the window moves to the start of the buffer and its bytes stay the same |
| `Evbuffers.Evbuffer.Drain` | vs2015_libevent-2.1.8/libevent/buffer.c:1095-1162 | drops exactly the first min(len, length) bytes unless frozen at the start, relinks the front and keeps the whole invariant; within the first chain only its window moves |
| `Evbuffers.Evbuffer.CopyoutFrom` | vs2015_libevent-2.1.8/libevent/buffer.c:1184-1249 | returns exactly the bytes from the position on, as many as asked for or as there are; the overflow and frozen cases fail; the buffer is untouched |
| `Evbuffers.Evbuffer.Remove` | vs2015_libevent-2.1.8/libevent/buffer.c:1164-1177 | the data returned followed by what is left is what was there, unless frozen, when nothing changes; the number is returned as its cast to an int |
| `Bytes.CastExactly` | vs2015_libevent-2.1.8/libevent/buffer.c:1164-1177 | the int that is returned is the number of bytes if and only if that is below 2^31; 2^32 - 1 bytes come out as -1 |
| `Evbuffers.Evbuffer.AddBuffer` | vs2015_libevent-2.1.8/libevent/buffer.c:960-1004 | the other buffer is emptied and its bytes, chain by chain, end up behind; exact condition for failure, and then nothing changes; adding a buffer to itself is nothing |
| `Evbuffers.Evbuffer.AppendChain` | vs2015_libevent-2.1.8/libevent/buffer.c:883-900 | the chains with data of one buffer followed by all chains of the other, with last and last_with_datap of the joined list |
| `Evbuffers.Evbuffer.PrependBuffer` | vs2015_libevent-2.1.8/libevent/buffer.c:1049-1093 | bytes conserved and ordered src ++ dst; the full invariant survives if and only if the target was empty or the last chain of the source holds data |
| `Bytes.PackedJoinIff` | vs2015_libevent-2.1.8/libevent/buffer.c:942-958 | joining two chain lists keeps "chains with data, then empty chains" if and only if the first list does not end in an empty chain |
| `Evbuffers.EmptyBetween` | vs2015_libevent-2.1.8/libevent/buffer.c:942-958 | a buffer of one byte and a trailing empty chain, put in front of another: the bytes are right and the invariant is broken |
| `Evbuffers.Evbuffer.RemoveBuffer` | vs2015_libevent-2.1.8/libevent/buffer.c:1254-1342 | exactly the first min(n, length) bytes leave the source and arrive in order at the end of the target, except for bytes lost at their end: none unless malloc fails, and, when the first chain holds more than n bytes, all n exactly when the target has no room for them and malloc fails; both buffers keep the whole invariant, the number is cast to an int, and the frozen, zero and same-buffer cases change nothing |
| `Evbuffers.ByteLost` | vs2015_libevent-2.1.8/libevent/buffer.c:1320-1325 | of two bytes, the first is to be moved to an empty buffer without memory: it is gone from the source and not in the target |
| `Evbuffers.Evbuffer.FinishMove` | vs2015_libevent-2.1.8/libevent/buffer.c:1320-1325 | the part of the last chain is drained in any case, and is lost exactly when the target has no room for it and malloc fails |
| `Evbuffers.Evbuffer.MoveFront` | vs2015_libevent-2.1.8/libevent/buffer.c:1288-1318 | a run of whole chains is unlinked from one buffer and spliced behind the other, with both lists of chains and the sum of the lengths stated |
| `Evbuffers.Evbuffer.AdvanceLastWithData` | vs2015_libevent-2.1.8/libevent/buffer.c:702-715 | moving forward from any link before a chain with data, the link to the last chain with data is found and the steps are counted; in a buffer without data nothing moves |
| `Evbuffers.Evbuffer.Pullup` | vs2015_libevent-2.1.8/libevent/buffer.c:1344-1454 | the flattened bytes never change, not even on failure; a chain is returned iff 0 < n <= length and the first chain can hold n bytes where its window begins, or a new chain can be that large and is allocated; it is then the first one and holds the first n bytes alone, and is untouched if it did so before |
| `Bytes.ConcatPulled` | vs2015_libevent-2.1.8/libevent/buffer.c:1414-1447 | taking whole windows and part of one more into one window leaves the flattened bytes and the shape of the list as they were, with this many windows with data |
| `Evbuffers.Evbuffer.PtrSet` | vs2015_libevent-2.1.8/libevent/buffer.c:2609-2660 | a pointer is set (or moved) exactly when the target lies inside the buffer or at its end, and then denotes that position consistently; otherwise pos is -1, or untouched for an invalid or overflowing move |
| `Evbuffers.Evbuffer.PtrMemcmp` | vs2015_libevent-2.1.8/libevent/buffer.c:2665-2699 | compares across chains exactly as one memcmp of the flattened bytes would, -1 when they do not suffice; so 0 iff the bytes occur there |
| `Evbuffers.Evbuffer.SearchRange` | vs2015_libevent-2.1.8/libevent/buffer.c:2707-2769 | returns the least position at or after the start where the bytes occur, if that occurrence ends by the end, and not-found otherwise, over any number of chains |
| `Bytes.MemCmpPieces` | vs2015_libevent-2.1.8/libevent/buffer.c:2676-2698 | comparing piece by piece, stopping at the first difference, equals one comparison of the whole |
| `DnsNames.NameParse` | vs2015_libevent-2.1.8/libevent/evdns.c:959-1013 | for every packet, start and output size: ends, stays inside both arrays, computes the parse function and leaves the NUL-terminated name in the output |
| `DnsNames.ParseExactly` | vs2015_libevent-2.1.8/libevent/evdns.c:959-1013 | parsing yields (name, next) if and only if labels denoted by the bytes there, through at most packet-length pointers, join to that name, it fits with its NUL, and next is where the name ends |
| `DnsNames.ParseSound` | vs2015_libevent-2.1.8/libevent/evdns.c:964-1011 | whatever is accepted is denoted by labels in the packet, which are returned as a witness |
| `DnsNames.ParseComplete` | vs2015_libevent-2.1.8/libevent/evdns.c:964-1011 | every denoted name that fits, within the number of jumps allowed, is accepted |
| `DnsNames.ParseInside` | vs2015_libevent-2.1.8/libevent/evdns.c:1006-1012 | on success the next index is strictly past the start and at most the packet length, and the name fits its buffer |
| `DnsNames.LabelTable.Position` | vs2015_libevent-2.1.8/libevent/evdns.c:1559-1568 | the position stored for the first equal name, -1 if there is none |
| `DnsNames.LabelTable.Add` | vs2015_libevent-2.1.8/libevent/evdns.c:1571-1586 | appends the entry, or refuses with -1 and changes nothing when the table is full |
| `DnsNames.DnsnameToLabels` | vs2015_libevent-2.1.8/libevent/evdns.c:1599-1663 | writes exactly the encoding at j, nothing else in the buffer changes, the table gets exactly its new entries, and each error code is returned where the source returns it; the buffer only has to hold the encoding, which PastTheLimit is about |
| `DnsNames.EncodeSpells` | vs2015_libevent-2.1.8/libevent/evdns.c:1624-1662 | for every accepted NUL-free name, with or without a table that is true of the bytes so far: the bytes written spell the name up to its first empty label, pointers going strictly backwards, and every new table entry is true |
| `DnsNames.PlainSize` | vs2015_libevent-2.1.8/libevent/evdns.c:1624-1659 | without a table, a name is accepted if and only if no label exceeds 63 bytes and it fits with its length bytes, and how many bytes it then takes; names with empty labels included |
| `DnsNames.PastTheLimit` | vs2015_libevent-2.1.8/libevent/evdns.c:1624-1663 | with or without a table, the final zero byte of an accepted name, whatever it is, lies past the limit if and only if neither the name nor the rest after one of its dots is recorded, it has no final dot, and its last label ends right at the limit |
| `DnsNames.TableSize` | vs2015_libevent-2.1.8/libevent/evdns.c:1624-1663 | with a table, a name that no pointer ends takes what it takes without one, and any other ends within the limit |
| `DnsNames.OneTooMany` | vs2015_libevent-2.1.8/libevent/evdns.c:1656-1660 | an instance with a table in a buffer of 1500 bytes: the name is written up to offset 1501 |
| `DnsNames.EncodeFits` | vs2015_libevent-2.1.8/libevent/evdns.c:1599-1663 | a name without labels of more than 63 bytes always encodes, in at most name length + 2 bytes, when that room is there |
| `DnsNames.NameAtDenotes` | vs2015_libevent-2.1.8/libevent/evdns.c:1624-1629 | since pointers only point before the name they end, a name the encoder spelt is read with at most as many jumps as bytes before it: the limit on jumps is never hit |
| `DnsNames.PointerExactly` | vs2015_libevent-2.1.8/libevent/evdns.c:1607-1613 | a two-byte pointer is read back as the offset if and only if the offset is below 0x4000 (section 4.1.4 of RFC 1035) |
| `DnsNames.JoinSplit` | vs2015_libevent-2.1.8/libevent/evdns.c:1624-1654 | what is read of a name, its labels up to the first empty one joined by dots, is the name without a final dot if and only if the name has no empty label or is a single dot |
| `DnsNames.RoundTrip` | vs2015_libevent-2.1.8/libevent/evdns.c:959-1663 | for any list of NUL-free names and other fields accepted in turn with one shared table, followed by anything: parsing at the start of a name gives that name and the index of the next field if and only if the name has no empty label, or is a single dot for which a pointer was written |
| `DnsNames.NameAtStart` | vs2015_libevent-2.1.8/libevent/evdns.c:959-1663 | for one accepted name after any prefix, with or without a table: it is read back with the index past it if and only if it has no empty label, or is the single dot and a pointer was written for it |
| `DnsNames.EmptyLabel` | vs2015_libevent-2.1.8/libevent/evdns.c:1641-1653 | the name a..b is accepted, written as two names, and read back as a |
| `DnsRequests.Insert` | vs2015_libevent-2.1.8/libevent/evdns.c:2719-2734 | the request becomes the last of the ring, an empty ring becomes a ring of one |
| `DnsRequests.Unlink` | vs2015_libevent-2.1.8/libevent/evdns.c:2682-2717 | exactly the request leaves the ring, the others keep their order, and the head moves when it was the head |
| `DnsRequests.Find` | vs2015_libevent-2.1.8/libevent/evdns.c:468-483 | returns a request with the id if there is one in the table, and null only if there is none |
| `DnsRequests.Population` | vs2015_libevent-2.1.8/libevent/evdns.c:648-706 | the lengths of the rings add up to the number of requests in flight |
| `DnsRequests.SomeFree` | vs2015_libevent-2.1.8/libevent/evdns.c:1317-1330 | while fewer than 0xffff requests are in flight there is an id below 0xffff that none of them has |
| `DnsRequests.MoveAll` | vs2015_libevent-2.1.8/libevent/evdns.c:3400-3408 | rehashing every ring into the new heads keeps the set of requests, each in the ring of its id |
| `DnsRequests.EvdnsBase.FindFromTransId` | vs2015_libevent-2.1.8/libevent/evdns.c:468-483 | the lookup finds exactly the requests in flight: non-null means in flight with that id, null means no request in flight has it |
| `DnsRequests.EvdnsBase.TransactionIdPick` | vs2015_libevent-2.1.8/libevent/evdns.c:1316-1330 | the id is below 0xffff and used by no request in flight; there always is one, and a search that draws no id twice comes to it |
| `DnsRequests.EvdnsBase.NameserverPick` | vs2015_libevent-2.1.8/libevent/evdns.c:1334-1367 | the first working server from the current one on, and the next one becomes current; with none working, the plain next one; null iff there are none |
| `DnsRequests.EvdnsBase.Transmit` | vs2015_libevent-2.1.8/libevent/evdns.c:2202-2287 | the packet goes out, has to wait, or its server fails: all lists and counts stay true, requests change servers only when a server fails, and if no request that was never sent was waiting at a failed server while another one worked, none is now |
| `DnsRequests.EvdnsBase.TransmitAll` | vs2015_libevent-2.1.8/libevent/evdns.c:2340-2365 | the walk over all rings transmits the requests marked for it, with the same guarantees, however many servers fail on the way |
| `DnsRequests.EvdnsBase.Submit` | vs2015_libevent-2.1.8/libevent/evdns.c:2823-2841 | a request with a nameserver goes in flight and is transmitted, one without waits last; ring membership, both counters and the per-server counts stay true even if the server fails at that moment |
| `DnsRequests.EvdnsBase.Resolve` | vs2015_libevent-2.1.8/libevent/evdns.c:2746-2841 | a new request goes in flight with an unused id exactly when there is room and a server; otherwise it waits, last; unless the server fails on sending it is at a working one if any, and in any case no unsent request comes to wait at a failed server while another one works |
| `DnsRequests.EvdnsBase.SendProbe` | vs2015_libevent-2.1.8/libevent/evdns.c:2313-2344 | a probe goes in flight, whatever room there is, and is at its own server unless that fails on sending |
| `DnsRequests.EvdnsBase.Pump` | vs2015_libevent-2.1.8/libevent/evdns.c:742-770 | the first k waiting requests go in flight in order, until there is no room, none waiting or no server; pumping does not exceed the limit; they are at working servers, if there are any, unless a server fails on sending, and in any case no unsent request comes to wait at a failed server while another one works |
| `DnsRequests.EvdnsBase.Finish` | vs2015_libevent-2.1.8/libevent/evdns.c:648-706 | exactly this request is gone, the freed place is filled from the front of the waiting ring with the guarantees of pumping, and all counts stay true |
| `DnsRequests.EvdnsBase.Cancel` | vs2015_libevent-2.1.8/libevent/evdns.c:2843-2876 | whether a request has a nameserver tells its ring, so cancelling removes exactly it and every other request is still either in flight or waiting |
| `DnsRequests.EvdnsBase.SwapNs` | vs2015_libevent-2.1.8/libevent/evdns.c:544-553 | the per-server counts move from the old to the new server, so each still counts its requests |
| `DnsRequests.EvdnsBase.Reissue` | vs2015_libevent-2.1.8/libevent/evdns.c:714-736 | returns 1 iff the server stays the same; otherwise the request has a new server and no transmissions counted; the server works if any does |
| `DnsRequests.EvdnsBase.NameserverFailed` | vs2015_libevent-2.1.8/libevent/evdns.c:557-613 | the server is down and counted out once; when others work, exactly its requests that were never sent are moved, to working servers, and no other request is touched; so none of them is left waiting at a failed server |
| `DnsRequests.EvdnsBase.SetMaxInflight` | vs2015_libevent-2.1.8/libevent/evdns.c:3385-3414 | new heads, (max + 4) / 5 of them, the limit at least 1, and the same requests in flight, each where the lookup expects it |
| `Timevals.TimerAdd` | vs2015_libevent-2.1.8/libevent/event2/util.h:518-526 | normalised times add as microseconds and the sum is normalised |
| `Timevals.TimerSub` | vs2015_libevent-2.1.8/libevent/event2/util.h:527-535 | normalised times subtract as microseconds and the difference is normalised |
| `Timevals.TagsCancel` | vs2015_libevent-2.1.8/libevent/event.c:1375-1382 | times of one common-timeout queue compare as their plain parts do |
| `Timevals.Carry` | vs2015_libevent-2.1.8/libevent/event.c:1453-1460 | the duration loses its tag and at most one carry; what comes out is normalised if and only if the fraction was not exactly 1000000 |
| `Timevals.FullSecond` | vs2015_libevent-2.1.8/libevent/event.c:1453-1460 | a fraction of exactly 1000000 is kept as it is |
| `EventQueues.Deadline` | vs2015_libevent-2.1.8/libevent/event.c:2665-2675 | the deadline keeps the queue tag of the timeout and is the plain timeout, plus the time now unless absolute |
| `EventBases.EventBase.InitCommonTimeout` | vs2015_libevent-2.1.8/libevent/event.c:1443-1514 | a known duration gives its queue; a new one adds an empty queue with an internal priority-0 timer; none when all are used; the invariant and the coverage stay |
| `EventBases.EventBase.InsertActive` | vs2015_libevent-2.1.8/libevent/event.c:3325-3344 | appended to the queue of its priority unless already active; both counters and the flag stay true |
| `EventBases.EventBase.RemoveActive` | vs2015_libevent-2.1.8/libevent/event.c:3184-3199 | exactly this event leaves its active queue; counters and flag stay true |
| `EventBases.EventBase.InsertLater` | vs2015_libevent-2.1.8/libevent/event.c:3346-3361 | appended to the later queue unless active or there already; ACTIVE and ACTIVE_LATER stay disjoint |
| `EventBases.EventBase.RemoveLater` | vs2015_libevent-2.1.8/libevent/event.c:3200-3214 | exactly this event leaves the later queue; counters and flag stay true |
| `EventBases.EventBase.InsertInserted` | vs2015_libevent-2.1.8/libevent/event.c:3309-3323 | the INSERTED flag and event_count change together, internal events not counted |
| `EventBases.EventBase.RemoveInserted` | vs2015_libevent-2.1.8/libevent/event.c:3172-3183 | the same, backwards |
| `EventBases.EventBase.InsertInOrder` | vs2015_libevent-2.1.8/libevent/event.c:3279-3307 | the event goes before the first later one, after all that are equal: sorted and stable |
| `EventBases.EventBase.InsertTimeout` | vs2015_libevent-2.1.8/libevent/event.c:3363-3384 | the event goes to the heap, or into its common queue in order; flag and event_count stay true |
| `EventBases.EventBase.RemoveTimeout` | vs2015_libevent-2.1.8/libevent/event.c:3215-3235 | exactly this event leaves the heap or its common queue, and no queue gets an earlier head |
| `EventBases.EventBase.MakeLaterActive` | vs2015_libevent-2.1.8/libevent/event.c:3387-3400 | the later queue is emptied and each active queue grows by its events of that priority, in order |
| `EventBases.EventBase.Schedule` | vs2015_libevent-2.1.8/libevent/event.c:1404-1414 | the internal timer is set for the head of its queue, which restores the coverage of that queue |
| `EventBases.EventBase.Add` | vs2015_libevent-2.1.8/libevent/event.c:2546-2716 | -1 and nothing changes for an event being finalized; else flags, deadline, common-timeout queues (the event out of its old place and, in order, into its new one) and active queues after event_add in every branch; the membership invariant is kept and every common queue stays covered; rescheduling an active timeout of a signal event that is being called ends its calls |
| `EventBases.EventBase.Delete` | vs2015_libevent-2.1.8/libevent/event.c:2760-2844 | nothing for an event being finalized; else it is in no queue, heap or table any more, every queue is the old one without it, and a signal event that is being called gets no further call |
| `EventBases.EventBase.Activate` | vs2015_libevent-2.1.8/libevent/event.c:2864-2913 | nothing for an event being finalized; else active exactly once, results joined, the number of calls of a signal event set, and event_continue set exactly when a more urgent event became active in a running dispatch |
| `EventBases.EventBase.CallbackActivate` | vs2015_libevent-2.1.8/libevent/event.c:2951-2979 | from the later queue to the active one, or onto it; 0 iff it was active, later or being finalized already |
| `EventBases.EventBase.Defer` | vs2015_libevent-2.1.8/libevent/event.c:3067-3085 | a deferred callback becomes active at once, or later after too many in one round, with the queues, the count and the result stated; it slips past event_continue exactly when it is more urgent than the running queue |
| `EventBases.EventBase.Finalize` | vs2015_libevent-2.1.8/libevent/event.c:2238-2252 | a callback leaves all queues and is active once more, at the end of its queue, and marked; done twice, the second time does nothing; it slips past event_continue exactly when it is more urgent than the running queue |
| `EventBases.EventBase.FinalizeEvent` | vs2015_libevent-2.1.8/libevent/event.c:2195-2208 | the same for an event, with event_continue set exactly when it is more urgent than the running queue |
| `EventBases.EventBase.ActivateLater` | vs2015_libevent-2.1.8/libevent/event.c:2923-2938 | results joined when already active or later, otherwise appended to the later queue |
| `EventBases.EventBase.TimeoutProcess` | vs2015_libevent-2.1.8/libevent/event.c:3124-3150 | exactly the due events of the heap are deleted and activated with EV_TIMEOUT, all others keep their state |
| `EventBases.EventBase.CommonTimeoutCallback` | vs2015_libevent-2.1.8/libevent/event.c:1416-1439 | exactly the events due by now leave the queue and become active, in time order within each priority, and the coverage is restored |
| `EventBases.EventBase.DueIsActive` | vs2015_libevent-2.1.8/libevent/event.c:1404-1439 | once no timer of the heap is due, a common queue whose head is due has its internal timer active: no common timeout is missed |
| `EventBases.EventBase.RunSignal` | vs2015_libevent-2.1.8/libevent/event.c:1307-1338 | a signal event is called at most as often as the signal came, and exactly as often when its calls only make events active; after each call the more urgent active events are the slipped ones and those for which event_continue was set |
| `EventBases.EventBase.RunNext` | vs2015_libevent-2.1.8/libevent/event.c:1600-1706 | the first event of the queue is taken off and called, a signal event once for each signal; every event that was active then is noted as waiting |
| `EventBases.EventBase.ProcessSingleQueue` | vs2015_libevent-2.1.8/libevent/event.c:1590-1706 | callbacks of this priority only, the first of the queue first, counted without internal ones, at most max of them; -1 iff broken off; at every start the more urgent active events are exactly those that slipped and, at later calls of a signal event, those for which event_continue was set |
| `EventBases.EventBase.ProcessActive` | vs2015_libevent-2.1.8/libevent/event.c:1714-1757 | one dispatch runs user callbacks of one priority only and counts them, starting with one of the most urgent; 0 means every active queue is empty; strict priority is kept unless some event slips or a signal event is called again after event_continue was set; and it is broken, by the second start, whenever the first callback makes a more urgent event active directly with another event behind it in the queue, or activates it while its own signal came more than once |
| `EventBases.EventBase.Poll` | vs2015_libevent-2.1.8/libevent/event.c:1943-1958 | what is active when the callbacks begin was active, waited for this round, is ready or is due, and nothing else; no due timer and no due common timeout is missed |
| `EventBases.EventBase.Loop` | vs2015_libevent-2.1.8/libevent/event.c:1877-1975 | over any number of rounds of readiness, timeouts and callback requests: the starts of the run are those of its rounds in order, each round starts callbacks iff some event was active then, one of the most urgent first; strict priority holds throughout if no request makes a more urgent event slip and no signal event is called again after event_continue was set, in particular if all deferred and finalized callbacks have the last priority and signals come one at a time; memberships, counters and covers hold; 1 only when no event is pending or active |
| `EventBases.DeferredWaits` | vs2015_libevent-2.1.8/libevent/event.c:3067-3085 | a dispatch that breaks strict priority: of two active events of priority 1 the first schedules a deferred callback of priority 0, and the second is started before it |
| `EventBases.FinalizerWaits` | vs2015_libevent-2.1.8/libevent/event.c:2238-2252 | the same when the first event has a callback of priority 0 finalized |
| `EventBases.SignalGoesOn` | vs2015_libevent-2.1.8/libevent/event.c:1307-1338 | a dispatch that breaks strict priority: a signal event of priority 1 whose signal came twice activates an event of priority 0 in its first call, and its second call comes before it |
| `EventQueues.StrictExactly` | vs2015_libevent-2.1.8/libevent/event.c:1708-1757 | strict priority holds of a recorded run if and only if no slipped event was active at any start and, at no later call of a signal event, one for which event_continue had been set |
| `EventBases.EventBase.RunRound` | vs2015_libevent-2.1.8/libevent/event.c:1943-1968 | one round from the dispatch on: exactly the events that were active, waited for it, are ready or due compete, and its starts are recorded |
| `EventBases.EventBase.NoneLeft` | vs2015_libevent-2.1.8/libevent/event.c:1935-1941 | when both counters are down to zero, no event but an internal one is in any queue |
| `EventQueues.InsertFacts` | vs2015_libevent-2.1.8/libevent/event.c:3279-3307 | an insertion where the source searches to keeps the queue sorted and without duplicates, with exactly one more member |
| `EventQueues.AppendDue` | vs2015_libevent-2.1.8/libevent/event.c:1420-1434 | deleting and activating one event after another leaves each active queue without them and then with those of its priority, in that order |
| `EventQueues.UserStartsJoin` | vs2015_libevent-2.1.8/libevent/event.c:1616-1690 | the number of user callbacks started is the sum over consecutive parts of a run |
| `Evmaps.LazyIsEager` | vs2015_libevent-2.1.8/libevent/evmap.c:265-409 | for every sequence of adds, deletes and dispatches on a descriptor, the pending change applied to what the backend knows equals what an eager backend would have been told, and equals what the registered events want |
| `Evmaps.StepCoalesced` | vs2015_libevent-2.1.8/libevent/evmap.c:265-939 | every add, delete and dispatch keeps the single change of a descriptor true of its counts |
| `Evmaps.StepWanted` | vs2015_libevent-2.1.8/libevent/evmap.c:265-409 | one add or delete changes the wanted kinds exactly as the eager call does |
| `Evmaps.NoteIsEager` | vs2015_libevent-2.1.8/libevent/evmap.c:854-939 | noting an add (a delete) in the change is adding (removing) those kinds to (from) what it will apply to, and old_events stays |
| `Evmaps.CountWithout` | vs2015_libevent-2.1.8/libevent/evmap.c:378-392 | removing an event lowers exactly the counts of its kinds by one |
| `Evmaps.NoteNew` | vs2015_libevent-2.1.8/libevent/evmap.c:819-852 | a new slot keeps idxplus1 a bijection between changed descriptors and change slots |
| `Evmaps.NoteAgain` | vs2015_libevent-2.1.8/libevent/evmap.c:819-852 | changing a descriptor again touches its own slot only |
| `Evmaps.Base.Grow` | vs2015_libevent-2.1.8/libevent/evmap.c:797-817 | room for one more change, the changes kept |
| `Evmaps.Base.GetChange` | vs2015_libevent-2.1.8/libevent/evmap.c:819-852 | the one slot of the descriptor, made on first use with old_events as they were; no other descriptor changes |
| `Evmaps.Base.ChangelistAdd` | vs2015_libevent-2.1.8/libevent/evmap.c:854-887 | the change of this descriptor notes the add; no other descriptor changes |
| `Evmaps.Base.ChangelistDel` | vs2015_libevent-2.1.8/libevent/evmap.c:889-939 | the change of this descriptor notes the delete; no other descriptor changes |
| `Evmaps.Base.IoAdd` | vs2015_libevent-2.1.8/libevent/evmap.c:265-341 | -1 and no change when a count would pass its maximum, 1 iff the backend was told; the descriptor makes exactly the model step, all others stay |
| `Evmaps.Base.IoDel` | vs2015_libevent-2.1.8/libevent/evmap.c:346-409 | 1 iff a kind lost its last event; the descriptor makes exactly the model step, all others stay |
| `Evmaps.Base.RemoveAll` | vs2015_libevent-2.1.8/libevent/evmap.c:767-786 | all indexes are cleared, the list is empty, and the backend watches exactly what the counts want |
| `HashTables.Rehash` | vs2015_libevent-2.1.8/libevent/ht-internal.h:350-369 | growing in place: terminates with the same elements, each in bucket hash % new length, none twice |
| `HashTables.Distribute` | vs2015_libevent-2.1.8/libevent/ht-internal.h:332-349 | moving into a new array: terminates with the same elements, each in bucket hash % new length |
| `HashTables.HashTable.FindP` | vs2015_libevent-2.1.8/libevent/ht-internal.h:143-157 | the link found is the one to the element with an equal key, or the end of the bucket when no member of the whole table is equal |
| `HashTables.HashTable.Find` | vs2015_libevent-2.1.8/libevent/ht-internal.h:159-167 | agrees with membership by key in the mathematical set |
| `HashTables.HashTable.NextPrime` | vs2015_libevent-2.1.8/libevent/ht-internal.h:326-331 | the first later prime whose load limit exceeds the size |
| `HashTables.SearchEndsExactly` | vs2015_libevent-2.1.8/libevent/ht-internal.h:326-331 | a later prime with a limit above the size exists if and only if the last prime has one |
| `HashTables.RoomForOne` | vs2015_libevent-2.1.8/libevent/ht-internal.h:174-175 | however full a table within its limit is, the last prime has room for one element more than is asked for |
| `HashTables.TooManyElements` | vs2015_libevent-2.1.8/libevent/ht-internal.h:316-331 | with load 0.5, no prime has room for more than 805306370 elements, so that HT_GROW for that many overruns |
| `HashTables.HashTable.Grow` | vs2015_libevent-2.1.8/libevent/ht-internal.h:316-376 | in either allocation branch the set of elements stays and the representation stays good, with a limit above the size unless the primes are used up |
| `HashTables.HashTable.Insert` | vs2015_libevent-2.1.8/libevent/ht-internal.h:170-182 | the set grows by exactly the element, the count by one, and the search for a larger prime never overruns; the load limit is kept unless the primes are used up |
| `HashTables.HashTable.Remove` | vs2015_libevent-2.1.8/libevent/ht-internal.h:206-221 | exactly the element with an equal key is removed and unlinked, or none had one and nothing changes |
| `HashTables.HashTable.RepIsBad` | vs2015_libevent-2.1.8/libevent/ht-internal.h:387-421 | the audit, with every one of its tests, can only return 0, or 3 when the table is over its limit and no larger prime is left |
| `Inet6.Gap` | vs2015_libevent-2.1.8/libevent/evutil.c:1910-1927 | the position is that of the first longest run of zeros |
| `Inet6.GapIsUnique` | vs2015_libevent-2.1.8/libevent/evutil.c:1910-1927 | no other position is a first longest run of zeros |
| `Inet6.FindGap` | vs2015_libevent-2.1.8/libevent/evutil.c:1910-1927 | the loop finds that position, or -1 when the run is shorter than two (section 4.2 of RFC 5952) |
| `Inet6.PrintWords` | vs2015_libevent-2.1.8/libevent/evutil.c:1929-1946 | the printed words are the words before the gap, "::" and the words after it, or all eight |
| `Inet6.Ntop` | vs2015_libevent-2.1.8/libevent/evutil.c:1882-1950 | the text of the address, the first len - 1 characters of it, or none, as the length of the buffer says |
| `Inet6.Pton` | vs2015_libevent-2.1.8/libevent/evutil.c:1977-2062 | computes the parse function on every string, errors included, with the blanks and signs that sscanf accepts in a dotted quad |
| `Inet6.LaxQuad` | vs2015_libevent-2.1.8/libevent/evutil.c:1994-2000 | blanks and signs in front of the numbers of a dotted quad are accepted |
| `Inet6.RoundTrip` | vs2015_libevent-2.1.8/libevent/evutil.c:1882-2062 | for every 128-bit address, parsing its text gives the address, through the gap and the dotted-quad branches |
| `Inet6.RoundTripExactly` | vs2015_libevent-2.1.8/libevent/evutil.c:1882-2062 | what a buffer of len characters receives parses back to the address if and only if len exceeds the length of the text |
| `Inet6.CutText` | vs2015_libevent-2.1.8/libevent/evutil.c:1947-1950 | the text without its last character never parses to the same address, so the text cut by one, which is returned as a success, is always wrong |
| `TokenBuckets.AddTicksIsMin` | vs2015_libevent-2.1.8/libevent/bufferevent_ratelim.c:73-111 | with the limit at most the maximum, the overflow-avoiding update is min(maximum, limit + n_ticks * rate) exactly, with 64-bit wrap-around modelled |
| `TokenBuckets.AddTicksExactly` | vs2015_libevent-2.1.8/libevent/bufferevent_ratelim.c:73-111 | for any limit, the update equals that minimum if and only if the limit is at most the maximum or 2^64 + maximum - limit is at most n_ticks * rate |
| `TokenBuckets.AboveTheMaximum` | vs2015_libevent-2.1.8/libevent/bufferevent_ratelim.c:96-103 | a limit above the maximum can be raised further instead of being clipped |
| `TokenBuckets.TickFacts` | vs2015_libevent-2.1.8/libevent/bufferevent_ratelim.c:126-140 | the tick is the low 32 bits of a count of whole tick lengths that does not go back when time does not |
| `TokenBuckets.TickLength` | vs2015_libevent-2.1.8/libevent/bufferevent_ratelim.c:142-173 | a configuration is made for any tick length, and its msec_per_tick is zero if and only if the length in whole milliseconds is a multiple of 2^32 |
| `TokenBuckets.NoTick` | vs2015_libevent-2.1.8/libevent/bufferevent_ratelim.c:142-173 | tick lengths of 999 microseconds and of 4294967.296 seconds, for which it is zero |
| `TokenBuckets.NoExtraTicks` | vs2015_libevent-2.1.8/libevent/bufferevent_ratelim.c:77-90 | the ticks credited never exceed the ticks that passed, across wrap-around |
| `TokenBuckets.LowBits` | vs2015_libevent-2.1.8/libevent/bufferevent_ratelim.c:77-90 | an update sees only the low 32 bits of the tick |
| `TokenBuckets.Conformance` | vs2015_libevent-2.1.8/libevent/bufferevent_ratelim.c:73-346 | in every run of legal transfers, the bytes moved are at most maximum + rate * (last tick - first tick) |
| `TokenBuckets.ConformanceBetween` | vs2015_libevent-2.1.8/libevent/bufferevent_ratelim.c:73-346 | the same between any two transfers of a run |
| `TokenBuckets.RateLimit.constructor` | vs2015_libevent-2.1.8/libevent/bufferevent_ratelim.c:49-71 | a new bucket holds one tick of rate at the current tick |
| `TokenBuckets.RateLimit.Reconfigure` | vs2015_libevent-2.1.8/libevent/bufferevent_ratelim.c:49-71 | an existing bucket is only clipped down to the new maximum |
| `TokenBuckets.RateLimit.Update` | vs2015_libevent-2.1.8/libevent/bufferevent_ratelim.c:73-111 | both buckets are updated, or neither: 0 iff no tick is to be credited |
| `TokenBuckets.RateLimit.GetMax` | vs2015_libevent-2.1.8/libevent/bufferevent_ratelim.c:197-258 | both buckets are updated, and the answer is the limit of the direction asked for, or 0 when that is negative |
| `TokenBuckets.RateLimit.DecrementRead` | vs2015_libevent-2.1.8/libevent/bufferevent_ratelim.c:272-308 | the limit falls by the bytes, also by a negative number of them; it stays within the maximum or not as stated; reading is suspended exactly while the limit is not positive, and then the refill is pending |
| `TokenBuckets.RateLimit.DecrementWrite` | vs2015_libevent-2.1.8/libevent/bufferevent_ratelim.c:310-346 | the same for writing |
| `TokenBuckets.RateLimit.Refill` | vs2015_libevent-2.1.8/libevent/bufferevent_ratelim.c:393-439 | both buckets updated, each direction resumed exactly when its limit is positive, and the timer kept while one is suspended |
| `TokenBuckets.RateLimit.TransferRead` | vs2015_libevent-2.1.8/libevent/bufferevent_ratelim.c:197-308 | asking for the maximum and then decrementing is one legal transfer of the run in Conformance |
| `Tagging.EncodeIntInternal` | vs2015_libevent-2.1.8/libevent/event_tagging.c:117-138 | the loop over nibbles writes exactly the bytes of the number, for any width up to 8 bytes |
| `Tagging.EncodeInt` | vs2015_libevent-2.1.8/libevent/event_tagging.c:152-166 | those bytes are appended to the buffer iff it takes them |
| `Tagging.EncodeTag` | vs2015_libevent-2.1.8/libevent/event_tagging.c:173-194 | the 7-bit groups of the tag are appended iff the buffer takes them, and their number is returned |
| `Tagging.Marshal` | vs2015_libevent-2.1.8/libevent/event_tagging.c:256-263 | tag, length and payload are appended one by one, each iff the buffer takes it; with room for the item, all of it |
| `Tagging.DecodeTag` | vs2015_libevent-2.1.8/libevent/event_tagging.c:196-242 | reads the tag at the front and drains it iff asked to and successful, unless the buffer is frozen; a sixth byte is looked at exactly when the first five ask for more and fit 32 bits, and where it lies |
| `Tagging.LookBehind` | vs2015_libevent-2.1.8/libevent/event_tagging.c:209-222 | with five such bytes at the end of one chain, as evbuffer_prepend leaves them, the sixth is looked for behind the memory of the chain |
| `Tagging.DecodeInt` | vs2015_libevent-2.1.8/libevent/event_tagging.c:315-377 | reads a number of at most the given nibbles and drains it iff successful, unless the buffer is frozen |
| `Tagging.UnmarshalHeader` | vs2015_libevent-2.1.8/libevent/event_tagging.c:437-451 | tag and length are read and drained as far as they go; -1 also when less than the length follows; a frozen buffer is not drained, so that both are read from its front |
| `Tagging.Unmarshal` | vs2015_libevent-2.1.8/libevent/event_tagging.c:466-480 | exactly when the header is complete, the length fits an int and the target takes the payload, it is copied to the target and drained; what is left in the source is stated in every case |
| `Tagging.IntRoundTrip` | vs2015_libevent-2.1.8/libevent/event_tagging.c:117-350 | every 32- and 64-bit number is read back from its nibbles, whatever follows |
| `Tagging.TagRoundTrip` | vs2015_libevent-2.1.8/libevent/event_tagging.c:173-242 | every 32-bit tag is read back from its 7-bit groups, whatever follows |
| `Tagging.ItemRoundTrip` | vs2015_libevent-2.1.8/libevent/event_tagging.c:256-480 | reading an item gives it back and leaves exactly what followed |
| `Tagging.StreamRoundTrip` | vs2015_libevent-2.1.8/libevent/event_tagging.c:256-480 | reading as many times from the concatenation of any items and a suffix gives the items and exactly the suffix |
| `Monotonic.MonotonicTimer.Adjust` | vs2015_libevent-2.1.8/libevent/evutil_time.c:185-200 | never before the last output, and one step of the ratchet on microseconds |
| `Monotonic.OutIsAdjusted` | vs2015_libevent-2.1.8/libevent/evutil_time.c:185-200 | the output is always the raw reading plus the accumulated adjustment |
| `Monotonic.ClosedForm` | vs2015_libevent-2.1.8/libevent/evutil_time.c:185-200 | an output exceeds the one before by max(0, raw - raw before) |
| `Monotonic.NeverBack` | vs2015_libevent-2.1.8/libevent/evutil_time.c:185-200 | over any readings, no output is before an earlier one |
| `Monotonic.OverAllReadings` | vs2015_libevent-2.1.8/libevent/evutil_time.c:185-200 | over any readings, the output has advanced by the sum of the forward steps and the adjustment by the sum of the backward ones |
| `Monotonic.MonotoneIsKept` | vs2015_libevent-2.1.8/libevent/evutil_time.c:185-200 | a source that never goes backwards is passed through with a constant adjustment |

## Left out

- Evbuffers.Evbuffer.Prepend: not all or nothing, as in the source; what remains after a failed allocation is stated exactly.
- Evbuffers.Evbuffer.PrependBuffer: the whole invariant only under the condition given; after an interior empty chain, the other operations are not covered.
- Evbuffers.Evbuffer.AddBuffer: the two buffers share no chain and together stay below SIZE_MAX, which the source takes for granted; the same for PrependBuffer and RemoveBuffer.
- Evbuffers.Evbuffer.SearchRange: a pointer passed as start or end must be consistent with the buffer, as the source asks.
- Evbuffers: pinned, immutable, reference, multicast and file chains, reference counts, buffer callbacks and their counters, reserving and committing space, line search, formatted output, socket and file transfer.
- Everywhere: locks and threads (each locked operation is one atomic step); allocation failure, except in adding to, prepending to, pulling up and moving between evbuffers and for the choice between the two branches of HT_GROW.
- DnsNames.DnsnameToLabels: where the final zero byte would lie behind the memory of the buffer, the source writes out of bounds, and the model requires that it does not; names contain no NUL, as C strings do not.
- DnsNames.RoundTrip: for offsets below 0x4000, since the encoder is only right for these.
- DnsRequests.EvdnsBase.TransactionIdPick: random bytes are modelled as any choice of an id not yet rejected; that a random source may repeat itself for ever is left out.
- DnsRequests.EvdnsBase.SetMaxInflight: the limit is at most 65000, to which the option is clipped; failure to allocate the heads is left out.
- DnsRequests.EvdnsBase.Submit: a new request is made and submitted in one step, since a search that pumps in between could reuse its id.
- DnsRequests.EvdnsBase.Transmit: whether a packet goes out, has to wait or fails is left open; the choked flag, the timers and the probes that follow a failure are left out.
- DnsRequests: sockets, timeouts and retries, search domains, replies and their parsing beyond names, the server side, probing schedules, case randomisation.
- HashTables.HashTable.Grow: requires that some prime is large enough, without which the source reads past its array of primes; the same for NextPrime; load is an exact real, and 32-bit overflow of sizes is left out.
- HashTables.HashTable.Insert: for an element that no member equals; HT_REPLACE and the iteration macros are left out.
- Evmaps: signals, the minimum-size table of descriptors, rejected mixtures of edge- and level-triggered events, backend failure, descriptors being closed and reinitialised.
- EventBases.EventBase.Loop: finitely many rounds; readiness, clock and callbacks are inputs, and a callback is a finite list of requests; callbacks do not create events or common-timeout queues; loopcontinue, termination signals and virtual events are left out.
- EventBases.EventBase.ProcessActive: needs internal events at priority 0, as the source has them, and a limit that lets at least one callback run; the second is a restriction of the model, since event2/event.h:639 allows max_callbacks to be 0.
- EventBases.EventBase.Serve: changing the priority of a callback that is active (bufferevent_priority_set does it without a check for the deferred callback of a bufferevent) and event_base_priority_init are not among the requests; event_callback_finalize_many_ is its cancellations, then its finalizers.
- EventBases.EventBase.RunSignal: the pointer to the number of calls left is cleared after the last call, where the source can leave it pointing to a variable that is gone; a negative number of calls is left out.
- EventBases.EventBase.TimeoutProcess: the heap is a priority queue; the inside of the min-heap is not part of this model.
- EventBases.EventBase.Add: backend failure and the rescheduling of persistent timers (an ordinary Add in the callback's requests) are left out, as is the USE_REINSERT_TIMEOUT variant.
- EventBases.EventBase.Delete: waiting for a callback that runs in another thread is left out, as is deletion in spite of finalizing.
- Inet6.Pton: decimal numbers of more than 32 bits, for which C leaves the result of sscanf open, are refused; the AF_INET branches are left out.
- Inet6.Ntop: the 64-byte scratch buffer, which no text fills, is not modelled.
- TokenBuckets.Conformance: for non-negative transfers against the limit of one bucket; groups are left out.
- TokenBuckets.RateLimit.GetMax: max_single_read and max_single_write play no part, since the source overwrites them, instead of clipping, once a bucket is configured.
- TokenBuckets.RateLimit.DecrementRead: a limit lifted above its maximum by bytes given back is outside the invariant of the other operations; the same for DecrementWrite.
- TokenBuckets.TickFacts: for an msec_per_tick that is not 0, for which the source divides by zero (TickLength says when); MsecPerTick supposes a 64-bit time_t.
- Tagging.DecodeTag: the sixth byte is not read, since its value does not matter; the model says where the source looks for it. Allocation failure is left out here and in the other tagging functions.
- Tagging.Unmarshal: for a target other than the source; the returned length of 2^31 bytes and more is negative, which the model treats as the failure that it leads to; the other evtag helpers are left out.
- Monotonic: reading the system clocks.
- bufferevents, filters, HTTP, RPC, listeners, signal handling, the backends, and the Java and proxy files of the repository.
