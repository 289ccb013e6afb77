# A verified model of the submission client, the reference STM's allocator ring and the bank workload

This project models, in Dafny, three sequential cores of a course repository for a software
transactional memory (STM) library, and proves properties of each.

- **The submission client** (`submit.py`), in `framing.dfy`, `utf8.dfy` and `session.dfy`.
  - Its wire format: a field is a 4-byte little-endian size header followed by that many bytes.
  - `socket_encode_size`, `socket_decode_size`, `socket_consume`, `socket_recvfield` and
    `socket_sendfield` are modelled over a socket that holds the chunks the server will still
    deliver and a log of everything the client wrote.
  - The session walk is modelled as well: version check, identification and status, mode,
    upload and/or download, and the feedback stream decoded as UTF-8 with a carried-over residue.
  - `Session.Run` is the walk as a function of the server's byte stream. `Session.RunSession`
    performs the walk on a socket and is proved to write and end exactly as `Run` says.
  - UTF-8 is modelled as in RFC 3629 (sections 3 and 4), with the greedy strict decoding that
    Python's `bytes.decode()` performs.
- **The reference STM's allocation bookkeeping** (`reference/tm.c`), in `tm.dfy`.
  - The intrusive circular doubly-linked ring of segment headers hangs off the sentinel link
    `allocs`.
  - `link_reset`, `link_insert` and `link_remove` are methods on `Link` objects, updated in place.
  - A ring is described by the sequence of its links in order: `Linked` says each link's `next`
    and `prev` follow that order cyclically, and `Distinct` says no link occurs twice.
  - `Region` keeps its segments' headers and their bytes as ghost state. `tm_create`,
    `tm_alloc`, `tm_free` and `tm_destroy` are proved to keep the ring exactly equal to that
    state.
  - `align_alloc` and `delta_alloc` are modelled with their arithmetic properties.
- **The bank workload** (`grading/workload.hpp`), in `workload.dfy`.
  - Shared memory is the chain of account segments, each holding its parity and the balances of
    its allocated accounts.
  - The segment layout is modelled, and so are `init`, `short_tx` (index resolution and the
    one-unit transfer), `alloc_tx` (add or remove the last account) and `long_tx` (the audit).
  - Every transaction is one atomic method on `Bank`.
  - The workload's invariant is proved to hold after `init` and to be kept by `short_tx` and
    `alloc_tx`. The invariant is: the parities plus the live balances equal `init_balance`
    times the number of accounts.
  - `long_tx` is proved to report exactly whether that invariant holds and no balance is
    negative.

`bytes.dfy` holds the octet type, `Option`, and division facts shared by the other files.

The model follows `submit.py` as written, including these behaviours:

- The version field is read with `exact=False`, so any field of at most 4 bytes is accepted
  and compared with `version_uid` (submit.py:186). A shorter field is a version mismatch.
- The status is read as a length-prefixed field of exactly one byte (submit.py:192).
- Every status outside {1, 2, 3} lets the session continue (submit.py:194).
- The mode byte is sent through `socket_sendfield`, so it carries a 4-byte size header
  (submit.py:200).
- `sendall` returns `None` when it succeeds, so the "Send failed" branch of `socket_sendfield`
  can never be taken (submit.py:155-156).
- The streaming residue is everything from the decode error's `start` onwards (submit.py:228),
  whether that is an incomplete trailing character or an invalid byte. One invalid byte
  therefore withholds all later text: see `Session.InvalidByteWithholdsRest`.

## Model

| member | source | states |
|---|---|---|
| Framing.EncodeSize | submit.py:84-99 | Overflow exactly when the size is negative or at least 2^32; otherwise 4 bytes whose byte i is (size >> 8i) & 0xFF, and whose little-endian value is the size |
| Framing.DecodeSize | submit.py:101-116 | Overflow exactly when the input is not 4 bytes long; otherwise the little-endian value of the bytes, below 2^32, which re-encodes to the same 4 bytes |
| Framing.LittleEndianByte | submit.py:96-98 | byte i of the encoding of n is n / 256^i mod 256 |
| Framing.ValueOfLittleEndian | submit.py:84-116 | decode(encode(n)) == n for every n that fits in the width |
| Framing.LittleEndianValueOf | submit.py:84-116 | encode(decode(b)) == b for every b |
| Framing.ValueOfBound | submit.py:112-116 | a header of w bytes decodes to a value below 256^w |
| Framing.SizeLimitIsPow | submit.py:92 | the bound 1 << 32 is 256 to the power of the header size |
| Framing.Socket.Recv | submit.py:126 | a receive returns a non-empty prefix of the pending bytes of at most the requested length, and returns zero bytes exactly when the peer has closed |
| Framing.Socket.SendAll | submit.py:155 | every byte is appended to what was written, in order |
| Framing.Consume | submit.py:118-131 | with enough pending bytes, exactly the next `size` bytes, however they were chunked; otherwise NoMoreData once the stream is drained |
| Framing.ParseField | submit.py:133-147 | too large exactly when the header exceeds the bound; too small exactly when exact and below it; otherwise a field of header-many bytes, split off the stream |
| Framing.RecvField | submit.py:133-147 | the field and the bytes left are those `ParseField` gives on the pending stream |
| Framing.Frame | submit.py:149-156 | the header is 4 bytes long and is followed by the data |
| Framing.SendField | submit.py:149-156 | below 2^32 bytes, writes the frame of the data; otherwise Overflow, having written nothing |
| Framing.ParseFrame | submit.py:133-156 | a frame written by sendfield is read back by recvfield as the same data, followed by the bytes after it, unless its size breaks the bound |
| Utf8.EncodeChar | submit.py:191 | a character takes one to four octets, and one exactly when it is ASCII |
| Utf8.Encode | submit.py:191 | `str.encode`: a text takes at least one octet per character |
| Utf8.DecodeStep | submit.py:226 | a decoded character takes one to four octets within the input |
| Utf8.DecodeEncodeChar | submit.py:225-229 | decoding the octets of a character gives back that character and its length, whatever follows |
| Utf8.EncodeDecodeStep | submit.py:225-229 | the octets a decoding step consumes are exactly the encoding of the character it returns |
| Utf8.DecodeGreedy | submit.py:225-229 | the error's `start` lies within the input, and the decoded text encodes to exactly the octets before it |
| Utf8.DecodeGreedyStops | submit.py:225-229 | decoding stops only at the end or where no well-formed character starts |
| Utf8.DecodeAfterText | submit.py:225-229 | decoding a text's octets followed by anything gives that text followed by the decoding of the rest |
| Utf8.DecodeEncode | submit.py:225-229 | round trip: every text decodes from its octets whole, consuming all of them |
| Utf8.DecodePrefix | submit.py:229 | decoding the octets before `start` again gives the same text, without error |
| Session.StatusMessage | submit.py:193-194 | a status has a message exactly when it is 1, 2 or 3 |
| Session.Mode | submit.py:199 | the mode is below 4; bit 0 is set exactly when downloading and bit 1 exactly when forcing an update |
| Session.Run | submit.py:185-188 | nothing is sent unless the version field is `version_uid`, and a version mismatch sends nothing |
| Session.Authenticate | submit.py:190-200 | an identifier too long to frame crashes with Overflow, sending nothing; otherwise its frame is sent first; a rejection has status 1, 2 or 3 and sends only that frame |
| Session.Exchange | submit.py:202-213 | the session stops as a missing file exactly when it uploads and the file does not exist, sending nothing further; a finished session has a download exactly when one was asked for |
| Session.Feedback | submit.py:215-236 | the feedback phase finishes, keeps the download, and the text written followed by the bytes dropped are exactly the bytes received |
| Session.DecodeAvailable | submit.py:223-229 | one decode attempt writes the greedy decoding and keeps the bytes from `start` on; the two together are the data |
| Session.FeedbackRound | submit.py:223-229 | decoding the residue plus a new chunk continues the decoding of everything received, for text and residue alike |
| Session.RoundShift | submit.py:223-229 | decoding octets that start with a text's encoding yields that text, then the decoding of what follows, with the same residue |
| Session.ReceivedSplit | submit.py:223-229 | everything received plus a chunk is the written text's octets, then the residue plus the chunk |
| Session.DecodedSplit | submit.py:217-229 | the written text's octets followed by the residue are exactly the bytes received |
| Session.StreamFeedback | submit.py:215-232 | whatever the chunking, reads until the peer closes, writes the greedy decoding of all bytes received and keeps the rest, and the text's octets followed by the residue are everything received |
| Session.RunSession | submit.py:185-188 | the session on a socket ends, writes and leaves unread exactly what `Run` gives for the server's bytes |
| Session.AuthenticateSession | submit.py:190-200 | identification, status and mode on a socket, as `Authenticate` gives |
| Session.ExchangeSession | submit.py:202-236 | upload, download and feedback on a socket, as `Exchange` gives |
| Session.VersionGate | submit.py:185-188 | a version field of at most 4 bytes goes on to identification exactly when it equals `version_uid`; otherwise the session stops with nothing sent |
| Session.VersionTooLarge | submit.py:186 | a version field longer than 4 bytes fails as too large, with nothing sent |
| Session.NothingSentBeforeVersion | submit.py:185-191 | nothing is sent unless the version field is `version_uid`; once it is, the identifier's frame is sent first |
| Session.StatusRejects | submit.py:192-196 | statuses 1, 2 and 3 end the session with their message after the identifier and before the mode |
| Session.StatusAdmits | submit.py:192-200 | any other status goes on, sending the mode as a framed one-byte field |
| Session.StatusExact | submit.py:192 | a status field of any length but 1 fails as too large or too small |
| Session.Directions | submit.py:202-213 | the zip file is sent exactly when uploading, a payload is received exactly when downloading, a missing file stops the session with nothing further sent, and the upload comes before the download |
| Session.ExchangeDelivers | submit.py:202-229 | when the server sends the payload asked for and then text, the exchange sends the upload, keeps the payload and writes the whole text |
| Session.Submission | submit.py:185-236 | a complete accepted session sends exactly the identifier, the mode and the upload, in that order, and writes the whole feedback |
| Session.FeedbackOfText | submit.py:215-232 | feedback that is all well-formed text is written whole, with nothing dropped |
| Session.InvalidByteWithholdsRest | submit.py:221-229 | after a byte that can never start a character, nothing more is written, however much text follows |
| Session.SplitCharacter | submit.py:217-229 | the chunks E2 82, then AC 20, write exactly the euro sign and a space, with no residue |
| Tm.LinkReset | reference/tm.c:109-112 | the link becomes its own `prev` and `next` |
| Tm.LinkInsert | reference/tm.c:118-124 | the link goes between the old `base.prev` and `base`, both now pointing at it; no other link changes |
| Tm.LinkRemove | reference/tm.c:129-134 | the neighbours are joined; the removed link keeps its fields; no other link changes |
| Tm.LinkedMutual | reference/tm.c:101-104 | in a ring, each link is the `prev` of its `next` and the `next` of its `prev` |
| Tm.AppendedDistinct | reference/tm.c:118-124 | inserting a link not yet in the ring keeps its links distinct |
| Tm.RemovedDistinct | reference/tm.c:129-134 | removing a link keeps the ring's links distinct |
| Tm.AloneIffSelfLinked | reference/tm.c:390-392 | the sentinel is its own `next` exactly when the ring holds nothing else |
| Tm.InsertLast | reference/tm.c:450 | link_insert before the first link of a ring makes the new link its last |
| Tm.RemoveAt | reference/tm.c:129-134 | link_remove of any link but the first leaves the ring of the others, in order |
| Tm.AppendSegment | reference/tm.c:450 | inserting a new header before `allocs` makes it the last segment of the ring |
| Tm.UnlinkSegment | reference/tm.c:460 | removing the k-th header leaves the ring of the other segments, in order |
| Tm.AlignAlloc | reference/tm.c:367 | `align_alloc` is the larger of the claimed alignment and the pointer size |
| Tm.DeltaAlloc | reference/tm.c:382 | `delta_alloc` is a multiple of `align_alloc` that holds a link and exceeds it by less than `align_alloc` |
| Tm.RoundDown | reference/tm.c:382 | rounding down to a multiple loses less than the modulus |
| Tm.DeltaAllocLeast | reference/tm.c:382 | `delta_alloc` is the least multiple of `align_alloc` that holds a link |
| Tm.Zeros | reference/tm.c:452 | `size` bytes, all zero |
| Tm.Region.constructor | reference/tm.c:362-384 | a region with zeroed memory, an empty ring whose links are all new, and `align_alloc`/`delta_alloc` as computed |
| Tm.Region.Create | reference/tm.c:362-384 | no region exactly when an allocation or the lock's initialisation fails; otherwise a fresh region of the given size and alignment, with zeroed memory and an empty ring whose links are all new |
| Tm.Region.Alloc | reference/tm.c:444-455 | the start segment stays; on failure nothing in the region or its ring changes; on success a fresh header becomes the last segment, its bytes are zeroed, and the address handed back is `delta_alloc` past the header |
| Tm.Region.Unlink | reference/tm.c:460-461 | the k-th segment leaves the ring and its bytes go with it; the ring stays well-formed; the start segment stays |
| Tm.Region.Free | reference/tm.c:457-463 | stepping back `delta_alloc` reaches the header, which is removed with its bytes; the start segment stays |
| Tm.Region.Destroy | reference/tm.c:386-395 | the drain runs once per allocated segment and ends with `allocs` alone and self-linked; the start segment stays |
| Tm.Region.AllocThenFree | reference/tm.c:444-463 | allocating a segment then freeing it restores the ring, the segments' bytes and the start segment exactly |
| Tm.DestroyAfterTwoAllocs | reference/tm.c:362-399 | on a region just created, two allocations succeed and the destroy loop then runs exactly twice |
| Workload.Layout | grading/workload.hpp:99-133 | the fields lie in the order count, next, parity, accounts, do not overlap, and fit in `size(n)` bytes |
| Workload.LocateFrom | grading/workload.hpp:238-262 | a found account is a valid place at or after the segment where the walk started |
| Workload.Locate | grading/workload.hpp:238-262 | a found account is a valid place in the chain |
| Workload.LocateFromCounts | grading/workload.hpp:238-262 | the walk finds an account exactly when the index is below the accounts from there on; the skipped counts plus the index found make the index sought |
| Workload.LocateCounts | grading/workload.hpp:238-262 | an index resolves exactly when it is below the number of accounts; the earlier segments' counts plus the index found make it |
| Workload.Resolve | grading/workload.hpp:238-262 | the single walk finds both accounts exactly when both exist, and at the places `Locate` gives |
| Workload.Write | grading/workload.hpp:268-269 | overwriting a balance keeps the shape of the chain and every parity |
| Workload.Transfer | grading/workload.hpp:264-271 | the transfer of short_tx touches balances only: the segments, their account counts and their parities stay |
| Workload.WriteSums | grading/workload.hpp:268-269 | overwriting a balance keeps the accounts and changes the money by the difference |
| Workload.TransferConserves | grading/workload.hpp:264-271 | a transfer keeps the number of accounts and the money |
| Workload.TransferMoves | grading/workload.hpp:264-271 | between two accounts one unit moves exactly when the sender's balance is positive; every other balance stays |
| Workload.TransferSelf | grading/workload.hpp:264-271 | a self-transfer leaves every balance as it was |
| Workload.TransferNonNegative | grading/workload.hpp:266-270 | a transfer never makes a balance negative |
| Workload.LastHasAccount | grading/workload.hpp:197-206 | with more than two accounts the last segment has one, and a segment precedes it when it has just one |
| Workload.ShrinkLast | grading/workload.hpp:198-202 | the last segment loses its last account; every earlier segment stays |
| Workload.UnlinkLast | grading/workload.hpp:203-209 | the chain loses its last segment; every earlier segment keeps its accounts, and all but the new last stay whole |
| Workload.GrowLast | grading/workload.hpp:211-213 | the last segment gains one account at `init_balance` after its existing ones; everything else stays |
| Workload.LinkSegment | grading/workload.hpp:214-218 | the chain gains one segment after the existing ones, holding one account and `init_balance` of money |
| Workload.ShrinkLastSums | grading/workload.hpp:198-202 | dropping the last account into the parity keeps the chain, takes one account and `init_balance` of money |
| Workload.UnlinkLastSums | grading/workload.hpp:203-209 | freeing an emptied last segment into the previous parity keeps the chain, takes one account and `init_balance` of money |
| Workload.Deallocate | grading/workload.hpp:197-209 | deallocation keeps the chain, takes one account and `init_balance` of money, and keeps balances non-negative |
| Workload.GrowLastSums | grading/workload.hpp:211-213 | adding an account to the last segment keeps the chain, adds one account and `init_balance` of money |
| Workload.LinkSegmentSums | grading/workload.hpp:214-218 | linking a new segment with one account keeps the chain, adds one account and `init_balance` of money |
| Workload.Allocate | grading/workload.hpp:210-218 | allocation keeps the chain, adds one account and `init_balance` of money |
| Workload.AllocStep | grading/workload.hpp:196-220 | alloc_tx keeps the chain and non-negative balances |
| Workload.AllocStepConserves | grading/workload.hpp:186-226 | alloc_tx moves the count down by one when it deallocates and up by one otherwise, and keeps money minus `init_balance` per account, hence the invariant |
| Workload.InitConserves | grading/workload.hpp:275-281 | after init on a fresh region the invariant holds for any `init_balance`, and no balance is negative when `init_balance` is not |
| Workload.Bank.constructor | reference/tm.c:377 | the chain of a fresh region: one zeroed start segment with no account |
| Workload.Bank.Init | grading/workload.hpp:275-289 | the start segment gets `nbaccounts` accounts at `init_balance`, the rest stays, and no error is returned |
| Workload.Bank.ShortTx | grading/workload.hpp:232-273 | reports true exactly when both indices exist; then performs the transfer, and otherwise changes nothing |
| Workload.Bank.AllocTx | grading/workload.hpp:186-226 | the chain becomes `AllocStep` of the chain: deallocate the last account above the trigger and above two, allocate one otherwise |
| Workload.Bank.DeallocateLast | grading/workload.hpp:197-209 | the deallocation branch leaves the chain as `Deallocate` gives: the last account goes, with its segment when it was that segment's only one |
| Workload.Bank.AllocateLast | grading/workload.hpp:210-218 | the allocation branch leaves the chain as `Allocate` gives: a new account at `init_balance` in the last segment, or in a new segment after it |
| Workload.Bank.LongTx | grading/workload.hpp:161-182 | reports true exactly when no balance is negative and the invariant holds; reports the number of accounts unless a balance is negative |

## Left out

- Connecting the socket (submit.py:161-183), parsing the command line, `atexit`, printing and
  exit codes are left out. The socket is a parameter; the end of a session is an `End` value
  that names the message the script would print.
- Reading the zip file is left out: its contents are part of the request (`None` when the file
  does not exist). Writing the downloaded payload to disk is also left out: the payload is
  returned in `Finished`.
- The `ConnectionResetError` and `KeyboardInterrupt` handlers of the streaming loop
  (submit.py:233-236) are left out. They only end the session early.
- Transport write errors are left out: `SendAll` always writes every byte.
- Transport receive errors are left out: `Socket.Recv` never fails. A `recv` raising inside
  `socket_consume` or `socket_recvfield` (submit.py:126) would end the script with an uncaught
  exception, and a connection reset during the feedback loop is the handler left out above.
- `Request.uuid` holds Unicode scalar values only, since a Dafny `char` is never a surrogate.
  An identifier with lone surrogates is therefore not modelled. Python produces those from
  command-line bytes that are not valid UTF-8, and `args.uuid.encode()` then raises
  `UnicodeEncodeError` before anything is sent (submit.py:191).
- The lock, `tm_begin`, `tm_end`, `tm_read`, `tm_write` and the getters `tm_start`, `tm_size`
  and `tm_align` of reference/tm.c are left out. They are concurrency, or plain copies and
  reads.
- `malloc`, `posix_memalign` and `lock_init` are an `available` flag passed in. Their failure
  paths are modelled.
- Addresses are a header and a byte offset (`Ptr`), not integers. The alignment of the
  returned address and `size_t` overflow of `delta_alloc + size` are not modelled.
- `free` of a header is modelled by dropping its bytes from the region's contents. Dafny
  objects are never deallocated.
- `free(region->start)`, `free(region)` and `lock_cleanup` at the end of `tm_destroy`
  (reference/tm.c:396-398) are not modelled. The last of these uses the region after freeing it.
- Workload.Bank.LongTx: compares with the unbounded product `init_balance * count`, whereas the
  source computes it in `size_t` and wraps it modulo 2^64. Balances and sums are also unbounded
  rather than `intptr_t`.
- Workload.Bank.AllocTx: the allocation of a new segment (`next.alloc`) always succeeds. The
  transaction's abort and retry are those of the unseen transactional library, and are left out.
- Each transaction is one atomic step. The transactional library, the retry loop and
  grading/transactional.hpp are not part of this model.
- The account slots past a segment's count are not kept. They are never read before being
  written again.
- The `assert_mode` check in alloc_tx (grading/workload.hpp:204-205) is not modelled: `assert_mode` is
  the constant `false` (grading/common.hpp:69). Instead, `Workload.LastHasAccount` proves that a previous segment exists
  whenever the last one is emptied.
- `run` and `check` of the workload (random choice of transactions, floats, barriers, threads)
  are left out.
