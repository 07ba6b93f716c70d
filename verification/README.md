# cirbuf: a mirrored byte ring buffer, modelled in Dafny

`cirbuf.h` is a fixed-capacity byte FIFO. It does not need the usual
wrap-around branch for reads and writes. To get this, it reserves `2C` bytes of
address space and maps the same `C`-byte backing store into both halves.
A run of bytes that wraps past the end of the store is then still one
contiguous span of memory. The state is `(size, head, tail)`:
- `head` is where the next read starts.
- `tail` is where the next write goes.
- `head == tail` means the buffer is empty.

So the buffer is never allowed to become full. It always keeps one byte of slack.

The model is functional:
- A `Buffer` is an immutable record `(size, head, tail, data)`. Here `data` is the `C`-byte store as a `seq<byte>`.
- Each operation is a pure function that returns the new state and the result.
- The two mapped windows are the function `Mirror.At`: virtual offset `a` in `[0, 2C)` reads `data[a % C]`.
- A pointer handed out by `cirbuf_peek` or `cirbuf_poll` is a virtual offset. The bytes read through it are `Mirror.Window`.
- The meaning of a state is `Cirbuf.Contents`. These are the unread bytes in FIFO order, read the way a ring buffer without a mirror reads them: one slice of the store, or two slices when they wrap.

Modules:
- `bytes.dfy`, module `Bytes`: the `byte` type and `Option` (a pointer or NULL).
- `mirror.dfy`, module `Mirror`: the mirrored window, reads through it (`Window`), and the `memcpy` into it (`Copy`, proved equal to the placement formula `Write`).
- `cirbuf.dfy`, module `Cirbuf`: the state invariant, `cirbuf_new`, the four queries, `cirbuf_offer`, `cirbuf_peek` and `cirbuf_poll`.
- `fifo.dfy`, module `Fifo`: any run of calls behaves as a bounded FIFO queue. It returns the same replies and holds the same bytes.
- `over_release.dfy`, module `OverRelease`: `cirbuf_poll` exactly as written, and what its missing bound check allows when more bytes are released than are unread.
- `scenarios.dfy`, module `Scenarios`: the repository's test cases, stated as lemmas.

Three points where the model takes a position, following the code:
- `cirbuf_offer` wraps `tail` with `%=` (cirbuf.h:121-122), not by subtracting. `Cirbuf.Offer` keeps the `%` and proves `tail + n < 2C`, so the two agree.
- An offer of 0 bytes is accepted. It returns 0, which a caller cannot tell apart from a refusal.
- `cirbuf_poll`'s comment promises NULL "if we can not poll this much data" (cirbuf.h:161), but the code only tests for emptiness. This is the finding below. The rest of the model uses the corrected `Cirbuf.Poll`.

## Model

| member | source | states |
|---|---|---|
| `Cirbuf.Valid` | cirbuf.h:10-14 | The `cirbuf_t` invariant that every operation keeps: a positive capacity, a backing store of exactly that many bytes, and both cursors in `[0, C)`. |
| `Cirbuf.New` | cirbuf.h:83-88 | A zero capacity fails. A zero-length reservation cannot be made, and the source then exits. Any other capacity gives, in the model, a valid buffer with `head == tail == 0`, empty contents, used space 0, unused space `C`, and a zero-filled store (a freshly sized file reads as zeros). |
| `Cirbuf.Size` | cirbuf.h:181-184 | The capacity is positive and equals the length of the backing store. |
| `Cirbuf.IsEmpty` | cirbuf.h:131-134 | The cursors are equal exactly when the contents are empty, and exactly when the used space is 0. |
| `Cirbuf.Contents` | cirbuf.h:186-195 | The unread bytes number fewer than `C`. Byte `i` of them is the byte at virtual offset `head + i`, which is `data[(head + i) % C]`. |
| `Cirbuf.UsedSpace` | cirbuf.h:190-195 | The used space is below `C`. Advancing `head` by it reaches `tail`, in the first or the mirrored copy. It is the length of the contents. |
| `Cirbuf.UsedSpaceIsModDistance` | cirbuf.h:190-195 | The used space equals `(tail - head) mod C`. |
| `Cirbuf.UnusedSpace` | cirbuf.h:201-204 | The unused space lies in `[1, C]`, so the buffer is never full. Used plus unused space is `C`. Unused space is `C` exactly when the buffer is empty. |
| `Cirbuf.ContentsIsWindow` | cirbuf.h:136-147 | `head + usedspace < 2C`. The contiguous mirrored window of `usedspace` bytes at `head` equals the wrapped two-slice read of the unread bytes. |
| `Cirbuf.Offer` | cirbuf.h:110-125 | An offer is refused exactly when `unusedspace <= n`, so always when `n >= C`. A refusal returns 0 and leaves the state unchanged. An accepted offer returns `n` and keeps `head`. It has `tail + n < 2C` and `tail' = (tail + n) mod C`. Used space grows by `n`. The contents become the old contents followed by the data. No store byte outside the copied span changes. The result is again valid. |
| `Cirbuf.OfferKeepsUnread` | cirbuf.h:114-118 | An accepted copy at `tail` does not reach the unread bytes. The window at `head` still reads the old contents. |
| `Cirbuf.OfferLandsAfterUnread` | cirbuf.h:118-119 | Just after the unread bytes, read through the mirror, the accepted data reads back unchanged. |
| `Cirbuf.ContentsAfterAppend` | cirbuf.h:118-124 | Suppose the old unread bytes still read the same and the next `n` bytes read `d`. Then the new contents are the old contents followed by `d`. |
| `Cirbuf.Peek` | cirbuf.h:141-147 | Peek returns NULL exactly on an empty buffer. Otherwise it returns `head`, with `head + usedspace < 2C`. The contiguous bytes there are exactly the unread bytes. |
| `Cirbuf.Poll` | cirbuf.h:159-173 | Poll returns NULL, with no change, exactly when the buffer is empty or fewer than `n` bytes are unread. Otherwise it returns the old `head` with `head + n < 2C`. The first `n` bytes there are the front of the contents. It sets `head' = (head + n) mod C` and keeps `tail` and the store. The contents become `contents[n..]`. |
| `Cirbuf.PollDropsPrefix` | cirbuf.h:168-172 | Advancing `head` by `n <= usedspace` with one wrap keeps the state valid and lowers used space by `n`. The window at the old `head` yields the first `n` unread bytes, and the rest stay unread. |
| `Cirbuf.OfferThenPollRoundTrip` | tests/test-cirbuf.c:45-84 | Take an empty buffer. Offering `x` with `0 < |x| < C` and then polling `|x|` bytes returns a pointer that reads `x`. The buffer is empty again with used space 0. |
| `Mirror.Phys` | cirbuf.h:49-57 | Virtual offset `a < 2C` names store byte `a % C`. That is `a` itself in the first window and `a - C` in the second. |
| `Mirror.WindowSplit` | cirbuf.h:41-61 | A contiguous window starting below `C` shows what a mirror-free buffer would read as one slice, or as two slices when it wraps. |
| `Mirror.WindowAlias` | cirbuf.h:56-57 | A window in the second copy reads the same bytes as the window `C` bytes lower. |
| `Mirror.MirrorWindow` | cirbuf.h:49-57 | A window at any offset in `[0, 2C)` reads the same as the window at the matching offset of the first copy. |
| `Mirror.Dist` | cirbuf.h:49-57 | Store byte `k` is reached again `r < C` bytes after a virtual offset. |
| `Mirror.Write` | cirbuf.h:118 | After copying `d` (with `|d| <= C`) to the pointer at `a`, reading back from `a` yields `d`. Every store byte the copy does not cover is unchanged. |
| `Mirror.Copy` | cirbuf.h:118 | `memcpy` of `d` to the pointer at `a`, one byte at a time through whichever window its address falls in. The store keeps its length, and every store byte the copy does not cover keeps its value. |
| `Mirror.CopyIsWrite` | cirbuf.h:118 | `memcpy` byte by byte through the two windows gives the store that `Write` describes. |
| `Mirror.CoversFirstThenRest` | cirbuf.h:118 | A copy of `n <= C` bytes covers its first byte once. After that it covers exactly what the remaining `n - 1` bytes cover. |
| `Mirror.WindowConcat` | cirbuf.h:146 | Reading `m + n` bytes through a pointer is reading `m` bytes and then `n` more. |
| `Mirror.WriteAfterWindow` | cirbuf.h:114-118 | A copy of at most `C - m` bytes that starts where an `m`-byte window ends leaves that window unchanged. |
| `Mirror.WriteThenReadAt` | cirbuf.h:118 | After a copy to `a % C`, the bytes read back at `a` in either copy are the copied bytes. |
| `Fifo.Step` | cirbuf.h:110-173 | One offer, peek or poll keeps the buffer valid. Its reply (byte count, readable bytes, or NULL) and its new contents are those of the bounded queue. |
| `Fifo.Run` | cirbuf.h:110-173 | Any run of calls keeps the buffer valid and the capacity fixed. It gives one reply per call. |
| `Fifo.RunRefinesQueue` | cirbuf.h:110-173 | From any valid state, every run of calls gives the same replies as the queue. It ends with the queue's contents. |
| `Fifo.FreshRunIsQueue` | cirbuf.h:83-88 | From a fresh buffer, every run gives the replies of the empty queue of the same capacity and never fills the buffer. |
| `OverRelease.PollAsWritten` | cirbuf.h:163-173 | As written, poll returns NULL exactly on an empty buffer, and otherwise the old `head`. It keeps `tail` and the store. It agrees with the corrected poll whenever `n <= usedspace`. |
| `OverRelease.InventsData` | cirbuf.h:169-171 | Take `usedspace < n < C`. The as-written poll moves `head` to `(head + n) % C`. It leaves a valid, non-empty buffer that claims `C + usedspace - n` unread bytes. The last `usedspace` of them are the bytes it has just handed out. The corrected poll refuses. |
| `OverRelease.Laps` | cirbuf.h:169-171 | Take `C <= n < 2C - head`. The as-written poll leaves a valid buffer with `head' = head + n - C`. It is empty exactly when `n == C + usedspace`. Up to that point it is the state a release of `n - C` bytes gives; beyond it the buffer claims `2C + usedspace - n` unread bytes. The corrected poll refuses. |
| `OverRelease.BreaksCursor` | cirbuf.h:169-171 | Take `n >= 2C - head`. The as-written poll leaves `head' = head + n - C >= C`, breaking the cursor invariant. |
| `OverRelease.AtTestCapacity` | cirbuf.h:169-171 | In a buffer of the tests' capacity 65536 holding the one byte 7, releasing 3 bytes leaves 65534 claimed unread bytes, the last of them the 7 just handed out. Releasing 65537 leaves it empty. Releasing 131072 sets `head` to 65536. The corrected poll refuses all three. |
| `Scenarios.FreshBuffer` | tests/test-cirbuf.c:23-35 | A new 65536-byte buffer reports size 65536, is empty, has used space 0 and has unused space 65536. |
| `Scenarios.OfferAndPollAbcd` | tests/test-cirbuf.c:37-84 | Offering "abcd" returns 4. The buffer is then non-empty with used space 4. Polling 4 bytes returns "abcd" and empties the buffer. |
| `Scenarios.OversizedOffersRefused` | tests/test-cirbuf.c:64-76 | Offers of `1 << 17` and of exactly `1 << 16` bytes return 0 and change nothing. |
| `Scenarios.PollWhenNothingLeft` | tests/test-cirbuf.c:86-101 | Polling a fresh buffer returns NULL. So does a third poll after "1000" has been offered and released. Both hold for the corrected poll and for the poll as written. |
| `Scenarios.FreshBufferShowsOffer` | tests/test-cirbuf.c:115-125 | Four bytes offered to a fresh buffer are what both peek and poll point at. |
| `Scenarios.BuffersAreIndependent` | tests/test-cirbuf.c:103-125 | Two buffers fed "abcd" and "efgh" each peek and poll their own bytes. |

## Findings

| source | as written | input that shows it | evidently intended | confidence | as-written member | corrected member |
|---|---|---|---|---|---|---|
| cirbuf.h:161-172 | `cirbuf_poll` checks only for an empty buffer, then does `head += size` and one `head -= cb->size`. | Capacity 65536, as in the tests, with `head = 0`, `tail = 1` and the one unread byte 7 at offset 0. `poll(3)` returns the 7 and leaves `head = 3`, so the buffer claims 65534 unread bytes: 65533 store bytes never offered, then the 7 it has just handed out. `poll(65537)` laps round to an empty buffer. `poll(131072)` leaves `head = 65536`, outside `[0, C)`. | The comment's promise: return NULL, and release nothing, when fewer than `size` bytes are unread. | high (the comment states the bound), not executed | `OverRelease.PollAsWritten` (with `OverRelease.AtTestCapacity`) | `Cirbuf.Poll` |

## Left out

- `create_buffer_mirror` (cirbuf.h:20-77): the temporary file, unlink, ftruncate, the two `MAP_FIXED` mappings and `close` are operating-system calls. Their logical content is that both windows share one store, and `Mirror.At` models that. The only failure modelled is the zero capacity, which cannot be reserved. Other failures (no temporary file, no address space) depend on the system, and there the source calls `exit(-1)`.
- `Cirbuf.New`: it accepts every capacity `C > 0`, which is more than the source can build. The first `mmap` (cirbuf.h:42) returns a page-aligned `data`. The mirror mapping (cirbuf.h:56-57) is `MAP_FIXED` at `data + C`, which is unaligned unless `C` is a multiple of the page size. For any other `C` that mapping fails and the source calls `exit(-1)` (cirbuf.h:58-60, 66-76). The page size is a property of the system, so the model leaves this failure out. Every operation after `cirbuf_new` works for any `C > 0`.
- `cirbuf_free` (cirbuf.h:92-96): it only releases the mapping and the struct. A value has nothing to release.
- C integer widths: `size` is `unsigned long` and the cursors are `unsigned int` (cirbuf.h:11-12). The count of `cirbuf_offer` is `int` (cirbuf.h:112) and that of `cirbuf_poll` is `unsigned int` (cirbuf.h:163). The model uses unbounded `nat`, so it leaves out these details:
  - `cirbuf_size`, `cirbuf_usedspace` and `cirbuf_unusedspace` truncating to `int`. The last is the value that the refusal test of `cirbuf_offer` compares (cirbuf.h:115).
  - A negative `size` passed to `cirbuf_offer`. The model's length is a `seq` length, so it is never negative.
  - Overflow of `head += size` and of `size << 1`.
- The "power of two" remark (cirbuf.h:176): the mirror mapping needs `C` to be a multiple of the page size, as the `Cirbuf.New` line above says. A power of two no smaller than the page size is one. Apart from that mapping, nothing in the code relies on the remark, and the model needs only `C > 0`.
- Concurrency and pointer lifetime (cirbuf.h:152-157): the single-producer/single-consumer usage and the warning that a returned pointer goes stale after the next offer are about threads. The model is sequential.
- `OverRelease.PollAsWritten`: for `n` beyond the unread bytes, its contract states only the returned pointer and the fields it keeps. The new `head` in that case is stated by three lemmas, one per range of `n`. `OverRelease.InventsData` covers `usedspace < n < C` and gives `head' = (head + n) % C`. `OverRelease.Laps` covers `C <= n < 2C - head` and gives `head' = head + n - C`. `OverRelease.BreaksCursor` covers `n >= 2C - head` and gives `head' = head + n - C`, which is at least `C`.
- `Cirbuf.Poll`: it refuses a release longer than the unread bytes, as the comment at cirbuf.h:161 promises. The code at cirbuf.h:165-171 does not refuse it; that behaviour is `OverRelease.PollAsWritten`, and the finding above. The repository's tests never release more than is unread, so there the two polls agree. `Scenarios.PollWhenNothingLeft` proves both return NULL.
- Two buffers never sharing state (tests/test-cirbuf.c:103-125) holds by construction, because buffers are values. `Scenarios.BuffersAreIndependent` restates the test for the record.
- The CuTest test framework: its assertions appear as the `Scenarios` lemmas.
