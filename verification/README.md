# Verified models of the emulator's algorithms

This project models the parts of the emulator whose correctness is hardest to see by reading them,
and proves what they are for. Each module follows one component:

- `Huffman.dfy`, `Inflate.dfy`: the zlib decoder of the bundled image library: table construction,
  the buffered bit reader, the fast and the slow symbol search, and the block loop with its growing
  output buffer. The specification is section 3.2 of RFC 1951: canonical codes, and LZ77 expansion.
- `PngFilter.dfy`, `PngPacked.dfy`, `Adam7.dfy`: PNG scanline decoding, with and without an added alpha
  channel, for 8- and 16-bit samples and, expanded in place, for 1, 2 and 4 bits; and the
  de-interlacing of the seven passes for whole-byte samples.
- `Upsample.dfy`: the two-by-two chroma upsampler, scalar and SSE2, lane by lane with wrap-around.
- `SyncOnAddress.dfy`: the portable wait-on-address protocol as a state machine, one atomic step per
  locked region, for any number of calls.
- `Dirents.dfy`: packing of directory records into 512-byte blocks and reading them across calls.
- `EdgeSort.dfy`, `CmapSearch.dfy`, `Prefilter.dfy`: sort, search and box filter of the font library.
- `EventQueue.dfy`: the kernel event queue, its trigger functions and its collection loop.
- `EventFlag.dfy`: kernel event flags as locked regions of any number of threads.
- `Bitset.dfy`: the fixed-size bit array as a set of indices.
- `LruCache.dfy`: the slot-pooled linked list ordered by last use.
- `Calendar.dfy`: Julian-day arithmetic, over integers and in checked 32-bit integers.
- `Wrappers.dfy`: an optional value.
- `Bits.dfy`: unsigned words as natural numbers with the C operators, shared by the modules above.

Objects whose methods update fields are classes, buffers that are filled in place are arrays, and
each loop of the source is a loop. A long loop body is a method of its own, so that its contract
can say what one turn does. Concurrent components are state machines over atomic steps and memory is
sequentially consistent. Machine integers are written out where their width matters: remainders
modulo 2^16, 2^32 or 2^64, truncating C++ division, or a 32-bit type on which overflow is an error.

## What the proofs found

- A `Cancel` on an event flag reports all waiters, but the first wait that sees its mark takes it back,
  so that at most one returns the cancelled status (`EventFlag.OneReturnPerCancel`); the others park
  again or time out unless the bits satisfy them (`EventFlag.CountedButNotCanceled`). Even a single
  reported wait can be missed: a wait that has come since, or any Set, takes the mark first
  (`EventFlag.NewcomerTakesMark`, `EventFlag.SetTakesMark`). `EventFlag.WhoIsCanceled` says exactly
  which wait is cancelled in every run up to the next `Cancel`, and `EventFlag.AllReported` exactly
  when all the reported ones are.
- A timer that a full buffer left triggered stays so when it is added again with a later deadline, and
  the next collection hands it out early (`EventQueue.RearmedButEarly`); `EventQueue.TimerExactly`
  says exactly when a timer is handed out.
- A valid date may have a day number that `Date` can store but not convert back without overflow;
  `Calendar.DateFitsExactly` and `Calendar.ReadableExactly` give the exact first and last dates.
- The format 4 glyph lookup does not add the segment's delta to a glyph found through a range offset,
  as the OpenType definition does; `CmapSearch.AgreesWithOpenType` says exactly when that matters.
- A quicksort partition that ends with its scans crossed leaves one place out of both recursions. That
  place stands right exactly when its edge is not below the pivot (`EdgeSort.SplitParts`). Otherwise
  a larger edge stays before it until the final insertion sort (`EdgeSort.Quicksort`,
  `EdgeSort.SkippedIsUnsorted`); inversions at other places span fewer than twelve. It happens on every
  ascending array of more than twelve edges (`EdgeSort.AscendingLeavesOut`).
- A level-triggered event is copied into the buffer until it is full (`EventQueue.LevelFills`).
- The early exit of the LRU scan is right exactly because the list is sorted, which rests on callers
  supplying ticks in non-decreasing order (`LruCache.EarlyExitIffSorted`).

## How the specifications are tied down

An encoder and a decoder, or a loop and the function that specifies it, share their definitions. What those
definitions mean is therefore proved once more, in plain numbers: code tables and bit positions
(`Inflate.LengthCodes`, `Inflate.DistanceCodes`, `Inflate.TokenLayout`, `ZHuffman.CodeIsRoom`), predictors,
samples and passes (`PngFilter.FilterTypes`, `PngFilter.PaethIsNearest`, `PngPacked.SampleBits`,
`Adam7.PixelsOfPass`), weights (`Upsample.OutputPixel`), record bytes (`Dirents.StreamRecord`), event fields
(`EventQueue.TriggerQueues`), bits of event flags (`EventFlag.WaitBit`, `EventFlag.CallBit`), and why a wait
on an address ends (`SyncOnAddress.OutcomeHasReason`, `SyncOnAddress.StaysEnlisted`).

## Preconditions that the source leaves to its callers

- `Inflate`: the bits left cover the code of the end of block and two more bytes, as a zlib trailer
  provides; the decoder refuses to look for a symbol at the end of input with fewer than 16 bits.
- `Dirents`: names have 1 to 255 bytes.
- `LruCache`: ticks never decrease, an id passed to `Touch` or `Free` is live, and a visitor frees no
  item but the one it is shown.
- `EdgeSort`: coordinates are comparable numbers.
- `Prefilter`: the last kernel_width - 1 pixels of each line are zero, which the source asserts.
- `CmapSearch`: the subtable is well formed: search fields that fit the number of segments, strictly
  increasing end codes, 0xFFFF last, and glyph references inside the data.
- `EventQueue`: a registration is added untriggered, or triggered with pending events of its own key.

## Model

| member | source | states |
|---|---|---|
| ZHuffman.BitReverse | 3rdparty/stb/stb_image.h:4059-4065 | the reversed value is the codeword bits read in the order the stream delivers them, for every value and every width up to 16 |
| ZHuffman.BitReverse16IsMsbFirst | 3rdparty/stb/stb_image.h:4050-4057 | the four mask-and-shift rounds move bit i to bit 15 - i, for all 16 bits |
| ZHuffman.FitsIffKraft | 3rdparty/stb/stb_image.h:4078-4092 | the per-length overflow tests of the builder all pass exactly when the Kraft sum of the code lengths is at most one |
| ZHuffman.Huffman.Build | 3rdparty/stb/stb_image.h:4067-4112 | succeeds if and only if the Kraft sum is at most one, and then every table (fast, first codes, limits, slots) is that of the canonical code of section 3.2.2 of RFC 1951 |
| ZHuffman.Huffman.FillRows | 3rdparty/stb/stb_image.h:4081-4093 | the loop over lengths fails exactly when some length overflows; otherwise first codes, first symbols and pre-shifted limits are canonical and the sentinel is set |
| ZHuffman.Huffman.FillSymbols | 3rdparty/stb/stb_image.h:4094-4110 | after the loop over symbols each coded symbol sits in its own slot and the fast table holds every short code |
| ZHuffman.Huffman.PlaceSymbol | 3rdparty/stb/stb_image.h:4095-4109 | one symbol changes exactly its own slot, the next code of its length and its own fast entries |
| ZHuffman.Huffman.FillFast | 3rdparty/stb/stb_image.h:4101-4107 | the stepped loop writes exactly the indices whose low bits are the reversed code |
| ZHuffman.PrefixFree | 3rdparty/stb/stb_image.h:4081-4092 | the codes are prefix free: at most one symbol is next in any bit stream |
| ZHuffman.CodeInGap | 3rdparty/stb/stb_image.h:4171-4182 | a 16-bit reading between two successive limits starts with the code of exactly the symbol the arithmetic names |
| ZHuffman.CodeBelow | 3rdparty/stb/stb_image.h:4171-4175 | a reading below the limit of some length starts with a code of at most that length, so an invalid code is never accepted and a valid one never missed |
| ZHuffman.FastIsNext | 3rdparty/stb/stb_image.h:4194-4200 | the fast table answers with symbol i and its length exactly when the code of i is next and has at most nine bits |
| ZHuffman.CodeIsRoom | 3rdparty/stb/stb_image.h:4081-4092 | the code of every symbol is the room taken by the symbols before it, shorter codes first and equal ones by symbol, a code of length t taking 2^(s - t) codes of length s (section 3.2.2 of RFC 1951) |
| Inflate.DeflateSane | 3rdparty/stb/stb_image.h:4226-4238 | the four tables cover length symbols 257 to 285 and distance codes 0 to 29, and no symbol has more than 13 extra bits |
| Inflate.LengthCodes | 3rdparty/stb/stb_image.h:4226-4232 | the length tables in the numbers of section 3.2.5 of RFC 1951: the first base is 3, each base is the one before plus 2^extra, extra bits are 0 for eight symbols and then (i - 4) / 4, and symbol 285 is 258 without extra bits |
| Inflate.DistanceCodes | 3rdparty/stb/stb_image.h:4234-4238 | the distance tables likewise: the first base is 1, each base is the one before plus 2^extra, extra bits are 0, 0 and then i / 2 - 1, and the last code ends at 32768 |
| Inflate.DeflateStandard | 3rdparty/stb/stb_image.h:4226-4238 | so the decoder tables are those of the standard |
| Inflate.MatchLength | 3rdparty/stb/stb_image.h:4259-4261 | the length of a match in closed form from its symbol and extra bits; always from 3 to 258 |
| Inflate.MatchDistance | 3rdparty/stb/stb_image.h:4262-4265 | the distance of a match in closed form from its code and extra bits; always from 1 to 32768 |
| Inflate.TokenLayout | 3rdparty/stb/stb_image.h:4242-4264 | which bit of the stream is which bit of a literal or match: codes first bit first, extra bits lowest bit first, length symbol, its extra bits, distance code and its extra bits in this order |
| Inflate.RestBit | 3rdparty/stb/stb_image.h:4144-4164 | bit b of byte q is bit 8 q + b of the stream, and zeros follow the last byte |
| Inflate.EndOfBlock | 3rdparty/stb/stb_image.h:4255-4258 | an empty block is the code of symbol 256 |
| Inflate.TokenAdds | 3rdparty/stb/stb_image.h:4245-4278 | a literal adds its byte; a match adds as many bytes as its length, each equal to the one its distance back, and keeps what was there |
| Inflate.ZBuf.FillBits | 3rdparty/stb/stb_image.h:4144-4154 | refilling leaves the stream of unread bits as it was and buffers more than 24 of them; the guard on a full buffer never fires |
| Inflate.ZBuf.Receive | 3rdparty/stb/stb_image.h:4156-4164 | takes exactly the next n bits off the stream, least significant first |
| Inflate.ZBuf.Decode | 3rdparty/stb/stb_image.h:4185-4202 | returns a symbol only if its code is next and consumes exactly that code; on -1 the stream is untouched, and with 16 or more bits left no code was next |
| Inflate.ZBuf.DecodeSlowly | 3rdparty/stb/stb_image.h:4166-4183 | the search over shifted limits agrees with the canonical code for all codes above nine bits; the slot-range and size guards never fire |
| Inflate.FindLength | 3rdparty/stb/stb_image.h:4172-4175 | the search stops at the least length whose limit exceeds the reading |
| Inflate.SymbolAt | 3rdparty/stb/stb_image.h:4177-4182 | the slot computed from the reading is that of the symbol that is next |
| Inflate.PutCodeNext | 3rdparty/stb/stb_image.h:4185-4202 | a stream that begins with a written code has that symbol next, and removing the code leaves the rest |
| Inflate.NextIsPut | 3rdparty/stb/stb_image.h:4185-4202 | conversely a stream in which a symbol is next is that code written before the rest |
| Inflate.CopyIsPeriodic | 3rdparty/stb/stb_image.h:4271-4277 | in a copied match each byte equals the one dist places before it, overlapping or not |
| Inflate.CopyBytes | 3rdparty/stb/stb_image.h:4271-4277 | both copy loops, the run of one byte and the byte-by-byte copy, compute the LZ77 copy |
| Inflate.ZBuf.ZExpand | 3rdparty/stb/stb_image.h:4204-4224 | makes room for n more bytes by doubling and keeps all output written so far; succeeds if and only if expansion is allowed and some doubling of the size is large enough and fits 32 bits, and takes no more doublings than needed |
| Inflate.ZBuf.PutByte | 3rdparty/stb/stb_image.h:4247-4251 | appends one literal, expanding first if the buffer is full |
| Inflate.ZBuf.PutMatch | 3rdparty/stb/stb_image.h:4266-4277 | appends the LZ77 copy of a match, expanding first if needed |
| Inflate.ZBuf.ReadDistance | 3rdparty/stb/stb_image.h:4262-4265 | reads a distance code with its extra bits if and only if the stream begins with one |
| Inflate.ZBuf.ReadMatch | 3rdparty/stb/stb_image.h:4259-4265 | reads the length and distance of a match, and of no other match than the one written |
| Inflate.ZBuf.ReadToken | 3rdparty/stb/stb_image.h:4244-4265 | reads one token or the end-of-block code; on an encoded stream it is the first one |
| Inflate.ZBuf.WriteToken | 3rdparty/stb/stb_image.h:4245-4278 | writes exactly what a token stands for; fails only on a distance beyond the output or for lack of room |
| Inflate.ExpandAppend | 3rdparty/stb/stb_image.h:4240-4280 | expansion of a token list is expansion token by token |
| Inflate.ZBuf.ParseHuffmanBlock | 3rdparty/stb/stb_image.h:4240-4280 | on success the bits consumed are the encoding of a token list followed by end of block, the output has grown by its expansion and earlier output is kept; on any encoded list that fits, it succeeds with that list and stops at the bit after end of block |
| Inflate.EncodedStream | 3rdparty/stb/stb_image.h:4240-4280 | the bytes of an encoded block, with two trailing bytes, present that block to the bit reader |
| Inflate.RoundTrip | 3rdparty/stb/stb_image.h:4240-4280 | encoding any token list with any two accepted lists of code lengths and decoding the bytes yields its LZ77 expansion, with the length and distance tables of the standard |
| PngFilter.UnfilterFilter | 3rdparty/stb/stb_image.h:4640-4704 | unfiltering inverts filtering for each filter type, row, prior row and pixel size |
| PngFilter.FilterUnfilter | 3rdparty/stb/stb_image.h:4640-4704 | and filtering inverts unfiltering, so every filtered row is the filtering of exactly one row |
| PngFilter.UnfilterAt | 3rdparty/stb/stb_image.h:4672-4687 | each decoded byte is its filtered byte plus the prediction from its decoded neighbours, modulo 256; the next two rows say what is predicted |
| PngFilter.PaethIsNearest | 3rdparty/stb/stb_image.h:4580-4589 | the predictor is the neighbour nearest to left plus upper minus upper left, and of equally near ones the left, then the upper |
| PngFilter.FilterTypes | 3rdparty/stb/stb_image.h:4672-4687 | for each of the five filter types, in terms of the decoded neighbours: nothing, the left byte, the upper byte, half their sum rounded down, or the Paeth choice is added, modulo 256 (section 9 of the PNG specification) |
| PngFilter.DecodedRow | 3rdparty/stb/stb_image.h:4620-4716 | row j is decoded from the filter byte j (n + 1) bytes into the data, the n bytes behind it and the row before, which is zeros for the first |
| PngFilter.DecodesWhen | 3rdparty/stb/stb_image.h:4612-4626 | the data stands for rows if and only if there are enough bytes and every filter byte is at most 4 |
| PngFilter.ImageByte | 3rdparty/stb/stb_image.h:4652-4715 | byte k of pixel i of row j of the output is that byte of the decoded row, and the alpha bytes are 255 |
| PngFilter.CodesAgree | 3rdparty/stb/stb_image.h:4571-4578 | the first-row codes, and the shortened cases of the first pixel, predict as the general filters do over a row of zeros |
| PngFilter.PlainRow | 3rdparty/stb/stb_image.h:4672-4689 | a row without added alpha is decoded in place to the unfiltered row and nothing else changes |
| PngFilter.AlphaRow | 3rdparty/stb/stb_image.h:4652-4715 | a row with added alpha holds the same decoded samples, each pixel followed by an opaque alpha of one or two bytes |
| PngFilter.DecodeRow | 3rdparty/stb/stb_image.h:4630-4716 | either path shows the unfiltered row at its place and leaves the other rows alone |
| PngFilter.DecodeEncode | 3rdparty/stb/stb_image.h:4594-4716 | decoding inverts encoding for every image, every choice of filter per row and whatever bytes follow |
| PngPacked.CreatePngImageRaw | 3rdparty/stb/stb_image.h:4594-4789 | for 1, 2 and 4 bits per sample: succeeds exactly when there are enough bytes, every filter type is at most 4 and no row of packed bytes is wider than the image, and then the output shows every sample, scaled, with opaque alpha when a channel is added |
| PngPacked.ExpandRow | 3rdparty/stb/stb_image.h:4723-4767 | the expansion in place from the right end of a row yields all its samples, one byte each |
| PngPacked.WriteBehindRead | 3rdparty/stb/stb_image.h:4723-4767 | no write of the expansion reaches a packed byte that still holds samples to be read |
| PngPacked.SpreadRow | 3rdparty/stb/stb_image.h:4768-4786 | making room for the alpha channel from the right moves every pixel before it is overwritten |
| PngPacked.ScaledIsByte | 3rdparty/stb/stb_image.h:4730-4767 | a scaled sample fits a byte, and the largest grey sample becomes 255 |
| PngPacked.SampleBits | 3rdparty/stb/stb_image.h:4737-4767 | sample k of a byte is the number in the depth bits from bit 8 - depth (k + 1) up |
| PngPacked.PackedPixel | 3rdparty/stb/stb_image.h:4720-4788 | every byte of the output: sample k of pixel i of row j is that sample of the decoded row, times 1 or, for scaled grey, 255, 85 or 17; alpha is 255 |
| PngFilter.ToNative | 3rdparty/stb/stb_image.h:4791-4800 | the last pass exchanges the bytes of each 16-bit sample and changes nothing else |
| PngFilter.SwappedTwice | 3rdparty/stb/stb_image.h:4791-4800 | exchanging them again gives the decoded rows back |
| PngFilter.CreatePngImageRaw | 3rdparty/stb/stb_image.h:4594-4802 | succeeds exactly when there are enough bytes and every filter type is at most 4, and then, for 8- or 16-bit samples, the output shows all decoded rows, with opaque alpha when a channel is added and 16-bit samples in native order |
| Adam7.SizeCounts | 3rdparty/stb/stb_image.h:4825-4826 | the unsigned size formula never wraps and counts exactly the grid points inside the image |
| Adam7.GridIsInside | 3rdparty/stb/stb_image.h:4825-4838 | a point of a pass is on its grid if and only if it is painted inside the image |
| Adam7.SourceOfDest | 3rdparty/stb/stb_image.h:4835-4838 | no two points of any passes paint the same pixel |
| Adam7.DestOfSource | 3rdparty/stb/stb_image.h:4835-4838 | every pixel is painted by a point |
| Adam7.Partition | 3rdparty/stb/stb_image.h:4818-4845 | for every width and height the seven grids are mapped one to one onto the pixels; the next two rows say which pixels each pass has and in which order |
| Adam7.PixelsOfPass | 3rdparty/stb/stb_image.h:4819-4822 | which pixels each of the seven passes has, by their place in the 8 by 8 blocks (section 8.2 of the PNG specification) |
| Adam7.NumberedInOrder | 3rdparty/stb/stb_image.h:4833-4838 | within a pass pixels are numbered from left to right and from top to bottom |
| Adam7.InterlacedByte | 3rdparty/stb/stb_image.h:4806-4849 | every byte of the output: the pixel at a point of a pass is that of the row and column of the point in the rows decoded from the data of the pass, which starts behind the passes before; alpha is 255 |
| Adam7.PaintPass | 3rdparty/stb/stb_image.h:4833-4840 | a pass paints exactly its own pixels, each once, and leaves those of earlier passes |
| Adam7.CreatePngImage | 3rdparty/stb/stb_image.h:4806-4849 | succeeds exactly when every pass that has pixels decodes from the data after the passes before it; then each output pixel was written exactly once and equals the pixel of its pass |
| Adam7.InterlaceRoundTrip | 3rdparty/stb/stb_image.h:4806-4849 | for every image, size, filter choice and sample depth of 8 or 16 bits: the interlaced, filtered data decodes to an output in which every pixel is the original one, with opaque alpha if a channel is added |
| Adam7.PassesRoundTrip | 3rdparty/stb/stb_image.h:4827-4845 | the passes decode to what was encoded, for every size of the passes, every filter choice and whatever bytes follow |
| Upsample.ResampleRowHv2 | 3rdparty/stb/stb_image.h:3451-3473 | each output pixel is the rounded three-to-one mix of its input column and the neighbouring one, and nothing behind the row is written |
| Upsample.ResampleRowHv2Simd | 3rdparty/stb/stb_image.h:3476-3589 | the SSE2 row, blocks of eight and scalar tail, meets the same specification for every width, reads no pixel past the row and writes none |
| Upsample.CurrIsColumn | 3rdparty/stb/stb_image.h:3492-3501 | the vertical pass with wrapping lane differences yields the exact column sums |
| Upsample.PhaseIsMix | 3rdparty/stb/stb_image.h:3513-3532 | the horizontal pass yields the exact sum, below 2^14, so neither the lane nor the saturation cuts anything off |
| Upsample.GroupIsPixels | 3rdparty/stb/stb_image.h:3490-3533 | the sixteen bytes of a block are the left and right pixels of its eight columns |
| Upsample.WriteGroup | 3rdparty/stb/stb_image.h:3490-3533 | storing a block extends the finished part of the row by sixteen pixels |
| Upsample.DoneDetermines | 3rdparty/stb/stb_image.h:3451-3589 | the specification determines every byte, so the two rows are identical |
| Upsample.OutputPixel | 3rdparty/stb/stb_image.h:3451-3473 | every output byte in numbers: weights 9, 3, 3 and 1 in sixteenths, rounded to nearest, or 3 and 1 in quarters at the two ends; what lies behind the row is unchanged |
| SyncOnAddress.ToFlagIsOldest | src/kernel/syncOnAddress.cpp:232-241 | the flagging loop picks the oldest min(n, unflagged) waiters, all of them for INT_MAX |
| SyncOnAddress.FlagWaiters | src/kernel/syncOnAddress.cpp:232-241 | the loop over the waiter list flags exactly those and no others |
| SyncOnAddress.StepKeepsInv | src/kernel/syncOnAddress.cpp:155-244 | every atomic step of every call, and every store, keeps the invariant on locks, lists, registry and flags; when a wait may end is said below |
| SyncOnAddress.RunKeepsInv | src/kernel/syncOnAddress.cpp:155-244 | so it holds in every reachable state of any number of calls |
| SyncOnAddress.DropMapping | src/kernel/syncOnAddress.cpp:178-186 | dropping an empty entry late cannot strand a waiter: whoever still relies on the entry holds a lock that excludes the drop |
| SyncOnAddress.WaiterIsReachable | src/kernel/syncOnAddress.cpp:155-186 | in every reachable state each enlisted waiter is in the list that the registry finds at its address |
| SyncOnAddress.ListIsWaiters | src/kernel/syncOnAddress.cpp:222-241 | the list a wake walks holds exactly the waiters enlisted at its address |
| SyncOnAddress.WakeFlagsOldest | src/kernel/syncOnAddress.cpp:218-244 | a wake of n flags the oldest min(n, unflagged) waiters at its address, all for INT_MAX |
| SyncOnAddress.WakeAllSettles | src/kernel/syncOnAddress.cpp:218-244 | when a wake of INT_MAX returns no unflagged waiter is asleep at its address, unless its word still has the expected value |
| SyncOnAddress.NoLostWakeUp | src/kernel/syncOnAddress.cpp:188-244 | after a store of a different value followed by a wake of INT_MAX, every waiter that is still asleep is flagged and nobody times out any more, in every continuation |
| SyncOnAddress.OutcomeHasReason | src/kernel/syncOnAddress.cpp:193-216 | in every run a wait that ended with OK had, in an earlier state in which it held its entry lock, been flagged or found another value in its word; one that timed out had an expired deadline there, the expected value and no flag |
| SyncOnAddress.StaysEnlisted | src/kernel/syncOnAddress.cpp:193-213 | in every run, as long as the word has the expected value and the waiter is neither flagged nor given an expired step, it has no outcome and stays in its list |
| SyncOnAddress.TopStep | src/kernel/syncOnAddress.cpp:196-202 | at the loop condition it then parks and releases the entry lock; with an expired deadline it times out, and flagged or with another value it leaves with OK |
| SyncOnAddress.RecheckStep | src/kernel/syncOnAddress.cpp:203-211 | behind the poll it times out with an expired deadline, the expected value and no flag, and otherwise goes back to the loop condition with the lock held |
| SyncOnAddress.PressedReturns | src/kernel/syncOnAddress.cpp:188-216 | in every run a waiter that at each of its steps is flagged, expired or sees another value returns within twelve steps of its own from the start of its call |
| SyncOnAddress.ListInOrder | src/kernel/syncOnAddress.cpp:155-167 | in every run, of two waiters in a list the one in front was enlisted first |
| SyncOnAddress.FirstComeFirstWoken | src/kernel/syncOnAddress.cpp:232-241 | in every run, when a step flags a waiter everyone in front of it is flagged |
| SyncOnAddress.WakeCounts | src/kernel/syncOnAddress.cpp:218-244 | the last step of a wake flags min(n, sleepers) of the unflagged waiters at its address, all for INT_MAX, and nobody else |
| SyncOnAddress.QuietIsClean | src/kernel/syncOnAddress.cpp:169-186 | in every run, when no call is under way the registry is empty, no waiter is listed and every lock is free |
| SyncOnAddress.FlaggedReturns | src/kernel/syncOnAddress.cpp:193-216 | once flagged a waiter takes at most nine more steps of its own, in any run, whatever other calls, the word and the deadline do |
| SyncOnAddress.NinthStepReturns | src/kernel/syncOnAddress.cpp:193-216 | and after the ninth it has returned OK |
| SyncOnAddress.WakesAccounted | src/kernel/syncOnAddress.cpp:188-244 | in every run the number of flags set is the number of flagged waiters still enlisted plus those that returned OK, and a waiter that timed out was never flagged |
| SyncOnAddress.NoDeadlock | src/kernel/syncOnAddress.cpp:155-244 | in every reachable state an unfinished call can move, or a chain of at most two lock holders leads to one that can; an entry lock holder never waits for the registry lock |
| SyncOnAddress.HolderCanMove | src/kernel/syncOnAddress.cpp:159-243 | whoever holds an entry lock can always take its next step |
| Dirents.AlignUpIsMod | src/kernel/fileSystem.cpp:1137 | the mask arithmetic rounds record lengths up to a multiple of four |
| Dirents.AlignDownIsMod | src/kernel/fileSystem.cpp:1181 | and the byte count down to a multiple of 512 |
| Dirents.EncodeLength | src/kernel/fileSystem.cpp:1138-1171 | the encoding is a whole number of 512-byte blocks |
| Dirents.ParseEncode | src/kernel/fileSystem.cpp:1124-1171 | the encoding of any list of names of 1 to 255 bytes parses back to the list, one record per entry in order, none crossing a block |
| Dirents.StreamRecord | src/kernel/fileSystem.cpp:1152-1163 | record k byte by byte: file number, length up to the next record or the end, type 8 or 4, length of the name, name and zeros, numbers low byte first |
| Dirents.NextRecord | src/kernel/fileSystem.cpp:1137-1149 | the next record follows at once if it fits into the same 512 bytes, and otherwise starts the next block |
| Dirents.Pack | src/kernel/fileSystem.cpp:1124-1171 | the packing loop with its late patches of record lengths builds exactly that encoding |
| Dirents.PackEntry | src/kernel/fileSystem.cpp:1137-1163 | one turn of the loop: open a block and stretch the last record if the next does not fit, then write the record |
| Dirents.StreamBoundaries | src/kernel/fileSystem.cpp:1183-1206 | the record lengths in the finished stream lead from record to record up to its end |
| Dirents.CopyOut | src/kernel/fileSystem.cpp:1183-1207 | the copying loop, which walks records from the start on every call, delivers exactly min(aligned count, bytes left) bytes from the offset on |
| Dirents.KernelGetdirentries | src/kernel/fileSystem.cpp:1088-1211 | which descriptors, buffers and counts are refused with which error, in which order; a refused call changes nothing and leaves basep alone, any other delivers as below |
| Dirents.Directory.Getdirentries | src/kernel/fileSystem.cpp:1107-1211 | a call on a directory returns min(AlignDown(nbytes, 512), bytes left), copies exactly those bytes of the encoding, leaves the rest of the buffer, advances the offset by them and reports the old offset; the error cases change nothing |
| Dirents.ReadCalls | src/kernel/fileSystem.cpp:1087-1211 | a sequence of calls of any sizes of at least 512 returns successive pieces of the encoding |
| Dirents.CallsConcatenate | src/kernel/fileSystem.cpp:1173-1210 | those pieces, joined, are a prefix of the encoding of the expected length |
| Dirents.ReadingAll | src/kernel/fileSystem.cpp:1087-1211 | calls with enough room in all return the whole encoding, which reads back as the directory |
| EdgeSort.InsertionSort | 3rdparty/stb/stb_truetype.h:3399-3415 | sorts any array by the compared coordinate and only moves edges |
| EdgeSort.MedianToFront | 3rdparty/stb/stb_truetype.h:3424-3444 | the median of first, middle and last edge comes to the front, only those three move, and both unguarded scans have an edge to stop at |
| EdgeSort.ScanUp | 3rdparty/stb/stb_truetype.h:3452-3454 | the unguarded scan upwards stays inside the region |
| EdgeSort.ScanDown | 3rdparty/stb/stb_truetype.h:3455-3457 | so does the scan downwards |
| EdgeSort.Partition | 3rdparty/stb/stb_truetype.h:3446-3466 | both parts are shorter than the region, at most one place lies between them, and nothing in the first is above anything in the second; the place between stands right, too, exactly when its edge is not below the pivot |
| EdgeSort.Quicksort | 3rdparty/stb/stb_truetype.h:3417-3477 | only moves edges and terminates; afterwards every inversion spans fewer than twelve places or ends at one of the fewer than n/2 places that partitions left out with an edge below their pivot, and each of those places has a larger edge before it |
| EdgeSort.SplitParts | 3rdparty/stb/stb_truetype.h:3451-3476 | if the scans cross, the place left out of both recursions stands right if and only if its edge is not below the pivot |
| EdgeSort.MedianPartition | 3rdparty/stb/stb_truetype.h:3424-3466 | median and partition loop compute exactly what the functional description of the two scans and exchanges says |
| EdgeSort.AscendingLeavesOut | 3rdparty/stb/stb_truetype.h:3424-3466 | on every strictly ascending array of more than twelve edges the first partition crosses its scans at once and leaves the least edge out, in the middle and below the pivot |
| EdgeSort.SkippedIsUnsorted | 3rdparty/stb/stb_truetype.h:3417-3477 | the quicksort alone leaves only inversions of fewer than twelve places if it misplaced none, and an unsorted array if it misplaced some |
| EdgeSort.SortEdges | 3rdparty/stb/stb_truetype.h:3479-3483 | for every array the result is a permutation of the first n edges with tops y0 in ascending order, and the rest is untouched |
| CmapSearch.FindSegment | 3rdparty/stb/stb_truetype.h:1517-1544 | the biased power-of-two search finds the first segment whose end code is not below the code point, reading only end codes of the subtable |
| CmapSearch.FindGlyphIndex | 3rdparty/stb/stb_truetype.h:1516-1560 | the whole format 4 lookup equals a linear scan, for negative and large code points too |
| CmapSearch.NoOtherSegment | 3rdparty/stb/stb_truetype.h:1531-1553 | if segments do not overlap, a segment that contains the code point is the one searched for |
| CmapSearch.AgreesWithOpenType | 3rdparty/stb/stb_truetype.h:1546-1560 | the lookup equals the glyph the OpenType format defines if and only if the code point is outside the segment, there is no range offset, the stored glyph is 0 or the delta is 0 |
| CmapSearch.GlyphInWords | 3rdparty/stb/stb_truetype.h:1546-1560 | the glyph looked up, in terms of the big-endian words at their byte offsets in the subtable |
| CmapSearch.OpenTypeInWords | 3rdparty/stb/stb_truetype.h:1546-1560 | the glyph the OpenType format defines, in the same terms |
| CmapSearch.MissesDelta | 3rdparty/stb/stb_truetype.h:1555-1559 | a one-segment subtable for which the lookup and the OpenType definition differ |
| Prefilter.WindowSlides | 3rdparty/stb/stb_truetype.h:4028-4032 | the running total: entering pixel in, leaving pixel out |
| Prefilter.RingStep | 3rdparty/stb/stb_truetype.h:4028-4032 | the eight-slot ring returns exactly the pixel that leaves the window, for every kernel width up to eight, and the unsigned total never wraps |
| Prefilter.FilterLine | 3rdparty/stb/stb_truetype.h:4021-4068 | one line in place: every pixel becomes the floor average of the last kernel_width original pixels; no stale slot of the previous line is read |
| Prefilter.HPrefilter | 3rdparty/stb/stb_truetype.h:4012-4072 | every row is averaged along the row and what lies outside the image is untouched |
| Prefilter.VPrefilter | 3rdparty/stb/stb_truetype.h:4074-4134 | every column is averaged along the column and what lies outside the image is untouched |
| Prefilter.AverageInFull | 3rdparty/stb/stb_truetype.h:4027-4067 | the average in full: the sum of the pixel and the kernel_width - 1 before it, divided and rounded down, with nothing before the line |
| Prefilter.RowPixel | 3rdparty/stb/stb_truetype.h:4018-4071 | which pixels these are in a row: those to the left |
| Prefilter.ColumnPixel | 3rdparty/stb/stb_truetype.h:4080-4133 | and in a column: those above |
| EventQueue.KernelEqueuePrivate.AddEvent | src/kernel/eventQueue.cpp:195-217 | an existing key keeps its state and only gets the new deadline and user data, in pending events too; a new key is appended; a closed queue is an error |
| EventQueue.KernelEqueuePrivate.TriggerEvent | src/kernel/eventQueue.cpp:219-262 | fires exactly the registration of the key, through whichever of the trigger functions it has, or reports that there is none |
| EventQueue.KernelEqueuePrivate.DeleteEvent | src/kernel/eventQueue.cpp:273-299 | removes exactly the registration of the key and hands it to the delete callback |
| EventQueue.KernelEqueuePrivate.Close | src/kernel/eventQueue.cpp:76-91 | empties the queue once and for all and hands every registration to its delete callback |
| EventQueue.KernelEqueuePrivate.TriggerExpiredTimers | src/kernel/eventQueue.cpp:142-148 | triggers exactly the untriggered registrations whose deadline has come |
| EventQueue.KernelEqueuePrivate.Collect | src/kernel/eventQueue.cpp:106-132 | the inner loop hands out events of one registration as the service function says and terminates even for level-triggered ones |
| EventQueue.KernelEqueuePrivate.GetTriggeredEvents | src/kernel/eventQueue.cpp:93-140 | returns at most num events, in list order, leaves the list as the service function says and the rest of the buffer untouched; a closed queue is an error and changes nothing |
| EventQueue.StepWellFormed | src/kernel/eventQueue.cpp:76-299 | keys stay unique, and pending events wait only behind a triggered one of the same key, through every call |
| EventQueue.StepOne | src/kernel/eventQueue.cpp:76-299 | to each registration a call does what it would do to it alone: calls on other keys leave it as it is |
| EventQueue.ServeAllOne | src/kernel/eventQueue.cpp:105-137 | a collection serves each registration as if alone, with the room those before it leave |
| EventQueue.ServeAmpr | src/kernel/eventQueue.cpp:108-132 | from an AMPR or graphics registration a collection takes the first min(room, waiting) data, current then pending, in order |
| EventQueue.TriggerQueues | src/graphics/presentation/videoOut.cpp:297-330 | a queueing trigger adds one event behind those that wait, whose fields are said one by one: AMPR sets the data, graphics counts fflags modulo 2^32 and sets the data, video-out counts fflags up to 15 and composes time, counter up to 15 and payload |
| EventQueue.TriggerOverwrites | src/kernel/eventQueue.cpp:234-250 | a user trigger overwrites data and user data, one without function only marks; neither queues |
| EventQueue.ServeHeld | src/kernel/eventQueue.cpp:106-132 | a collection hands out what waits at an edge registration, whole events in order, as many as fit, and keeps the rest |
| EventQueue.AfterDelivery | src/kernel/eventQueue.cpp:115-128 | after a delivery the next pending event takes over; with none pending the trigger is taken back and fflags and data are zeroed, unless the registration is level-triggered |
| EventQueue.OneShotOnce | src/kernel/eventQueue.cpp:108-113 | a one-shot registration is handed out once and is gone |
| EventQueue.AddAgain | src/kernel/eventQueue.cpp:204-213 | adding a key again changes its deadline and the user data of its current and pending events and nothing else; a new key is appended |
| EventQueue.ServedInListOrder | src/kernel/eventQueue.cpp:105-137 | events of registrations in front come before those of registrations behind |
| EventQueue.AmprConserved | src/kernel/eventQueue.cpp:93-299 | in every run what an AMPR or graphics registration delivered, followed by what it still holds, is what it held before followed by everything triggered since |
| EventQueue.AmprDelivers | src/kernel/eventQueue.cpp:541-561 | from its registration on an AMPR event delivers its triggers in order, none lost and none twice |
| EventQueue.TimerOnce | src/kernel/eventQueue.cpp:108-113 | in every run a one-shot timer is handed out at most once for each time it was registered anew; adding it again while it is registered brings no second hand-out |
| EventQueue.TimerDue | src/kernel/eventQueue.cpp:93-148 | once its deadline has come a one-shot timer is handed out by the next collection that does not fill its buffer, and is gone exactly when it was handed out; a full buffer may leave it, triggered |
| EventQueue.TimerNotEarly | src/kernel/eventQueue.cpp:142-148 | in every run in which nobody triggers the key by hand, adding it again included, it is handed out before its current deadline only if it was already triggered when it was last added |
| EventQueue.TimerExactly | src/kernel/eventQueue.cpp:93-148 | in every such run a collection that does not fill its buffer hands a one-shot timer out if and only if its current deadline has come or it was already triggered when it was last added |
| EventQueue.RearmedButEarly | src/kernel/eventQueue.cpp:204-209 | a timer that a full buffer left triggered is added again with a later deadline and handed out at once all the same |
| EventQueue.GraphicsRegistered | src/graphics/host_gpu/renderer/sync.cpp:320-361 | a graphics event is such a registration from the time it is added |
| EventQueue.ServeAllDrains | src/kernel/eventQueue.cpp:105-137 | a collection that returns fewer than num events leaves nothing triggered |
| EventQueue.LevelFills | src/kernel/eventQueue.cpp:108-132 | a level-triggered event is copied until the buffer is full and stays triggered |
| EventQueue.EdgeCoalesces | src/kernel/eventQueue.cpp:245-250 | any number of triggers of an edge user event are delivered as one, with the last data |
| Bitset.BitStartMask | src/common/bitArray.h:67 | the start mask has exactly the bits from the start bit up |
| Bitset.BitEndMask | src/common/bitArray.h:68-69 | the end mask has exactly the bits up to the end bit, also for bit 63 |
| Bitset.BitArray.ChangeRange | src/common/bitArray.h:95-118 | the three word loops (first word, whole words, last word, or a single word) affect exactly the indices in [start, end) |
| Bitset.BitArray.SetRange | src/common/bitArray.h:95-118 | turns on exactly [start, end); an empty or out-of-range request changes nothing |
| Bitset.BitArray.UnsetRange | src/common/bitArray.h:120-143 | turns off exactly [start, end); an empty or out-of-range request changes nothing |
| Bitset.BitArray.Sliced | src/common/bitArray.h:58-81 | the slice holds exactly the indices of the other array in [start, end) |
| Bitset.RangeOnSets | src/common/bitArray.h:58-143 | on sets of indices the three operations are union, difference and intersection with the range |
| Bitset.BitArray.Get | src/common/bitArray.h:83-85 | reads exactly the addressed index |
| Bitset.BitArray.FirstRangeFrom | src/common/bitArray.h:158-188 | returns the nearest run at or after start, clipped at start and maximal at its end, or (N, N) if nothing is on from there |
| Bitset.BitArray.LastRangeFrom | src/common/bitArray.h:192-226 | returns the nearest run at or before end, clipped at end and maximal at its start, or (0, 0) if nothing is on below |
| Bitset.CountUpShift | src/common/bitArray.h:174-176 | counting ones in the shifted word is counting them in the word from the shift on |
| Bitset.CountDownShift | src/common/bitArray.h:212-213 | the same from the top |
| Bitset.Iterate | src/common/bitArray.h:24-50 | iterating from begin to end visits exactly the maximal runs, in order, no two touching, and covers every index that is on |
| LruCache.LeastRecentlyUsedCache.Insert | src/common/lruCache.h:21-28 | reuses the oldest freed slot or adds one, and appends the object; links, pool and order stay valid |
| LruCache.LeastRecentlyUsedCache.Touch | src/common/lruCache.h:30-40 | moves exactly the touched item to the end with its new tick, or leaves all as it is if the tick is not newer |
| LruCache.LeastRecentlyUsedCache.Free | src/common/lruCache.h:42-48 | takes exactly that item out of the list and queues its slot last |
| LruCache.LeastRecentlyUsedCache.Attach | src/common/lruCache.h:81-93 | after linking an item at the end the links still mirror each other and spell out the longer list |
| LruCache.LeastRecentlyUsedCache.Detach | src/common/lruCache.h:95-108 | after unlinking an item the links still mirror each other and spell out the list without it |
| LruCache.LeastRecentlyUsedCache.Build | src/common/lruCache.h:70-79 | reserves a slot that is not live: the first of the free queue, else a new one |
| LruCache.LeastRecentlyUsedCache.ForEachItemBelow | src/common/lruCache.h:50-67 | shows the visitor exactly the live items with tick at most the bound, oldest first, up to where it says stop, also when it frees the item it is shown; exactly the freed ones are gone afterwards |
| LruCache.ChainWithout | src/common/lruCache.h:95-108 | relinking two neighbours over an item keeps every other node of the chain right |
| LruCache.ChainAppend | src/common/lruCache.h:81-93 | linking an item behind the last keeps every other node of the chain right |
| LruCache.EarlyExitIffSorted | src/common/lruCache.h:53-56 | leaving the scan at the first item that is too new is right for every bound if and only if the list is sorted by tick |
| LruCache.SeenAll | src/common/lruCache.h:58-64 | a visitor that never stops the scan sees every old item |
| LruCache.ScanShows | src/common/lruCache.h:50-67 | the scan shows the objects from the front of the list, each used no later than the bound, until the visitor says stop, the next is newer or there is none |
| LruCache.ScanLeaves | src/common/lruCache.h:50-67 | it leaves exactly the entries that were not shown or were not freed |
| LruCache.ScanKeepsOrder | src/common/lruCache.h:50-67 | in the order they had |
| Calendar.FloorDivIsFloor | src/common/dateTime.cpp:12-22 | rounds the quotient down for all operands and either sign of the divisor |
| Calendar.JdOfYmd | src/common/dateTime.cpp:24-65 | converting any valid date to a Julian day and back gives the date |
| Calendar.YmdOfJd | src/common/dateTime.cpp:40-65 | every day number converts to a valid date, year 0 never occurring, and back to itself |
| Calendar.OnlyYear | src/common/dateTime.cpp:41-46 | the nested divisions find the one March year a day lies in |
| Calendar.NextIsNext | src/common/dateTime.cpp:24-38 | consecutive days have consecutive numbers, across months, leap days and from year -1 to year 1 |
| Calendar.OrderIsOrder | src/common/dateTime.cpp:24-38 | the order of Julian days is the order of the calendar |
| Calendar.LeapIsLeap | src/common/dateTime.cpp:160-166 | the leap rule, with truncating remainders, is the Gregorian one for negative years too |
| Calendar.ValidDates | src/common/dateTime.cpp:90-166 | which dates are valid, in the numbers of the Gregorian calendar: month lengths, leap days, no year 0 |
| Calendar.WeekdayCycles | src/common/dateTime.cpp:209-219 | the weekday is in 1..7 and advances cyclically every day, below day 0 too |
| Calendar.DayOfYearIs | src/common/dateTime.cpp:221-230 | the day of the year is the length of the months before plus the day, and lies in 1..DaysInYear |
| Calendar.DateFitsExactly | src/common/dateTime.cpp:24-38 | everything computed on the way from a valid date to its day fits an int32 if and only if the date lies between 14 May -5884291 and 15 December 5874689 |
| Calendar.YmdToJd32 | src/common/dateTime.cpp:24-38 | the conversion in checked int32 arithmetic, defined on exactly these dates, equals the one over integers |
| Calendar.DayFitsExactly | src/common/dateTime.cpp:40-42 | the first division of the way back, its rounding included, stays within int32 if and only if the day lies between -536866432 and 536838867 |
| Calendar.JdToYmd32 | src/common/dateTime.cpp:40-65 | on exactly these days the whole way back in checked int32 arithmetic equals the one over integers |
| Calendar.ReadableExactly | src/common/dateTime.cpp:136-158 | of the valid dates those that can be read back without overflow are exactly those between 13 July -1474604 and 18 October 1465102; later and earlier ones can be stored only |
| Calendar.Date.Set | src/common/dateTime.cpp:136-142 | a valid date is stored as its day number, which is never the invalid marker; any other is stored as invalid |
| Calendar.Date.Get | src/common/dateTime.cpp:144-158 | returns the date of the stored day, or zeros |
| Calendar.UnixDay | src/common/dateTime.cpp:689-692 | 1 January 1970 has the day number that the Unix time conversion uses |
| EventFlag.KernelEventFlagPrivate.WaitLoop | src/kernel/eventFlag.cpp:22-24 | one pass of the wait loop: match, closed, cancelled, expired or park, in that order, with the bits as they were as output; the laws below say what that means bit by bit |
| EventFlag.KernelEventFlagPrivate.StartWait | src/kernel/eventFlag.cpp:20-24 | a second waiter in single mode is refused; otherwise the loop runs |
| EventFlag.KernelEventFlagPrivate.ResumeWait | src/kernel/eventFlag.cpp:23 | a wake-up of a parked wait, for whatever reason, takes it off the waiters and runs the loop again |
| EventFlag.KernelEventFlagPrivate.Cancel | src/kernel/eventFlag.cpp:19 | replaces the bits, marks the flag cancelled and reports the waiters |
| EventFlag.DoKeepsInv | src/kernel/eventFlag.cpp:16-25 | at every lock release `waiters` is the number of parked threads and at most 1 in single mode |
| EventFlag.RunKeepsInv | src/kernel/eventFlag.cpp:16-25 | and so over every run of any number of threads |
| EventFlag.OnlyOkChangesBits | src/kernel/eventFlag.cpp:20-25 | among waits only one that returns OK changes the bits, and it returns OK exactly when it matches |
| EventFlag.WaitBit | src/kernel/eventFlag.cpp:24 | what a wait does to a bit: an OK return leaves it on if and only if it was on and the mode clears nothing, or clears the wanted bits and it is not one; any other step leaves it as it was |
| EventFlag.CallBit | src/kernel/eventFlag.cpp:16-19 | what Set, Clear, Cancel and Close do to a bit and to the status of an open flag, and that they change nothing of a closed one |
| EventFlag.WaitResult | src/kernel/eventFlag.cpp:20-24 | how a locked region of a wait ends: refused, else OK if and only if all wanted bits, or one of them, are on, else Deleted, Canceled, TimedOut or parked, in this order |
| EventFlag.WhoIsParked | src/kernel/eventFlag.cpp:23 | a wait is parked with its request if and only if it has no result, and no other wait is affected |
| EventFlag.SetBetweenConsumers | src/kernel/eventFlag.cpp:17-25 | between two OK AND-waits that share a bit, the first of which clears, some Set or Cancel on the open flag turned that bit on |
| EventFlag.ConsumedAtMostProvided | src/kernel/eventFlag.cpp:17-25 | in every run a bit is consumed at most as often as it was provided, counting its first and last value |
| EventFlag.WhoIsCanceled | src/kernel/eventFlag.cpp:17-24 | in every run up to the next Cancel, a wait that looks at the flag, parked before or started since, returns Canceled if and only if no Set or Close came in between, no other wait took the mark, and the bits do not satisfy it |
| EventFlag.OneIsCanceled | src/kernel/eventFlag.cpp:17-24 | so exactly one wait returns Canceled in such a run if, before any Set or Close, one looks at the flag that the bits do not satisfy, and none otherwise |
| EventFlag.AllReported | src/kernel/eventFlag.cpp:17-24 | in every run up to the next Cancel, all the waits a Cancel reported are cancelled when they first wake if and only if it reported none, or one that finds the mark still there and too few bits |
| EventFlag.SingleIsCanceled | src/kernel/eventFlag.cpp:17-24 | in single mode, where newcomers are refused, the one reported wait is cancelled when it first wakes if and only if no Set or Close came in between and the bits, which are then at most those of the Cancel, do not satisfy it |
| EventFlag.NewcomerTakesMark | src/kernel/eventFlag.cpp:19-24 | a run in which a wait that has come since the Cancel takes the mark and the one reported wait parks again |
| EventFlag.SetTakesMark | src/kernel/eventFlag.cpp:17-24 | a run in single mode in which a Set that satisfies nobody takes the mark and the one reported wait parks again |
| EventFlag.CancelsAllItCounts | src/kernel/eventFlag.cpp:19-24 | in the runs in which after a Cancel each reported wait wakes once, in any order and with any deadlines, and nothing else happens, all of them return Canceled if and only if the Cancel reported none, or one that its new bits do not satisfy |
| EventFlag.CancelReaches | src/kernel/eventFlag.cpp:19-24 | in the same runs the exact number of waits that return Canceled and of those that park again or time out, by how many find too few bits when their turn comes |
| EventFlag.MissesInAnyOrder | src/kernel/eventFlag.cpp:19-24 | in the same runs every wait that the new bits do not satisfy finds too few bits in every order of waking |
| EventFlag.OneReturnPerCancel | src/kernel/eventFlag.cpp:19-24 | in every run at most one wait per Cancel returns Canceled |
| EventFlag.CountedButNotCanceled | src/kernel/eventFlag.cpp:19-24 | a Cancel that reports two waiters after which the second parks again |
| EventFlag.ClosedDrains | src/kernel/eventFlag.cpp:16-24 | after Close every step of a waiting thread returns it, so the parked ones only get fewer |
| EventFlag.ClosedRunDrains | src/kernel/eventFlag.cpp:16-24 | over every run after Close no bit is turned on and as many wakes as there were parked waits leave none |
| EventFlag.PollReturns | src/kernel/eventFlag.cpp:26 | a poll never parks |

## Left out

- Inflate.ZBuf.ParseHuffmanBlock: stops with a status of its own at length symbols 286 and 287 and distance codes 30 and 31, which RFC 1951 does not use; the source goes on with a length or distance of zero.
- Inflate.ZBuf.ReadToken: the same, for the length symbols.
- Inflate.ZBuf.ReadDistance: the same, for the distance codes.
- Inflate.ZBuf.ZExpand: requires a non-empty initial buffer when expansion is allowed, because the source doubles the size until it suffices; allocation failure is not modelled.
- PngFilter.CreatePngImageRaw: 8- and 16-bit samples; PngPacked.CreatePngImageRaw is the same function for 1, 2 and 4 bits. Big-endian machines, size-overflow checks and allocation failure are not modelled.
- Adam7.CreatePngImage: image sides up to 2^24, the limit the library sets elsewhere; 8- and 16-bit samples.
- Dirents.KernelGetdirentries: the descriptor table is a map, and every directory in it is open.
- Dirents.Pack: the hash stored in each record is an arbitrary function of the name; logging is left out.
- EdgeSort.SortEdges: coordinates are real numbers, not floats.
- CmapSearch.FindGlyphIndex: format 4 only; formats 0, 6, 12 and 13 would add easy members.
- LruCache.LeastRecentlyUsedCache.ForEachItemBelow: the callback is a function of the object and of how many it has seen that says what it does; callbacks that call back into the cache in other ways are not modelled.
- Calendar.Date.Set: of the valid dates exactly those whose conversion does not overflow (`Calendar.DateFitsExactly`); for the others the source's behaviour is undefined.
- Calendar.Date.Get: exactly the days whose conversion does not overflow (`Calendar.DayFitsExactly`), for the same reason.
- EventQueue.KernelEqueuePrivate.TriggerEvent: the data of a video-out trigger, clock included, is an input of the call.
- EventQueue.KernelEqueuePrivate.GetTriggeredEvents: the waiting loop around it and its time slices are not modelled; the clock is an input.
- EventQueue.KernelEqueuePrivate.DeleteEvent: returns the registration instead of calling its delete callback outside the lock.
- EventFlag.KernelEventFlagPrivate.StartWait: deadlines are a boolean input of each pass; a word is the set of its bits.
- SyncOnAddress.StepKeepsInv: registry, entries and waiter lists are values of one state, not objects, because the steps of different calls interleave; what a step changes in place is one function from state to state.
- SyncOnAddress.FlagWaiters: positive counts; a zero count returns at once and a negative one is rejected before the protocol.
- Stored and dynamic blocks, the zlib header and the code-length code: they call what is proved here.
- The NEON variant of the upsampler.
- The Linux path of wait-on-address, where the operating system does the work; address validation and signal polling.
- Weak memory: all shared accesses are sequentially consistent.
- Bit array operations without ranges (fill, clear, exclusive or, complement, emptiness): easy members.
- Time of day, date formatting and conversions to Unix time, beyond the day number they rest on.
- JPEG, HDR and the other image formats, glyph rasterization, operating-system wrappers and logging.
