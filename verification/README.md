# A verified model of the Xen guest kernel

The kernel in `Assignment_3` (and its twin in `guest2`) boots from UEFI, builds its own page
tables, drives a framebuffer console through a small `printf`, reads the Xen paravirtual clock and
shares memory through a Xen grant table. This project models those five parts and proves what
they guarantee. Code that changes things in place is written as classes, arrays and loops. Each
such method is proved to compute a specification function, or to be a sequence of steps of a
protocol. The results about all inputs and all runs are proved about those specifications.

Physical memory is a map of 64-bit words. The hypervisor is an environment: it may take any
number of steps before each access of the guest to shared memory. The time stamp counter and the
glyph bitmaps are arbitrary.

| part | files |
|---|---|
| machine words, C strings | `Words.dfy` |
| grant table | `GrantProtocol.dfy` (state machine and invariant), `GrantSafety.dfy` (results over all runs), `GrantLiveness.dfy` (which calls return), `GrantTable.dfy` (the routines) |
| page tables | `PageWalk.dfy` (4-level paging, Intel SDM Vol. 3A, sections 4.5 and 4.6), `PageTables.dfy` (contents and translation), `PageBuilders.dfy` (the builders as store sequences), `PageTheorems.dfy` (results), `KernelPaging.dfy` (the routines), `BootCounts.dfy` (the loader's counts) |
| console | `Terminal.dfy` (what text looks like), `Console.dfy` (the routines), `ConsoleTheorems.dfy` (pixels and text) |
| clock | `Seqlock.dfy` (version protocol), `ClockScaling.dfy` (fixed point), `ClockOrder.dfy` (the order of readings), `PvClock.dfy` (the routines) |
| printf | `Numerals.dfy` (digits), `Format.dfy` (parse, then render), `FormatTheorems.dfy` (results about parsing and fields), `FormatMeaning.dfy` (what each conversion prints), `Sinks.dfy` (output functions), `Conversions.dfy` (the conversion half), `Printf.dfy` (the engine), `PrintfFamily.dfy` (its callers) |

## What the code does that its comments do not say

- The page-fault handler ignores the faulting address. The repository's README says it maps the
  accessed location; it always maps one fixed page, so the fault is cured if and only if the
  access was to that page; a user access to kernel memory is not
  (`PageTheorems.HandlerCuresFaultIff`).
- The handler rewrites the live tables. Everything but two pages keeps its translation after every
  store; the TLS page is out of place for two stores, and so, on a repeated fault, is the extra
  page (`PageTheorems.LiveTranslation`). The handler's own accesses to the tables go
  through exactly when the user tables and the kernel's top-level entry, which it loads, are below
  4 GB; the loader asks for both without such a limit (`PageTheorems.HandlerCompletesIff`).
- The builder's comment takes fewer than 512 user pages to be few enough. With 511 the TLS page
  replaces the last one, so the limit is 510 (`PageTheorems.UserPagesMappedIff`).
- An empty grant free list is not detected. With 504 grants outstanding every further one uses the
  reserved entry 0 (`GrantSafety.GrantIsFreshIff`, `GrantSafety.ExhaustedGrantsShareEntryZero`).
- Readings of the monotonic clock from one record are in the order of the counter once it has passed
  the record's timestamp, while the shift does not overflow and the nanoseconds stay below 2^64. A
  counter behind the timestamp, as one processor's can be behind another's, wraps the difference:
  it reads ahead of the counters past it, unless its nanoseconds pass 2^64 and wrap as well
  (`PvClocks.MonotonicTimeOrderIff`, `PvClocks.MonotonicTimeAcrossExamples`).
- From 512 user pages on, which the builder's comment excludes and nothing checks, the page table
  itself becomes a user page (`PageTheorems.PageTableIsUserPageIff`).
- The loader's 64-bit page count is cut to 32 bits when it is stored
  (`BootCounts.BootInfo.CalculateNumPagesUserPageTable`).
- A completed transfer goes back on the free list with its flags still set, so a free entry has
  flags that are 0 or show a completed transfer (`GrantSafety.FreeEntriesAreIdle`).
- A format that ends in a percent sign, or in one followed by dashes and a zero, makes the engine
  emit a NUL and read past the end (`FormatTheorems.DanglingIff`).
- `%c` with a NUL argument prints only its padding, and `%p` prints lower-case digits although
  `PRINTF_UCP` is defined, because the code tests `PRINT_UCP`.

## Model

| member | source | states |
|---|---|---|
| GrantSafety.StepKeepsInv | Assignment_3/gnttab.c:37-126 | every atomic step of guest or hypervisor keeps the whole invariant: list, partition of entries, program points, entries against grants |
| GrantSafety.RunKeepsInv | Assignment_3/gnttab.c:37-126 | so does every finite interleaving |
| GrantSafety.InitialThreads | Assignment_3/gnttab.c:135-136 | the initial loop threads exactly the entries 8 to 511 |
| GrantSafety.ReachedInv | Assignment_3/gnttab.c:37-136 | every state reached from `init_gnttab` by any interleaving satisfies the invariant |
| GrantSafety.QuietStaysQuiet | Assignment_3/gnttab.c:82-126 | no sequence of hypervisor steps changes an entry without a grant |
| GrantSafety.FreeEntriesAreIdle | Assignment_3/gnttab.c:82-126 | in every run a free entry, or one about to be freed, is not in use, has no unfinished transfer, has flags 0 or completed, and cannot be changed by the hypervisor |
| GrantSafety.UsesSeeTheCurrentGrant | Assignment_3/gnttab.c:53-80 | in every run a use the hypervisor holds belongs to an outstanding grant, and the domain and frame it saw are that grant's |
| GrantSafety.WritableIffGrantedSo | Assignment_3/gnttab.c:62-63 | in every run the hypervisor can read through an outstanding access grant, and start to write if and only if it was not granted as read-only |
| GrantSafety.FlagWords | Assignment_3/gnttab.c:53-80 | in every run, the flag word of every outstanding grant in numbers: type, read-only, uses in progress, stage of a transfer |
| GrantSafety.PublishedWords | Assignment_3/gnttab.c:62-77 | the flag words published: 1 for writable access, 5 for read-only, 2 for a transfer |
| GrantSafety.EntriesConserved | Assignment_3/gnttab.c:37-51 | in every run free, granted and busy entries are disjoint and together are exactly 8 to 511, also by count |
| GrantSafety.EndAccessLoopsAtMostTwice | Assignment_3/gnttab.c:87-94 | in every run at most one compare-and-swap fails, and the test after a failure gives up |
| GrantSafety.EndTransferFailsAtMostOnce | Assignment_3/gnttab.c:106-112 | in every run at most one compare-and-swap fails, and the next read sees the commitment |
| GrantSafety.EndAccessSucceedsIffUnused | Assignment_3/gnttab.c:93-97 | the compare-and-swap succeeds if and only if nobody uses the entry; its flags are then 0, nothing else has changed, and no use can start |
| GrantSafety.EndTransferOutcome | Assignment_3/gnttab.c:106-125 | a transfer is withdrawn, its flags set to 0, if and only if uncommitted, and can then never commit; otherwise the frame returned is the delivered one |
| GrantSafety.FirstGrantIs511 | Assignment_3/gnttab.c:135-136 | the first grant after initialisation is entry 511 |
| GrantSafety.GrantTakesLastFreed | Assignment_3/gnttab.c:37-51 | a grant uses the entry freed last; the list is then as before freeing at every slot but that entry's own, and stands for the same stack |
| GrantSafety.ListEmptyIff | Assignment_3/gnttab.c:37-51 | between two calls of any run slot 0 is empty if and only if 504 grants are outstanding |
| GrantSafety.GrantIsFreshIff | Assignment_3/gnttab.c:44-51 | in every run a grant gets an entry of its own if and only if fewer than 504 are outstanding; otherwise it gets entry 0 and the list is unchanged |
| GrantSafety.GrantRunPublishes | Assignment_3/gnttab.c:53-80 | an undisturbed grant call writes frame, domain and flags of one entry and changes no other |
| GrantSafety.ListRunsOut | Assignment_3/gnttab.c:44-51 | any 504 grants after initialisation, with no end between them, empty the list |
| GrantSafety.ExhaustedGrantsShareEntryZero | Assignment_3/gnttab.c:44-66 | a run from initialisation in which the 505th and 506th grant share entry 0 and a use between them disagrees with the entry |
| GrantLiveness.CallsReturn | Assignment_3/gnttab.c:53-126 | in every run, whatever the hypervisor does, each routine takes at most six steps of its own until it has returned or ends a transfer that is committed and not completed; a transfer completed already is returned with the frame in its entry |
| GrantLiveness.UncompletedTransferWaits | Assignment_3/gnttab.c:106-117 | from any point where the transfer is committed, and as long as it is not completed, the routine that ends it does not return |
| GrantTables.GrantTable.constructor | Assignment_3/gnttab.c:128-136 | the initial list loop, from any untouched table page, starts a valid run with 511 on top |
| GrantTables.GrantTable.PutFreeEntry | Assignment_3/gnttab.c:37-42 | the list array and the stack it stands for |
| GrantTables.GrantTable.GetFreeEntry | Assignment_3/gnttab.c:44-51 | the list array and the stack it stands for, also when empty |
| GrantTables.GrantTable.GrantAccess | Assignment_3/gnttab.c:53-66 | with the hypervisor acting between any two accesses, is a run of the protocol that adds exactly the grant asked for, or none at entry 0 |
| GrantTables.GrantTable.GrantTransfer | Assignment_3/gnttab.c:68-80 | the same for a transfer grant |
| GrantTables.GrantTable.CompareAndClear | Assignment_3/kerninc/os.h:17-63 | `synch_cmpxchg` of a 16-bit cell with 0 as one atomic step, and which way the routine continues |
| GrantTables.GrantTable.EndAccess | Assignment_3/gnttab.c:82-98 | is a run of the protocol; 1 removes exactly that grant and frees its entry, 0 changes neither |
| GrantTables.GrantTable.EndTransfer | Assignment_3/gnttab.c:100-126 | is a run of the protocol; the result is 0 for a withdrawn grant or the frame the hypervisor delivered, and the entry is freed |
| GrantTables.GrantTable.AwaitFrame | Assignment_3/gnttab.c:114-125 | waits for completion and only then reads the frame, which is the delivered one |
| PageTables.WalkLow | Assignment_3/kernel.c:409-457 | below 4 GB every address translates to itself, writable, supervisor only |
| PageTables.WalkCharacterised | Assignment_3/kernel.c:350-457 | the translation of every 64-bit address from the loaded CR3: identity below 4 GB, the user slots at the top, a fault everywhere else |
| PageBuilders.KernelStoresBuild | Assignment_3/kernel.c:409-457 | the first n kernel stores make the first n words final |
| PageBuilders.UserStoresBuild | Assignment_3/kernel.c:350-404 | what every word of the user tables holds after any number of stores |
| PageBuilders.UserStoresFrame | Assignment_3/kernel.c:350-404 | the user builder changes nothing outside the user tables |
| PageBuilders.UserStoresStayInside | Assignment_3/kernel.c:350-404 | every store address is an aligned word of the four pages allocated |
| PageBuilders.EveryUserWordIsStored | Assignment_3/kernel.c:350-404 | all 2048 words are stored |
| PageBuilders.UserBuilderBuilds | Assignment_3/kernel.c:350-404 | from any memory the complete builder leaves complete tables and the kernel tables intact |
| PageBuilders.RebuildKeepsTables | Assignment_3/kernel.c:323-404 | while the handler rewrites live tables, after every store only slots 510 and 511 can differ |
| PageTheorems.BootTranslation | Assignment_3/kernel.c:64-68 | the translation of every address after both builders, from any initial memory |
| PageTheorems.BootAddressSpace | Assignment_3/kernel.c:64-68 | the same by plain addresses: identity for the kernel, then stack, program and TLS page for the user at their buffers, and a fault at every other address |
| PageTheorems.LiveAddressSpace | Assignment_3/kernel.c:323-404 | the address space before and after faults, by plain addresses |
| PageTheorems.LiveTranslation | Assignment_3/kernel.c:323-404 | after every single store of the handler: unchanged translation outside the last two slots, and exactly what those two translate to |
| PageTheorems.KernelStaysMapped | Assignment_3/kernel.c:323-404 | after every store the low 4 GB are identity, writable, supervisor only |
| PageTheorems.HandlerStoreTranslates | Assignment_3/kernel.c:350-404 | at the moment of each of its stores the handler reaches the word through the tables it is rewriting, or faults at 4 GB and above |
| PageTheorems.HandlerCompletesIff | Assignment_3/kernel.c:323-404 | the handler's table accesses, all its stores and its load of the kernel's top-level entry, all translate if and only if the user tables and that entry are below 4 GB |
| PageTheorems.FirstFaultMapsOnePage | Assignment_3/kernel.c:323-373 | the first fault changes the translation exactly at the page 0xFFFFFFFFC01FF000, from a fault to the extra page |
| PageTheorems.HandlerCuresFaultIff | Assignment_3/kernel.c:323-328 | an access of either mode that faulted, for want of a page or of the right to it, goes through afterwards if and only if it is to that page; on a first fault or a later one |
| PageTheorems.SecondFaultChangesNothing | Assignment_3/kernel.c:323-373 | a second fault changes no word and no translation |
| PageTheorems.UserPagesMappedIff | Assignment_3/kernel.c:356-369 | all stack and program pages are mapped to their contents if and only if there are at most 510 |
| PageTheorems.EntryAddressIff | Assignment_3/kernel.c:57-59 | the hard-coded entry address is the first byte of the program if and only if the stack has one page; the stack ends right below |
| PageTheorems.TablesAreNotUserReachable | Assignment_3/kernel.c:350-457 | with up to 511 user pages, at no moment of a rewriting can user mode reach a word of the tables |
| PageTheorems.PageTableIsUserPageIff | Assignment_3/kernel.c:375-401 | that limit is exact: from 512 pages on the directory serves as second page table and maps the first one as a user page, 2 MB up; below, that address is not mapped |
| KernelPaging.Machine.FillKernelPtes | Assignment_3/kernel.c:417-421 | the loop over 1048576 entries, with its 32-bit product, performs exactly the specified stores |
| KernelPaging.Machine.PageTableInitKernel | Assignment_3/kernel.c:409-457 | performs exactly the kernel store sequence and returns the top level |
| KernelPaging.Machine.PageTableInitUser | Assignment_3/kernel.c:350-404 | performs exactly the user store sequence, in order, and returns the top level |
| KernelPaging.Machine.KernelStart | Assignment_3/kernel.c:64-68 | leaves CR3 and memory translating every address to the buffer it stands for, the TLS page included |
| KernelPaging.Machine.PageFaultHandler | Assignment_3/kernel.c:323-328 | final translation of every address by its buffer; after every logged store, unchanged translation outside the last two slots and the TLS page in place but for two stores; and exactly when the accesses go through the tables |
| BootCounts.BootInfo.CalculateNumPagesUserPageTable | Assignment_3/boot.c:307-321 | for all arguments, the stored page count is exact if and only if there are fewer than 2^32 pages; then each level has room for the one below with at most one table to spare, and the result is the pages these need |
| BootCounts.AllocationMatchesBuilders | Assignment_3/boot.c:307-348 | for fewer than 512 pages one table a level; the allocation is the words the builder stores if and only if there is a page to map; the kernel constant is exact |
| Terminal.ParagraphsSplit | Assignment_3/fb.c:60-91 | the lines the layout starts from are the text split at its newlines |
| Terminal.ChunksCut | Assignment_3/fb.c:60-91 | wrapping loses nothing and fills every line but the last |
| Terminal.LayoutSnoc | Assignment_3/fb.c:60-91 | one more character changes the laid-out text as the lazily wrapping console does: a newline after a full line breaks once |
| Terminal.LayoutFits | Assignment_3/fb.c:68-71 | no line is wider than the screen |
| Console.ShiftUp | Assignment_3/fb.c:43-58 | the ascending overlapping copy and the clearing loop equal a simultaneous shift |
| Console.ScrollShows | Assignment_3/fb.c:43-58 | that shift of a full screen shows the lines with an empty one added, margins included |
| Console.GlyphBits | Assignment_3/fb.c:78-89 | a pixel of a character is 0xFFFFFFFF if its bit in the font is set and 0 otherwise, leftmost pixel in the top bit |
| ConsoleTheorems.PixelShown | Assignment_3/fb.c:20-91 | every pixel of the screen from the text: font bits of its last lines in white, everything else black |
| ConsoleTheorems.SanitizedCharacters | Assignment_3/fb.c:64-67 | what is not ASCII shows as a question mark, every other character as itself |
| ConsoleTheorems.NulsAreNotShown | Assignment_3/fb.c:64-65 | a NUL anywhere in the text makes no difference |
| ConsoleTheorems.EqualScreensShowEqualText | Assignment_3/fb.c:60-91 | with a font whose printable characters look different, equal screens have equal text in every cell, up to blanks |
| Console.Framebuffer.constructor | Assignment_3/fb.c:20-41 | blanks any screen, fixes the size in characters, and shows the greeting, whatever it is |
| Console.Framebuffer.ScrollUp | Assignment_3/fb.c:43-58 | with 32-bit products that do not wrap, the simultaneous shift by one text row |
| Console.Framebuffer.DrawGlyph | Assignment_3/fb.c:78-89 | exactly the cell at the cursor shows the glyph, every other pixel is unchanged, and no index leaves the screen |
| Console.Framebuffer.Output | Assignment_3/fb.c:60-91 | after every character the screen shows the last lines of the laid-out text given so far, and the cell before the cursor has the pixels of the character |
| Console.Framebuffer.Print | Assignment_3/fb.c:37-40 | the same for a string |
| Seqlock.RunKeepsInv | Assignment_3/kernel.c:217-257 | the protocol invariant over every interleaving of reader and writer |
| Seqlock.ReadsOneRecord | Assignment_3/kernel.c:221-235 | in every run a reader that left the loop holds the fields of one published record |
| Seqlock.ReadsCurrentRecord | Assignment_3/kernel.c:235-235 | when the last test succeeds that record is the newest |
| Seqlock.ParityTestNeeded | Assignment_3/kernel.c:235-235 | a run in which the equality test alone would accept a torn record |
| Seqlock.ReaderReturns | Assignment_3/kernel.c:217-257 | once the writer pauses between updates a reader, wherever it is, returns within two rounds |
| ClockScaling.Mul64x32Exact | Assignment_3/kerninc/rdtsc.h:12-23 | the shifted 128-bit product is the exact floor for all operands |
| ClockScaling.ElapsedRightShiftError | Assignment_3/kernel.c:226-232 | negative shifts lose less than two nanoseconds and never gain |
| ClockScaling.ElapsedLeftShiftExactIff | Assignment_3/kernel.c:229-232 | non-negative shifts give the floor of the exact value if and only if the shift does not overflow or the multiplier is 0 |
| ClockScaling.ElapsedMonotone | Assignment_3/kernel.c:226-232 | the elapsed time is monotone in the difference of the counter while the shift does not overflow |
| PvClocks.MonotonicTimeFromFields | Assignment_3/kernel.c:226-232 | the returned time from the raw fields, for negative and other shifts, with every reduction to 64 bits |
| PvClocks.MonotonicTimeExamples | Assignment_3/kernel.c:226-232 | two readings in numbers: three seconds of a 3 GHz counter with shift -1, and a left shift |
| ClockOrder.ClockSameSideIff | Assignment_3/kernel.c:226-237 | for counters on one side of the record's timestamp, and a shift that loses no bit or (behind it) goes round 2^64 at most once, the values are in the counter's order if and only if the nanoseconds do not pass 2^64 between them |
| ClockOrder.ClockAcrossIff | Assignment_3/kernel.c:226-237 | across the timestamp, under the same condition on the shift, they are in order if and only if the nanoseconds are equal or only the counter behind passes 2^64 |
| PvClocks.MonotonicTimeOrderIff | Assignment_3/kernel.c:226-237 | for every record and any two values of the counter, exactly when the returned values are in order, and the two cases above |
| PvClocks.MonotonicTimeAcrossExamples | Assignment_3/kernel.c:226-237 | one tick before its timestamp a record without system time reads ahead, and one with a 1 GHz multiplier and 8.6 seconds of system time reads behind |
| PvClocks.WallClockFits | Assignment_3/kernel.c:250-251 | the wall clock is 1000000000 times the seconds plus the nanoseconds, with no overflow of 64 bits |
| PvClocks.ClockPage.MonotonicRead | Assignment_3/kernel.c:217-238 | with the writer acting before every load, a result is the time of one published record no older than the call, and there is no result only if an update was going on or happened |
| PvClocks.ClockPage.WallClockRead | Assignment_3/kernel.c:240-257 | the same for the wall clock |
| Numerals.NumeralValue | Assignment_3/printf.c:143-151 | reading back the digits of a number gives the number |
| Numerals.NumeralShape | Assignment_3/printf.c:143-151 | only digits of the base, a leading zero only for zero |
| FormatTheorems.FieldLength | Assignment_3/printf.c:361-416 | a field has the larger of its width and the length of sign and digits |
| FormatTheorems.FieldShape | Assignment_3/printf.c:361-416 | where sign, padding and digits stand in the three kinds of padding |
| FormatTheorems.NumberReadsBack | Assignment_3/printf.c:263-338 | the printed digits with their sign denote the argument at its width and signedness, without superfluous zeros |
| FormatTheorems.ZeroPaddedReadsBack | Assignment_3/printf.c:361-387 | zero padding does not change that |
| FormatTheorems.SpecificationParses | Assignment_3/printf.c:190-256 | a specification written out is read as itself, wherever it stands |
| FormatTheorems.ParseInvertsSpelling | Assignment_3/printf.c:174-256 | any sequence of literals and specifications written as a format parses back to itself |
| FormatTheorems.CompletePrefix | Assignment_3/printf.c:174-256 | parsing is compositional after a complete prefix |
| FormatTheorems.DanglingIff | Assignment_3/printf.c:186-209 | the engine overruns if and only if an unescaped percent sign is followed by nothing, or by dashes and one zero, and then the end |
| FormatMeaning.StringShown | Assignment_3/printf.c:347-353 | what `%s` prints: the string or "(null)", in a field padded with blanks only |
| FormatMeaning.CharacterShown | Assignment_3/printf.c:340-346 | what `%c` prints: the low byte, nothing for NUL, in a field padded with blanks only |
| FormatMeaning.NullPointerShown | Assignment_3/printf.c:271-276 | what `%p` prints for a null pointer |
| FormatMeaning.PointerShown | Assignment_3/printf.c:264-278 | what `%p` prints otherwise: 0x and small hexadecimal digits of all 64 bits, and the padding |
| FormatMeaning.NumberShown | Assignment_3/printf.c:279-338 | what the integer conversions print: number, sign, base, letters and padding, from the argument modulo its size |
| FormatMeaning.Modifiers | Assignment_3/printf.c:225-253 | the size each length modifier selects |
| FormatMeaning.SpecificationCharacters | Assignment_3/printf.c:214-299 | exactly which characters are digits, modifiers and conversions |
| FormatMeaning.AppendPiece | Assignment_3/printf.c:174-422 | the output of a format grows piece by piece, a literal by itself and a conversion by its field, made from the argument with the number of conversions before it |
| FormatMeaning.StringFormat | Assignment_3/printf.c:347-353 | the format "%s" prints its argument |
| FormatMeaning.UnknownConversion | Assignment_3/printf.c:354-359 | a specification with an unknown conversion character prints that character |
| FormatMeaning.UnfinishedFormats | Assignment_3/printf.c:199-253 | a format that breaks off in a flag, width or modifier prints nothing for it |
| FormatMeaning.FieldExamples | Assignment_3/printf.c:361-416 | four fields in full |
| Conversions.WriteNumber | Assignment_3/printf.c:325-338 | the backwards loops leave the numeral ending at index 62 and starting at 41 or above, and write no byte below it |
| Conversions.FetchNumber | Assignment_3/printf.c:299-323 | sign and magnitude of the argument at the selected width, the most negative number included |
| Conversions.Convert | Assignment_3/printf.c:258-360 | text, sign or prefix and padding kind of every conversion, null pointers included |
| Conversions.EmitField | Assignment_3/printf.c:361-416 | the emitting code produces exactly the justified field and counts it |
| Printf.ScanModifier | Assignment_3/printf.c:225-253 | one round of the modifier state, with its look-ahead, against the grammar |
| Printf.VprintfEngine | Assignment_3/printf.c:162-423 | for every format and arguments the one-pass engine emits parse-then-render, counts it, and overruns if and only if the format dangles |
| Sinks.WrittenBoundedHolds | Assignment_3/printf.c:442-449 | the bounded output function touches at most n bytes and ends a full buffer with NUL |
| Sinks.WrittenAllHolds | Assignment_3/printf.c:451-455 | the unbounded one stores everything and nothing else |
| Sinks.Sink.Put | Assignment_3/printf.c:442-455 | one call of an output function |
| PrintfFamily.DoVprintf | Assignment_3/printf.c:425-431 | the engine's output and one NUL that is not counted |
| PrintfFamily.BoundedResult | Assignment_3/printf.c:442-461 | the buffer after a bounded output: the longest prefix that fits, with its NUL, and nothing outside |
| PrintfFamily.Vsnprintf | Assignment_3/printf.c:457-461 | at most n bytes, the first n - 1 characters and NUL, and the full count whatever n is |
| PrintfFamily.Vsprintf | Assignment_3/printf.c:463-467 | the full output and NUL, nothing else touched, the same count |
| PrintfFamily.Vprintf | Assignment_3/printf.c:496-499 | the screen goes on showing the end of its text, grown by the output |

## Left out

- GrantTables.GrantTable.EndTransfer: the wait for completion is cut off after a given number of reads, because the source waits for the hypervisor without a bound; `GrantLiveness.CallsReturn` and `GrantLiveness.UncompletedTransferWaits` say when that wait ends.
- GrantTables.GrantTable.AwaitFrame: the same bound; with no result the routine has polled that often, is still waiting and has changed nothing.
- PvClocks.ClockPage.MonotonicRead: gives up after a given number of torn rounds, because a writer that never pauses keeps the source in its loop for ever; `Seqlock.ReaderReturns` says when it ends; versions do not wrap.
- PvClocks.ClockPage.WallClockRead: the same bound and the same assumption.
- PrintfFamily.DoVprintf: and its callers require a format that does not dangle, because what the source reads past the NUL is not defined; `VprintfEngine` covers dangling formats up to that point.
- PrintfFamily.Vsprintf: and `Vsnprintf` take a string argument to be apart from the output buffer, so printing a buffer into itself is not modelled.
- ClockScaling.ElapsedRightShiftError: and the other scaling results assume shift counts below 64, as C does; `ClockOrder.ClockOrderIff` takes any count, masked as the processor masks it.
- PageTables.WalkCharacterised: assumes what the loader provides: page-aligned tables and buffers, disjoint table areas, 1 to 511 user pages, one user table a level.
- The loops of one builder, a single C function, are one method per table here, called in the order of the source.
- `readonly` of an access grant is a boolean; other integers multiplied by the flag are not modelled.
- The flag word of the engine is a record of booleans, and masks and shifts of numbers are remainders and quotients.
- The text of the greeting `fb_init` prints, which is a parameter.
- The framebuffer is at least one text column wide and two text rows high, with fewer than 2^32 pixels.
- Accessed and dirty bits: the processor sets them in the entries it walks and a rebuild clears them; words are compared here as the kernel stores them.
- PageTheorems.HandlerCompletesIff: speaks of the handler's accesses to the tables; its code, stack, globals and the framebuffer it prints to first must be mapped as well.
- TLB contents and invalidation: the walk reads memory only, so a stale translation is not modelled.
- Memory ordering weaker than the fences in the source give: every step is atomic and seen at once.
- `wait`: it only polls the monotonic clock.
- The hypercalls of `init_gnttab` and `fini_gnttab`, which map and unmap the table page.
- The remaining hardware set-up: interrupt descriptors, task state segment, local APIC, CPUID, system calls.
- The rest of the boot loader: files, graphics mode, memory allocation, leaving boot services.
- The contents of the font, which is an arbitrary array of 2048 bytes.
- The variadic wrappers `printf`, `sprintf` and `snprintf`, which only collect their arguments.
- The copies of the same code in `Assignment_1`, `Assignment_2` and `guest2`.
