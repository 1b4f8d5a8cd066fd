# blog_os kernel core in Dafny

A model of three pieces of the blog_os kernel, with proofs about them.

- **VGA text-mode writer** (module `VgaBuffer`). The screen is a 25x80 buffer of (character, colour) cells with a cursor column. Bytes are written into the bottom row. A newline, or a byte written past column 79, scrolls every row up by one and blanks the bottom row. `ColorCode::new` packs two colours into one attribute byte.
  - The class `Writer` updates a two-dimensional array in place, with the nested copy loops of `new_line` and the column loop of `clear_row`.
  - Each of its methods is proved to leave exactly the state that a pure function on `WriterState` describes.
  - The properties of the writer are proved as lemmas about those functions.
- **Kernel heap bootstrap** (module `Allocator`). `init_heap` does three things in order:
  - it computes the inclusive range of 4 KiB pages covering [HEAP_START, HEAP_START + HEAP_SIZE - 1];
  - for each page it takes a frame and maps the page PRESENT | WRITABLE, stopping at the first error with no rollback;
  - only after the last page is mapped does it initialise the heap allocator.

  The frame allocator, the page mapper and the heap allocator are small classes that hold just the state `init_heap` sees. `InitHeap` also returns a ghost record of the calls it makes on them; that record is kept by `InitHeap`'s own body (and `MapHeapPages`'), not by the three classes. `MapPages` describes the loop as a value: the resulting table, the frames left, the result and the calls made. The `for` loop of `init_heap` is the method `MapHeapPages`, and `InitHeap` calls it between computing the page range and initialising the allocator.
- **Real-time clock decoding** (module `Rtc`). `read_rtc` does the following:
  - it converts BCD values when bit 2 of register B is clear;
  - it decodes the hour byte while keeping bit 7;
  - it widens the year to 2000 + year;
  - it rejects a month outside 1..12.

  The polling loop of `wait_til_not_updating` is modelled over a finite sequence of register-A reads. Register values are `bv8`, so masks, shifts and `u8` arithmetic are those of the source.

`Wrappers` holds the `Option` and `Result` types.

## Model

| member | source | states |
|---|---|---|
| VgaBuffer.Color.Value | src/vga_buffer.rs:26-43 | every colour's code fits in four bits |
| VgaBuffer.NewColorCode | src/vga_buffer.rs:51-55 | the low nibble is the foreground, bit 7 is always set, bits 4-6 are the background's low three bits |
| VgaBuffer.NewColorCodeEquality | src/vga_buffer.rs:51-55 | two colour codes are equal exactly when the foregrounds are equal and the backgrounds agree in their low three bits, so bit 3 of the background is lost |
| VgaBuffer.AfterNewLine | src/vga_buffer.rs:125-138 | scrolling keeps the 25x80 shape and puts the cursor in range |
| VgaBuffer.AfterWriteByte | src/vga_buffer.rs:94-123 | writing a byte keeps the 25x80 shape and the cursor within 0..80, so every cell index the source uses is in bounds |
| VgaBuffer.AfterWriteString | src/vga_buffer.rs:81-92 | writing a string keeps the writer well formed and keeps its colour |
| VgaBuffer.NewLineScrolls | src/vga_buffer.rs:125-138 | after `new_line`, row r-1 holds the old row r for every r in 1..25, the bottom row is all blanks in the current colour, and the cursor is 0 |
| VgaBuffer.NewlineWritesNoCell | src/vga_buffer.rs:95-96 | a newline byte only scrolls: a cell can hold the newline byte afterwards only if the cell below it held it before |
| VgaBuffer.WriteByteInLine | src/vga_buffer.rs:97-120 | a non-newline byte with the cursor below 80 lands at (24, cursor) in the current colour, the cursor grows by exactly 1, and every other cell is unchanged |
| VgaBuffer.WriteByteWraps | src/vga_buffer.rs:98-120 | a non-newline byte with the cursor at 80 first scrolls, then lands at (24, 0) on an otherwise blank bottom row, and the cursor ends at 1 |
| VgaBuffer.WriteStringAppend | src/vga_buffer.rs:81-92 | writing a + b is writing a, then b |
| VgaBuffer.WriteStringFits | src/vga_buffer.rs:81-120 | a line without newlines that fits after the cursor is written byte by byte into the bottom row from the cursor on; the cells before the cursor and all rows above are unchanged |
| VgaBuffer.PrintlnLandsAboveBottom | src/vga_buffer.rs:222-235 | writing "\n" + s + "\n" with s a line of at most 80 non-newline bytes leaves s in row 23 from column 0 and the cursor at 0 |
| VgaBuffer.Writer.constructor | src/vga_buffer.rs:13-18 | the kernel's writer starts at column 0, yellow on black |
| VgaBuffer.Writer.WriteString | src/vga_buffer.rs:81-92 | the buffer and cursor end exactly as AfterWriteString describes, byte after byte |
| VgaBuffer.Writer.WriteByte | src/vga_buffer.rs:94-123 | the buffer and cursor end exactly as AfterWriteByte describes |
| VgaBuffer.Writer.NewLine | src/vga_buffer.rs:125-138 | after the in-place row copy and the clear, the buffer is the old rows 1..24 followed by a blank row, and the cursor is 0 |
| VgaBuffer.WithRowCleared | src/vga_buffer.rs:140-151 | clear_row on the screen as a value; Writer.ClearRow is proved to leave exactly it, and AfterNewLine's bottom row is BlankRow, stated by NewLineScrolls |
| VgaBuffer.Writer.ClearRow | src/vga_buffer.rs:140-151 | the given row becomes 80 blanks in the current colour; nothing else changes |
| Allocator.HeapPages | src/allocator.rs:29-40 | the page range of the heap window; its first and last page and its coverage are stated by HeapPagesCover, its order by HeapPagesAscending, its size by AlignedHeapPageCount and KernelHeapPages |
| Allocator.ContainingPage | src/allocator.rs:35-37 | the page returned contains the address |
| Allocator.PageRangeInclusive | src/allocator.rs:39 | the range holds first, first + 1, ..., last, and is empty when last < first |
| Allocator.HeapPagesCover | src/allocator.rs:29-40 | the range starts at start / 4096 and ends at (start + size - 1) / 4096; every byte of the window lies in one of its pages and every page holds a byte of the window |
| Allocator.AlignedHeapPageCount | src/allocator.rs:29-40 | a page-aligned window whose size is a whole number of pages takes size / 4096 pages |
| Allocator.HeapPagesAscending | src/allocator.rs:39 | the page range is strictly ascending |
| Allocator.KernelHeapPages | src/allocator.rs:10-12 | HEAP_START is page-aligned and the 100 KiB heap takes exactly 25 pages |
| Allocator.MapPages | src/allocator.rs:43-50 | the loop as a value (result, page table, frames left, calls made); what it computes is stated by MapPagesResult, MapPagesMapsPrefix, MapPagesKeepsOthers, MapPagesTrace and the lemmas after them |
| Allocator.Progress | src/allocator.rs:43-50 | the number of pages mapped before the loop stops is at most the number of pages and at most the number of frames |
| Allocator.ProgressStops | src/allocator.rs:43-50 | every page before the stopping point is one the mapper accepts, and the loop stops at the end, when the frames run out, or at a refused page |
| Allocator.MapPagesKeepsOthers | src/allocator.rs:43-50 | the loop writes no table entry except those of the pages it mapped |
| Allocator.MapPagesMapsPrefix | src/allocator.rs:44-49 | each mapped page maps to the frame taken for it, in order, with exactly PRESENT and WRITABLE, in the final table whatever the result, so nothing is rolled back |
| Allocator.MapPagesResult | src/allocator.rs:44-49 | the result is Ok after all pages; FrameAllocationFailed when the frames run out; otherwise exactly the mapper's error for the refused page. It also gives the frames left in each case |
| Allocator.MapPagesVisitsInOrder | src/allocator.rs:43-49 | the map requests name exactly the first Progress pages in range order, followed by the refused page when the mapper refused one |
| Allocator.MapPagesFrameBeforeMap | src/allocator.rs:44-49 | every map request comes right after the frame request that returned its frame, and carries PRESENT and WRITABLE |
| Allocator.MapPagesMapAfterFrame | src/allocator.rs:44-49 | every frame that is granted is followed at once by the map request for that frame, so no visit takes a second frame |
| Allocator.MapPagesLeavesHeapAlone | src/allocator.rs:43-50 | the loop never initialises the heap allocator |
| Allocator.MapPagesTrace | src/allocator.rs:43-49 | the loop's calls are exactly, for each mapped page i in order, one frame request answered with frame i, the map request of page i to it with PRESENT and WRITABLE, and the flush; then the failing call(s), and nothing after them |
| Allocator.ThenInitHeap | src/allocator.rs:54-58 | the allocator's initialisation after the loop, only when it succeeded; its ordering is stated by InitHeapOrdering |
| Allocator.InitHeapOrdering | src/allocator.rs:43-58 | init_heap succeeds exactly when every page was mapped. On success every page is mapped PRESENT and WRITABLE, and the last call, the only initialisation, is init(HEAP_START, HEAP_SIZE). On failure the allocator is never initialised |
| Allocator.FrameShortage | src/allocator.rs:44-46 | with fewer frames than pages and no refused page, the result is FrameAllocationFailed after one mapping per frame, and those mappings remain |
| Allocator.KernelHeapMapped | src/allocator.rs:29-58 | when init_heap succeeds, every byte of [HEAP_START, HEAP_START + HEAP_SIZE) lies in a page mapped PRESENT and WRITABLE |
| Allocator.KernelHeapSucceeds | src/allocator.rs:10-58 | with 25 frames or more and no refused page, init_heap returns Ok and maps page HEAP_START / 4096 + i to the i-th frame for i in 0..25 |
| Allocator.FrameAllocator.AllocateFrame | src/allocator.rs:44-46 | hands out the next free frame, or None when none is left |
| Allocator.Mapper.MapTo | src/allocator.rs:49 | installs page to frame with the given flags, or reports the mapper's error and leaves the table alone |
| Allocator.LockedHeap.Empty | src/allocator.rs:19 | the global heap allocator starts uninitialised |
| Allocator.LockedHeap.Init | src/allocator.rs:54-56 | the allocator is given the region (start, size) |
| Allocator.MapHeapPages | src/allocator.rs:43-50 | the loop's calls, result, page table and remaining frames are exactly those of MapPages |
| Allocator.InitHeap | src/allocator.rs:23-59 | calls, result, page table and remaining frames are those of the loop over the heap's page range followed by the allocator's initialisation; the heap allocator holds (HEAP_START, HEAP_SIZE) exactly when the result is Ok |
| Rtc.BcdToBinary | src/rtc.rs:60-65 | the result is low nibble + 10 * high nibble and at most 165, so the u8 arithmetic never wraps; for a valid BCD byte it is at most 99, with its tens and units digits |
| Rtc.BinaryToBcd | src/rtc.rs:60-65 | a value below 100 is encoded with its tens digit in the high nibble and its units digit in the low one |
| Rtc.BcdRoundTrip | src/rtc.rs:60-65 | decoding the BCD encoding of any n in 0..99 gives n |
| Rtc.BcdRoundTripBack | src/rtc.rs:60-65 | every valid BCD byte is the encoding of its decoded value |
| Rtc.HourBcdToBinary | src/rtc.rs:62 | bit 7 of the hour is kept; bits 0-6 are BCD-decoded with the tens digit under mask 0x70, giving at most 85 |
| Rtc.HourRoundTrip | src/rtc.rs:62 | an hour encoded in BCD with its PM flag decodes to itself |
| Rtc.HourRoundTripBack | src/rtc.rs:62 | the other direction: an hour byte whose units digit is a BCD digit decodes to at most 79 and re-encodes, PM flag included, to the same byte |
| Rtc.EncodeBcd | src/rtc.rs:57-66 | reference encoding for the round trip of these lines: the registers a clock in BCD mode shows for given values; no source line computes it |
| Rtc.ConvertRegisters | src/rtc.rs:57-66 | the conversion block; stated by ConvertBinaryPassesThrough and ConvertRecoversClock |
| Rtc.ConvertBinaryPassesThrough | src/rtc.rs:57-66 | in binary mode (register B bit 2 set) all six bytes pass through unchanged, whatever their values |
| Rtc.ConvertRecoversClock | src/rtc.rs:57-66 | in binary mode (register B bit 2 set) the six values pass through unchanged; in BCD mode the conversion undoes the clock's encoding |
| Rtc.ReadRtc | src/rtc.rs:57-74 | the read fails exactly when the converted month is outside 1..12, and reports that month. Otherwise it returns the converted day, hour, minute, second and month, and the year 2000 + converted year, within [2000, 2255]; in BCD mode the year is at most 2165, and at most 2099 for a valid BCD year byte |
| Rtc.ReadRtcBinaryDate | src/rtc.rs:57-74 | a clock in binary mode with a month byte in 1..12 yields its raw bytes, with the year widened by 2000 |
| Rtc.ReadRtcBcdDate | src/rtc.rs:57-74 | a clock in BCD mode showing a valid date yields that date with the year widened by 2000 |
| Rtc.FirstClear | src/rtc.rs:98-106 | the first read with the masked bits clear; stated by FirstClearIsFirst |
| Rtc.FirstClearIsFirst | src/rtc.rs:98-106 | the index found is a read whose masked bits are clear, and every earlier read has them set; None means no read has them clear |
| Rtc.PollUntilClear | src/rtc.rs:98-106 | the polling loop returns exactly the first read whose masked bits are clear |
| Rtc.WaitTilNotUpdating | src/rtc.rs:98-106 | as written, the wait returns at the first read with bit 6 (0x40) clear and never before |
| Rtc.PolledBitMissesUpdateInProgress | src/rtc.rs:101 | the wait as written returns on the read 0xA6, although that read has the update-in-progress bit 0x80 set |
| Rtc.StandardDividerNeverWaits | src/rtc.rs:101 | with the standard time base in bits 6-4 of register A, the wait as written returns at the first read |
| Rtc.WaitTilUpdateComplete | src/rtc.rs:98-106 | with the update-in-progress bit 0x80, the wait returns at the first read whose update flag is clear and never before |

## Left out

- Port I/O: `get_reg` (src/rtc.rs:91-94) selects a register through port 0x70 and reads port 0x71. The register values are parameters of the model.
- Rtc.ReadRtc: the day, hour, minute and second checks of the `time` crate's `Date::from_calendar_date` and `Time::from_hms` are not modelled, because that crate is not part of this model. The month check is modelled, and its panic becomes an `Err`. The 12-hour PM flag is passed on as the source passes it on.
- Rtc.WaitTilNotUpdating: the source polls for ever; the model sees a finite sequence of reads, and `None` means the loop is still polling after the last one. The `spin_loop` hint is left out.
- Rtc.WaitTilUpdateComplete: the same finite-reads reading applies.
- Allocator.Mapper.MapTo: the page-table walk of the `x86_64` crate, its use of the frame allocator for intermediate tables, and the TLB flush are not modelled. The pages the mapper refuses are a fixed `faults` map, and the flush is an event in the trace.
- Allocator.LockedHeap.Init: it only records the region. The behaviour of `linked_list_allocator`, including the allocation test at src/allocator.rs:61-76, is not part of this model.
- Allocator.ContainingPage: `VirtAddr::new`'s canonical-address check and 64-bit wrap-around are not modelled. Addresses are unbounded naturals, and HEAP_START + HEAP_SIZE is far below 2^47.
- Allocator.InitHeap: the ghost trace records the calls made; it does not time them. The loop is written as the separate method `Allocator.MapHeapPages`.
- The volatile reads and writes of the VGA buffer are ordinary array accesses.
- The spin `Mutex`, `without_interrupts`, the `print!`/`println!` macros with `_print` and `fmt::Write` (src/vga_buffer.rs:154-181), and `print_logo` are locking, concurrency and formatting plumbing.
- src/interrupts.rs, src/lib.rs, src/main.rs, src/resume.rs and tests/stack_overflow.rs are not part of this model. They are CPU exception handlers, boot glue, the keyboard task and a double-fault test.

## Findings

| source | as written | input that shows it | evidently intended | confidence | as-written member | corrected member |
|---|---|---|---|---|---|---|
| src/rtc.rs:101 | `wait_til_not_updating` returns once `byte & 0b01000000 == 0`, testing bit 6 of register A, which is part of the time-base divider field | register A = 0xA6: update in progress (bit 7 set), standard divider 0b010 (bit 6 clear), rate 0b0110; the wait returns at once | test the MC146818 update-in-progress flag, bit 7 (0x80), as the function's name and doc comment say | high on the bit layout; not executed | Rtc.PolledBitMissesUpdateInProgress | Rtc.WaitTilUpdateComplete |
