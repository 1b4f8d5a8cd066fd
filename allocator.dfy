/**
  The kernel heap bootstrap `init_heap`: compute the 4 KiB pages that cover
  the heap window, give each a fresh physical frame with a present and
  writable mapping, and only then hand the window to the heap allocator.

  The page mapper, the frame allocator and the global heap allocator are
  collaborators whose code is not part of this model; each is a small class
  holding just the state `init_heap` observes. Every call `init_heap` makes
  on them is recorded in a ghost event trace, so that ordering can be stated.
*/
module Allocator {
  import opened Wrappers

  /** The size of a page and of a frame (x86-64 4 KiB pages). */
  const PAGE_SIZE: nat := 4096
  /** Virtual address of the first byte of the kernel heap. */
  const HEAP_START: nat := 0x4444_4444_0000
  /** Size of the kernel heap in bytes: 100 KiB. */
  const HEAP_SIZE: nat := 100 * 1024

  /** A virtual page, by number: it covers addresses [number * PAGE_SIZE, (number + 1) * PAGE_SIZE). */
  type Page = nat

  /** A physical frame, by number. */
  datatype Frame = Frame(number: nat)

  datatype PageTableFlag = Present | Writable

  /** The flags of every heap mapping: PRESENT | WRITABLE. */
  const HEAP_FLAGS: set<PageTableFlag> := {Present, Writable}

  /** A page-table entry: the frame a page maps to, with its flags. */
  datatype Mapping = Mapping(frame: Frame, flags: set<PageTableFlag>)

  /** The errors `map_to` reports. */
  datatype MapToError = FrameAllocationFailed | ParentEntryHugePage | PageAlreadyMapped(frame: Frame)

  /** What `init_heap` asks of its collaborators, in order. */
  datatype Event =
    | FrameRequested(answer: Option<Frame>)
    | MapRequested(page: Page, frame: Frame, flags: set<PageTableFlag>)
    | Flushed(page: Page)
    | HeapInitialised(start: nat, size: nat)

  // ---------------------------------------------------------------------------
  // Page arithmetic

  /** `Page::containing_address`: the page an address lies in. */
  function ContainingPage(addr: nat): (p: Page)
    ensures p * PAGE_SIZE <= addr < (p + 1) * PAGE_SIZE
  {
    addr / PAGE_SIZE
  }

  /** `Page::range_inclusive(first, last)`: the pages from `first` to `last`, both included. */
  function PageRangeInclusive(first: Page, last: Page): (pages: seq<Page>)
    ensures |pages| == if last < first then 0 else last - first + 1
    ensures forall i :: 0 <= i < |pages| ==> pages[i] == first + i
  {
    if last < first then [] else seq(last - first + 1, i => first + i)
  }

  /**
    The pages that cover [start, start + size - 1]. The end address is
    computed as start + size - 1, which must not go below zero.
  */
  function HeapPages(start: nat, size: nat): seq<Page>
    requires start + size >= 1
  {
    PageRangeInclusive(ContainingPage(start), ContainingPage(start + size - 1))
  }

  /** Page numbers never decrease as addresses grow. */
  lemma ContainingPageMonotone(a: nat, b: nat)
    requires a <= b
    ensures ContainingPage(a) <= ContainingPage(b)
  {
  }

  /**
    The range starts at the page of the first byte and ends at the page of
    the last byte; every byte of the window lies in a page of the range, and
    every page of the range holds a byte of the window.
  */
  lemma HeapPagesCover(start: nat, size: nat)
    requires size >= 1
    ensures var pages := HeapPages(start, size);
            && |pages| >= 1
            && pages[0] == start / PAGE_SIZE
            && pages[|pages| - 1] == (start + size - 1) / PAGE_SIZE
            && (forall addr :: start <= addr < start + size ==> ContainingPage(addr) in pages)
            && (forall i :: 0 <= i < |pages| ==>
                  pages[i] * PAGE_SIZE < start + size && start < (pages[i] + 1) * PAGE_SIZE)
  {
    var pages := HeapPages(start, size);
    ContainingPageMonotone(start, start + size - 1);
    forall addr | start <= addr < start + size
      ensures ContainingPage(addr) in pages
    {
      ContainingPageMonotone(start, addr);
      ContainingPageMonotone(addr, start + size - 1);
      assert pages[ContainingPage(addr) - ContainingPage(start)] == ContainingPage(addr);
    }
  }

  /** A page-aligned window of whole pages needs exactly size / PAGE_SIZE pages. */
  lemma AlignedHeapPageCount(start: nat, size: nat)
    requires size >= 1 && start % PAGE_SIZE == 0 && size % PAGE_SIZE == 0
    ensures |HeapPages(start, size)| == size / PAGE_SIZE
  {

  }

  /** A page range is in ascending order. */
  lemma HeapPagesAscending(start: nat, size: nat)
    requires start + size >= 1
    ensures Ascending(HeapPages(start, size))
  {
  }

  /** The kernel's heap: page-aligned, 25 pages. */
  lemma KernelHeapPages()
    ensures HEAP_START % PAGE_SIZE == 0
    ensures |HeapPages(HEAP_START, HEAP_SIZE)| == 25
  {

  }

  // ---------------------------------------------------------------------------
  // What init_heap does, as a value

  /** The state after mapping a sequence of pages: outcome, page table, frames left, and the calls made. */
  datatype Run = Run(result: Result<(), MapToError>, table: map<Page, Mapping>,
                     free: seq<Frame>, events: seq<Event>)

  /**
    The loop of `init_heap` from a given state: for each page, ask for a
    frame (failing with FrameAllocationFailed when there is none), ask the
    mapper to map the page to it with PRESENT | WRITABLE, propagate the
    mapper's error if it refuses, flush, and go on. Nothing is undone on
    failure. `faults` holds the pages for which the mapper reports an error.
  */
  function MapPages(pages: seq<Page>, free: seq<Frame>, faults: map<Page, MapToError>,
                    table: map<Page, Mapping>): Run
    decreases |pages|
  {
    if pages == [] then Run(Ok(()), table, free, [])
    else if free == [] then Run(Err(FrameAllocationFailed), table, free, [FrameRequested(None)])
    else
      var page, frame := pages[0], free[0];
      var asked := [FrameRequested(Some(frame)), MapRequested(page, frame, HEAP_FLAGS)];
      if page in faults then Run(Err(faults[page]), table, free[1..], asked)
      else
        var rest := MapPages(pages[1..], free[1..], faults, table[page := Mapping(frame, HEAP_FLAGS)]);
        rest.(events := asked + [Flushed(page)] + rest.events)
  }

  /** How many pages are mapped before the loop stops: it stops at the end, at an empty allocator, or at a refused page. */
  function Progress(pages: seq<Page>, free: seq<Frame>, faults: map<Page, MapToError>): (n: nat)
    ensures n <= |pages| && n <= |free|
    decreases |pages|
  {
    if pages == [] || free == [] || pages[0] in faults then 0
    else 1 + Progress(pages[1..], free[1..], faults)
  }

  /** Facts about Progress: the pages before it are accepted, and it stops for one of three reasons. */
  lemma {:induction false} ProgressStops(pages: seq<Page>, free: seq<Frame>, faults: map<Page, MapToError>)
    ensures var n := Progress(pages, free, faults);
            && (forall i :: 0 <= i < n ==> pages[i] !in faults)
            && (n == |pages| || n == |free| || pages[n] in faults)
    decreases |pages|
  {
    if pages != [] && free != [] && pages[0] !in faults {
      ProgressStops(pages[1..], free[1..], faults);
    }
  }

  /** Strictly increasing, hence duplicate-free. */
  predicate Ascending(pages: seq<Page>) {
    forall i, j :: 0 <= i < j < |pages| ==> pages[i] < pages[j]
  }

  /** `t` maps the first `n` pages to the first `n` frames, PRESENT | WRITABLE. */
  predicate MapsPrefix(t: map<Page, Mapping>, pages: seq<Page>, free: seq<Frame>, n: nat) {
    forall i :: 0 <= i < n && i < |pages| && i < |free| ==>
      pages[i] in t && t[pages[i]] == Mapping(free[i], HEAP_FLAGS)
  }

  /** `t` and `t0` have the same entries outside `pages`. */
  ghost predicate AgreesOutside(t: map<Page, Mapping>, t0: map<Page, Mapping>, pages: seq<Page>) {
    forall p :: p !in pages ==> (p in t <==> p in t0) && (p in t ==> t[p] == t0[p])
  }

  /** The loop touches no entry of the table but those of the pages it mapped (what those entries hold is MapPagesMapsPrefix). */
  lemma {:induction false} MapPagesKeepsOthers(pages: seq<Page>, free: seq<Frame>,
                                               faults: map<Page, MapToError>, table: map<Page, Mapping>)
    ensures AgreesOutside(MapPages(pages, free, faults, table).table, table, pages[..Progress(pages, free, faults)])
    decreases |pages|
  {
    if pages != [] && free != [] && pages[0] !in faults {
      var table' := table[pages[0] := Mapping(free[0], HEAP_FLAGS)];
      var n := Progress(pages, free, faults);
      MapPagesKeepsOthers(pages[1..], free[1..], faults, table');
      var t := MapPages(pages, free, faults, table).table;
      assert t == MapPages(pages[1..], free[1..], faults, table').table;
      assert pages[1..][..n - 1] == pages[1..n];
      forall p | p !in pages[..n]
        ensures (p in t <==> p in table) && (p in t ==> t[p] == table[p])
      {
        assert p != pages[0] && p !in pages[1..n];
      }
    }
  }

  /** With distinct pages, the loop maps the first Progress pages to the first Progress frames, PRESENT | WRITABLE. */
  lemma {:induction false} MapPagesMapsPrefix(pages: seq<Page>, free: seq<Frame>,
                                              faults: map<Page, MapToError>, table: map<Page, Mapping>)
    requires Ascending(pages)
    ensures MapsPrefix(MapPages(pages, free, faults, table).table, pages, free, Progress(pages, free, faults))
    decreases |pages|
  {
    if pages != [] && free != [] && pages[0] !in faults {
      var table' := table[pages[0] := Mapping(free[0], HEAP_FLAGS)];
      var n := Progress(pages, free, faults);
      assert Ascending(pages[1..]);
      MapPagesMapsPrefix(pages[1..], free[1..], faults, table');
      MapPagesKeepsOthers(pages[1..], free[1..], faults, table');
      var t := MapPages(pages, free, faults, table).table;
      assert t == MapPages(pages[1..], free[1..], faults, table').table;
      forall i | 0 <= i < n
        ensures pages[i] in t && t[pages[i]] == Mapping(free[i], HEAP_FLAGS)
      {
        if i > 0 {
          assert pages[i] == pages[1..][i - 1] && free[i] == free[1..][i - 1];
        } else {
          assert pages[0] !in pages[1..][..n - 1];
        }
      }
    }
  }

  /**
    Why the loop stops, with n = Progress: Ok after all pages, with the
    frames after the first n left; FrameAllocationFailed when the frames ran
    out; otherwise exactly the mapper's error for page n, whose frame is
    consumed and not given back.
  */
  lemma {:induction false} MapPagesResult(pages: seq<Page>, free: seq<Frame>,
                                          faults: map<Page, MapToError>, table: map<Page, Mapping>)
    ensures Progress(pages, free, faults) == |pages| ==>
              MapPages(pages, free, faults, table).result == Ok(())
              && MapPages(pages, free, faults, table).free == free[Progress(pages, free, faults)..]
    ensures Progress(pages, free, faults) < |pages| && Progress(pages, free, faults) == |free| ==>
              MapPages(pages, free, faults, table).result == Err(FrameAllocationFailed)
              && MapPages(pages, free, faults, table).free == []
    ensures Progress(pages, free, faults) < |pages| && Progress(pages, free, faults) < |free| ==>
              pages[Progress(pages, free, faults)] in faults
              && MapPages(pages, free, faults, table).result == Err(faults[pages[Progress(pages, free, faults)]])
              && MapPages(pages, free, faults, table).free == free[Progress(pages, free, faults) + 1..]
    decreases |pages|
  {
    if pages != [] && free != [] && pages[0] !in faults {
      var table' := table[pages[0] := Mapping(free[0], HEAP_FLAGS)];
      var n := Progress(pages, free, faults);
      MapPagesResult(pages[1..], free[1..], faults, table');
      assert free[1..][n - 1..] == free[n..];
      if n < |free| {
        assert free[1..][n - 1 + 1..] == free[n + 1..];
      }
      if n < |pages| {
        assert pages[1..][n - 1] == pages[n];
      }
    }
  }

  /**
    The calls the loop makes at the page where it stops: none when every
    page was mapped, the failed frame request when the frames ran out, or
    the frame request and the refused map request when the mapper refused.
  */
  function FailureCalls(pages: seq<Page>, free: seq<Frame>, faults: map<Page, MapToError>): seq<Event> {
    var n := Progress(pages, free, faults);
    if n == |pages| then []
    else if n == |free| then [FrameRequested(None)]
    else [FrameRequested(Some(free[n])), MapRequested(pages[n], free[n], HEAP_FLAGS)]
  }

  /** Mapping a first page changes neither where the loop stops nor how. */
  lemma FailureCallsStep(pages: seq<Page>, free: seq<Frame>, faults: map<Page, MapToError>)
    requires pages != [] && free != [] && pages[0] !in faults
    ensures Progress(pages, free, faults) == Progress(pages[1..], free[1..], faults) + 1
    ensures FailureCalls(pages, free, faults) == FailureCalls(pages[1..], free[1..], faults)
  {

  }

  /** The three calls of a visit that maps `page` to `frame`: take the frame, map the page to it, flush. */
  function VisitCalls(page: Page, frame: Frame): seq<Event> {
    [FrameRequested(Some(frame)), MapRequested(page, frame, HEAP_FLAGS), Flushed(page)]
  }

  /** The calls of the visits that map pages[i] to free[i], one visit after the other. */
  function MappedCalls(pages: seq<Page>, free: seq<Frame>): (calls: seq<Event>)
    requires |pages| <= |free|
    ensures |calls| == 3 * |pages|
    decreases |pages|
  {
    if pages == [] then [] else VisitCalls(pages[0], free[0]) + MappedCalls(pages[1..], free[1..])
  }

  /**
    The loop's calls from this state are exactly one visit per mapped page,
    each taking one frame, mapping the page to it and flushing, followed by
    the failing call(s), and nothing else.
  */
  predicate TraceIs(pages: seq<Page>, free: seq<Frame>, faults: map<Page, MapToError>,
                    table: map<Page, Mapping>) {
    var n := Progress(pages, free, faults);
    MapPages(pages, free, faults, table).events == MappedCalls(pages[..n], free[..n]) + FailureCalls(pages, free, faults)
  }

  /** TraceIs when the first page already stops the loop. */
  lemma TraceAtStop(pages: seq<Page>, free: seq<Frame>, faults: map<Page, MapToError>,
                    table: map<Page, Mapping>)
    requires pages == [] || free == [] || pages[0] in faults
    ensures TraceIs(pages, free, faults, table)
  {
  }

  /** The calls of a turn of the loop that maps a page: its visit, then the calls of the rest of the loop. */
  lemma MapPagesVisit(pages: seq<Page>, free: seq<Frame>, faults: map<Page, MapToError>, table: map<Page, Mapping>)
    requires pages != [] && free != [] && pages[0] !in faults
    ensures MapPages(pages, free, faults, table).events
         == VisitCalls(pages[0], free[0])
            + MapPages(pages[1..], free[1..], faults, table[pages[0] := Mapping(free[0], HEAP_FLAGS)]).events
  {
  }

  /** The visits of the first n pages are the visit of the first page, then those of the next n - 1. */
  lemma MappedCallsCons(pages: seq<Page>, free: seq<Frame>, n: nat)
    requires 1 <= n <= |pages| && n <= |free|
    ensures MappedCalls(pages[..n], free[..n])
         == VisitCalls(pages[0], free[0]) + MappedCalls(pages[1..][..n - 1], free[1..][..n - 1])
  {
    assert pages[..n][1..] == pages[1..][..n - 1] && free[..n][1..] == free[1..][..n - 1];
  }

  /** TraceIs carries over a page the loop maps. */
  lemma TraceStep(pages: seq<Page>, free: seq<Frame>, faults: map<Page, MapToError>,
                  table: map<Page, Mapping>)
    requires pages != [] && free != [] && pages[0] !in faults
    requires TraceIs(pages[1..], free[1..], faults, table[pages[0] := Mapping(free[0], HEAP_FLAGS)])
    ensures TraceIs(pages, free, faults, table)
  {
    FailureCallsStep(pages, free, faults);
    MapPagesVisit(pages, free, faults, table);
    var n := Progress(pages, free, faults);
    MappedCallsCons(pages, free, n);
    var visit := VisitCalls(pages[0], free[0]);
    var later := MappedCalls(pages[1..][..n - 1], free[1..][..n - 1]);
    var tail := FailureCalls(pages, free, faults);
    assert MapPages(pages, free, faults, table).events == visit + (later + tail);
    assert visit + (later + tail) == (visit + later) + tail;
  }

  /**
    The loop's calls, exactly: for each page it maps, in range order, one
    frame request answered with the next free frame, the map request of the
    page to that frame with PRESENT | WRITABLE, and the flush; then the
    failing call(s), and nothing after them.
  */
  lemma {:induction false} MapPagesTrace(pages: seq<Page>, free: seq<Frame>,
                                         faults: map<Page, MapToError>, table: map<Page, Mapping>)
    ensures TraceIs(pages, free, faults, table)
    decreases |pages|
  {
    if pages != [] && free != [] && pages[0] !in faults {
      MapPagesTrace(pages[1..], free[1..], faults, table[pages[0] := Mapping(free[0], HEAP_FLAGS)]);
      TraceStep(pages, free, faults, table);
    } else {
      TraceAtStop(pages, free, faults, table);
    }
  }

  /** The pages named by the map requests of a trace, in order. */
  function MappedPages(events: seq<Event>): seq<Page> {
    if events == [] then []
    else if events[0].MapRequested? then [events[0].page] + MappedPages(events[1..])
    else MappedPages(events[1..])
  }

  /** A visit names its page in exactly one map request. */
  lemma MappedPagesOfVisit(page: Page, frame: Frame)
    ensures MappedPages(VisitCalls(page, frame)) == [page]
  {
    var visit := VisitCalls(page, frame);
    assert visit[1..][1..] == [Flushed(page)] && visit[1..][1..][1..] == [];
    assert MappedPages(visit[1..][1..]) == [];
  }

  /** The visits map exactly the pages they are given. */
  lemma {:induction false} MappedPagesOfVisits(pages: seq<Page>, free: seq<Frame>)
    requires |pages| <= |free|
    ensures MappedPages(MappedCalls(pages, free)) == pages
    decreases |pages|
  {
    if pages != [] {
      var visit := VisitCalls(pages[0], free[0]);
      MappedPagesOfVisits(pages[1..], free[1..]);
      MappedPagesAppend(visit, MappedCalls(pages[1..], free[1..]));
      MappedPagesOfVisit(pages[0], free[0]);
    }
  }

  /**
    The loop asks to map exactly the first Progress pages, in the order
    given (ascending for a page range), and then the page the mapper
    refused, if it refused one.
  */
  lemma MapPagesVisitsInOrder(pages: seq<Page>, free: seq<Frame>,
                              faults: map<Page, MapToError>, table: map<Page, Mapping>)
    ensures var n := Progress(pages, free, faults);
            MappedPages(MapPages(pages, free, faults, table).events)
              == pages[..n] + (if n < |pages| && n < |free| then [pages[n]] else [])
  {
    var n := Progress(pages, free, faults);
    MapPagesTrace(pages, free, faults, table);
    MappedPagesOfVisits(pages[..n], free[..n]);
    var tail := FailureCalls(pages, free, faults);
    MappedPagesAppend(MappedCalls(pages[..n], free[..n]), tail);
    if n < |pages| && n < |free| {
      assert tail[1..] == [MapRequested(pages[n], free[n], HEAP_FLAGS)] && tail[1..][1..] == [];
      assert MappedPages(tail[1..]) == [pages[n]];
      assert MappedPages(tail) == [pages[n]];
    } else if n < |pages| {
      assert tail == [FrameRequested(None)] && tail[1..] == [];
      assert MappedPages(tail) == [];
    } else {
      assert tail == [];
    }
  }

  /** Each map request of `ev` comes right after a frame request that returned exactly its frame, and carries PRESENT | WRITABLE. */
  predicate FrameBeforeEachMap(ev: seq<Event>) {
    forall j :: 0 <= j < |ev| && ev[j].MapRequested? ==>
      j >= 1 && ev[j - 1] == FrameRequested(Some(ev[j].frame)) && ev[j].flags == HEAP_FLAGS
  }

  /** Each granted frame request of `ev` is followed at once by a map request for exactly that frame. */
  predicate MapAfterEachFrame(ev: seq<Event>) {
    forall j :: 0 <= j < |ev| && ev[j].FrameRequested? && ev[j].answer.Some? ==>
      j + 1 < |ev| && ev[j + 1].MapRequested? && ev[j + 1].frame == ev[j].answer.value
  }

  /** `ev` holds no initialisation of the heap allocator. */
  predicate NoHeapInit(ev: seq<Event>) {
    forall j :: 0 <= j < |ev| ==> !ev[j].HeapInitialised?
  }

  /** A visit in front of a trace keeps FrameBeforeEachMap. */
  lemma FrameBeforeEachMapVisit(page: Page, frame: Frame, rest: seq<Event>)
    requires FrameBeforeEachMap(rest)
    ensures FrameBeforeEachMap(VisitCalls(page, frame) + rest)
  {
    var ev := VisitCalls(page, frame) + rest;
    forall j | 3 <= j < |ev| && ev[j].MapRequested?
      ensures ev[j - 1] == FrameRequested(Some(ev[j].frame)) && ev[j].flags == HEAP_FLAGS
    {
      assert ev[j] == rest[j - 3];
      assert ev[j - 1] == rest[j - 4];
    }
  }

  /** A visit in front of a trace keeps MapAfterEachFrame. */
  lemma MapAfterEachFrameVisit(page: Page, frame: Frame, rest: seq<Event>)
    requires MapAfterEachFrame(rest)
    ensures MapAfterEachFrame(VisitCalls(page, frame) + rest)
  {
    var ev := VisitCalls(page, frame) + rest;
    forall j | 3 <= j < |ev| && ev[j].FrameRequested? && ev[j].answer.Some?
      ensures j + 1 < |ev| && ev[j + 1].MapRequested? && ev[j + 1].frame == ev[j].answer.value
    {
      assert ev[j] == rest[j - 3];
      assert j - 2 < |rest| && ev[j + 1] == rest[j - 2];
    }
  }

  /** In the loop's trace each map request comes right after the frame request that returned its frame, and carries PRESENT | WRITABLE. */
  lemma {:induction false} MapPagesFrameBeforeMap(pages: seq<Page>, free: seq<Frame>,
                                                  faults: map<Page, MapToError>, table: map<Page, Mapping>)
    ensures FrameBeforeEachMap(MapPages(pages, free, faults, table).events)
    decreases |pages|
  {
    if pages != [] && free != [] && pages[0] !in faults {
      var table' := table[pages[0] := Mapping(free[0], HEAP_FLAGS)];
      MapPagesFrameBeforeMap(pages[1..], free[1..], faults, table');
      MapPagesVisit(pages, free, faults, table);
      FrameBeforeEachMapVisit(pages[0], free[0], MapPages(pages[1..], free[1..], faults, table').events);
    }
  }

  /**
    In the loop's trace each frame that is granted is mapped at once: no
    visit takes a second frame before its map request.
  */
  lemma {:induction false} MapPagesMapAfterFrame(pages: seq<Page>, free: seq<Frame>,
                                                 faults: map<Page, MapToError>, table: map<Page, Mapping>)
    ensures MapAfterEachFrame(MapPages(pages, free, faults, table).events)
    decreases |pages|
  {
    if pages != [] && free != [] && pages[0] !in faults {
      var table' := table[pages[0] := Mapping(free[0], HEAP_FLAGS)];
      MapPagesMapAfterFrame(pages[1..], free[1..], faults, table');
      MapPagesVisit(pages, free, faults, table);
      MapAfterEachFrameVisit(pages[0], free[0], MapPages(pages[1..], free[1..], faults, table').events);
    }
  }

  /** The loop never initialises the heap allocator. */
  lemma {:induction false} MapPagesLeavesHeapAlone(pages: seq<Page>, free: seq<Frame>,
                                                   faults: map<Page, MapToError>, table: map<Page, Mapping>)
    ensures NoHeapInit(MapPages(pages, free, faults, table).events)
    decreases |pages|
  {
    if pages != [] && free != [] && pages[0] !in faults {
      var page, frame := pages[0], free[0];
      var table' := table[page := Mapping(frame, HEAP_FLAGS)];
      var rest := MapPages(pages[1..], free[1..], faults, table').events;
      MapPagesLeavesHeapAlone(pages[1..], free[1..], faults, table');
      var ev := [FrameRequested(Some(frame)), MapRequested(page, frame, HEAP_FLAGS), Flushed(page)] + rest;
      assert MapPages(pages, free, faults, table).events == ev;
      forall j | 3 <= j < |ev|
        ensures !ev[j].HeapInitialised?
      {
        assert ev[j] == rest[j - 3];
      }
    }
  }

  lemma {:induction false} MappedPagesAppend(a: seq<Event>, b: seq<Event>)
    ensures MappedPages(a + b) == MappedPages(a) + MappedPages(b)
    decreases |a|
  {
    if a == [] {
      assert a + b == b;
    } else {
      assert (a + b)[0] == a[0] && (a + b)[1..] == a[1..] + b;
      MappedPagesAppend(a[1..], b);
    }
  }

  /** The run followed, on success only, by the initialisation of the heap allocator. */
  function ThenInitHeap(run: Run): Run {
    if run.result.Ok? then run.(events := run.events + [HeapInitialised(HEAP_START, HEAP_SIZE)])
    else run
  }

  /**
    `init_heap` over any ascending page sequence: it succeeds exactly when
    every page got a frame and a mapping; then every page is mapped PRESENT |
    WRITABLE and the last call is the single initialisation of the heap
    allocator with (HEAP_START, HEAP_SIZE); on failure the allocator is
    never initialised.
  */
  lemma InitHeapOrdering(pages: seq<Page>, free: seq<Frame>, faults: map<Page, MapToError>,
                         table: map<Page, Mapping>)
    requires Ascending(pages)
    ensures var run := ThenInitHeap(MapPages(pages, free, faults, table));
            && (run.result.Ok? <==> Progress(pages, free, faults) == |pages|)
            && (run.result.Ok? ==>
                  && (forall p :: p in pages ==> p in run.table && run.table[p].flags == HEAP_FLAGS)
                  && |run.events| >= 1
                  && run.events[|run.events| - 1] == HeapInitialised(HEAP_START, HEAP_SIZE)
                  && NoHeapInit(run.events[..|run.events| - 1]))
            && (run.result.Err? ==> NoHeapInit(run.events))
  {
    MapPagesMapsPrefix(pages, free, faults, table);
    MapPagesResult(pages, free, faults, table);
    MapPagesLeavesHeapAlone(pages, free, faults, table);
    var run := MapPages(pages, free, faults, table);
    if run.result.Ok? {
      forall p | p in pages
        ensures p in run.table && run.table[p].flags == HEAP_FLAGS
      {
        var i :| 0 <= i < |pages| && pages[i] == p;
      }
    }
  }

  /**
    With no refused page and fewer frames than pages, the loop fails with
    FrameAllocationFailed after mapping one page per available frame.
  */
  lemma FrameShortage(pages: seq<Page>, free: seq<Frame>, table: map<Page, Mapping>)
    requires Ascending(pages) && |free| < |pages|
    ensures var run := ThenInitHeap(MapPages(pages, free, map[], table));
            && run.result == Err(FrameAllocationFailed)
            && run.free == []
            && forall i :: 0 <= i < |free| ==> pages[i] in run.table && run.table[pages[i]] == Mapping(free[i], HEAP_FLAGS)
  {
    ProgressStops(pages, free, map[]);
    MapPagesMapsPrefix(pages, free, map[], table);
    MapPagesResult(pages, free, map[], table);
  }

  /**
    For the kernel's heap: when `init_heap` succeeds, every byte of
    [HEAP_START, HEAP_START + HEAP_SIZE) lies in a page mapped PRESENT |
    WRITABLE.
  */
  lemma KernelHeapMapped(free: seq<Frame>, faults: map<Page, MapToError>, table: map<Page, Mapping>)
    ensures var run := ThenInitHeap(MapPages(HeapPages(HEAP_START, HEAP_SIZE), free, faults, table));
            run.result.Ok? ==>
              forall addr :: HEAP_START <= addr < HEAP_START + HEAP_SIZE ==>
                ContainingPage(addr) in run.table && run.table[ContainingPage(addr)].flags == HEAP_FLAGS
  {
    var pages := HeapPages(HEAP_START, HEAP_SIZE);
    HeapPagesAscending(HEAP_START, HEAP_SIZE);
    HeapPagesCover(HEAP_START, HEAP_SIZE);
    InitHeapOrdering(pages, free, faults, table);
  }

  /** For the kernel's heap: 25 free frames and no refused page are enough, and the first 25 frames are used in order. */
  lemma KernelHeapSucceeds(free: seq<Frame>, table: map<Page, Mapping>)
    requires |free| >= 25
    ensures var pages := HeapPages(HEAP_START, HEAP_SIZE);
            var run := ThenInitHeap(MapPages(pages, free, map[], table));
            && |pages| == 25
            && run.result == Ok(())
            && run.free == free[25..]
            && forall i :: 0 <= i < 25 ==>
                 pages[i] == HEAP_START / PAGE_SIZE + i && pages[i] in run.table && run.table[pages[i]] == Mapping(free[i], HEAP_FLAGS)
  {
    var pages := HeapPages(HEAP_START, HEAP_SIZE);
    KernelHeapPages();
    HeapPagesAscending(HEAP_START, HEAP_SIZE);
    ProgressStops(pages, free, map[]);
    MapPagesMapsPrefix(pages, free, map[], table);
    MapPagesResult(pages, free, map[], table);
  }

  // ---------------------------------------------------------------------------
  // The collaborators and init_heap itself

  /** A frame allocator that hands out the frames of `free` in order and nothing once they are gone. */
  class FrameAllocator {
    var free: seq<Frame>

    constructor (frames: seq<Frame>)
      ensures free == frames
    {
      free := frames;
    }

    /** `allocate_frame`. */
    method AllocateFrame() returns (frame: Option<Frame>)
      modifies this
      ensures old(free) == [] ==> frame == None && free == []
      ensures old(free) != [] ==> frame == Some(old(free)[0]) && free == old(free)[1..]
    {
      if free == [] {
        frame := None;
      } else {
        frame := Some(free[0]);
        free := free[1..];
      }
    }
  }

  /** A page mapper: the page table, and the pages for which `map_to` reports an error. */
  class Mapper {
    var table: map<Page, Mapping>
    const faults: map<Page, MapToError>

    constructor (initial: map<Page, Mapping>, refused: map<Page, MapToError>)
      ensures table == initial && faults == refused
    {
      table := initial;
      faults := refused;
    }

    /** `map_to`: install page -> frame with `flags`, unless the page is one the mapper refuses. */
    method MapTo(page: Page, frame: Frame, flags: set<PageTableFlag>) returns (r: Result<(), MapToError>)
      modifies this
      ensures page in faults ==> r == Err(faults[page]) && table == old(table)
      ensures page !in faults ==> r == Ok(()) && table == old(table)[page := Mapping(frame, flags)]
    {
      if page in faults {
        r := Err(faults[page]);
      } else {
        table := table[page := Mapping(frame, flags)];
        r := Ok(());
      }
    }
  }

  /** The global heap allocator: empty until `init` gives it a region. */
  class LockedHeap {
    var region: Option<(nat, nat)>

    /** `LockedHeap::empty()`. */
    constructor Empty()
      ensures region == None
    {
      region := None;
    }

    /** `init(start, size)`: may be called once, on an empty heap. */
    method Init(start: nat, size: nat)
      requires region == None
      modifies this
      ensures region == Some((start, size))
    {
      region := Some((start, size));
    }
  }

  /** `run` with the calls `earlier` made before it. */
  function After(earlier: seq<Event>, run: Run): Run {
    run.(events := earlier + run.events)
  }

  /** One turn of the loop that maps a page, in terms of the rest of the loop. */
  lemma MapPagesStep(pages: seq<Page>, free: seq<Frame>, faults: map<Page, MapToError>,
                     table: map<Page, Mapping>, earlier: seq<Event>)
    requires pages != [] && free != [] && pages[0] !in faults
    ensures After(earlier, MapPages(pages, free, faults, table))
         == After(earlier + [FrameRequested(Some(free[0])), MapRequested(pages[0], free[0], HEAP_FLAGS), Flushed(pages[0])],
                  MapPages(pages[1..], free[1..], faults, table[pages[0] := Mapping(free[0], HEAP_FLAGS)]))
  {
  }

  /** The loop's turn when the frame allocator is exhausted: it stops with FrameAllocationFailed. */
  lemma MapPagesNoFrame(pages: seq<Page>, free: seq<Frame>, faults: map<Page, MapToError>,
                        table: map<Page, Mapping>, earlier: seq<Event>)
    requires pages != [] && free == []
    ensures After(earlier, MapPages(pages, free, faults, table))
         == Run(Err(FrameAllocationFailed), table, free, earlier + [FrameRequested(None)])
  {
  }

  /** The loop's turn when the mapper refuses the page: it stops with the mapper's error. */
  lemma MapPagesRefused(pages: seq<Page>, free: seq<Frame>, faults: map<Page, MapToError>,
                        table: map<Page, Mapping>, earlier: seq<Event>)
    requires pages != [] && free != [] && pages[0] in faults
    ensures After(earlier, MapPages(pages, free, faults, table))
         == Run(Err(faults[pages[0]]), table, free[1..],
                earlier + [FrameRequested(Some(free[0])), MapRequested(pages[0], free[0], HEAP_FLAGS)])
  {
  }

  /**
    The `for page in page_range` loop of `init_heap`: for each page in
    turn, take a frame, map the page to it PRESENT | WRITABLE, flush; stop
    at the first error. Its calls, result and effect on the table and the
    frames are exactly MapPages from the current state.
  */
  method MapHeapPages(pages: seq<Page>, mapper: Mapper, frameAllocator: FrameAllocator)
    returns (r: Result<(), MapToError>, ghost events: seq<Event>)
    modifies mapper, frameAllocator
    ensures var run := MapPages(pages, old(frameAllocator.free), mapper.faults, old(mapper.table));
            && r == run.result && events == run.events
            && mapper.table == run.table && frameAllocator.free == run.free
  {
    ghost var whole := MapPages(pages, frameAllocator.free, mapper.faults, mapper.table);
    events := [];
    assert whole == After(events, whole);
    for i := 0 to |pages|
      invariant whole == After(events, MapPages(pages[i..], frameAllocator.free, mapper.faults, mapper.table))
    {
      var page := pages[i];
      ghost var free, table := frameAllocator.free, mapper.table;
      var frame := frameAllocator.AllocateFrame();
      if frame.None? {
        MapPagesNoFrame(pages[i..], free, mapper.faults, table, events);
        events := events + [FrameRequested(frame)];
        return Err(FrameAllocationFailed), events;
      }
      var flags := HEAP_FLAGS;
      var mapped := mapper.MapTo(page, frame.value, flags);
      if mapped.Err? {
        MapPagesRefused(pages[i..], free, mapper.faults, table, events);
        events := events + [FrameRequested(frame), MapRequested(page, frame.value, flags)];
        return Err(mapped.error), events;
      }
      MapPagesStep(pages[i..], free, mapper.faults, table, events);
      assert pages[i..][1..] == pages[i + 1..];
      events := events + [FrameRequested(frame), MapRequested(page, frame.value, flags), Flushed(page)];
    }
    assert pages[|pages|..] == [];
    r := Ok(());
  }

  /**
    `init_heap`: the calls it makes, the page table and frames it leaves and
    its result are those of MapPages over the heap pages followed by
    ThenInitHeap, and the heap allocator is initialised with (HEAP_START,
    HEAP_SIZE) exactly when it succeeds.
  */
  method InitHeap(mapper: Mapper, frameAllocator: FrameAllocator, heap: LockedHeap)
    returns (r: Result<(), MapToError>, ghost events: seq<Event>)
    requires heap.region == None
    modifies mapper, frameAllocator, heap
    ensures var run := ThenInitHeap(MapPages(HeapPages(HEAP_START, HEAP_SIZE),
                                             old(frameAllocator.free), mapper.faults, old(mapper.table)));
            && r == run.result && events == run.events
            && mapper.table == run.table && frameAllocator.free == run.free
    ensures heap.region == if r.Ok? then Some((HEAP_START, HEAP_SIZE)) else None
  {
    var heapStart, heapSize := HEAP_START, HEAP_SIZE;
    var heapStartPage := ContainingPage(heapStart);
    var heapEndPage := ContainingPage(heapStart + heapSize - 1);
    var pages := PageRangeInclusive(heapStartPage, heapEndPage);
    r, events := MapHeapPages(pages, mapper, frameAllocator);
    if r.Err? {
      return;
    }
    heap.Init(heapStart, heapSize);
    events := events + [HeapInitialised(HEAP_START, HEAP_SIZE)];
  }
}
