/**
 * The paged read of the Hardware Trace Macro dump file.
 *
 * Every read of the "trace" file splits the file position into a page and an
 * offset, asks the hypervisor to dump one whole page of trace data into the
 * single shared page buffer (using the four selector values as they are at
 * that moment), sorts the hypervisor status into proceed / end of stream /
 * -EINVAL, and on the proceed path hands bytes of the buffer to the caller
 * and advances the file position.
 *
 * `ReadSpec` states the outcome of one read as a function of the position,
 * the count, the hypervisor status and the buffer contents after the fetch;
 * `DumpFile.Read` is the imperative read and is proved against it.
 */
module HtmDump {
  import opened HCall
  import opened Paging
  import opened LibFs
  import opened Errno

  newtype u32 = x: int | 0 <= x < 0x1_0000_0000

  /** Largest value of the signed 64-bit file position. */
  const LLONG_MAX: int := 0x7fff_ffff_ffff_ffff

  // ---------------------------------------------------------------------
  // Status classification
  // ---------------------------------------------------------------------

  /** The three ways the read continues after the hypervisor call. */
  datatype Outcome = Proceed | EndOfStream | Invalid

  /**
   * The status switch of the read. H_SUCCESS and H_PARTIAL go on to the copy,
   * H_NOT_AVAILABLE ends the stream, every busy, parameter, state and
   * authority code fails; the switch has no default arm, so a code it does
   * not name falls through to the copy as well.
   */
  function Classify(s: Status): (o: Outcome)
    ensures o == EndOfStream <==> s == NotAvailable
    ensures o == Proceed <==> s.Success? || s.Partial? || s.Other?
    ensures o == Invalid <==> s.Busy? || s.LongBusy? || s.Parameter? || s.BadParam? || s.State? || s.Authority?
  {
    match s
    case Success | Partial => Proceed
    case NotAvailable => EndOfStream
    case Busy | LongBusy(_) => Invalid
    case Parameter | BadParam(_) => Invalid
    case State | Authority => Invalid
    case Other(_) => Proceed
  }

  /** The raw status values that make the read fail with -EINVAL, as the case labels list them. */
  const EinvalCodes: set<int> :=
    {1, 9900, 9901, 9902, 9903, 9904, 9905, -4, -55, -56, -57, -58, -59, -75, -10}

  /** Classification of a raw hypervisor status, stated against the list of case labels. */
  lemma ClassifyRaw(rc: int)
    ensures Classify(Decode(rc)) == Invalid <==> rc in EinvalCodes
    ensures Classify(Decode(rc)) == EndOfStream <==> rc == H_NOT_AVAILABLE
    ensures Classify(Decode(rc)) == Proceed <==> rc !in EinvalCodes && rc != H_NOT_AVAILABLE
  {
  }

  /** A busy status is not retried, whatever wait it suggests: it fails like a parameter error. */
  lemma BusyIsNotRetried(w: WaitOrder)
    ensures Classify(LongBusy(w)) == Classify(Busy) == Classify(Parameter) == Invalid
  {
  }

  // ---------------------------------------------------------------------
  // The read as a function
  // ---------------------------------------------------------------------

  /**
   * `read_size = min(count, available)` with `available = BUFFER_SIZE - offset`:
   * the cursor advance, never past the end of the fetched page.
   */
  function ReadSize(count: nat, offset: nat): (n: nat)
    requires offset < BUFFER_SIZE
    ensures n <= count && offset + n <= BUFFER_SIZE
    ensures n == count || offset + n == BUFFER_SIZE
  {
    var available := BUFFER_SIZE - offset;
    if count < available then count else available
  }

  /** What one read returns, the bytes it hands to the caller, and how far it moves the cursor. */
  datatype ReadResult = ReadResult(ret: int, out: seq<bv8>, advance: nat)

  /**
   * The read, as the handler computes it: `pos` is the file position before
   * the call, `rc` the hypervisor status and `page` the buffer after the fetch.
   * On the copy path the cursor moves by `read_size`, while the return value
   * and the bytes come from `simple_read_from_buffer` called with position
   * `offset` and limit `available`.
   */
  function ReadSpec(pos: nat, count: nat, rc: int, page: seq<bv8>): (r: ReadResult)
    requires |page| == BUFFER_SIZE
    // a failed read leaves the cursor where it was and delivers nothing
    ensures Classify(Decode(rc)) == EndOfStream ==> r == ReadResult(0, [], 0)
    ensures Classify(Decode(rc)) == Invalid ==> r == ReadResult(-EINVAL, [], 0)
    // the cursor never moves past the end of the page that was fetched
    ensures r.advance <= count && Split(pos).offset + r.advance <= BUFFER_SIZE
    ensures Classify(Decode(rc)) == Proceed ==>
              && (r.advance == count || Split(pos).offset + r.advance == BUFFER_SIZE)
              && 0 <= r.ret <= r.advance && |r.out| == r.ret
              && r.out == page[Split(pos).offset..Split(pos).offset + r.ret]
    // the copy starts `offset` into a limit that already excludes `offset`, so
    // at most BUFFER_SIZE - 2 * offset bytes come back, and none past mid-page
    ensures Classify(Decode(rc)) == Proceed ==>
              r.ret == if count == 0 || 2 * Split(pos).offset >= BUFFER_SIZE then 0
                       else if count < BUFFER_SIZE - 2 * Split(pos).offset then count
                       else BUFFER_SIZE - 2 * Split(pos).offset
  {
    var w := Split(pos);
    match Classify(Decode(rc))
    case EndOfStream => ReadResult(0, [], 0)
    case Invalid => ReadResult(-EINVAL, [], 0)
    case Proceed =>
      var available := BUFFER_SIZE - w.offset;
      var readSize := ReadSize(count, w.offset);
      var c := SimpleReadFromBuffer(count, w.offset, page, available);
      ReadResult(c.ret, c.data, readSize)
  }

  /**
   * On the copy path the number returned equals the cursor advance only at
   * the start of a page or when `count` is small: the position `offset` is
   * counted twice, once in the limit `available` and once as the start.
   */
  lemma ReturnMatchesAdvanceIff(pos: nat, count: nat, rc: int, page: seq<bv8>)
    requires |page| == BUFFER_SIZE && Classify(Decode(rc)) == Proceed
    ensures ReadSpec(pos, count, rc, page).ret == ReadSpec(pos, count, rc, page).advance
            <==> count == 0 || Split(pos).offset == 0 || count + 2 * Split(pos).offset <= BUFFER_SIZE
  {
  }

  /** Reading at 12298 with a large count moves the cursor 4086 bytes but returns only 4076. */
  lemma ReadSkipsBytes(page: seq<bv8>)
    requires |page| == BUFFER_SIZE
    ensures ReadSpec(12298, 10000, H_SUCCESS, page).advance == 4086
    ensures ReadSpec(12298, 10000, H_SUCCESS, page).ret == 4076
  {
    assert Split(12298).offset == 10;
  }

  /** In the second half of a page a successful read reports end of file but still moves the cursor. */
  lemma ReadEndsEarly(page: seq<bv8>)
    requires |page| == BUFFER_SIZE
    ensures ReadSpec(2048, 1, H_SUCCESS, page) == ReadResult(0, [], 1)
  {
    assert Split(2048).offset == 2048;
  }

  /**
   * The read as evidently intended: the copy is limited by the whole page, so
   * the caller receives exactly the bytes the cursor moves over.
   */
  function IntendedReadSpec(pos: nat, count: nat, rc: int, page: seq<bv8>): (r: ReadResult)
    requires |page| == BUFFER_SIZE
    ensures Classify(Decode(rc)) != Proceed ==> r == ReadSpec(pos, count, rc, page)
    ensures Classify(Decode(rc)) == Proceed ==>
              && r.ret == r.advance == ReadSize(count, Split(pos).offset)
              && r.out == page[Split(pos).offset..Split(pos).offset + r.advance]
  {
    var w := Split(pos);
    match Classify(Decode(rc))
    case EndOfStream => ReadResult(0, [], 0)
    case Invalid => ReadResult(-EINVAL, [], 0)
    case Proceed =>
      var readSize := ReadSize(count, w.offset);
      var c := SimpleReadFromBuffer(count, w.offset, page, BUFFER_SIZE);
      ReadResult(c.ret, c.data, readSize)
  }

  /** A slice of a slice is a slice of the whole. */
  lemma SliceOfSlice(s: seq<bv8>, a: nat, b: nat, i: nat, j: nat)
    requires a <= b <= |s| && i <= j <= b - a
    ensures s[a..b][i..j] == s[a + i..a + j]
  {
    assert forall k :: 0 <= k < j - i ==> s[a..b][i..j][k] == s[a + i + k];
  }

  /**
   * When the hypervisor fills the buffer with the page of `trace` that was
   * asked for, a successful read hands over the trace bytes from the old
   * position onwards; but it reports `ret` of them while the cursor moves
   * `advance`, so the bytes in between are never delivered.
   */
  lemma {:induction false} ReadDeliversTrace(pos: nat, count: nat, rc: int, trace: seq<bv8>)
    requires Split(pos).page + BUFFER_SIZE <= |trace| && Classify(Decode(rc)) == Proceed
    ensures var r := ReadSpec(pos, count, rc, trace[Split(pos).page..Split(pos).page + BUFFER_SIZE]);
            pos + r.ret <= pos + r.advance <= |trace| && r.out == trace[pos..pos + r.ret]
  {
    var w := Split(pos);
    var page := trace[w.page..w.page + BUFFER_SIZE];
    var r := ReadSpec(pos, count, rc, page);
    assert r.out == page[w.offset..w.offset + r.ret];
    SliceOfSlice(trace, w.page, w.page + BUFFER_SIZE, w.offset, w.offset + r.ret);
  }

  /** Under the intended read, the bytes handed over are exactly those the cursor moves across. */
  lemma {:induction false} IntendedReadDeliversTrace(pos: nat, count: nat, rc: int, trace: seq<bv8>)
    requires Split(pos).page + BUFFER_SIZE <= |trace| && Classify(Decode(rc)) == Proceed
    ensures var r := IntendedReadSpec(pos, count, rc, trace[Split(pos).page..Split(pos).page + BUFFER_SIZE]);
            pos + r.advance <= |trace| && r.out == trace[pos..pos + r.advance]
  {
    var w := Split(pos);
    var page := trace[w.page..w.page + BUFFER_SIZE];
    var r := IntendedReadSpec(pos, count, rc, page);
    assert r.out == page[w.offset..w.offset + r.advance];
    SliceOfSlice(trace, w.page, w.page + BUFFER_SIZE, w.offset, w.offset + r.advance);
  }

  /**
   * After a successful read the next read fetches the same page, or the next
   * one exactly when this read ran to the end of its page.
   */
  lemma NextReadPage(pos: nat, count: nat, rc: int, page: seq<bv8>)
    requires |page| == BUFFER_SIZE
    ensures var r := ReadSpec(pos, count, rc, page);
            Split(pos + r.advance).page
              == if Split(pos).offset + r.advance == BUFFER_SIZE then Split(pos).page + BUFFER_SIZE
                 else Split(pos).page
  {
    var r := ReadSpec(pos, count, rc, page);
    var w := Split(pos);
    if w.offset + r.advance == BUFFER_SIZE {
      SplitSamePage(w.page + BUFFER_SIZE, pos + r.advance);
    } else {
      SplitSamePage(pos, pos + r.advance);
    }
  }

  // ---------------------------------------------------------------------
  // The hypervisor call
  // ---------------------------------------------------------------------

  /**
   * One H_HTM dump request: the four selectors, the length to dump and the
   * page-aligned offset into the trace. (The destination is always the
   * physical address of the shared buffer.)
   */
  datatype FetchRequest = FetchRequest(
    nodeIndex: u32, nodalChipIndex: u32, coreIndexOnChip: u32, htmType: u32,
    length: nat, page: nat)

  /** What the hypervisor does with a request: the status and the bytes it writes to the buffer. */
  datatype Reply = Reply(rc: int, data: seq<bv8>)

  /** The buffer after the hypervisor wrote `data` at its start (at most one buffer's worth). */
  function Overlay(prev: seq<bv8>, data: seq<bv8>): (r: seq<bv8>)
    ensures |r| == |prev|
    ensures forall i :: 0 <= i < |r| ==> r[i] == if i < |data| then data[i] else prev[i]
  {
    if |data| >= |prev| then data[..|prev|] else data + prev[|data|..]
  }

  /** The four debugfs files that set a selector. */
  datatype Selector = NodeIndex | NodalChipIndex | CoreIndexOnChip | HtmType

  // ---------------------------------------------------------------------
  // The trace file
  // ---------------------------------------------------------------------

  /**
   * The state the read works on: the file position, the one shared page
   * buffer, the four selector globals, and (ghost) the log of every request
   * sent to the hypervisor.
   */
  class DumpFile {
    var pos: int
    const buf: array<bv8>
    var nodeIndex: u32
    var nodalChipIndex: u32
    var coreIndexOnChip: u32
    var htmType: u32
    ghost var fetches: seq<FetchRequest>

    ghost predicate Valid()
      reads this
    {
      buf.Length == BUFFER_SIZE && 0 <= pos <= LLONG_MAX
    }

    /** The selectors start at 0, the position at the start of the trace. */
    constructor ()
      ensures Valid() && fresh(buf)
      ensures pos == 0 && fetches == []
      ensures nodeIndex == 0 && nodalChipIndex == 0 && coreIndexOnChip == 0 && htmType == 0
    {
      pos := 0;
      buf := new bv8[BUFFER_SIZE];
      nodeIndex, nodalChipIndex, coreIndexOnChip, htmType := 0, 0, 0, 0;
      fetches := [];
    }

    /** The full-page request for `page` with the selectors as they are now. */
    function RequestFor(page: nat): FetchRequest
      reads this
    {
      FetchRequest(nodeIndex, nodalChipIndex, coreIndexOnChip, htmType, BUFFER_SIZE, page)
    }

    /** A write to one of the four selector files; nothing is validated. */
    method SetSelector(which: Selector, v: u32)
      modifies this`nodeIndex, this`nodalChipIndex, this`coreIndexOnChip, this`htmType
      ensures nodeIndex == if which == NodeIndex then v else old(nodeIndex)
      ensures nodalChipIndex == if which == NodalChipIndex then v else old(nodalChipIndex)
      ensures coreIndexOnChip == if which == CoreIndexOnChip then v else old(coreIndexOnChip)
      ensures htmType == if which == HtmType then v else old(htmType)
    {
      match which
      case NodeIndex => nodeIndex := v;
      case NodalChipIndex => nodalChipIndex := v;
      case CoreIndexOnChip => coreIndexOnChip := v;
      case HtmType => htmType := v;
    }

    /**
     * The H_HTM dump request for one full page at `page`, with the four
     * selectors as they are now, into the shared buffer; the hypervisor `hv`
     * decides the status and what lands in the buffer.
     */
    method Fetch(page: nat, hv: FetchRequest -> Reply) returns (rc: int)
      requires Valid()
      modifies buf, this`fetches
      ensures Valid()
      ensures fetches == old(fetches) + [RequestFor(page)]
      ensures rc == hv(RequestFor(page)).rc
      ensures buf[..] == Overlay(old(buf[..]), hv(RequestFor(page)).data)
    {
      var req := RequestFor(page);
      var reply := hv(req);
      var n := if |reply.data| < buf.Length then |reply.data| else buf.Length;
      forall i | 0 <= i < n {
        buf[i] := reply.data[i];
      }
      fetches := fetches + [req];
      rc := reply.rc;
    }

    /**
     * `htmdump_read(filp, ubuf, count, ppos)`. The caller's file layer
     * guarantees a non-negative position that `count` cannot push past the
     * largest file offset.
     */
    method Read(count: nat, hv: FetchRequest -> Reply) returns (ret: int, out: seq<bv8>)
      requires Valid()
      requires pos + count <= LLONG_MAX
      modifies this`pos, this`fetches, buf
      ensures Valid()
      // exactly one full-page fetch, at the page of the old position, with the current selectors
      ensures fetches == old(fetches) + [old(RequestFor(Split(pos).page))]
      ensures buf[..] == Overlay(old(buf[..]), hv(old(RequestFor(Split(pos).page))).data)
      ensures var r := ReadSpec(old(pos), count, hv(old(RequestFor(Split(pos).page))).rc, buf[..]);
              ret == r.ret && out == r.out && pos == old(pos) + r.advance
    {
      var w := Split(pos);
      var rc := Fetch(w.page, hv);
      match Classify(Decode(rc))
      case EndOfStream =>
        return 0, [];
      case Invalid =>
        return -EINVAL, [];
      case Proceed =>
        var available := BUFFER_SIZE - w.offset;
        var readSize := ReadSize(count, w.offset);
        pos := pos + readSize;
        var c := SimpleReadFromBuffer(count, w.offset, buf[..], available);
        ret, out := c.ret, c.data;
    }
  }

  /**
   * A selector written between two reads is seen by the very next fetch:
   * nothing caches the previous value.
   */
  method ReconfigureThenRead(f: DumpFile, which: Selector, v: u32, count: nat, hv: FetchRequest -> Reply)
    requires f.Valid() && f.pos + count <= LLONG_MAX
    modifies f, f.buf
    ensures |f.fetches| == |old(f.fetches)| + 1
    ensures f.fetches[|f.fetches| - 1] == match which
      case NodeIndex => old(f.RequestFor(Split(f.pos).page)).(nodeIndex := v)
      case NodalChipIndex => old(f.RequestFor(Split(f.pos).page)).(nodalChipIndex := v)
      case CoreIndexOnChip => old(f.RequestFor(Split(f.pos).page)).(coreIndexOnChip := v)
      case HtmType => old(f.RequestFor(Split(f.pos).page)).(htmType := v)
  {
    f.SetSelector(which, v);
    var ret, out := f.Read(count, hv);
  }
}
