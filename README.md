# htmdump: the paged read of the HTM trace dump

The pseries `htmdump` driver exposes the Hardware Trace Macro (HTM) buffer,
which the hypervisor holds, as a debugfs file named `trace`. Four u32 selector
files (`nodeindex`, `nodalchipindex`, `coreindexonchip`, `htmtype`) choose
which trace source is dumped. This project models the read handler
`htmdump_read` and the state it works on.

A read does four things:

1. It splits the file position into a page-aligned address (`ALIGN_DOWN`) and
   an offset inside that page.
2. It asks the hypervisor to dump one full page into the single shared buffer.
   The request uses the selector values as they are at that moment.
3. It sorts the hypervisor status into three outcomes:
   - proceed: `H_SUCCESS`, `H_PARTIAL`, and any status the switch does not name;
   - end of stream (return 0): `H_NOT_AVAILABLE`;
   - `-EINVAL`: every busy, parameter, state and authority code.
4. On the proceed path it moves the cursor by
   `read_size = min(count, BUFFER_SIZE - offset)` and returns what
   `simple_read_from_buffer` copies.

The modules:

- `HCall` (hcall.dfy) names the hypervisor status codes the switch mentions.
  Every other value is kept as `Other`. `Decode` and `Code` are inverse to
  each other on canonical statuses, those whose `Other` carries no named code.
- `Paging` (paging.dfy) models `ALIGN_DOWN` as clearing the low `PAGE_SHIFT`
  bits. It proves that this rounds down to a multiple of `BUFFER_SIZE`, and
  gives `Split`, the page/offset pair.
- `LibFs` (libfs.dfy) models `simple_read_from_buffer` by its libfs
  semantics. The routine's source is not part of this model.
- `HtmDump` (htmdump.dfy) holds the status classification and the read as a
  function (`ReadSpec`). It also holds the class `DumpFile`: the file position,
  the page buffer as an `array<bv8>`, the four selectors, and a ghost log of
  hypervisor requests. `DumpFile.Read` is proved against `ReadSpec`.

The hypervisor call is a parameter `hv: FetchRequest -> Reply`. It maps a
request to a status and to the bytes written into the buffer. Every read may
pass a different `hv`, so the status and the buffer contents are arbitrary.
`BUFFER_SIZE` is `PAGE_SIZE`, taken to be 4096 (`PAGE_SHIFT` 12). The numeric
status values are those of the powerpc hypervisor-call header `asm/hvcall.h`,
which is not part of this model.

## Model

| member | source | states |
|---|---|---|
| `HCall.Code` | arch/powerpc/platforms/pseries/htmdump.c:50-72 | a canonical status is `Other` exactly when its raw value is none of the codes the switch names |
| `HCall.Decode` | arch/powerpc/platforms/pseries/htmdump.c:50-72 | reading a raw status gives a canonical status, and `Other` exactly for the values the switch does not name |
| `HCall.CodeOfDecode` | arch/powerpc/platforms/pseries/htmdump.c:50-72 | decoding a raw status loses nothing: its code is the raw value again |
| `HCall.DecodeOfCode` | arch/powerpc/platforms/pseries/htmdump.c:50-72 | every canonical status is the decoding of its own code |
| `Paging.ClearLowBitsRoundsDown` | arch/powerpc/platforms/pseries/htmdump.c:44 | `ALIGN_DOWN` (clearing the low k bits) gives `2^k * (x >> k)`, a multiple of 2^k at most one page below `x` |
| `Paging.Split` | arch/powerpc/platforms/pseries/htmdump.c:44-45 | the fetched page is a multiple of `BUFFER_SIZE`, `0 <= offset < BUFFER_SIZE`, and `page + offset == *ppos` |
| `Paging.SplitPageIsGreatest` | arch/powerpc/platforms/pseries/htmdump.c:44 | no multiple of `BUFFER_SIZE` that is at most `*ppos` lies above the fetched page, so the page is `*ppos` rounded down |
| `Paging.SplitSamePage` | arch/powerpc/platforms/pseries/htmdump.c:44-45 | every position inside one page fetches that same page, at offset equal to its distance from the page start |
| `LibFs.SimpleReadFromBuffer` | arch/powerpc/platforms/pseries/htmdump.c:77 | it copies `from[pos..pos+ret]` with `ret <= count` and `pos + ret <= available`; it copies nothing exactly when `count == 0` or `pos >= available`; otherwise it copies as much as both limits allow; a negative position gives `-EINVAL` |
| `HtmDump.Classify` | arch/powerpc/platforms/pseries/htmdump.c:50-72 | end of stream exactly for `H_NOT_AVAILABLE`; proceed exactly for `H_SUCCESS`, `H_PARTIAL` and the unnamed codes (no default arm); `-EINVAL` exactly for the busy, long-busy, parameter, `H_P2`..`H_P6`, state and authority codes |
| `HtmDump.ClassifyRaw` | arch/powerpc/platforms/pseries/htmdump.c:50-72 | on raw values, the read fails with `-EINVAL` exactly for the fifteen case-label values, ends the stream exactly for `H_NOT_AVAILABLE`, and proceeds for every other value |
| `HtmDump.BusyIsNotRetried` | arch/powerpc/platforms/pseries/htmdump.c:56-71 | every long-busy order and `H_BUSY` get the same `-EINVAL` as a parameter error: the suggested wait is dropped and nothing is retried |
| `HtmDump.ReadSize` | arch/powerpc/platforms/pseries/htmdump.c:74-75 | `read_size <= count`, `offset + read_size <= BUFFER_SIZE`, and it is as large as both bounds allow |
| `HtmDump.ReadSpec` | arch/powerpc/platforms/pseries/htmdump.c:44-77 | end of stream returns 0 and `-EINVAL` returns -22, both with no bytes and no cursor move; the cursor never moves past the fetched page; on the copy path the cursor moves `read_size`, the return value is 0 when `count == 0` or `2*offset >= BUFFER_SIZE` and `min(count, BUFFER_SIZE - 2*offset)` otherwise (never more than the advance), and the bytes are the buffer from `offset` on |
| `HtmDump.ReturnMatchesAdvanceIff` | arch/powerpc/platforms/pseries/htmdump.c:74-77 | on the copy path the return value equals the cursor advance exactly when `count == 0`, or `offset == 0`, or `count + 2*offset <= BUFFER_SIZE` |
| `HtmDump.ReadSkipsBytes` | arch/powerpc/platforms/pseries/htmdump.c:74-77 | a successful read at 12298 with count 10000 moves the cursor 4086 bytes but returns 4076 |
| `HtmDump.ReadEndsEarly` | arch/powerpc/platforms/pseries/htmdump.c:74-77 | a successful read at 2048 with count 1 returns 0 (end of file) but moves the cursor by 1 |
| `HtmDump.ReadDeliversTrace` | arch/powerpc/platforms/pseries/htmdump.c:74-77 | when the buffer holds the requested page of the trace, a successful read hands over the trace bytes `[pos, pos+ret)`, while the cursor moves to `pos + advance` with `ret <= advance` |
| `HtmDump.IntendedReadSpec` | arch/powerpc/platforms/pseries/htmdump.c:74-77 | with the whole page as the copy limit, the return value equals the cursor advance `read_size`, and the bytes are the buffer from `offset` to the new cursor; the error paths are unchanged |
| `HtmDump.IntendedReadDeliversTrace` | arch/powerpc/platforms/pseries/htmdump.c:74-77 | under the intended copy limit, a successful read hands over exactly the trace bytes the cursor moves across |
| `HtmDump.NextReadPage` | arch/powerpc/platforms/pseries/htmdump.c:44-76 | after any read, the next read fetches the next page exactly when this read ran to the end of its page, and the same page otherwise |
| `HtmDump.Overlay` | arch/powerpc/platforms/pseries/htmdump.c:47-48 | the buffer after the hypervisor wrote its data keeps its length; the written prefix holds the data and the rest is unchanged |
| `HtmDump.DumpFile.constructor` | arch/powerpc/platforms/pseries/htmdump.c:29-32 | the selectors start at 0, the buffer is one fresh page, and no request has been sent yet |
| `HtmDump.DumpFile.SetSelector` | arch/powerpc/platforms/pseries/htmdump.c:29-32 | a selector write changes that one selector, with no validation, and leaves the other three as they were |
| `HtmDump.DumpFile.Fetch` | arch/powerpc/platforms/pseries/htmdump.c:47-48 | one request is logged: a full `BUFFER_SIZE` at `page` with the current selectors; the status is the hypervisor's, and the buffer holds what it wrote |
| `HtmDump.DumpFile.Read` | arch/powerpc/platforms/pseries/htmdump.c:36-78 | every read, even one with `count == 0`, sends exactly one full-page request for the page of the old position, using the current selectors, before it checks the status. Return value, bytes and new cursor are those of `ReadSpec` for the buffer after the fetch. Selectors are never changed |
| `HtmDump.ReconfigureThenRead` | arch/powerpc/platforms/pseries/htmdump.c:47-48 | whichever of the four selectors is written before a read, the very next request carries the new value, the other three selectors as they were and the page of the current position: nothing caches the old value |

## Left out

- Registration and startup (`htmdump_init_debugfs`, `htmdump_init`, lines 88-130) are left out. This includes buffer allocation and its failure paths, and the debugfs directory and files. It is kernel plumbing. `DumpFile.constructor` only sets up the state those lines leave behind.
- The `file_operations` table, `default_llseek` and `simple_open` (lines 80-84) are left out. They are VFS wiring.
- The `trace` file's guarantees are taken as preconditions of `DumpFile.Read`: the position is non-negative, and `pos + count` does not overflow the 64-bit file offset.
- The hypervisor call `htm_get_dump_hardware` and `virt_to_phys` are foreign calls. The hypervisor is the parameter `hv`, and the destination address is left out of `FetchRequest` because it is always the shared buffer.
- `DumpFile.Read` does not model `copy_to_user` faults (`-EFAULT` or a short copy) inside `simple_read_from_buffer`. User memory is taken to be writable.
- Concurrent readers racing on the shared buffer and on the selectors are not modelled. One sequential caller is modelled.
- `DumpFile` holds one file position next to the global buffer and selectors. Two open files that share one buffer are not modelled.
- `BUFFER_SIZE` is fixed at 4096. Kernels built with 64 KiB pages use a larger page; the proofs of `Split` use the constant.
- `DumpFile.Read` models the code as written. `IntendedReadSpec` is the corrected read, proved as a function, and is not wired into a second method.

## Findings

| source | as written | input that shows it | evidently intended | confidence | as-written member | corrected member |
|---|---|---|---|---|---|---|
| arch/powerpc/platforms/pseries/htmdump.c:74-77 | the cursor moves `read_size = min(count, BUFFER_SIZE - offset)`, but the return value is `simple_read_from_buffer(ubuf, count, &offset, ent->buf, available)` with `available = BUFFER_SIZE - offset`, so the offset is subtracted twice | `*ppos = 12298`, `count = 10000`: the cursor moves 4086, the call returns 4076, and 10 trace bytes are never delivered; `*ppos = 2048`, `count = 1`: returns 0 (end of file) while the cursor moves 1 | pass the whole page (`BUFFER_SIZE`) as the limit, so the caller receives exactly the bytes the cursor moves over | high, given the libfs semantics of `simple_read_from_buffer`; not executed | `HtmDump.ReadSkipsBytes` | `HtmDump.IntendedReadDeliversTrace` |
