# Clock virtual-memory simulator in Dafny

This project models `sim.c`, a simulator of demand-paged virtual memory. The
simulator reads a trace of virtual addresses. For each one it:

- splits the address into a virtual page number and an offset;
- looks the page up in a flat page table of `MAX_PAGES` entries;
- on a miss (a page fault), takes the lowest free physical frame, or, when
  every frame is occupied, the victim the Clock (second-chance) policy
  chooses;
- forms the physical address from the frame number and the offset.

It counts references and faults, and reports the fault rate at the end.

The model is split into modules:

- `Bits`: the integer arithmetic of the C code on unbounded naturals.
  - `<<`, `>>`, `&` and `|` are defined one bit at a time.
  - `log2_int` is an imperative loop.
  - The power-of-two test `n & (n - 1) == 0` of `main` is proved equivalent
    to being a power of two.
- `Address`: splitting a virtual address (`vaddr & mask`, `vaddr >> page_bits`)
  and forming the physical address (`(marco << page_bits) | offset`).
- `Tables`: the page table (`page_table_entry_t`) and the frame table
  (`marcos`) as values.
  - `Consistent` is the invariant tying them together: resident pages and
    occupied frames are in one-to-one correspondence, each naming the other.
  - It also holds the predicates that describe a Clock sweep part-way and
    once it stops, and the lemmas showing that a sweep step and a fault keep
    the invariant.
- `Simulator`: `simulator_t` as a class. The two tables are arrays; the hand
  and the counters are mutable fields.
  - `sim_init` is the constructor.
  - `find_free_frame`, `clock_evict` and `process_address` are methods proved
    against the predicates of `Tables`.
  - `process_trace_file` runs over the lines of a trace.
- `Trace`: how `process_trace_file` classifies a line. The line is either
  skipped, or read as hexadecimal or decimal text.
- `Config`: the parameter checks of `main`.
- `Statistics`: the fault rate of `print_statistics`.
- `Scenarios`: concrete runs derived from the contracts alone. They include a
  two-frame trace that shows a page getting its second chance, a one-frame
  trace that alternates between two pages and faults every time, and a
  single-page trace that faults only once.

The C integer types are modelled as follows:

- `uint64_t` addresses are naturals below 2^64.
- `int` sizes are below 2^31.
- The lemmas show that no shift or `|` in `process_address` leaves 64 bits:
  a frame number is below 2^31, and at most 30 offset bits fit in a positive
  `int` page size.

Three behaviours of `sim.c` are worth knowing when reading the model:

- **Malformed address text.** `vaddr` is declared without an initial value
  (sim.c:223) and only `sscanf` writes it (sim.c:226-230). When the text is
  not a number, `vaddr` stays uninitialised. The model therefore takes the
  conversion as a parameter.
- **Trace that cannot be opened.** `process_trace_file` returns early
  (sim.c:211-213). `main` then still prints the statistics (sim.c:312-315),
  with zero references and no fault rate.
- **Single-page trace.** `sim_init` leaves every page invalid, so the first
  reference to a page always faults. A trace of `n` references to one page
  has exactly one fault, a rate of `100/n` percent (`Scenarios.SinglePageTrace`).

## Model

| member | source | states |
|---|---|---|
| Bits.Log2Int | sim.c:41-48 | The result is 0 for `n <= 1`. Otherwise it is the floor of log2: `2^bits <= n < 2^(bits+1)`. It is exact (`2^bits == n`) when `n` is a power of two. |
| Bits.PowerOfTwoBracket | sim.c:62 | For a power of two `n`, the bracket `2^b <= n < 2^(b+1)` forces `2^b == n`. The offset width of a power-of-two page size is therefore exact. |
| Bits.FloorLog2Unique | sim.c:41-48 | The floor-of-log2 bracket determines `b` uniquely. |
| Bits.ShrIsOne | sim.c:43-46 | If shifting `n` right `k` times leaves 1, then `2^k <= n < 2^(k+1)`. This is what the loop of `log2_int` computes. |
| Bits.ShlOneIsPow2 | sim.c:62-63 | `1 << k` is `2^k`, and `(1 << k) - 1` is the mask of the `k` low bits. |
| Bits.ShlIsProduct | sim.c:192 | `a << k` is `a * 2^k`. |
| Bits.PowerOfTwoTest | sim.c:289-293 | For `n >= 1`, `n & (n - 1) == 0` holds if and only if `n` is a power of two. |
| Address.TranslatePreservesOffset | sim.c:149-192 | The physical address has the virtual address's offset, and its page number is the frame (`paddr >> bits == marco`). |
| Address.DecomposeRecompose | sim.c:153-154 | Putting the page number and the offset of a virtual address back together gives the address itself. |
| Address.OffsetBelowPageSize | sim.c:153 | `vaddr & mask` is below the page size. |
| Address.TranslateBelowNextFrame | sim.c:192 | The physical address lies below the start of the next frame. |
| Address.PhysicalAddressFits | sim.c:192 | For a frame below 2^31 and at most 30 offset bits, the physical address fits in 64 bits, so the `uint64_t` arithmetic never wraps. |
| Tables.AdvanceStep | sim.c:141 | The C hand update `(hand + 1) % n` moves the hand one step further along the dial. |
| Tables.SweptEntry | sim.c:138-142 | A sweep changes only reference bits, and only clears them: `valid` and `marco` are untouched. |
| Tables.SweepStep | sim.c:138-142 | Clearing the bit of the page under the hand and advancing the hand keeps the tables consistent and extends the sweep by one frame. Such a step is never the `n`-th, so the scan passes over at most `numFrames` frames. |
| Tables.ScanStops | sim.c:125-137 | When the hand reaches a free frame or a page with a clear bit, the scan has stopped at its victim. Short of a full revolution, that page's bit was already clear when the scan began. |
| Tables.ResidentPagesAreOccupants | sim.c:27-28 | In consistent tables, the resident pages are exactly the pages named by the frame table, and there are at most `num_marcos` of them. |
| Tables.OccupantsBounded | sim.c:28 | The frame table names at most one page per frame. |
| Tables.TouchKeepsConsistent | sim.c:165 | Setting or clearing a reference bit keeps the tables consistent. |
| Tables.FaultResidents | sim.c:177-188 | A fault that takes frame `f` removes the page `f` held from the resident set and adds the new page. The evicted page's entry is only invalidated. |
| Tables.FaultKeepsConsistent | sim.c:171-188 | Invalidating the old occupant and installing the new page in the frame keeps page table and frame table in one-to-one correspondence. |
| Simulator.Simulator.constructor | sim.c:53-91 | Every page is absent and every frame is free. The hand and the counters are 0. `page_bits` is exact for a power-of-two page size. |
| Simulator.Simulator.FindFreeFrame | sim.c:107-114 | The result is the lowest free frame, or -1 exactly when every frame is occupied. |
| Simulator.Simulator.ClockEvict | sim.c:120-144 | The victim is in range, and the hand ends one past it. The result follows the sweep relation: frames passed over held referenced pages, whose bits are now clear; nothing else changed; the victim is free or its page's bit is clear. |
| Simulator.Simulator.ProcessAddress | sim.c:149-192 | References go up by 1. Faults go up by 1 exactly when the page was not valid. On a hit, only the page's reference bit changes. On a fault, the frame is the lowest free one, or else the Clock victim, whose page is invalidated; the new page is installed with its bit set. The tables stay consistent, the offset is preserved, and `paddr >> page_bits` is the frame. |
| Simulator.Simulator.ProcessTrace | sim.c:209-236 | Each non-skipped line is one reference: references grow by the number of addresses in the trace, faults by at most that, and the simulator invariant holds. |
| Simulator.PageBitsFitInt | sim.c:62 | A positive `int` page size has at most 30 offset bits. |
| Trace.ClassifyLine | sim.c:219-230 | The blank-skipping loop and the tests after it compute the line's classification. |
| Trace.BlankPrefix | sim.c:220 | The result counts the leading spaces and tabs: all of them, and no more. |
| Trace.BlankPrefixUnique | sim.c:220 | Any prefix of blanks followed by a non-blank (or the end of the line) is the blank prefix. |
| Trace.BlankPrefixOfIndented | sim.c:220 | Blanks put in front of a line add to its blank prefix. |
| Trace.IndentIgnored | sim.c:219-221 | Indentation does not change how a line is classified. |
| Trace.ClassifiedText | sim.c:219-230 | A line is skipped if and only if it is all blanks, or its first non-blank character is a newline or `#`. Otherwise the text handed to `sscanf` is the rest of the line after its blanks: non-empty, and not starting with `#`, a newline or a blank. That text is read as hexadecimal if and only if it starts with `0x` or `0X`. |
| Trace.TraceAddresses | sim.c:217-233 | A trace yields at most one address per line. |
| Config.ValidateConfig | sim.c:284-293 | A configuration is accepted if and only if both sizes are positive and the page size is a power of two. It is rejected as non-positive if and only if a size is not positive, which is tested first. |
| Statistics.FaultRate | sim.c:248-251 | A rate exists if and only if there was a reference. It lies between 0 and 100 when faults do not exceed references. It is 0 exactly when there was no fault, and 100 exactly when every reference faulted. |
| Scenarios.FourBytePages | sim.c:41-48 | A 4-byte page has 2 offset bits. |
| Scenarios.FillTwoFrames | sim.c:149-192 | With two frames, two distinct pages fault into frames 0 and 1 in order, with their bits set and the hand left at 0. |
| Scenarios.FullTurn | sim.c:120-144 | With both bits set, the hand goes all the way round, clearing both, and evicts the page in frame 0. |
| Scenarios.SecondChanceSpent | sim.c:133-137 | A page whose bit was cleared by an earlier sweep is the next victim. |
| Scenarios.TwoFrameTrace | sim.c:149-192 | Pages 0, 1, 2, 0, 3 on two frames all fault, leaving pages 3 and 0 resident, with 5 references and 5 faults. |
| Scenarios.AlternatingTrace | sim.c:149-192 | On one frame, alternating between two pages faults on every reference: a 100% fault rate. |
| Scenarios.SinglePageTrace | sim.c:149-192 | On any number of frames, `n` references to one page give `n` references and exactly one fault (none when `n` is 0): a fault rate of `100/n` percent. |

## Left out

- `main.c`, `barrera.c` and `barrera.h`: a separate barrier exercise with threads. They are not part of this model.
- Opening, reading and closing the trace file: the model takes the file as a sequence of lines. The 256-byte `fgets` buffer splits longer lines into several lines; the model does not split them.
- `sscanf` with `%llx` / `%llu`: the conversion is a parameter. On malformed text the C `vaddr` is uninitialised, which no model can reproduce.
- An embedded NUL character inside a line: C stops reading the line at it, while the model treats it as an ordinary character.
- Verbose output (`printf` in `process_address`, the `verbose` field, the `--verbose` flag) and all other printed text.
- Argument handling in `main` (`argc`, `atoi`, choosing the trace file): the model starts from the two integers `atoi` produced.
- Allocation failures in `sim_init` (`malloc`/`calloc` returning `NULL`) and `sim_destroy`: memory management is not modelled.
- Simulator.Simulator.ProcessAddress: requires the page number to be below `MAX_PAGES`. The C code indexes the page table without a check, so a larger page number is undefined behaviour rather than a handled case.
- Simulator.Simulator.ProcessTrace: requires every address in the trace to have a page number below `MAX_PAGES`, for the same reason.
- Simulator.Simulator.ProcessTrace: states the counters and the invariant, not the final contents of the tables. The final contents follow from applying `ProcessAddress` to each address in turn.
- Simulator.Simulator.ProcessAddress: the `long long` reference and fault counters are unbounded naturals, because 2^63 references cannot occur.
- Statistics.FaultRate: computes the rate exactly as a real number rather than as a rounded `double`, and leaves the `%.2f` formatting out.
