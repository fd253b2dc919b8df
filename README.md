# NIC queue and interrupt CPU affinity — a Dafny model

The affinity tools bind a network card's queues and MSI-X interrupts to CPUs:

- `net.py` configures XPS and RPS. It parses CPU ranges such as `0-3,8`. It parses queue/CPU mapping strings such as `0-1:4,2::5-7` and flow-count strings such as `0-3:4096`. It writes and reads the kernel's comma-separated hexadecimal CPU masks.
- `msix.py` validates a CPU range against the processor count. It reads the card's MSI-X interrupt numbers and their labels from `/proc/interrupts`, and pairs the interrupts with CPUs. It reads back `smp_affinity_list`, compares two snapshots of per-CPU interrupt counters, and groups virtio interrupts into input, output and others for display.
- `q.py` samples the per-queue packet and byte counters and turns two samples into per-queue rates, allowing for a 32-bit counter that wrapped.

This project models the parsing, encoding, pairing and bookkeeping at the heart of those tools, and proves what they guarantee.

Each model follows the shape of its source. A Python function made of loops becomes a Dafny `method` with a `for` loop and its invariants. The method is proved equal to a specification function, and lemmas state the properties of that function. Python exceptions and `sys.exit` paths become `Err` values of one `Error` datatype (`results.dfy`). Each error names the message site it stands for.

| file | module | what it models |
|---|---|---|
| `results.dfy` | `Results` | `Option`, `Result` and the errors the tools raise |
| `text.dfy` | `Text` | the Python string operations used: `strip`, `split`, `split()`, `isdigit`, `int`, `str`, `lower`, `in` |
| `sorting.dfy` | `Sorting` | `sorted()` by a key, `sorted(set(...))`, strictly increasing lists |
| `bits.dfy` | `Bits` | `v & (1 << b)`, `v \| (1 << b)`, `f"{v:08x}"`, `int(s, 16)` |
| `range_parser.dfy` | `RangeParser` | `parse_range` |
| `mask_codec.dfy` | `MaskCodec` | `generate_mask` and `mask_to_cpus` |
| `queue_mapping.dfy` | `QueueMapping` | `assign_cpus_to_queues`, `parse_queue_cpu_map`, `parse_queue_flow_map` |
| `queue_checks.dfy` | `QueueChecks` | the queue bound and key-set checks of `config_xps`/`config_rps`, and `_format_cpu_lines` |
| `irq_affinity.dfy` | `IrqAffinity` | the pure core of `IrqCpuBinder` in `msix.py` |
| `rate_sampler.dfy` | `RateSampler` | the integer part of `calculate_speed` |

One might expect `"0-1:5,1:6"` to be refused for assigning queue 1 twice. The pattern at net.py:241 does not work that way. Its CPU group runs on over single commas, so that text is one clause whose CPU text is `"5,1:6"`. `parse_range` refuses that CPU text, so the result is a parse error and not a duplicate error. `QueueMapping.NextClauseSwallowed` proves this for every text of that shape.

## Model

| member | source | states |
|---|---|---|
| RangeParser.ParseRange | net.py:138-155 | returns exactly parse_range's result; an accepted list is strictly increasing (sorted, no duplicates) |
| RangeParser.CollectIds | net.py:141-153 | the loop over the stripped non-blank tokens fails exactly when some token is refused, with that token's error; otherwise it collects exactly the ids the tokens name |
| RangeParser.TokenIds | net.py:142-153 | one token: a token with '-' must be digits-dash-digits (else BadRangeToken) with start <= end (else StartAfterEnd) and gives start..end; a token without '-' must be all digits (else BadNumber) and gives its value |
| RangeParser.TokenAccepted | net.py:142-153 | a token is accepted if and only if it is a number or a `start-end` pair with start <= end |
| RangeParser.TokenIdsNamed | net.py:142-153 | an accepted token yields exactly the ids it names: its number, or every id from start to end |
| RangeParser.TokensAccepted | net.py:141-153 | a token list is accepted if and only if every token fits the grammar |
| RangeParser.TokensIdsNamed | net.py:141-153 | the ids of an accepted token list are exactly those some token names |
| RangeParser.FirstBadToken | net.py:141-153 | the error raised is the one of the first bad token |
| RangeParser.RangeListAccepted | net.py:138-155 | parse_range succeeds if and only if every stripped non-blank comma piece fits the grammar |
| RangeParser.RangeListIds | net.py:138-155 | on success the list holds exactly the ids the tokens name |
| RangeParser.RangeListError | net.py:145-152 | parse_range raises only the three token errors |
| RangeParser.RangeListRejects | net.py:140-152 | any character other than a digit, '-', ',' or a blank makes parse_range fail |
| RangeParser.RangeListOfIds | net.py:155 | the result depends only on the set of ids named |
| RangeParser.TokensAround | net.py:140 | a comma between two texts separates their tokens |
| RangeParser.RangeIdsAround | net.py:140-155 | "a,b" names the ids of a and of b; its error is the first met reading left to right |
| RangeParser.RangeListOrderFree | net.py:140-155 | an accepted "a,b" and "b,a" give the same list |
| RangeParser.BlankPieceSkipped | net.py:140 | a blank piece between commas changes nothing: "1,,2" reads as "1,2" |
| RangeParser.BlankRange | net.py:140-155 | an empty or blank string gives the empty list |
| MaskCodec.GenerateMask | net.py:160-177 | returns the specified mask text: BadMask for a template outside `([0-9a-fA-F]{8},)*[0-9a-fA-F]{8}` (a single trailing newline accepted, as `$` does), CpuBeyondMask naming the first CPU that does not fit and the last CPU that would, otherwise the joined 8-digit words |
| MaskCodec.SegmentWords | net.py:165-175 | the `seg_values[seg_idx] \|= 1 << bit_pos` loop on an array of words: the error for the first CPU outside the mask, otherwise word i is the word of CPU group n-1-i |
| MaskCodec.GroupWordBit | net.py:168-175 | bit b of group g's word is set exactly when CPU 32g+b is in the list |
| MaskCodec.GroupWordBound | net.py:175 | every group word fits in 32 bits |
| MaskCodec.FirstOutsideAt | net.py:168-173 | the CPU reported is the first in list order that does not fit |
| MaskCodec.MaskTextFails | net.py:161-173 | generate_mask fails exactly on a malformed template or a CPU (negative or too large) outside the template's span |
| MaskCodec.MaskTextOk | net.py:161-177 | an accepted request has every CPU inside the template's span and yields the joined words |
| MaskCodec.MaskShape | net.py:161-177 | the result has the template's number of segments, each eight lowercase hexadecimal digits |
| MaskCodec.MaskPlacement | net.py:168-177 | bit b of segment i of the result is set exactly when CPU 32(n-1-i)+b is listed; the template's own bits are dropped |
| MaskCodec.MaskToCpus | net.py:179-188 | returns the specified CPU list: the error of the first segment from the right that int(_, 16) refuses, else the CPUs whose bits are set, ascending |
| MaskCodec.SegmentCpus | net.py:184-186 | the inner bit loop yields, in increasing order, exactly the CPUs of group g whose bit is set |
| MaskCodec.SegmentErrorStays | net.py:182-183 | once a segment fails to parse, the whole mask fails with that segment |
| MaskCodec.CpuSetOfWords | net.py:168-188 | the CPUs named by the group words are exactly the listed CPUs when all fit |
| MaskCodec.MaskRoundTrip | net.py:160-188 | mask_to_cpus(generate_mask(S, M)) == sorted(set(S)) |
| Bits.IntOfHexOfHex | net.py:177 | int(f"{v:0{w}x}", 16) == v: a written segment reads back as its value |
| QueueMapping.AssignCpusToQueues | net.py:226-237 | EmptyCpuRange for an empty CPU list, otherwise the round-robin dict |
| QueueMapping.RoundRobinKeys | net.py:232-235 | the dict's keys are exactly the queues |
| QueueMapping.RoundRobinValue | net.py:233-235 | the last occurrence of a queue at index i decides its entry: `[cpus[i % len(cpus)]]` |
| QueueMapping.RoundRobinExample | net.py:226-237 | queues [0,1,2] over CPUs [10,20] give {0:[10], 1:[20], 2:[10]} |
| QueueMapping.MatchParts | net.py:241-258 | a match spans its own text; its queue text is non-empty and colon-free and its CPU text non-empty |
| QueueMapping.ClausesWithoutColon | net.py:241-242 | a text without ':' yields no match |
| QueueMapping.CpuEndAll | net.py:241 | the CPU group takes all of a trailing run of comma-joined non-empty pieces |
| QueueMapping.OneClause | net.py:241-258 | a lone well-formed clause is scanned as exactly that clause, "::" being preferred over ":" |
| QueueMapping.FirstTaken | net.py:261-263 | the queue the `if q in queue_cpu_map` check stops at: one of the queues already present; none exactly when no queue is present |
| QueueMapping.ClaimQueues | net.py:261-272 | the duplicate-checked insertion loop: reports the first queue already present, otherwise extends the dict with every queue's entry |
| QueueMapping.ParseQueueCpuMap | net.py:239-277 | returns exactly the specified map for the scanner's clauses, or the first clause's error, or NoMapping |
| QueueMapping.ClaimFacts | net.py:259-272 | insertion fails exactly when some queue already has an entry, naming one; otherwise every queue gets its entry and every earlier entry stays |
| QueueMapping.SingleQueueClause | net.py:259-266 | with one queue, ":" overwrites unchecked while "::" refuses a queue that already has CPUs |
| QueueMapping.RoundRobinClause | net.py:264-272 | ":" with several queues: EmptyCpuRange without CPUs; with CPUs and none of the queues taken yet, queue i gets `[cpus[i % len(cpus)]]` and earlier entries stay |
| QueueMapping.RoundRobinTaken | net.py:267-272 | ":" with several queues and some CPUs, one of them already taken: the clause is refused as a duplicate naming a taken queue of the clause |
| QueueMapping.NoColonNoMapping | net.py:241-248 | without a ':' the result is NoMapping, so the `if not matches` check never fires |
| QueueMapping.BroadcastMapping | net.py:259-263 | a single "::" clause gives every named queue the whole CPU list |
| QueueMapping.NextClauseSwallowed | net.py:241 | in "q:c,rest" where rest has a colon, the CPU text swallows rest; the result is an error, and never a duplicate-queue error |
| QueueMapping.ColonInCpuText | net.py:251-258 | a colon in the CPU text makes the clause fail, never as a duplicate |
| QueueMapping.BroadcastFresh | net.py:259-263 | into an empty dict, the "::" insertion gives exactly the broadcast map |
| QueueMapping.QueueText | net.py:288 | the text before the first ':' holds no ':' |
| QueueMapping.FlowText | net.py:288 | the text after the first ':' is a proper suffix of the part |
| QueueMapping.ParseQueueFlowMap | net.py:279-305 | returns exactly the specified flow map, or the first part's error, or NoFlowMapping |
| QueueMapping.FlowPartErrors | net.py:285-292 | BadFlowPart without ':'; FlowNotNumber when the queues parse but the count is not all digits (blanks around it are not stripped) |
| QueueMapping.FlowPartEntries | net.py:293-300 | an accepted part gives each of its queues the count; none had one before; earlier entries stay |
| QueueMapping.FlowPartDuplicate | net.py:297-299 | a queue that already has a count makes the part fail as a duplicate naming such a queue |
| QueueMapping.FlowPartsAccepted | net.py:284-300 | when all parts are accepted, each had ':' followed by digits, and no count is ever overwritten |
| QueueMapping.FlowBlankQueue | net.py:288-303 | a part such as ":5" names no queue, and on its own ends at NoFlowMapping |
| QueueMapping.FlowRepeatedPart | net.py:297-299 | the same accepted part given twice is refused as a duplicate |
| QueueChecks.CheckQueuesInRange | net.py:352-355 | accepts exactly when every key is below the queue count, returning the keys ascending; otherwise QueueOutOfRange names the least offending key |
| QueueChecks.KeySetMismatch | net.py:545-557 | no error exactly when the CPU and flow queue sets are equal; otherwise the missing and extra sets are exactly the two differences |
| QueueChecks.MismatchReconciles | net.py:548-557 | the reported sets are exact: adding the missing and dropping the extra queues reconciles the sets, and at least one is non-empty |
| QueueChecks.Chunks | net.py:400 | every chunk has 1 to 19 CPUs, all but the last exactly 19, and there are ceil(len/19) chunks |
| QueueChecks.ChunksFlatten | net.py:400 | the chunks hold every CPU once, in the original order |
| QueueChecks.FormatCpuLines | net.py:397-398 | no CPUs give no lines |
| QueueChecks.LineWords | net.py:401 | a line splits on spaces back into its numbers, and each reads back as its CPU |
| QueueChecks.FormatCpuLinesReadBack | net.py:396-401 | one line per 19 CPUs rounded up, at most 19 numbers per line, and reading the lines back gives the CPU list in order |
| IrqAffinity.VirtioIrqKindOccurs | msix.py:129-135 | input whenever "input" occurs in the lower-cased label (also when "output" does too), output when only "output" occurs, unknown when neither does |
| IrqAffinity.ClassificationIgnoresCase | msix.py:126-135 | a label and its lower-cased form classify alike |
| IrqAffinity.CpuItemIff | msix.py:87 | an item of the validator's pattern is digits alone or digits around a single dash |
| IrqAffinity.CpuPieces | msix.py:87-92 | a text the pattern accepts splits into at least one well-formed item |
| IrqAffinity.ExpandCpuList | msix.py:91-100 | the first loop builds exactly the specified CPU list, stopping at the first reversed range |
| IrqAffinity.ExpandCpusError | msix.py:94-97 | a reversed range is the only failure, and the error carries start > end |
| IrqAffinity.AllBelow | msix.py:103-106 | the second loop accepts exactly when every CPU is below the processor count |
| IrqAffinity.ValidateCpuRange | msix.py:86-108 | BadCpuRangeFormat outside the pattern, then the reversed-range error, then CpuBeyondSystem; otherwise the distinct CPUs ascending with the least and greatest of them |
| IrqAffinity.ValidatorAgreesWithParseRange | msix.py:86-108 | on text of the pattern without a trailing newline, the validator and parse_range accept alike and give the same sorted CPUs |
| IrqAffinity.ExpandCpusNamed | msix.py:91-100 | the accepted CPUs are exactly those some item names |
| IrqAffinity.PairUp | msix.py:188-204 | nothing to bind exactly when no interrupt qualifies; otherwise interrupt i goes with CPU i for the first min(#irqs, #cpus) positions, and the warning says which side was longer |
| IrqAffinity.PlanIrqBinding | msix.py:172-204 | the filter loop and the truncation give exactly the pairing of the kept interrupts with the CPUs |
| IrqAffinity.BindableAll | msix.py:185-186 | under a driver other than virtio_net every interrupt is kept, in map order |
| IrqAffinity.BindableInputs | msix.py:176-184 | under virtio_net exactly the interrupts whose label is of kind input are kept |
| IrqAffinity.PairUpWithoutCpus | msix.py:194-199 | with no CPUs nothing is bound and the interrupts are reported in surplus |
| IrqAffinity.CpuOf | msix.py:305-308 | int() of a dash-free entry, which is never negative |
| IrqAffinity.Span | msix.py:306 | range(s, e+1) holds exactly s..e, and nothing when s > e |
| IrqAffinity.GetIrqCpus | msix.py:294-310 | a missing file gives []; otherwise the first bad entry's error, or all entries' CPUs sorted with duplicates kept |
| IrqAffinity.ReversedEntryEmpty | msix.py:304-306 | an entry "s-e" with s > e adds nothing and is not an error |
| IrqAffinity.OverlapKept | msix.py:302-310 | overlapping entries are not merged: "0-1,1" reads as 0, 1, 1 |
| IrqAffinity.LookUpLabel | msix.py:158-168 | the label lookup loop stops at the first line of the interrupt and returns its label |
| IrqAffinity.LabelFromFirstLine | msix.py:161-168 | the label is the last word of the first line starting with "N:"; it is never empty |
| IrqAffinity.LabelFallback | msix.py:168 | without such a line the label is "irq-N" |
| IrqAffinity.NumericNamesMembers | msix.py:145-149 | the interrupt numbers are exactly the values of the all-digit names |
| IrqAffinity.GetIrqMap | msix.py:137-170 | NoMsiIrqs exactly when no name is all digits; otherwise the distinct numbers ascending, each with its label |
| IrqAffinity.LabelIrqs | msix.py:158-168 | one entry per interrupt, in order, each with its label |
| IrqAffinity.CounterDelta | msix.py:389-396 | none exactly when either snapshot is missing or the lengths differ; otherwise initial[i] + delta[i] == final[i] |
| IrqAffinity.CounterDeltaNegative | msix.py:396 | a counter that went down gives a negative delta: no wrap correction |
| IrqAffinity.MeasureDeltas | msix.py:388-396 | one delta per interrupt of the map, and for no other key |
| IrqAffinity.BucketIrqs | msix.py:263-273 | the bucket loop puts each entry, in map order, into the list of its group |
| IrqAffinity.InGroupMembers | msix.py:263-273 | a group holds exactly the entries whose label falls in it |
| IrqAffinity.InGroupCount | msix.py:263-273 | the three groups together hold every entry exactly once |
| IrqAffinity.SortedGroup | msix.py:275-277 | sorting a group keeps its members and their multiplicities |
| IrqAffinity.PartitionIrqs | msix.py:258-292 | input, output and others are each sorted by interrupt number, hold exactly their group's entries and together every entry once; without any virtio label the result is the whole map sorted |
| IrqAffinity.NoVirtioAllOthers | msix.py:289-292 | without any virtio label every entry is in others, in map order, and the other two groups are empty |
| RateSampler.Sampled | q.py:45-46 | a queue missing from a sample reads as 0 |
| RateSampler.CounterDiff | q.py:47-50 | the plain difference, plus 2^32 exactly when the counter went down |
| RateSampler.CalculateDiffs | q.py:40-59 | one difference per queue present in either sample, and for no other queue; the dict's key order (its insertion order) lists every queue once, ascending |
| RateSampler.DiffsOver | q.py:44-57 | the loop gives each queue of the given order its difference; the dict's key order holds each queue once, by first insertion, and is the visiting order itself when the queues are ascending |
| RateSampler.WrappedDiff | q.py:47-50 | for 32-bit counters the difference is (curr - prev) mod 2^32, lies in [0, 2^32), and prev + diff is curr modulo 2^32 |
| RateSampler.WrapExample | q.py:47-50 | a counter that wrapped from 4294967290 to 5 advanced by 11 |
| RateSampler.OneSidedQueue | q.py:45-50 | a queue only in the later sample counts its whole value; one only in the earlier sample with a non-zero count reads as 2^32 - prev |

## Left out

- Command execution, `/sys`, `/proc` and `ethtool` reads and writes: the values the tools read are parameters. This covers `ip netns exec`, `ethtool -S`, `ethtool -i`, the `msi_irqs` listing, `/proc/interrupts`, `smp_affinity_list`, `per_cpu_count`, `xps_cpus`, `rps_cpus`, `rps_flow_cnt` and `grep -c ^processor`. The writes of `config_xps_queue`, `config_rps_queue` and `bind_irq_to_cpu`, and their read-back checks, are not modelled.
- Sleeping, terminal colours, printed tables, `argparse` and `main`, and the interactive confirmation in `config_xps`, are not modelled.
- The default path of `config_xps` (net.py:356-383) assigns `[cpus[idx % cpu_cnt]]` over all queues. It is the same computation as `QueueMapping.AssignCpusToQueues` over `0..total-1`, behind an interactive prompt, and is not modelled separately.
- `read_xps`, `read_rps`, `restore_default`, `show_irq_speed` and `_show_single_irq_bind` only read and print, and are not modelled.
- `get_queue_stats` (q.py), which scans `ethtool -S` output with regular expressions, is not modelled.
- `get_per_cpu_count` is a file read followed by `int()` on each piece. Its result is the `Option<seq<int>>` that `IrqAffinity.MeasureDeltas` takes.
- RateSampler.CalculateDiffs: the division by the interval, the optional division by 1024*1024 and `round(speed, 2)` are floating point. The model stops at the integer difference.
- `str.isdigit`, `\d` and `int()` accept Unicode digits, and `int()` accepts `_` between digits. The model accepts ASCII digits only.
- `str.lower` is modelled on ASCII letters only. It is used only to look for "virtio", "input" and "output", and to compare with "virtio_net".
- The `flow_val < 0` check (net.py:294-295) can never fire after `isdigit()`. It is not modelled.
- The `if not matches` check (net.py:244-248) tests an iterator, which is always true, so it never fires. `QueueMapping.NoColonNoMapping` shows what happens instead.
- A repeated name in the `msi_irqs` listing would fill the dict once. The model reads the sorted list into a sorted set for that reason; a directory listing has no repeated names anyway.
