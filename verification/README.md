# Verified models of the ebpf101 tools

The tools in this repository are small, but their state is shared between kernel hooks, maps and
user-space readers, and what they print is only as good as what survives that sharing. This
project models the stateful cores in Dafny and proves what they promise over every run.

- **nettop** (chapter 27). The hooks add bytes to one row per process; the poller walks the map,
  diffs it against the previous sample, reaps dead rows and prints a frame. The walk stands on
  the key it deletes, so it starts over after every reap. Proved: each recorded byte is in
  exactly one frame, exactly when passes are at most 60 s apart, and at any interval what was reported,
  is pending and was reaped adds up; the walk stands on every row, within (reaps + 1) * keys
  iterations; concurrent fetch-or-create loses nothing; a retransmit is
  credited to the last user of the same socket wherever sockets end through `tcp_close`.
- **The exec gate** (chapter 25). A verdict cache stamped with a policy epoch. Proved: in every
  interleaving, the key and the signature behind a stamp were granted by policies no older than its
  epoch, so a revoked key or file is denied, and exactly which policies can let a file through; with
  atomic calls, exactly when the cache changes an answer.
- **argv reassembly** (chapters 6 and 8). A producer cuts a command into records, a dictionary
  and a slot table put lines together again. Proved: what each prints for every stream, exactly
  when they agree, and the whole output of the round trip with and without dropped records.
- **The IDS rules** (chapter 23). Proved: the port-scan table is the sliding window exactly when
  no window outgrows it; the beacon ring is the latest eight gaps rotated; when each rule alerts,
  over every packet stream and including which sources and flows get a slot.
- **TCP lifetimes** (chapters 12 and 13). Proved: what the maps keyed by socket address hold when
  addresses are reused and entries evicted, whose name a summary carries, and how far the two
  tools' durations can differ.
- **Smaller pieces.** The per-user counter's lost inserts (chapter 16), the last lines of a log
  through a ring of line starts (chapter 14), three packet parsers that must agree (chapters 17,
  21 and 23).

Code that updates state in place is modelled by classes and methods over arrays, maps and
sequences; each method is proved against a function on values, and the theorems over whole runs
are lemmas about those functions. Maps are finite maps with a capacity. LRU eviction, a full ring
buffer, process liveness, the clock, the current process and file signatures are inputs.

Files are grouped by prefix: `Nettop*`, `Verdict*`, `Argv*`, `SlotTable`, `PortScan*`, `Beacon*`,
`Tcp*`, `OpenCount`, `LogTail`, `Packet*`; `Options`, `Words` and `Sets` hold what they share.

## What the code does not do

Some statements in the repository turned out not to hold of the code. The model follows the code,
a lemma shows a failing input, and another says exactly when the statement holds.

- Passes more than 60 s apart can lose bytes (`LateRunLosesBytes`, `ConservationExactlyWhen`).
- Retransmit counts can be reaped unreported even with passes at most 60 s apart, because the retransmit hook does not
  stamp `last_ns` (`RetransmitCanBeLost`, `RetransmitsConservedExactlyWhen`).
- A socket that does not end through `tcp_close`, such as a UDP socket, leaves its owner to the
  next socket at its address (`StaleOwner`, `AttributionExactlyWhen`).
- A policy changed without a bump, or an epoch counter gone full circle, keeps old approvals alive
  (`StaleApproval`, `WrappedApproval`, `CacheDiffersExactlyWhen`).
- `verify_file` looks up the key and checks the signature at different moments, so two policies that
  each reject a file can let it through between them (`MixedRejection`, `AdmittedExactlyWhen`).
- tcplife returns early when it finds no birth, never seen or evicted, and leaves the identity behind
  for the next connection (`StaleIdentity`, `StaleAfterEviction`, `IdentityRightExactlyWhen`).
- The slot table prints less than the dictionary after a collision or past 20 arguments
  (`CollisionLosesLine`, `TableCutsShort`, `LinesAgreeExactlyWhen`).

Comments that differ from the code: the port-scan threshold of 20 is passed only by 21 ports; the
beacon rule accepts a coefficient of variation of exactly 10 percent; an IPv4 frame cut short in
its header is counted under "other", which the header file describes as non-IP; the poller's
re-baselining branch and its full-table branch are not reached in any run, because only the poller
deletes rows and a baseline goes with its row (`TableInvariant`); the nettop notes and the source
count the accounting hooks that run in process context differently.

## Model

| member | source | states |
|---|---|---|
| NettopRuns.TableInvariant | 27-nettop/nettop.c:182-302 | in every run the map stays within 4096 rows and without pid 0, so the walk may start from key 0, and every baseline belongs to an existing row and is not above it, so neither the full-table branch nor re-baselining happens |
| NettopRuns.SurvivorReported | 27-nettop/nettop.c:262-290 | a row that survives a pass is reported with exactly its bytes and retransmits since the pass before |
| NettopRuns.ReapedHasNoPendingBytes | 27-nettop/nettop.c:215-221 | with passes at most 60 s apart, a reaped row has no unreported byte |
| NettopRuns.FrameIsInterval | 27-nettop/nettop.c:223-290 | each frame holds for every pid, listed or not, exactly the bytes recorded since the previous pass |
| NettopRuns.Conservation | 27-nettop/nettop.c:182-302 | over every run with passes at most 60 s apart, the bytes reported by all frames are the bytes recorded between priming and the latest pass, rows reaped and recreated included |
| NettopRuns.LateRunLosesBytes | 27-nettop/nettop.c:215-221 | for any larger gap, a run that loses bytes |
| NettopRuns.ConservationExactlyWhen | 27-nettop/nettop.c:215-221 | passes up to a gap apart conserve every byte of every run if and only if the gap is at most 60 s |
| NettopRuns.Balance | 27-nettop/nettop.c:182-302 | over every run, at any interval between passes, what the frames reported, what is pending and what was reaped unreported add up in bytes and retransmits to what was recorded since priming |
| NettopRuns.RetransmitsConservedExactlyWhen | 27-nettop/nettop.bpf.c:209-223 | over every run, no counted retransmit of a pid is lost if and only if no pass finds its row reapable with more retransmits than its baseline |
| NettopPoller.StatsMap.GetNextKey | 27-nettop/nettop.c:192-193 | the key after the given one in the map's order, and the first key when the given one is not in the map |
| NettopPoller.PrevTable.Find | 27-nettop/nettop.c:155-161 | the slot of the pid, or that there is none |
| NettopPoller.PrevTable.ClearSeen | 27-nettop/nettop.c:189-190 | every slot unmarked and otherwise as it was |
| NettopPoller.PrevTable.Touch | 27-nettop/nettop.c:223-274 | the pid's baseline moved to the current totals, a new slot only if there is room, and what was gained, nothing on a first sighting while priming |
| NettopPoller.PrevTable.Compact | 27-nettop/nettop.c:293-298 | in place, the slots seen in this pass and no others |
| NettopPoller.Poller.Advance | 27-nettop/nettop.c:192-221 | one iteration: exactly one key more stood on, the next one or after a delete the first, and one visit counted; none when the keys are exhausted |
| NettopPoller.Odometer.Bound | 27-nettop/nettop.c:192-221 | the visits counted by the iterations come to at most (reaps + 1) * keys although every delete restarts the walk |
| NettopPoller.Poller.Sample | 27-nettop/nettop.c:182-302 | exactly the reapable rows are deleted; the keys stood on are all the rows of the map, in at most (reaps + 1) * keys iterations; each pid is listed at most once, no due row missing while there is room, and the baselines of the survivors kept |
| NettopPoller.Poller.Poll | 27-nettop/nettop.c:408-436 | from any state of a run, a pass of the imperative poller is the replayed pass of the run theorems, the rows printed are that pass's frame, sorted, and the walk keeps the bound above |
| NettopPoller.Poller.PrintPass | 27-nettop/nettop.c:182-302 | after any run, a pass prints for exactly the rows that stay and have something pending, busiest first and each pid once, rates that times the interval come to the bytes recorded since the pass before in each direction, those retransmits, and the row's totals and name; it deletes exactly the rows whose process is not visible and idle for more than 60 s; the priming pass prints nothing |
| NettopFrame.Sort | 27-nettop/nettop.c:300 | the rows in order of traffic, as a permutation |
| NettopFrame.SortedUnique | 27-nettop/nettop.c:163-171 | the comparison leaves one sorted order for rows with distinct pids |
| NettopFrame.PrintedFrameUnique | 27-nettop/nettop.c:163-171 | two walks in different orders print the same frame |
| NettopHooks.Hooks.Account | 27-nettop/nettop.bpf.c:98-144 | the transfer step of the run model on both maps, after at most one eviction and that only from a full map lacking the socket |
| NettopHooks.Hooks.Credit | 27-nettop/nettop.bpf.c:121-143 | the row gains the bytes, a call and the stamp, created if there is room, or the sample is dropped |
| NettopHooks.Hooks.Received | 27-nettop/nettop.bpf.c:167-174 | a positive length is a transfer step received, any other length changes nothing |
| NettopHooks.Hooks.Retransmit | 27-nettop/nettop.bpf.c:209-223 | the retransmit step of the run model: one more for the owner's row, if socket and row are known |
| NettopHooks.Hooks.TcpClose | 27-nettop/nettop.bpf.c:237-243 | the close step of the run model: the socket's owner forgotten |
| NettopHooks.TransferCounts | 27-nettop/nettop.bpf.c:98-144 | an IPv4 or IPv6 transfer of a nonzero pid adds its bytes and one call to its own direction, stamps the row and records the owner, if the row exists or there is room |
| NettopHooks.TransferIgnored | 27-nettop/nettop.bpf.c:101-129 | pid 0 and other families change neither map, and a full map drops the sample of a new pid |
| NettopHooks.RunIsReplayed | 27-nettop/nettop.bpf.c:98-243 | every run of sockets, hooks, evictions and passes is, to the rows and baselines, one of the runs the byte theorems are about |
| NettopHooks.HookConservation | 27-nettop/nettop.bpf.c:98-144 | with passes at most 60 s apart every byte the hooks count after priming is in exactly one frame |
| NettopHooks.Attribution | 27-nettop/nettop.bpf.c:209-243 | at an address whose sockets all end through `tcp_close`, a credited retransmit goes to the pid that last moved bytes on that same socket, whatever was evicted and however often the address was reused |
| NettopHooks.AttributionExactlyWhen | 27-nettop/nettop.bpf.c:117-119 | in any run, a credit goes to the last user of this socket if and only if someone has moved bytes on it since it was opened |
| NettopHooks.StaleOwner | 27-nettop/nettop.bpf.c:117-119 | a run in which a socket inherits the owner of a UDP socket |
| NettopHooks.RetransmitCanBeLost | 27-nettop/nettop.bpf.c:209-223 | a run of the hooks, passes at most 60 s apart and the socket still open, whose counted retransmit no frame reports because its process is not visible in /proc |
| NettopConcurrency.RunInv | 27-nettop/nettop.bpf.c:121-143 | in every interleaving of single map operations, each column holds exactly what the calls have added so far |
| NettopConcurrency.NothingLost | 27-nettop/nettop.bpf.c:121-142 | once all calls of a pid have finished, its row holds the sum of their bytes and their number per direction; without a row nobody called or the map was full |
| NettopConcurrency.NeverOvercounts | 27-nettop/nettop.bpf.c:136-142 | in the middle of a run no column exceeds what its callers are worth |
| NettopConcurrency.AloneIsAtomic | 27-nettop/nettop.bpf.c:121-143 | the operations of an uninterrupted call add up to the atomic step the run theorems use |
| VerdictCache.Gate.VerifyFile | 25-fileless-lab/gate/exec_gate.bpf.c.fragment:29-62 | allowed if and only if the inode is stamped approved with the present 32-bit epoch, or digest and signature can be read, the key is there and the policy verifies the one with the other; stamped then if storage can be had, other inodes untouched |
| VerdictCache.Gate.ExecGate | 25-fileless-lab/gate/exec_gate.bpf.c.fragment:70-77 | unlinked tmpfs and hugetlbfs files refused, others verified |
| VerdictCache.Gate.MmapGate | 25-fileless-lab/gate/exec_gate.bpf.c.fragment:79-87 | only executable mappings are judged, and those as at exec |
| VerdictCache.HitExactlyWhen | 25-fileless-lab/gate/exec_gate.bpf.c.fragment:31-34 | over every run, a check hits if and only if a check since the last eviction was granted and the bumps since then are a multiple of 2^32 |
| VerdictCache.CacheTransparent | 25-fileless-lab/gate/exec_gate.bpf.c.fragment:29-62 | with every change bumped before the next check and fewer than 2^32 bumps, cached and uncached answers are equal in every run |
| VerdictCache.CacheDiffersExactlyWhen | 25-fileless-lab/gate/exec_gate.bpf.c.fragment:29-62 | over every run, cached and uncached answers differ if and only if that holds and the policy in force denies |
| VerdictCache.StaleApproval | 25-fileless-lab/gate/exec_gate.bpf.c.fragment:33-35 | a run in which a change without its bump leaves a denied file admitted |
| VerdictCache.WrappedApproval | 25-fileless-lab/gate/exec_gate.bpf.c.fragment:33-35 | a run of announced changes in which 2^32 bumps leave a denied file admitted |
| VerdictRaces.StampsAreVouched | 25-fileless-lab/gate/exec_gate.bpf.c.fragment:29-62 | in every interleaving, for each stamp and each admitted call some policy no older than the one at the bump to its epoch had the key, and that one or a later one verifies the file's own digest with its own signature |
| VerdictRaces.RevokedIsDenied | 25-fileless-lab/gate/exec_gate.bpf.c.fragment:22-62 | a call that read its epoch after a revocation's bump denies the file if the key is gone from then on, or if no policy from then on verifies its digest with its signature |
| VerdictRaces.AdmittedExactlyWhen | 25-fileless-lab/gate/exec_gate.bpf.c.fragment:52-56 | some interleaving admits a file after the bump if and only if some policy from then on has the key and that one or a later one verifies the file |
| VerdictRaces.MixedRejection | 25-fileless-lab/gate/exec_gate.bpf.c.fragment:52-56 | a run that admits a file each of whose policies rejects it |
| VerdictRaces.AloneIsAtomic | 25-fileless-lab/gate/exec_gate.bpf.c.fragment:29-62 | the operations of an uninterrupted call add up to the atomic check of the cache runs |
| ArgvConsumers.PendingDict.PrintEvent | 06-ringbuf/execsnoop_ringbuf.py:129-142 | an ARG appends to its pid's entry, a RET prints and removes it, other pids untouched |
| ArgvConsumers.PendingTable.HandleEvent | 08-argv-libbpf/execsnoop.c:55-86 | the same on the slot pid modulo 4096, starting it over for another pid and keeping 20 arguments |
| ArgvConsumers.PendingTable.Consume | 08-argv-libbpf/execsnoop.c:55-86 | a whole stream through the array is the replay the lemmas speak about |
| ArgvConsumers.DictMeaning | 06-ringbuf/execsnoop_ringbuf.py:129-142 | after every stream a pid's entry is exactly its arguments since its last RET |
| ArgvConsumers.DictLine | 06-ringbuf/execsnoop_ringbuf.py:137-142 | what the dictionary prints at a RET, for every stream |
| ArgvConsumers.TableMeaning | 08-argv-libbpf/execsnoop.c:45-72 | a pid owns its slot if and only if it has arguments since the later of its last RET and the last ARG of another pid there, and the slot holds the first 20 of them |
| ArgvConsumers.TableLine | 08-argv-libbpf/execsnoop.c:69-84 | what the table prints at a RET, for every stream: the first 20 arguments since the break, each cut to 127 characters; no line mixes two pids |
| ArgvConsumers.NothingOverwrittenExactlyWhen | 08-argv-libbpf/execsnoop.c:62-68 | all arguments since the last RET are still there if and only if no other pid used the slot meanwhile |
| ArgvConsumers.LinesAgreeExactlyWhen | 08-argv-libbpf/execsnoop.c:74-84 | both consumers print the same at a RET if and only if nothing was overwritten and at most 20 arguments are pending |
| ArgvConsumers.CollisionLosesLine | 08-argv-libbpf/execsnoop.c:62-68 | two pids equal modulo 4096 whose stream prints a line in the dictionary and none in the table |
| ArgvConsumers.TableRefinesDict | 08-argv-libbpf/execsnoop.c:45-86 | equal output, event by event, while pending pids do not collide and hold at most 20 arguments |
| ArgvRoundTrip.TraceExecve | 08-argv-libbpf/execsnoop.bpf.c:31-70 | for any ring space, one record for each of the first 20 arguments, cut to 127 characters, and the RET after them, as many as find room |
| ArgvRoundTrip.LeftoverIsSinceComplete | 08-argv-libbpf/execsnoop.bpf.c:41-69 | what lies pending is what the commands since the last complete one sent |
| ArgvRoundTrip.OutputIsHistory | 06-ringbuf/execsnoop_ringbuf.py:129-142 | record by record, the output is the history's line at a RET and nothing at an ARG |
| ArgvRoundTrip.HistoryIsLocal | 06-ringbuf/execsnoop_ringbuf.py:129-142 | what a pid has pending and printed depends on its own records only, in any interleaving |
| ArgvRoundTrip.RoundTripWithDrops | 08-argv-libbpf/execsnoop.bpf.c:41-69 | the whole output, for any interleaving and any ring-full exits: at the j-th RET of a pid, which is that of its j-th complete command, the line that ends in the command's own first 20 arguments, cut to 127 characters, after what was sent since the complete one before; nothing at any ARG; every complete command has its RET |
| ArgvRoundTrip.RoundTrip | 08-argv-libbpf/execsnoop.bpf.c:41-69 | with nothing dropped, every nonempty command prints at its own RET, in RET order over all pids, its identity and its own first 20 arguments, each the whole string or its first 127 characters |
| ArgvRoundTrip.TableCutsShort | 08-argv-libbpf/execsnoop.c:69-73 | for any 20-argument command that loses its RET and the pid's next command, what the kernel sends prints differently in table and dictionary |
| SlotTable.FirstComeFirstServed | 23-ids/ids.c:129-151 | the slots of a never-evicting table belong to the first keys that came, in that order, without repetition |
| SlotTable.EveryKeyFaithful | 23-ids/ids.c:129-151 | over every stream, a key that has a slot is in the state all its events and no others lead to, and a key with events but no slot found the table full |
| SlotTable.LastEvent | 23-ids/ids.c:129-151 | the state an event finds is that of all the earlier events of its key, if the key is among the first to come, and otherwise there is no slot |
| PortScan.RunGood | 23-ids/ids.c:226-243 | after every packet a source's table has distinct ports, each with its true last time inside the window |
| PortScan.NoOverstatement | 23-ids/ids.c:226-243 | the table lists no port that was not hit inside the window |
| PortScan.RecordInFull | 23-ids/ids.c:233-241 | a row of 256 entries takes no new port, and no other entry moves or changes |
| PortScan.ExactExactlyWhen | 23-ids/ids.c:226-243 | the table is the set of ports last hit less than 5 s ago at every packet, if and only if no window ever held more than 256 ports |
| PortScan.AlertsApart | 23-ids/ids.c:245-251 | any two alerts for a source are more than 10 s apart |
| PortScan.AlertExactlyWhen | 23-ids/ids.c:245-251 | while no window outgrows the table, an alert is raised if and only if more than 20 ports were really hit and the last alert is more than 10 s old, with the true number |
| PortScan.AlertNeverOverstates | 23-ids/ids.c:245-251 | even past 256 ports no alert reports more ports than were hit |
| PortScanTable.EngineAlert | 23-ids/ids.c:213-251 | over all sources, a packet alerts as it would among its source's packets alone if the source is one of the first 64, and never otherwise |
| PortScanTable.ScanTable.Claim | 23-ids/ids.c:215-224 | the source's record, or the first free one initialised, or none |
| PortScanTable.ScanTable.Compact | 23-ids/ids.c:226-231 | in place, exactly the entries still inside the window, in order, other rows untouched |
| PortScanTable.ScanTable.RecordPort | 23-ids/ids.c:233-241 | the port's entry refreshed, or appended while the row has room |
| PortScanTable.ScanTable.RulePortscan | 23-ids/ids.c:213-251 | the fixed arrays after a packet, and the alert, are those of the rule on the list of sources |
| Beacon.RunHolds | 23-ids/ids.c:154-161 | over every packet stream gap number g sits in place g modulo 8 until eight more arrive |
| Beacon.RingIsRotation | 23-ids/ids.c:158-170 | what the rule sums over is the latest gaps, at most eight, rotated by where the ring stands |
| Beacon.MeanIsInterval | 23-ids/ids.c:163-170 | the mean is the time since that many packets back divided by the count |
| Beacon.AlertExactlyWhen | 23-ids/ids.c:154-193 | a packet alerts if and only if it is the first whose latest gaps are at least five, with a mean from 1 s to 300 s and a deviation of at most a tenth of it; the alert reports that mean and count |
| Beacon.SteadyExactlyWhen | 23-ids/ids.c:163-186 | gaps are accepted if and only if there are five, their mean is from 1 s to 300 s and their squared deviations average at most a hundredth of its square |
| Beacon.AlertReports | 23-ids/ids.c:188-191 | an alert reports one more than the number of gaps judged, and the time since that many packets back divided by it |
| Beacon.AtMostOneAlert | 23-ids/ids.c:181-192 | no flow ever raises a second alert |
| Beacon.LowJitterIsSteady | 23-ids/ids.c:166-186 | gaps between lo and hi, from 1 s to 300 s, with (hi - lo)^2 at most 0.04 * lo * hi are accepted whatever their distribution |
| Beacon.TenPercent | 23-ids/ids.c:166-186 | gaps from g to r * g meet that condition for every ratio r up to 1.2 |
| Beacon.SixthPacketAlerts | 23-ids/ids.c:163-192 | a flow whose first five gaps meet it alerts on its sixth packet and on no other later one |
| Beacon.NoEarlyAlert | 23-ids/ids.c:181-182 | no flow alerts before its sixth packet |
| Beacon.AlertIsRegular | 23-ids/ids.c:181-192 | whenever a flow alerts, every one of its latest gaps is within about 28 percent of the mean reported |
| BeaconTable.EngineAlert | 23-ids/ids.c:129-193 | over all flows, a packet alerts as it would among its flow's packets alone if the flow is one of the first 1024, and never otherwise |
| BeaconTable.FlowTable.FlowGet | 23-ids/ids.c:129-151 | the flow's record, or the first free one initialised, or none |
| BeaconTable.FlowTable.Note | 23-ids/ids.c:156-161 | the new gap over the oldest place, the first packet only remembered, other flows untouched |
| BeaconTable.FlowTable.Measure | 23-ids/ids.c:163-171 | the mean and variance of the gaps kept, by the two summing loops |
| BeaconTable.FlowTable.RuleBeacon | 23-ids/ids.c:154-193 | the fixed arrays after a packet, and the alert, are those of the rule on the flow's value |
| TcpLife.Hook.HandleSetState | 13-tcplife/tcplife.bpf.c:68-155 | both maps and the emitted summary after a transition: states below 4 stamp a missing birth, 2 and 9 and no others take the name; after a CLOSE the address has no birth, and no identity if it had a birth |
| TcpLife.BirthIsOfThisLifetime | 13-tcplife/tcplife.bpf.c:83-84 | whatever is evicted, a remembered birth is the time of an opening since the address's last CLOSE |
| TcpLife.MapsMean | 13-tcplife/tcplife.bpf.c:83-106 | in every run, evictions included, `births` holds the first opening since the last CLOSE or loss of the birth and `idents` the last capture since the last clean-up or loss of the identity |
| TcpLife.SummaryMeans | 13-tcplife/tcplife.bpf.c:101-154 | in every run a CLOSE is summarised if and only if such an opening exists, with the time since it and that identity or the closer's |
| TcpLife.SummarisedExactlyWhen | 13-tcplife/tcplife.bpf.c:83-106 | without eviction a CLOSE is summarised if and only if a transition of its lifetime was to ESTABLISHED, SYN_SENT or SYN_RECV |
| TcpLife.SpanByStates | 13-tcplife/tcplife.bpf.c:83-113 | the span starts at the first such transition |
| TcpLife.NameByStates | 13-tcplife/tcplife.bpf.c:93-143 | the pid is that of the lifetime's last transition to SYN_SENT or LAST_ACK, whatever ran the others |
| TcpLife.CloserByStates | 13-tcplife/tcplife.bpf.c:139-147 | without one, in this lifetime or left over, it is the closer's |
| TcpLife.IdentityRightExactlyWhen | 13-tcplife/tcplife.bpf.c:104-106 | in every run the name printed is the last captured in this lifetime, or else the closer's, if and only if this lifetime's capture is still remembered, or there is none and none is left over, or the name lost or left over is the closer's |
| TcpLife.ActiveOpenIsAttributed | 13-tcplife/tcplife.bpf.c:139-147 | a summary whose SYN_SENT was seen carries an identity captured in the same lifetime |
| TcpLife.StaleIdentity | 13-tcplife/tcplife.bpf.c:104-106 | a run in which a connection is printed under its predecessor's name |
| TcpLife.StaleAfterEviction | 13-tcplife/tcplife.bpf.c:104-106 | the same after the birth was evicted before the CLOSE |
| TcpLife.SpanNeverOverstates | 13-tcplife/tcplife.bpf.c:113 | whatever is evicted, a reported lifetime does not reach back before the first opening of that lifetime |
| TcpDurations.Hook.HandleSetState | 12-tcpstates/tcpstates.bpf.c:75-133 | the stamp and the emitted line after a transition: its socket, new state and pid, and the truncated time since the stamp, or none without one |
| TcpDurations.StampMeans | 12-tcpstates/tcpstates.bpf.c:91-103 | without eviction the stamp is the latest transition since the last CLOSE |
| TcpDurations.PrintedIsChopped | 12-tcpstates/tcpstates.bpf.c:91-97 | the spans printed for a lifetime add up to its truncated steps |
| TcpDurations.DurationsAgree | 13-tcplife/tcplife.bpf.c:83-113 | over every run, tcpstates' k spans add up to at most tcplife's lifetime and fall short by at most 999k/1000, so at most k-1, microseconds |
| TcpDurations.BoundIsAttained | 12-tcpstates/tcpstates.bpf.c:91-97 | for every k, a run to CLOSE of k spans on which tcpstates prints zeros and tcplife 999k/1000 microseconds |
| OpenCount.RunInv | 16-bpftool/opencount.bpf.c:28-42 | what every step of every interleaving keeps, against the calls counted from the steps alone: missed calls plus waiting inserts stay below the number of CPUs |
| OpenCount.BoundedLoss | 16-bpftool/opencount.bpf.c:31-40 | the stored count never exceeds the user's finished calls; a user with a counter lacks at most n-1 of them on n CPUs, none on one; a user with calls and no counter found the map full |
| OpenCount.LossIsAttained | 16-bpftool/opencount.bpf.c:33-40 | for every n, a run of n calls that stores 1 |
| OpenCount.Counter.CountOpen | 16-bpftool/opencount.bpf.c:28-42 | an uninterrupted call adds one to an existing counter, makes it 1 if there was none and there is room, and leaves every other user alone; it is its two steps in a row |
| LogTail.LinesSplit | 14-verifier/verifier.c:63-72 | the reference splitter is the splitting: its lines hold no newline and join back to the text |
| LogTail.Scan | 14-verifier/verifier.c:60-72 | one scan finds the starts of exactly the nonblank lines, in order, and the ring holds the latest of them |
| LogTail.Show | 14-verifier/verifier.c:74-81 | reading the ring from its oldest place prints the last lines in order |
| LogTail.PrintLogTail | 14-verifier/verifier.c:47-82 | for every log and n, a message for a missing or empty log, and otherwise exactly the last nonblank lines, as many as there are up to n clamped to 1..64 |
| PacketParsers.FirewallAgreesWithTap | 21-firewall/xdpfw.bpf.c:37-67 | the firewall extracts a port if and only if the tap records the frame and its transport header is whole, and it is the same port |
| PacketParsers.TapAgreesWithCounter | 23-ids/ids.bpf.c:50-78 | the tap records if and only if an IPv4 frame counted as TCP or UDP reaches past its ports, and the category is that of the recorded protocol |
| PacketParsers.ReadsWhatWasBuilt | 23-ids/ids.bpf.c:50-78 | from a frame built field by field all three readers get the fields back, ports in host order, and the tap its length |
| PacketParsers.OtherProtocolsPass | 21-firewall/xdpfw.bpf.c:55-67 | a frame of any other protocol has no port to block or record |
| PacketCounters.ParsePort | 21-firewall/xdpfw.bpf.c:37-67 | the header checks in order extract exactly the port above, never reading past the end |
| PacketCounters.Firewall.XdpFw | 21-firewall/xdpfw.bpf.c:34-77 | over any frame sequence, a frame is dropped if and only if its port is blocked, and each rule's counter has grown by exactly the drops on its port |
| PacketCounters.TapRing.IdsTap | 23-ids/ids.bpf.c:43-81 | one record for each frame the tap can read, unless the ring is full |
| PacketCounters.Categorise | 17-xdp/xdpcount.bpf.c:43-83 | the header checks in order reach exactly one category, never reading past the end |
| PacketCounters.SlotByFrame | 17-xdp/xdpcount.bpf.c:47-83 | the slot number of every frame, by ethertype, protocol and length: ARP, IPv4 and IPv6 TCP, UDP and ICMP, the other protocols, frames cut short |
| PacketCounters.PacketCounter.XdpCount | 17-xdp/xdpcount.bpf.c:42-91 | exactly one slot of the handling CPU grows, by one; over any frame sequence each CPU's slots count the frames of each category it handled, and every frame passes |
| PacketCounters.CpusAddUp | 17-xdp/xdpcount.c:107-113 | summed over the CPUs a category's slots count its frames, each once |
| PacketCounters.CategoriesAddUp | 17-xdp/xdpcount.bpf.c:42-91 | the categories together count every frame exactly once |
| PacketCounters.PacketCounter.Total | 17-xdp/xdpcount.c:107-113 | the number printed for a category is the number of its frames |

## Left out

- Loaders, attach code, skeletons, signal handling, argument parsing, printing and number formatting: plumbing without state of its own.
- Chapters 1 to 5, 7, 9 to 11, 15, 18 to 20, 22, 24 and 26, and chapter 25 apart from the gate: single-step tracing, per-direction counters, or easier instances of the patterns above.
- The user-space side of the gate, which is not in the repository: changing the policy and bumping the epoch are steps of the runs, in any order.
- `guard_bpf` in the gate: marked as pseudocode. Digests, PKCS#7 and keyrings are one abstract predicate per policy.
- `rule_suspicious_port` of the IDS: a table lookup and a flag.
- Kernel map internals: LRU order, reuse of a deleted element, and a hook that still holds a row while the poller deletes it. The map and process liveness do not change during one pass of the poller.
- Rounding of `double` and of `sqrt`: reals are exact and the deviation is compared by its square. A flow has fewer than 2^31 packets, so the gap counter does not overflow.
- Timestamps are taken to be positive where the code uses zero for "none", and not to run backwards in the theorems over runs; the functions themselves wrap as the code does.
- Copied fields that no decision depends on: the 4-tuple, byte counters, round-trip time and command names in the TCP events, the bytes after the NUL in a command name.
- Beacon.SixthPacketAlerts: the bound on the jitter is sufficient for any distribution of gaps, not necessary for each one.
- NettopPoller.StatsMap.GetNextKey: the order of keys is some fixed order of the map, as a hash table gives while nobody inserts.
- NettopConcurrency.NothingLost: no row is reaped while the calls are in flight.
