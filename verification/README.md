# Verification of the bmxd mesh daemon, jshn and the vtun handshake

A Dafny model of the algorithmic core of bmxd, the layer-3 mesh routing daemon (B.A.T.M.A.N. family),
and of two codecs kept next to it. `dafny verify dfyconfig.toml` checks everything.

| part | files | in a sentence |
|---|---|---|
| AVL tree | AvlShape, AvlContents, AvlMemory, AvlRetrace, Avl, AvlIterate, AvlPurge | the pointer tree with parent links and explicit path stacks refines a sorted sequence with duplicates, also while it is being walked and purged |
| sequence windows | Wrap16, Seqno, SeqnoInterval | 16-bit wrapping window tests are comparisons of unbounded numbers, exactly when the lounge is below the window; when the duplicate-address test divides by zero |
| path metric | Metrics, MetricsClimb | the decaying integer averages stay in range over every run, and climb to the full value on a faultless link |
| packets | Packet, PacketRoundTrip, PacketEnds | the two-pass parser inverts aggregation; kept extensions survive any number of relays; on which accepted packets the second pass fails |
| flooding | Flood, FloodReach | the network as a state machine: every generation dies out, each node relays it as best path at most once, and on a line it gets to the end |
| aggregation | Aggregate, CopyFlags, OwnOgms | one shared counter protects the buffers of all interfaces; every OGM is broadcast, from its insertion to its leaving the list, exactly as often as its clone settings say, with the flags it is due; each interface goes on numbering its own OGMs without a gap |
| queues | TaskList | the singly linked list with tail pointer, and the queues kept sorted in it |
| originators | OrigSpec, OrigSteps, Originators, OrigZero, OrigPurge, OrigNeighbours | routers, neighbour indexes, reference counts and neighbour numbers over all runs of OGMs and purges; what the address 0 does to them |
| HNA registry | HnaSpec, Hna | every announced prefix has one owner; when the daemon exits, and that it never does otherwise |
| leases | Lease | virtual addresses of tunnel clients |
| route tracking | Tracking | the kernel's table is the support of the tracked multiset |
| hash table | Hash | chained table with an iterator that tolerates removal of the current element |
| jshn | Decimal, JsonNames, JsonTree, JsonStore, JsonRun, JsonRebuild, JsonRoundTrip, JsonSession, JsonLoad | a JSON tree written as shell commands, kept in environment variables and rebuilt |
| shared | Wrappers, Sets, Seqs, Arith | optional values, finite sets, sequences, division |
| vtun | Auth, AuthFlags | challenge and flag string of the authentication |

Where the C code changes state in place, the model does too: classes with the fields of the structs, arrays,
loops. Each such method is proved equal to a function of the old state, and the lemmas say what that function
means. Heap structures (AVL tree, hash chains, lists) are tied to a ghost map of their cells and a ghost
sequence of their contents.

Results that turned out false of the code in general are given with their exact condition:

- the window tests mean what they stand for if and only if the lounge is below the path window
  (`Seqno.ClassifiesExactly`); the option ranges allow otherwise (`Seqno.OldNumberTakenForNew`);
- `update_lounged_metric` divides by zero if and only if the window is below 2 and a probe arrives for a new
  number (`Metrics.TrapsExactly`); the option range allows 1;
- the decision test of `update_orig` means "greater than every number decided" as long as the last number decided
  is within reach of 16 bits (`Seqno.DecidedExactly`; `Seqno.StepVerdicts` has the condition for all numbers); before
  the first decision the numbers just below 65536 seem to be decided (`Seqno.FirstDecision`);
- the average interval by which the duplicate-address test divides becomes zero if and only if it stands at its
  least value and a number comes after fewer milliseconds than it is ahead (`Seqno.AverageLost`), which a run can
  reach (`Seqno.HurryTraps`);
- on a packet that the plausibility pass accepts, `strip_packet` does not end if and only if it comes to an
  extension of length zero, and runs past the end if and only if it comes to an OGM less than twelve bytes before
  the end (`PacketEnds.FailsExactly`, with `EndlessPacket` and `PastEndPacket`);
- `process_ogm` follows a NULL pointer if and only if an OGM that passes the checks on its neighbour and its number
  has the primary address 0 (`OrigSteps.ProcessValid`, with `OrigZero.ZeroPrimary` and `ZeroOriginator`);
- `purge_orig` visits an originator if and only if its address is not 0 (`AvlPurge.VisitedAre`), and one with the
  address 0, which can be stored (`OrigZero.ZeroStored`), stays for ever (`ZeroUnpurged`, `ZeroForever`);
- `cb_hna_ogm_hook` stops the daemon if and only if an announcement that passes its checks is to be registered
  and repeats a supported prefix (`HnaSpec.HookSpec`, and `HostTwice` for the input);
- a document survives the shell if and only if its keys do (`JsonSession.ScriptRoundTrip`,
  `JsonSession.ParseRoundTrip`, and `DashIsLine` for a document that does not); by way of
  `json_load`, which does not quote what it evaluates, if and only if its strings have no tab, newline or double
  blank either (`JsonLoad.LoadRoundTrip`, `TwoBlanks`);
- the flag string is accepted if and only if no number in it has the value of ERANGE (`AuthFlags.FlagsArrive`,
  and `SpeedRefused`);
- the challenge stage succeeds if and only if the passwords repeat to the same mask, which different passwords
  can (`Auth.ChallengeStage`, and `PasswordPairs`).

The names in `compiled-tools/bmx/bmxd/batman.h:366-367` call the extension types 12 and 13 variable in length
and give them the numbers 10 and 11; the attribute table in `compiled-tools/bmx/bmxd/batman.c:46-64`, which the
parser uses, has them as blocks of fixed size. The model follows the table.

## Model

| member | source | states |
|---|---|---|
| Avl.AvlTree.Insert | compiled-tools/bmx/bmxd/avl.c:157-234 | afterwards the in-order contents are the old ones with exactly this entry added behind all entries of an equal or smaller key, and the tree is valid again: order, stored heights, sibling heights within one, parent pointers |
| Avl.AvlTree.Remove | compiled-tools/bmx/bmxd/avl.c:238-361 | on a non-empty tree, either takes out exactly one stored entry with an equal key and returns that one, or no entry has the key and no node of the tree has changed; the tree is valid afterwards |
| Avl.AvlTree.PathForInsert | compiled-tools/bmx/bmxd/avl.c:159-177 | the descent never overruns the two 128-slot stacks, and they hold the path to the one empty link where the key keeps the order |
| Avl.AvlTree.RetraceInsert | compiled-tools/bmx/bmxd/avl.c:185-224 | the walk back, with its early exit, leaves a balanced linked tree with the same in-order sequence and correct stored heights |
| Avl.AvlTree.PathForRemove | compiled-tools/bmx/bmxd/avl.c:238-257 | finds a node with the key that has no left child of the same key, or none exactly when the key is absent, with room left on the stacks for the way to the heir |
| Avl.AvlTree.ReplaceByHeir | compiled-tools/bmx/bmxd/avl.c:280-307 | a node with two children takes over the data of its in-order successor, whose node is unlinked; the contents lose the removed entry only |
| Avl.AvlTree.RetraceRemove | compiled-tools/bmx/bmxd/avl.c:309-357 | the walk back after a removal restores balance and stored heights and keeps the in-order sequence |
| Avl.RotateSingleAt | compiled-tools/bmx/bmxd/avl.c:117-144 | the pointer writes of a single rotation give exactly the rotated cells, with the top node as result |
| Avl.RotateDoubleAt | compiled-tools/bmx/bmxd/avl.c:146-154 | the two single rotations give the double rotation |
| AvlContents.InsertSortedIsInsertion | compiled-tools/bmx/bmxd/avl.c:157-234 | on sorted contents the insertion keeps them sorted, adds one entry to the multiset, and leaves equal keys in order of arrival |
| AvlContents.RemovedAtKeeps | compiled-tools/bmx/bmxd/avl.c:238-361 | taking out one position keeps the order and takes exactly that entry from the multiset |
| AvlShape.RebalanceKeeps | compiled-tools/bmx/bmxd/avl.c:117-154 | no rotation changes the in-order sequence or the set of nodes |
| AvlShape.RebalanceHeight | compiled-tools/bmx/bmxd/avl.c:188-224 | a rotation repairs a node that leans by two levels, and gives the height that tells whether the walk may stop |
| AvlShape.SizeAtLeastFib | compiled-tools/bmx/bmxd/avl.h:34 | a balanced tree of height h holds at least Fib(h+3)-1 entries |
| AvlShape.HeightFitsStack | compiled-tools/bmx/bmxd/avl.h:34 | with fewer than 2^64 nodes the search path is shorter than AVL_MAX_HEIGHT |
| AvlShape.HeightBelow | compiled-tools/bmx/bmxd/avl.h:34 | height bound for any number of entries: fewer than 2^(k-1) entries mean a height below 2k-3 |
| AvlIterate.Find | compiled-tools/bmx/bmxd/avl.c:43-53 | finds a node with the key if and only if one is stored |
| AvlIterate.Next | compiled-tools/bmx/bmxd/avl.c:56-75 | NULL if and only if no key is above the given one; otherwise an entry strictly above it with none between, whether or not the key itself is stored |
| AvlIterate.Iterate | compiled-tools/bmx/bmxd/avl.c:77-101 | from NULL the first node in order; from a node exactly the next one in order, found through the parent pointers; NULL after the last |
| AvlIterate.Walk | compiled-tools/bmx/bmxd/avl.c:77-101 | a walk with avl_iterate yields the in-order contents, every entry once |
| AvlPurge.PurgeLoop | compiled-tools/bmx/bmxd/originator.c:1046-1110 | the key-driven loop visits every entry behind the key 0 exactly once in ascending order although it removes the current one, whatever the decision makes of those removed before; exactly the condemned ones are gone |
| AvlPurge.GoneAt | compiled-tools/bmx/bmxd/originator.c:1046-1110 | an entry is condemned in the end if and only if its key is not 0 and the decision fell against it when it was visited, in view of those gone before it |
| AvlPurge.VisitedAre | compiled-tools/bmx/bmxd/originator.c:1046-1051 | an entry is visited if and only if its key is not 0 |
| AvlPurge.SurvivorsAre | compiled-tools/bmx/bmxd/originator.c:1046-1110 | an entry is left by the loop if and only if it was there and its key was not condemned |
| Metrics.SqRecord.UpdateLounged | compiled-tools/bmx/bmxd/metrics.c:39-97 | the record after the update with its decay loop, whenever the code does not divide by zero; see UpdateKeepsRange for what this keeps |
| Metrics.FlushForgets | compiled-tools/bmx/bmxd/metrics.c:30-35 | after a flush the next probe finds both marks more than the window behind it, wherever in the lounge its number lies: it is taken, and the sum is its own share and nothing of the old one |
| Metrics.TrapsExactly | compiled-tools/bmx/bmxd/metrics.c:39-97 | the division by ws/2 traps if and only if the window is below 2 and a probe arrives for a new number |
| Metrics.TrapsWithSmallestWindow | compiled-tools/bmx/bmxd/metrics.c:39-97 | the smallest configurable window, 1, does trap |
| Metrics.UpdateKeepsRange | compiled-tools/bmx/bmxd/metrics.c:39-97 | one update keeps the sum within m*floor(100000/m), because at least one decay step lies between two additions |
| Metrics.MetricInRange | compiled-tools/bmx/bmxd/metrics.c:30-97 | over any run of updates and flushes with a fixed window of at least 2 the path quality never exceeds PROBE_RANGE and the sum never exceeds m*floor(100000/m) |
| MetricsClimb.DecayStep | compiled-tools/bmx/bmxd/metrics.c:62-67 | a decay step takes off exactly the m-th part, rounded down |
| MetricsClimb.FaultlessClimbs | compiled-tools/bmx/bmxd/metrics.c:39-97 | over numbers in a row with the same probe p the sum is at least the share of p, grows with every number as long as it is below m times the share, and stands at m*floor(1000p/m) from then on |
| MetricsClimb.FaultlessValue | compiled-tools/bmx/bmxd/metrics.c:39-97 | the path quality of such a link comes to p or p-1 |
| MetricsClimb.ProbeAfterGap | compiled-tools/bmx/bmxd/metrics.c:50-90 | of numbers that were missed each takes off the m-th part before the probe is added, and a window of them everything |
| MetricsClimb.SilenceDecays | compiled-tools/bmx/bmxd/metrics.c:45-67 | without a probe the numbers beyond the lounge take off the m-th part each, and a window of them everything |
| MetricsClimb.SilenceFalls | compiled-tools/bmx/bmxd/metrics.c:62-67 | enough such steps bring the sum below m and the value to 0 |
| MetricsClimb.Unchanged | compiled-tools/bmx/bmxd/metrics.c:39-97 | a number reported twice, or none beyond the lounge, changes nothing |
| Metrics.AverageWearsOut | compiled-tools/bmx/bmxd/metrics.c:102-119 | one step takes a positive average to zero if and only if the probe is zero and the average stands at its least value (with a weight of one: whenever the probe is zero) |
| Metrics.WavgStaysBetween | compiled-tools/bmx/bmxd/metrics.c:102-119 | one step keeps the average between any two bounds that hold the probe and the average, as long as the sum fits 32 bits |
| Metrics.WavgRun | compiled-tools/bmx/bmxd/metrics.c:102-119 | over any run of non-zero probes the average stays within their range |
| MetricsClimb.AverageReaches | compiled-tools/bmx/bmxd/metrics.c:102-119 | an average that is fed with the same probe comes to this probe, whatever it was |
| MetricsClimb.ProbeCounts | compiled-tools/bmx/bmxd/metrics.c:102-119 | a larger probe makes the sum larger by the difference |
| Metrics.ZeroProbesExhaust | compiled-tools/bmx/bmxd/metrics.c:102-119 | zero probes, as many as it takes, wear any average down to zero |
| Seqno.OrigNode.ValidateOrigSeqno | compiled-tools/bmx/bmxd/originator.c:608-657 | where the division of the duplicate-address test has a divisor: accepts unless a known originator sends an outdated number or more numbers ahead than its average interval allows for the time that has passed; a first number is recorded with the time |
| Seqno.OrigNode.ValidateConsideredOrder | compiled-tools/bmx/bmxd/originator.c:937-973 | accepts and records the number unless one not smaller in the 16-bit window has been considered via this neighbour |
| Seqno.OrigNode.ProcessOgm | compiled-tools/bmx/bmxd/originator.c:1390-1447 | the sequence number part of process_ogm and update_orig, with the average interval, as one step of the view |
| Seqno.ClassifiesInWindow | compiled-tools/bmx/bmxd/originator.c:608-657 | with a lounge below the window, the 16-bit tests reject, call new and call acceptable exactly the numbers below last-lounge, above last, and between |
| Seqno.ClassifiesExactly | compiled-tools/bmx/bmxd/originator.c:1421-1447 | this holds for all numbers of the 65536-wide window if and only if the lounge is smaller than the window |
| Seqno.OldNumberTakenForNew | compiled-tools/bmx/bmxd/originator.c:1421-1447 | a concrete legal configuration, lounge 31 and window 10, in which an old number is taken for a new one |
| Seqno.OrderInWindow | compiled-tools/bmx/bmxd/originator.c:937-973 | the order test fails exactly for numbers not above the last one considered |
| Seqno.DecisionInWindow | compiled-tools/bmx/bmxd/originator.c:311-360 | the decision test succeeds exactly for numbers above the last one decided |
| Seqno.StepVerdicts | compiled-tools/bmx/bmxd/originator.c:1378-1447 | what becomes of one arrival, in the true numbers and in all cases: dropped, stopped, repeated, or processed, then new, acceptable, and decided or not |
| Seqno.StepRecords | compiled-tools/bmx/bmxd/originator.c:1421-1447 | what is written down of an arrival: number, time, window and decision of one that is processed, the first number of an unknown originator, and nothing otherwise |
| Seqno.DecidedExactly | compiled-tools/bmx/bmxd/originator.c:311-360 | an OGM that is processed is decided if and only if the path comparison is for it and its number is greater than every number decided, new or not, as long as the last one decided is within reach of 16 bits |
| Seqno.FirstDecision | compiled-tools/bmx/bmxd/originator.c:311-360 | when nothing has been decided, a processed OGM is decided if and only if the comparison is for it and its number is not one of those just below a multiple of 65536 |
| Seqno.SecondPathDecides | compiled-tools/bmx/bmxd/originator.c:340-356 | a number that came first via another neighbour is decided when it comes via the best one |
| SeqnoInterval.IntervalMeasured | compiled-tools/bmx/bmxd/originator.c:1428-1438 | OGMs in a row every t milliseconds bring the average interval to t, as long as the numbers do not wrap around |
| Seqno.StepKeeps | compiled-tools/bmx/bmxd/originator.c:1378-1447 | every arrival keeps the 16-bit view equal to the unbounded history |
| Seqno.RunsIncrease | compiled-tools/bmx/bmxd/originator.c:312-360 | over every run of OGMs, primary-interface notes and purges, the numbers considered per neighbour strictly increase as long as the neighbour is not purged, and those decided as long as the originator is not: none is relayed as best path twice |
| Seqno.AverageLost | compiled-tools/bmx/bmxd/originator.c:1421-1447 | the average interval, the divisor of the duplicate-address test, becomes zero in a step if and only if it stands at its least value and a new number comes after fewer milliseconds than it is ahead of the last one measured |
| Seqno.HurryTraps | compiled-tools/bmx/bmxd/originator.c:629-636 | from any average, numbers that come two at a time every millisecond lead validate_orig_seqno to the division by zero |
| Packet.ScanBlocks | compiled-tools/bmx/bmxd/schedule.c:863-890 | the inner loop takes the blocks of one type; it stops at an extension out of order, and says when a length of zero keeps it from ending |
| Packet.ReadExtensions | compiled-tools/bmx/bmxd/schedule.c:844-911 | the middle loop collects one section per type, or reports wrong order or a length of zero |
| Packet.StripPacket | compiled-tools/bmx/bmxd/schedule.c:826-971 | the pass over any plausible packet hands up what Strip describes, block by block, with the same end, the two failures included |
| Packet.CheckPlausible | compiled-tools/bmx/bmxd/schedule.c:1040-1094 | the plausibility loop decides exactly whether the block sizes lead from one block to the next up to the end |
| Packet.ProcessPacket | compiled-tools/bmx/bmxd/schedule.c:974-1102 | header checks, plausibility pass and strip pass together, on any packet |
| PacketEnds.AcceptedExactly | compiled-tools/bmx/bmxd/schedule.c:974-1094 | a packet is taken apart if and only if it is not the own one, has the version, holds what its header says and at least one block, and every block that one comes to is a proper one |
| PacketEnds.PlausibleExactly | compiled-tools/bmx/bmxd/schedule.c:1040-1094 | the plausibility pass accepts data if and only if every block that it comes to is no extension, has a size and ends within the data |
| PacketEnds.WalkDecides | compiled-tools/bmx/bmxd/schedule.c:844-911 | the nested loops over the extension types end in the way one pass over the blocks does that knows only the type before |
| PacketEnds.FailsExactly | compiled-tools/bmx/bmxd/schedule.c:826-971 | on an accepted packet strip_packet runs past the end if and only if block by block it comes to an OGM less than twelve bytes before the end, and does not end at all if and only if it comes to an extension of length zero |
| PacketEnds.SafeNeverFails | compiled-tools/bmx/bmxd/schedule.c:826-971 | a packet in which no OGM has a size below three words and none holds a length of zero is read to an end |
| PacketEnds.EndlessPacket | compiled-tools/bmx/bmxd/schedule.c:844-911 | an accepted packet of 20 bytes on which the loop does not end |
| PacketEnds.PastEndPacket | compiled-tools/bmx/bmxd/schedule.c:826-843 | an accepted packet of 8 bytes with which the loop runs past the end |
| PacketRoundTrip.PacketRoundTrip | compiled-tools/bmx/bmxd/schedule.c:974-1102 | for any sequence of well-formed OGMs that fits one packet, the plausibility pass accepts what aggregation built and strip_packet hands up exactly these OGMs in order with exactly their blocks per type |
| PacketRoundTrip.MessageReads | compiled-tools/bmx/bmxd/schedule.c:826-971 | one well-formed message in front of plausible data is read as itself, and the rest as before |
| PacketRoundTrip.SectionsRead | compiled-tools/bmx/bmxd/schedule.c:844-911 | blocks in ascending type order are read as one section per type, all of them and nothing else |
| PacketRoundTrip.OrderedMeans | compiled-tools/bmx/bmxd/batman.h:284-420 | ascending order of well-formed blocks, as stated for the proofs, is order of all pairs |
| PacketRoundTrip.CopySections | compiled-tools/bmx/bmxd/schedule.c:738-766 | the copy loop of a relay puts out the kept sections in type order |
| PacketRoundTrip.KeptOfType | compiled-tools/bmx/bmxd/schedule.c:894-906 | a relay keeps all blocks of a type or none, depending on the type alone |
| PacketRoundTrip.RelayedBytes | compiled-tools/bmx/bmxd/schedule.c:738-796 | what a relay sends is byte for byte the well-formed message with one hop less to live and only the kept blocks |
| PacketRoundTrip.SurviveHops | compiled-tools/bmx/bmxd/schedule.c:738-796 | after any number of hops, each relay with its own flags and neighbour number, the extensions of the nine kept types are unchanged byte for byte and the others are gone; the header says the last relay and the hops left, and otherwise what the originator said |
| Flood.ScheduleRcvdOgm | compiled-tools/bmx/bmxd/schedule.c:665-788 | the branches that decide whether, with which flags and with which time to live a copy is relayed |
| FloodReach.RelayedExactly | compiled-tools/bmx/bmxd/schedule.c:665-788 | when a copy is relayed, if and only if, and with which flags and time to live, told from the copy, the node and what becomes of its number |
| FloodReach.LineReached | compiled-tools/bmx/bmxd/schedule.c:665-788 | on a line of willing nodes that are open to the number, an OGM with a time to live of at least the number of hops has a run in which every node decides on it |
| FloodReach.FreshOpen | compiled-tools/bmx/bmxd/schedule.c:665-788 | nodes that have just been started are open to every number that is not just below a multiple of 65536 |
| Flood.ProcessSpec | compiled-tools/bmx/bmxd/originator.c:1327-1359 | a relay needs a positive TTL and no unidirectional flag, lowers the TTL by one, and a full relay needs a number not decided before, which is decided then |
| Flood.StepKeepsValid | compiled-tools/bmx/bmxd/originator.c:1245-1500 | every step of the network keeps: a copy never passes the same relay twice, and each relay has decided on its number |
| Flood.StepCosts | compiled-tools/bmx/bmxd/originator.c:1245-1500 | handling a copy of a generation uses up its measure, and no other move adds to it |
| Flood.FloodingEnds | compiled-tools/bmx/bmxd/schedule.c:676-788 | on every topology and with any other generations about, the copies of a generation that are handled are bounded by the measure at the start |
| Flood.OneRelayPerNode | compiled-tools/bmx/bmxd/originator.c:311-360 | in every run each node relays a generation as best path at most once |
| Flood.TrailShort | compiled-tools/bmx/bmxd/schedule.c:676-788 | a copy has passed at most as many relays as there are nodes |
| Flood.FreshGeneration | compiled-tools/bmx/bmxd/schedule.c:1415-1530 | what a generation just sent can cost |
| Flood.GenerationEnds | compiled-tools/bmx/bmxd/schedule.c:676-788 | a generation dies out after at most (N+1)*b*(1+b) handled copies |
| Flood.InitiallyValid | compiled-tools/bmx/bmxd/originator.c:976-1031 | a network of fresh nodes is valid |
| HnaSpec.EachAdds | compiled-tools/bmx/bmxd/hna.c:87-225 | registering an announcement none of whose prefixes is foreign succeeds if and only if no supported prefix is there already or comes twice |
| HnaSpec.EachDeletes | compiled-tools/bmx/bmxd/hna.c:87-225 | deleting never exits and takes out exactly the announced prefixes that the originator owns |
| HnaSpec.DropSpec | compiled-tools/bmx/bmxd/hna.c:229-286 | dropping the stored announcement frees exactly its prefixes |
| HnaSpec.AddSpec | compiled-tools/bmx/bmxd/hna.c:229-286 | a new announcement of free prefixes is registered and stored if and only if it repeats none |
| HnaSpec.CheckedSpec | compiled-tools/bmx/bmxd/hna.c:554-632 | an announcement is accepted if and only if it is no news, or comes from the server range, is well-formed and not blocked; a refused one costs another originator its own if and only if that one blocks the first item that is not fine and is late |
| HnaSpec.ReplacedSpec | compiled-tools/bmx/bmxd/hna.c:637-661 | taking over an accepted announcement stops the daemon if and only if it repeats a prefix; otherwise it replaces the old one |
| HnaSpec.HookSpec | compiled-tools/bmx/bmxd/hna.c:543-665 | for one OGM: when it is accepted, when it is rejected, when the daemon exits (both directions), and that the registry is consistent otherwise |
| HnaSpec.HostTwice | compiled-tools/bmx/bmxd/hna.c:637-661 | one host announced twice in an OGM reaches the exit |
| HnaSpec.OwnSpec | compiled-tools/bmx/bmxd/hna.c:352-368 | own networks are added and deleted without ever touching those of others |
| HnaSpec.DestroySpec | compiled-tools/bmx/bmxd/hna.c:508-513 | an originator that is purged takes its prefixes with it |
| HnaSpec.StepSpec | compiled-tools/bmx/bmxd/hna.c:87-665 | every event keeps the registry consistent, and only a repeating announcement can stop the daemon |
| HnaSpec.RunSpec | compiled-tools/bmx/bmxd/hna.c:87-665 | over any run in which no announcement repeats a prefix the illegal-state exits are never reached and the registry stays consistent |
| HnaSpec.EmptyConsistent | compiled-tools/bmx/bmxd/hna.c:688-703 | the registry of a daemon that has just started is consistent |
| HnaSpec.OneOwner | compiled-tools/bmx/bmxd/hna.c:518-538 | in a consistent registry own and foreign prefixes do not overlap, no two originators share one, and every foreign owner is in the server range |
| Hna.Plugin.Next | compiled-tools/bmx/bmxd/hna.c:205-207 | the next prefix in the order of the tree, if there is one |
| Hna.Plugin.Recalculate | compiled-tools/bmx/bmxd/hna.c:190-222 | the array that goes out lists exactly the own networks, each once |
| Hna.Plugin.AddDelHna | compiled-tools/bmx/bmxd/hna.c:87-225 | the registry and the outcome after one add or delete, with the outgoing array in step |
| Hna.Plugin.UpdateOtherHna | compiled-tools/bmx/bmxd/hna.c:229-286 | the whole announcement of an originator is registered or withdrawn |
| Hna.Plugin.CheckAnnouncement | compiled-tools/bmx/bmxd/hna.c:554-632 | the checks as the code makes them, item by item, equal Checked |
| Hna.Plugin.OgmHook | compiled-tools/bmx/bmxd/hna.c:543-665 | the hook equals Hook, whose meaning HookSpec gives |
| Hna.Plugin.Replace | compiled-tools/bmx/bmxd/hna.c:637-661 | withdraw the old announcement, then register the new one |
| Hna.Plugin.OrigDestroy | compiled-tools/bmx/bmxd/hna.c:508-513 | the prefixes of a purged originator are withdrawn |
| Hna.Plugin.OptHna | compiled-tools/bmx/bmxd/hna.c:352-368 | one own network is announced or withdrawn |
| Lease.GetIpAddr | compiled-tools/bmx/bmxd/posix/tunnel.c:1349-1435 | a request fails if and only if every suffix is leased to others and the client has none; otherwise the client gets its own slot, else the preferred one if free, else the first free one, with suffix in 1..i_max-1 of the tunnel network, and no other slot changes |
| Lease.CleanupLeasedTunIps | compiled-tools/bmx/bmxd/posix/tunnel.c:1321-1345 | exactly the leases that have run out are cleared, all of them if the lease time is 0 |
| Lease.GrantedUnique | compiled-tools/bmx/bmxd/posix/tunnel.c:1349-1435 | the answer is determined: at most one slot is granted |
| Lease.PreferenceMet | compiled-tools/bmx/bmxd/posix/tunnel.c:1353-1416 | a client without a slot gets the address it asks for if that is a free one of the network |
| Lease.NoPreference | compiled-tools/bmx/bmxd/posix/tunnel.c:1353-1431 | one that asks for an address that cannot be leased gets the first free slot from its own starting point |
| Lease.RequestSteps | compiled-tools/bmx/bmxd/posix/tunnel.c:1349-1435 | what the request method answers is a step of the runs that the safety results are about |
| Lease.StepValid | compiled-tools/bmx/bmxd/posix/tunnel.c:1321-1435 | no step gives a client two slots or a slot two clients, nor touches slot 0 |
| Lease.LostOnlyByExpiry | compiled-tools/bmx/bmxd/posix/tunnel.c:1321-1435 | a client loses its slot if and only if the collector finds its lease run out or the gateway shuts down; its own request renews the lease in place |
| Lease.LeaseHolds | compiled-tools/bmx/bmxd/posix/tunnel.c:1321-1435 | over any run of requests and collections within the lease time the client keeps its slot |
| Tracking.Tracker.TrackAndProceed | compiled-tools/bmx/bmxd/linux/route.c:215-308 | one pass finds the first matching entry and counts equal keys; the list and the verdict are those of Tracked |
| Tracking.TrackedMirrors | compiled-tools/bmx/bmxd/linux/route.c:1305-1394 | a tracked add or delete keeps: the kernel holds a key if and only if it is tracked at least once; other keys are left alone |
| Tracking.TrackedCounts | compiled-tools/bmx/bmxd/linux/route.c:215-308 | an addition tracks one entry more, a deletion one of the same type less if there is one; the kernel is told of the first and of the last of a key |
| Tracking.Tracker.AddDel | compiled-tools/bmx/bmxd/linux/route.c:1398-1562 | the kernel is told exactly when the tracking says so, and stays in step with the list |
| Tracking.Tracker.FlushTracked | compiled-tools/bmx/bmxd/linux/route.c:459-515 | the loops with deferred deletion leave exactly the entries of other types, in order, and the kernel in step |
| Tracking.FlushDelete | compiled-tools/bmx/bmxd/linux/route.c:459-515 | a deferred deletion takes out the entry it is meant for and no other |
| Tracking.SurvivorsAre | compiled-tools/bmx/bmxd/linux/route.c:459-515 | none of the entries of the flushed type is left, every other one as often as before |
| Tracking.OrigNode.UpdateRoutes | compiled-tools/bmx/bmxd/originator.c:96-153 | the host route exists if and only if there is a router and leads to it; no other route changes |
| Aggregate.Sender.SendAggregated | compiled-tools/bmx/bmxd/schedule.c:239-291 | every buffer with content is sent and emptied, LAN interfaces first |
| OwnOgms.LanFirst | compiled-tools/bmx/bmxd/schedule.c:239-291 | each interface with content sends exactly its buffer, and no packet of a WLAN interface goes before one of a LAN interface |
| OwnOgms.TickSends | compiled-tools/bmx/bmxd/schedule.c:393-662 | over a whole tick with all its flushes, what goes over the wire for an interface is what that interface has sent, in order |
| Aggregate.Sender.CopyOgm | compiled-tools/bmx/bmxd/schedule.c:448-584 | the copies of one OGM on all interfaces, and whether it is finished |
| CopyFlags.SaidInRuns | compiled-tools/bmx/bmxd/schedule.c:393-662 | at any time of any run, what an interface has got of an OGM, sent or in the buffer, is a beginning of the row of copies that LifeFlags describes, and all of it once the OGM has left the list |
| CopyFlags.LifeFlags | compiled-tools/bmx/bmxd/schedule.c:555-567 | copy number j on interface i is marked direct if and only if the OGM is and came in on i, and cloned if and only if the OGM came cloned or its turn lies behind the diversity of i |
| CopyFlags.LifeLength | compiled-tools/bmx/bmxd/schedule.c:493-560 | how many copies there are: by the clone settings for a broadcast, also by the diversity for an OGM sent back for link detection |
| CopyFlags.PacketsFilled | compiled-tools/bmx/bmxd/schedule.c:420-427 | a packet goes out before an OGM is handled if and only if the OGM would make it larger than preferred |
| CopyFlags.TickWithin | compiled-tools/bmx/bmxd/schedule.c:393-662 | no packet is larger than preferred unless it holds a single OGM |
| Aggregate.Sender.HandleOgm | compiled-tools/bmx/bmxd/schedule.c:420-616 | one turn of the loop: flush, drop or copy, trigger the next own number, then keep or remove |
| Aggregate.Sender.AggregateOutstandingOgms | compiled-tools/bmx/bmxd/schedule.c:393-662 | one tick over the due OGMs of the send list, with the packets it sends and the own OGMs it schedules |
| Aggregate.Sender.ScheduleOwn | compiled-tools/bmx/bmxd/schedule.c:1443-1530 | the next own OGM with the current number is put into the list, due within one interval from now |
| OwnOgms.OwnTickChain | compiled-tools/bmx/bmxd/schedule.c:600-649 | after any tick exactly one own OGM of each interface waits for its first turn, with the next number if the one before has had its first turn, and with the same number otherwise |
| OwnOgms.OwnNumbersGoOn | compiled-tools/bmx/bmxd/schedule.c:600-649 | over any run of ticks and relayed OGMs each interface always has one own OGM waiting, and its 16-bit number has gone up by exactly the first turns of the run |
| OwnOgms.FirstScheduled | compiled-tools/bmx/bmxd/schedule.c:1415-1530 | the own OGM of an interface that is activated begins this chain |
| Aggregate.DueHandledInRuns | compiled-tools/bmx/bmxd/schedule.c:412-418 | in every list that ticks and arrivals in any order lead to, sorted order is kept and a tick handles exactly the OGMs that are due |
| Aggregate.Sender.Schedule | compiled-tools/bmx/bmxd/schedule.c:799-822 | the new OGM comes behind all that are due at the same time or earlier and before the others |
| Aggregate.PlaceInList | compiled-tools/bmx/bmxd/schedule.c:799-822 | that place is the one that the search along the linked list finds |
| Aggregate.HandledSized | compiled-tools/bmx/bmxd/schedule.c:420-584 | every buffer length stays at or below the shared counter, the counter at or below MAX_UDPD_SIZE, and all are multiples of 4 |
| Aggregate.TickSized | compiled-tools/bmx/bmxd/schedule.c:393-662 | after a tick every buffer is empty, and every packet sent had a legal size |
| Aggregate.DroppedOnlyIfAlone | compiled-tools/bmx/bmxd/schedule.c:420-447 | after the flush an OGM is too large if and only if it is too large for a packet of its own |
| Aggregate.BroadcastCount | compiled-tools/bmx/bmxd/schedule.c:448-584 | the copies that the clone settings promise an interface, turn by turn, are max(0, ceil((c-b)/100)) if it serves the OGM and none otherwise |
| Aggregate.RunConserves | compiled-tools/bmx/bmxd/schedule.c:393-662 | over any run of ticks and arrivals, the copies an interface has got of an OGM whose bucket is drawn and those still to come stay the same in sum |
| Aggregate.SentExactly | compiled-tools/bmx/bmxd/schedule.c:393-662 | from its insertion to its leaving the list, whatever else is sent and arrives, a new OGM is put exactly max(0, ceil((c-b)/100)) times on each interface that serves it, with clone setting c and first bucket b drawn in its first turn, and never on another |
| OrigSpec.SetPrimaryCounted | compiled-tools/bmx/bmxd/originator.c:659-690 | after a change of the primary originator every pog_refcnt is still the number of other originators naming it |
| OrigSpec.PrimaryMoved | compiled-tools/bmx/bmxd/originator.c:659-690 | moving one name and the two counters with it keeps all counters exact |
| OrigSpec.InitSpec | compiled-tools/bmx/bmxd/originator.c:453-498 | the number given is the least free one and below MAX_ID4HIM, and none is given if and only if all are in use |
| OrigSpec.FreeSpec | compiled-tools/bmx/bmxd/originator.c:417-449 | the number is taken back, and the list stays ascending, distinct and complete |
| OrigSteps.ValidatePrimaryValid | compiled-tools/bmx/bmxd/originator.c:694-773 | whatever a message says about its primary interface, the counters and numbers stay exact, and a NULL pointer is followed if and only if the address in the extension, or without one the own address, is 0 |
| OrigSteps.ProcessValid | compiled-tools/bmx/bmxd/originator.c:1255-1533 | whatever becomes of an OGM, the table is valid: router in the neighbour list, list and tree alike, counters and numbers exact; the daemon crashes if and only if the OGM passes the checks on neighbour and number and its primary address is 0 |
| OrigSteps.DestroyedValid | compiled-tools/bmx/bmxd/originator.c:1097-1108 | an originator that nobody names goes without leaving a dangling name or number |
| OrigSteps.PurgeOneValid | compiled-tools/bmx/bmxd/originator.c:1057-1187 | one turn of the purge keeps the table valid and removes the originator if and only if it has expired and nobody names it |
| OrigSteps.PurgeValid | compiled-tools/bmx/bmxd/originator.c:1033-1193 | a whole purge, timed or of one interface, keeps the table valid |
| OrigSteps.PurgeOutcome | compiled-tools/bmx/bmxd/originator.c:1033-1193 | which originators a timed purge removes: those with an address above 0 that have expired and are named only by lower addresses that this purge has removed |
| OrigSteps.NumberOutcome | compiled-tools/bmx/bmxd/originator.c:1152-1154 | a timed purge takes the number of an originator that stays if and only if it was not heard as a direct neighbour in time |
| OrigNeighbours.InterfaceLost | compiled-tools/bmx/bmxd/originator.c:1057-1095 | after the loss of an interface no originator with an address above 0 has a neighbour or router on it, all its other neighbours are there in order, and no originator is gone |
| OrigNeighbours.TimePassed | compiled-tools/bmx/bmxd/originator.c:1057-1187 | after a timed purge an originator with an address above 0 that has not expired has kept its router and, in order, exactly the neighbours heard in time and the router; one that has expired and stays has neither |
| OrigNeighbours.KeptInOrder | compiled-tools/bmx/bmxd/originator.c:1160-1178 | the loop over the neighbours keeps the order and exactly those to be kept |
| OrigNeighbours.ProcessRecords | compiled-tools/bmx/bmxd/originator.c:1378-1490 | an OGM changes the ways to its own originator only, and these only if it passes the checks: its neighbour is listed as heard now, and is the router if and only if it has been chosen or was the router and is kept |
| OrigNeighbours.ProcessNotes | compiled-tools/bmx/bmxd/originator.c:976-1031 | an OGM keeps all originators and notes its neighbour and its originator as heard of now |
| OrigNeighbours.PrimaryChanged | compiled-tools/bmx/bmxd/originator.c:697-748 | an originator that names another primary one takes the number of the one before back and no other |
| OrigNeighbours.NumbersForDirect | compiled-tools/bmx/bmxd/originator.c:745-752 | a number is given for OGMs of direct neighbours only, and to their primary originator only |
| OrigSteps.DirectNumbered | compiled-tools/bmx/bmxd/originator.c:837-846 | a direct neighbour whose OGM gets through leaves its primary originator numbered and noted as heard at that time |
| OrigSteps.StepValid | compiled-tools/bmx/bmxd/originator.c:1033-1533 | every OGM and purge keeps the table valid, and exactly the OGMs named above crash the daemon |
| OrigSteps.RunsValid | compiled-tools/bmx/bmxd/originator.c:1033-1533 | the bookkeeping holds after any run of OGMs, timed purges and interface purges, and the run ends in a crash if and only if it holds such an OGM |
| OrigSteps.GotValid | compiled-tools/bmx/bmxd/originator.c:976-1031 | an originator looked up, with its time renewed, or created blank, of any address, leaves the table valid |
| OrigZero.ZeroPrimary | compiled-tools/bmx/bmxd/originator.c:694-748 | the first OGM of a direct neighbour crashes the daemon if its extension names the address 0 |
| OrigZero.ZeroOriginator | compiled-tools/bmx/bmxd/originator.c:731-748 | an OGM of originator 0 without an extension, relayed by a known neighbour, crashes it |
| OrigZero.ZeroUnpurged | compiled-tools/bmx/bmxd/originator.c:1046-1051 | no purge, timed or for a lost interface, changes anything of an originator with the address 0 |
| OrigZero.ZeroStored | compiled-tools/bmx/bmxd/originator.c:976-1051 | a run that stores such an originator with a neighbour and a router; after any purge it is there as it was, and so is the originator that it names |
| OrigZero.ZeroForever | compiled-tools/bmx/bmxd/originator.c:1033-1533 | once it is in the table, it is there after any run of OGMs and purges |
| OrigPurge.TurnsArePurge | compiled-tools/bmx/bmxd/originator.c:1046-1193 | the walk over the tree entry by entry, with PurgeOne as its turn, leads to the table that the walk by address leads to |
| OrigPurge.PurgeIsLoop | compiled-tools/bmx/bmxd/originator.c:1046-1193 | what the loop over the tree leaves, when an originator goes if it has expired and all who named it have gone, is what the purge of the table leaves: counters and tree decide alike |
| Originators.Originators.FreePifnbNode | compiled-tools/bmx/bmxd/originator.c:417-449 | the search by pointer takes out the one entry and clears its number |
| Originators.Originators.InitPifnbNode | compiled-tools/bmx/bmxd/originator.c:453-498 | the walk along the list gives the least free number, or fails if and only if there is none below the limit |
| Originators.Originators.SetPrimaryOrig | compiled-tools/bmx/bmxd/originator.c:659-690 | the new name with both counters, in a valid table |
| Originators.Originators.ValidatePrimaryOrig | compiled-tools/bmx/bmxd/originator.c:694-773 | the branches on the extension of the primary interface equal ValidatePrimary, with its crash, and keep the table valid |
| Originators.Originators.ProcessOgm | compiled-tools/bmx/bmxd/originator.c:1255-1533 | the table part of process_ogm, from the neighbour entry over the primary one and its link time to the choice of the router, keeps the table valid, and crashes exactly as ProcessValid says |
| Originators.Originators.DropNeighbours | compiled-tools/bmx/bmxd/originator.c:1071-1088 | both loops over the neighbours, which test, unlink and remove one at a time, leave in list and tree exactly those to be kept, in order |
| Originators.Originators.PurgeOneOrig | compiled-tools/bmx/bmxd/originator.c:1057-1187 | one originator is dropped, stripped of one interface, or trimmed of old neighbours, and the table is valid |
| Originators.Originators.PurgeOrig | compiled-tools/bmx/bmxd/originator.c:1033-1193 | the loop over the tree by address equals PurgeFrom and keeps the table valid |
| Hash.HashTable.Find | compiled-tools/bmx/bmxd/hash.c:243-259 | a key is found if and only if it is in the map, with its value |
| Hash.HashTable.Add | compiled-tools/bmx/bmxd/hash.c:209-241 | adds the pair if the key is new, and fails if and only if it is there |
| Hash.HashTable.Remove | compiled-tools/bmx/bmxd/hash.c:287-306 | the map without the key; tells if and only if it was there |
| Hash.HashTable.RemoveBucket | compiled-tools/bmx/bmxd/hash.c:264-280 | the element the iterator is at is unlinked from its chain, and the iterator stays usable |
| Hash.HashTable.Iterate | compiled-tools/bmx/bmxd/hash.c:113-183 | goes on to the next element of the walk, whether or not the current one has been removed, and ends exactly when nothing is left |
| Hash.HashTable.SearchForward | compiled-tools/bmx/bmxd/hash.c:168-182 | the first element of the next chain that is not empty |
| Hash.HashTable.Sweep | compiled-tools/bmx/bmxd/hash.c:113-183 | a loop that removes some of the elements it is given visits every element exactly once and leaves the others |
| Hash.HashTable.Resize | compiled-tools/bmx/bmxd/hash.c:310-331 | a table of the new size with the same map |
| Hash.AllKeysOnce | compiled-tools/bmx/bmxd/hash.c:113-183 | a walk through all chains meets every key of the map exactly once |
| TaskList.List.Add | compiled-tools/bmx/bmxd/list-batman.c:49-59 | the new entry is first, and the tail pointer is right |
| TaskList.List.AddTail | compiled-tools/bmx/bmxd/list-batman.c:69-77 | the new entry is last, and the tail pointer names it |
| TaskList.List.AddBefore | compiled-tools/bmx/bmxd/list-batman.c:79-84 | the new entry stands between its two neighbours |
| TaskList.List.Del | compiled-tools/bmx/bmxd/list-batman.c:108-119 | exactly the given entry is gone and can be added again, and the tail pointer is right even if it was last |
| TaskList.List.Register | compiled-tools/bmx/bmxd/schedule.c:144-179 | the new task stands before the first one that is due later |
| TaskList.List.RemoveTask | compiled-tools/bmx/bmxd/schedule.c:181-203 | every entry of one task is gone, wherever it stands, and the others keep their order |
| TaskList.List.WhatsNext | compiled-tools/bmx/bmxd/schedule.c:206-236 | runs the first task if and only if it is due, and otherwise returns the time until it is |
| TaskList.RegisterOrder | compiled-tools/bmx/bmxd/schedule.c:144-179 | inserting keeps the queue sorted, and first in, first out among equal times |
| TaskList.WaitIsSafe | compiled-tools/bmx/bmxd/schedule.c:206-236 | the task that runs is one with the earliest deadline, and while a wait is returned nothing is due before it is over |
| TaskList.QueueSorted | compiled-tools/bmx/bmxd/schedule.c:144-236 | whatever is registered, removed and run, the task queue stays sorted |
| JsonTree.AddElements | compiled-tools/json/jshn.c:37-63 | the loops over an object or array put out the commands for its members in order |
| JsonTree.AddElement | compiled-tools/json/jshn.c:92-155 | the command of one value, with those of its members between open and close for a table |
| JsonTree.AddJsonString | compiled-tools/json/jshn.c:65-82 | the text with every quote closed, escaped and opened again |
| JsonTree.QuoteRoundTrip | compiled-tools/json/jshn.c:65-82 | a shell reads back exactly the string, whatever it holds, and the command ends right behind it |
| JsonTree.Sanitised | compiled-tools/json/jshn.c:84-90 | the key in [A-Za-z0-9_], unchanged if and only if it was such a key already |
| JsonNames.RenderInjective | compiled-tools/json/jshn.sh:48-148 | no two variables of the store share a name |
| JsonNames.ValueInjective | compiled-tools/json/jshn.sh:48-69 | table and key can be read back from the name of a value |
| JsonStore.WordsAppended | compiled-tools/json/jshn.sh:23-27 | appending a token adds exactly one word to the list, or none if it is empty |
| JsonStore.AppendedWord | compiled-tools/json/jshn.sh:23-27 | exactly one word is added at the end of the named list, and no other variable changes |
| JsonStore.IncrementedByOne | compiled-tools/json/jshn.sh:41-46 | the number in the named variable is one higher, from zero if it was unset, and no other variable changes |
| JsonStore.Shell.AddGeneric | compiled-tools/json/jshn.sh:48-69 | the variables after one value has been added |
| JsonStore.Shell.AddTable | compiled-tools/json/jshn.sh:71-88 | the variables after a table has been opened |
| JsonRun.RunTable | compiled-tools/json/jshn.sh:71-95 | opening a table, filling it and closing it leads back to the table above, which has one member more and is otherwise the same |
| JsonStore.Shell.Init | compiled-tools/json/jshn.sh:105-132 | the names of earlier documents are cleared and the root is started |
| JsonStore.Shell.Execute | compiled-tools/json/jshn.c:92-155 | the shell runs the commands one after the other |
| JsonRun.AddedAt | compiled-tools/json/jshn.sh:48-69 | _json_add_generic touches exactly these variables and no other |
| JsonRun.OpenedAt | compiled-tools/json/jshn.sh:71-88 | opening a table touches exactly these variables, all of a number not used before |
| JsonRun.ClosedAt | compiled-tools/json/jshn.sh:90-95 | closing touches the current table only |
| JsonRun.RunMember | compiled-tools/json/jshn.sh:48-95 | a member, with all below it, is held in the store, and nothing outside its own region changes |
| JsonRun.RunMembers | compiled-tools/json/jshn.sh:48-95 | all members of a table are stored if their keys are distinct and not empty, and the key list names them in order |
| JsonRebuild.AddObjectVar | compiled-tools/json/jshn.c:202-233 | one variable becomes one member, by the type on record |
| JsonRebuild.AddObjects | compiled-tools/json/jshn.c:235-250 | the words of the key list, one after the other |
| JsonRoundTrip.ReadStored | compiled-tools/json/jshn.c:182-250 | a stored table with distinct keys is read back member by member, in order |
| JsonRoundTrip.CollisionLoses | compiled-tools/json/jshn.c:182-250 | if two keys collide or one is empty, the rebuilt object has fewer members |
| JsonRoundTrip.RebuiltExact | compiled-tools/json/jshn.c:182-250 | with distinct keys at every level the table comes back as it was |
| JsonRoundTrip.RebuiltOnlyDistinct | compiled-tools/json/jshn.c:182-250 | a table that comes back has distinct keys at every level |
| JsonSession.InitReady | compiled-tools/json/jshn.sh:125-132 | after json_init nothing of an earlier document is left over |
| JsonSession.SessionTidy | compiled-tools/json/jshn.sh:105-148 | however many documents a shell handles, every name on record is one that the next json_init clears |
| JsonSession.ScriptRoundTrip | compiled-tools/json/jshn.sh:125-148 | a document that a script builds is what is read back if and only if in every object the sanitised keys are distinct and not empty |
| JsonSession.ParseRoundTrip | compiled-tools/json/jshn.c:37-155 | a parsed document comes back from commands, store and rebuild as the same tree if and only if all object keys are non-empty strings over [A-Za-z0-9_] |
| JsonSession.DashIsLine | compiled-tools/json/jshn.sh:48-69 | the document with keys a-b and a_b does not come back, built by a script or parsed |
| JsonLoad.StringLoaded | compiled-tools/json/jshn.sh:176-178 | what json_load hands to eval for a string, and what the shell reads of it: every run of blanks, tabs and newlines has become one blank |
| JsonLoad.LoadRoundTrip | compiled-tools/json/jshn.sh:176-178 | a parsed document comes back by way of json_load if and only if all keys are non-empty strings over [A-Za-z0-9_] and no string has a tab, a newline or two blanks in a row |
| JsonLoad.TwoBlanks | compiled-tools/json/jshn.sh:176-178 | a document with two blanks in a row, which comes back when the commands are run as they are, and not by way of json_load |
| Auth.EncryptChal | compiled-tools/myvtun/my-modifications/auth.c:94-101 | every byte of the challenge is masked with the repeated password, in place |
| Auth.MaskedBack | compiled-tools/myvtun/my-modifications/auth.c:94-106 | masking with two passwords in turn gives the challenge back if and only if they repeat to the same mask |
| Auth.Cl2Cs | compiled-tools/myvtun/my-modifications/auth.c:275-291 | the challenge in letters between brackets |
| Auth.Cs2Cl | compiled-tools/myvtun/my-modifications/auth.c:293-310 | accepts exactly a bracketed text of the right length and decodes it; otherwise the buffer is untouched |
| Auth.DecodedExactly | compiled-tools/myvtun/my-modifications/auth.c:293-310 | a line is accepted if and only if twice the length of the challenge stands between the first bracket and the next closing one or the end |
| Auth.ChallengeRoundTrip | compiled-tools/myvtun/my-modifications/auth.c:275-310 | cs2cl undoes cl2cs, whatever stands before the bracket and behind it |
| Auth.ChallengeStage | compiled-tools/myvtun/my-modifications/auth.c:313-426 | the challenge stage succeeds if and only if the two passwords repeat to the same mask; the same password always does |
| Auth.PasswordPairs | compiled-tools/myvtun/my-modifications/auth.c:94-106 | passwords [1] and [1,2] fail, [x] and [x,x] pass |
| AuthFlags.Bf2Cf | compiled-tools/myvtun/my-modifications/auth.c:126-178 | the flag string of a host |
| AuthFlags.Cf2Bf | compiled-tools/myvtun/my-modifications/auth.c:185-268 | the parser as written, with fall-through of unknown letters and the comparison with ERANGE |
| AuthFlags.NumberRead | compiled-tools/myvtun/my-modifications/auth.c:185-268 | a printed number is read back up to the letter that follows |
| AuthFlags.ReadMerged | compiled-tools/myvtun/my-modifications/auth.c:126-268 | the flag string is accepted if and only if no number sent equals ERANGE, and then merged into the receiver |
| AuthFlags.FlagsArrive | compiled-tools/myvtun/my-modifications/auth.c:126-268 | bf2cf then cf2bf gives protocol, type, keep-alive, compression and cipher of the sender, and its receiving speed as the sending speed |
| AuthFlags.SpeedRefused | compiled-tools/myvtun/my-modifications/auth.c:185-268 | the flag string <TuS34> of a server that shapes its speed to 34 is refused |

## Left out

- Avl.AvlTree.Remove: an empty tree is excluded, because the code stops the daemon there before it looks at the root.
- Avl.AvlTree.Insert: fewer than 2^64 entries are required; keys compared by memcmp are numbers, so the raw layout of a key, with its compiler padding, is not modelled.
- Packet.ProcessPacket: the byte order of the sequence number is part of parsing, not a change of the buffer in place; behind the two failures, where the C code reads on or does not return, the model stops.
- PacketRoundTrip.PacketRoundTrip: extension blocks have at least one word, as the format says.
- Seqno.RunsIncrease: OGMs carry numbers in the 65536 around the last valid one, the lounge is below the windows and the clock is running (`Seqno.Admissible`); manual resets of this node's own numbers are not modelled.
- Seqno.OrigNode.ProcessOgm: the comparison of path metrics and the test of the primary originator are inputs; times do not wrap.
- Seqno.HurryTraps: the duplicate-address timeout is at least one second, its smallest option value; the division stops the model, where C leaves the outcome undefined.
- Metrics.MetricInRange: the window is fixed over a run, probes are at most 100.
- SeqnoInterval.IntervalMeasured: at a wrap of the number one interval counts as 0, because the C code divides by a negative number converted to unsigned.
- Metrics.WavgRun: the averaged value times the weight fits 32 bits.
- Flood.OneRelayPerNode: no node purges the originator of the generation in the run; naming it as a primary originator and forgetting neighbours are moves of the network.
- Flood.StepKeepsValid: a node hears copies and primary-interface notes with numbers in the 65536 around the last valid one, its lounge is below the windows and its clock is running (`Seqno.Admissible`), in all runs of the network.
- FloodReach.LineReached: a run in which no copy is lost and copies that go back along the line are not heard; that each OGM is accepted is a condition on the nodes, since acceptance is drawn at random.
- Flood.FloodingEnds: a copy that is sent is heard at most b times, which stands for interfaces, neighbours and clones; loss, reordering and the choice of the best path are free.
- Aggregate.BroadcastCount: copies sent back to a neighbour for link detection are not broadcasts and are not counted here.
- Aggregate.SentExactly: no other OGM of the same identity arrives in the run (identities are those of send nodes, not of generations); power-save mode is off, and loopback interfaces have no clones; the OGM is no larger than a packet of its own, for which see `Aggregate.DroppedOnlyIfAlone`.
- Aggregate.Sender.AggregateOutstandingOgms: the task's own next run, the time of the power-save heartbeat and the stamps of link activity are not modelled.
- Aggregate.Sender.ScheduleOwn: what the plugins append is an input, as one length; the update of the link nodes at the end of schedule_own_ogm is not modelled.
- OwnOgms.OwnNumbersGoOn: interfaces are not activated, deactivated or renumbered in the run, and no resynchronisation with the own number on the air sets it.
- Originators.Originators.ProcessOgm: which way the metrics decide, which check stops an OGM and what the plugins say are inputs; link nodes and their devices are not modelled, only the time that the primary originator was last heard directly; the sequence number of the primary interface is an input.
- Originators.Originators.PurgeOneOrig: link nodes and their devices are not modelled.
- Originators.Originators.PurgeOrig: the purge of everything at shutdown, which frees originators in spite of their counters, is not modelled.
- OrigSteps.RunsValid: interfaces are told by numbers above 0; a run ends where a NULL pointer is followed, which C leaves undefined.
- OrigSpec.InitSpec: the numbers are those in memory; on the wire only 8 bits of them are sent.
- HnaSpec.HookSpec: masks have 1 to 32 bits; for 0 bits the C code shifts by the width of the word.
- HnaSpec.OwnSpec: the count of own networks is unbounded, where the code has 16 bits; option parsing, named networks and the throw routes of own networks are not modelled.
- Hna.Plugin.OptHna: option parsing, the change of a named network and the throw routes of own networks are not modelled.
- Hna.Plugin.AddDelHna: the routes of announced networks are not modelled here; route tracking is modelled by itself.
- Lease.GetIpAddr: netmasks of at most 30 bits, which is what the option allows (`compiled-tools/bmx/bmxd/posix/tunnel.c:73-74`); addresses are in host byte order.
- Tracking.Tracker.AddDel: deletions without a track type are excluded from the mirror property; the kernel is a map, and refusals by the kernel are not modelled.
- Tracking.OrigNode.UpdateRoutes: nothing else is tracked under the key of the host route.
- Hash.HashTable.Iterate: the hash function is any function of the key; an element that is freed and another one allocated at its address while it is being iterated over is not modelled.
- TaskList.List.WhatsNext: the task that runs is returned to the caller; what it does is not modelled, and times do not wrap.
- JsonSession.ParseRoundTrip: the depth to which tables are rebuilt is a parameter, at least the depth of the document, as a store with a cycle would never be rebuilt; documents of objects, arrays, strings, 32-bit integers and booleans, without nulls and doubles; keys and strings without the character U+0000, which ends a C string and cannot stand in the environment.
- JsonLoad.LoadRoundTrip: words with *, ? or [ in them, which the shell would replace by the names of files that match, are taken as they are; IFS is the default.
- JsonStore.Shell.Init: variable names without a prefix (JSON_PREFIX is empty).
- JsonRebuild.AddObjectVar: strtok, which cuts the key list in the environment itself, is a split into words; counters that are not decimal are not modelled.
- Auth.ChallengeStage: the challenge has any length (auth.h is not part of this model); passwords are not empty; the lines are those of honest peers after the greeting.
- Auth.EncryptChal: the variant with OpenSSL is not modelled.
- AuthFlags.Bf2Cf: a string of any length that is written once; the buffer of 20 bytes and the write pointer that is kept from call to call are not modelled.
- AuthFlags.ReadMerged: numbers beyond the range of long are not modelled.
- AuthFlags.FlagsArrive: the host has one protocol and one type.
- Sockets, select, netlink, tunnel devices, scripts, process control, profiling, the debug allocator and all output.
- Options (`control.c`) and the configuration library: option values are constants or parameters.
- The gateway class and speed codec of the tunnel plugin: it would only add arithmetic on one byte.
- `avl_iter`, `hash_delete`, `list_empty` and the display functions: they would only add easy members.
- Phases of `avl_insert` and `avl_remove` are methods of their own; the C functions are one body each.
