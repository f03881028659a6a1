# Protocol and data-structure models of ns-2

Dafny models of the stateful cores of the simulator, with proofs of what they promise over whole
runs. Each core comes as a specification on values (functions over datatypes, sequences and maps),
lemmas and run-level theorems about that specification, and, since the original code changes objects
in place, classes whose methods are proved to do to their fields exactly what the specification does
to values.

| files | what they model |
|---|---|
| `AomdvModel`, `AomdvEffects`, `AomdvSteps`, `AomdvNetwork`, `AomdvBounds`, `AomdvDiscovery`, `AomdvAgent` | AOMDV multipath routing: every handler of one node, and any number of nodes over a medium that loses, duplicates, delays and overhears messages |
| `AodvModel`, `AodvEffects`, `AodvSteps`, `AodvNetwork`, `AodvBounds`, `AodvDiscovery`, `AodvAgent`, `AodvRepair` | AODV routing (RFC 3561), likewise, local repair included; `AodvRepair` is about its timer |
| `AsimModel`, `AsimScaling`, `AsimUpdate` | progressive filling in `asim::newupdate` |
| `RedQueue` | the RED fixed point in closed form |
| `TbfModel`, `TbfOutcome`, `Tbf` | the token bucket filter with its timer |
| `ReassemblyModel`, `ReassemblyOverlap`, `ReassemblyExact`, `Reassembly` | the TCP reassembly queue and the data path above it |
| `RqueueModel`, `RqueueFate`, `Rqueue` | the AODV send buffer |
| `SlotTable`, `Classifiers` | the classifier's slot table and round-robin multipath |
| `McastModel`, `Mcast` | the multicast classifier's hash tables |
| `AdmissionModel`, `AdmissionNetwork`, `AdmissionHandshake`, `Admission` | two-phase admission along a path of links |

`dafny verify dfyconfig.toml` checks the whole project.

How the routing proofs are organised. A handler is first shown to keep to a local guarantee stated
without its body (`NodeStep`): freshness moves forward only, a stored hop is an old one or the one just
heard, and whatever is sent is backed by the table. The network invariant is proved from that guarantee
alone: every message ever sent is still true of its sender, or its sender has moved on to fresher
information. The set of sent messages is never shrunk, and any node may receive any of them at any
later time, so loss, duplication, delay and overhearing are all covered.

Beside these safety results stand the ones that say what does happen: the `Effects` modules tell every
handler's outcome by the fields of the routes and messages it leaves, and the `Discovery` modules put
them together on a line of nodes of any length.

Where the code, its comments or its asserts disagree, the code is followed:

- With `AODV_LOCAL_REPAIR`, which ns2/aodv/aodv.h:49 defines, AODV's routes can loop. They do not in any
  run in which no repair timer finds its route still under repair (`LoopFreedom`). A timer that does
  always breaks the order (`TimerIff`). It leads to a loop whenever another node still routes through
  that one, over however many hops, with the same sequence number, and has not yet seen the next request
  of that one (`RepairLoops`); such a state is reached from fresh nodes (`RepairLoopReachable`). While a
  route is under repair some of the source's own asserts fail (`FailureAssertsIff`, `AssertFires`).
- `BayReassemblyQueue::add` measures a trimmed segment by the size of the whole packet. The frontier
  is exact for segments that are pairwise equal or disjoint (`FrontierTheorem`). For runs of segments
  that overlap in any way, `AlwaysExactIff` says exactly when it stays exact throughout. `FrontierIff`
  and `KeptIff` are simpler conditions, exact for one arrival while the queue is in order of both ends;
  for whole runs they are sufficient only (`OrderlyRunKeeps`). `OvershootRun`, `OverlapStalls` and
  `WaitingOverlap` show how it goes wrong.
- A multicast entry for any interface is documented (ns2/common/packet.h:605-610) to match every
  interface. It does so only if no newer entry of its pair, or group, stands in front of it
  (`WildcardIff`).
- `SA_Agent::stop` sends a TEARDOWN whether or not the flow was accepted. The accounting theorems
  assume a source that stops only after an acceptance, as the callers of `stop` do
  (ns2/tcl/test/test-suite-intserv.tcl:402-421). `TeardownIff`: a link's rate and flow count stay right
  exactly when the flow that sends the TEARDOWN holds the link.
- A token bucket filter forwards packets larger than its bucket, beyond its rate (`OversizeIsSent`); it
  keeps to its rate exactly when it forwards none (`ConformanceIff`).
- `MultiPathForwarder::classify` divides by zero, while `maxslot_` is right, exactly when no slot is occupied
  (`NoneToChoose`); a right `maxslot_` and an occupied slot are preconditions, as is a counter within the
  allocated table, which the method itself keeps.
- `aodv_rqueue::purge` unlinks expired packets without handing them to the drop target.

## Model

| member | source | states |
|---|---|---|
| `AomdvNetwork.LoopFreedom` | ns2/aomdv/aomdv.cc:780-1265 | in every state any run can reach, following any stored next hops (every path of every list) towards any destination never visits a node twice |
| `AomdvNetwork.WalkIsCloser` | ns2/aomdv/aomdv.cc:833-902 | along any chain of next hops each later node is fresher, or as fresh with a strictly smaller advertised hop count |
| `AomdvNetwork.NextHopIsCloser` | ns2/aomdv/aomdv.cc:1094-1139 | each single stored next hop is strictly closer in the order (sequence number, advertised hops) |
| `AomdvNetwork.ApplyKeeps` | ns2/aomdv/aomdv.cc:742-775 | every event at every node keeps the network invariant that ties stored paths, everything ever sent and the senders' tables together |
| `AomdvNetwork.Reach` | ns2/aomdv/aomdv.cc:201-226 | every state reached from freshly started nodes satisfies that invariant |
| `AomdvNetwork.AdvertisementUnique` | ns2/aomdv/aomdv.cc:963-964 | over a whole run, all messages of one node about one destination under one sequence number carry the same hop count |
| `AomdvNetwork.FreshClaimAgrees` | ns2/aomdv/aomdv.cc:1040-1042 | a message sent now agrees with every earlier message of the same sender, destination and number |
| `AomdvNetwork.AssertsNeverFire` | ns2/aomdv/aomdv.cc:852-858 | the route-up and hop-count asserts of recvRequest and recvReply hold for every message a run can deliver |
| `AomdvNetwork.OfferAssertsHold` | ns2/aomdv/aomdv.cc:1110-1113 | the same from the network invariant alone, for one node and one message |
| `AomdvNetwork.UpIsEven` | ns2/aomdv/aomdv.cc:481-487 | in every reachable state a route that is up has an even number and one that is down an odd one or 0: the parity asserts of recvRequest, recvError and handle_link_failure never fire |
| `AomdvBounds.SequenceNumberBound` | ns2/aomdv/aomdv.cc:929-935 | no entry and no message in flight about D is ever more than one above D's own number, and only broken routes are |
| `AomdvBounds.ReplyNumber` | ns2/aomdv/aomdv.cc:927-949 | a destination's reply never carries less than was asked for, is even, and raises its own number by exactly two only when more was asked for than it had |
| `AomdvDiscovery.DiscoveryTheorem` | ns2/aomdv/aomdv.cc:780-1265 | on any line of distinct fresh nodes, of any length, the request passed along and the reply passed back leave a walk of next hops from the source to the destination, each node with one path that knows how far it is and by which neighbour of the destination it arrives |
| `AomdvDiscovery.RequestIsAnswered` | ns2/aomdv/aomdv.cc:927-949 | in every reachable state a destination answers every request for it whose offer it keeps, back along the way it came and with a number no less than the one asked for |
| `AomdvEffects.RequestAtDestination` | ns2/aomdv/aomdv.cc:927-949 | the destination's answer field by field, sent exactly when the offer is kept |
| `AomdvEffects.RequestAnswered` | ns2/aomdv/aomdv.cc:951-1020 | the answer from the table field by field, sent exactly when the request brought a path back and has not been answered before |
| `AomdvEffects.RequestPassedOn` | ns2/aomdv/aomdv.cc:1022-1049 | the request passed on field by field, exactly when it is seen for the first time |
| `AomdvEffects.ReverseKeptIff` | ns2/aomdv/aomdv.cc:833-903 | exactly which offers of a reverse path are kept: fresher, known, disjoint and short enough, or sharing an end with a path, at the destination only when it comes by the same neighbour of the source as a path and is no longer |
| `AomdvEffects.ReverseOffer` | ns2/aomdv/aomdv.cc:833-903 | what a fresher offer leaves of the route, and one that is of no use |
| `AomdvEffects.ReverseJoins` | ns2/aomdv/aomdv.cc:846-897 | what an offer as fresh leaves of it, path by path: held longer, joined, or unchanged |
| `AomdvEffects.ForwardOffer` | ns2/aomdv/aomdv.cc:1094-1139 | exactly which offers of a forward path are kept, a second disjoint path included, and what each leaves of the route |
| `AomdvEffects.ReplyEffect` | ns2/aomdv/aomdv.cc:1083-1210 | a reply that is kept is passed on from the route it leaves, any other stops |
| `AomdvEffects.ReplyPassedOn` | ns2/aomdv/aomdv.cc:1174-1210 | the reply passed on field by field, exactly when it is for another node, to which a path is known, and for the first time |
| `AomdvEffects.ErrorOf` | ns2/aomdv/aomdv.cc:1294-1320 | a listed route loses its path through the sender, and with its last path goes down under the highest number heard |
| `AomdvEffects.ErrorEffect` | ns2/aomdv/aomdv.cc:1269-1334 | exactly the routes that went down and that others used are reported, with their new numbers |
| `AomdvEffects.FailureOf` | ns2/aomdv/aomdv.cc:481-503 | a route loses its path through the lost neighbour, and with its last path goes down under the next number or the highest heard |
| `AomdvEffects.FailureEffect` | ns2/aomdv/aomdv.cc:469-515 | exactly the routes that went down and that others used are reported, with their new numbers |
| `AomdvEffects.NeighborEffect` | ns2/aomdv/aomdv.cc:1724-1775 | the loss of a neighbour is these two and the raise of the own number by two |
| `AomdvEffects.SalvageEffect` | ns2/aomdv/aomdv.cc:1743-1759 | which routes the queued packets renew and mark |
| `AomdvEffects.PurgeOf` | ns2/aomdv/aomdv.cc:641-664 | a route whose time has passed loses exactly its expired paths, and with its last path goes down under an odd number; one that packets wait for is renewed |
| `AomdvEffects.PurgeEffect` | ns2/aomdv/aomdv.cc:631-679 | for every route of the table |
| `AomdvEffects.AskEffect` | ns2/aomdv/aomdv.cc:1409-1530 | the request of sendRequest field by field, exactly when the route is not up |
| `AomdvEffects.DataEffect` | ns2/aomdv/aomdv.cc:564-628 | what a data packet does to its route, and exactly when it triggers a request or an error |
| `AomdvSteps.RecvRequestStep` | ns2/aomdv/aomdv.cc:780-1050 | recvRequest moves each entry forward only, adds only the path just heard, and sends only what its table backs |
| `AomdvSteps.RecvReplyStep` | ns2/aomdv/aomdv.cc:1054-1265 | the same for recvReply |
| `AomdvSteps.RecvErrorStep` | ns2/aomdv/aomdv.cc:1269-1334 | the same for recvError |
| `AomdvSteps.HandleLinkFailureStep` | ns2/aomdv/aomdv.cc:469-515 | the same for handle_link_failure, including the raise of the number of each lost route |
| `AomdvSteps.NbDeleteStep` | ns2/aomdv/aomdv.cc:1724-1775 | the same for the loss of a neighbour, the salvaging of the packets queued for it included |
| `AomdvSteps.SalvageStep` | ns2/aomdv/aomdv.cc:1743-1759 | the same for that salvaging alone |
| `AomdvSteps.RtPurgeStep` | ns2/aomdv/aomdv.cc:631-679 | the same for rt_purge |
| `AomdvSteps.RtResolveStep` | ns2/aomdv/aomdv.cc:564-628 | the same for a data packet to be forwarded |
| `AomdvSteps.SendRequestStep` | ns2/aomdv/aomdv.cc:1409-1530 | the same for sendRequest |
| `AomdvSteps.UpdateReverseStep` | ns2/aomdv/aomdv.cc:833-903 | offering a reverse path never lowers (number, advertised hops) and stores nothing that was not heard |
| `AomdvSteps.UpdateForwardStep` | ns2/aomdv/aomdv.cc:1094-1139 | offering a forward path never lowers (number, advertised hops) and stores nothing that was not heard |
| `AomdvModel.UpdateReverse` | ns2/aomdv/aomdv.cc:833-903 | the entry keeps its list invariant: up exactly when the list is non-empty, count equal to length and bounded, next hops and last hops pairwise distinct, parity of the number |
| `AomdvModel.UpdateForward` | ns2/aomdv/aomdv.cc:1094-1139 | the same for the forward route |
| `AomdvModel.Unexpired` | ns2/aomdv/aomdv_rtable.cc:389-406 | a purged list holds exactly the paths that have not expired |
| `AomdvModel.MinHopcount` | ns2/aomdv/aomdv_rtable.cc:362-373 | the smallest hop count of the list, attained by one of its paths |
| `AomdvModel.FindPath` | ns2/aomdv/aomdv_rtable.cc:220-231 | the first path with the given next hop and last hop, nothing exactly when there is none |
| `AomdvAgent.UnexpiredDrops` | ns2/aomdv/aomdv_rtable.cc:389-406 | taking out one expired path does not change which paths a full purge leaves |
| `AomdvAgent.RtEntry.PathInsert` | ns2/aomdv/aomdv_rtable.cc:181-204 | the new path is added and counted, and nothing else changes |
| `AomdvAgent.RtEntry.PathLookup` | ns2/aomdv/aomdv_rtable.cc:207-217 | the scan finds the first path through a next hop |
| `AomdvAgent.RtEntry.DisjointPathLookup` | ns2/aomdv/aomdv_rtable.cc:220-231 | the scan finds the first path with both ends given |
| `AomdvAgent.RtEntry.NewDisjointPath` | ns2/aomdv/aomdv_rtable.cc:234-245 | true exactly when no path shares the next hop or the last hop |
| `AomdvAgent.RtEntry.PathLookupLasthop` | ns2/aomdv/aomdv_rtable.cc:248-259 | the scan finds the first path through a last hop |
| `AomdvAgent.RtEntry.PathDelete` | ns2/aomdv/aomdv_rtable.cc:262-274 | the first path through the next hop goes, the others keep their order, the count follows |
| `AomdvAgent.RtEntry.PathDeleteAll` | ns2/aomdv/aomdv_rtable.cc:277-285 | the list and its count are emptied |
| `AomdvAgent.RtEntry.PathGetMaxHopcount` | ns2/aomdv/aomdv_rtable.cc:347-359 | the largest hop count of the list |
| `AomdvAgent.RtEntry.PathGetMinHopcount` | ns2/aomdv/aomdv_rtable.cc:362-373 | the smallest hop count of the list |
| `AomdvAgent.RtEntry.PathPurge` | ns2/aomdv/aomdv_rtable.cc:389-406 | the nested scans terminate with exactly the unexpired paths, in order, and the right count |
| `AomdvAgent.RtEntry.RtDown` | ns2/aomdv/aomdv.cc:535-561 | a route goes down once: paths deleted, advertisement withdrawn, number untouched |
| `AomdvAgent.RtEntry.OfferReverse` | ns2/aomdv/aomdv.cc:833-903 | the in-place update of a reverse route is the specified one, with the route-up and hop-count asserts of lines 852 and 858 in place |
| `AomdvAgent.RtEntry.OfferForward` | ns2/aomdv/aomdv.cc:1094-1139 | the in-place update of a forward route is the specified one, with the route-up and hop-count asserts of lines 1110 and 1113 in place |
| `AomdvAgent.RtEntry.JoinForward` | ns2/aomdv/aomdv.cc:1110-1139 | the part for an equally fresh path: a known one is renewed, a disjoint one joins the list if there is room and it is short enough |
| `AomdvAgent.RtEntry.ErrorVia` | ns2/aomdv/aomdv.cc:1294-1320 | one destination of an error message: the path, the highest number heard, and the route if it was the last path, with the parity assert in place |
| `AomdvAgent.RtEntry.FailVia` | ns2/aomdv/aomdv.cc:481-503 | one entry of the link-failure sweep, with its parity assert in place |
| `AomdvAgent.RtEntry.Purge` | ns2/aomdv/aomdv.cc:641-664 | one entry of rt_purge, except for the request its third branch may trigger |
| `AomdvAgent.Agent.Obtain` | ns2/aomdv/aomdv_rtable.cc:470-505 | look-up that adds a blank entry when there is none |
| `AomdvAgent.Agent.RecvRequest` | ns2/aomdv/aomdv.cc:780-1050 | the method on the object table does to its value and sends exactly what the specified handler does, and leaves the table fit for the next call |
| `AomdvAgent.Agent.LearnReverse` | ns2/aomdv/aomdv.cc:821-922 | reverse route and packets waiting for it; the rest of the table is unchanged |
| `AomdvAgent.Agent.AnswerRequest` | ns2/aomdv/aomdv.cc:924-1049 | reply as destination, reply from the table, or pass on: exactly the specified case |
| `AomdvAgent.Agent.RecvReply` | ns2/aomdv/aomdv.cc:1054-1265 | likewise for recvReply |
| `AomdvAgent.Agent.LearnForward` | ns2/aomdv/aomdv.cc:1083-1171 | forward route and packets waiting for it; the rest of the table is unchanged |
| `AomdvAgent.Agent.ForwardReply` | ns2/aomdv/aomdv.cc:1174-1210 | the reply goes on along the first reverse path, once per request |
| `AomdvAgent.Agent.RecvHello` | ns2/aomdv/aomdv.cc:1663-1687 | a HELLO acts as a reply from its sender about itself |
| `AomdvAgent.Agent.RecvError` | ns2/aomdv/aomdv.cc:1269-1334 | likewise for recvError, the sweep over the listed destinations included |
| `AomdvAgent.Agent.HandleLinkFailure` | ns2/aomdv/aomdv.cc:469-515 | likewise for the sweep over the whole table |
| `AomdvAgent.Agent.NbDelete` | ns2/aomdv/aomdv.cc:1724-1775 | likewise for the loss of a neighbour, the salvaging of the packets queued for it included |
| `AomdvAgent.Agent.SalvageAll` | ns2/aomdv/aomdv.cc:1743-1759 | the loop over the packets queued for the lost neighbour: each goes along another path of its route if the route is up and it has been salvaged fewer than ten times |
| `AomdvAgent.Agent.RtPurge` | ns2/aomdv/aomdv.cc:631-679 | the sweep over the whole table does what is specified and keeps every entry's invariant, except for the requests its third branch may trigger |
| `AomdvAgent.Agent.SendRequest` | ns2/aomdv/aomdv.cc:1409-1530 | once the rate limit lets it through: own number raised by two, the request carries the number stored for the destination |
| `AomdvAgent.Agent.RtResolve` | ns2/aomdv/aomdv.cc:564-628 | a data packet is forwarded, triggers a request, or triggers an error |
| `AodvNetwork.LoopFreedom` | ns2/aodv/aodv.cc:655-937 | after every run in which no repair timer finds its route still under repair, the next-hop graph towards each destination, stopping there, has no cycle (RFC 3561 section 6.2) |
| `AodvNetwork.LoopFreedomWithoutRepair` | ns2/aodv/aodv.cc:655-937 | after every run whatever, when local repair is compiled out |
| `AodvNetwork.WithoutRepair` | ns2/aodv/aodv.cc:387-401 | without a repair begun no route is ever under repair, so that every timer is harmless |
| `AodvNetwork.AssertsNeverFire` | ns2/aodv/aodv.cc:940-957 | without a repair begun these asserts hold in every reachable state, whatever is received and whichever neighbour is lost |
| `AodvNetwork.WalkIsCloser` | ns2/aodv/aodv.cc:706-736 | along any chain of next hops each later node has a strictly better (number, distance) pair |
| `AodvNetwork.NextHopIsCloser` | ns2/aodv/aodv.cc:861-902 | each single next hop has a strictly better pair |
| `AodvNetwork.EntryProgress` | ns2/aodv/aodv.cc:404-431 | over any further such run an entry's (number, distance) pair never goes back |
| `AodvNetwork.ReachableOk` | ns2/aodv/aodv.cc:357-360 | in every state such a run reaches usable entries have even numbers, down entries odd ones or 0, and a distance is infinite exactly when its entry is down (RFC 3561 section 6.1) |
| `AodvNetwork.ApplyKeeps` | ns2/aodv/aodv.cc:619-650 | every event at every node, but a repair timer that finds its route still under repair, keeps the network invariant |
| `AodvNetwork.UsableBound` | ns2/aodv/aodv.cc:745-819 | a usable entry about D never carries a number above D's own |
| `AodvBounds.SequenceNumberBound` | ns2/aodv/aodv.cc:749-770 | no entry and no message in flight about D is ever more than one above D's own number |
| `AodvBounds.ReplyNumber` | ns2/aodv/aodv.cc:749-770 | the destination's reply is even, strictly above the number asked for, and exactly two above its own |
| `AodvDiscovery.DiscoveryTheorem` | ns2/aodv/aodv.cc:655-937 | on any line of distinct fresh nodes, of any length, the request passed along and the reply passed back leave a walk of next hops from the source to the destination, each node knowing how far it is, under one number |
| `AodvEffects.RequestLearns` | ns2/aodv/aodv.cc:655-741 | a request of one's own or seen before is ignored; every other is answered or passed on, is remembered, and offers the reverse route, which is taken exactly when fresher, or as fresh and shorter |
| `AodvEffects.RequestAtDestination` | ns2/aodv/aodv.cc:745-770 | the destination's answer field by field |
| `AodvEffects.RequestAnswered` | ns2/aodv/aodv.cc:772-800 | the answer from the table field by field, with both precursors |
| `AodvEffects.RequestPassedOn` | ns2/aodv/aodv.cc:802-819 | the request passed on field by field, one hop further and under the highest number heard |
| `AodvEffects.ReplyTaken` | ns2/aodv/aodv.cc:847-935 | a better reply is taken, and travels on exactly when it is for another node with a usable route to it |
| `AodvEffects.ReplyDropped` | ns2/aodv/aodv.cc:898-910 | any other is dropped |
| `AodvEffects.ErrorEffect` | ns2/aodv/aodv.cc:940-995 | exactly the listed routes through the sender that are no fresher go down, under the number given and without precursors, the others are unchanged, and exactly those that somebody depended on are reported |
| `AodvEffects.FailureEffect` | ns2/aodv/aodv.cc:349-384 | exactly the usable routes through the lost neighbour go down, each under the next number, and all of them are reported |
| `AodvEffects.NeighborEffect` | ns2/aodv/aodv.cc:1355-1377 | and with nb_delete the own number rises by two and the neighbour is forgotten |
| `AodvEffects.PurgeEffect` | ns2/aodv/aodv.cc:505-550 | exactly the routes that are up and whose time has passed go down, each under the next number |
| `AodvEffects.AskEffect` | ns2/aodv/aodv.cc:1064-1184 | the request of sendRequest field by field, exactly when the route is not up |
| `AodvEffects.DataEffect` | ns2/aodv/aodv.cc:438-502 | what a data packet does to its route, and exactly when it triggers a request or an error, or waits for a repair |
| `AodvEffects.HelloEffect` | ns2/aodv/aodv.cc:1309-1352 | a HELLO touches no route; a new neighbour raises the own number |
| `AodvEffects.RepairEffect` | ns2/aodv/aodv.cc:387-401 | the start and the end of a repair, route by route |
| `AodvSteps.RecvRequestStep` | ns2/aodv/aodv.cc:655-822 | recvRequest moves each entry forward only, takes a next hop only from what it heard, and promises no more than its table holds |
| `AodvSteps.RecvReplyStep` | ns2/aodv/aodv.cc:825-937 | the same for recvReply (RFC 3561 section 6.7) |
| `AodvSteps.RecvErrorStep` | ns2/aodv/aodv.cc:940-995 | the same for recvError (RFC 3561 section 6.11) |
| `AodvSteps.HandleLinkFailureStep` | ns2/aodv/aodv.cc:349-384 | the same for handle_link_failure |
| `AodvSteps.NbDeleteStep` | ns2/aodv/aodv.cc:1355-1377 | the same for the loss of a neighbour |
| `AodvSteps.RtPurgeStep` | ns2/aodv/aodv.cc:505-550 | the same for rt_purge |
| `AodvSteps.RtResolveStep` | ns2/aodv/aodv.cc:438-502 | the same for a data packet to be forwarded |
| `AodvSteps.SendRequestStep` | ns2/aodv/aodv.cc:1064-1184 | the same for sendRequest |
| `AodvSteps.RepairStartStep` | ns2/aodv/aodv.cc:387-401 | the same for the start of a local repair, which keeps the route's number and distance |
| `AodvSteps.RepairTimeoutStep` | ns2/aodv/aodv.cc:188-213 | a repair timer keeps to that guarantee exactly when the route is not still under repair |
| `AodvSteps.FailureAssertsIff` | ns2/aodv/aodv.cc:356-359 | the asserts of handle_link_failure hold for a neighbour exactly when no route through it is under repair |
| `AodvSteps.ErrorAssertsIff` | ns2/aodv/aodv.cc:953-957 | those of recvError hold for a message exactly when no listed route through its sender, with a number it covers, is under repair |
| `AodvSteps.ReplyAssertsIff` | ns2/aodv/aodv.cc:908-919 | that of recvReply holds for a reply that is taken exactly when the route it would go back along is not under repair |
| `AodvRepair.TimeoutProgress` | ns2/aodv/aodv.cc:188-213 | for one entry: the timer keeps its order exactly when the route is not still under repair |
| `AodvRepair.TimerIff` | ns2/aodv/aodv.cc:188-213 | in any state that satisfies the network invariant, a repair timer keeps the invariant exactly when its route is not still under repair |
| `AodvRepair.RepairLoops` | ns2/aodv/aodv.cc:387-401 | the converse: in any such state in which j reaches d through i, over however many hops and with the number i itself has, and has not seen i's next request, the run of a repair at i, its timer and two deliveries leaves packets going round from j through i and back to j |
| `AodvRepair.NeighboursLoop` | ns2/aodv/aodv.cc:387-401 | the shortest case: two neighbours forward to each other |
| `AodvRepair.RepairLoopReachable` | ns2/aodv/aodv.cc:387-401 | for every line of fresh nodes and every node on it but the ends: an ordinary discovery and then a failed repair at that node end with packets from the source going round through it |
| `AodvRepair.Discovered` | ns2/aodv/aodv.cc:655-937 | after such a discovery every node on the line reaches the destination through the next one, in a state that satisfies the network invariant |
| `AodvRepair.RepairFires` | ns2/aodv/aodv.cc:356-401 | with one begun, the assert of handle_link_failure fails if the route's next hop is lost |
| `AodvRepair.AssertFires` | ns2/aodv/aodv.cc:356-401 | for every line of fresh nodes and every node on it: a discovery and then a repair begun there lead to a state in which it does |
| `AodvAgent.RtEntry.RtUpdate` | ns2/aodv/aodv.cc:404-412 | all five fields of the entry are replaced |
| `AodvAgent.RtEntry.RtDown` | ns2/aodv/aodv.cc:415-431 | a route goes down once, its number untouched |
| `AodvAgent.RtEntry.LearnReverse` | ns2/aodv/aodv.cc:704-736 | the reverse route is taken exactly when fresher, or as fresh and shorter |
| `AodvAgent.RtEntry.LearnForward` | ns2/aodv/aodv.cc:861-902 | the forward route is taken exactly when fresher, or as fresh and shorter, and the reply is suppressed exactly when it is not |
| `AodvAgent.RtEntry.LoseVia` | ns2/aodv/aodv.cc:953-977 | one destination of an error message, with its asserts, given that they hold of this route |
| `AodvAgent.RtEntry.FailVia` | ns2/aodv/aodv.cc:355-372 | one entry of the link-failure sweep: number raised by one, with its asserts, given that they hold of this route |
| `AodvAgent.RtEntry.Purge` | ns2/aodv/aodv.cc:513-526 | one entry of rt_purge, with its assert, except for the request its third branch may trigger |
| `AodvAgent.Agent.Obtain` | ns2/aodv/aodv_rtable.cc:177-212 | look-up that adds a blank entry when there is none |
| `AodvAgent.Agent.RecvRequest` | ns2/aodv/aodv.cc:655-822 | the method on the object table does to its value and sends exactly what the specified handler does, and leaves the table fit for the next call |
| `AodvAgent.Agent.LearnReverse` | ns2/aodv/aodv.cc:695-741 | only the reverse route to the source changes, as specified |
| `AodvAgent.Agent.AnswerRequest` | ns2/aodv/aodv.cc:745-819 | reply as destination, reply from the table, or pass on: exactly the specified case |
| `AodvAgent.Agent.RecvReply` | ns2/aodv/aodv.cc:825-937 | likewise for recvReply, given the assert of line 919 and that no reply about the node itself carries more than its own number |
| `AodvAgent.Agent.LearnForward` | ns2/aodv/aodv.cc:847-902 | the forward route is taken exactly when fresher, or as fresh and shorter; the rest of the table is unchanged |
| `AodvAgent.Agent.PassReply` | ns2/aodv/aodv.cc:908-935 | the reply goes on along the reverse route and precursors are recorded |
| `AodvAgent.Agent.RecvError` | ns2/aodv/aodv.cc:940-995 | likewise for recvError, the sweep over the listed destinations included, given its asserts |
| `AodvAgent.Agent.HandleLinkFailure` | ns2/aodv/aodv.cc:349-384 | likewise for the sweep over the whole table, given its asserts |
| `AodvAgent.Agent.NbDelete` | ns2/aodv/aodv.cc:1355-1377 | own number raised by two, then the link failure, given its asserts |
| `AodvAgent.Agent.RtPurge` | ns2/aodv/aodv.cc:505-550 | the sweep over the whole table does what is specified, except for the requests its third branch may trigger |
| `AodvAgent.Agent.SendRequest` | ns2/aodv/aodv.cc:1064-1184 | once the rate limit lets it through: own number raised by two, the request carries the number stored for the destination |
| `AodvAgent.Agent.RtResolve` | ns2/aodv/aodv.cc:438-502 | a data packet is forwarded, triggers a request, or triggers an error |
| `AodvAgent.Agent.RecvHello` | ns2/aodv/aodv.cc:1309-1324 | a HELLO refreshes the neighbour and touches no route |
| `AodvAgent.Agent.LocalRtRepair` | ns2/aodv/aodv.cc:387-401 | the start of a local repair: the route is under repair with number and distance unchanged, and a request may go out |
| `AodvAgent.Agent.HandleRepairTimer` | ns2/aodv/aodv.cc:188-213 | the end of one: the route goes down under its old number, and the table stays fit exactly when the route was not still under repair |
| `AsimUpdate.Asim.NewUpdate` | ns2/asim/asim.cc:845-958 | for positive long flows: no link with room for them is exceeded, every long flow that crosses such a link has a bottleneck link that is full and on which no other long flow gained a larger factor, and there are at most as many rounds as long flows |
| `AsimModel.MaxMinFair` | ns2/asim/asim.cc:845-958 | that outcome is weighted max-min fair: any other fitting allocation that gives a flow more gives less to one that was no better off |
| `AsimScaling.ScaleKeeps` | ns2/asim/asim.cc:913-925 | dividing one flow keeps the loop invariant: utput is exactly the unscaled load, uc the capacity minus the scaled load and nonnegative, no open link more congested than the current factor |
| `AsimScaling.RoundDone` | ns2/asim/asim.cc:909-932 | after a round the chosen link's uc is already 0 before line 932 sets it |
| `AsimScaling.NextRound` | ns2/asim/asim.cc:934-944 | maxgamma never rises from one round to the next |
| `AsimScaling.Outcome` | ns2/asim/asim.cc:905-956 | when no open link is loaded any more, what remains is the fitting and fair allocation |
| `AsimScaling.SettledIsBottleneck` | ns2/asim/asim.cc:915-932 | a flow scaled at a link that then filled up has that link as its bottleneck |
| `AsimUpdate.Asim.CollectFlows` | ns2/asim/asim.cc:490-523 | theflows lists for every link each flow that crosses it, exactly once per visit of its route |
| `AsimUpdate.Asim.FlowsThrough` | ns2/asim/asim.cc:505-521 | the list built for one link contains each flow exactly as often as its route visits the link |
| `AsimUpdate.Asim.InitTputs` | ns2/asim/asim.cc:850-869 | after the initial loops utput and uc are the unscaled load and the capacity left by the short flows |
| `AsimUpdate.Asim.MostCongested` | ns2/asim/asim.cc:879-889 | the chosen link has the largest load per remaining capacity, -1 exactly when nothing open is loaded |
| `AsimUpdate.Asim.ScaleFlow` | ns2/asim/asim.cc:916-925 | one flow is divided and every visit of every link on its route updated |
| `AsimUpdate.Asim.ScaleOne` | ns2/asim/asim.cc:911-926 | one entry of the list keeps the invariant, scaled or skipped |
| `AsimUpdate.Asim.ScaleThrough` | ns2/asim/asim.cc:909-932 | a whole round keeps the invariant, fills the chosen link exactly and scales at least one more flow |
| `RedQueue.RedRouter.ComputeProbability` | ns2/asim/asim.h:89-112 | in all three regimes the result is the fixed point of the queue equation: 0 <= p < 1, delay = x/(1-x) at x = Lambda(1-p), and the drop law between the thresholds; p = 0 exactly below Lambda_L, p > MaxP exactly above Lambda_H |
| `RedQueue.Monotone` | ns2/asim/asim.h:89-112 | p never decreases as the load grows |
| `RedQueue.Unique` | ns2/asim/asim.h:89-112 | the queue equation has at most one solution, so the closed form is the fixed point and not just one of several |
| `RedQueue.Middle` | ns2/asim/asim.h:103-111 | the root of the quadratic solves the queue equation, with 0 < p <= MaxP |
| `RedQueue.MiddleSolves` | ns2/asim/asim.h:103-111 | the positive root lies on both the queue curve and the drop line |
| `RedQueue.PositiveRoot` | ns2/asim/asim.h:109 | the root with the plus sign is positive and satisfies the quadratic |
| `RedQueue.MinusRoot` | ns2/asim/asim.h:109 | the one with the minus sign is negative |
| `RedQueue.OnlyPositiveRoot` | ns2/asim/asim.h:109 | the quadratic has at most one positive solution |
| `RedQueue.DiscriminantPositive` | ns2/asim/asim.h:109 | the argument of the square root is positive whenever a > 0 > c, so the root exists |
| `RedQueue.Computed` | ns2/asim/asim.h:105-107 | the three coefficients are those of the quadratic obtained from the queue equation, a > 0 and c < 0 |
| `RedQueue.RedRouter.HighLoad` | ns2/asim/asim.h:97-101 | above Lambda_H the drop probability exceeds MaxP and brings the queue to exactly MaxTh |
| `RedQueue.RedRouter.LowLoad` | ns2/asim/asim.h:92-95 | below Lambda_L the queue without drops is at most MinTh |
| `RedQueue.RedRouter.Thresholds` | ns2/asim/asim.h:79-86 | the two loads of Populate are those at which the queue reaches MinTh without drops and MaxTh with MaxP dropped |
| `RedQueue.RedRouter.SolveQuadratic` | ns2/asim/asim.h:103-111 | the in-place evaluation returns a fixed point with p within MaxP |
| `TbfModel.Conformance` | ns2/adc/tbf.cc:74-149 | for packets no larger than the bucket: on every interval of every run at most bucket + rate * length bits are forwarded |
| `TbfModel.ConformanceIff` | ns2/adc/tbf.cc:74-149 | the size limit is exact: a run conforms on every interval if and only if every packet it forwards fits the bucket |
| `TbfOutcome.ArrivalTheorem` | ns2/adc/tbf.cc:74-113 | in every reachable state an arrival is sent exactly when nothing waits and the tokens accrued up to the bucket cover it, dropped exactly when it would have to wait and may not, and queued otherwise |
| `TbfOutcome.SentIffConforming` | ns2/adc/tbf.cc:97-124 | told without tokens: as long as no oversized packet has been forwarded, it is sent exactly when nothing waits and sending it keeps to bucket + rate * length on every interval |
| `TbfOutcome.CreditIs` | ns2/adc/tbf.cc:115-124 | the tokens are exactly what that bound still allows |
| `TbfOutcome.StepSpends` | ns2/adc/tbf.cc:97-149 | every event spends exactly the bits it sends |
| `TbfOutcome.Transparent` | ns2/adc/tbf.cc:74-113 | the converse of conformance: a stream that keeps to the bound by itself is forwarded packet by packet as it arrives, with nothing queued or dropped |
| `TbfModel.Conforms` | ns2/adc/tbf.cc:74-149 | the same from any state without debt, for packets that may be larger as long as none such is forwarded |
| `TbfModel.SpendBound` | ns2/adc/tbf.cc:97-124 | what is still to be forwarded is bounded by the credit at hand and what accrues |
| `TbfModel.StepCredit` | ns2/adc/tbf.cc:97-113 | one event spends no more than the credit and leaves the rest as credit |
| `TbfModel.OversizeIsSent` | ns2/adc/tbf.cc:97-149 | a run that forwards one that does not: it arrives first, is queued, sent by the timer all the same, and breaks the bound at that instant |
| `TbfModel.TimerTheorem` | ns2/adc/tbf.cc:104-149 | in every reachable state a timer is pending exactly when packets wait, due when the head's tokens are; it leaves exactly 0 tokens if and only if the head fits the bucket |
| `TbfModel.TimeoutOk` | ns2/adc/tbf.cc:126-149 | the tokens left by the unchecked send, and the timer for the next packet |
| `TbfModel.RecvOk` | ns2/adc/tbf.cc:74-113 | an arrival keeps the timer exact |
| `TbfModel.FirstInFirstOut` | ns2/adc/tbf.cc:86-149 | over every run, what was admitted is what was sent followed by what waits: packets leave in order of arrival, none lost or doubled |
| `Tbf.TBF.Recv` | ns2/adc/tbf.cc:74-113 | each arrival is sent, queued or dropped, exactly one of these, and the fields change as specified |
| `Tbf.TBF.Admit` | ns2/adc/tbf.cc:97-113 | the same for an empty queue |
| `Tbf.TBF.GetUpdatedTokens` | ns2/adc/tbf.cc:115-124 | tokens accrue up to the bucket |
| `Tbf.TBF.Timeout` | ns2/adc/tbf.cc:126-149 | the abort on an empty queue is unreachable; the head leaves and the timer is set for the next |
| `ReassemblyModel.FrontierTheorem` | ns2/baytcp/tcp-full-bay.cc:1054-1104 | for any arrival order with duplicates of pairwise equal or disjoint data segments, rcv_nxt_ is the first byte not yet received, and the queue is in order, without overlaps, and holds exactly what was received beyond (RFC 793 section 3.9) |
| `ReassemblyModel.RunKeeps` | ns2/baytcp/tcp-full-bay.cc:1377-1403 | over any further arrivals rcv_nxt_ never decreases |
| `ReassemblyModel.RecvKeeps` | ns2/baytcp/tcp-full-bay.cc:801-829 | one arrival keeps the frontier exact and never moves it back |
| `ReassemblyModel.OrderIrrelevant` | ns2/baytcp/tcp-full-bay.cc:1314-1404 | where the frontier stands depends only on which bytes arrived, not on the order |
| `ReassemblyModel.DeliverTakes` | ns2/baytcp/tcp-full-bay.cc:1382-1403 | the delivery loop consumes a gapless prefix of the queue and stops at the first gap |
| `ReassemblyModel.DeliverFlags` | ns2/baytcp/tcp-full-bay.cc:1382-1403 | the flags returned are exactly those of the segments consumed |
| `ReassemblyModel.AddFlags` | ns2/baytcp/tcp-full-bay.cc:1374-1404 | and none while a hole is still to be filled |
| `ReassemblyModel.InsertSorted` | ns2/baytcp/tcp-full-bay.cc:1324-1371 | the search keeps a queue in order of both ends in that order, for a segment that neither lies inside a waiting one nor reaches round the front of one |
| `ReassemblyModel.InsertMembers` | ns2/baytcp/tcp-full-bay.cc:1324-1371 | nothing is lost or doubled by an insertion |
| `ReassemblyModel.NoPartialOverlap` | ns2/baytcp/tcp-full-bay.cc:801-829 | a segment that starts below the frontier lies wholly below it |
| `ReassemblyOverlap.FrontierIff` | ns2/baytcp/tcp-full-bay.cc:801-1385 | while the queue is in order of both ends, for segments that overlap in any way: an arrival leaves rcv_nxt_ at the first missing byte if and only if it lies below the frontier, or beyond it, or nothing is waiting, or it starts at the frontier and ends before what is waiting |
| `ReassemblyOverlap.KeptIff` | ns2/baytcp/tcp-full-bay.cc:801-1385 | and leaves the queue in order of both ends if and only if, moreover, when it is to wait it neither lies inside a waiting segment nor reaches round the front of one |
| `ReassemblyOverlap.OrderlyRunKeeps` | ns2/baytcp/tcp-full-bay.cc:801-1404 | a sufficient condition for whole runs: when every arrival satisfies these two conditions, rcv_nxt_ is the first missing byte throughout |
| `ReassemblyExact.AlwaysExactIff` | ns2/baytcp/tcp-full-bay.cc:801-1404 | the exact condition for every run of segments, overlapping in any way: rcv_nxt_ is the first missing byte after every arrival if and only if every arrival lies below the frontier, or beyond it, or nothing is waiting, or it joins up: with the recorded end it comes before everything waiting, delivery stops where nothing waiting overlaps, and the bytes recorded past its own end are waiting too |
| `ReassemblyExact.AdvancesIff` | ns2/baytcp/tcp-full-bay.cc:801-1404 | the same for one arrival, in any state such a run leads to |
| `ReassemblyExact.JoinsIff` | ns2/baytcp/tcp-full-bay.cc:1319-1403 | the same for an arrival that reaches the frontier while something waits |
| `ReassemblyExact.StopsIff` | ns2/baytcp/tcp-full-bay.cc:1382-1403 | delivery stops at a byte that nothing waiting holds exactly when the last segment delivered reaches furthest and the others start beyond it |
| `ReassemblyExact.InsertLoose` | ns2/baytcp/tcp-full-bay.cc:1324-1371 | an insertion, whatever overlaps, never puts a segment behind one that starts at or after its end |
| `ReassemblyExact.OrderlyAdvances` | ns2/baytcp/tcp-full-bay.cc:801-1404 | an arrival that satisfies the simpler conditions satisfies the exact one |
| `ReassemblyExact.WaitingOverlap` | ns2/baytcp/tcp-full-bay.cc:1344-1403 | two segments overlap while they wait and a third fills the gap: the frontier is right exactly when the second does not lie inside the first |
| `ReassemblyOverlap.TrimmedEnd` | ns2/baytcp/tcp-full-bay.cc:1319-1320 | the cause: the end recorded for a segment that reaches past the frontier is its own end exactly when nothing was trimmed or the queue is empty |
| `ReassemblyOverlap.OvershootBy` | ns2/baytcp/tcp-full-bay.cc:1319-1320 | so with something waiting further on the frontier passes the segment's end by exactly the number of bytes trimmed |
| `ReassemblyOverlap.Overshoot` | ns2/baytcp/tcp-full-bay.cc:1319-1385 | and so passes a byte that no arrival holds |
| `ReassemblyOverlap.OvershootRun` | ns2/baytcp/tcp-full-bay.cc:1319-1385 | from the beginning of a connection, for any three segments of that shape: the frontier passes the last one's end by the bytes it repeats |
| `ReassemblyOverlap.OvershootExample` | ns2/baytcp/tcp-full-bay.cc:1319-1385 | bytes 0 to 10, 20 to 21 and then 8 to 12: the frontier stands at 14 though byte 12 is missing |
| `ReassemblyOverlap.OverlapStalls` | ns2/baytcp/tcp-full-bay.cc:1344-1378 | an overlapping pair can be queued the wrong way round and stall the frontier at a byte that did arrive |
| `Reassembly.BayReassemblyQueue.Add` | ns2/baytcp/tcp-full-bay.cc:1314-1404 | on a well-linked list, does to the stored segments and rcv_nxt_ what the specified add does, and returns the flags of what was delivered |
| `Reassembly.BayReassemblyQueue.Insert` | ns2/baytcp/tcp-full-bay.cc:1324-1371 | the rewiring puts the segment in its specified place and leaves the list well linked |
| `Reassembly.BayReassemblyQueue.Search` | ns2/baytcp/tcp-full-bay.cc:1344-1352 | the search stops at the first segment that starts at or after the new one's end |
| `Reassembly.BayReassemblyQueue.LinkFirst` | ns2/baytcp/tcp-full-bay.cc:1354-1359 | linking in at the head |
| `Reassembly.BayReassemblyQueue.LinkAfter` | ns2/baytcp/tcp-full-bay.cc:1361-1370 | linking in behind a node, in the middle or at the end |
| `Reassembly.BayReassemblyQueue.Unlink` | ns2/baytcp/tcp-full-bay.cc:1388-1395 | taking out the first node leaves the rest well linked |
| `Reassembly.BayReassemblyQueue.Deliver` | ns2/baytcp/tcp-full-bay.cc:1380-1403 | the loop delivers the specified prefix and collects its flags |
| `Reassembly.BayReassemblyQueue.Clear` | ns2/baytcp/tcp-full-bay.cc:1297-1307 | the queue is empty afterwards |
| `Reassembly.InsertedLinks` | ns2/baytcp/tcp-full-bay.cc:1354-1370 | setting the four links around a new node yields a well-linked list with one more segment |
| `Reassembly.BayFullTcpAgent.TrimFront` | ns2/baytcp/tcp-full-bay.cc:801-829 | how much is trimmed; a segment with nothing new is acknowledged at once |
| `Reassembly.BayFullTcpAgent.Recv` | ns2/baytcp/tcp-full-bay.cc:1054-1104 | trimming and data path together change rcv_nxt_ and the queue as specified; a delayed acknowledgement is asked for exactly in the common in-order case, an immediate one exactly for a segment with nothing new and for one queued or filling a hole whose delivery brings no PUSH |
| `Reassembly.BayFullTcpAgent.RecvInStream` | ns2/baytcp/tcp-full-bay.cc:1054-1104 | each arrival leaves rcv_nxt_ at the first missing byte and never lower |
| `RqueueModel.BufferTheorem` | ns2/aodv/aodv_rqueue.cc:51-138 | over every run under a clock that does not go back: at most 64 packets wait, each destination is served in arrival order, no packet leaves after its 30 seconds, and the two purges agree |
| `RqueueFate.Conservation` | ns2/aodv/aodv_rqueue.cc:51-260 | over every run each packet ever buffered is waiting, was handed out, or was lost because its 30 seconds had passed or because 64 valid packets waited when one more came, and exactly one of these |
| `RqueueFate.StepFate` | ns2/aodv/aodv_rqueue.cc:51-138 | the same for one operation |
| `RqueueFate.PutEffect` | ns2/aodv/aodv_rqueue.cc:51-85 | the new packet stands last, with its 30 seconds; in front of it, in order, exactly the packets that have not expired, without the oldest if 64 of them waited |
| `RqueueFate.TakeEffect` | ns2/aodv/aodv_rqueue.cc:89-103 | deque hands out the oldest packet that has not expired and keeps all others that have not |
| `RqueueFate.TakeForEffect` | ns2/aodv/aodv_rqueue.cc:107-138 | deque(dst) likewise for the oldest for dst |
| `RqueueModel.DequeForOldest` | ns2/aodv/aodv_rqueue.cc:107-138 | deque(dst) returns the oldest unexpired packet for dst, keeps the order of the rest, and returns nothing exactly when there is none |
| `RqueueModel.PurgesAgree` | ns2/aodv/aodv_rqueue.cc:205-260 | the scanning purge and the commented-out head-only purge leave the same queue exactly when no expired packet stands behind an unexpired one |
| `RqueueModel.PurgedMembers` | ns2/aodv/aodv_rqueue.cc:233-260 | what a purge leaves is exactly the packets whose time has not passed |
| `RqueueModel.PurgedRemoved` | ns2/aodv/aodv_rqueue.cc:233-260 | taking out one expired packet does not change what a purge leaves |
| `RqueueModel.StepKeeps` | ns2/aodv/aodv_rqueue.cc:51-138 | every operation keeps the queue in order of arrival and expiry and the history in order per destination |
| `RqueueModel.DepartKeeps` | ns2/aodv/aodv_rqueue.cc:107-138 | handing out the first packet for its destination keeps the order per destination |
| `Rqueue.SendBuffer.Enque` | ns2/aodv/aodv_rqueue.cc:51-85 | purges, evicts the head of a full queue, stamps and appends; the eviction is reported as a timeout only at the very instant of expiry |
| `Rqueue.SendBuffer.Deque` | ns2/aodv/aodv_rqueue.cc:89-103 | purges and hands out the head |
| `Rqueue.SendBuffer.DequeFor` | ns2/aodv/aodv_rqueue.cc:107-138 | the linked search and the three unlinking cases do what the specified deque does |
| `Rqueue.SendBuffer.Find` | ns2/aodv/aodv_rqueue.cc:141-150 | true exactly when a packet for the destination is queued |
| `Rqueue.SendBuffer.RemoveHead` | ns2/aodv/aodv_rqueue.cc:160-174 | the head leaves; an empty queue stays empty |
| `Rqueue.SendBuffer.FindPacketWithDst` | ns2/aodv/aodv_rqueue.cc:177-187 | the first packet for the destination and its predecessor |
| `Rqueue.SendBuffer.FindAgedPacket` | ns2/aodv/aodv_rqueue.cc:220-230 | the first expired packet and its predecessor, or none at all |
| `Rqueue.SendBuffer.Unlink` | ns2/aodv/aodv_rqueue.cc:115-131 | each of the three cases takes out exactly the packet found, with the assert on its predecessor |
| `Rqueue.SendBuffer.Purge` | ns2/aodv/aodv_rqueue.cc:233-260 | the repeated scans terminate with exactly the unexpired packets, in order |
| `SlotTable.RoundRobin` | ns2/classifier/classifier-mpath.cc:101-107 | with m occupied slots, m packets in a row on an unchanged table use each occupied slot exactly once, wherever the counter stands |
| `SlotTable.RoundIs` | ns2/classifier/classifier-mpath.cc:101-107 | in which order: the occupied slots from the counter on, then those before it |
| `SlotTable.InstallTop` | ns2/classifier/classifier.cc:103-110 | install keeps maxslot_ at the highest occupied slot exactly when it installs an object, or empties a slot below it |
| `SlotTable.ClearTop` | ns2/classifier/classifier.cc:112-119 | where the highest occupied slot is after a clear |
| `SlotTable.NoneToChoose` | ns2/classifier/classifier-mpath.cc:97-103 | while maxslot_ is right, the multipath choice divides by zero exactly when no slot is occupied, which a clear brings about exactly when it empties the only occupied one |
| `SlotTable.NullInstalled` | ns2/classifier/classifier.cc:103-110 | a null object installed at or above maxslot_ leaves it too high, so that nothing divides by zero even if no slot is occupied |
| `Classifiers.Classifier.Alloc` | ns2/classifier/classifier.cc:78-100 | the new array is the old one with empty slots behind, its size doubled until the slot fits |
| `Classifiers.Classifier.Install` | ns2/classifier/classifier.cc:103-110 | the slot is written, growing the table if needed, and maxslot_ stays right exactly in the cases above |
| `Classifiers.Classifier.Clear` | ns2/classifier/classifier.cc:112-119 | the slot is emptied and the loop finds the next occupied slot below |
| `Classifiers.Classifier.GetNxt` | ns2/classifier/classifier.cc:126-135 | the lowest slot that is free or holds the null agent, the table growing only when there is none |
| `Classifiers.Classifier.InstallNext` | ns2/classifier/classifier.cc:185-189 | the object goes into the slot just above all occupied ones |
| `Classifiers.MultiPathForwarder.Classify` | ns2/classifier/classifier-mpath.cc:101-107 | the search loop ends at an occupied slot, the next one round from the counter, also when a clear has left the counter beyond the table |
| `Classifiers.MultiPathForwarder.ClassifyFlow` | ns2/classifier/classifier-mpath.cc:95-100 | a flow's slot is occupied and depends only on its hash and the table |
| `Mcast.HashTable.Lookup` | ns2/classifier/classifier-mcast.cc:86-112 | the bucket search returns the entry that a newest-first scan of the whole flat list returns, any-interface queries included |
| `Mcast.HashTable.SetHash` | ns2/classifier/classifier-mcast.cc:165-176 | a new entry in front of its bucket is a new entry in front of the flat list |
| `Mcast.HashTable.ChangeIface` | ns2/classifier/classifier-mcast.cc:258-269 | changing a node in place changes exactly the newest matching entry of the flat list |
| `Mcast.HashTable.Clear` | ns2/classifier/classifier-mcast.cc:67-78 | both views are empty afterwards |
| `Mcast.Pushed` | ns2/classifier/classifier-mcast.cc:165-176 | a node linked to the old head of its bucket extends the chains to the longer list |
| `Mcast.MCastClassifier.SetHash` | ns2/classifier/classifier-mcast.cc:178-201 | an entry goes into the table its source selects, the other is unchanged |
| `Mcast.MCastClassifier.ChangeIface` | ns2/classifier/classifier-mcast.cc:258-269 | only the table selected by the source changes, and there only the newest matching entry |
| `Mcast.MCastClassifier.ClearAll` | ns2/classifier/classifier-mcast.cc:80-84 | both lists are empty afterwards |
| `Mcast.MCastClassifier.Classify` | ns2/classifier/classifier-mcast.cc:114-154 | the look-ups in the two hash tables give the outcome that scans of the two flat lists give |
| `McastModel.MissIff` | ns2/classifier/classifier-mcast.cc:126-146 | a cache miss is reported exactly when neither list has any entry for the packet |
| `McastModel.WildcardIff` | ns2/classifier/classifier-mcast.cc:126-154 | a packet passes exactly when an entry names its interface, or its pair (its group, if the pair has no entry) has an entry for any interface with no newer entry of that pair (group) |
| `McastModel.WhichSlot` | ns2/classifier/classifier-mcast.cc:125-154 | which slot: that of the newest entry of the pair on the packet's interface, whatever the shared tree holds; failing that of the newest of the group on it; failing that of the newest of the pair, and then of the group, if it accepts any interface |
| `McastModel.ChangesNewest` | ns2/classifier/classifier-mcast.cc:258-269 | a change of interface touches the newest entry on the old one and nothing else |
| `McastModel.Shadowed` | ns2/classifier/classifier-mcast.cc:126-154 | a newer entry for another interface hides an entry that accepts any |
| `McastModel.ChangeBack` | ns2/classifier/classifier-mcast.cc:258-269 | changing an interface and back restores the list exactly when there was nothing to change or no newer entry had the second interface |
| `McastModel.Hash` | ns2/classifier/classifier-mcast.h:73-78 | every address pair hashes to one of the 256 buckets |
| `AdmissionNetwork.Conservation` | ns2/adc/param-adc.cc:79-97 | in every reachable state each link's resv_rate_ is the sum of the rates of the flows that hold it, between 0 and utilization times bandwidth, and numfl_, which starts at -1, is one less than their number |
| `AdmissionNetwork.AllOrNothing` | ns2/adc/salink.cc:86-139 | once a flow's CONFIRM has passed its whole path, every link holds its rate if it was accepted and none if it was rejected |
| `AdmissionNetwork.DecisionIsJoint` | ns2/adc/salink.cc:87-110 | the decision that reaches the source is positive exactly when every link of the path has admitted the flow |
| `AdmissionNetwork.NothingLeaks` | ns2/adc/salink.cc:114-132 | when every flow is idle again nothing is reserved and no pending slot is taken |
| `AdmissionHandshake.HandshakeTheorem` | ns2/adc/salink.cc:74-141 | a whole handshake, on a path of any length and in any state of the network: the flow is accepted exactly when its rate fits at every link, is then reserved and counted at every link, and has otherwise changed nothing; no slot of it is left |
| `AdmissionHandshake.TeardownTheorem` | ns2/adc/salink.cc:127-132 | when an accepted flow stops, its TEARDOWN releases its rate at every link of a path of any length and changes nothing else |
| `AdmissionHandshake.RequestEffect` | ns2/adc/salink.cc:87-110 | a link admits exactly when the reserved rates and the flow's fit its share, and then takes the first free slot |
| `AdmissionHandshake.ConfirmEffect` | ns2/adc/salink.cc:114-132 | what a CONFIRM and a TEARDOWN change, and that answers change nothing |
| `AdmissionHandshake.TurnEffect` | ns2/adc/sa.cc:175-203 | an answer leads to a CONFIRM with the same decision, and the flow is accepted exactly if it was positive |
| `AdmissionNetwork.TeardownIff` | ns2/adc/sa.cc:136-143 | a TEARDOWN leaves a link's resv_rate_ and numfl_ right exactly when the flow holds the link, whatever its rate |
| `AdmissionNetwork.StepKeeps` | ns2/adc/salink.cc:74-141 | every step of every flow, in any interleaving, keeps the books of every link and the state of every handshake consistent |
| `AdmissionNetwork.RequestLink` | ns2/adc/salink.cc:87-110 | a REQUEST enters the pending table exactly when admitted, and the link counts it |
| `AdmissionNetwork.AcceptLink` | ns2/adc/salink.cc:114-126 | the CONFIRM of an accepted flow frees its pending slot and keeps its rate |
| `AdmissionNetwork.RejectLink` | ns2/adc/salink.cc:114-126 | the CONFIRM of a rejected flow frees its slot and rolls back exactly what the link had admitted |
| `AdmissionNetwork.TeardownLink` | ns2/adc/salink.cc:127-132 | a TEARDOWN releases exactly what the flow held |
| `Admission.ParamAdc.AdmitFlow` | ns2/adc/param-adc.cc:90-97 | admits exactly when the sum stays within the share of the bandwidth, and reserves then only |
| `Admission.SALink.Recv` | ns2/adc/salink.cc:74-141 | the packet switch changes the link and the packet as specified |
| `Admission.SALink.Lookup` | ns2/adc/salink.cc:185-192 | the first pending slot of a flow, -1 if it has none |
| `Admission.SALink.GetNxt` | ns2/adc/salink.cc:194-205 | the first free slot, given that there is one |
| `Admission.SAAgent.Recv` | ns2/adc/sa.cc:175-208 | an answer is turned into a CONFIRM with the same decision, and the source runs exactly if it was positive |
| `Admission.SAAgent.SendReq` | ns2/adc/sa.cc:146-159 | the REQUEST carries the flow's rate and a positive decision |
| `Admission.SAAgent.Stop` | ns2/adc/sa.cc:136-143 | a TEARDOWN of the flow's rate goes out whether or not the source was running, and it is not running afterwards |

## Left out

- Tcl commands, variable binding, tracing, logging, packet allocation and header layout: input/output and foreign calls.
- Random jitter and the event scheduler: the environment chooses the order of events, and times that do not go back where time matters.
- Integer width, floating-point rounding and array capacity: sequence numbers, hop counts and byte numbers are unbounded, rates and times are exact reals, RERR destination lists are maps. Comparisons of sequence numbers are plain in the original too.
- `INFINITY` and `INFINITY2`: modelled as a separate "unadvertised" or "infinite" value, not as the number 0xff.
- AOMDV: link-layer failure detection, with the local repair and the salvaging inside it, and the link-disjoint branches, which are not compiled in; which packets are queued for a lost neighbour is the environment's choice (`queued`); `rt_last_hop_count`, `rt_hops` and the per-hop timers, which no handler's decision reads.
- AOMDV and AODV: the route-request rate limit, the expanding-ring TTL and the discovery latency; whether a request may go out is the environment's choice (`granted`, the `Request` event), and so is which destinations have packets waiting (`buffered`, `renewed`, `waiting`).
- AOMDV and AODV: the forwarding of data packets themselves; only what it does to route entries and which errors and requests it triggers.
- AomdvAgent.RtEntry.Purge: does not model the third branch of rt_purge, a new request for a route that packets wait for, because that is the `Request` event of the network.
- AomdvAgent.Agent.RtPurge: leaves that branch to the `Request` event likewise.
- AodvAgent.RtEntry.Purge: leaves that branch to the `Request` event likewise.
- AodvAgent.Agent.RtPurge: leaves that branch to the `Request` event likewise.
- AomdvAgent.Agent.SendRequest: begins after the rate limit, the retries and the choice of a TTL, which are the environment's.
- AodvAgent.Agent.SendRequest: begins after the rate limit, the retries and the choice of a TTL, which are the environment's.
- AomdvAgent.RtEntry: the path list is a sequence and the route table a map, of which the methods take out and put in elements; the pointers of their list nodes are not modelled here, as they are for the two queues and the multicast classifier.
- AodvAgent: the route table, the neighbour cache and the request cache are maps likewise.
- AodvAgent.Agent.RecvReply: is specified where the source's assert holds; `ReplyAssertsIff` says exactly when that is, and the network model has no such restriction.
- AodvAgent.Agent.RecvError: likewise, with `ErrorAssertsIff`.
- AodvAgent.Agent.HandleLinkFailure: likewise, with `FailureAssertsIff`.
- AodvAgent.Agent.NbDelete: likewise, with `FailureAssertsIff`.
- AODV local repair: the hop test that starts a repair, the buffering of the packet and the expiry time of the repair are the environment's; a repair may begin at any usable route and its timer may expire at any time.
- AodvModel: a negative remaining lifetime in a reply from the table is rounded down and kept as a real number, not cast to an unsigned field.
- asim: the averaging `Update`, the delay formulas and the input parser beyond the link-to-flow lists; links that the short flows already fill are excluded from the capacity claim.
- RedQueue.RedRouter.ComputeProbability: does not compute the square root; the platform's root is a parameter required to be nonnegative with the right square. A model of the rounding of `sqrt` is not attempted.
- TBF: cancelling of the timer at destruction.
- TCP: output, retransmission, congestion control and the processing of acknowledgements, connection set-up and close; SYN and FIN segments, and the application upcalls. Data segments are those with an ACK flag that the acknowledgement checks let through. `delete` of list nodes is not modelled.
- ReassemblyModel.FrontierTheorem: does not cover segments that overlap in part, because the code can be wrong there; `ReassemblyExact.AlwaysExactIff` gives the exact condition.
- Send buffer: drop targets and tracing; a packet evicted from a full queue is returned with its reason instead.
- Classifier: the default target, the upcall for an empty slot and the hashing of flow ids; the per-flow hash is a parameter.
- Multicast classifier: the upcalls on a cache miss or a wrong interface, which may change the table; their outcome is reported instead.
- Admission: the reset of numfl_ to 0 by the `add-trace` command; the estimators and the measurement-based controllers, per-class state that the parameter-based controller ignores, packet sizes, traces and colours. Signalling is reliable and in order on each path, flow ids are distinct, and a link that admits has a free pending slot (the program exits otherwise).
- Admission.SALink.GetNxt: does not model running out of pending slots, because the program exits.
- ns2/asim/asimstd.cc, ns2/aomdv/aomdv_rqueue.cc: near copies of modelled code.
- ns2/common/heap.h, ns2/common/fsm.cc, ns2/apps, the other admission controllers, hash-table classifiers built on Tcl, mobility: plumbing or short formulas.
