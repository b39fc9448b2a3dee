# The BGP daemon of Quagga 1.2.4, modelled in Dafny

This project models the parts of `bgpd` that are hard to get right and proves
what they are for. Where the original changes things in place, the model has
classes, arrays and loops, each proved against a function; the theorems are
about those functions and about every run of the state machines.

| files | component |
|---|---|
| `Lists.dfy`, `Wire.dfy` | optional values and sorted arrays; octets in network order and the stream with its two cursors |
| `AsPath.dfy`, `AsPathChain.dfy` | AS paths, what they mean, their normal form, and the in-place normaliser |
| `AsPathCodec.dfy`, `AsPathStream.dfy`, `AsPathPacking.dfy` | the wire form in 2 and 4 octets, written to and parsed from a stream |
| `PathLaws.dfy` | the octets and the text of a path, position by position |
| `As4.dfy` | 4-octet numbers across 2-octet speakers (sections 4.2.2 and 4.2.3 of RFC 6793) |
| `AsPathText.dfy`, `AsPathTextIo.dfy` | the text form, its buffer and its parser |
| `AsPathAggregate.dfy` | aggregation (section 9.2.2.2 of RFC 4271) |
| `Multipath.dfy`, `MultipathChoice.dfy`, `MultipathSelection.dfy` | the multipath chain on the heap, and what determines its selection |
| `PeerFsm.dfy`, `PeerLaws.dfy`, `PeerCode.dfy` | the peer state machine (section 8 of RFC 4271), its runs, what its events mean, and its code |
| `AttrIntern.dfy`, `AttrPools.dfy`, `AttrLoose.dfy` | hash-consed attributes with reference-counted parts: the accounts, the operations and their runs, and the private copies |
| `AttrParse.dfy`, `AttrStream.dfy`, `AttrLaws.dfy`, `AttrUpdate.dfy` | the path-attribute loop, its parsers on the stream, what each attribute comes to, and a route from writer to reader |
| `OpenCapability.dfy`, `OpenNegotiation.dfy`, `OpenLaws.dfy`, `OpenPeek.dfy`, `OpenStream.dfy` | OPEN capabilities, negotiation (section 8 of RFC 4760, RFC 5492), the AS4 peek and the stream code |
| `AdjOut.dfy`, `AdjHistory.dfy`, `AdjOrder.dfy`, `AdjOutRib.dfy` | Adj-RIB-Out bookkeeping: operations, histories, what waits in which order, and the shared lists |
| `Community.dfy` | community and large community sets (RFC 1997, RFC 8092) |

`dafny verify dfyconfig.toml` checks everything.

Where the code does not do what one would expect, the model follows the code; a
lemma gives an input, and another says when the expectation holds:

- A sequence empty by itself survives normalising; normal forms are canonical
  exactly when every run of sequences has a number in it
  (`AsPath.EmptySequenceNotCanonical`, `AsPath.NormaliseExact`).
- aspath_put packs short neighbouring sequences into one wire segment but keeps
  only the last length; with at most pairs that is right
  (`AsPathPacking.ThreeSequencesBreak`, `AsPathPacking.PackedParses`).
- With more hops in AS4_PATH than in AS_PATH the code keeps both, while section
  4.2.3 of RFC 6793 has AS4_PATH ignored (`As4.RfcNotFollowed`, `As4.RfcFollowed`).
- The multipath selection compares each candidate with the one taken before it,
  so it can take the best path's own next hop again
  (`MultipathChoice.BestNexthopRepeatedOnce`, `MultipathChoice.BestNexthopRepeated`).
- Two speakers can decide differently about a session
  (`OpenNegotiation.OneSidedOfferSplits`, `OpenNegotiation.StrictSplits`,
  `OpenNegotiation.SpeakersAgree`).
- The AS4 peek enters options that are not capabilities instead of skipping
  them (`OpenPeek.HiddenAs`, `OpenPeek.PeekSkips`).
- AS4_AGGREGATOR without AGGREGATOR lends its number but not its address
  (`AttrUpdate.LoneAs4AggregatorLosesAddress`, `AttrUpdate.As4AggregatorTaken`).
- The tunnel loop does not look at fewer than four octets, so a last sub-TLV of
  one octet or none is refused (`AttrLaws.ShortLastSubRefused`,
  `AttrLaws.SubsExactly`).
- When attributes leave no room for a prefix, every route waiting with them is
  forgotten without a word to the neighbour
  (`AdjHistory.FlushLosesRoute`, `AdjHistory.DrainedNeighbourUpToDate`).

## Model
| member | source | states |
|---|---|---|
| AsPath.NormaliseMeaning | lab3/quagga-1.2.4/bgpd/bgp_aspath.c:249-318 | normalising keeps what a path means: every hop, its order and every set's members, for all chains |
| AsPath.NormaliseNormal | lab3/quagga-1.2.4/bgpd/bgp_aspath.c:249-318 | the result has no two adjacent sequences and only strictly ascending sets |
| AsPath.NormaliseIdempotent | lab3/quagga-1.2.4/bgpd/bgp_aspath.c:249-318 | normalising twice is normalising once |
| AsPath.NormaliseRebuild | lab3/quagga-1.2.4/bgpd/bgp_aspath.c:249-318 | the normal form of a chain without empty sequences is what its meaning alone determines |
| AsPath.NormaliseExact | lab3/quagga-1.2.4/bgpd/bgp_aspath.c:249-318 | the normal form is the one stored form of the meaning if and only if every run of adjacent sequences has a number in it |
| AsPath.FilledExactly | lab3/quagga-1.2.4/bgpd/bgp_aspath.c:294-313 | which chains lose all their empty sequences |
| AsPath.NormaliseCanonical | lab3/quagga-1.2.4/bgpd/bgp_aspath.c:249-318 | two such chains have the same normal form if and only if they mean the same path |
| AsPath.EmptySequenceNotCanonical | lab3/quagga-1.2.4/bgpd/bgp_aspath.c:249-318 | a sequence empty by itself survives, so equal meanings need not give equal results: a concrete pair |
| AsPath.NormaliseHops | lab3/quagga-1.2.4/bgpd/bgp_aspath.c:411-446 | hop and confederation counts survive normalising |
| AsPath.HopsMeaning | lab3/quagga-1.2.4/bgpd/bgp_aspath.c:429-446 | the hop count of a confederation-free path is the number of hops it means |
| AsPathChain.WeedDuplicates | lab3/quagga-1.2.4/bgpd/bgp_aspath.c:271-292 | the in-place loop leaves exactly the sorted array without repetitions in front |
| AsPathChain.Chain.NormaliseInPlace | lab3/quagga-1.2.4/bgpd/bgp_aspath.c:249-318 | relinking the chain segment by segment ends in the recursive normal form |
| AsPathChain.Chain.CountHops | lab3/quagga-1.2.4/bgpd/bgp_aspath.c:429-446 | the counting loop computes the hop count |
| AsPathChain.Chain.CountConfeds | lab3/quagga-1.2.4/bgpd/bgp_aspath.c:411-428 | the counting loop computes the confederation count |
| AsPathChain.Compare | lab3/quagga-1.2.4/bgpd/bgp_aspath.c:1993-2016 | the segment-wise comparison is equality, and on normal forms equality of meaning |
| AsPathCodec.ParsePut | lab3/quagga-1.2.4/bgpd/bgp_aspath.c:704-798 | parsing what was written, with anything behind it, gives the normal form of the path as sent (AS_TRANS for wide numbers in 2-octet form), long sequences split and rejoined |
| AsPathCodec.ParsedWireForm | lab3/quagga-1.2.4/bgpd/bgp_aspath.c:704-798 | whatever octets are accepted, the result is in normal form without empty segments and with sets of at most 255 |
| AsPathCodec.RoundTrip32 | lab3/quagga-1.2.4/bgpd/bgp_aspath.c:844-945 | 4-octet writing and parsing returns the same path if and only if the path is in that form |
| AsPathStream.SegmentPut | lab3/quagga-1.2.4/bgpd/bgp_aspath.c:844-945 | a segment is written in pieces of 255 whose octets are its wire form, and the count returned is what was written |
| AsPathPacking.PathPut | lab3/quagga-1.2.4/bgpd/bgp_aspath.c:874-945 | for any path, given room, exactly the specified octets are appended and counted, whether sequences are split, packed or neither; what was there before is never touched |
| AsPathPacking.NormalUnpacked | lab3/quagga-1.2.4/bgpd/bgp_aspath.c:912-936 | on a path in normal form nothing is packed |
| AsPathPacking.PackedParses | lab3/quagga-1.2.4/bgpd/bgp_aspath.c:912-936 | a path of which at most pairs of sequences are packed parses back to the normal form of what was sent |
| AsPathPacking.ThreeSequencesBreak | lab3/quagga-1.2.4/bgpd/bgp_aspath.c:918-936 | three one-number sequences are written with a length that forgets the middle one, and the far end refuses them |
| PathLaws.NetworkOrder | lab3/quagga-1.2.4/bgpd/bgp_aspath.c:844-872 | two and four octets are written with the highest first |
| PathLaws.SegmentOctets | lab3/quagga-1.2.4/bgpd/bgp_aspath.c:844-945 | a segment on the wire is its type 1 to 4, its count and its numbers in order, with 23456 where a 2-octet speaker cannot read one |
| AsPathStream.SegmentsParse | lab3/quagga-1.2.4/bgpd/bgp_aspath.c:704-798 | accepts exactly well-formed octets, consumes exactly the given length on success and never more, returns the normal form |
| As4.RoundTrip16 | lab3/quagga-1.2.4/bgpd/bgp_aspath.c:704-798 | a path of 2-octet numbers crosses a 2-octet session unchanged |
| As4.ReconcileAs4 | lab3/quagga-1.2.4/bgpd/bgp_aspath.c:1610-1704 | the copying loop and the merge compute the reconciled path of the specification |
| As4.ReconcileMeaning | lab3/quagga-1.2.4/bgpd/bgp_aspath.c:1610-1704 | for any two paths, confederations included: of AS_PATH the leading hops by which it outweighs AS4_PATH are kept, confederation sequences whole, and then AS4_PATH |
| As4.ReconcilePlain | lab3/quagga-1.2.4/bgpd/bgp_aspath.c:1610-1704 | without confederations: the leading hops AS_PATH has over AS4_PATH, all if it has fewer, then AS4_PATH |
| As4.ReconcileHops | lab3/quagga-1.2.4/bgpd/bgp_aspath.c:1610-1704 | the reconciled path has as many hops as AS_PATH |
| As4.RfcFollowed | lab3/quagga-1.2.4/bgpd/bgp_aspath.c:1626-1635 | the result is what section 4.2.3 of RFC 6793 asks for if and only if AS4_PATH has no more hops than AS_PATH |
| As4.RfcNotFollowed | lab3/quagga-1.2.4/bgpd/bgp_aspath.c:1626-1635 | an input on which it is not: both paths are kept |
| As4.CountsWeigh | lab3/quagga-1.2.4/bgpd/bgp_aspath.c:411-446 | both counters together are the weight of what the path means |
| As4.MergePrefixNonEmpty | lab3/quagga-1.2.4/bgpd/bgp_aspath.c:1330-1348 | the merge is never given an empty first path, whose last segment it would dereference |
| As4.ReconcileBehind | lab3/quagga-1.2.4/bgpd/bgp_aspath.c:1610-1704 | whatever path q, confederations included, stands in front of the AS_TRANS image of p, reconciling with AS4_PATH p gives the normal form of q followed by p |
| As4.ConfedPathMerged | lab3/quagga-1.2.4/bgpd/bgp_attr.c:3010-3031 | a path with a confederation in front, whose AS4_PATH is sent without it, is recovered behind it exactly and in front up to AS_TRANS; wholly if the confederation's numbers fit two octets |
| As4.AddSeqNormalises | lab3/quagga-1.2.4/bgpd/bgp_aspath.c:1519-1565 | prepending one number is normalising a one-number sequence put in front |
| As4.RelayPrepends | lab3/quagga-1.2.4/bgpd/bgp_aspath.c:1519-1565 | after any chain of 2-octet speakers AS_PATH is what it was with their numbers in front, latest first |
| As4.PathSurvives2OctetSpeakers | lab3/quagga-1.2.4/bgpd/bgp_attr.c:2762-2772 | a confederation-free stored path sent as AS_PATH and, when needed, AS4_PATH through any number of 2-octet speakers arrives with exactly their numbers in front and its own numbers intact |
| AsPathText.TextRoundTrip | lab3/quagga-1.2.4/bgpd/bgp_aspath.c:1846-1976 | parsing the printed text of any path gives it back without empty sequences and with adjacent sequences joined |
| AsPathText.TextExact | lab3/quagga-1.2.4/bgpd/bgp_aspath.c:1846-1976 | the text gives back the very path if and only if it has no empty and no adjacent sequences; every path parsed from the wire qualifies |
| AsPathText.TextKeepsMeaning | lab3/quagga-1.2.4/bgpd/bgp_aspath.c:516-621 | every path means the same after printing and parsing |
| AsPathTextIo.MakeStr | lab3/quagga-1.2.4/bgpd/bgp_aspath.c:516-621 | the growing buffer is never overrun and nothing is cut off, so the closing assertion holds for every path |
| AsPathTextIo.GetToken | lab3/quagga-1.2.4/bgpd/bgp_aspath.c:1846-1909 | the scanning loops find the next token, numbers in 32-bit arithmetic |
| AsPathTextIo.StrToPath | lab3/quagga-1.2.4/bgpd/bgp_aspath.c:1911-1976 | the token loop terminates on every text and computes the specified path or refusal |
| PathLaws.DecimalLaw | lab3/quagga-1.2.4/bgpd/bgp_aspath.c:516-621 | a number is printed in decimal digits without a leading zero, and the digits stand for it |
| PathLaws.KindsPrinted | lab3/quagga-1.2.4/bgpd/bgp_aspath.c:361-388 | what two numbers look like in each kind of segment |
| PathLaws.SegmentGrows | lab3/quagga-1.2.4/bgpd/bgp_aspath.c:516-621 | one more number of any segment goes behind a comma in a set and a space in a sequence, inside the brackets of its kind |
| PathLaws.SegmentsPrinted | lab3/quagga-1.2.4/bgpd/bgp_aspath.c:516-621 | segments are separated by one space |
| AsPathAggregate.AggregateKeeps | lab3/quagga-1.2.4/bgpd/bgp_aspath.c:974-1102 | the aggregate has exactly the numbers of both paths, starts with a common front of both, and has at most one hop more than the shorter one |
| AsPathAggregate.PartingMaximal | lab3/quagga-1.2.4/bgpd/bgp_aspath.c:1034-1072 | the common front ends only where the paths end or differ |
| AsPathAggregate.AggregateLaw | lab3/quagga-1.2.4/bgpd/bgp_aspath.c:974-1102 | wherever two paths part, the aggregate means what both start with, followed by one set of exactly the numbers either goes on with |
| AsPathAggregate.PartSomewhere | lab3/quagga-1.2.4/bgpd/bgp_aspath.c:1034-1072 | any two paths part somewhere |
| AsPathAggregate.AggregateSelf | lab3/quagga-1.2.4/bgpd/bgp_aspath.c:974-1102 | a path aggregated with itself is itself if and only if it is in normal form without empty segments |
| AsPathAggregate.AggregateCommutes | lab3/quagga-1.2.4/bgpd/bgp_aspath.c:974-1102 | the order of the two paths does not matter |
| AsPathAggregate.CommonFront | lab3/quagga-1.2.4/bgpd/bgp_aspath.c:1034-1072 | the loop finds the common front and the place where each path leaves it |
| AsPathAggregate.AggregatePaths | lab3/quagga-1.2.4/bgpd/bgp_aspath.c:1014-1102 | the loops over the rest of both paths build the specified aggregate |
| Multipath.Enqueue | lab3/quagga-1.2.4/bgpd/bgp_mpath.c:312-326 | all four links, the flag and the elements after inserting behind a route |
| Multipath.Dequeue | lab3/quagga-1.2.4/bgpd/bgp_mpath.c:336-348 | neighbours are joined, own links and the flag cleared, routes without element untouched |
| Multipath.Update | lab3/quagga-1.2.4/bgpd/bgp_mpath.c:441-601 | whatever the old chain and count were, the chain of the new best path is exactly the fresh greedy selection, its count is exact, every other route is off all chains and unflagged, and the change flag is raised exactly when the selection differs from what is left of the old chain or in number from the old count |
| Multipath.Reap | lab3/quagga-1.2.4/bgpd/bgp_route.c:200-215 | a withdrawn multipath comes off the chain while the count stays |
| Multipath.ReapedSurvivors | lab3/quagga-1.2.4/bgpd/bgp_route.c:200-215 | reaping one after the other leaves the chain without the reaped |
| Multipath.ChangeNoticed | lab3/quagga-1.2.4/bgpd/bgp_mpath.c:595-600 | whichever multipaths were withdrawn since the count was taken, the flag is raised if and only if the selection is not the chain of that time |
| Multipath.Deselect | lab3/quagga-1.2.4/bgpd/bgp_mpath.c:609-626 | every multipath comes off the chain, so the closing assertion holds |
| MultipathChoice.PickedAscend | lab3/quagga-1.2.4/bgpd/bgp_mpath.c:495-592 | selected multipaths have pairwise different, ascending next hops |
| MultipathChoice.BestNexthopRepeated | lab3/quagga-1.2.4/bgpd/bgp_mpath.c:495-592 | the best path's own next hop is selected again if and only if a candidate has it, some lower next hop was taken first, and the limit leaves room |
| MultipathChoice.BestNexthopRepeatedOnce | lab3/quagga-1.2.4/bgpd/bgp_mpath.c:576-592 | an input on which it is repeated |
| MultipathSelection.GreedySelects | lab3/quagga-1.2.4/bgpd/bgp_mpath.c:495-592 | while there is room every candidate next hop but the best path's own is served, lower ones never passed over for higher ones, each by its first candidate, and the limit is kept |
| MultipathSelection.SelectionIsGreedy | lab3/quagga-1.2.4/bgpd/bgp_mpath.c:495-592 | a list with these properties, and the best path's next hop repeated exactly when it is, is the selection; none other is |
| PeerFsm.TableFacts | lab3/quagga-1.2.4/bgpd/bgp_fsm.c:994-1146 | what every entry of the table guarantees about its action and next state |
| PeerFsm.EveryRun | lab3/quagga-1.2.4/bgpd/bgp_fsm.c:1169-1205 | in every run Clearing_Completed is pending only in Clearing or Deleted, Clearing always has it pending or queued, established equals dropped plus one exactly in Established, timers run only in their states, and the back-off stays in range |
| PeerFsm.CompletionWouldUnbalance | lab3/quagga-1.2.4/bgpd/bgp_fsm.c:1107-1107 | the table exit that skips bgp_stop would break the balance |
| PeerFsm.LeavesThroughClearing | lab3/quagga-1.2.4/bgpd/bgp_fsm.c:396-432 | Established is left only for Clearing or by deletion, Clearing only for Idle or by deletion |
| PeerFsm.NeverStuck | lab3/quagga-1.2.4/bgpd/bgp_fsm.c:434-444 | from every Clearing state of a run the work queue's report and one pending event lead to Idle |
| PeerFsm.TimerSetPrescribes | lab3/quagga-1.2.4/bgpd/bgp_fsm.c:82-210 | the switch arms each timer exactly as status, flags and hold time prescribe, leaves running ones alone and starts others for their full time |
| PeerFsm.TimersExact | lab3/quagga-1.2.4/bgpd/bgp_fsm.c:1169-1205 | after every event that proceeds the timers are as prescribed, relative to what the action left running |
| PeerFsm.HoldRestarts | lab3/quagga-1.2.4/bgpd/bgp_fsm.c:966-982 | a KEEPALIVE or UPDATE restarts the hold timer and nothing else that leaves the session up does |
| PeerFsm.SessionOutlivesHoldTime | lab3/quagga-1.2.4/bgpd/bgp_fsm.c:966-982 | however a run goes on while the session is up, the hold timer is not due within the hold time after a KEEPALIVE or UPDATE |
| PeerLaws.TableByEvent | lab3/quagga-1.2.4/bgpd/bgp_fsm.c:994-1146 | every entry of the table, action and next state, said event by event |
| PeerLaws.ClimbLaw | lab3/quagga-1.2.4/bgpd/bgp_fsm.c:1169-1205 | for every peer: a state is left upwards exactly on its own event (start, TCP open, OPEN, KEEPALIVE), given a start that is not suppressed and a descriptor, and then for the next one up |
| PeerLaws.StatusLaw | lab3/quagga-1.2.4/bgpd/bgp_fsm.c:1169-1205 | for every peer and event the status it ends in |
| PeerLaws.SessionComesUp | lab3/quagga-1.2.4/bgpd/bgp_fsm.c:719-964 | every fresh peer that may connect reaches Established by start, TCP open, OPEN and KEEPALIVE, with one more established session |
| PeerLaws.PassiveSessionComesUp | lab3/quagga-1.2.4/bgpd/bgp_fsm.c:719-964 | a passive one starts into Active and reaches it on a connection from outside |
| PeerLaws.StartPosts | lab3/quagga-1.2.4/bgpd/bgp_fsm.c:719-835 | which event each result of connecting posts, and when the start does not proceed |
| PeerLaws.StopRestarts | lab3/quagga-1.2.4/bgpd/bgp_fsm.c:446-588 | a lost session starts the restart timers exactly when the peer is waited for; negotiated times are reset |
| PeerLaws.CompletionPostedOnce | lab3/quagga-1.2.4/bgpd/bgp_fsm.c:396-444 | entering Clearing or Deleted posts the completion exactly when no route was left to clear |
| PeerLaws.EstablishEndsRestart | lab3/quagga-1.2.4/bgpd/bgp_fsm.c:855-964 | the restart is over and the first advertisement due in a second |
| PeerLaws.SessionLost | lab3/quagga-1.2.4/bgpd/bgp_fsm.c:446-655 | any event but five ends a session in Clearing with one more drop, its timers off, only the completion pending, and the start delay raised after an error or reset after a hold time ran out |
| PeerLaws.ClearingEnds | lab3/quagga-1.2.4/bgpd/bgp_fsm.c:434-444 | the completion leads to Idle with nothing pending and the start timer running |
| PeerLaws.BackOffLaw | lab3/quagga-1.2.4/bgpd/bgp_fsm.c:593-628 | after k errors in a row the start delay is one more than a power of two, at most a minute |
| PeerCode.PeerObject.Stop | lab3/quagga-1.2.4/bgpd/bgp_fsm.c:446-588 | events are flushed except in Clearing, a drop is counted only out of Established, session timers are off; one bgp_stop of the machine |
| PeerCode.PeerObject.ChangeStatus | lab3/quagga-1.2.4/bgpd/bgp_fsm.c:396-432 | entering Clearing leaves a completion pending or the clear queue scheduled |
| PeerCode.PeerObject.EstablishSession | lab3/quagga-1.2.4/bgpd/bgp_fsm.c:855-964 | one session more, nothing flushed, route advertisement armed |
| PeerCode.PeerObject.SetTimers | lab3/quagga-1.2.4/bgpd/bgp_fsm.c:82-210 | the timer fields end up as the state prescribes |
| PeerCode.PeerObject.BgpEvent | lab3/quagga-1.2.4/bgpd/bgp_fsm.c:1169-1205 | one event as it runs is one step of the machine and keeps the invariant of every run |
| AttrIntern.EqualAttrsShare | lab3/quagga-1.2.4/bgpd/bgp_attr.c:650-709 | attributes equal all the way down are one object although only pointers are compared |
| AttrIntern.BalancedEmpties | lab3/quagga-1.2.4/bgpd/bgp_attr.c:804-867 | when every reference to parts and attributes was given back, no attribute and no interned part is left |
| AttrPools.EveryRun | lab3/quagga-1.2.4/bgpd/bgp_attr.c:650-709 | in every run of interning and giving back from empty pools equal attributes share one object, every part's count is the sum over attributes pointing to it plus outside references, every attribute's count is the references held, no live attribute points to a freed part, and balanced runs empty both pools |
| AttrPools.InternedAgain | lab3/quagga-1.2.4/bgpd/bgp_attr.c:650-709 | interning equal content again, however its parts were made, returns the same object |
| AttrLoose.NothingLeaks | lab3/quagga-1.2.4/bgpd/bgp_attr.c:650-867 | in every run the private copies left in memory are exactly those made and neither freed nor given to an intern function; a balanced run leaves memory empty |
| AttrLoose.LooseStep | lab3/quagga-1.2.4/bgpd/bgp_attr.c:650-867 | interning consumes the copies it is given and giving back leaves none |
| AttrPools.AttrInternedKeeps | lab3/quagga-1.2.4/bgpd/bgp_attr.c:650-709 | interning an attribute keeps every count exact and gives one reference to an attribute with equal fields and parts |
| AttrPools.AttrUninternedKeeps | lab3/quagga-1.2.4/bgpd/bgp_attr.c:804-867 | giving one back keeps every count exact |
| AttrPools.Tables.PartIntern | lab3/quagga-1.2.4/bgpd/bgp_aspath.c:632-650 | one intern step of a run: an equal part in the table is found and the copy freed, or the copy enters it |
| AttrPools.Tables.PartUnintern | lab3/quagga-1.2.4/bgpd/bgp_aspath.c:340-357 | one unintern step of a run; the part is freed exactly with its last reference |
| AttrPools.Tables.AttrIntern | lab3/quagga-1.2.4/bgpd/bgp_attr.c:650-709 | the loop over the parts and the table lookup are one intern step of a run |
| AttrPools.Tables.AttrUnintern | lab3/quagga-1.2.4/bgpd/bgp_attr.c:804-867 | the attribute first and then each part: one unintern step of a run |
| AttrParse.SplitExact | lab3/quagga-1.2.4/bgpd/bgp_attr.c:2160-2240 | an area that splits is laid out by its attributes exactly, nothing left over |
| AttrParse.SplitFlatten | lab3/quagga-1.2.4/bgpd/bgp_attr.c:2160-2240 | any list of encodable attributes is split back into itself |
| AttrParse.LoopAccepts | lab3/quagga-1.2.4/bgpd/bgp_attr.c:2160-2373 | the loop accepts an area if and only if it splits into attributes of pairwise different types each tolerable by itself, and then it has collected them all |
| AttrParse.SuccessExactly | lab3/quagga-1.2.4/bgpd/bgp_attr.c:2132-2461 | parsing succeeds if and only if the area splits, the types differ, each attribute is tolerable, the mandatory ones are there or one of the two exceptions applies, and the path described is one the peer may send |
| AttrParse.MergedIsDescribed | lab3/quagga-1.2.4/bgpd/bgp_attr.c:1465-1569 | the merged path is AS_PATH, reconciled with AS4_PATH exactly when that counts |
| AttrParse.CompleteIffMandatory | lab3/quagga-1.2.4/bgpd/bgp_attr.c:2082-2130 | the check of stored attributes is a statement about the attributes received |
| AttrParse.OrderDoesNotMatter | lab3/quagga-1.2.4/bgpd/bgp_attr.c:2399-2412 | the same attributes in another order are accepted alike and store the same |
| AttrParse.ParseOrderDoesNotMatter | lab3/quagga-1.2.4/bgpd/bgp_attr.c:2132-2461 | the whole parser accepts alike and stores the same in any order |
| AttrLaws.HeaderOctets | lab3/quagga-1.2.4/bgpd/bgp_attr.c:2160-2240 | flags, type and a length of one octet, or two when the fourth flag bit is set |
| AttrLaws.FlagsLaw | lab3/quagga-1.2.4/bgpd/bgp_attr.c:1024-1112 | which flag octets each known type may have |
| AttrLaws.WrongFlags | lab3/quagga-1.2.4/bgpd/bgp_attr.c:905-986 | wrong flags reset the session, except on an external peer's aggregation attributes, which are ignored |
| AttrLaws.ReachStored | lab3/quagga-1.2.4/bgpd/bgp_attr.c:1656-1798 | family, next hop of an allowed length, one ignored octet and non-empty routes are stored as exactly these |
| AttrLaws.ReachOnly | lab3/quagga-1.2.4/bgpd/bgp_attr.c:1656-1798 | nothing is stored for reachable routes that is not so laid out |
| AttrLaws.UnreachStored | lab3/quagga-1.2.4/bgpd/bgp_attr.c:1801-1833 | family and withdrawn routes are stored as exactly these |
| AttrLaws.UnreachOnly | lab3/quagga-1.2.4/bgpd/bgp_attr.c:1801-1833 | nothing is stored for unreachable routes that is not so laid out |
| AttrLaws.OriginLaw | lab3/quagga-1.2.4/bgpd/bgp_attr.c:1116-1157 | one octet of value 0, 1 or 2 is stored, all else resets the session |
| AttrLaws.NexthopLaw | lab3/quagga-1.2.4/bgpd/bgp_attr.c:1271-1313 | four octets outside 0/8, 127/8 and 224/3 are stored, others only where martians are allowed |
| AttrLaws.NumberLaw | lab3/quagga-1.2.4/bgpd/bgp_attr.c:1316-1338 | four octets are stored as the number they are, all else resets the session |
| AttrLaws.LocalPrefLaw | lab3/quagga-1.2.4/bgpd/bgp_attr.c:1342-1374 | the same inside the AS; from an external peer the value is dropped |
| AttrLaws.AtomicLaw | lab3/quagga-1.2.4/bgpd/bgp_attr.c:1377-1398 | stored when empty, otherwise ignored from external peers and fatal from others |
| AttrLaws.AggregatorLaw | lab3/quagga-1.2.4/bgpd/bgp_attr.c:1401-1461 | a number of two or four octets and an address are stored as these |
| AttrLaws.AggregatorLength | lab3/quagga-1.2.4/bgpd/bgp_attr.c:1401-1461 | only 8 octets, or 6 from a 2-octet speaker, are stored; others are ignored or fatal by the kind of peer |
| AttrLaws.ListLaw | lab3/quagga-1.2.4/bgpd/bgp_attr.c:1572-1895 | lists of whole communities are stored, empty ones passed over, broken ones fatal, but a Partial large one costs an external peer only the routes |
| AttrLaws.ClusterLaw | lab3/quagga-1.2.4/bgpd/bgp_attr.c:1628-1653 | a multiple of four octets is stored, all else resets the session |
| AttrLaws.PathLaw | lab3/quagga-1.2.4/bgpd/bgp_attr.c:1162-1268 | a path is stored as parsed; a broken AS4_PATH marked Partial costs an external peer only the routes |
| AttrLaws.SubsExactly | lab3/quagga-1.2.4/bgpd/bgp_attr.c:1943-1989 | sub-TLVs are read exactly from their layout, provided the last has two octets or more |
| AttrLaws.TunnelLaw | lab3/quagga-1.2.4/bgpd/bgp_attr.c:1900-2014 | tunnel information is kept exactly from four octets and such a layout, or the session is reset |
| AttrLaws.ShortLastSubRefused | lab3/quagga-1.2.4/bgpd/bgp_attr.c:1943-1989 | a well-laid-out last sub-TLV of one octet is refused |
| AttrLaws.UnknownLaw | lab3/quagga-1.2.4/bgpd/bgp_attr.c:2016-2080 | an unknown type is carried on if transitive, ignored if optional, fatal otherwise |
| AttrLaws.TransitPassedOn | lab3/quagga-1.2.4/bgpd/bgp_attr.c:2016-2080 | what is carried on splits into exactly the unknown transitive attributes received, in order, with the Partial bit set |
| AttrLaws.PathChecked | lab3/quagga-1.2.4/bgpd/bgp_attr.c:1191-1226 | which paths of each kind of peer pass, told in segments and hops |
| AttrLaws.PathStored | lab3/quagga-1.2.4/bgpd/bgp_attr.c:2399-2440 | what is stored is the path described, checked, behind the local-as number |
| AttrLaws.AggregatorSettled | lab3/quagga-1.2.4/bgpd/bgp_attr.c:1465-1569 | which aggregator each combination of AGGREGATOR and AS4_AGGREGATOR comes to, and that a 4-octet speaker's is untouched |
| AttrStream.Refuse | lab3/quagga-1.2.4/bgpd/bgp_attr.c:905-986 | when parsing may go on after a malformed attribute the cursor is at its end |
| AttrStream.ReachGet | lab3/quagga-1.2.4/bgpd/bgp_attr.c:1656-1798 | accepted exactly when next hop and NLRI fit the attribute; never read past its end |
| AttrStream.EncapGet | lab3/quagga-1.2.4/bgpd/bgp_attr.c:1900-2014 | the sub-TLV loop consumes exactly the attribute or refuses it |
| AttrStream.UnknownGet | lab3/quagga-1.2.4/bgpd/bgp_attr.c:2016-2080 | a transitive attribute is marked Partial in place and kept as it then stands; only that octet changes |
| AttrStream.ValueGet | lab3/quagga-1.2.4/bgpd/bgp_attr.c:2254-2328 | whatever the type, a kept attribute has been read to its end exactly, and none past it |
| AttrStream.OneGet | lab3/quagga-1.2.4/bgpd/bgp_attr.c:2160-2373 | one turn of the loop; the check of the fetched length never fails |
| AttrStream.MungeAs4 | lab3/quagga-1.2.4/bgpd/bgp_attr.c:1465-1569 | the branches on AGGREGATOR and AS4_AGGREGATOR compute the specified merge |
| AttrStream.PathCheck | lab3/quagga-1.2.4/bgpd/bgp_attr.c:1191-1226 | a confederation peer's path must start with a confederation segment, an external peer's have none and, if enforced, start with its number |
| AttrStream.AttrsGet | lab3/quagga-1.2.4/bgpd/bgp_attr.c:2132-2461 | the whole parser terminates, consumes exactly the given size on success and never more, and leaves the octets behind untouched |
| AttrUpdate.RouteSurvives | lab3/quagga-1.2.4/bgpd/bgp_attr.c:2680-2853 | a written route is accepted if and only if its path is one the peer may send, and then every attribute, path and aggregator included, arrives at a 4-octet or a 2-octet peer |
| AttrUpdate.OutgoingOk | lab3/quagga-1.2.4/bgpd/bgp_attr.c:2713-2752 | what the sender puts out in place of the stored path is one the peer may be sent, for external, internal and confederation peers |
| AttrUpdate.OutgoingMeaning | lab3/quagga-1.2.4/bgpd/bgp_attr.c:2713-2752 | hop by hop: an external peer is told the confederation id, or the local-as number and then the own one unless replaced, or the own one, and then the whole stored path, without its confederation front where the id hides it; a confederation peer the own number in the leading confederation run; any other the path itself |
| AttrUpdate.StrippedLaw | lab3/quagga-1.2.4/bgpd/bgp_aspath.c:1730-1758 | of a path that starts with a confederation sequence exactly the leading confederation segments are left out |
| AttrLaws.TypesWritten | lab3/quagga-1.2.4/bgpd/bgp_attr.c:2680-3062 | which attributes go out, in ascending order: AS4_PATH and AS4_AGGREGATOR only to a 2-octet speaker and only for a number beyond two octets |
| AttrUpdate.RouteDelivered | lab3/quagga-1.2.4/bgpd/bgp_attr.c:2680-2853 | from the sender's table to the peer's: accepted, every attribute intact, and the path stored there means the receiver's local-as number, the sender's numbers and the sender's stored path |
| AttrUpdate.As4AggregatorTaken | lab3/quagga-1.2.4/bgpd/bgp_attr.c:1465-1569 | AS4_AGGREGATOR is taken over whole if and only if AGGREGATOR names AS_TRANS, or is missing and the address is zero |
| AttrUpdate.LoneAs4AggregatorLosesAddress | lab3/quagga-1.2.4/bgpd/bgp_attr.c:1544-1558 | without AGGREGATOR the address of AS4_AGGREGATOR is lost |
| OpenCapability.WrittenFits | lab3/quagga-1.2.4/bgpd/bgp_open.c:943-1145 | for every configuration, route filtering included, at most 218 octets are written, so every length octet fits |
| OpenCapability.TakeWritten | lab3/quagga-1.2.4/bgpd/bgp_open.c:744-875 | options as written parse into their capabilities in order, whatever follows |
| OpenCapability.ParsedWithin | lab3/quagga-1.2.4/bgpd/bgp_open.c:744-875 | whatever octets a peer sends, accepted or refused, just the offered families that are configured are negotiated and the error data never exceeds what was read; an accepted OPEN has a common family if any was offered, and all and only the configured ones if strict |
| OpenNegotiation.OpenHeard | lab3/quagga-1.2.4/bgpd/bgp_open.c:477-639 | the receiver ends with the sender's families, the common families, and every flag, restart value and route-filter side the sender advertised and it keeps |
| OpenNegotiation.OpenVerdict | lab3/quagga-1.2.4/bgpd/bgp_open.c:744-875 | a strict receiver accepts exactly its own families; any other refuses exactly a non-empty offer with nothing in common |
| OpenNegotiation.SessionAfter | lab3/quagga-1.2.4/bgpd/bgp_packet.c:1655-1685 | the families in use after an OPEN, for every configuration of both sides |
| OpenNegotiation.SpeakersAgree | lab3/quagga-1.2.4/bgpd/bgp_packet.c:1655-1685 | two speakers, strict or not, sending capabilities or not, end with the same decision and families if and only if their configurations are agreeable; if both send and accept, these are the common families |
| OpenNegotiation.OneSidedOfferSplits | lab3/quagga-1.2.4/bgpd/bgp_packet.c:1672-1685 | when only one side offers families it falls back on its configuration while the other refuses |
| OpenNegotiation.StrictSplits | lab3/quagga-1.2.4/bgpd/bgp_open.c:816-843 | a strict speaker refuses a peer that offers more and accepts it |
| OpenLaws.SilentSession | lab3/quagga-1.2.4/bgpd/bgp_packet.c:1655-1685 | after an OPEN without capabilities a family is in use if and only if it is configured and neither MPLS VPN nor Encap |
| OpenLaws.NoFamilyOffered | lab3/quagga-1.2.4/bgpd/bgp_packet.c:1672-1685 | the same after capabilities without a family, unless the receiver is strict and has families |
| OpenLaws.SilentUsesAll | lab3/quagga-1.2.4/bgpd/bgp_packet.c:1672-1685 | all configured families are used if and only if all are unicast or multicast |
| OpenLaws.SilentSpeakers | lab3/quagga-1.2.4/bgpd/bgp_packet.c:1672-1685 | two silent speakers of the same such families both end with exactly those |
| OpenLaws.OfferOctets | lab3/quagga-1.2.4/bgpd/bgp_open.c:943-1145 | the octets of the option for each family |
| OpenLaws.FilterOctets | lab3/quagga-1.2.4/bgpd/bgp_open.c:877-940 | the octets of route-filter options in both codes |
| OpenLaws.PlainOctets | lab3/quagga-1.2.4/bgpd/bgp_open.c:943-1145 | the octets of a whole OPEN without families, for every AS number, restart time and flag |
| OpenLaws.OffersInOrder | lab3/quagga-1.2.4/bgpd/bgp_open.c:943-1145 | the families offered are the configured ones in a fixed order |
| OpenLaws.FilteringHeard | lab3/quagga-1.2.4/bgpd/bgp_open.c:208-341 | route filtering is heard in both codes for the configured families but multicast IPv6, on the sides the mode names |
| OpenLaws.RestartTaken | lab3/quagga-1.2.4/bgpd/bgp_open.c:344-405 | time, restart bit, the configured families named, and of these exactly those marked as forwarding |
| OpenLaws.UnknownCapability | lab3/quagga-1.2.4/bgpd/bgp_open.c:612-628 | an unknown capability is never refused; it is recorded for a notification exactly when its code is at most 128 |
| OpenLaws.OfferTaken | lab3/quagga-1.2.4/bgpd/bgp_open.c:129-182 | an offer is taken up exactly when its codes name a configured family, heard when they name any, and otherwise recorded |
| OpenPeek.PeekFindsAs | lab3/quagga-1.2.4/bgpd/bgp_open.c:665-737 | the peek finds the AS number the sender speaks as |
| OpenPeek.PeekSkips | lab3/quagga-1.2.4/bgpd/bgp_open.c:688-730 | where every option before the AS4 capability is a capability or empty, the peek finds what one that skips other options finds |
| OpenPeek.ForeignOptionHides | lab3/quagga-1.2.4/bgpd/bgp_open.c:704-730 | an option of another kind whose content reads as an overlong option hides everything behind it |
| OpenPeek.HiddenAs | lab3/quagga-1.2.4/bgpd/bgp_open.c:704-730 | one such area, with AS 70000 behind it |
| OpenStream.OpenPut | lab3/quagga-1.2.4/bgpd/bgp_open.c:943-1145 | the octets written, route filtering included, with every patched length and count, are the specified ones |
| OpenStream.OrfPut | lab3/quagga-1.2.4/bgpd/bgp_open.c:877-940 | one route-filter capability with its four patched octets |
| OpenStream.PeerInput.TakeOrfData | lab3/quagga-1.2.4/bgpd/bgp_open.c:208-341 | an entry whose count exceeds its length is refused, otherwise the loop keeps exactly the known sides |
| OpenStream.PeerInput.CapabilityParse | lab3/quagga-1.2.4/bgpd/bgp_open.c:477-639 | on any octets the loop leaves exactly the specified state, also when it refuses, and ends at the end of the option when it does not |
| OpenStream.PeerInput.OptionParse | lab3/quagga-1.2.4/bgpd/bgp_open.c:744-875 | on any octets the option loop and the final checks leave exactly the specified state and verdict |
| OpenStream.PeerInput.PeekAs4 | lab3/quagga-1.2.4/bgpd/bgp_open.c:665-737 | the nested loops compute the specified number, mark the peer when the capability is met, and put the cursor back |
| AdjOut.SetKeeps | lab3/quagga-1.2.4/bgpd/bgp_advertise.c:220-272 | set holds the new attribute for its node, touches no other node and keeps the bookkeeping exact |
| AdjOut.UnsetKeeps | lab3/quagga-1.2.4/bgpd/bgp_advertise.c:274-320 | unset withdraws its node, touches no other and keeps the bookkeeping exact |
| AdjOut.SentKeeps | lab3/quagga-1.2.4/bgpd/bgp_packet.c:377-433 | a transmission changes nothing about what is held |
| AdjOut.FlushedFacts | lab3/quagga-1.2.4/bgpd/bgp_packet.c:231-238 | a flush cleans exactly the entries waiting with one attribute, forgets nothing that was sent and keeps the bookkeeping exact |
| AdjHistory.EveryHistory | lab3/quagga-1.2.4/bgpd/bgp_advertise.c:164-320 | after every history of set, unset, transmission and flush each pending entry is on exactly one FIFO, counts are exact, each advertise attribute is counted once per entry on its list, and a node no flush took holds the last word on it |
| AdjHistory.LookupIsLastWord | lab3/quagga-1.2.4/bgpd/bgp_advertise.c:164-180 | lookup answers whether the last operation was a set if and only if no flush took the entry of a route the neighbour had not been told |
| AdjHistory.HeldIsLastWord | lab3/quagga-1.2.4/bgpd/bgp_advertise.c:164-320 | what is held is the last word, attributes included, if and only if no flush took the node since, or what was sent before is that word |
| AdjHistory.DrainedNeighbourUpToDate | lab3/quagga-1.2.4/bgpd/bgp_packet.c:166-279 | once both FIFOs are empty the neighbour holds the last word on a node if and only if no flush took it since, or what was sent before is that word |
| AdjHistory.FlushLosesRoute | lab3/quagga-1.2.4/bgpd/bgp_packet.c:231-238 | a history in which an announced route is flushed and the neighbour never learns of it |
| AdjHistory.DrainedReleasesAttributes | lab3/quagga-1.2.4/bgpd/bgp_advertise.c:137-154 | an empty update FIFO leaves no advertise attribute behind |
| AdjOrder.FifosHoldWaiting | lab3/quagga-1.2.4/bgpd/bgp_advertise.c:182-320 | after every history the update FIFO holds exactly the nodes whose last set was neither undone, sent nor flushed, the withdraw FIFO exactly those unset after the neighbour was told of them |
| AdjOrder.FifosInOrder | lab3/quagga-1.2.4/bgpd/bgp_advertise.c:103-320 | both FIFOs are in the order of the operations that put the entries there, every advertise attribute lists them newest first |
| AdjOrder.SendingCatchesUp | lab3/quagga-1.2.4/bgpd/bgp_packet.c:166-433 | after every history, sending what waits leaves nothing that can be sent, and the neighbour holds the last word on every node but those a flush took and those set without attributes |
| AdjOutRib.Rib.Lookup | lab3/quagga-1.2.4/bgpd/bgp_advertise.c:164-180 | the list walk answers for the peer's own adjacency |
| AdjOutRib.Rib.Clean | lab3/quagga-1.2.4/bgpd/bgp_advertise.c:182-218 | the pending entry leaves its attribute list and FIFO, and no other peer's view changes |
| AdjOutRib.Rib.Set | lab3/quagga-1.2.4/bgpd/bgp_advertise.c:220-272 | on the shared lists, set is set on this peer's view and nothing on any other's |
| AdjOutRib.Rib.Unset | lab3/quagga-1.2.4/bgpd/bgp_advertise.c:274-320 | on the shared lists, unset is unset on this peer's view and nothing on any other's |
| AdjOutRib.Rib.Send | lab3/quagga-1.2.4/bgpd/bgp_packet.c:271-279 | on the shared lists, a transmission settles this peer's entry and nothing on any other's |
| AdjOutRib.Rib.Flush | lab3/quagga-1.2.4/bgpd/bgp_packet.c:231-238 | the loop over one attribute's entries is one flush on this peer's view and nothing on any other's |
| Community.UniqSortedFacts | lab3/quagga-1.2.4/bgpd/bgp_community.c:161-185 | the result is the strictly ascending array of the same set |
| Community.AllInsertedFacts | lab3/quagga-1.2.4/bgpd/bgp_lcommunity.c:103-122 | the same by insertion |
| Community.UniqFormsAgree | lab3/quagga-1.2.4/bgpd/bgp_lcommunity.c:57-122 | sorting and inserting arrive at the same array, which depends on the set of values alone |
| Community.PassesIffIncluded | lab3/quagga-1.2.4/bgpd/bgp_community.c:413-440 | on strictly ascending arrays one pass decides inclusion |
| Community.Match | lab3/quagga-1.2.4/bgpd/bgp_community.c:413-440 | NULL cases as coded; otherwise the pass, which on such arrays returns 1 if and only if the second set is included in the first |
| Community.Set.UniqSort | lab3/quagga-1.2.4/bgpd/bgp_community.c:161-185 | the loop and the sort give the strictly ascending array of the same set |
| Community.Set.InsertVal | lab3/quagga-1.2.4/bgpd/bgp_lcommunity.c:57-98 | the value is put in its place by shifting, reported new exactly when it was missing |
| Community.Set.UniqInsert | lab3/quagga-1.2.4/bgpd/bgp_lcommunity.c:103-122 | the insertion loop gives the strictly ascending array of the same set |
| Community.Set.DelVal | lab3/quagga-1.2.4/bgpd/bgp_lcommunity.c:529-562 | the gap is closed over the first occurrence |
| Community.Set.Delete | lab3/quagga-1.2.4/bgpd/bgp_community.c:99-112 | set difference, still strictly ascending |
| Wire.Stream.Put | lab3/quagga-1.2.4/lib/stream.c:533-609 | appended when it fits, otherwise nothing happens |
| Wire.Stream.Getl | lab3/quagga-1.2.4/lib/stream.c:404-424 | four octets in network order when they are there, otherwise zero and no move |

## Left out
- AsPathStream.SegmentPut: when the room runs out inside a segment, only that nothing before it is touched; which part of it is written is not stated, nor is the count.
- AsPathPacking.PackedParses: one direction; that a path with three or more packed sequences never parses back by accident of its octets is not proved, beyond the family in ThreeSequencesBreak.
- As4.PathSurvives2OctetSpeakers: relays are external 2-octet speakers, so the path has no confederation segment; one 2-octet hop with a confederation in front is ConfedPathMerged.
- AttrUpdate.RouteDelivered: covers ORIGIN, AS_PATH, NEXT_HOP, MED, LOCAL_PREF, ATOMIC_AGGREGATE and AGGREGATOR for IPv4 unicast; the other attributes of bgp_packet_attribute are not part of this model.
- AttrStream.AttrsGet: the copy of an IPv4 MP next hop into a missing NEXT_HOP, the check that a second IPv6 next hop is link-local, notification contents and logging are not part of this model.
- OpenPeek.PeekSkips: one direction; with a non-empty foreign option in front, agreement depends on what its content happens to read as.
- OpenNegotiation.SpeakersAgree: speakers with the override-capability flag are not modelled.
- PeerFsm.EveryRun: the route-clearing work queue reports only while the peer is Clearing or Deleted and once per scheduling; temporary accept-peers and the maximum-prefix restart timer are not modelled; counters do not wrap at 32 bits; callees outside bgp_fsm.c are answers of an environment.
- AttrPools.EveryRun: hash tables are finite sets with find-or-insert; the values compared are numbers, and cluster_intern's copy on insert is the same step as the others' insert.
- Multipath.Update: the next-hop and peer comparisons are integer keys, so the mixed IPv4 and IPv6 branches of bgp_info_nexthop_cmp are one order; debug output and the aggregate attribute of the chain are not part of this model.
- AdjHistory.EveryHistory: attribute interning inside the advertise attributes is left to AttrPools.
- AsPathTextIo.MakeStr: the 16-bit str_len field and segment lengths beyond 65535 are not modelled.
- Community.Match: a large community is its 96-bit number, whose order is that of memcmp; text conversion and interning of communities are not modelled separately.
- Linked segments, FIFOs and adjacency lists are sequences that are reassigned; only the multipath chain is modelled with its pointers.
- aspath_aggregate_mpath, ecommunity, community lists, dampening, route maps, the RIB and decision process, sockets, the CLI, SNMP and the lab programs are not modelled.
