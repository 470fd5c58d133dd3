# Path policy of the WiFi offload manager, modelled and proved

The WiFi offload manager turns a list of path classes into kernel policy, runs one state machine per class, and serves
consumers that register for a class. This project models that logic in Dafny 4.11 and proves what it promises.

`dafny verify dfyconfig.toml` checks the whole project.

## What is modelled

**The policy compiler.** `PolicyCompiler` gives the rule lists a class list is compiled into: the MARK chain, the
fwmark rules and the DROP chain. `PacketPolicy` gives rules a meaning for packets (marking goes on, dropping ends, the
interface comparison is masked byte by byte) and proves that the compiled lists mean what the configuration says;
`OutputWalk` follows a packet through OUTPUT, past foreign rules, to the jump into a chain. `Netfilter` models tables,
chains and the staged handle; `RoutingPolicyManager` contains the methods that install and remove, each call of which
may fail; `ChainEdits`, `IpRules` and `Startup` prove idempotence, preservation of foreign rules and rollback.
`ConfigLoader` establishes the distinctness all of this rests on.

**The running system.** `PathStateFsm` is the state machine with the callbacks it fires, `RouteAgreement` wires it to
its routing table, `Wiring` is what main's callbacks do with one event. `Registry` and `ConsumerApiServer` are the
consumer registry, as operations on values and as the class that performs them in place. `Daemon` interleaves one
monitor thread per class with the server thread, step by step; `Delivery` and `Membership` prove what consumers are
told and where their processes are, in every interleaving.

**Parsers and framing.** `WpaEvents` reads wpa_supplicant's text, `Framing` and `MessageStream` are the 96-byte
control message. `HttpHeader` is the download client's header parser, `HttpFields` says what well-formed headers it
reads as they are meant, and `FotaDownload` is the client itself.

Text is a sequence of bytes held as characters. Marks and classids are 32-bit vectors.

**What may fail.** `Environment.Env` fixes beforehand, for every call into the outside world, whether it fails;
nothing is known about the choice. So each operation's contract can say that it succeeds exactly if none of its calls
fails (`Clean`). Adding is all or nothing, or stops at a known point, for every choice; what removing achieves is
stated for runs in which no call made while removing fails, and that it never touches foreign rules is stated for all.
The same holds of the cgroup task files a server opens: the registry, the cache and the replies are stated for every
choice, group membership for runs in which they can be opened, and what a failure leaves instead. Rollback is stated
for at most one failing call (`AtMostOne`), wherever it falls: startup stops at its first failure, so this asks that
the calls made while cleaning up succeed. Sockets, waits and file writes are scripted in the same way: how much each
transfer moves is fixed but unknown (`MessageStream.Stream`, `FotaDownload.Socket`, `FotaDownload.OutFile`).

## Expectations that do not hold as they are usually put

Each of these is settled by an exact condition.

- A default route in a class's table does not imply a live path: a Terminating event leaves the route behind
  (`RouteAgreement.OnlyTerminatingStrands`, `RouteAgreement.StaleIff`).
- AddDropRules does not always leave the compiled ISO chain: without a strict class a chain from an earlier run stays
  (`RoutingPolicyManager.StaleIsoChainIff`).
- Removing a chain does not always remove it: a second jump keeps it alive (`ChainEdits.RemoveCompleteIff`).
- Interface names of 16 bytes or more, which the loader accepts, are compared cut to 15
  (`PacketPolicy.IfaceComparisonExact`, `PacketPolicy.LongNameTurnsOnItself`).
- A registration that interleaves with a broadcast may leave a process in a group it is not registered for
  (`Membership.RaceStrandsProcess`). Over whole runs, membership is exact throughout if and only if every registration
  uses its connection's own pid and no acknowledgement comes for an erased entry (`Membership.RunFineIff`).
- The parsed HTTP header may depend on how the stream was split, exactly when the first `Content-Length:` in the
  header is followed by nothing but white space and close to the end (`HttpHeader.HeaderStableIff`). There are such
  headers that follow the grammar of RFC 9112 (`HttpFields.BareKeyAnswers`, `HttpFields.SplitMatters`).
- The parsed length need not be the declared one: the field's name must be spelled exactly `Content-Length`, and the
  same text with its colon must not occur before the field (`HttpFields.DeclaredLengthIff`).
- Handles repeat after 2^64 registrations (`Registry.HandlesFreshIff`).
- The closed form for signal runs needs warn at or above drop, or at the smallest 32-bit number, which no reading is
  below (`PathStateFsm.SignalRunIff`); every loaded configuration has warn above drop (`ConfigLoader.ParsePathClass`).
- The header comment of the state machine distinguishes Connected events by signal strength. The monitor leaves the
  strength of Connected events at 0, so the thresholds alone decide: PathUp if warn is at most 0, PathDegraded if drop
  <= 0 < warn, PathDown otherwise (`WpaEvents.MonitorLifts`).
- The documented range of routing tables is checked after the configured integer was cut to 32 bits, so integers out
  of range may be accepted, for another table (`ConfigLoader.TableAsConfiguredIff`).

## Model

| member | source | states |
|---|---|---|
| ConfigLoader.ParsePathClass | wifi-offload-manager/src/config/config_loader.cpp:86-192 | exactly the objects with all required members of the right type and range are accepted, integers being cut to 32 bits first; the class says what its members say, thresholds without a member are -70, -75 and -85, and warn is above drop |
| ConfigLoader.FirstFaultReported | wifi-offload-manager/src/config/config_loader.cpp:86-192 | a refusal reports the first member, in reading order, with which something is wrong, and what |
| ConfigLoader.TableAsConfiguredIff | wifi-offload-manager/src/config/config_loader.cpp:145-155 | an accepted class gets the table its configuration names exactly if that integer is in range |
| ConfigLoader.ValidateClasses | wifi-offload-manager/src/config/config_loader.cpp:239-268 | accepts a list if and only if ids, classids, marks and tables are pairwise distinct |
| ConfigLoader.LoadFromArray | wifi-offload-manager/src/config/config_loader.cpp:46-80 | a loaded list is non-empty, distinct and well formed class by class; an error is that of the first bad class, or of the cross-check, or of an empty list |
| PolicyCompiler.StrictPairsMembers | wifi-offload-manager/src/routing/routing_policy_manager.cpp:532-576 | which (interface, mark) pairs the nested loops produce, stated without their order |
| PolicyCompiler.RulesHanded | wifi-offload-manager/src/routing/routing_policy_manager.cpp:65-173 | the compiled rules field by field, as the kernel is handed them |
| PacketPolicy.IfaceComparisonExact | wifi-offload-manager/src/routing/routing_policy_manager.cpp:146-149 | the masked comparison is equality with the name cut to 15 bytes, plain equality for shorter names |
| PacketPolicy.MarkChainMeaning | wifi-offload-manager/src/routing/routing_policy_manager.cpp:408-419 | a packet leaves the MARK chain with its class's mark whatever mark it had, and with its own if no class has its classid |
| PacketPolicy.FwmarkSelectsOne | wifi-offload-manager/src/routing/routing_policy_manager.cpp:437-448 | exactly one of the daemon's ip rules selects a marked packet, the one naming the class's table |
| PacketPolicy.IsolationExact | wifi-offload-manager/src/routing/routing_policy_manager.cpp:557-576 | for names of any length, exactly which packets of a class the ISO chain drops |
| PacketPolicy.IsolationByName | wifi-offload-manager/src/routing/routing_policy_manager.cpp:557-576 | with names that fit: dropped iff the class is strict and strays, or another strict class owns the interface |
| PacketPolicy.UnmarkedNeverDropped | wifi-offload-manager/src/routing/routing_policy_manager.cpp:557-576 | a packet whose mark is no class's is never dropped |
| PacketPolicy.PolicyMeaning | wifi-offload-manager/src/routing/routing_policy_manager.hpp:46-67 | marking, rule selection and isolation of a class's packets in one statement |
| PacketPolicy.LongNameTurnsOnItself | wifi-offload-manager/src/routing/routing_policy_manager.cpp:147-149 | a strict class with a name too long for the kernel is dropped on its own interface |
| ChainEdits.EditKeeps | wifi-offload-manager/src/routing/routing_policy_manager.cpp:366-425 | one add or remove keeps foreign rules in any table, and the one-jump discipline in an orderly one |
| ChainEdits.RunKeeps | wifi-offload-manager/src/routing/routing_policy_manager.cpp:366-425 | after any history of adds and removes: chain present iff one jump, rules those of the last add, foreign part unmoved |
| ChainEdits.AddTwice | wifi-offload-manager/src/routing/routing_policy_manager.hpp:52-53 | a second add changes nothing |
| ChainEdits.RemoveIsForeign | wifi-offload-manager/src/routing/routing_policy_manager.cpp:640-668 | removal leaves exactly the foreign part |
| ChainEdits.RemoveAfterAdd | wifi-offload-manager/src/routing/routing_policy_manager.cpp:640-668 | removal after a first add gives back the very same table |
| ChainEdits.RemoveCompleteIff | wifi-offload-manager/src/routing/routing_policy_manager.cpp:644-666 | the chain goes exactly when at most one OUTPUT rule and no other rule refers to it |
| OutputWalk.AddedJump | wifi-offload-manager/src/routing/routing_policy_manager.cpp:105-122 | a jump added behind everything else is taken by every packet; where one is found OUTPUT stays as it is |
| OutputWalk.WalkJump | wifi-offload-manager/src/routing/routing_policy_manager.cpp:384-404 | the way of a packet through an OUTPUT with one jump: the rules before, the chain if the jump is taken, the rules behind |
| IpRules.AddKeeps | wifi-offload-manager/src/routing/routing_policy_manager.cpp:179-188 | adding an own rule keeps the foreign rules and their order and leaves the rule there once |
| IpRules.DeleteKeeps | wifi-offload-manager/src/routing/routing_policy_manager.cpp:179-188 | deleting an own rule keeps the foreign rules and leaves none of it |
| IpRules.AddAllKeeps | wifi-offload-manager/src/routing/routing_policy_manager.cpp:437-448 | a prefix of the adding loop, from any orderly list |
| IpRules.DeleteAllIsWithout | wifi-offload-manager/src/routing/routing_policy_manager.cpp:454-469 | the deleting loop leaves exactly the foreign rules, in order |
| RoutingPolicyManager.Kernel.SendFwmarkRule | wifi-offload-manager/src/routing/routing_policy_manager.cpp:186-264 | succeeds exactly if the call does not fail and then has the effect asked for; an error may come before or after it |
| RoutingPolicyManager.RoutingPolicyManager.PrepareChain | wifi-offload-manager/src/routing/routing_policy_manager.cpp:366-406 | fails exactly if a call does; otherwise the chain is emptied or created and OUTPUT given a jump unless one is found |
| RoutingPolicyManager.RoutingPolicyManager.AddIptablesMarkRules | wifi-offload-manager/src/routing/routing_policy_manager.cpp:353-429 | one commit installs exactly the compiled chain if no call fails; a failure at any call changes nothing |
| RoutingPolicyManager.RoutingPolicyManager.AddIpRules | wifi-offload-manager/src/routing/routing_policy_manager.cpp:433-452 | the rules of all classes if no call fails, of a prefix of the classes otherwise |
| RoutingPolicyManager.RoutingPolicyManager.RemoveIpRules | wifi-offload-manager/src/routing/routing_policy_manager.cpp:454-469 | every class's rule is deleted once if no call fails; foreign rules survive every failure |
| RoutingPolicyManager.RoutingPolicyManager.BuildDropEntry | wifi-offload-manager/src/routing/routing_policy_manager.cpp:132-173 | the buffer filled in place is the drop rule of that name and mark |
| RoutingPolicyManager.RoutingPolicyManager.CollectIfaces | wifi-offload-manager/src/routing/routing_policy_manager.cpp:533-541 | every configured interface once, in order of first mention |
| RoutingPolicyManager.RoutingPolicyManager.AddDropRules | wifi-offload-manager/src/routing/routing_policy_manager.cpp:473-586 | with a strict class one commit installs exactly the compiled chain if no call fails; otherwise nothing changes |
| RoutingPolicyManager.RoutingPolicyManager.RemoveChainFrom | wifi-offload-manager/src/routing/routing_policy_manager.cpp:631-673 | jump, rules and chain are removed if no call fails; foreign rules survive every failure |
| RoutingPolicyManager.RoutingPolicyManager.RemoveDropRules | wifi-offload-manager/src/routing/routing_policy_manager.cpp:588-629 | the same for the ISO chain of the filter table |
| RoutingPolicyManager.RoutingPolicyManager.Cleanup | wifi-offload-manager/src/routing/routing_policy_manager.cpp:675-684 | the three lists are what removal leaves if no call fails; foreign rules survive every failure |
| RoutingPolicyManager.RoutingPolicyManager.AddDefaultRoute | wifi-offload-manager/src/routing/routing_policy_manager.cpp:812-829 | success, exactly if no call fails, means the table's default route is replaced; failure leaves it or has replaced it |
| RoutingPolicyManager.RoutingPolicyManager.RemoveDefaultRoute | wifi-offload-manager/src/routing/routing_policy_manager.cpp:832-847 | the route goes if it is through that interface, unless a call fails; no other change |
| RoutingPolicyManager.StaleIsoChainIff | wifi-offload-manager/src/routing/routing_policy_manager.cpp:475-481 | exactly when the early return leaves a chain that is not the compiled one |
| Startup.Start | wifi-offload-manager/src/main.cpp:99-143 | startup runs exactly if no call fails, with the whole policy installed; after one failure in any later stage the tables are what they were if nothing of the daemon's was there, else their foreign part |
| Startup.StartAndShutdown | wifi-offload-manager/src/main.cpp:278-303 | a whole life of the daemon, undisturbed or with one failure while starting, gives the tables back |
| Startup.CleanupRestores | wifi-offload-manager/src/main.cpp:117-133 | cleaning up any part of the policy leaves the foreign part of the original tables |
| Startup.StartedMarking | wifi-offload-manager/src/routing/routing_policy_manager.cpp:384-419 | from the top of OUTPUT: a packet of the class gets the class's mark when it comes to the one jump and takes it; a jump startup appended is the last rule and taken by every packet |
| Startup.StartedSelection | wifi-offload-manager/src/routing/routing_policy_manager.cpp:433-452 | the installed list holds the class's rule once, and no other own rule selects its packets |
| Startup.StartedRouting | wifi-offload-manager/src/routing/routing_policy_manager.cpp:173-188 | among all rules of the kernel the class's table routes a marked packet, if it has a route and nothing before 32766 decides; without a route, whatever would without the daemon |
| Startup.StartedIsolation | wifi-offload-manager/src/routing/routing_policy_manager.cpp:473-586 | from the top of OUTPUT: with a strict class, a marked packet is dropped in the ISO chain exactly when it comes to the jump, takes it and isolation forbids the device; otherwise never |
| PathStateFsm.PathStateFsm.OnWpaEvent | wifi-offload-manager/src/fsm/path_state_fsm.cpp:128-131 | fields and callbacks after one event |
| PathStateFsm.PathStateFsm.Transition | wifi-offload-manager/src/fsm/path_state_fsm.cpp:94-125 | nothing without a change; otherwise which fields and callbacks, in which order |
| PathStateFsm.ReachableStates | wifi-offload-manager/src/fsm/path_state_fsm.cpp:45-91 | Scanning and Connecting are never entered |
| PathStateFsm.FollowsDocumentation | wifi-offload-manager/src/fsm/path_state_fsm.hpp:64-73 | in reachable states the machine takes the documented row that applies, and stays put if none does |
| PathStateFsm.Discipline | wifi-offload-manager/src/fsm/path_state_fsm.cpp:94-125 | in every run the active interface is the one the callback log leaves open, and every down callback closes it |
| PathStateFsm.DownsAlternate | wifi-offload-manager/src/fsm/path_state_fsm.cpp:105-118 | every down callback names the interface of the latest up callback, with no other route callback between them |
| PathStateFsm.SignalRun | wifi-offload-manager/src/fsm/path_state_fsm.cpp:69-85 | closed form of a run of signal readings from PathUp |
| PathStateFsm.SignalRunIff | wifi-offload-manager/src/fsm/path_state_fsm.cpp:69-85 | the closed form describes every run exactly for consistent thresholds |
| RouteAgreement.StepRoutes | wifi-offload-manager/src/main.cpp:168-193 | what one event does to the class's routing table, and that it touches no other |
| RouteAgreement.RouteImpliesOpen | wifi-offload-manager/src/fsm/path_state_fsm.cpp:105-118 | in every run a route in the class's table goes through the interface the machine holds open |
| RouteAgreement.OnlyTerminatingStrands | wifi-offload-manager/src/fsm/path_state_fsm.cpp:50-51 | an event makes a route stale exactly when it is Terminating and finds one |
| RouteAgreement.StaleIff | wifi-offload-manager/src/fsm/path_state_fsm.cpp:45-125 | over whole runs, a route is stale exactly when a Terminating event stranded it and nothing lifted the path since |
| RouteAgreement.RouteImpliesLive | wifi-offload-manager/src/main.cpp:168-193 | without Terminating events a route implies PathUp or PathDegraded |
| Wiring.Serve | wifi-offload-manager/src/main.cpp:168-202 | what one callback does to routes and server; routes and groups are exact if no call fails, everything else always |
| Wiring.OnEvent | wifi-offload-manager/src/main.cpp:204-211 | one undisturbed event: machine and routes step together, and the server sees one cache write and one locked send |
| Wiring.ServeAll | wifi-offload-manager/src/main.cpp:168-202 | what the callbacks of one event do, in order |
| Wiring.TellOnce | wifi-offload-manager/src/main.cpp:195-202 | of the callbacks of one event one speaks to the server, if the state changed; the second state write is idle |
| Registry.RunInv | wifi-offload-manager/src/api/consumer_api_server.cpp:237-332 | in every run: one entry per connection, known classes, handles that follow the counter |
| Registry.HandlesFreshIff | wifi-offload-manager/src/api/consumer_api_server.cpp:287-289 | handles are non-zero and never repeat exactly while fewer than 2^64 were issued; entries are below the counter |
| Registry.UnregisterExact | wifi-offload-manager/src/api/consumer_api_server.cpp:317-330 | exactly the entry with the handle goes, the rest keeps its order; without one nothing changes |
| Registry.RegisterKeepsIff | wifi-offload-manager/src/api/consumer_api_server.cpp:280-293 | a registration keeps cgroup membership exactly when its pid is its connection's own |
| Registry.OthersKeepCgroups | wifi-offload-manager/src/api/consumer_api_server.cpp:237-252 | unregister, disconnect and broadcast clean-up keep membership |
| Registry.RunKeepsCgroups | wifi-offload-manager/src/api/consumer_api_server.cpp:419-455 | in every such run each registered process is in its class's group and every other one at the root |
| Registry.RunInConfiguredGroups | wifi-offload-manager/src/api/consumer_api_server.cpp:419-455 | in every such run each registered process is in the directory its class's configuration names, every other one at the root |
| Registry.OnePidEachKeepsCgroups | wifi-offload-manager/src/api/consumer_api_server.cpp:419-455 | with one process per connection, always the same, membership holds in every run |
| Registry.FindClass | wifi-offload-manager/src/api/consumer_api_server.cpp:459-473 | the first class state with that id, or none |
| Registry.TargetsExact | wifi-offload-manager/src/api/consumer_api_server.cpp:379-385 | the targets of a broadcast are the entries at exactly the positions that hold the class, in increasing order |
| ConsumerApiServer.EraseEachIsFilter | wifi-offload-manager/src/api/consumer_api_server.cpp:386-397 | erasing the broken sockets one by one is the filter, given one entry per socket |
| ConsumerApiServer.SharedSocketErasesWrong | wifi-offload-manager/src/api/consumer_api_server.cpp:391-396 | with two entries on one socket the wrong entry is erased |
| ConsumerApiServer.ConsumerApiServer.constructor | wifi-offload-manager/src/api/consumer_api_server.cpp:23-38 | every class Idle, no entry, first handle 1 |
| ConsumerApiServer.ConsumerApiServer.RemoveClient | wifi-offload-manager/src/api/consumer_api_server.cpp:239-252 | the connection's entry goes, and its process's membership unless the task file cannot be opened |
| ConsumerApiServer.ConsumerApiServer.HandleRegister | wifi-offload-manager/src/api/consumer_api_server.cpp:256-308 | unknown classes are refused; otherwise the new entry replaces the connection's old one, the whole reply is given, with handle, class and cached state, and the process joins that class's directory unless the task file cannot be opened |
| ConsumerApiServer.ConsumerApiServer.HandleUnregister | wifi-offload-manager/src/api/consumer_api_server.cpp:312-332 | the entry with the handle goes, its process leaves the group unless the task file cannot be opened; an error is reported if and only if there is none |
| ConsumerApiServer.ConsumerApiServer.QueryCurrentState | wifi-offload-manager/src/api/consumer_api_server.cpp:405-408 | the cached state, Idle for unknown classes |
| ConsumerApiServer.ConsumerApiServer.UpdateCurrentState | wifi-offload-manager/src/api/consumer_api_server.cpp:410-415 | sets the cached state of a known class and nothing else |
| ConsumerApiServer.ConsumerApiServer.AssignCgroupPid | wifi-offload-manager/src/api/consumer_api_server.cpp:419-435 | writes the process into the directory of the first class state with that id, or leaves it where it is if the task file cannot be opened |
| ConsumerApiServer.ConsumerApiServer.RemoveCgroupPid | wifi-offload-manager/src/api/consumer_api_server.cpp:437-455 | puts the process back at the root, or leaves it where it is if the task file cannot be opened |
| ConsumerApiServer.ConsumerApiServer.SendToClass | wifi-offload-manager/src/api/consumer_api_server.cpp:379-385 | sends to the targets in registry order, which `Registry.TargetsExact` pins down, and reports the broken ones |
| ConsumerApiServer.ConsumerApiServer.BroadcastPathEvent | wifi-offload-manager/src/api/consumer_api_server.cpp:359-401 | cache written; the event sent to the entries at exactly the positions that hold the class, in increasing order; registry filtered by the broken ones, whose processes alone change group |
| Daemon.RunKeepsClass | wifi-offload-manager/src/main.cpp:156-221 | in every interleaving each class's machine, route, cache and log are what its own events alone make of them; the log holds each of its transitions once, in order, but for one still to be sent |
| Daemon.NonInterference | wifi-offload-manager/src/main.cpp:156-221 | two interleavings that give a class the same events agree on its machine, its table and its cache |
| Daemon.CacheAgrees | wifi-offload-manager/src/api/consumer_api_server.cpp:364-369 | between transitions the cache shows the machine's state and its last transition |
| Delivery.RunDelivers | wifi-offload-manager/src/api/consumer_api_server.cpp:378-385 | each registered consumer was sent exactly its class's broadcasts since its entry was pushed, in order |
| Delivery.DeliveredIffAttempted | wifi-offload-manager/src/api/consumer_api_server.cpp:378-397 | a consumer gains an event if and only if the send on its entry's socket was attempted and the socket is not broken |
| Delivery.RemovedHearsNothing | wifi-offload-manager/src/api/consumer_api_server.cpp:239-252 | however a run goes on after an unregister or disconnect, no entry holds the handle and nothing more is sent to it |
| Delivery.SentSincePush | wifi-offload-manager/src/api/consumer_api_server.cpp:280-290 | a consumer was sent exactly the transitions of its class broadcast since the step that pushed its entry |
| Delivery.LastEventIsState | wifi-offload-manager/src/main.cpp:195-202 | the last event sent names the machine's state unless a transition is in progress |
| Delivery.ConsumerKnowsState | wifi-offload-manager/src/api/consumer_api_server.cpp:295-305 | once acknowledged, the last event or, without one, the acknowledgement names the machine's state |
| Membership.AcknowledgeIff | wifi-offload-manager/src/api/consumer_api_server.cpp:279-293 | the assignment after the push completes membership exactly when the entry is still there |
| Membership.StepKeepsFineIff | wifi-offload-manager/src/api/consumer_api_server.cpp:256-400 | a step keeps membership exact outside the registration in progress exactly if a push brings its connection's own pid and an acknowledgement finds its entry |
| Membership.RunFineIff | wifi-offload-manager/src/api/consumer_api_server.cpp:256-400 | over whole runs: membership is exact throughout if and only if every step is of that kind |
| Membership.RunInConfiguredGroups | wifi-offload-manager/src/api/consumer_api_server.cpp:419-435 | in every such run, between registrations, each registered process is in the directory its class's configuration names |
| Membership.RaceStrandsProcess | wifi-offload-manager/src/api/consumer_api_server.cpp:292-293 | a run after which an unregistered process stays in a group |
| WpaEvents.FieldRoundTrip | wifi-offload-manager/src/wpa/wpa_monitor.cpp:115-131 | a printed number after the key's first occurrence is read back; one beyond 32 bits is read as 0 |
| WpaEvents.FieldAbsent | wifi-offload-manager/src/wpa/wpa_monitor.cpp:115-131 | a field without its key, or with no number behind it, is 0 |
| WpaEvents.NumberThenText | wifi-offload-manager/src/wpa/wpa_monitor.cpp:127-131 | whatever follows a number that is no digit is ignored |
| WpaEvents.SignalRoundTrip | wifi-offload-manager/src/wpa/wpa_monitor.cpp:133-159 | a printed signal report with any digit priority is read back |
| WpaEvents.StripsPriority | wifi-offload-manager/src/wpa/wpa_monitor.cpp:103-111 | the priority prefix is removed and nothing else |
| WpaEvents.NoPriority | wifi-offload-manager/src/wpa/wpa_monitor.cpp:103-111 | text without a priority prefix is left as it is |
| WpaEvents.EventTexts | wifi-offload-manager/src/wpa/wpa_monitor.cpp:133-159 | messages as they are sent, written out, with their kinds |
| WpaEvents.SignalWithoutKeys | wifi-offload-manager/src/wpa/wpa_monitor.cpp:145-148 | a signal report without the two keys reads as strength 0 |
| WpaEvents.EventKinds | wifi-offload-manager/src/wpa/wpa_monitor.cpp:133-159 | each event kind is recognised by its own prefix and by nothing else; only signal reports carry numbers |
| WpaEvents.MonitorLifts | wifi-offload-manager/src/wpa/wpa_monitor.cpp:140-141 | where a report of a connection takes a down machine: all three outcomes, by the thresholds alone |
| Framing.NameRoundTripIff | wifi-offload-manager/src/api/consumer_api_server.cpp:257-258 | a name survives its buffer exactly when it is NUL-free and at most 31 bytes long |
| Framing.NameBytes | wifi-offload-manager/src/api/consumer_api_server.cpp:257-258 | what the buffer holds of any name, byte by byte |
| Framing.WireNumbers | wifi-offload-manager/src/api/consumer_api_server.hpp:30-38 | the numbers of states, message kinds and errors |
| Framing.Layout | wifi-offload-manager/src/api/consumer_api_server.hpp:42-53 | at which offset, in which byte order, each field of a message lies |
| Framing.DecodeEncode | wifi-offload-manager/src/api/consumer_api_server.hpp:42-53 | decoding undoes encoding for every message |
| Framing.EncodeDecode | wifi-offload-manager/src/api/consumer_api_server.hpp:42-53 | encoding undoes decoding for every block of 96 bytes |
| MessageStream.Stream.TrySendMsg | wifi-offload-manager/src/api/consumer_api_server.cpp:475-497 | succeeds exactly if no transfer fails; then the whole message is appended, else a proper prefix |
| MessageStream.Stream.RecvMsg | wifi-offload-manager/src/api/consumer_api_server.cpp:499-509 | succeeds exactly if 96 bytes are there and no transfer fails, and returns exactly those |
| MessageStream.Stream.Exchange | wifi-offload-manager/src/api/consumer_api_server.cpp:475-509 | in any order of sends and receives the messages come out whole and in order; every receive that follows its send succeeds if no transfer fails |
| MessageStream.FrameAt | wifi-offload-manager/src/api/consumer_api_server.cpp:499-509 | the k-th 96 bytes of the stream are the k-th message |
| HttpHeader.HeaderStableIff | wifi-offload-manager/tests/fota_consumer.cpp:316-345 | the parsed header is the same for every amount of body read with it exactly when its length value does not dangle |
| HttpHeader.PrefixOutcome | wifi-offload-manager/tests/fota_consumer.cpp:414-425 | whatever has been buffered, the parser waits or says what the stream's header says |
| HttpHeader.WellFormedRead | wifi-offload-manager/tests/fota_consumer.cpp:316-345 | status and length of a header with digits after the first key are read as written, to 20 digits; above 64 bits the parser throws |
| HttpHeader.NumberForms | wifi-offload-manager/tests/fota_consumer.cpp:327-341 | what the two conversions make of white space, sign, digits and the rest, in and out of range |
| HttpHeader.NoNumberForms | wifi-offload-manager/tests/fota_consumer.cpp:327-341 | no digit behind white space and sign, no number |
| HttpHeader.BareKeyDangles | wifi-offload-manager/tests/fota_consumer.cpp:336-341 | a complete header whose first key is followed by the blank line dangles |
| HttpHeader.DanglingAnswers | wifi-offload-manager/tests/fota_consumer.cpp:316-345 | a dangling header alone makes the parser throw, with a digit after it that digit is the length |
| HttpFields.BareFieldDangles | wifi-offload-manager/tests/fota_consumer.cpp:336-341 | a well-formed header whose last field ends in the first key dangles |
| HttpFields.BareKeyAnswers | wifi-offload-manager/tests/fota_consumer.cpp:336-341 | a family of well-formed headers for which the parser's answer is whatever digit they were read with |
| HttpFields.SplitMatters | wifi-offload-manager/tests/fota_consumer.cpp:336-341 | one such header written out, with three different answers |
| HttpFields.HeadIsComplete | wifi-offload-manager/tests/fota_consumer.cpp:330-331 | in a well-formed header the first blank line is the end |
| HttpFields.StatusOfHead | wifi-offload-manager/tests/fota_consumer.cpp:321-327 | the code of a well-formed header is read |
| HttpFields.UndeclaredIsZero | wifi-offload-manager/tests/fota_consumer.cpp:333-342 | a well-formed header that nowhere spells the key has length 0 |
| HttpFields.DeclaredIsRead | wifi-offload-manager/tests/fota_consumer.cpp:335-341 | a length field the parser finds is read as its digits say, to 20 digits and 64 bits |
| HttpFields.DeclaredLengthIff | wifi-offload-manager/tests/fota_consumer.cpp:335-341 | the parser reads the declared length, whatever it is, if and only if the name is spelled exactly so and the spelling does not occur before |
| FotaDownload.OutFile.WriteAll | wifi-offload-manager/tests/fota_consumer.cpp:519-534 | partial writes and interruptions add up to the whole data unless a write fails, which leaves a proper prefix |
| FotaDownload.ReadHeader | wifi-offload-manager/tests/fota_consumer.cpp:407-425 | the answer is that of the whole stream, however it is split, and it is reached if every receive delivers something |
| FotaDownload.ReadBody | wifi-offload-manager/tests/fota_consumer.cpp:496-558 | while no write fails the file is the body read so far and `received` its length; undisturbed, it goes on to the announced length or the end of the stream |
| FotaDownload.SaveBody | wifi-offload-manager/tests/fota_consumer.cpp:437-479 | an early write failure is reported exactly when the first bytes are not all in the file; otherwise the exit is short exactly when the file holds less than was received or announced, however the loop ended |
| FotaDownload.AfterHeader | wifi-offload-manager/tests/fota_consumer.cpp:427-618 | what follows the header, exit by exit |
| FotaDownload.Download | wifi-offload-manager/tests/fota_consumer.cpp:414-618 | which exit follows from which header, and what each exit says about the file; undisturbed, the exit is a function of the stream |
| FotaDownload.DeclaredVerdict | wifi-offload-manager/tests/fota_consumer.cpp:610-616 | behind a header whose length field is found, code 200 means success exactly if the body has at least the declared length |
| FotaDownload.DownloadTwice | wifi-offload-manager/tests/fota_consumer.cpp:414-618 | two downloads of one stream agree on the header and, undisturbed, on the exit; with the body exactly as announced two successes leave the same file |

## Left out

- Netlink sockets, message layout, libiptc internals, epoll, accept and file descriptors: tables, maps and free choice
  of success stand for them.
- queryGatewayForIface: the gateway found is a value chosen with each event, 0 for none; a failed route addition
  counts as none.
- createCgroupHierarchy and the removal of directories: only the map from process to group is modelled. A failure in
  the first stage returns without cleanup, so directories are not claimed to be rolled back.
- Daemon.State: in the interleaved system, writes to cgroup task files are taken to succeed, and a process's group is
  changed by the daemon alone; Registry's operations on values assume the same. What a task file that cannot be opened
  does to a handler is stated by the class.
- MPTCP endpoint commands: startup only knows whether they succeeded.
- OutputWalk.World: what foreign netfilter rules in OUTPUT do to a packet is any function of rule and packet that
  keeps its classid and device, and in the filter table its mark; foreign chains are not followed.
- IpRules.DeleteRule: identifies a rule by priority, mark and table; foreign rules with the same three and further
  selectors are not represented.
- Daemon.Enabled: histories are followed while the handle counter has not wrapped; what wrapping does to handles is
  stated by Registry.HandlesFreshIff.
- Daemon.Next: a cache write, and a state change together with its route callback, are one step each; the
  unsynchronised accesses to the cached class states are taken to be atomic.
- RegisterAck and events on the wire: their order on one connection is not modelled, because the acknowledgement is
  sent outside the lock.
- stop, socket closing and reuse of descriptors, handleQueryCurrent and unknown message types.
- JSON text, base detection of hexadecimal fields, logging, signals, watchdog, configuration reload, throughput
  sampling and SHA-256.
- WpaMonitor's reconnect loop and the wpa_ctrl sources.
- FotaDownload.OutFile: the number of interrupted and empty writes, and of waits without data, is finite in each run;
  a write that never progresses is not modelled as an endless loop.
- Path events on the control socket, which the download loop reads only to print them.