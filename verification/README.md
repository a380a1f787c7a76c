# slirp4netns: a verified model

slirp4netns gives an unprivileged network namespace user-mode networking: a child process opens a tap
device in the namespace and hands its descriptor to a parent, which runs an event loop around libslirp and
answers requests on an API socket. This project models the stateful core of the program and the codecs its
command line depends on, and proves what they promise.

`dafny verify dfyconfig.toml` checks everything. The modules follow the program:

| file | models |
|---|---|
| `text.dfy`, `words.dfy`, `ipv4.dfy` | the C library calls the rest relies on: `strchr`, `strtol`, fixed-width integers, bitwise AND, byte order, `inet_pton` and `inet_ntop` |
| `cidr.dfy` | `--cidr`: parsing, the mask test, the address layout (`main.c`) |
| `mac.dfy` | `--macaddress`: the pointer-walking parser, `sscanf("%x")`, the printed form (`main.c`) |
| `options.dfy` | `parse_args` (`main.c`) |
| `handoff.dfy` | the parent/child hand-over of the tap descriptor (`main.c`) |
| `hostfwd.dfy`, `api.dfy` | the host-forward registry and its request handlers (`api.c`) |
| `timers.dfy` | the libslirp timers (`slirp4netns.c`) |
| `eventloop.dfy`, `eventloop_runs.dfy` | `do_slirp`: setup, the poll table, the rounds (`slirp4netns.c`) |
| `program.dfy` | what a parsed command line means for the hand-over (`main.c`) |
| `sandbox.dfy` | the capability part of `create_sandbox` (`sandbox.c`) |

Stateful code is a class or a method with loops, proved against a specification function on values; the
theorems are about that function. Two things are state machines over values instead: the two processes,
whose steps interleave, and whole runs of the event loop, recorded as a trace of events. Everything the
program gets from outside is an input: the clock, poll results, what libslirp registers, what its callbacks
re-arm, whether it accepts a forward, whether a system call fails, which paths exist, and how a request
text parses as JSON.

Where the code and its documentation differ, the model follows the code:

- The manual shows the `list_hostfwd` entries inside `return`; the code puts them at the top level. Replies
  are values here and the envelope is not part of this model.
- The comment and error text of the MAC parser speak of six bytes; it accepts one to six octets, and a
  short address is padded with zeros (`Mac.OneOctetAccepted`, `Mac.ConfigMac`). Six octets are read exactly
  when the text has five colons (`Mac.LengthIsColonsPlusOne`).
- The manual says a tapfd target conflicts with `--configure`; the parser accepts the pair
  (`Options.TapfdAllowsConfigure`).
- The manual gives 65521 as the largest MTU and the error texts ask for positive or non-negative integers.
  Those bounds hold of the numbers used. A text outside them, negative ones included, is accepted when it
  fits a `long` and its low 32 bits are in range, because `strtol` is assigned to a 32-bit variable; and an
  empty descriptor is 0 (`Options.IntArgMeaning`, `Options.MtuArgMeaning`).
- A poll timeout of 2^31 ms or more reaches `g_poll` as a negative number, which waits for ever, so the
  promise that poll wakes up for the earliest timer holds exactly below that distance
  (`Timers.PollTimeout`, `EventLoopRuns.PollsWaitForTimers`).
- `--help` and `--version` exit at once, so reordering options is harmless exactly for lists that do not
  hold both one of these and a failing option (`Options.HelpOrderMatters`, `Options.ReorderingIsHarmless`).
- Registry and libslirp always agree on keys, but on whole rules only if libslirp refuses duplicate keys
  (`HostFwd.RulesAgreeIffStrict`) or the client avoids them (`HostFwd.DistinctKeysAgree`).

## Model

| member | source | states |
|---|---|---|
| Timers.Wait | slirp4netns.c:223-238 | the wait is at most libslirp's own timeout and every armed timer's clamped distance, and equals one of them |
| Timers.WaitIsUnique | slirp4netns.c:223-238 | that description determines the wait, so the fold computes the minimum |
| Timers.PollTimeout | slirp4netns.c:404-415 | the unsigned timeout is a finite wait of the same length exactly below 2^31 ms, and all ones is the infinite wait |
| Timers.LibslirpData.TimerNew | slirp4netns.c:53-62 | a new timer is appended, disarmed, and the others keep their place and deadline |
| Timers.LibslirpData.TimerFree | slirp4netns.c:65-70 | exactly that timer leaves the list, order and deadlines of the others kept |
| Timers.LibslirpData.TimerMod | slirp4netns.c:73-78 | only that timer's deadline changes |
| Timers.LibslirpData.UpdateRaTimeout | slirp4netns.c:223-238 | the loop through the list returns the minimum and changes no timer |
| Timers.LibslirpData.CheckRaTimeout | slirp4netns.c:245-259 | the loop through the list, with arbitrary re-arming callbacks, ends with the deadlines and the firing order of the specified sweep, each timer at most once |
| Timers.FiredInOrder | slirp4netns.c:249-258 | for any callbacks, the timers fired are strictly increasing list positions: at most once each, in list order |
| Timers.SweepExplained | slirp4netns.c:249-258 | a timer fires exactly when it is due under the writes of the callbacks fired before it, and the final deadlines are all writes applied in order |
| Timers.FiresIffDue | slirp4netns.c:249-258 | a timer no earlier callback touched fires if and only if it is armed (not -1) and its deadline is not in the future |
| Timers.OwnRearmSurvives | slirp4netns.c:253-256 | a fired timer ends with the deadline its own callback gave it last, or disarmed, unless a later callback changes it |
| Timers.UntouchedKeepsDeadline | slirp4netns.c:249-258 | a timer neither fired nor touched keeps its deadline |
| Timers.UntouchedTimer | slirp4netns.c:249-258 | a timer no callback touches fires exactly when it is due and is then disarmed, and otherwise keeps its deadline |
| Timers.WaitedOutTimerFires | slirp4netns.c:223-259 | if a timer set the wait and poll waited it out, the next sweep fires it (or an earlier callback dealt with it), despite both clock readings being truncated from nanoseconds |
| EventLoop.MaskRoundTrip | slirp4netns.c:140-205 | both translations keep each flag, and they undo each other on the five known flags and drop all others |
| EventLoop.MasksKeepFlags | slirp4netns.c:140-205 | flag by flag and in each direction: IN, OUT, PRI, ERR and HUP are each set in the translation exactly when they are set in the original, and no other bit is |
| EventLoop.PlanFor | slirp4netns.c:349-384 | tap, exit and API indices are in bounds and pairwise distinct in every configuration |
| EventLoop.PlanWatches | slirp4netns.c:349-384 | index 0 is the tap, the exit and the API index are those of their own descriptors and absent exactly when the descriptor is, each watched for exactly hang-up, or input and hang-up; there is no other fixed entry |
| EventLoop.PollTable.AddPoll | slirp4netns.c:166-176 | the descriptor is appended with exactly the events asked for, flag by flag, and no result yet, and its index returned |
| EventLoop.PollTable.GetRevents | slirp4netns.c:207-216 | the answer has exactly the flags of the poll result at that index |
| EventLoop.BuildTable | slirp4netns.c:366-384 | the counters of the setup code arrive at the planned prefix and indices |
| EventLoop.WriteReady | slirp4netns.c:394-400 | however often the write is interrupted, the byte is written once or not at all, and the descriptor closed |
| EventLoop.RunSetup | slirp4netns.c:357-400 | the setup goes through exactly when every call that the configuration makes succeeds, and takes the specified steps |
| EventLoop.PrepareRound | slirp4netns.c:402-416 | the table holds the fixed prefix and libslirp's registrations, and every poll uses the folded timeout |
| EventLoop.ServeRound | slirp4netns.c:439-449 | API request, socket service and timer sweep happen as specified, deadlines included |
| EventLoop.RunRound | slirp4netns.c:401-450 | one iteration refines the specified round: same events, same table and deadlines, same decision to go on |
| EventLoop.RunLoop | slirp4netns.c:401-450 | any number of iterations refine the specified loop |
| EventLoop.DoSlirp | slirp4netns.c:336-464 | the imperative program produces exactly the trace the theorems below are about |
| EventLoopRuns.RoundsStartFromFixedPrefix | slirp4netns.c:401-416 | every round of every run starts from exactly the fixed prefix, whatever earlier rounds appended |
| EventLoopRuns.RoundIndices | slirp4netns.c:166-176 | libslirp's indices never meet the tap, exit or API index, and each holds the descriptor, the events flag by flag, and the poll result of its own registration |
| EventLoopRuns.RoundReadbacks | slirp4netns.c:207-216 | whatever registrations libslirp asks about, in any order, each is answered flag by flag with the poll result of the descriptor it registered there, and nothing else is read back |
| EventLoopRuns.RoundServes | slirp4netns.c:421-449 | a round reads the tap and takes an API request exactly when poll reports that descriptor, serves the sockets exactly once with the right select flag, and calls back exactly the timers the sweep fires, once each and in order |
| EventLoopRuns.RoundInOrder | slirp4netns.c:401-449 | in every round truncation, registrations, polls, tap, exit, API, sockets, their readbacks and timers come in this order, and only registrations, polls, readbacks and callbacks repeat |
| EventLoopRuns.SetupDecidesRun | slirp4netns.c:357-400 | in every run each setup event occurs exactly when its own call is made and succeeds; if any call fails nothing is polled, the ready byte is not written and the run ends in a return of -1; if all succeed the run polls, and the ready byte is written exactly when a descriptor was given and the write succeeds |
| EventLoopRuns.SetupInOrder | slirp4netns.c:372-400 | in every run API socket, sandbox, filter, ready byte and its close come first, in this order and at most once each |
| EventLoopRuns.ReadyByteOnce | slirp4netns.c:372-400 | in every run the ready byte is written at most once, only if every setup call that the configuration makes succeeds, after every enabled setup step and before the first poll |
| EventLoopRuns.NothingAfterExit | slirp4netns.c:433-464 | in every run an exit event is followed only by the return of 0: no request, service, callback or poll; every other return is of -1 and is last |
| EventLoopRuns.ExitEventEndsRound | slirp4netns.c:433-437 | the run ends in a round if and only if that round's poll reports the exit descriptor, and that round serves nothing |
| EventLoopRuns.PollFailureEndsRound | slirp4netns.c:414-419 | a failed poll ends the run in that round with -1, and nothing is read or served |
| EventLoopRuns.PollsWaitForTimers | slirp4netns.c:404-416 | every poll of a round waits for the minimum, interrupted or not, and is infinite exactly from 2^31 ms on |
| EventLoopRuns.EarliestTimerCalledBack | slirp4netns.c:404-449 | in a round where a timer set the wait, poll waits exactly that long, and the sweep then calls it back unless an earlier callback touched it |
| EventLoopRuns.RoundHonoursMods | slirp4netns.c:421-449 | a timer no callback touches is called back exactly when the deadline it was last given, in this round or before, has come, and keeps that deadline otherwise |
| HostFwd.CheckArgsMeaning | api.c:112-161 | the argument checks accept exactly a known protocol, non-zero ports and well-formed or defaulted addresses, and with which rule |
| HostFwd.FirstProblemNamed | api.c:112-161 | a refusal names the first wrong argument in the order protocol, host address, host port, guest address, guest port |
| HostFwd.ResubmitRoundTrip | api.c:183-212 | an entry as listed, sent back as arguments, passes every check and means the same rule |
| HostFwd.Find | api.c:237-243 | the first entry of the id, or none |
| HostFwd.ReplyMeaning | api.c:277-319 | for each reply the requests that get it: malformed, not an object, no execute, unknown execute, list, add refused by its arguments or by libslirp, removal of an id that is or is not listed |
| HostFwd.FailuresChangeNothing | api.c:118-169 | no error reply and no list reply changes the registry, the backend table or the id counter |
| HostFwd.SurvivorsSnoc | api.c:170-172 | one more exchange adds its rule last, drops the id it removed, or leaves the replay as it was |
| HostFwd.AgreeAfterRemove | api.c:263-270 | removing a listed entry while the backend drops any entry of its key keeps the two copies in agreement |
| HostFwd.StepKeepsInv | api.c:277-319 | every request keeps: registry equals replay, ids increasing and fresh, rules well formed, copies in agreement |
| HostFwd.RunKeepsInv | api.c:277-319 | so does every run, whatever clients send and the backend decides |
| HostFwd.ListIsReplay | api.c:218-235 | after every run the list reply is the replay of the transcript: adds not later removed, in order, ids increasing in [1, nextid) |
| HostFwd.IdsAreNeverReused | api.c:170-171 | in every transcript a later add has a larger id than an earlier one |
| HostFwd.IdsAreConsecutive | api.c:170-171 | in every transcript the id of an add is one more than the number of adds before it, and so is the counter |
| HostFwd.RegistryMatchesBackend | api.c:162-172 | registry and backend hold the same keys with the same multiplicity, and the same rules if the backend refuses duplicate keys |
| HostFwd.RulesAgreeIffStrict | api.c:162-172 | the registry and the backend hold the same rules after every run if and only if the backend refuses duplicate keys |
| HostFwd.DuplicateKeysDiverge | api.c:263-270 | the failing run, for any two well-formed rules of one key and a backend without that refusal: add both, remove the first, and the two copies hold different rules |
| HostFwd.DistinctKeysAgree | api.c:254-273 | with any backend, as long as no two listed rules share a key at any point of the run, the rules agree |
| HostFwd.ListedRulesAreRemovable | api.c:254-273 | for every listed id the backend has an entry to remove, so a willing backend makes the request succeed |
| HostFwd.ListedRulesResubmit | api.c:183-212 | in every reachable state every listed entry can be resubmitted as it is |
| Api.ApiCtx.constructor | api.c:61-77 | an empty registry, next id 1 and a 4096-byte buffer |
| Api.ApiCtx.CheckAddArgs | api.c:97-161 | the field-by-field checks give the specified verdict, in the specified order of errors |
| Api.ApiCtx.HandleAdd | api.c:97-181 | refines the specified add on registry, counter and table |
| Api.ApiCtx.HandleList | api.c:214-235 | lists every entry once, in list order |
| Api.ApiCtx.HandleRemove | api.c:245-275 | refines the specified removal, searching by id |
| Api.ApiCtx.HandleReq | api.c:277-319 | refines the specified dispatch, error paths included |
| Api.ApiCtx.Handler | api.c:325-360 | a message that fills the buffer is refused without effect; a shorter one is handled as its own bytes whatever the buffer held before, the NUL staying in bounds |
| Api.Serve | api.c:325-360 | a whole sequence of connections, failures and oversized messages included, is a run over the handled requests and keeps its invariant |
| Handoff.StepKeepsInv | main.c:1143-1208 | every step of either process, failing or not, and killing the child keep the protocol invariant |
| Handoff.RunKeepsInv | main.c:1143-1208 | it holds after every interleaving |
| Handoff.ReceiveNeverBlocks | main.c:1188-1194 | the parent reaches the receive only after a clean child exit with exactly one descriptor message queued |
| Handoff.TapStaysOpen | main.c:236-260 | from opening the tap until the loop its open file description has one or two references, and exactly the parent's in the loop |
| Handoff.FailingChildFailsParent | main.c:1174-1193 | a failed or killed child keeps the parent out of the loop and makes it exit non-zero; exit 0 means the loop ran |
| Handoff.NoDeadlock | main.c:1143-1208 | in every reachable state some process can take a succeeding step, except when both are gone or the child waits for a BESS client |
| Handoff.RunsEnd | main.c:1143-1208 | apart from interrupted waits no interleaving is longer than sixteen steps |
| Handoff.HaltedMeansFinal | main.c:1143-1208 | neither process can step if and only if both are gone, and then nothing refers to the tap |
| Handoff.EveryRunCanEnd | main.c:1143-1208 | every run can be continued until both processes are gone |
| Handoff.FailedChildEndsInFailure | main.c:1174-1193 | however a run goes on after the child failed or was killed, it is bounded, never enters the loop, and where it stops the parent has exited non-zero |
| Handoff.NoStageSkipped | main.c:236-262 | in every interleaving, nothing is past entering, opening, configuring (with --configure) or sending unless the child took a successful step at it; so with --configure no descriptor is queued, received or polled before the interface is configured |
| Handoff.OnlyNetnsConfigures | main.c:247-250 | in every other mode no interleaving reaches the configuring stage |
| Handoff.ExitStatusMeaning | main.c:1143-1208 | where a run stops, the exit status is 0 if and only if the child was not killed and no fatal call failed, in either process; configuring is one of them |
| Cidr.FromRegmatch | main.c:877-887 | the buffer holds the group as a C string, or is untouched when the group is too long |
| Cidr.RegexecSound | main.c:896-910 | a match splits the text into four digit fields and a prefix, as the regular expression says |
| Cidr.RegexecComplete | main.c:896-910 | every text of the regular language matches, with these groups |
| Cidr.GroupsFit | main.c:897-920 | both groups of every match fit their buffers, so the copies never fail |
| Cidr.MaskIsComplement | main.c:939 | shift, decrement and complement give the word of prefix ones followed by zeros |
| Cidr.MaskTestIsAlignment | main.c:939-945 | the mask test accepts exactly the multiples of 2^(32-prefix) |
| Cidr.NetworkOrderMaskTest | main.c:939-945 | done on network-order words it means the same on little- and big-endian hosts |
| Words.ByteSwapAnd | main.c:939-940 | byte swapping commutes with bitwise AND |
| Words.HtonlInMemory | main.c:939 | on little- and big-endian hosts the bytes in memory of a converted word are its octets, most significant first |
| Cidr.MaskInMemory | main.c:939 | on either host the bits of the stored mask, in memory order, are prefix ones, then zeros |
| Cidr.NetworkIsRange | main.c:939-940 | the addresses a mask puts in an aligned network are exactly one range that does not wrap |
| Cidr.PrefixLimitIsTight | main.c:33-39 | for prefixes 1 to 32, offset 100 stays inside every aligned network if and only if the prefix is at most 25 |
| Cidr.LayoutFits | main.c:959-966 | gateway, DNS, all 16 DHCP addresses and the guest are distinct host addresses of the network, none wrapping |
| Cidr.ParseCidr | main.c:889-949 | accepts exactly the spellings of aligned networks with prefix 1 to 25, and returns that network and mask: on either kind of host the bytes of the network in memory are the four octets of the text in order, and those of the mask prefix ones, then zeros |
| Cidr.ConfigFromCidr | main.c:951-969 | succeeds for exactly those texts, and then stores the documented layout: on either kind of host network, gateway (2), name server (3), DHCP start (15) and guest (100) are in network order in memory |
| Cidr.DecodeOfSpells | main.c:905-938 | a printed network with its prefix, with or without leading zero, decodes to itself |
| Cidr.SpellsOfDecode | main.c:905-938 | an accepted text is the printed network again, up to a leading zero in the prefix |
| Cidr.EveryNetworkSpelled | main.c:933-945 | every aligned network with prefix 1 to 25 has an accepted text |
| Cidr.SpellingIsUnique | main.c:889-949 | a text names at most one network and prefix |
| Cidr.DefaultNetwork | main.c:29-33 | the default CIDR is accepted and gives the documented 10.0.2.x addresses |
| Ipv4.ParseOfPrint | api.c:191-200 | a printed address reads back as the same address |
| Ipv4.PrintOfParse | main.c:921-925 | a text that reads as an address is how that address is printed |
| Mac.ScanStopsAtColon | main.c:1012-1018 | scanning the rest of the text reads the current field only |
| Mac.ScanOfField | main.c:1018 | on white space, a sign, 0x and hexadecimal digits the scan stores their value, saturated to an unsigned long and cut to an int |
| Mac.FieldOfScan | main.c:1018 | everything the scan accepts has that form |
| Mac.HexstringToData | main.c:1007-1030 | the pointer walk returns the number of octets and stores them, or -1, and never writes past six bytes |
| Mac.LengthIsColonsPlusOne | main.c:1024-1029 | success returns one plus the number of colons; six or more colons always fail |
| Mac.ParseOfPrint | main.c:403-407 | any six bytes, printed in lower or in upper case, parse back to themselves |
| Mac.OneOctetAccepted | main.c:1024-1029 | one octet alone is accepted |
| Mac.ConfigMac | main.c:1112-1125 | the stored hardware address is the octets given, then zeros, and prints as a text that parses to it |
| Text.StrtolOfNumeral | main.c:652-676 | on white space, sign and digits strtol reads to the end and returns the value, clamped to a long with a range error |
| Text.NumeralOfStrtol | main.c:652-676 | a non-empty text that strtol reads to the end is such a numeral |
| Options.IntArgMeaning | main.c:652-667 | a descriptor or pid text is accepted as a number if and only if it is a numeral that fits a long, with that number as its low 32 bits, or empty for 0, and the number reaches the bound |
| Options.MtuArgMeaning | main.c:668-676 | the same for the MTU: a numeral that fits a long and whose low 32 bits are 1 to 65521 |
| Options.DescriptorAccepted | main.c:652-667 | for every integer in decimal: taken as written from 0 to INT_MAX, and otherwise accepted exactly when it fits a long and its low 32 bits are not negative, such as -4294967295 for 1; the empty text is 0; 2^63 no longer fits |
| Options.MtuAccepted | main.c:668-676 | for every integer in decimal: taken as written from 1 to 65521, and otherwise accepted exactly when it fits a long and its low 32 bits are in that range, such as -4294965796 for 1500 |
| Options.ParseMeaning | main.c:593-875 | by positions in the option list: the command line is accepted as `o` if and only if every option is valid, each field of `o` holds the argument of the last option of its own kind (-1, 1500 or nothing if there is none), each flag field says whether its flag or its deprecated name is given, and `o` is consistent and names the target; it exits 0 exactly when help or version comes before anything that stops the loop |
| Options.ParseArgs | main.c:593-875 | the loop and the checks after it give the closed-form outcome, and accept exactly the options the list spells out position by position |
| Options.SwapDifferentKinds | main.c:646-751 | swapping neighbours of different kinds leaves the lists equal kind by kind |
| Options.ReorderingIsHarmless | main.c:646-781 | for every option list: all reorderings across kinds have the same outcome if and only if the list does not hold both a failing option and help or version |
| Options.AgreeingOutcome | main.c:646-781 | lists that agree kind by kind, even with flags repeated, have the same outcome when there is only one sort of stop |
| Options.OrderIsIrrelevant | main.c:646-781 | without help and version they always have the same outcome |
| Options.HelpOrderMatters | main.c:722-729 | with help they need not |
| Options.FinishMeaning | main.c:752-870 | after the loop a command line is accepted as exactly one consistent set of options, the one its positional arguments name, and everything else fails |
| Options.ParsedIsConsistent | main.c:593-875 | every successful parse has one target, a tap name exactly for pid and path, MTU 1 to 65521, a MAC only with configure and never with BESS |
| Program.ChildGetsItsArguments | main.c:1148-1163 | every accepted command line gives the child a tap name and a namespace, or a BESS socket and nothing to configure, so the null checks of open_tap and child_bess never fail |
| Options.TapfdAllowsConfigure | main.c:840-859 | adding --configure to an accepted tapfd command line is accepted |
| Sandbox.Credentials.DropBoundingSet | sandbox.c:211-221 | for every highest capability number the loop ends, keeping at most CAP_NET_BIND_SERVICE |
| Sandbox.Credentials.CreateSandbox | sandbox.c:200-233 | succeeds exactly when the process has the needed privileges, and then bounding is at most, and effective, permitted and inheritable are exactly, that capability, ambient empty |

## Left out

- libslirp, GLib and parson internals: libslirp is an arbitrary backend, JSON an arbitrary parse function, lists are sequences.
- The exact text and envelope of API replies; an error's `desc` is an enumeration value.
- Opening and configuring the tap, entering namespaces and the BESS socket calls: each is one step that succeeds or fails.
- Mount, pivot_root and resolv.conf steps of the sandbox, and the seccomp filter: straight-line system calls.
- Outbound address and interface lookup: depends on the host's interfaces.
- getopt's own argument permutation, usage and version output, and warnings.
- EventLoopRuns.RoundReadbacks: which results libslirp asks for, and that it asks for none after a select error, is libslirp's own behaviour and an input here.
- Timer changes that libslirp might make while it fills the poll table; those made while it handles input, requests and sockets are covered.
- Clean-up of memory, descriptors and the API socket file when `do_slirp` returns.
- Timers.LibslirpData.CheckRaTimeout: callbacks re-arm or disarm existing timers; one that frees the timer being swept or appends due timers is outside what the source's list walk supports. Deadlines are unbounded integers: the 64-bit subtraction is assumed not to overflow.
- HostFwd.CheckArgsMeaning: the protocol argument is a string, because the source compares it without a null check, and JSON numbers are integers that fit an int.
- HostFwd.IdsAreNeverReused: the id counter is unbounded; the source's int would overflow after 2^31 - 1 adds.
- Cidr.ParseCidr: the mask is computed in unsigned 32-bit arithmetic; for prefix 1 the source shifts a signed 1 by 31. The text is a C string, so it holds no NUL.
- Mac.HexstringToData: `sscanf("%x")` reads a bare `0x` as a matching failure, as the C standard has it.
- Handoff.RunsEnd: the parent is never killed, and the event loop is one step that ends.
