# Verified model of the peer-to-peer execution node

A node accepts C source files from its REPL, asks the other nodes on the LAN how loaded they are, sends the file to
the least loaded one, and prints the compiler's and the program's output as it streams back. This project models
that node in Dafny and proves what its parts promise one another.

| file | models |
|---|---|
| `Bytes.dfy`, `Common.dfy` | bytes, C integer widths, network byte order; the constants of `common.h` |
| `Framing.dfy` | the 8-byte message frame and streams of frames |
| `NetUtils.dfy` | `send_all`, `recv_all`, `send_msg`, `recv_msg` over a fragmenting kernel |
| `TaskFile.dfy` | the `MSG_TASK_FILE` payload, from the REPL to the worker's parser |
| `Transcript.dfy` | what a session says on the wire and what the submitter reads out of it |
| `Worker.dfy` | pipe streaming, compile and run, one connection, the accept loop |
| `Session.dfy` | worker, network and dispatcher interleaving step by step |
| `Dispatcher.dfy` | load queries, target selection, one whole dispatch |
| `LoadMonitor.dfy`, `LoadReport.dfy`, `Responder.dfy` | counters, percentage and score; the load report and its responder |
| `Admission.dfy` | the accept loop's limit and the task counters over interleaved handler threads |
| `PeerList.dfy` | the 64-slot peer table and the bounded map it stands for |
| `Discovery.dfy` | HELLO and BYE packets and the listener |
| `Registry.dfy` | listener, reaper and dispatcher interleaving on the peer table; reaper timing |
| `Primes.dfy`, `Powers.dfy`, `WebUploadProj.dfy` | the sample program: trial division and the first so many primes |

## How the environment is modelled

- A connection is a byte stream in each direction. How far it gets (`capacity`) and what arrives (`incoming`) is
  arbitrary but fixed in advance, so a connection that has broken stays broken; how many bytes each call moves and
  which calls are interrupted is chosen at each call. Interruptions are finite in number. In `Session.dfy` nothing
  is fixed in advance: the connection may be cut in any step.
- A child process is the bytes its pipe yields before end-of-file and a wait status. The worker treats a read error
  like end-of-file, so the output is what was readable up to then.
- A locked operation on the peer table is one atomic step, and other threads may perform any number of them between
  two steps of a dispatch. The reaper's clock reading and its scan are two steps, and so are the two
  operations of a HELLO.
- Scores are reals; on the wire a load percentage is an arbitrary 32-bit pattern, read by an arbitrary function.
- Addresses are NUL-free strings of at most 15 characters, so `strncpy` keeps them whole.

## Where the code and its documentation disagree

The model follows the code.

- The score is the load percentage plus 10 points for each active task, not `load1 + 0.5 * active_tasks`, and there
  is no `MSG_TASK_CMD`.
- "Max concurrent tasks: 8" is not what the accept loop enforces: it tests a counter that handlers raise only after
  they have received their file. `Admission.LimitHoldsExactly` gives the exact condition, `Admission.AdmissionBound`
  the bound that does hold, and `Admission.BoundAttained` runs that reach it.
- "If no peers respond, falls back to local execution" holds exactly while the own score is at most 1e9
  (`Dispatcher.AllSilent`); above that the first silent peer is tried first, at an uninitialised port. That a chosen
  peer has answered holds for all replies exactly up to the same score (`Dispatcher.ChosenPeerAnswered`).
- "-1 on error": dispatch also returns -1 for a task that finished with a MSG_TASK_DONE starting with four bytes 0xFF,
  and for no other finished task (`Transcript.MinusOneExactly`, `Transcript.ForgedFailure`). A worker that keeps to
  the protocol never sends that code (`Transcript.ExitCode`).
- "30 seconds since last HELLO": a load reply refreshes the time as well (`Registry.Sights`).
- `is_prime` takes any `int`, but `i * i` overflows for those from 46337^2 on that have no divisor from 2 to 46339
  (`WebUploadProj.OverflowExactly`), which are the primes there (`WebUploadProj.OverflowsForPrimes`); 2147352577 is
  one (`WebUploadProj.OverflowHappens`).

## Model

| member | source | states |
|---|---|---|
| Bytes.NetworkOrder | New_socket_proj/net_utils.c:51-61 | numbers go on the wire with the most significant byte first |
| Framing.DecodeEncode | New_socket_proj/net_utils.c:51-89 | receiving undoes sending and consumes exactly the header and the payload, whatever follows |
| Framing.AcceptedStreams | New_socket_proj/net_utils.c:64-89 | recv_msg accepts exactly the images of messages within the size guard, with the flags and reserved fields free |
| Framing.FrameBytes | New_socket_proj/net_utils.c:51-61 | the bytes of a frame: type, flags, length with the most significant byte first, two reserved bytes, payload |
| Framing.ReceivedBytes | New_socket_proj/net_utils.c:64-89 | in terms of the bytes, exactly what recv_msg accepts: any type, and at most 4 MB + 264 bytes of payload |
| Framing.CutFrame | New_socket_proj/net_utils.c:64-89 | a message cut anywhere before its end is reported as a failure, never as a shorter message |
| Framing.CutStream | New_socket_proj/net_utils.c:51-89 | any list of messages, cut at any byte, is received as exactly the complete messages before the cut and then -1 |
| Framing.WholeStream | New_socket_proj/net_utils.c:51-89 | an uncut stream gives back the list of messages that was sent |
| NetUtils.Socket.Send | New_socket_proj/net_utils.c:25-31 | the kernel takes some non-empty part of the buffer, is interrupted, or reports the connection broken for good |
| NetUtils.Socket.Recv | New_socket_proj/net_utils.c:40-46 | the kernel delivers some non-empty part of what is to come, is interrupted, or reports the end |
| NetUtils.SendAll | New_socket_proj/net_utils.c:21-33 | 0 exactly when the whole buffer fits before the break; otherwise the part up to the break was sent; terminates |
| NetUtils.RecvAll | New_socket_proj/net_utils.c:36-48 | 0 exactly when enough bytes arrive; they are in the buffer in order and the rest of the buffer is untouched; terminates |
| NetUtils.SendMsg | New_socket_proj/net_utils.c:51-61 | the wire gains the encoded message as far as the connection carries it, and 0 means all of it |
| NetUtils.RecvMsg | New_socket_proj/net_utils.c:64-89 | the outcome depends on the bytes to come only, not on how they are fragmented |
| TaskFile.Basename | New_socket_proj/main.c:156-157 | the longest end of the path without a slash |
| TaskFile.ParseWithCursor | New_socket_proj/worker.c:175-187 | the cursor stays inside the payload on every input, and an accepted task is within the limits |
| TaskFile.AcceptedPayloads | New_socket_proj/worker.c:175-187 | the worker accepts exactly the encodings of tasks within the limits, each followed by any tail |
| TaskFile.TaskBytes | New_socket_proj/dispatcher.c:88-99 | the bytes of the payload: both lengths with the most significant byte first, each followed by what it counts |
| TaskFile.SubmittedTaskFits | New_socket_proj/main.c:88-107 | a file of 1 byte to 4 MB becomes a task with its contents and the last part of its path, or the first 255 bytes of that; the payload is at most 4 MB + 261 bytes, passes the size guard and every worker check and is parsed back to the same task |
| Transcript.ExitCode | New_socket_proj/worker.c:51-56 | a worker's exit code is a byte, hence never -1, and it is zero only for a child that exited with zero |
| Transcript.JobByChildren | New_socket_proj/worker.c:85-137 | what a job's output and code are, child by child: a compiler that is killed or fails ends the job with its messages and its code; otherwise the program's output follows and its code counts; a killed child's code is 128 plus the signal |
| Transcript.EndToEnd | New_socket_proj/dispatcher.c:107-133 | for every chunking and every cut the submitter prints a prefix of the job's output; it gets a result exactly when the whole transcript arrives, and then the output is complete and the code is the compiler's if not zero, otherwise the program's |
| Transcript.WholeSession | New_socket_proj/worker.c:85-137 | from the children alone, what the submitter prints and gets when the transcript arrives whole |
| Worker.StreamAndWait | New_socket_proj/worker.c:32-57 | the child's whole output is framed in order as far as the connection carries it; the code is the child's own unless the connection broke |
| Worker.CompileAndStream | New_socket_proj/worker.c:63-143 | on every path the wire is a complete transcript of the job cut where the connection broke; on one that did not fill up, a reader finds the compiler's messages, the program's output if it ran, and the code of the child that decides, all from the children alone; the task is counted as active no longer and in the total once |
| Worker.HandleConnection | New_socket_proj/worker.c:146-201 | at most one task is run per connection, and only for a complete well-formed task message; otherwise nothing is sent or counted |
| Worker.OnlyTaskMessages | New_socket_proj/worker.c:159-196 | a message of any type but 6 makes the worker run nothing, and neither does a stream without a whole message |
| Worker.AcceptLoop | New_socket_proj/worker.c:204-237 | in the order of the calls, exactly the clients of those calls of accept get a handler that yield a connection with fewer than eight tasks active and come before the first failing call |
| Session.Reachable | New_socket_proj/worker.c:32-143 | the stream invariant holds in every state of every interleaving of worker, network and dispatcher |
| Session.Safety | New_socket_proj/dispatcher.c:107-133 | in every reachable state the submitter has been shown a prefix of the output; a result is the job's and comes after all of it; a session is lost only if the connection was or the source could not be written |
| Session.ResultByChildren | New_socket_proj/worker.c:85-137 | whenever a session of any interleaving has ended with a result, what has been printed and what the result is, from the children alone |
| Session.BoundedMoves | New_socket_proj/net_utils.c:21-48 | while the connection holds, a session makes a bounded number of moves however its transfers are fragmented |
| Session.Completion | New_socket_proj/worker.c:32-143 | a session that comes to rest with the connection still up has delivered all output and the job's code, or has told the submitter that the source could not be written |
| Session.BoundedAfterCut | New_socket_proj/dispatcher.c:107-133 | after a cut at any moment the dispatcher makes a bounded number of moves, whatever the worker goes on doing |
| Session.VerdictAfterCut | New_socket_proj/dispatcher.c:107-133 | when it then has no move left it has a verdict: the job's own code after all the output, or none after a prefix of it |
| Dispatcher.SendTaskFile | New_socket_proj/dispatcher.c:86-104 | the task's encoding is sent as one message, as far as the connection carries it |
| Dispatcher.ReceiveOutput | New_socket_proj/dispatcher.c:107-133 | output and code are those that the frames in the arriving stream determine; -1 when it ends early |
| Transcript.ReadOn | New_socket_proj/dispatcher.c:107-133 | frames without a type 8 among them yield no result and what follows them is read as if it came alone |
| Transcript.ReadFirst | New_socket_proj/dispatcher.c:118-131 | type 7 is printed, type 8 ends the reading, every other type is passed over |
| Transcript.CodeBytes | New_socket_proj/dispatcher.c:122-127 | the code is the first four bytes of the payload, most significant first, in two's complement; zero if there are fewer |
| Transcript.DecidedByFirstDone | New_socket_proj/dispatcher.c:107-133 | there is no result exactly when no MSG_TASK_DONE arrives, and otherwise the first one alone decides it |
| Transcript.MinusOneExactly | New_socket_proj/dispatcher.c:113-130 | for every stream of bytes, -1 is returned although a MSG_TASK_DONE arrived exactly when the first one starts with four bytes 0xFF, and it is returned whenever none arrived |
| Transcript.ForgedFailure | New_socket_proj/dispatcher.c:120-130 | one such stream, as bytes: a worker outside the protocol can make a finished task look like a failure |
| Dispatcher.QueryPeerLoad | New_socket_proj/dispatcher.c:18-83 | a valid reply yields the percentage plus ten points a task and the peer's registered port and is recorded; any other outcome yields 1e9 and leaves port and table alone |
| Dispatcher.ChooseTarget | New_socket_proj/dispatcher.c:142-176 | self is chosen exactly when no score is lower and the own one is at most 1e10; otherwise the one first peer of least score, if that is below 1e10; with an own score of at most 1e9 the port is the chosen peer's registered one; nothing other threads do to the table meanwhile matters |
| Dispatcher.SelfByReplies | New_socket_proj/dispatcher.c:155-173 | from the replies alone, exactly when self is chosen: its percentage plus ten points a task exceeds that of no peer that answered, nor 1e9 if some peer is silent, nor 1e10 if there is any peer |
| Dispatcher.BestByReplies | New_socket_proj/dispatcher.c:155-159 | from the replies alone, who is chosen otherwise while the own score is at most 1e9: a peer that answered, less loaded than self, and the first of the least loaded of those that answered |
| Dispatcher.SelfChosenExactly | New_socket_proj/dispatcher.c:170-173 | that self is chosen exactly when no peer scores less holds for all scores if and only if the own score is at most 1e10 |
| Dispatcher.ChosenPeerAnswered | New_socket_proj/dispatcher.c:147-170 | a peer that is chosen has answered, for all replies, if and only if the own score is at most 1e9 |
| Dispatcher.BestExists | New_socket_proj/dispatcher.c:147-160 | there is a first peer of least score whenever any score is below 1e10 |
| Dispatcher.BestPeerExact | New_socket_proj/dispatcher.c:147-160 | that peer is unique, and there is none exactly when every score is 1e10 or more |
| Dispatcher.AllSilent | New_socket_proj/dispatcher.c:147-170 | when all peers are silent the task stays local exactly when there is no peer or the own score is at most 1e9, as for up to 99,999,990 active tasks; otherwise the first peer is chosen at an uninitialised port |
| Dispatcher.AnsweredScore | New_socket_proj/dispatcher.c:64-81 | a peer is scored with the formula it uses for itself, on the values it sent, and exactly those are recorded if it is still listed |
| Dispatcher.RunOn | New_socket_proj/dispatcher.c:196-208 | over one connection the task runs once exactly when its message gets through, and the result is -1 unless the whole transcript comes back |
| Dispatcher.ConnectAndRun | New_socket_proj/dispatcher.c:179-208 | the task goes to the target, or to this node if the target refuses the connection, and to nobody else |
| Dispatcher.Dispatch | New_socket_proj/dispatcher.c:136-209 | one dispatch from snapshot to result, with other threads changing the table all along: the snapshot and the replies alone say where it goes, and with an own score of at most 1e9 a remote task is tried at the chosen peer's registered port; it runs at most once; what is printed, and what is recorded of the peers |
| Dispatcher.SettledOnce | New_socket_proj/dispatcher.c:178-208 | however a dispatch is settled, at most one task ran, and a result other than -1 means it ran and was printed in full |
| Dispatcher.SettledByLink | New_socket_proj/dispatcher.c:182-208 | for connections of given capacities: the task runs once exactly when 14 bytes more than its name and contents get through to a handler, and the result is complete if nine bytes for each of output and 12 more come back, and lost if fewer than the output's and 12 more do |
| Dispatcher.OneTaskSent | New_socket_proj/worker.c:159-192 | from one task message, cut twice on its way, the worker gets exactly that task, or none if anything is missing |
| LoadMonitor.Monitor.TaskStart | New_socket_proj/load_monitor.c:46-49 | both counters go up by one, wrapping at 32 bits |
| LoadMonitor.Monitor.TaskDone | New_socket_proj/load_monitor.c:50-50 | the active counter goes down by one, wrapping, and the total stays |
| LoadMonitor.LoadPercentage | New_socket_proj/load_monitor.c:70-78 | always between 0 and 100; the load per core in percent until that exceeds 100; 0 if the load cannot be read |
| LoadMonitor.ScorePerTask | New_socket_proj/load_monitor.c:80-84 | an idle node scores its percentage, and each further task adds ten points |
| LoadReport.ReportRoundTrip | New_socket_proj/main.c:58-82 | a request is answered, the answer fits the receive buffer, and every 32-bit pattern in it is read back unchanged |
| LoadReport.ReportBytes | New_socket_proj/main.c:58-68 | the bytes of a report: percentage, active tasks, total tasks, cores |
| LoadReport.AcceptedReplies | New_socket_proj/dispatcher.c:57-65 | exactly the replies a querier accepts: type 4 and at least 24 bytes, and which report it reads in them |
| LoadReport.TruncatedReply | New_socket_proj/dispatcher.c:53-65 | a reply longer than the receive buffer is read as if it were whole |
| Responder.AnswerRequest | New_socket_proj/main.c:47-83 | exactly the datagrams with a whole header of type 3 are answered, hence no HELLO and no BYE on the shared port, with the bytes of the report of the node's present counters |
| Admission.CountersExact | New_socket_proj/load_monitor.c:46-50 | below 2^32 admissions: active is the number of tasks under way, total is that plus the finished ones but for handlers between the two additions, and active never underflows |
| Admission.AdmissionBound | New_socket_proj/worker.c:218-233 | if at most p admitted handlers are ever on their way to start, active and waiting handlers are at most 7 + p |
| Admission.BoundAttained | New_socket_proj/worker.c:218-233 | for every p there is a run with 7 + p tasks active at once |
| Admission.LimitHoldsExactly | New_socket_proj/worker.c:218-233 | the limit of eight holds in all such runs exactly when p is at most 1 |
| PeerList.PeerTable.FindSlot | New_socket_proj/peer_list.c:23-29 | the first slot that lists the address, or -1 |
| PeerList.PeerTable.FindFreeSlot | New_socket_proj/peer_list.c:31-36 | the first unused slot, or -1 |
| PeerList.PeerTable.Add | New_socket_proj/peer_list.c:39-58 | the table after an add, which by StepRefines updates a known peer's port and time only and drops only a new one when full |
| PeerList.PeerTable.Remove | New_socket_proj/peer_list.c:61-69 | the table after a removal, which by StepRefines forgets just that address |
| PeerList.PeerTable.UpdateLoad | New_socket_proj/peer_list.c:72-91 | the table after a load report in network order, which by StepRefines changes a listed peer's load and time only |
| PeerList.PeerTable.Touch | New_socket_proj/peer_list.c:94-99 | the table after a touch, which by StepRefines changes a listed peer's time only |
| PeerList.PeerTable.GetAll | New_socket_proj/peer_list.c:102-110 | the first max listed entries in slot order |
| PeerList.PeerTable.ReapStale | New_socket_proj/peer_list.c:113-124 | a peer seen at most 30 s before the clock reading stays as it was, and every other is forgotten |
| PeerList.EachOperation | New_socket_proj/peer_list.c:39-124 | what each operation does to what is known of each address, in full: a new peer has no load and one core, a known one keeps its load on an add, and 30 s is what a scan tolerates |
| PeerList.Capacity | New_socket_proj/peer_list.c:39-58 | after any operations at most 64 peers are listed, and a new one is dropped exactly when 64 are |
| PeerList.ListedInOrder | New_socket_proj/peer_list.c:102-110 | listing takes the valid slots, in order |
| PeerList.StepRefines | New_socket_proj/peer_list.c:39-124 | each operation on the slots is the operation on a map of at most 64 entries that knows nothing of slots |
| PeerList.RunRefines | New_socket_proj/peer_list.c:16-124 | after any sequence of operations no address has two slots and the table stands for the map the same operations make |
| PeerList.SnapshotExact | New_socket_proj/peer_list.c:102-110 | a snapshot holds each known address once, with its entry, and nothing else |
| Discovery.PacketBytes | New_socket_proj/discovery.c:21-53 | the bytes of a broadcast: header with length 66, port with the most significant byte first, host name padded with zeros to 64 bytes |
| Discovery.ReadBytes | New_socket_proj/discovery.c:80-112 | in terms of the bytes, exactly which packets are taken as a HELLO, with which port, and which as a BYE |
| Discovery.PacketRoundTrip | New_socket_proj/discovery.c:30-53 | every broadcast fits the listener's buffer and is read for what it is, with the sender's port |
| Discovery.AcceptedPackets | New_socket_proj/discovery.c:80-112 | the listener acts on exactly the complete HELLO messages with room for port and host name and the complete BYE messages |
| Discovery.PacketHeard | New_socket_proj/discovery.c:66-115 | what any packet does to what is known of any address: own packets do nothing; a HELLO makes the sender known at its port as of now, keeping its load if it was known, or drops it if the table is full; a BYE forgets it; no other address is affected |
| Discovery.Discovery.Start | New_socket_proj/discovery.c:128-146 | the announcer's first packet is read by whoever receives it as a HELLO with the node's own port; the node's own address is set, by which it ignores itself |
| Discovery.Discovery.SendBroadcast | New_socket_proj/discovery.c:30-53 | one packet with the node's own port, or none without a socket |
| Discovery.Discovery.HandleDatagram | New_socket_proj/discovery.c:66-115 | a HELLO adds and then touches the sender, a BYE removes it, and packets from the node's own address do nothing; PacketHeard says what that means for every address |
| Registry.Reachable | New_socket_proj/discovery.c:66-125 | in every interleaving: unique addresses, no local address, and no entry more than 30 s older than the last scan's clock reading |
| Registry.SelfExcluded | New_socket_proj/discovery.c:95-107 | no snapshot ever lists the node itself |
| Registry.HelloKnown | New_socket_proj/discovery.c:98-104 | at any moment of a run a HELLO makes its sender known at the port it names, unless 64 others are listed |
| Registry.SilentPeerGone | New_socket_proj/peer_list.c:113-124 | a peer silent since t is gone, for good, from the first scan whose reading exceeds t + 30; that reading is at most t + 30 plus the largest gap between readings |
| Registry.SilentPeerGoneInTime | New_socket_proj/discovery.c:118-125 | with readings at most 15 s apart a peer last seen at t, of which there is no HELLO and no load reply any more, is gone for good by a reading of at most t + 45 |
| Registry.NeverReaped | New_socket_proj/peer_list.c:113-124 | a peer that says no BYE and of which at every moment a HELLO or a load reply is at most 30 s old is never reaped, although the clock is read before the lock is taken |
| Primes.PrimeFactors | New_socket_proj/web_upload_proj.c:6-17 | a prime is no product but of itself and one |
| Primes.CompositeFactors | New_socket_proj/web_upload_proj.c:6-17 | any other number from two on is a product of two numbers from two on |
| Primes.AnotherPrime | New_socket_proj/web_upload_proj.c:25-34 | above every number there is a prime, which is why the enumeration ends |
| WebUploadProj.IsPrime | New_socket_proj/web_upload_proj.c:6-17 | true exactly for the primes, for every int; together with the values of i the loop tests |
| WebUploadProj.SixMore | New_socket_proj/web_upload_proj.c:12-15 | testing i and i + 2 rules out all six candidates from i on |
| WebUploadProj.SquareRootSuffices | New_socket_proj/web_upload_proj.c:12-16 | a number without a divisor up to its square root is prime |
| WebUploadProj.OverflowAtAnyWidth | New_socket_proj/web_upload_proj.c:12-15 | for integers of any width, with r the last tested i whose square fits, every product fits exactly when the argument has a divisor from 2 to r + 2 or is below r * r |
| WebUploadProj.OverflowExactly | New_socket_proj/web_upload_proj.c:12-15 | for an int argument no tested i * i overflows exactly when the argument has a divisor from 2 to 46339 or is below 46337^2 |
| WebUploadProj.OverflowsForPrimes | New_socket_proj/web_upload_proj.c:6-17 | the ints that overflow are exactly the primes from 46337^2 on |
| WebUploadProj.OverflowHappens | New_socket_proj/web_upload_proj.c:12-12 | 2147352577 is such an int, proved prime by a square root of -1 of high order |
| WebUploadProj.PrintPrimes | New_socket_proj/web_upload_proj.c:20-34 | for every count the loop ends and prints exactly that many smallest primes in increasing order |
| WebUploadProj.FirstPrimesUnique | New_socket_proj/web_upload_proj.c:25-34 | there is only one such list, so the output is determined |

## Left out

- Socket creation, binding, connecting and interface lookup: a connection attempt succeeds or fails arbitrarily.
- fork, exec, gcc, pipe creation for the run and memory allocation are assumed to succeed; a failing pipe before
  compilation, which makes the worker skip it, is modelled.
- The contents of the temporary files: concurrent tasks of one process share their paths, so what a job comes to on a
  node is an arbitrary function of the task.
- send_msg with a null payload and a non-zero length, which no caller uses.
- Floating-point rounding and NaN in scores.
- WebUploadProj.PrintPrimes: counts with unbounded integers; the wrap-around of `num` for huge counts is not modelled.
- Dispatcher.Dispatch: the counters of the node that handles the task change through that task alone; other handlers
  changing them meanwhile are the subject of `Admission.dfy`.
- Worker.AcceptLoop: takes the counter readings as given; how they come about is the subject of `Admission.dfy`.
- The REPL loop, peer listing, logging, signals and process start-up.
- The announcer's period and lost or reordered datagrams: HELLO, BYE and replies arrive in any order or not at all.
- The web bridge under `web/`, the scratch scripts and `program.c`.
