# A verified model of simple-socket

The library wraps the socket calls of a POSIX system: `SocketHandle` passes accepted descriptors around with
copies that move, `SimpleSocket` and its subclasses own a descriptor and send and receive through it, and
`SocketUtils` formats addresses and asks the kernel about network interfaces. This project models those parts
and proves what they keep over whole runs, for every behaviour of the kernel.

**The kernel.** `Posix.dfy` is the operating system. Everything it decides (success or errno, how many bytes,
which descriptor number, what poll reports, whether an interrupted close frees the descriptor) is read from a
stream of answers, and every theorem is for all streams. The descriptor table gives each open number an
incarnation number that is never used again, so the reuse of descriptor numbers is visible. `Platform` asks one
thing of the stream: it does not stall for ever (answers that are interruptions, zero-length writes or counts
above INT_MAX come in finite runs); `FairExactly` shows that the `patience` function says no more than that, and
`ZeroWritesNeverEnd` that something like it is needed. `TEMP_FAILURE_RETRY` is modelled in both its forms, the
loop of glibc and the single evaluation of `TempFailure.h`.

**How the parts fit.** Each C++ function that changes state is a Dafny method on objects (`SocketHandle`,
`SimpleSocket`, `Kernel`, arrays for the caller's buffers). Its contract gives the new state as a function of the
old one, and the lemmas are about that function. A throw is the outcome `Thrown`. Functions of the subclasses,
which add no fields, take the `SimpleSocket` as their first parameter.

- Ownership: `SocketHandle.dfy`, `Accepting.dfy`, `Ownership.dfy` (the protocol as a machine), `Clients.dfy` (a
  client program with real, possibly aliasing objects does what the machine does).
- Streams: `SimpleSocket.dfy`, `TcpSocket.dfy`, `Streams.dfy` (both ends of a connection, interleaved).
- Timed receives: `TimedReceives.dfy`, against the blocking ones.
- The peer flag: `Peers.dfy`, over `InternetSocket.dfy`, `SctpSocket.dfy`, `Datagrams.dfy` and the above.
- Text and buffers: `Text.dfy`, `Printers.dfy`, `UnixSocket.dfy`, `SocketUtils.dfy`, `TempSockets.dfy`.

**What the code does that its documentation does not say.**

- `timedReceive` is documented to return the bytes received, 0 on timeout. Woken by a hang-up or an error alone it
  returns 1 with nothing read (`SimpleSocket.cpp:90`); the SCTP, UDP and Unix versions return 0.
- `peerDisconnected` is documented for use after a receive returned 0, but such a receive does not set it. A
  successful `disconnect` does not clear it; only one refused with ECONNRESET does.
- `sendAll` returns an int. The number it returns is the length, if everything was sent, exactly up to INT_MAX
  bytes; for 2^32 - 1 bytes full success returns -1. The bytes are sent without repeat exactly below 2^32. In the
  same way a receive of more than INT_MAX bytes throws, or reports too little. A `send` whose count comes out
  negative is taken for a failure and judged by the errno of some earlier call.
- `InternetSocket::fillAddress` is documented to leave the structure unchanged when the name cannot be resolved,
  but it has already set family and port. `UnixSocket::fillAddress` keeps that promise.
- A Unix datagram whose source length does not reach past the family, as from a socket without a path, makes
  `receiveFrom` throw std::length_error after the datagram is taken and the buffer written.
- The dotted quad of `resolveHostname` is the standard one only for octets below 128 where `char` is signed.
- In the hardware address only the first byte is padded to two digits. The text still determines the six bytes for
  every separator except 1-9 and A-F; '0' is safe although it is a hexadecimal digit.
- With the fallback form of `TEMP_FAILURE_RETRY` an interrupted close that keeps its descriptor leaks it.

## Model

| member | source | states |
|---|---|---|
| Posix.Settled | TempFailure.h:7-9 | a retried call other than close is one attempt in a state that differs only in errno and answers used; every answer before it is an interruption, with the looping macro that attempt is not interrupted, and with the other form it is the first |
| Posix.CloseSettles | SocketHandle.h:121-128 | a retried close ends with the descriptor not open and no other entry changed, whether an interrupted close keeps or frees it; the single-evaluation form leaves it open exactly when the close was interrupted and kept it; one closing is recorded, not two |
| Posix.Kernel.Retry | TempFailure.h:7-9 | the loop of the macro computes TempFailureRetry and ends |
| SocketHandles.SocketHandle.Copy | SocketHandle.h:60-62 | the copy has the descriptor, the original is invalid |
| SocketHandles.SocketHandle.ToRef | SocketHandle.h:68-69 | the reference has the descriptor, the handle is invalid |
| SocketHandles.SocketHandle.FromRef | SocketHandle.h:65-66 | the new handle has the descriptor of the reference |
| SocketHandles.SocketHandle.Release | SocketHandle.h:109-114 | returns the descriptor and makes the handle invalid |
| SocketHandles.SocketHandle.Reset | SocketHandle.h:121-128 | takes the new descriptor; closes the old one exactly when it differs |
| SocketHandles.SocketHandle.Assign | SocketHandle.h:73-78 | for two handles and for one and the same handle: who holds what afterwards, and which number is closed |
| SocketHandles.SocketHandle.AssignRef | SocketHandle.h:81-86 | as Assign, from a reference |
| SocketHandles.SocketHandle.Destroy | SocketHandle.h:89 | closes what the handle holds, if anything |
| Accepting.ReturnHandle | TCPSocket.cpp:43 | returning a handle through its reference passes the descriptor and closes nothing |
| Accepting.Accept | TCPSocket.cpp:38-44 | a handle with the new descriptor, or a throw and no descriptor |
| Accepting.TimedAccept | TCPSocket.cpp:46-61 | an invalid handle on timeout, otherwise as accept |
| Accepting.FromHandle | TCPSocket.cpp:14-16 | a socket is made exactly from a valid handle and gets its descriptor; the handle loses it; otherwise it throws; the kernel is not called either way |
| SimpleSockets.SimpleSocket.Create | SimpleSocket.cpp:23-28 | a socket with the new descriptor and a clear flag, or a throw |
| SimpleSockets.SimpleSocket.FromDescriptor | SimpleSocket.cpp:30-36 | a socket exactly for a non-negative number |
| SimpleSockets.SimpleSocket.Destroy | SimpleSocket.cpp:38-42 | the descriptor is closed with retries |
| Ownership.AssignMoves | SocketHandle.h:73-78 | under all aliasing `a` ends with what `b` held and `b`, unless it is `a`, with nothing; the old descriptor of `a` is closed unless there is none or the handles are one; the guard never suppresses a needed close |
| Ownership.ResetKeeps | SocketHandle.h:121-128 | the guarded reset, from a handle or a reference, keeps the ownership invariant, closes only the old descriptor, and changes no table entry when the handle was invalid |
| Ownership.CopyMeansMove | SocketHandle.h:15-34 | whatever passes a descriptor on leaves it open, the same incarnation, with exactly one owner, the receiver; the giver is invalid; a socket from an invalid handle changes nothing |
| Ownership.StepKeeps | SocketHandle.h:58-142 | every operation of handles, references and sockets keeps the invariant, changes only the objects it names, and closes no descriptor that another object, or someone outside the library, holds |
| Ownership.StepCloses | SocketHandle.h:117-128 | what an operation gives up is closed |
| Ownership.SctpSocketKeeps | SCTPSocket.cpp:10-17 | when the second stage of the constructor throws, the descriptor it opened is closed and the table is as before |
| Ownership.TempSocketKeeps | SocketUtils.cpp:35-39 | an interface function leaves table and owners as they were, whatever fails in it |
| Ownership.RunKeeps | SocketHandle.h:58-142 | the invariant holds after every run, also when the rest of the program opens and closes files in between; a descriptor of others keeps its incarnation unless they close it themselves |
| Ownership.OneOwnerEach | SocketHandle.h:15-25 | in every reachable state each open descriptor that does not belong to the rest of the program has exactly one owner |
| Ownership.AllClosedOnce | SimpleSocket.cpp:38-42 | when all objects are gone each incarnation opened in the run, by the library or around it, has been closed exactly once, with any reuse of numbers, but for what the rest of the program still has open; with the single-evaluation macro exactly the lost descriptors are left over too |
| Ownership.TableComesBack | SimpleSocket.cpp:38-42 | when only the library runs, the table is then what it was at the start |
| Clients.Program.Perform | SocketHandle.h:47-131 | an operation on the real objects of a client program does what the machine says |
| Clients.Program.Run | SocketHandle.h:47-131 | so does every run, with files of the rest of the program opened and closed in between, and the ownership invariant holds for the objects after it |
| SimpleSockets.SimpleSocket.Send | SimpleSocket.cpp:44-60 | equals SendSpec, about which SendAnswers, SendSpecEffect and FlagExactly speak |
| SimpleSockets.SendAnswers | SimpleSocket.cpp:44-60 | the answer to the last attempt decides the result: a failure is -1 with the flag set exactly for ECONNRESET and ECONNREFUSED and otherwise a throw of that errno with the flag as it was; a success is the count up to INT_MAX with the flag as it was; counts above that come back modulo 2^32, or are taken for a failure with a stale errno |
| SimpleSockets.SimpleSocket.Receive | SimpleSocket.cpp:62-67 | equals ReceiveSpec, about which ReceiveAnswers speaks, and the buffer beyond the bytes read is unchanged |
| SimpleSockets.ReceiveAnswers | SimpleSocket.cpp:62-67 | a failed recv throws its errno with no data, channels and flag as they were; a granted one takes the front of the channel and returns its length up to INT_MAX; 0 is returned exactly for a granted read of nothing |
| SimpleSockets.SimpleSocket.TimedReceive | SimpleSocket.cpp:69-91 | equals TimedReceiveSpec, about which TimedReceiveAnswers speaks, and the buffer beyond the bytes read is unchanged |
| SimpleSockets.TimedReceiveAnswers | SimpleSocket.cpp:69-91 | a failed poll throws its errno, a timeout returns 0, a poll without input 1, each with nothing read; with input the call ends as a receive from the state after the poll; a hang-up sets the flag |
| SimpleSockets.SimpleSocket.Disconnect | SimpleSocket.cpp:93-106 | equals DisconnectSpec, about which DisconnectAnswers, FlagExactly and FlagSurprises speak |
| SimpleSockets.DisconnectAnswers | SimpleSocket.cpp:93-106 | granted or refused with ECONNRESET it returns, and only the latter clears the flag; any other errno is thrown with the flag as it was |
| TcpSockets.SendSpecEffect | SimpleSocket.cpp:44-60 | one send appends a prefix of the buffer to its own channel and touches no other; the result is the narrowed count; a negative result comes with the flag set |
| TcpSockets.SendAll | TCPSocket.cpp:18-29 | the loop computes SendAllSpec, never counts past the length, and ends under the measure (bytes left, stalling answers left) |
| TcpSockets.SendAllEffect | TCPSocket.cpp:18-29 | below 2^32 bytes, for every kernel and however it returns or throws, the channel gets exactly a prefix of the buffer, in order without gap or repeat; all of it when the result is not negative; when some is left it threw, or returned a negative number and set the flag |
| TcpSockets.WideWriteRepeats | SimpleSocket.cpp:46 | at every length from 2^32 on, a kernel that takes 2^32 bytes in the first write leaves those and then the whole buffer on the channel |
| TcpSockets.PrefixExactly | TCPSocket.cpp:18-29 | the channel gets a prefix of the buffer for every kernel and state, exactly for lengths below 2^32 |
| TcpSockets.SendAllCountable | TCPSocket.cpp:18-29 | with writes of at most INT_MAX bytes, at any length: a prefix; all of it returns the narrowed length with the flag unchanged; when part is left the last answer is a failure, and the result is -1 with the flag set exactly when it is ECONNRESET or ECONNREFUSED, otherwise a throw of that errno with the flag unchanged |
| TcpSockets.SendAllReturnsLength | TCPSocket.cpp:18-29 | up to INT_MAX bytes the result is the length exactly when the whole buffer was sent |
| TcpSockets.SendAllBeyondInt | TCPSocket.cpp:28 | above INT_MAX no kernel makes it return the length; a kernel that takes everything gets the whole buffer all the same, and for 2^32 - 1 bytes the result is then -1 with the flag unchanged |
| TcpSockets.ReportExactly | TCPSocket.cpp:18-29 | for every kernel and state the length is returned when and only when the whole buffer was sent, exactly for lengths up to INT_MAX |
| TcpSockets.ZeroWritesNeverEnd | TCPSocket.cpp:21-27 | against a kernel that writes nothing for ever no number of rounds makes progress |
| Streams.EndToEnd | SimpleSocket.cpp:44-91 | in every interleaving of both ends, received bytes followed by bytes under way are the bytes the sender was told it sent, exactly when no single write moved more than INT_MAX bytes |
| Streams.TallyExactly | SimpleSocket.cpp:62-91 | in every interleaving, with buffers of any size, the receiver's results sum to the bytes received plus one for each timed receive woken without POLLIN or POLLPRI, exactly when no single read moved more than INT_MAX bytes; they never sum to more |
| Streams.WideReadThrows | SimpleSocket.cpp:62-67 | a read of INT_MAX + 1 bytes throws after the bytes have left the channel |
| Streams.SmallRuns | SimpleSocket.cpp:44-91 | sends up to INT_MAX bytes are conserved, and receives up to INT_MAX bytes are tallied rightly, each without a bound on the other; then the sum is the byte count exactly when no timed receive was woken without input |
| Streams.SendAllIsItsSteps | TCPSocket.cpp:18-29 | the interleaved steps of sendAll, run without interruption, are the call: same kernel state, same flag, same result |
| Peers.FlagExactly | SimpleSocket.cpp:44-117 | after any trace of calls on a new socket of any class the flag is set exactly when some setting answer of the kernel is later than every clearing one |
| Peers.FlagSurprises | SimpleSocket.cpp:62-106 | after any trace a receive, also one that returns 0, does not change the flag, and a granted disconnect does not clear it |
| Peers.Call | SimpleSocket.h:48-211 | each member function on a socket object is the action of the trace model |
| Peers.CallAll | SimpleSocket.h:168-180 | FlagExactly for a socket object after any sequence of calls |
| InternetSockets.FillAddress | InternetSocket.cpp:94-110 | equals FillSpec, about which FillMeans and FillFailsExactly speak |
| InternetSockets.FillMeans | InternetSocket.cpp:94-110 | an address that inet_aton can read, up to its NUL, is filled in as written without asking the kernel; any other name takes one answer, and is filled in with what that found or throws with the address as it was |
| InternetSockets.SwapOrder | InternetSocket.cpp:97 | the high and the low byte of a port change places |
| InternetSockets.FillFailsExactly | InternetSocket.cpp:94-110 | it throws exactly when the name cannot be resolved; family and port are set either way, so a failure leaves the structure unchanged exactly when they had these values already |
| InternetSockets.Connect | InternetSocket.cpp:19-28 | equals ConnectSpec, about which ConnectAnswers and FlagExactly speak |
| InternetSockets.ConnectAnswers | InternetSocket.cpp:19-28 | an unknown name throws and makes no call; otherwise one call with the address the name stands for, and its answer decides: granted, it returns and clears the flag; refused, it throws that errno with the flag as it was |
| SctpSockets.Create | SCTPSocket.cpp:10-17 | a socket, or a throw with the descriptor closed |
| SctpSockets.FillAll | SCTPSocket.cpp:25-29 | the loop resolves the names in order and stops at the first that fails |
| SctpSockets.Bind | SCTPSocket.cpp:23-35 | equals BindOrConnectSpec, flag untouched |
| SctpSockets.Connect | SCTPSocket.cpp:37-52 | equals BindOrConnectSpec, flag cleared on success |
| SctpSockets.AllOrNothing | SCTPSocket.cpp:23-52 | either one kernel call gets what every name stands for, as written or as its own lookup answered, in order and with the same port, and its answer decides between return and throw; or some name stands for no address, it throws, no call is made and the flag is unchanged |
| SctpSockets.OneAddressIsConnect | InternetSocket.cpp:19-28 | connecting to one address is connecting to a list of one, so AllOrNothing holds for it too |
| SctpSockets.Receive | SCTPSocket.cpp:136-155 | equals ReceiveOnce, about which ReceiveOnceAnswers speaks; the buffer beyond the bytes read is unchanged |
| SctpSockets.ReceiveOnceAnswers | SCTPSocket.cpp:136-155 | granted, the front of the channel is taken, its length returned up to INT_MAX, and stream and flags are those of the message; failed, also when interrupted, that errno is thrown and data, channels, flag, stream and flags are as they were |
| SctpSockets.TimedReceive | SCTPSocket.cpp:157-195 | equals TimedReceiveSpec, about which FlagExactly and SctpTimedRefines speak |
| Datagrams.UdpReceiveFrom | UDPSocket.cpp:57-70 | equals UdpReceiveSpec, about which UdpDelivers speaks, and the buffer beyond the bytes read is unchanged |
| Datagrams.UdpTimedReceiveFrom | UDPSocket.cpp:72-90 | equals UdpTimedSpec, and the buffer beyond the bytes read is unchanged |
| Datagrams.UnixReceiveFrom | UnixDatagramSocket.cpp:26-37 | equals UnixReceiveSpec, about which UnixDelivers, UnixPathArrives and UnboundSenderThrows speak, and the buffer beyond the bytes read is unchanged |
| Datagrams.UnixTimedReceiveFrom | UnixDatagramSocket.cpp:39-57 | equals UnixTimedSpec, and the buffer beyond the bytes read is unchanged |
| Datagrams.UdpDelivers | UDPSocket.cpp:57-70 | it returns exactly when the kernel delivers a datagram whose size an int can hold; the oldest datagram is taken whole, what fits of it is in the buffer and counted, and address and port read back as its origin; when the kernel refuses, its errno is thrown and nothing is taken |
| Datagrams.UnixDelivers | UnixDatagramSocket.cpp:26-37 | for every source: it returns exactly when a datagram whose size an int can hold is delivered and the source yields a path, and then the size of what is in the buffer and that path; when the kernel refuses, its errno is thrown and nothing is taken |
| Datagrams.UnixPathArrives | UnixDatagramSocket.cpp:26-37 | the path a sender bound itself to arrives with its datagram and the size of that, up to its first NUL, whenever the call returns |
| Datagrams.UnboundSenderThrows | UnixDatagramSocket.cpp:35 | it throws std::length_error exactly when a datagram is delivered whose source length is below family size plus 1; the datagram is taken, the buffer written and the path unchanged |
| TimedReceives.UdpTimedRefines | UDPSocket.cpp:72-90 | with input the timed call is the blocking one of the same kernel without the poll answers; otherwise it changes nothing but the flag, on hang-up |
| TimedReceives.UnixTimedRefines | UnixDatagramSocket.cpp:39-57 | the same for Unix datagrams |
| TimedReceives.StreamTimedRefines | SimpleSocket.cpp:69-91 | the same for streams, where a poll without input makes the result poll's own count |
| TimedReceives.SctpTimedRefines | SCTPSocket.cpp:157-195 | the same for SCTP, with stream and flags of the message |
| UnixSockets.FillAddress | UnixSocket.cpp:55-63 | a path that is too long throws and changes nothing; otherwise family and text are set |
| UnixSockets.PathRoundTrip | UnixSocket.cpp:55-68 | extracting what was filled, with the kernel's length, gives the path up to its first NUL, so the path exactly when it has none |
| UnixSockets.ExtractExactly | UnixSocket.cpp:65-68 | the size is in range exactly for lengths of at least family plus one, and the text inside the buffer exactly up to family plus one plus 108; then it is the front of the buffer |
| Printers.HardwareAddressText | SocketUtils.cpp:281-293 | the stream with its formatting state prints MacText of the first six bytes |
| Printers.MacReadsBack | SocketUtils.cpp:281-293 | with a separator that is no upper-case hexadecimal digit, splitting and reading recovers the bytes |
| Printers.MacWidth | SocketUtils.cpp:281-293 | the width is the usual one exactly when every byte after the first is at least 16 |
| Printers.SeparatorExactly | SocketUtils.cpp:260-293 | the text of three or more bytes determines them exactly for separators other than 1-9 and A-F |
| Printers.ResolvedText | SocketUtils.cpp:64-70 | the loop prints QuadText of the address |
| Printers.QuadReadsBack | SocketUtils.cpp:64-70 | reading the decimal numbers gives the printed integers |
| Printers.QuadShortest | SocketUtils.cpp:64-70 | the text has four parts, none with a leading zero |
| Printers.QuadInjective | SocketUtils.cpp:64-70 | different addresses are printed differently, whether char is signed or not |
| Printers.QuadStandardExactly | SocketUtils.cpp:64-70 | the text is the standard form exactly when char is unsigned or every octet is below 128 |
| SocketUtils.WalkRecords | SocketUtils.cpp:118-137 | the loop computes Names and ends with measure bytes left |
| SocketUtils.WalkFinds | SocketUtils.cpp:118-137 | for any list of records the result is the names of the AF_INET ones, in order |
| SocketUtils.ReadsExactly | SocketUtils.cpp:119-135 | the result depends only on the reported bytes exactly when the last record's name and family are reported, so for every whole number of records |
| SocketUtils.AssignIfreq | SocketUtils.cpp:42-52 | a name of 16 bytes or more throws and changes nothing; otherwise name, NUL and family are set |
| SocketUtils.AssignedIsFound | SocketUtils.cpp:42-52 | the walk finds the name that was assigned up to its first NUL, all of it exactly when it has none |
| SocketUtils.GetNetworkInterfaces | SocketUtils.cpp:103-138 | names, or a throw with the errno of the step that failed; on every way out the socket is closed and the descriptor table is as at entry |
| SocketUtils.GetHardwareAddress | SocketUtils.cpp:260-294 | text exactly when name, socket, ioctl and hardware type (0, 1, 2, 6 or 512) are accepted, otherwise a throw; the name is in the structure, and on every way out the socket is closed and the table is as at entry |
| TempSockets.TableRestored | SocketUtils.cpp:35-39 | open, ioctl and retried close restore the table and record one closing |

## Left out

- Name resolution, ioctls and the system calls themselves are answers of the kernel; nothing is said about their correctness.
- Connecting and accepting do not decide which channel a descriptor belongs to; that is given with each incarnation. In `Streams.dfy` both ends stay open.
- Kernel.Retry: assumes a kernel that does not stall for ever, as explained above.
- Each SocketHandle_Ref is used up exactly once, as the library itself does; it could be copied.
- Close errors other than EINTR are taken to free the descriptor, as on Linux.
- Threads, signal handlers and clients that close the result of `nativeHandle` are not modelled.
- A name in a kernel record without a NUL is read up to the end of the buffer at most; std::string would go on.
- SimpleSockets.SimpleSocket.TimedReceive: does not tell MSG_WAITALL apart from a plain recv; the kernel may give any count either way, as it may after a signal or a hang-up.
- SctpSockets.Receive: one model stands for the overloads with and without the flag parameter.
- InternetSockets.FillAddress: gives the structure back as a result instead of changing it in place, so aliasing of structures is not covered.
- SctpSockets.FillAll: the vector of addresses is a value for the same reason.
- `sendTo`, `SCTPSocket::send`, `listen`, `shutdown`, option setters and SCTP status getters are one kernel call with an error check.
- CAN sockets repeat the shape of the UDP ones.
- Exception texts are not modelled; a throw carries errno, or that it has none.
- The abstract namespace of Unix sockets, and the unlink before a Unix bind.
