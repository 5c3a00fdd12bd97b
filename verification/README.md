# Verified models of the C systems exercises

A Dafny model of the parts of this repository that hold an algorithm, a heap structure or a protocol, with proofs of what
they promise. `dafny verify dfyconfig.toml` verifies everything.

| module | models |
|---|---|
| Words, Decimal | bytes, machine words in both byte orders, C strings, decimal text |
| Spiral | the spiral matrix `ulitka` |
| Checksum, Packet | the Internet checksum (RFC 1071), the IPv4/UDP builder and parser (section 3.1 of RFC 791, RFC 768) |
| ClientTable, Hashing, Echo | the hash table of per-client counters on the heap, its hash, the echo server's loop and the client's side |
| BroadcastChat | the message-queue chat server with its bounded history |
| SharedChat, SharedChatProgress | the shared-memory chat: any number of processes, interleaved byte by byte; safety, and progress |
| TaxiDriver, TaxiDispatcher | the timed driver protocol, the dispatcher's table of descriptors |
| PhoneBooks | the linked-list and the array phone book, and their equivalence |
| Negation | the borrow chain that turns two's complement into direct code |

Code that changes state is modelled by methods over arrays and objects, each proved against a specification function or an
outright statement; runs of a loop or a protocol are folds of such a function over the events that drive them, and the
results about runs are lemmas about every such fold. What the environment decides (allocation, scheduling, received bytes,
results of system calls, the clock) is a parameter. Host byte order is a parameter wherever memory is read as words.

What does not hold, and exactly when it does:

- The builder stores both checksums without `htons`. On a big-endian host they always verify; on a little-endian one
  exactly when the two bytes of the checksum are equal (`IpChecksumVerifies`, `UdpChecksumVerifies`; one packet fails both,
  `LittleEndianFails` and `LittleEndianUdpFails`).
- `rawudp_checksum16` computes the RFC's checksum for all data of a length exactly if the length is at most 131074, where
  its 32-bit accumulator is wide enough (`AccumulatorBound`).
- A line of 1399 bytes, which the echo client's buffer can hold, is never answered, so its client waits for ever; up to
  1389 bytes are always answered (`ReplyLimits`).
- A chat client that joins after the first 100 messages misses those from the 101st to its joining (`WholeLogIff`,
  `LateJoinerMisses`).
- The list book takes a negative number as the head, and the array book refuses the 101st entry; on every other command
  that finds memory the two agree (`StepsAgreeIff`, `SameBook`).
- After `create_driver` the dispatcher's walk reads one slot past the end of `pfds` (`WalkInsideIff`), and after a command
  that gives a driver up every later driver reads the slot of one before it (`OwnSlotIff`).
- `INT_MIN` is the one negative number whose direct code comes out wrong, as the word of -1 (`DirectCode`).
- A busy driver whose timer runs out between `poll` and its answer says "Busy 0" (`BusyIsRemaining`).

## Model

| member | source | states |
|---|---|---|
| Spiral.Ulitka | massives/massives.c:85-143 | for every size > 0 the four-border loop ends with num = N²+1, never leaves the matrix, and every cell holds its closed form by ring; the writes, in order, go to the cells of 1, 2, ..., N² |
| Spiral.EachCellOnce | massives/massives.c:122-143 | a trail of N² such writes visits every cell at exactly one moment |
| Spiral.CellInRange | massives/massives.c:117-143 | the closed form stays within 1..N² |
| Spiral.LocateOfCell | massives/massives.c:122-143 | from a cell's number its place is recovered: no two cells share a number |
| Spiral.CellOfLocate | massives/massives.c:122-143 | every number 1..N² is in some cell, the one Locate gives |
| Spiral.Bijection | massives/massives.c:122-143 | cell and number determine each other |
| Spiral.PathConnected | massives/massives.c:122-143 | successive numbers lie in side-adjacent cells, across ring changes too |
| Spiral.SpiralWalks | massives/massives.c:117-143 | the numbers walk from the top left corner to the right, straight on while the cell ahead is inside and not yet written, else turning right: this alone fixes the matrix |
| Spiral.OuterMonotone | massives/massives.c:122-143 | all numbers of an outer ring are below all numbers of an inner one |
| Spiral.Put | massives/massives.c:124-125 | writing num where the spiral has it extends the filled part by one and spoils nothing |
| Checksum.CanonicalIs | echo_raw/src/checksum.c:18 | the folded value is the one in 0..65535 congruent to the sum modulo 65535 and zero only for a zero sum |
| Checksum.CanonicalAbsorb | echo_raw/src/checksum.c:40-55 | folding a part first leaves the value of the whole (section 2(A) of RFC 1071) |
| Checksum.WordSumZero | echo_raw/src/checksum.c:9-16 | the sum is zero only if every byte is |
| Checksum.WordSumWeighs | echo_raw/src/checksum.c:9-16 | the sum weighs every byte by its place, 256 at even ones, a last odd byte included |
| Checksum.AddWords | echo_raw/src/checksum.c:9-16 | the wrapping accumulator holds the big-endian word sum, odd byte padded, modulo 2^32 |
| Checksum.Fold | echo_raw/src/checksum.c:18 | folding gives the canonical value in at most two passes |
| Checksum.Checksum16 | echo_raw/src/checksum.c:5-20 | for up to 131074 bytes the result is the complement of the canonical sum (section 1 of RFC 1071) |
| Checksum.AccumulatorBound | echo_raw/src/checksum.c:7-16 | all data of a length get the right checksum if and only if the length is at most 131074 |
| Checksum.PrefixApart | echo_raw/src/checksum.c:38-55 | un-complementing the pseudo-header's own checksum and summing on equals summing both together |
| Packet.PseudoHeaderInPacket | echo_raw/src/checksum.c:24-36 | for a built packet the pseudo-header is its own bytes 12..20, a zero, 17 and its bytes 24..26: both addresses, protocol and UDP length |
| Checksum.UdpChecksum | echo_raw/src/checksum.c:22-60 | never 0, and for up to 65535 bytes the checksum of pseudo-header and datagram together with 0 sent as 0xFFFF (RFC 768) |
| Checksum.OnesIffChecksum | echo_raw/src/packet.c:65-66 | with a value added the sum is all ones exactly if the value is the checksum |
| Checksum.OnesIffSameBytes | echo_raw/src/packet.c:65-66 | with the checksum's bytes swapped, exactly if they are equal |
| Words.NetworkOrder | echo_raw/src/packet.c:58-59 | on both hosts htons stores the high byte first and ntohs reads it back |
| Words.Load32Weighs | echo_raw/src/packet.c:99-100 | a 32-bit word read by a host weighs its bytes in the host's order |
| Words.Wrap32IsModulo | echo_raw/src/client_table.c:64 | the wrap-around of a uint32 is the remainder by 2^32 |
| Packet.BuildIpv4Udp | echo_raw/src/packet.c:39-81 | fails exactly on too small a buffer or too long a payload and then writes nothing; else returns 28 + length, writes exactly the packet and leaves the rest of the buffer |
| Packet.FieldsInPlace | echo_raw/src/packet.c:55-75 | every field of a built packet by its byte offset, in network order: version, total length, identification, time to live, protocol, addresses, ports, UDP length, payload |
| Packet.Parse | echo_raw/src/packet.c:83-108 | an accepted packet has its payload view wholly inside it |
| Packet.ParseTakes | echo_raw/src/packet.c:83-108 | any version 4 header for UDP with any options, any datagram as long as it says and any trailing bytes are taken apart into their fields and payload |
| Packet.ParseIff | echo_raw/src/packet.c:87-97 | exactly such packets are accepted |
| Packet.ParseOfBuilt | echo_raw/src/packet.c:39-108 | parsing a built packet, with any bytes behind it, gives back addresses, ports and payload, on both hosts |
| Packet.StoredChecksum | echo_raw/src/packet.c:65-78 | a checksum stored as a host word verifies on a big-endian host, and on a little-endian one exactly if its bytes are equal |
| Packet.IpChecksumVerifies | echo_raw/src/packet.c:65-66 | the header of a built packet sums to all ones on a big-endian host, else exactly if its two checksum bytes are equal |
| Packet.UdpChecksumVerifies | echo_raw/src/packet.c:68-78 | so does what a receiver sums for the datagram, pseudo-header taken from the packet itself |
| Packet.LittleEndianFails | echo_raw/src/packet.c:65-66 | a packet built on a little-endian host whose header does not verify |
| Packet.LittleEndianUdpFails | echo_raw/src/packet.c:68-78 | the UDP checksum of the same packet, stored as DC FF, does not verify either |
| ClientTable.XorBits | echo_raw/src/client_table.c:19-24 | the exclusive or the hash is built from sets exactly the bits in which its operands differ |
| ClientTable.RemainderIsModulo | echo_raw/src/client_table.c:60 | the bucket of a hash is its remainder by 1024 |
| Hashing.HashInjective | echo_raw/src/client_table.c:16-27 | with the same port, two clients have the same hash only if they have the same address |
| Hashing.XorShiftInjective | echo_raw/src/client_table.c:20-24 | x ^= x >> 16 and x ^= x >> 13 lose nothing |
| Hashing.TimesInjective | echo_raw/src/client_table.c:21-23 | multiplying by a number with an inverse modulo 2^32 loses nothing |
| ClientTable.Table.Create | echo_raw/src/client_table.c:32-42 | an empty table, or null if either allocation fails |
| ClientTable.Table.Find | echo_raw/src/client_table.c:60-69 | walking the bucket's chain finds the node of the key if there is one, and its predecessor |
| ClientTable.Table.Next | echo_raw/src/client_table.c:58-78 | sets the map at the key to one more than before modulo 2^32 and returns it, or fails with the table unchanged; chains stay acyclic, disjoint and in their bucket, keys unique |
| ClientTable.Table.Unlink | echo_raw/src/client_table.c:86-90 | taking a node out of its chain leaves every other node reachable in its place |
| ClientTable.Table.Reset | echo_raw/src/client_table.c:80-95 | removes the key and nothing else, freeing its one node |
| ClientTable.Table.Destroy | echo_raw/src/client_table.c:44-56 | frees every live node once and reads no freed one |
| ClientTable.YoungestSkips | echo_raw/src/client_table.c:87-88 | the successor of a removed node takes its place in the chain's order |
| ClientTable.YoungestAfter | echo_raw/src/client_table.c:74-75 | a new node leads its own bucket and disturbs no other pointer |
| Echo.Server.Receive | echo_raw/server/echo_server.c:37-82 | one turn of the loop changes counters and sends exactly as the step function on the map says |
| Echo.Server.Serve | echo_raw/server/echo_server.c:37-82 | so does the loop over any packets, each answer included |
| Echo.CounterIsCount | echo_raw/server/echo_server.c:51-61 | in every run a client's counter is the number of its datagrams since its last "shutdown", modulo 2^32, and absent if there are none |
| Echo.CounterComputed | echo_raw/server/echo_server.c:60-61 | the counter put into an answer is that number with the present datagram included |
| Echo.Independent | echo_raw/server/echo_server.c:51-61 | runs with the same packets of one client give that client the same counter, however others interleave or collide |
| Echo.ReplyReaches | echo_raw/server/echo_server.c:63-81 | an answer goes out exactly if text, space and counter fit in 1400 bytes, the counter advances either way; its header sends it to the address and port the datagram came from, that client accepts it, and splitting at the last space recovers both parts |
| Echo.OtherPortsIgnored | echo_raw/server/echo_server.c:46-49 | packets to other ports, or that are no UDP packets, change no counter and get no answer |
| Echo.NotAnswered | echo_raw/server/echo_server.c:55-61 | neither does a shutdown get one, nor a new client without memory, which leaves no trace |
| Echo.ReplyLimits | echo_raw/server/echo_server.c:63-79 | texts of 1399 bytes or more are never answered, of 1389 or fewer always |
| Echo.RequestArrives | echo_raw/client/echo_client.c:62-74 | the server reads a client's packet as that client's text up to its first NUL, or as its shutdown |
| Echo.EchoRoundTrip | echo_raw/client/echo_client.c:57-95 | exactly if line, space and counter fit, an answer goes to the client's own address and port, and it prints them |
| Echo.AcceptedIff | echo_raw/client/echo_client.c:85-92 | a client prints exactly the packets of its server, from the server's port to its own |
| Echo.StripNewlines | echo_raw/client/echo_client.c:59-60 | zeroes exactly the trailing line ends |
| Echo.AwaitReply | echo_raw/client/echo_client.c:76-96 | stops at the first packet that passes the filter and prints its payload |
| Echo.SplitOfDigits | echo_raw/server/echo_server.c:70 | the last space of an answer is the one before the counter |
| Decimal.ValueOfDigits | echo_raw/server/echo_server.c:70 | decimal text reads back as the number |
| BroadcastChat.Server.HandleJoin | message_queues/chat_server.c:50-98 | changes log and table as the step function says, keeps every client's stream, and answers a refused client with the rejection |
| BroadcastChat.Server.Admit | message_queues/chat_server.c:74-85 | the new client has been sent exactly the history |
| BroadcastChat.Server.HandleMessage | message_queues/chat_server.c:100-106 | extends the log by the message and every stream with it |
| BroadcastChat.Server.SendToAll | message_queues/chat_server.c:37-48 | brings every client's stream up to the extended log |
| BroadcastChat.Server.Serve | message_queues/chat_server.c:149-162 | after any messages history is the first 100 of the log and each slot has been sent log[..min(100,p)] + log[p..] for its joining position p |
| BroadcastChat.WholeLogIff | message_queues/chat_server.c:79-97 | in every run a client's stream is the whole log exactly if at most 100 messages had been said when it joined, else it lacks those from the 101st to its joining and no others |
| BroadcastChat.SameStreamIff | message_queues/chat_server.c:79-97 | in every run two different clients have been sent the same exactly if both joined by then |
| BroadcastChat.LateJoinerMisses | message_queues/chat_server.c:79-106 | whoever joins after n messages misses n - 100 of them, or none if n is at most 100: after 101 one is missed |
| BroadcastChat.JoinsInLog | message_queues/chat_server.c:74-97 | at most ten clients, in joining order, each one's notice at its joining position |
| BroadcastChat.LogIsTalk | message_queues/chat_server.c:87-106 | in every run the log holds every message of kind 'M' received, in order and unchanged, and beside them one notice for each client, in table order |
| BroadcastChat.FirstTenIn | message_queues/chat_server.c:50-97 | in every run the clients in are the first ten whose joins found their queue, each joining behind all messages and notices before it |
| BroadcastChat.ServerText | message_queues/chat_server.c:53-91 | notices and rejections are the server's, and whole up to 255 characters |
| BroadcastChat.RoomGrows | message_queues/chat_server.c:50-106 | nothing said changes and no client loses its slot later |
| BroadcastChat.RefusedJoin | message_queues/chat_server.c:52-72 | a join at ten clients or without a queue changes neither log nor table |
| SharedChat.Safe | shared_memory/chat_client.c:69-171 | the invariant holds in the state the server sets up and after every interleaving from there |
| SharedChat.LogSound | shared_memory/chat_client.c:157-171 | in every reachable state semaphore plus threads in sections is 1, both counters are in bounds, and the slots below them hold whole messages and names |
| SharedChat.MutualExclusion | shared_memory/chat_client.c:28-44 | at most one thread is in its section, and then the semaphore is 0 |
| SharedChat.SectionStep | shared_memory/chat_client.c:114-121 | one byte written or read, one load or store inside the section keeps memory consistent with the thread's place |
| SharedChat.OutsideStep | shared_memory/chat_client.c:28-35 | a step outside changes at most the semaphore, and enters only by taking it |
| SharedChat.NextKeeps | shared_memory/chat_client.c:69-171 | any event keeps the invariant and extends what is published |
| SharedChat.PublishedForever | shared_memory/chat_client.c:114-121 | a published message never changes in whatever follows |
| SharedChat.ReceiversAgree | shared_memory/chat_client.c:69-89 | of two receivers' lists one is the beginning of the other |
| SharedChat.NothingTorn | shared_memory/chat_client.c:74-82 | in every run each line shown is, byte for byte, the slot published at that place, and that is the image of one whole post made in the run: the join notice of a client that attached, or a line that a sender of that client's name was given, and it reads as it |
| SharedChat.ReceiverCaughtUp | shared_memory/chat_client.c:75-82 | a receiver that unlocks has shown every message there is |
| SharedChat.NamesWhole | shared_memory/chat_client.c:158-161 | in every run each entry of the client table below its count is, byte for byte, the padded name of one client that attached, and reads as that name |
| SharedChat.ImageReads | shared_memory/chat_client.c:115-120 | the byte stores of strncpy, snprintf and the terminators leave exactly sender and text |
| SharedChat.AllHonest | shared_memory/chat_client.c:91-171 | in every run all that was ever published, and all that a thread still has to store, is the program of a whole post made in the run, and every joined name that of an attached client |
| SharedChatProgress.LinePublished | shared_memory/chat_client.c:113-122 | in every run a line typed, whatever happens until its sender is let in, is at the end of the log after finitely many steps of the sender once the semaphore is free, with its name and text, nothing earlier changed; if the log is full, it is dropped and the sender goes on |
| SharedChatProgress.ClientAdmitted | shared_memory/chat_client.c:157-181 | likewise a client that attaches has its name in the table, its notice in the log and its two threads started, as far as there is room |
| SharedChatProgress.ReceiverShows | shared_memory/chat_client.c:73-82 | a receiver scheduled when the semaphore is free shows the whole log after finitely many steps and changes none of it |
| SharedChatProgress.SectionEnds | shared_memory/chat_client.c:157-171 | from every reachable state the thread inside leaves by its own steps, having appended to log and table what it owed and nothing else |
| SharedChatProgress.NeverStuck | shared_memory/chat_client.c:28-44 | in every reachable state somebody can give the semaphore back |
| SharedChatProgress.Blocked | shared_memory/chat_client.c:28-35 | at a semaphore of 0 a thread stays and changes nothing |
| SharedChatProgress.LineRefused | shared_memory/chat_client.c:105-111 | "/quit" ends the sender, an empty line leaves everything as it was |
| SharedChatProgress.LoopEnds | shared_memory/chat_client.c:73-97 | a loop told to end ends |
| TaxiDriver.Driver.Take | taxi_control/main.c:69-139 | one turn of the driver's loop does and replies what the step function says |
| TaxiDriver.Driver.Loop | taxi_control/main.c:69-139 | so does a whole run |
| TaxiDriver.ReadCommand | taxi_control/main.c:96-119 | the comparisons and the white-space loop read a datagram as its command |
| TaxiDriver.NoEarlyAvailable | taxi_control/main.c:76-134 | after OK to s seconds neither Available nor OK is sent before they are over |
| TaxiDriver.IdleIffDisarmed | taxi_control/main.c:61-82 | not busy means the timer is disarmed with no expiry unread, busy that it is armed |
| TaxiDriver.BusyIsRemaining | taxi_control/main.c:50-55 | Busy n is about a task that was accepted and ends after poll returned: n seconds are left of it, rounded up, 0 <= n <= 86400, 0 only if it has just ended |
| TaxiDriver.ReplyByTasks | taxi_control/main.c:76-138 | in every run the reply is settled by the command and by whether every accepted task is over when poll returns: if so a STATUS is answered Available and a valid task OK, if not Busy; QUIT, bad timers and unknown commands get theirs |
| TaxiDriver.RunsUntilFinal | taxi_control/main.c:84-101 | the driver runs until the first hangup, failed receive, end of connection or QUIT |
| TaxiDriver.RepliesPair | taxi_control/main.c:88-138 | as many replies as datagrams read, and reply i is what the driver's state at the i-th of them, timer seen to, owes to that datagram |
| TaxiDriver.HearingIs | taxi_control/main.c:84-96 | the datagrams so paired are those of all turns that read one, in the order of the turns |
| TaxiDriver.TaskRoundTrip | taxi_control/main.c:115-134 | "TASK %d" is read back as the same t for every int, refused exactly outside 1..86400, else accepted exactly when idle |
| TaxiDriver.CommandByPrefix | taxi_control/main.c:98-115 | the command is told by the first bytes of the datagram |
| TaxiDriver.StrtolReads | taxi_control/main.c:116-119 | white space, a sign and digits are read as the nearest long whatever follows, and no digit as no number |
| TaxiDriver.StrtolOfDigits | taxi_control/main.c:118-119 | strtol undoes %d |
| TaxiDispatcher.Dispatcher.Push | taxi_control/main.c:145-154 | appends the entry, all earlier ones kept in order |
| TaxiDispatcher.Dispatcher.Grow | taxi_control/main.c:146-152 | doubling, from 8, keeps every entry in place |
| TaxiDispatcher.Dispatcher.FindDriver | taxi_control/main.c:156-161 | the first entry with the pid, if any |
| TaxiDispatcher.Dispatcher.ReapChildren | taxi_control/main.c:163-177 | gives up, for each pid waited for, the first live entry with it |
| TaxiDispatcher.ReapedIff | taxi_control/main.c:163-177 | with live pids distinct, exactly the live drivers whose pids waitpid gave are given up |
| TaxiDispatcher.Dispatcher.SendCmd | taxi_control/main.c:201-217 | gives the driver up exactly on a broken connection, and what it prints |
| TaxiDispatcher.Dispatcher.Execute | taxi_control/main.c:341-374 | what each command does to the table and every line it prints: the new pid, usage and argument errors, each complaint of get_drivers in order, the unknown command |
| TaxiDispatcher.CommandReaches | taxi_control/main.c:219-237 | what a command sends is one datagram to the first driver with the pid, if it lives, which that driver reads as the same task or question; other commands send it none |
| TaxiDispatcher.ToAllReads | taxi_control/main.c:239-244 | get_drivers sends exactly one question to each live driver, in table order |
| TaxiDispatcher.ComplaintsIff | taxi_control/main.c:201-217 | and complains of exactly those it cannot be sent to |
| TaxiDispatcher.Dispatcher.HandleReadable | taxi_control/main.c:257-278 | prints every message up to the first result of recv that is none, and gives the driver up exactly if that is end of file or an error |
| TaxiDispatcher.Dispatcher.Walk | taxi_control/main.c:378-393 | gives up exactly the drivers whose slot reports a hangup or whose reading ends badly, and prints every message read, in table order |
| TaxiDispatcher.SparedIff | taxi_control/main.c:382-391 | a live driver outlives the walk exactly if its slot reports no hangup and, if readable, all there is to read are messages |
| TaxiDispatcher.WalkedIff | taxi_control/main.c:274-276 | the walk prints exactly the messages of live, readable, not hung up drivers up to the first result that is none |
| TaxiDispatcher.Dispatcher.TakeTurn | taxi_control/main.c:305-396 | a turn reaps, carries out the command and walks, table and printed lines after each |
| TaxiDispatcher.SlotsInside | taxi_control/main.c:308-311 | the walk stays inside pfds exactly if no more drivers are live than it has slots for |
| TaxiDispatcher.WalkInsideIff | taxi_control/main.c:335-382 | after a command the walk stays inside pfds exactly if the command was not create_driver |
| TaxiDispatcher.OwnSlotIff | taxi_control/main.c:317-323 | an entry reads the slot filled for it exactly if no driver before it has been given up since |
| TaxiDispatcher.Dispatcher.ShutdownAll | taxi_control/main.c:280-298 | every live driver is sent QUIT once, and afterwards every descriptor ever pushed has been closed exactly once and none is open |
| TaxiDispatcher.Dispatcher.Run | taxi_control/main.c:300-401 | so it is at the end of every run, whichever path closed each; the table lists the drivers created, in order, every turn goes on from the one before it, and all that was sent is what the commands sent and the final QUITs |
| PhoneBooks.ListBook.Add | dynmem/dynmem.c:19-44 | appends, links kept mirrored; nothing changes if malloc fails |
| PhoneBooks.ListBook.Remove | dynmem/dynmem.c:88-123 | deletes exactly the chosen entry, the head for a negative number, freeing one node |
| PhoneBooks.ListBook.Unlink | dynmem/dynmem.c:109-119 | takes one node out, forward and backward links still mirroring each other |
| PhoneBooks.ListBook.Search | dynmem/dynmem.c:61-86 | reports the hits and their number |
| PhoneBooks.ListBook.FreeAll | dynmem/dynmem.c:125-133 | frees every node once: as many frees as allocations, none left |
| PhoneBooks.HitsExact | dynmem/dynmem.c:72-79 | the hits are exactly the entries with the name, in increasing order |
| PhoneBooks.ArrayBook.Add | functions/functions.c:17-29 | appends unless there are 100 entries |
| PhoneBooks.ArrayBook.Remove | functions/functions.c:31-45 | shifting down deletes exactly the chosen entry |
| PhoneBooks.ArrayBook.Search | functions/functions.c:47-63 | reports the same hits and count |
| PhoneBooks.StepsAgreeIff | functions/functions.c:17-45 | from the same entries the two books reach the same entries exactly if an addition finds memory when and only when the array has room and no negative number is removed from a non-empty book; then they answer alike |
| PhoneBooks.RemovesThatEntry | functions/functions.c:31-45 | a number in the book removes that entry and no other from either book |
| PhoneBooks.SameBook | dynmem/dynmem.c:19-123 | over any commands both books hold the same entries after every one exactly if every one meets that condition, and then all answers, hits and counts of searches included, are the same |
| PhoneBooks.RunBoth | dynmem/dynmem.c:145-164 | the list on the heap and the array, made new and driven through the same commands, hold and answer what their folds say, and so agree exactly under that condition |
| Negation.DirectCode | bits_operations/bits.c:42-52 | for every width the loop leaves 2^w minus the word, so a negative number's negation, exactly if the number is not the least one |
| Negation.NegatesIff | bits_operations/bits.c:37-52 | that equivalence on the signed values |
| Negation.InvertValue | bits_operations/bits.c:49 | inverting a word complements its value to 2^w - 1 |
| Negation.FlipValue | bits_operations/bits.c:44-48 | setting instead of clearing bit i adds 2^i |

## Left out

- Spiral.Ulitka: counts in unbounded integers; num reaches N²+1, so the C ints suffice for N up to 46340, and the space of the matrix on the stack is not modelled.
- ClientTable.Table.Next: null table or result pointers, which every caller rules out, are not modelled, for reset and destroy neither; the key of a node, written once, is a constant of the node.
- Echo.Server.Serve: sockets, a failing send and a receive that gives nothing are not modelled; the packets received are its input, and allocation succeeds (Receive covers its failure).
- Echo.EchoRoundTrip: the source address and checksum the kernel fills in for INADDR_ANY are taken as already in the packet, and client and server hosts have the same byte order.
- BroadcastChat.Server.Serve: sends to an open queue succeed; the signal handler that closes all queues is not modelled, names and queue names are C strings that fit their fields.
- SharedChat.Safe: starts when the server has initialised memory and semaphore and ends before it removes them; drawing the names and the running flags, read without the lock, are not modelled beyond a loop being able to end at any turn.
- SharedChatProgress.LinePublished: that the semaphore comes free again and that a thread is scheduled is the operating system's part; NeverStuck shows that the first is always possible.
- TaxiDriver.NoEarlyAvailable: T is the moment the driver acts, at which it arms the timer and sends; failures of the timer calls and interrupted polls are not modelled, sends succeed.
- TaxiDispatcher.Dispatcher.Walk: what poll reports is arbitrary for every slot, one past the end of pfds included, where the C program reads whatever lies there.
- TaxiDispatcher.ReapedIff: that the kernel gives no live child's pid again is its requires; without it the first live entry is given up, as ReapChildren says.
- TaxiDispatcher.Dispatcher.Execute: splitting the command line into words and numbers is not modelled; failures of socketpair, fork and realloc, which end the program, neither.
- PhoneBooks.ListBook.Add: over-long input to scanf is not modelled; names are strings of any length.
- The printing of matrices, books, bits and messages, menus, the ncurses screens and the command loops around the modelled functions.
- square_matrix fills a matrix row by row, reverse_output turns an array round in place, triangles fills a matrix below the antidiagonal; the other bit functions print bits, count them and replace the third byte; the pointer exercises replace a byte, print an array and look for a substring; the calculator libraries add, subtract, multiply and divide two ints. None of these is modelled.
- The FIFO, pipe, signal and one-shot shared-memory demos, the kernel module, the file manager and the shell exercises are mostly system calls.
