# Verified model of masque-vpn

A Dafny model of the parts of masque-vpn where a mistake is easy to make and hard to see:
the XOR forward error correction codec and the session that sends with it, byte-wise
address arithmetic and the address pool, the server's shared tables under interleaved
handlers and REST DELETEs, the in-memory connection pair, and the bounded connection log.

Code that changes things step by step is written as methods and classes and proved against
specification functions; the properties are lemmas about those functions, for all inputs,
all runs and all interleavings.

| file | models |
|---|---|
| `FecConfig.dfy` | FEC settings and their checks |
| `XorBlock.dfy`, `XorEncoder.dfy`, `XorDecoder.dfy` | the codec: parity of a block, encoding, decoding |
| `Decoding.dfy` | what decoding returns for arbitrary received packets, byte by byte |
| `XorRecovery.dfy` | encoder and decoder together |
| `IpPackets.dfy` | the IP packets that are forwarded |
| `FecSession.dfy`, `WriteTimeouts.dfy` | buffering and block sending with write failures, and which failures a connection can have |
| `EndToEnd.dfy`, `Delivery.dfy` | what a receiver ends up with, from the packets as written and through the connection's queues |
| `WrongPackets.dfy` | which groups make the decoder return packets that were never sent, and how they arise |
| `MasqueConn.dfy` | the two bounded channels and the forwarding goroutine |
| `Address.dfy`, `AddressRange.dfy`, `Allocation.dfy` | next and last address, pool construction, the pool as a FIFO queue |
| `ServerState.dfy` | `IPPool`, `ClientIPMap`, `IPConnMap`, handlers and DELETEs as interleaved steps; packet routing |
| `Ownership.dfy`, `Connections.dfy`, `Closing.dfy` | who owns an address, one connection from connect to cleanup while others run beside it, and which sessions get closed |
| `ConnectionLog.dfy` | the connection log of the API server |
| `Arithmetic.dfy`, `Bytes.dfy`, `Sequences.dfy`, `Wrappers.dfy` | shared facts and types |

Bytes are `bv8`. Products and quotients of two variables are written `Times` and `Quotient`
in specifications (repeated addition and subtraction); `Arithmetic.QuotientIsDivision` and
`Arithmetic.TimesIsProduct` connect them to the operators, which the methods use. A step of
a state machine that cannot happen leaves the state alone, so every list of steps is a run.

## Findings

* The codec recovers every single loss if and only if redundancy is on, the block size
  divides the number of packets, no block is without bytes and every packet is shorter than
  65536 bytes (`SingleLossRecovery`). For other numbers of packets the decoder looks one
  parity packet too far (`UndividedLoss` has the outcome of every single loss). It never returns a packet that was not sent exactly when the block
  size divides the number of packets or there are fewer packets than a block; with redundancy
  off, when there is at most a block of them; IP packets for one client, whatever its address,
  already show it (`NeverWrongExactly`). Every other number is reached by failed sends
  (`WrongGroupReachable`; `ShortBlockGivesWrongPacket` is the case of any three packets in
  blocks of two): after f of them the next group has f packets more than a block, and with
  redundancy on it recovers every single loss, and never misleads, exactly when the block size
  divides f (`FailedSendsDecide`). On an open connection that a session has to itself, a
  write can fail exactly when a hundred have succeeded before it (`PossibleFailures`), and the
  runs above keep to that; another writer can fill the queue earlier.
* The handler never sets a session's encoder, so a FEC session made by it buffers every
  packet and sends none (`NoEncoderNoWrites`).
* A parity packet is longer than the longest data packet by `1 + 2 * blockSize` bytes, and
  both the TUN reader and the server's reader of the queues use 2048-byte buffers: a group
  passes through unharmed exactly when its parity packet fits (`GroupFitsReader`), and every
  configuration has, for every client, a block of packets for which it does not
  (`LongestBlockIsCut`). `CutGroup` says what is then recovered. `EndToEndRecovery` is about
  the packets as written, and `ThroughQueues` about what a reader with a large enough buffer
  gets if it keeps up. Both hand the receiver the group boundaries and the loss positions:
  nothing on the wire carries them, as `SeqNum` is counted but never sent.
* Cleanup and DELETE release an address without checking who holds it, so two clients can
  come to own one address, whatever addresses the server has (`TwoOwners`). The clients keep
  addresses of their own exactly as long as no step releases one that another client (for
  DELETE, any client) owns (`OwnedStep`, `OwnedOverRuns`), and each such release can be
  followed by connects after which two clients own the same address (`ReleaseSharesAddress`).
  Isolation, which also looks at who still names an address, holds exactly as long as no
  address is leased out that another client's live handler, or a DELETE under way, still names
  (`IsolationStep`, `IsolationOverRuns`); FIFO order makes that a bound on how many allocations
  may happen before such handlers are gone (`PromptRunsAreIsolated`).
* Both close whatever session is registered for the address. A session that another one has
  displaced while registered is never closed, and these are the only ones (`NeverClosed`); a
  client that connects twice leaves one, and has its other session closed under a handler that
  is still running (`ReconnectLeavesOpen`).
* `NewIPPool` does not terminate for a prefix that ends at the all-ones address (`LoopExits`):
  the last network of each prefix length (`LastNetwork`), such as 255.255.255.0/24
  (`LoopNeverExits`).
* `Close` closes both channels while the forwarder may still hold or fetch packets: after it,
  some continuation panics if and only if anything is still on its way
  (`CloseIsSafeWhenQuiet`), and one written packet is enough (`CloseInFlight`). A read that
  waits while the connection is closed ends with zero bytes and no error
  (`EmptyReadsAfterClose`).
* Log entry numbers repeat from the 1002nd entry on (`IdsDistinctUntilTrimmed`).

## Model

| member | source | states |
|---|---|---|
| `FecConfig.Config.Validate` | common/fec/fec.go:35-46 | succeeds exactly for 0..100 percent and block sizes 1..255, and which check an error stands for |
| `FecConfig.Config.CalculateRedundancyPackets` | common/fec/fec.go:49-59 | the percentage rounded down but at least one; zero exactly when redundancy is off, which is all Encode uses |
| `XorEncoder.NewXOREncoder` | common/fec/xor_fec.go:14-19 | an encoder exists exactly for valid settings and keeps them |
| `XorDecoder.NewXORDecoder` | common/fec/xor_fec.go:113-118 | the same for the decoder |
| `XorEncoder.XorPackets` | common/fec/xor_fec.go:62-100 | the in-place header and XOR loops produce the block's parity packet, and none for a block without bytes |
| `XorBlock.XorInto` | common/fec/xor_fec.go:92-97 | the nested loops XOR the zero-padded packets into the buffer from the offset on and leave the bytes before it |
| `XorBlock.HeaderFields` | common/fec/xor_fec.go:79-90 | the header reads back the packet count modulo 256 and each length modulo 65536 |
| `XorBlock.ParityExists` | common/fec/xor_fec.go:62-80 | a block has a parity packet if and only if one of its packets has a byte, and it is the header's size longer than the longest one |
| `XorBlock.XorAtPermutation` | common/fec/xor_fec.go:93-97 | the XOR of a block does not depend on the order of its packets |
| `XorBlock.BlockInverse` | common/fec/xor_fec.go:62-100 | parity XOR all packets but j, in any order, cut to the recorded length, is packet j, for packets of any lengths |
| `XorEncoder.Encode` | common/fec/xor_fec.go:23-58 | returns the data packets followed by one parity packet per block that holds a byte |
| `XorEncoder.BlockSizes` | common/fec/xor_fec.go:41-49 | there are ceil(n/B) blocks, none empty, all of B packets but perhaps the last, which has the rest |
| `XorEncoder.BlockPlace` | common/fec/xor_fec.go:42-49 | packet i is in block i/B at place i - (i/B)B, for any number of packets |
| `XorEncoder.BlocksFlatten` | common/fec/xor_fec.go:42-49 | the blocks one after the other are the packets |
| `XorEncoder.ParitiesLayout` | common/fec/xor_fec.go:41-55 | if no block is empty, parity packet b is the b-th one and is block b's |
| `XorEncoder.ParityRank` | common/fec/xor_fec.go:50-55 | in any group the parity packet of a block that has one comes right after those of the blocks before it |
| `XorRecovery.EveryPacketProtected` | common/fec/xor_fec.go:23-58 | for groups of every size: the parity packet of packet i's block, at n + i/B, and the block's other packets in any order rebuild packet i |
| `XorDecoder.XorPacketsWithRedundancy` | common/fec/xor_fec.go:211-238 | the buffer loops XOR parity payload and packets and cut to the original length; none if the header does not fit |
| `XorDecoder.ParityIndexPastEnd` | common/fec/xor_fec.go:154-167 | a loss listed beyond the group has its parity index beyond the group, so no slot is out of range |
| `XorDecoder.RecoverBlock` | common/fec/xor_fec.go:153-204 | the part of a loop iteration that rebuilds a lone loss, for arbitrary packet contents and any listed index: which packet, none, or an index out of range |
| `XorDecoder.Decode` | common/fec/xor_fec.go:129-208 | whatever order the map of losses is visited in, the result is one function of the arguments, and whether it panics is too |
| `Decoding.DecodedExactly` | common/fec/xor_fec.go:129-238 | for any received packets and any list of indices: nothing for an empty list; else a slot is filled if and only if it is the only listed loss of its block and the packet at T - T/(B+1) + i/B is a count, that many lengths and a payload with a length for its place; with the XOR of payload and arrived packets, of that length |
| `XorDecoder.PanicsExactly` | common/fec/xor_fec.go:142-204 | it panics if and only if a listed index is negative, alone in the block that truncating division counts it to, and not passed over; so never for indices of slots |
| `Decoding.OutOfRangeExactly` | common/fec/xor_fec.go:162-196 | what passing over a negative index means in the bytes of the packets that arrived |
| `XorRecovery.IndexAlignment` | common/fec/xor_fec.go:162-163 | the decoder's parity index is the encoder's if and only if the block size divides the number of packets; otherwise it is one too far |
| `XorRecovery.DataCountGuess` | common/fec/xor_fec.go:162-163 | the same in the code's operators: T - T/(B+1) is n or n + 1 |
| `XorRecovery.ExactRecovery` | common/fec/xor_fec.go:129-208 | a slot is recovered exactly when it is a lost data packet, alone among its block's losses, with its parity present; the packet is the original; parity losses give no entry |
| `XorRecovery.SingleLossRecovery` | common/fec/xor_fec.go:23-208 | for all settings and packets: every single data loss is recovered if and only if the stated conditions hold |
| `WrongPackets.NeverWrongExactly` | common/fec/xor_fec.go:154-204 | for all settings, numbers of packets and client addresses: whatever is lost, Decode returns only packets that were sent, if and only if the block size divides their number or they are fewer than a block (without redundancy: at most a block); single losses among one client's IP packets already decide it |
| `WrongPackets.UndividedLoss` | common/fec/xor_fec.go:160-204 | every single loss in a group whose last block is short: nothing for the last block and for places the next block lacks, else the XOR of the rest of its block and the next block, as long as the next block's packet in its place |
| `WrongPackets.ShortBlockGivesWrongPacket` | common/fec/xor_fec.go:160-204 | three more packets in blocks of two, the second one's send failing, put a group of three on the wire; with the first one lost, Decode returns the XOR of the other two |
| `FecSession.ClientSession.EncodeAndSendBlock` | vpn_server/internal/server/packet_processor.go:142-165 | writes the group up to the first failure, counts the writes, and empties the buffer only if all were written |
| `FecSession.ClientSession.ForwardPacketWithFEC` | vpn_server/internal/server/packet_processor.go:124-139 | buffers the packet and sends when a block is full and there is an encoder |
| `FecSession.ClientSession.ForwardPacketToClient` | vpn_server/internal/server/packet_processor.go:109-121 | error without connection; FEC path or one plain write |
| `FecSession.AtLeastOnce` | vpn_server/internal/server/packet_processor.go:124-165 | in every run, with any write failures: the buffer is the newest part of what was accepted, all the rest is on the wire in order, and SeqNum is the number of writes modulo 2^32 |
| `FecSession.EveryPacketKept` | vpn_server/internal/server/packet_processor.go:124-165 | so every accepted packet is in the buffer or has been written |
| `FecSession.NoEncoderNoWrites` | vpn_server/internal/server/packet_processor.go:134-138 | without an encoder every packet stays buffered |
| `FecSession.AnyGroupIsReachable` | vpn_server/internal/server/packet_processor.go:124-165 | after any run that leaves the buffer empty and has written a hundred packets, any list of a block or more can be what the next group on the wire is made of, with no failure before the hundredth success |
| `WrongPackets.WrongGroupReachable` | vpn_server/internal/server/packet_processor.go:35-162 | every unsafe number is that of the IP packets, all for one client of any address, of a group that some such run sends and the decoder misreads |
| `WriteTimeouts.PossibleOutcomes` | common/masque_connectip.go:225-237 | the outcomes of the writes to an open connection that times out only on a full queue are exactly the lists in which every failure comes after a hundred successes, and all of them are possible without any reader |
| `WriteTimeouts.PossibleFailures` | vpn_server/internal/server/packet_processor.go:153-159 | so the failures a session alone on its connection can have, for every event list |
| `FecSession.BufferLength` | vpn_server/internal/server/packet_processor.go:124-165 | in every run the buffer is shorter than a block, or holds a block less one and one packet for each send that failed since it was last emptied |
| `WrongPackets.FailedSendsDecide` | vpn_server/internal/server/packet_processor.go:130-162 | for every event list: the group sent next holds a block and one packet per failed send, and recovers every single loss, and never misleads, if and only if the block size divides the number of failed sends |
| `FecSession.WireIsGroups` | vpn_server/internal/server/packet_processor.go:124-165 | without failures the wire is the groups of the consecutive full blocks and the buffer the rest, shorter than a block |
| `EndToEnd.FullBlockDecodable` | vpn_server/internal/server/packet_processor.go:12-32 | a full block of packets of 1 to 2048 bytes meets all the decoder's conditions |
| `EndToEnd.EndToEndRecovery` | vpn_server/internal/server/packet_processor.go:124-165 | for every stream and every block: whichever packet its group loses, the receiver has the block's packets byte for byte |
| `EndToEnd.GroupFitsReader` | common/masque_connectip.go:195-199 | a group passes through a reader's buffer uncut if and only if its parity packet fits |
| `Delivery.ThroughQueues` | common/masque_connectip.go:125-199 | through the two queues, to a reader that keeps up and whose buffer holds the parity packet: each block whose group has been read survives the loss of any one of its packets |
| `WrongPackets.LongestBlockIsCut` | vpn_server/internal/server/masque_handler.go:290-301 | for every configuration with redundancy and every client, the block of longest packets has a group that a reader with a 2048-byte buffer changes |
| `WrongPackets.CutRebuild` | common/fec/xor_fec.go:211-238 | from a cut parity packet: the original bytes as far as its payload reaches, the XOR of the other packets beyond; the original packet if and only if the parity bytes cut off were zero |
| `WrongPackets.CutGroup` | common/fec/xor_fec.go:129-208 | the same as what Decode returns for a full block read through a buffer; nothing if the header is cut |
| `MasqueConn.MASQUEConn.WritePacket` | common/masque_connectip.go:206-238 | a run that begins with its check and ends with its send or timeout, with any steps of the forwarder, of other writers and readers, and of Close between; success appends the packet, an error means closed before or full at the timeout |
| `MasqueConn.MASQUEConn.ReadPacket` | common/masque_connectip.go:170-203 | likewise: the oldest waiting packet, cut to the buffer, rest of the buffer untouched; an error means closed before or nothing at the timeout; zero bytes without error if closed while it waits |
| `MasqueConn.MASQUEConn.Close` | common/masque_connectip.go:241-263 | closes once; later calls change nothing |
| `MasqueConn.DeliveredInOrder` | common/masque_connectip.go:125-150 | in every reachable state what was read, then what is in flight, is a subsequence of what was written, with at most 201 in flight |
| `MasqueConn.NothingDropped` | common/masque_connectip.go:139-147 | if never more than 100 written packets are unread, nothing is dropped at all |
| `MasqueConn.ForwarderDrains` | common/masque_connectip.go:139-147 | from every open state the forwarder alone empties the write queue, and the read queue holds the oldest hundred of what was in flight |
| `MasqueConn.WriterServed` | common/masque_connectip.go:139-147 | so every waiting write of an open connection can succeed without a reader |
| `MasqueConn.InFlightIsRead` | common/masque_connectip.go:125-199 | and what was in flight is read, oldest first, by as many readers as wait |
| `MasqueConn.UnreadKeepsOldest` | common/masque_connectip.go:139-147 | in every open run without reads the read queue holds the first written packets, and nothing is dropped before it holds a hundred |
| `MasqueConn.ReadAfterClose` | common/masque_connectip.go:192-198 | readers that wait at Close still get what the read queue holds |
| `MasqueConn.CloseIsSafeWhenQuiet` | common/masque_connectip.go:241-256 | after Close some continuation sends on a closed channel if and only if a writer or the forwarder still has a packet |
| `MasqueConn.CloseInFlight` | common/masque_connectip.go:241-256 | one packet written and not yet forwarded at Close is enough |
| `MasqueConn.EmptyReadsAfterClose` | common/masque_connectip.go:192-198 | reads of zero bytes without error happen only after Close, at most one for each reader that was waiting |
| `Address.NextIP` | common/ip.go:101-114 | the carry loop computes the carrying increment |
| `Address.IncrementValue` | common/ip.go:101-114 | which is addition of one modulo 2^(8 * length) |
| `Address.LastIP` | common/ip.go:33-60 | the in-place loop sets the host bits byte by byte |
| `Address.PrefixValues` | common/ip.go:33-60 | setting host bits gives v - v mod 2^h + 2^h - 1 and clearing them v - v mod 2^h, for every prefix length |
| `AddressRange.LoopExits` | common/ip.go:199-204 | the pool loop ends if and only if the prefix does not end at the all-ones address |
| `AddressRange.LastNetwork` | common/ip.go:33-60 | a prefix ends there if and only if the all-ones address is in its network |
| `AddressRange.LoopNeverExits` | common/ip.go:199-204 | the loop does not end for 255.255.255.0/24 |
| `AddressRange.Enumerate` | common/ip.go:195-211 | the loop terminates under that condition and collects the addresses after the prefix's own, without the gateway |
| `AddressRange.PoolMembers` | common/ip.go:195-211 | membership in the pool, for any prefix and gateway |
| `AddressRange.PoolIncreasing` | common/ip.go:195-211 | the pool is strictly increasing |
| `AddressRange.NewNetworkInfo` | common/ip.go:69-88 | the network's number is the address's without host bits, the gateway's is one more (zero after all ones), both with the given prefix length |
| `AddressRange.NetworkBounds` | common/ip.go:75-79 | an address is in the network exactly when its number lies between network and last address |
| `AddressRange.ServerPoolMembers` | vpn_server/internal/server/server.go:33-38 | the server's pool is exactly its network without network address and gateway |
| `AddressRange.ServerPoolSize` | vpn_server/internal/server/server.go:33-38 | max(0, 2^h - 2) addresses, in increasing order |
| `AddressRange.ServerPoolNumbers` | vpn_server/internal/server/server.go:33-38 | the k-th address of the pool has the number of the network plus 2 + k, up to the network's last; the gateway is the network plus 1 |
| `Allocation.IPPool.NewIPPool` | common/ip.go:195-211 | a new pool has these addresses free and none leased |
| `Allocation.IPPool.Allocate` | common/ip.go:214-224 | leases the first free address; none when exhausted, with nothing changed |
| `Allocation.IPPool.Release` | common/ip.go:227-234 | appends a leased address to the free ones; double and foreign releases change nothing |
| `Allocation.IPPool.Stats` | common/ip.go:237-244 | reports the sizes and their sum |
| `Allocation.PartitionAlways` | common/ip.go:214-244 | after any sequence of calls free and leased addresses partition the initial ones and the total is unchanged |
| `Allocation.ReuseAfterAllOthers` | common/ip.go:214-234 | an address released with k others free is returned by exactly the (k+1)-th later allocation, whatever releases come between |
| `ServerState.Server.New` | vpn_server/internal/server/server.go:31-67 | a new server has the network's pool and empty tables |
| `ServerState.Server.AssignIPToClient` | vpn_server/internal/server/masque_handler.go:114-131 | the existing lease, or a new one recorded in pool and table; error and no change when exhausted |
| `ServerState.Server.AttachSession` | vpn_server/internal/server/masque_handler.go:81-83 | registers the session for the address |
| `ServerState.Server.CleanupClientSession` | vpn_server/internal/server/masque_handler.go:348-365 | removes the client entry, closes and removes the session of the address, releases the address |
| `ServerState.Server.DisconnectLocked` | vpn_server/internal/server/api_server.go:244-262 | the first step of DELETE, or not found |
| `ServerState.Server.DisconnectRelease` | vpn_server/internal/server/api_server.go:264-265 | the second step |
| `ServerState.Server.ParseDestinationIP` | vpn_server/internal/server/packet_processor.go:61-93 | returns an address if and only if the packet is a version nibble, 15 or 23 bytes of anything, the 4 or 16 bytes of that address, and anything after |
| `ServerState.Server.RoutePacket` | vpn_server/internal/server/packet_processor.go:35-46 | the session a packet is forwarded to, if any |
| `ServerState.ServerStart` | vpn_server/internal/server/server.go:31-67 | a new server satisfies the invariant and is isolated |
| `ServerState.AlwaysInv` | vpn_server/internal/server/masque_handler.go:52-90 | in every interleaving: pool partition, every lease backed by a live handler of the client it names, every entry likewise, routed sessions live, attached and open |
| `ServerState.AllReturned` | vpn_server/internal/server/masque_handler.go:348-365 | once no handler is left both tables are empty and the free addresses are a permutation of the initial ones |
| `ServerState.IsolationStep` | vpn_server/internal/server/masque_handler.go:114-131 | from an isolated state a step keeps isolation if and only if it leases out no address that another client's handler or a DELETE still names |
| `ServerState.IsolationOverRuns` | vpn_server/internal/server/masque_handler.go:114-131 | a whole run is isolated if and only if every allocation in it is safe |
| `ServerState.LeasedToOwner` | vpn_server/internal/server/masque_handler.go:123-129 | while isolation holds the pool has every owned address leased to its owner |
| `Ownership.OwnedStep` | vpn_server/internal/server/masque_handler.go:348-365 | while every client has a leased address of its own, a step ends that if and only if it releases an address another client owns, or, as the end of a DELETE, any client |
| `Ownership.OwnedOverRuns` | vpn_server/internal/server/masque_handler.go:348-365 | a whole run keeps it if and only if it contains no such release |
| `Ownership.ReleaseSharesAddress` | vpn_server/internal/server/masque_handler.go:114-131 | every such release has a continuation after which two clients own one address |
| `Ownership.PromptKeepsOwners` | common/ip.go:214-234 | runs under the promptness bound contain none |
| `Ownership.TwoOwners` | vpn_server/internal/server/masque_handler.go:348-365 | for every nonempty list of addresses a server starts with, some run ends with two clients owning one of them |
| `Closing.NeverClosed` | vpn_server/internal/server/masque_handler.go:81-83 | in every run that ends without handlers, a session that was attached has not been closed if and only if another attach displaced it while it was registered |
| `Closing.ReconnectLeavesOpen` | vpn_server/internal/server/masque_handler.go:348-359 | after two connects of one client and the end of both handlers its first session is open; after the end of the first, the second session is closed and its handler still there |
| `ServerState.PromptUnclaimed` | common/ip.go:214-234 | under the promptness bound no address is leased out while anything names it |
| `ServerState.PromptRunsAreIsolated` | common/ip.go:214-234 | if what names an address at its release is gone before more allocations than there were other free addresses, every state of the run is isolated |
| `ServerState.RoutedToLessee` | vpn_server/internal/server/packet_processor.go:35-52 | a routed packet goes to the open session of a live handler leased its destination, and under isolation to the owner's |
| `Connections.ExclusiveThroughout` | vpn_server/internal/server/masque_handler.go:52-90 | a connection alone with its address stays so whatever other clients, handlers and DELETEs do, until its client connects again or is deleted or its handler ends |
| `Connections.AttachRoutes` | vpn_server/internal/server/masque_handler.go:80-83 | in every state after the attach, a packet goes to its session if and only if it is addressed to its address |
| `Connections.EntryThroughout` | vpn_server/internal/server/masque_handler.go:118-130 | in every interleaving a client's address is the same throughout if and only if no DELETE of the client starts and no attached handler of it ends |
| `Connections.ReconnectSharesLease` | vpn_server/internal/server/masque_handler.go:118-121 | so long, a connect of the client gives it the address it has and allocates nothing |
| `Connections.LifeCycle` | vpn_server/internal/server/masque_handler.go:52-90 | from the connect of a new client to the end of its handler, with any steps of others between: nothing of it is left, its address goes to the end of the queue, nobody else is affected |
| `Connections.DeleteDisconnects` | vpn_server/internal/server/api_server.go:241-273 | with anything between its two steps that keeps isolation: the address is free and nobody's, and the session it had is closed and routed to by no packet |
| `ConnectionLog.ConnectionLogs.AddConnectionLog` | vpn_server/internal/server/api_server.go:293-311 | appends, numbers and trims as specified for the whole list of events |
| `ConnectionLog.ConnectionLogs.GetConnectionLogs` | vpn_server/internal/server/api_server.go:276-290 | the newest min(100, total) events, in order, each with the number it was given, and how many |
| `ConnectionLog.PageEntries` | vpn_server/internal/server/api_server.go:280-310 | event and number of each entry of the page, for any number of events ever logged |
| `ConnectionLog.KeptIsSuffix` | vpn_server/internal/server/api_server.go:305-310 | the kept log is a suffix of the history, at most 1000 long, with its exact length |
| `ConnectionLog.IdsDistinctUntilTrimmed` | vpn_server/internal/server/api_server.go:297-310 | entry numbers in the log are distinct if and only if at most 1001 entries were ever added |

## Left out

- QUIC and HTTP/3 dialing, TLS, the CONNECT text exchange and the paths of `MASQUEConn` that use a stream: network and library I/O.
- TUN creation, routing commands and the buffer pool of the TUN device; a TUN read is any packet of 1 to 2048 bytes.
- `proxyTunToClient` and `proxyClientToTun`: the first passes 100 as the read offset and then uses the buffer from its start; forwarding is modelled through `processPackets`. Packets the first writes to the same connection are those of another writer; a session's wire holds its own.
- Time itself: a write or read that waits times out only on a full or an empty queue.
- What follows when `proxyTunToClient` recovers from a panic of its write; a panic ends a run of the connection.
- Contexts and panics of handlers: a handler may finish at any moment after attaching.
- Metrics, Gin routing and JSON, configuration loading, logging, `admin_webui`, error classification.
- XorEncoder.Encode: takes byte strings; a nil data packet, which the decoder would take for a lost one, is not modelled.
- AddressRange.Enumerate: required to stay below the all-ones address, where the code does not terminate; `LoopExits` states that condition as an equivalence. The same guard stands on `Allocation.IPPool.NewIPPool` and `ServerState.Server.New`.
- Parsing of CIDR and address text; prefixes are given as bytes and a length, without zones.
- Sessions in the server's tables are numbers, one per handler, and closing a session's connection is membership in a set; sharing of session objects between table and handler is not captured.
- Connections.DeleteDisconnects: says nothing of a handler that attaches its session after the first step of the DELETE; it may, and packets then go to it until it ends.
- Connections.LifeCycle: its client has no live handler from before, whose end would take the new entry away; that nobody names its address is what `ServerState.PromptUnclaimed` gives.
- `Server.Close` and clearing the log on shutdown.
