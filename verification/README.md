# AdGuard Home: verified models of its stateful cores

A Dafny model of the parts of AdGuard Home that keep state or decide what a state means, with
proofs of what they promise:

- the **DHCP lease engine** (`internal/dhcpsvc`): interfaces with their lease maps and sparse sets of
  leased offsets, the lease index they share, the DHCPv4 and DHCPv6 message handlers that drive them,
  the lease calls of the server, and the IA_NA wire codec;
- the **client storage** (`internal/client`, `internal/aghalg`): the identifier maps, the sorted map
  of subnets, the cached upstream configurations and the resources behind them, and the runtime
  clients;
- the **file walker** (`internal/aghos`) and the **session store** (`internal/aghuser`).

`dafny verify dfyconfig.toml` verifies everything.

## How it is built

Code that changes objects in place is modelled by classes (`LeaseIndex`, `NetInterface`, `BitSet`,
`Interface4`, `Interface6`, `Service`, `SortedMap`, `Index`, `UpstreamManager`, `Storage`,
`RuntimeIndex`, `SessionStorage`), and loops by methods with invariants.  For the lease engine every
method is proved equal to a function on values (`LeaseModel`, `Dhcp4`, `Dhcp6`, `DhcpServer`), and the
run theorems are about those functions; `DhcpService.Service.Run` connects the two for whole runs.

A `*Lease` is a reference into an explicit heap, so that the sharing of one lease object by the
interface map and both index maps, on which several results depend, is part of the model.

What comes from outside is a parameter: the clock, the order in which Go walks a map, the answers of
the address checker, host name validity and generation, the hardware address the DHCP server knows
for an address, the file system, and whether upstreams and tags of a client are well-formed.

All lemmas switch automatic induction off.  This is not only style: with it on, the hypothesis that
Dafny 4.11 adds to `Declines.StartOrderly` and `Declines.DeclinedAfterStart` is inconsistent, and Dafny
reports that it proves them from contradictory assumptions.

## The main results

1. *Exclusive addresses.*  `DhcpServer.RunsFromDatabase`: for every set of interfaces, every database
   and every sequence of DHCPv4 and DHCPv6 messages, lease calls and resets, all states are sound (each
   key is the hardware address of its lease, no two keys hold one address, every held address is in
   range with its bit set) **if and only if** every step met its guard.  The guard of a message is about
   the one case where it can fail, taking over an expired lease (`LeaseInvariant.AllocateSoundIff`).
2. *Right answers.*  In every such run each DHCPACK names exactly the address asked for, and it and
   each address-bearing DHCPv6 Reply are backed by the lease that the index has at that address.
3. *Declined addresses.*  `Blocks.DeclinedFromDatabase`: in every safe run of messages of both
   protocols, lease calls and resets, a declined committed address is assigned to nobody until an event
   unblocks it, and `Blocks.StaysBarredIff` says exactly which events do: a reset, a release by a holder
   whose name the index knows, a take-over of an expired lease at that address, and an accepted lease
   call that removes or moves the lease there.  `Declines.DeclinedAfterStart`: in DHCPv6 runs only a reset
   does, so the address is assigned to nobody until then.
4. *Clients.*  `ClientStorage.Storage.Run`: in every run the storage with its six maps, sorted subnets
   and lazily rebuilt configurations behaves like a plain map of clients with the common settings:
   operations are accepted and rejected alike, and every query is answered with the configuration that a
   fresh build for the rightful client would give at that moment.  No built object is ever forgotten or
   its closing undone, each is live for exactly one client or closed exactly once, and `Shutdown` leaves
   all of them closed exactly once.
5. *Least closure.*  `FileWalker.Walk`: the walk ends even with cyclic includes, checks no file twice,
   stops and fails exactly where it should, and `FileWalker.WalkUndisturbed`: if nothing in reach stops
   it or fails, it finishes, having checked exactly the least closed set of files.
6. *Sessions.*  `Sessions.SessionStorage.Run`: in every run of `New` in its two halves, lookups, deletions
   and restarts, memory and database agree, the store does what a plain map of sessions would, lookups
   never give an expired session, and a restart rebuilds exactly the sessions it should.
7. *Codec.*  IA_NA options round-trip; the decoder's accepted inputs are characterised completely.

## Where the code does not do what one might expect

Each has its exact condition and an input that shows it.

- An expired reservation that was never committed can be taken over without its old key being removed;
  two clients then hold one address.  Condition: `LeaseInvariant.ReclaimSafe` in
  `LeaseInvariant.AllocateSoundIff`; input: `Counterexamples.UncommittedReservationReclaimed`.
- `UpdateStaticLease` does not mark the offset of a new address, and none of the lease calls look at
  reserved but uncommitted leases.  Condition: `DhcpServer.AdminSafe` in `DhcpServer.AdminSoundIff`; inputs:
  `Counterexamples.AddBreaks`, `UpdateBreaks`, `RemoveBreaks`.
- `RemoveLease` checks that the address, the name and the hardware address are known, not that they
  belong to one lease.  Condition: `IndexViews.RemoveAgreesIff`; input: `Counterexamples.RemoveDisagrees`.
- A DHCPv4 request changes the name of the lease object before the index is asked, so a new name leaves
  the old one in the index, also if the request is then refused; a decline does the same.  Condition:
  `Dhcp4.Misnames` in `Dhcp4.NamesFiledIff`; inputs: `Counterexamples.AcknowledgedRename`, `RefusedRename`.
- A declined DHCPv4 address can be acknowledged to another client.  Condition: `Blocks.Unblocks4` in
  `Blocks.Handle4Bars`; input: `Counterexamples.DeclinedAddressAcknowledged`.
- The documentation of `nextIP` says that it returns the zero address when nothing is free; for a range
  that ends at the last address of its family the search panics instead.  Condition: `IpRange.NextIP`;
  input: `Counterexamples.SearchPanics`.
- A reset forgets all leases but leaves the offset bits set, so an interface that was full stays full.
  Condition: `DhcpServer.ResetKeepsSearch`; every full interface: `DhcpServer.FullAfterReset`.
- The cached upstream configurations become stale if two updates of the common settings read the same
  time.  Condition: `Upstreams.UpstreamManager.UpdateCommon`; input: `ClientStorage.StaleAnswer`.

## Model

| member | source | states |
|---|---|---|
| Net.LowerFolds | internal/dhcpsvc/leaseindex.go:77-83 | Two host names have one lower-case form exactly if they differ at most in case. |
| Net.PrefixIsRange | internal/client/index.go:253-276 | A prefix contains exactly the addresses of its family from its network address on, as many as its host bits count. |
| IpRange.NewRange | internal/dhcpsvc/iprange.go:30-53 | Accepts exactly the ascending ranges of one family not longer than 2^32-1. |
| IpRange.OffsetIsDistance | internal/dhcpsvc/iprange.go:80-91 | The 64-bit wrap-around difference is the true 128-bit distance, also across a 64-bit boundary, and stays within the range. |
| IpRange.OffsetInjective | internal/dhcpsvc/iprange.go:80-91 | Two addresses in range with one offset are one address. |
| IpRange.NextIP | internal/dhcpsvc/interface.go:157-169 | Finds the lowest address in range whose offset is free; none only if all are taken, and panics exactly if all are taken and the range ends at the last address of its family. |
| IpRange.LowestFreeUnique | internal/dhcpsvc/iprange.go:68-77 | That description determines the result. |
| BitSets.WithBitReadsBack | internal/dhcpsvc/bitset.go:33-49 | Writing a bit of a word reads back at that bit and at no other. |
| BitSets.MemberIff | internal/dhcpsvc/bitset.go:18-29 | The word lookup decides membership in the represented set, both ways. |
| BitSets.SetInRefines | internal/dhcpsvc/bitset.go:33-49 | Storing a bit adds or removes exactly that number of the represented set. |
| BitSets.BitSet.IsSet | internal/dhcpsvc/bitset.go:18-29 | Answers membership in the set. |
| BitSets.BitSet.Set | internal/dhcpsvc/bitset.go:33-49 | The set gains or loses exactly the number. |
| Wire.ReadsBack | internal/dhcpsvc/options6.go:197-210 | A big-endian number reads back as itself modulo its width, so unchanged exactly if it fits. |
| Wire.WritesBack | internal/dhcpsvc/options6.go:176-194 | Writing what was read restores the octets. |
| Wire.WrittenAt | internal/dhcpsvc/options6.go:197-210 | A number is written octet by octet with the most significant one first. |
| IanaCodec.Encode | internal/dhcpsvc/options6.go:103-118 | Appending field by field and option by option gives the encoding the laws below are about. |
| IanaCodec.Decode | internal/dhcpsvc/options6.go:63-100 | The decoding loop ends in bounds on every byte string with the result the laws below are about. |
| IanaCodec.RoundTrip | internal/dhcpsvc/options6.go:63-118 | Decoding an encoded option returns it, for every list of nested addresses (sections 21.4 and 21.6 of RFC 9915). |
| IanaCodec.NestedOptions | internal/dhcpsvc/options6.go:63-100 | Any list of nested options reads as its IA Address options in order, other options and a short tail skipped; it fails exactly if an IA Address option is too short. |
| IanaCodec.AcceptedShape | internal/dhcpsvc/options6.go:63-100 | Conversely, whatever is accepted is such a list. |
| IanaCodec.AddrReadsBack | internal/dhcpsvc/options6.go:176-210 | The body of an IA Address option round-trips, whatever follows its fixed part. |
| IanaCodec.DecodeParts | internal/dhcpsvc/options6.go:63-100 | An IA_NA is malformed exactly if it is shorter than 12 octets or its nested options are malformed, and otherwise has the three numbers in front and those addresses. |
| IanaCodec.StatusHasNoAddrs | internal/dhcpsvc/options6.go:285-304 | A status-only IA_NA decodes to the same identifier, zero times and no address. |
| IanaCodec.AddrLayout | internal/dhcpsvc/options6.go:197-210 | The octets of an IA Address option: code 5, length 24, address, preferred and valid lifetime, at their offsets (section 21.6 of RFC 9915). |
| IanaCodec.IanaLayout | internal/dhcpsvc/options6.go:103-118 | The octets of an IA_NA option: identifier, T1, T2, and then the addresses in order (section 21.4 of RFC 9915). |
| IanaCodec.StatusLayout | internal/dhcpsvc/options6.go:285-304 | The octets of a status-only IA_NA: zero times and a Status Code option, code 13 and length 2 (section 21.13 of RFC 9915). |
| LeaseModel.FindExpired | internal/dhcpsvc/interface.go:173-181 | Finds a held, expired, dynamic lease, or there is none among the walked keys. |
| LeaseModel.Allocate | internal/dhcpsvc/interface.go:190-224 | Ends; a lease it returns belongs to the client, is held under the client's key, and no lease object disappears. |
| LeaseModel.FreedIsFound | internal/dhcpsvc/interface.go:190-224 | A freed address makes the next search succeed, which is why the allocation loop ends. |
| LeaseInvariant.RemoveKeeps | internal/dhcpsvc/interface.go:114-127 | Removing a held lease succeeds, removes just it and keeps the interface sound. |
| LeaseInvariant.BlockKeeps | internal/dhcpsvc/interface.go:132-153 | Blocking takes the lease out of the interface, keeps both index maps, marks the object blocked and keeps its address; the interface stays sound. |
| LeaseInvariant.UpdateKeeps | internal/dhcpsvc/leaseindex.go:131-160 | Updating with the object already held keeps leases, bits and objects, leaves the index pointing to it at its address, and keeps the interface sound. |
| LeaseInvariant.IndexRemoveKeeps | internal/dhcpsvc/leaseindex.go:100-126 | A successful removal frees exactly that key, address and bit and keeps the interface sound. |
| LeaseInvariant.FreshKeeps | internal/dhcpsvc/interface.go:229-243 | Allocating a free address keeps the interface sound and changes nobody else's lease or the index. |
| LeaseInvariant.BlockedTakeOver | internal/dhcpsvc/interface.go:190-262 | Taking over an indexed expired lease and then blocking it drops just the old owner's lease and frees its address. |
| LeaseInvariant.ReclaimKeeps | internal/dhcpsvc/interface.go:245-265 | A safe take-over keeps the interface sound, removes the old key, address and name, and gives the client a nameless dynamic lease for the full lifetime. |
| LeaseInvariant.UnsafeReclaimBreaks | internal/dhcpsvc/interface.go:251-262 | An unsafe take-over always leaves the interface unsound. |
| LeaseInvariant.AbortedIff | internal/dhcpsvc/interface.go:157-169 | An allocation is aborted exactly if its first search panics. |
| LeaseInvariant.AllocateGives | internal/dhcpsvc/interface.go:190-265 | A safe allocation gives the lowest free address, otherwise that of the expired lease, exactly if the checker accepts it, the latter at its first or second asking. |
| LeaseInvariant.AllocateSoundIff | internal/dhcpsvc/interface.go:190-265 | An allocation keeps the interface sound exactly if its take-over, if any, is of a lease the index can remove and the checker does not fail on. |
| Dhcp4.Handle4Keeps | internal/dhcpsvc/handler4.go:92-475 | Every DHCPv4 message keeps a sound interface sound exactly under its guard; a DHCPACK names the address asked for (section 4.3.2 of RFC 2131), held by the client and indexed as its lease, with the right name, expiry and lease time; an offer is of the client's own lease; a DHCPNAK changes at most the client's own lease object, which is renamed and on renewal extended if the client holds the address asked for. |
| Dhcp4.DiscoverAnswers | internal/dhcpsvc/handler4.go:119-159 | A discovery is answered with an offer exactly if the client holds a lease afterwards; a lease it had is offered and, unless static, extended, with nothing else changed; a new client is offered the address an allocation gives, exactly if it gives one. |
| Dhcp4.GiveUp4Right | internal/dhcpsvc/handler4.go:365-452 | A Release or Decline is never answered and changes nothing unless it names, on the subnet, the address the sender holds; then exactly that lease is released, if the index knows it, or blocked. |
| Dhcp4.LeaseTime | internal/dhcpsvc/options4.go:333-352 | The lifetime for a static lease, otherwise the time left until the expiry and never less than nothing. |
| Dhcp4.AckIff | internal/dhcpsvc/handler4.go:164-361 | In all three states a request is acknowledged exactly if it is admitted, the client holds the address asked for, and neither it nor the name belongs to somebody else in the index. |
| Dhcp4.NamesFiledIff | internal/dhcpsvc/handler4.go:164-475 | Every DHCPv4 message keeps the leases filed under their own names exactly if it is neither a served request under another name, acknowledged or refused, nor a decline, of a lease the index has under its name. |
| Dhcp4.ReleaseFrees | internal/dhcpsvc/handler4.go:402-428 | After a release nobody holds the address, the index does not know it, and the next search finds it or a lower one. |
| Dhcp6.FirstIanaIs | internal/dhcpsvc/v6.go:481-504 | What is found is the first option that can be decoded; nothing is found exactly if none can. |
| Dhcp6.FirstIanaAddrIs | internal/dhcpsvc/v6.go:424-454 | The same for the first that can be decoded and has an address. |
| Dhcp6.CommitKeeps | internal/dhcpsvc/v6.go:852-887 | A commit keeps the interface sound; a valid name stays, otherwise the client's own is taken if valid and a generated one if not; a committed lease is held, indexed by address and name and lasts the full lifetime; a failed one leaves the interface. |
| Dhcp6.Handle6Keeps | internal/dhcpsvc/handler6.go:64-512 | Every DHCPv6 message keeps a sound interface sound exactly under its guard; an address-bearing Reply is backed by a bound lease, answers the first decodable IA_NA, and for Renew and Rebind names the address asked for; an Advertise offers the client's own lease. |
| Dhcp6.SilentIff | internal/dhcpsvc/handler6.go:64-512 | For all eight kinds: a message without the identifiers it needs changes nothing and is not answered; an acceptable one is answered unless it is a Solicit without a decodable IA_NA, a Confirm without an address, or the address search panics. |
| Dhcp6.BareAnswers | internal/dhcpsvc/handler6.go:175-512 | An acceptable message that asks for no address is answered without one, a Release or Decline with the status Success, and changes nothing. |
| Dhcp6.ConfirmRight | internal/dhcpsvc/handler6.go:224-266 | A Confirm changes nothing, is unanswered exactly if not acceptable or without addresses, and is answered NotOnLink exactly if some address in some decodable option is off the link. |
| Dhcp6.GiveUpRight | internal/dhcpsvc/handler6.go:405-512 | A Release or Decline takes exactly the sender's lease at the named address, unknown to the index or blocked afterwards; it is answered NoBinding, changing nothing, exactly if the sender does not hold the address or the index cannot remove it. |
| Dhcp6.UpdateAnswers | internal/dhcpsvc/v6.go:810-842 | A Renew or Rebind is answered NoBinding, changing nothing, exactly if the sender does not hold the address named; otherwise with that address if the commit succeeds and NoAddrsAvail if it fails. |
| Dhcp6.RequestAnswers | internal/dhcpsvc/handler6.go:175-219 | A Request is answered NotOnLink, changing nothing, exactly if it names an address off the link; otherwise with the lease the client ends up with, its present one if it has one, or NoAddrsAvail if it ends up with none. |
| Dhcp6.SolicitAnswers | internal/dhcpsvc/handler6.go:97-170 | A Solicit is answered with the lease the client ends up with or NoAddrsAvail, as a Reply exactly if a rapid commit was asked for and succeeded. |
| Dhcp6.WireShowsLease | internal/dhcpsvc/v6.go:747-765 | A client decoding the answer's IA_NA sees its identifier and exactly the leased address with the times of the interface, or no address. |
| DhcpServer.IfaceFor | internal/dhcpsvc/server.go:450-466 | The first interface whose range contains the address, and none only if no range does. |
| DhcpServer.OthersKept | internal/dhcpsvc/leaseindex.go:131-160 | A step of one interface keeps every other interface over the same index sound. |
| DhcpServer.RejectedIff | internal/dhcpsvc/leaseindex.go:77-160 | A lease call is turned away exactly by the tests on address, name and hardware address that a caller can make. |
| DhcpServer.CopyAdded | internal/dhcpsvc/server.go:309-340 | An accepted AddLease enters a new object under its hardware address, address and name and marks its offset. |
| DhcpServer.CopyUpdated | internal/dhcpsvc/server.go:347-375 | An accepted UpdateStaticLease exchanges the lease of the hardware address for a new object, with its address and name, and leaves the bits alone. |
| DhcpServer.EntryRemoved | internal/dhcpsvc/server.go:378-405 | An accepted RemoveLease drops the hardware address, the address, the name and the offset it was given. |
| DhcpServer.AdminSoundIff | internal/dhcpsvc/server.go:309-405 | A lease call keeps the server sound exactly under its guard; it succeeds exactly if an interface has the address and the tests pass, and otherwise changes nothing. |
| DhcpServer.StepSoundIff | internal/dhcpsvc/handler4.go:92-115 | Every message, lease call or reset keeps the whole server sound exactly under its guard, and then the reply is right. |
| DhcpServer.LoadedSound | internal/dhcpsvc/leaseindex.go:174-221 | Whatever the database contains, loading it gives a sound server. |
| DhcpServer.LoadedAll | internal/dhcpsvc/leaseindex.go:191-221 | Every stored lease is held under its hardware address and indexed by address and name, unless no range contains its address or one loaded before it has its address, its name, or its hardware address on that interface; nothing else is held or indexed. |
| DhcpServer.LoadOneKeeps | internal/dhcpsvc/leaseindex.go:191-214 | Each loaded or skipped lease leaves the server sound and every held lease indexed at its address. |
| DhcpServer.RunSoundIff | internal/dhcpsvc/interface.go:79-265 | Every state of a run is sound exactly if every step met its guard. |
| DhcpServer.RunRepliesOk | internal/dhcpsvc/handler4.go:164-361 | Every reply of a safe run is right about the state it leaves behind. |
| DhcpServer.RunsFromDatabase | internal/dhcpsvc/leaseindex.go:174-221 | Both of these for every server started from any database. |
| DhcpServer.ResetKeepsSearch | internal/dhcpsvc/interface.go:75-77 | After a reset there is no lease and no index entry, and each interface's next search finds what it would have found before. |
| DhcpServer.FullAfterReset | internal/dhcpsvc/interface.go:75-77 | An interface that was full before a reset offers nothing to anybody after it. |
| Blocks.AllocateBars | internal/dhcpsvc/interface.go:190-265 | A safe allocation unblocks exactly the address of the lease it takes over, and blocks none. |
| Blocks.CommitBars | internal/dhcpsvc/v6.go:852-887 | A commit of a real client unblocks nothing and blocks nothing. |
| Blocks.Handle4Bars | internal/dhcpsvc/handler4.go:92-475 | A blocked address stays blocked through a DHCPv4 message exactly if it is neither released by a holder whose name the index knows nor taken over. |
| Blocks.Handle6Bars | internal/dhcpsvc/handler6.go:64-512 | The same for DHCPv6. |
| Blocks.AdminBars | internal/dhcpsvc/leaseindex.go:77-160 | A blocked address stays blocked through an accepted lease call exactly if the call neither removes it nor moves the lease there to another address. |
| Blocks.StepBars | internal/dhcpsvc/server.go:285-405 | The same for every safe event of the whole server, and a reset unblocks everything. |
| Blocks.StaysBarredIff | internal/dhcpsvc/handler6.go:461-512 | In every safe run a blocked address stays blocked exactly as long as no event unblocks it. |
| Blocks.AssignedNotBarred | internal/dhcpsvc/handler4.go:458-475 | What a DHCPACK or a Reply assigns is not blocked afterwards. |
| Blocks.LoadedFiled | internal/dhcpsvc/leaseindex.go:191-221 | Any database, blocked leases included, is indexed under the right addresses. |
| Blocks.DeclinedUntilUnblocked | internal/dhcpsvc/handler4.go:365-397 | In every safe run of messages of both protocols, lease calls and resets, a declined committed address is assigned to nobody until an event unblocks it. |
| Blocks.DeclinedFromDatabase | internal/dhcpsvc/leaseindex.go:174-221 | The same for a server started from any database. |
| Declines.NeverUnblocks | internal/dhcpsvc/handler6.go:405-456 | Where every named lease is indexed at its address, no DHCPv6 message unblocks anything. |
| Declines.CommitProper | internal/dhcpsvc/v6.go:852-887 | A commit keeps every named lease indexed and leaves the entries of other interfaces alone. |
| Declines.Handle6Proper | internal/dhcpsvc/handler6.go:64-512 | So does every DHCPv6 message. |
| Declines.StepProper | internal/dhcpsvc/handler6.go:64-512 | One step of the whole server keeps all interfaces in that order, and unblocks something exactly if it is a reset. |
| Declines.BarredUntilReset | internal/dhcpsvc/handler6.go:461-512 | In every safe DHCPv6 run a blocked address stays blocked exactly until a reset. |
| Declines.DisjointAlone | internal/dhcpsvc/server.go:106-143 | With disjoint ranges no client holds an address of one interface's range on another one. |
| Declines.LoadOrderly | internal/dhcpsvc/leaseindex.go:174-221 | A database of named, unblocked leases loads into a state from which this holds. |
| Declines.DeclinedNotReassigned | internal/dhcpsvc/handler6.go:461-512 | Once a committed address is declined, no later Reply of the run assigns it before a reset (section 18.3.8 of RFC 9915). |
| Declines.DeclinedAfterStart | internal/dhcpsvc/handler6.go:461-512 | The same for a server started from its database. |
| DeclineExample.DeclineWitness | internal/dhcpsvc/handler6.go:461-512 | A loaded lease is declined and another client asks for information: a run that meets all conditions of the four theorems. |
| Counterexamples.ReachFull | internal/dhcpsvc/handler4.go:119-159 | Two discoveries fill a pool of two addresses without committing anything. |
| Counterexamples.UncommittedReservationReclaimed | internal/dhcpsvc/interface.go:245-265 | From there a third discovery leaves two keys with one address. |
| Counterexamples.ReachCommitted | internal/dhcpsvc/handler4.go:217-257 | A discovery and a request commit the first address. |
| Counterexamples.ReachOffered | internal/dhcpsvc/handler4.go:365-397 | It is declined and then offered to a second client. |
| Counterexamples.ReachReleased | internal/dhcpsvc/handler4.go:402-428 | The second client is refused and its release forgets the block. |
| Counterexamples.DeclinedAddressAcknowledged | internal/dhcpsvc/handler4.go:217-257 | A third client is then acknowledged for the declined address. |
| Counterexamples.AddBreaks | internal/dhcpsvc/server.go:309-340 | An accepted AddLease of a reserved address makes two clients hold it. |
| Counterexamples.UpdateBreaks | internal/dhcpsvc/server.go:347-375 | An accepted UpdateStaticLease leaves the offset of the new address free. |
| Counterexamples.RemoveBreaks | internal/dhcpsvc/server.go:378-405 | An accepted RemoveLease with the fields of two leases frees an address that is still held. |
| Counterexamples.RemoveDisagrees | internal/dhcpsvc/leaseindex.go:100-126 | The same call leaves the three views in disagreement. |
| Counterexamples.SearchPanics | internal/dhcpsvc/iprange.go:68-77 | A full range up to the last IPv4 address makes the search panic. |
| Counterexamples.AcknowledgedRename | internal/dhcpsvc/handler4.go:320-361 | A request acknowledged under a new name leaves the old name in the index. |
| Counterexamples.RefusedRename | internal/dhcpsvc/handler4.go:458-475 | So does one that is refused because the new name is another client's. |
| IndexViews.AgreeMeansEverywhere | internal/dhcpsvc/leaseindex.go:77-160 | The three views hold the same leases exactly if each lease is found in all of them under its own fields. |
| IndexViews.AddAgrees | internal/dhcpsvc/leaseindex.go:77-95 | An add is accepted exactly if address, name and hardware address are new, and then adds just that lease to all views. |
| IndexViews.RemoveAgreesIff | internal/dhcpsvc/leaseindex.go:100-126 | An accepted removal keeps the views in agreement exactly if the three fields given belong to one stored lease. |
| IndexViews.UpdateAgrees | internal/dhcpsvc/leaseindex.go:131-160 | An accepted update exchanges the previous lease of the hardware address for the new one in all views. |
| LeaseEngine.LeaseIndex.Add | internal/dhcpsvc/leaseindex.go:77-95 | Rejected without any change exactly if the address, the name or the key is in use; otherwise both maps and the interface hold the lease, as in the function that `AddAgrees` is about. |
| LeaseEngine.LeaseIndex.Remove | internal/dhcpsvc/leaseindex.go:100-126 | Rejected without any change exactly if the address, the name or the key is unknown; otherwise all three entries and the bit are gone, as in the function that `RemoveAgreesIff` is about. |
| LeaseEngine.LeaseIndex.Update | internal/dhcpsvc/leaseindex.go:131-160 | Rejected without any change if the address or the name is another client's or the key is unknown; otherwise the entries of the previous lease are exchanged, as in the function that `UpdateAgrees` is about. |
| LeaseEngine.NetInterface.AddLease | internal/dhcpsvc/interface.go:81-94 | Rejects a key in use without any change; otherwise stores the lease and marks its offset. |
| LeaseEngine.NetInterface.UpdateLease | internal/dhcpsvc/interface.go:99-109 | Exchanges the lease of the key and returns the previous one; bits stay as they are. |
| LeaseEngine.NetInterface.RemoveLease | internal/dhcpsvc/interface.go:114-127 | Rejects an unknown key without any change; otherwise drops the lease and its offset. |
| LeaseEngine.NetInterface.BlockLease | internal/dhcpsvc/interface.go:132-153 | Rejects an unknown key without any change; otherwise the interface and the object are as `BlockKeeps` says. |
| LeaseEngine.NetInterface.NextFree | internal/dhcpsvc/interface.go:157-169 | Walking the range over the bit set finds the lowest free address. |
| LeaseEngine.NetInterface.FindExpiredLease | internal/dhcpsvc/interface.go:173-181 | The loop over the map finds what the function finds. |
| LeaseEngine.NetInterface.ReserveLease | internal/dhcpsvc/interface.go:229-265 | A fresh lease, a take-over, a refusal or a panic, as the function says. |
| LeaseEngine.NetInterface.AllocateLease | internal/dhcpsvc/interface.go:190-224 | The loop over reservations ends with the state and the lease the function gives. |
| LeaseEngine.AllocateByRounds | internal/dhcpsvc/interface.go:190-224 | The recursive description is the loop's rounds one after the other, at most two. |
| LeaseEngine.NetInterface.Apply | internal/dhcpsvc/server.go:309-405 | A lease call on its interface; a rejected one changes nothing. |
| DhcpService.Interface4.HandleRequest | internal/dhcpsvc/handler4.go:164-361 | State and reply are those of the function. |
| DhcpService.Interface4.Handle | internal/dhcpsvc/handler4.go:92-475 | State and reply are those of the function that `Handle4Keeps` is about. |
| DhcpService.FindIana | internal/dhcpsvc/v6.go:481-504 | The loop finds the first decodable option. |
| DhcpService.FindIanaAddr | internal/dhcpsvc/v6.go:424-454 | The loop finds the first decodable option with an address. |
| DhcpService.ConfirmAddrs | internal/dhcpsvc/v6.go:515-542 | Tells whether there are addresses and whether all of them, in all options, are on the link. |
| DhcpService.Interface6.CommitLease | internal/dhcpsvc/v6.go:852-887 | State and result are those of the function that `CommitKeeps` is about. |
| DhcpService.Interface6.Handle | internal/dhcpsvc/handler6.go:64-512 | State and reply are those of the function that `Handle6Keeps` is about. |
| DhcpService.Service.constructor | internal/dhcpsvc/server.go:70-143 | The new server is the loaded one of `RunsFromDatabase`, with every stored lease accounted for as `LoadedAll` says. |
| DhcpService.Service.Reset | internal/dhcpsvc/server.go:285-306 | Forgets all leases and both index maps; the bits stay set. |
| DhcpService.Service.Administer | internal/dhcpsvc/server.go:309-405 | A lease call on the first interface whose range contains the address. |
| DhcpService.Service.Run | internal/dhcpsvc/handler4.go:92-115 | Serving a sequence of events goes through exactly the states and replies that the run theorems speak about. |
| SortedMaps.BinarySearch | internal/aghalg/sortedmap.go:31-40 | Finds the first position not below the target, and whether the target is there, for every total order. |
| SortedMaps.AscendingUnique | internal/aghalg/sortedmap.go:82-92 | A set of keys has only one ascending sequence, so the order of a walk depends on the keys alone. |
| SortedMaps.FirstNotBelow | internal/aghalg/sortedmap.go:31-40 | The halving loop finds the first position that is not below the target. |
| SortedMaps.SortedMap.Set | internal/aghalg/sortedmap.go:31-40 | Stores the entry; keys stay strictly sorted and equal to the domain of the map. |
| SortedMaps.SortedMap.Get | internal/aghalg/sortedmap.go:43-53 | The stored value, if there is one. |
| SortedMaps.SortedMap.Del | internal/aghalg/sortedmap.go:56-68 | Removes the entry; keys stay strictly sorted and equal to the domain of the map. |
| SortedMaps.SortedMap.Clear | internal/aghalg/sortedmap.go:71-79 | Empties the map. |
| SortedMaps.SortedMap.Range | internal/aghalg/sortedmap.go:82-92 | Visits the entries in order, each once, up to the first refusal. |
| SortedMaps.RunOps | internal/aghalg/sortedmap.go:31-92 | After any sequence of operations it holds what a mathematical map would, with the sorted domain as its keys. |
| ClientIndex.SubnetOrder | internal/client/persistent.go:183-199 | The order of subnets is a strict total order consistent with equality. |
| ClientIndex.FirstIsLongest | internal/client/index.go:253-276 | In that order the first subnet containing an address is the longest one, of equally long ones that written with the lowest address. |
| ClientIndex.LookupIpRight | internal/client/index.go:253-276 | A lookup by address finds the owner of the address, otherwise of the longest subnet around it, of equally long ones that written with the lowest address, and nobody only if there is none, said in terms of the stored clients alone. |
| ClientIndex.NoSharedIdentifier | internal/client/index.go:67-93 | No identifier of any kind belongs to two stored clients. |
| ClientIndex.AddExact | internal/client/index.go:67-93 | Adding a client that clashes with nobody keeps all maps the exact inverse of the identifiers. |
| ClientIndex.RemoveExact | internal/client/index.go:331-352 | So does removing a stored client. |
| ClientIndex.Index.Add | internal/client/index.go:67-93 | The loops of add keep the index exact and store the client. |
| ClientIndex.Index.Remove | internal/client/index.go:331-352 | The loops of remove keep the index exact and remove the client. |
| ClientIndex.Index.Clashes | internal/client/index.go:107-138 | Reports a clash exactly if some identifier belongs to a client with another UID. |
| ClientIndex.Index.ClashesSubnet | internal/client/index.go:169-191 | The walk over the sorted map finds the same clashes as a lookup. |
| ClientIndex.Index.FindByIP | internal/client/index.go:253-276 | Finds what `LookupIpRight` is about. |
| ClientIndex.Index.FindByCIDR | internal/client/index.go:281-296 | Finds the owner of exactly that subnet. |
| Upstreams.FilterOutStrains | internal/client/upstreammanager.go:209-219 | The upstreams left are those that are neither empty nor comments, in the same order with the same repetitions. |
| Upstreams.FreshBuild | internal/client/upstreammanager.go:209-241 | Nothing is built exactly if every upstream is empty or a comment; otherwise the content has the client's upstreams without those, the client's cache switch and size, and the common settings. |
| Upstreams.UpstreamManager.UpdateCommon | internal/client/upstreammanager.go:95-98 | The cache is coherent afterwards exactly if no unchanged entry that already carries the new time has an object built with other common settings. |
| Upstreams.UpstreamManager.UpdateCustom | internal/client/upstreammanager.go:104-119 | Takes over the settings, marks them changed, touches no other entry and no object, and keeps the cache coherent. |
| Upstreams.UpstreamManager.Build | internal/client/upstreammanager.go:209-241 | A new object with the content of a fresh build, or none exactly if there is nothing to build. |
| Upstreams.UpstreamManager.Rebuild | internal/client/upstreammanager.go:138-155 | Replaces the object by a fresh build and closes the old one, keeping every object live once or closed once. |
| Upstreams.UpstreamManager.Custom | internal/client/upstreammanager.go:122-156 | Returns the cached object if it is up to date, closing and building nothing, and otherwise a fresh build, closing the old one; in a coherent cache both are a fresh build; no object is forgotten and no closing undone. |
| Upstreams.UpstreamManager.Remove | internal/client/upstreammanager.go:176-190 | Forgets the entry and closes its object, keeping the balance and the coherence. |
| Upstreams.UpstreamManager.Close | internal/client/upstreammanager.go:193-204 | Afterwards every object ever built has been closed exactly once, and what was closed stays closed. |
| ClientStorage.PathsAgree | internal/client/storage.go:533-563 | Find chooses the same client as the other two paths for every ClientID and address, the empty one included. |
| ClientStorage.SelectRight | internal/client/storage.go:734-751 | The selected client is the owner of the ClientID, otherwise of the address or a longest subnet, otherwise of the leased hardware address, otherwise nobody, said in terms of the stored clients alone. |
| ClientStorage.FindRight | internal/client/storage.go:533-563 | Find gives the owner of the ClientID, otherwise whom the address belongs to, otherwise the owner of exactly the subnet, otherwise of the hardware address, as far as given, said in terms of the stored clients alone. |
| ClientStorage.SelectStored | internal/client/storage.go:734-751 | Whoever is selected is stored. |
| ClientStorage.ClashIffShares | internal/client/index.go:107-138 | The maps report a clash exactly if the client shares an identifier with another stored one. |
| ClientStorage.NamedIs | internal/client/index.go:243-250 | The name map finds exactly the client of that name. |
| ClientStorage.Storage.Add | internal/client/storage.go:414-450 | Accepted exactly if valid, of a new UID and sharing no identifier with another stored client; then stored, otherwise nothing changes; index exact, cache coherent and in step with the clients. |
| ClientStorage.Storage.Update | internal/client/storage.go:636-670 | Accepted exactly if valid, a stored client has the name and no identifier is shared with another client; the client keeps its UID; otherwise nothing changes. |
| ClientStorage.Storage.RemoveByName | internal/client/storage.go:615-632 | Removes the client of that name and its configuration, or changes nothing. |
| ClientStorage.Storage.UpdateCommon | internal/client/storage.go:755-760 | At any time: the storage is coherent afterwards exactly if no entry that already carries the time was built with other common settings; a time recorded nowhere is enough. |
| ClientStorage.Storage.FindByIP | internal/client/storage.go:568-580 | The index first, then the leased hardware address. |
| ClientStorage.Storage.Find | internal/client/storage.go:533-563 | The flag-clearing loop tries the given parameters in turn and ends. |
| ClientStorage.Storage.SelectForUpstream | internal/client/storage.go:734-751 | Selects as specified by `SelectRight`. |
| ClientStorage.Storage.SelectForFiltering | internal/client/storage.go:774-791 | Selects the same client. |
| ClientStorage.Storage.CustomUpstreamConfig | internal/client/storage.go:734-751 | The configuration of the selected client is returned as cached if up to date and rebuilt otherwise; in a coherent storage it equals a fresh build from its current settings and the current common ones; no object is forgotten and no closing undone. |
| ClientStorage.Storage.Shutdown | internal/client/storage.go:220-224 | Every object ever built has been closed exactly once; none is forgotten. |
| ClientStorage.Storage.Apply | internal/client/storage.go:414-450 | One operation does and answers what the plain description says; no object is forgotten and no closing undone. |
| ClientStorage.Storage.Run | internal/client/storage.go:414-791 | So does every run whose common-settings updates read distinct times, from the stored clients and the settings of each moment; every object built stays recorded, live for one client or closed once. |
| ClientStorage.QueryAroundUpdate | internal/client/upstreammanager.go:160-162 | After an update that reads the time of the last one a client gets the same configuration as before, which is a fresh build exactly if there is nothing to build or the settings are the same. |
| ClientStorage.StaleAnswer | internal/client/upstreammanager.go:160-162 | Such an update with a stale answer. |
| FileWalker.HandlePatterns | internal/aghos/filewalker.go:57-83 | The new matches, each once; fails exactly if some pattern is malformed. |
| FileWalker.CheckFileIs | internal/aghos/filewalker.go:26-54 | What has vanished or is a directory is skipped; a check fails exactly if opening, examining, reading or closing does; only a file that was read has patterns or stops the walk. |
| FileWalker.Advances | internal/aghos/filewalker.go:103-122 | Appending the new matches to the list being walked keeps it duplicate-free, closed so far and minimal. |
| FileWalker.FinishedCloses | internal/aghos/filewalker.go:87-125 | A finished walk has visited a closed set. |
| FileWalker.Walk | internal/aghos/filewalker.go:87-125 | Ends on every finite file system, checks no path twice and only paths in every closed set; a finished walk has checked a closed set, hence the least one; it stops exactly at a file that asks for it, and fails exactly at a malformed initial pattern, a file that fails or a file with a malformed pattern. |
| FileWalker.WalkUndisturbed | internal/aghos/filewalker.go:87-125 | If some closed set holds nothing that stops or fails a walk, the walk finishes and has checked exactly the least closed set. |
| Sessions.Encode | internal/aghuser/sessionstorage.go:306-319 | Filling the buffer field by field gives the record the laws below are about. |
| Sessions.RecordReadsBackIff | internal/aghuser/sessionstorage.go:283-319 | A record reads back exactly if the login has at most 65535 octets and the expiry fits 32 bits; a longer login never decodes. |
| Sessions.DecodeIff | internal/aghuser/sessionstorage.go:283-303 | Exactly the octet strings of the length they name are records, and each is what would be written for what it holds. |
| Sessions.RecordLayout | internal/aghuser/sessionstorage.go:306-319 | The octets of a record: four of the expiry second and two of the length, most significant first, and then the login. |
| Sessions.UnixSecond | internal/aghuser/sessionstorage.go:313 | The second a moment falls into: not later than the moment, and less than a second before it. |
| Sessions.Scan | internal/aghuser/sessionstorage.go:196-268 | Loads exactly the records that decode, are not past their second and have a user, and marks all others for deletion. |
| Sessions.SessionStorage.constructor | internal/aghuser/sessionstorage.go:97-132 | Any database found gives a valid storage with the surviving sessions. |
| Sessions.SessionStorage.LoadSessions | internal/aghuser/sessionstorage.go:149-192 | Memory holds the surviving sessions and the database just their records. |
| Sessions.SessionStorage.Store | internal/aghuser/sessionstorage.go:325-376 | The first half of New: the record is written and memory unchanged; memory and database agree afterwards exactly if the token is not in memory and login and expiry fit the record. |
| Sessions.SessionStorage.Insert | internal/aghuser/sessionstorage.go:325-344 | The second half of New: the session is in memory. |
| Sessions.SessionStorage.DeleteByToken | internal/aghuser/sessionstorage.go:404-460 | The session is in neither memory nor database; the two agree afterwards exactly if the token is not one whose New has yet to put it into memory. |
| Sessions.SessionStorage.FindByToken | internal/aghuser/sessionstorage.go:380-400 | Returns the session if it is not expired, otherwise nothing, and deletes an expired one from memory and database. |
| Sessions.SessionStorage.Restart | internal/aghuser/sessionstorage.go:149-268 | Exactly the sessions not past their second whose login exists come back, with that second as expiry, those interrupted in New included. |
| Sessions.LoadableIs | internal/aghuser/sessionstorage.go:149-268 | Where memory and database agree, the records load into exactly the sessions a restart should leave. |
| Sessions.RestartKeepsIff | internal/aghuser/sessionstorage.go:225-268 | A restart leaves exactly the sessions of existing logins that are not past the whole second of their expiry. |
| Sessions.RestartNeverExtends | internal/aghuser/sessionstorage.go:225-268 | A restored session keeps its login, expires not later than before and less than a second earlier, and is not past. |
| Sessions.FoundInTime | internal/aghuser/sessionstorage.go:380-400 | In every run, before and after restarts, a lookup gives a session only of the login New made it for and never later than the expiry New gave it. |
| Sessions.SessionStorage.Run | internal/aghuser/sessionstorage.go:149-460 | In every run of allowed operations memory and database agree, the sessions are those of a plain description without a database, and every lookup gives the unexpired session of its moment or nothing, never later than the expiry New gave it. |
| Options4.Search | internal/dhcpsvc/options4.go:237-264 | Binary search by code finds the first position not below it and whether it is present. |
| Options4.Options | internal/dhcpsvc/options4.go:237-259 | Explicit options are strictly sorted with the last data per configured code; implicit ones are the sorted defaults without the configured codes. |
| Options4.AppendRequested | internal/dhcpsvc/options4.go:270-310 | The given options and requested defaults without the codes configured empty, then the explicit options with data. |
| Options4.PickedInOrder | internal/dhcpsvc/options4.go:270-291 | Defaults are picked in the order they are requested in. |
| Options4.ResponseContents | internal/dhcpsvc/options4.go:270-310 | A response has every requested remaining default, every explicit option with data, none of a code configured empty, and nothing else. |
| RuntimeClients.InfoIsHighest | internal/client/client.go:124-146 | Info is from the source of highest priority that has information, and from none exactly if the entry is empty. |
| RuntimeClients.EmptyIff | internal/client/client.go:194-200 | An entry is empty exactly if no source knows anything. |
| RuntimeClients.RuntimeIndex.SetInfo | internal/client/runtimeindex.go:42-52 | Changes what is known of that address from that source and nothing else; for WHOIS it changes nothing known, and leaves an empty entry exactly if there was none. |
| RuntimeClients.RuntimeIndex.ClearSource | internal/client/runtimeindex.go:55-59 | The source is known for no address, all others are unchanged. |
| RuntimeClients.RuntimeIndex.RemoveEmpty | internal/client/runtimeindex.go:63-72 | No empty entry remains, nothing known is lost, and the count is that of the removed entries. |
| RuntimeClients.RuntimeIndex.Refresh | internal/client/storage.go:312-387 | The source is known for exactly the addresses of the update, other sources are unchanged, no empty entry remains. |
| RuntimeClients.RuntimeIndex.RefreshArp | internal/client/storage.go:252-285 | The same for a non-empty ARP update; an empty one changes nothing. |
| RuntimeClients.RuntimeIndex.UpdateAddress | internal/client/storage.go:344-412 | Sets the reverse DNS name and, unless a persistent client owns the address, the WHOIS data, and nothing else. |
| RuntimeClients.RuntimeIndex.Run | internal/client/storage.go:252-412 | In every run of updates what is known is what a plain table would hold, and no empty entry remains. |

## Left out

- Packets: capturing, parsing and sending, the network layers, and the options of replies other than
  IA_NA and the merged DHCPv4 options.  Messages are records of the fields the handlers read, replies
  are outputs.  The table of default DHCPv4 options is a parameter, sorted with each code once.
- Writing the lease database and the bbolt transactions: both are taken to succeed.
- Mutexes and goroutines: each locked section is one step, and `New` of the session store is two.
- `strings.ToLower` is modelled on ASCII text.
- Host name validity, DUID decoding and the parsing of addresses, prefixes and hardware addresses are
  parameters or have already happened.
- IA_NA times are whole seconds of 32 bits; the truncation of other durations is not modelled.
- A panic of the address search ends the handler with nothing changed; that the server then recovers
  is outside the model.
- `dbStore` and `rangeLeases`, the lease listing and the lookups `HostByIP`, `MACByIP` and `IPByHost`
  would only add reads of the index.
- Declines.DeclinedNotReassigned: for runs of DHCPv6 messages and resets from a database without blocked
  or nameless leases, non-empty host names, clients without the all-zero hardware address, and clients
  that hold no address of the interface's range on another interface; `Blocks.DeclinedUntilUnblocked` has
  none of these restrictions but the hardware address, and names the events that unblock.
- DhcpServer.RunSoundIff: the index by name is not part of soundness, because DHCPv4 renames leave old
  names behind.
- Dhcp6.Handle6Keeps: the Advertise of a client without a committed lease is not indexed, so its offer
  is only of a held lease.
- ClientStorage.Storage.Run: common settings must have been given once before the first query, since
  the source dereferences them; built configurations are objects with their content, and their caches
  and `ClearUpstreamCache` are not modelled.
- Sessions.SessionStorage.Run: tokens are new, logins and expiries fit the record format, and no session is
  deleted between the halves of its `New`; `Store` and `DeleteByToken` say what happens otherwise.
- `FindLoose`, `ClientRuntime`, tags and the parsing of client identifiers.
- The walker's callback answers as a function of the path, and `fs.Glob` returns paths of the file
  system.
- The former DHCP server `internal/dhcpd`, configuration migration, TLS, ARP commands, DNS forwarding,
  filtering, HTTP handlers and the user interface.
