# dnsmasq 2.45: cache, DHCP, forwarding, name coding and TFTP

A model of the five parts of dnsmasq 2.45 that carry whole-state properties, and proofs of those
properties. `dafny verify dfyconfig.toml` verifies the project.

* **DNS cache** (`cache.c`). `CacheState` has the abstract state: records, the order of the LRU
  list, the contents of every hash chain, and the records of an open transaction.
  `CacheInvariant.Inv` says what holds in every reachable state: each pool record is in exactly
  one of LRU list and new_chain; a record of the LRU list is in use exactly if it is hashed; free
  records are at the end of the list; chains are ordered reverse, other, immortal, and each record
  is in the bucket of its folded name; no cached forward record clashes with a hosts or DHCP
  record; hosts records never expire; a CNAME that is not outdated points at a hashed record
  inserted later. `CacheSweep`, `CacheStays`, `CacheInsert`, `CacheCommit`, `CacheLookup`,
  `CacheByAddr`, `CacheTables`, `CacheFixed` and `CacheDhcp` have the operations as functions on
  that state, `CacheAnswers`, `CacheLookupTheorems` and `CacheEntries` what lookups answer,
  `CacheRun` the runs and `CacheStored` what a transaction stores. `CacheHeap.Cache` is the cache
  as C has it, records linked by `next`, `prev` and `hash_next`; its methods are proved to do to
  the abstract state what those functions say (`CacheLinks` and `CacheSteps` are about the pointer
  writes).
* **DHCP** (`lease.c`, `dhcp.c`, `rfc2131.c`). `LeaseTable` and `LeaseDb.LeaseStore` are the lease
  table and its script events, `LeaseEvents`, `LeaseRuns` and `LeaseTold` the table that a script
  builds from them; `LeaseText`, `LeaseFile` and `LeaseDirty` the lease file. `DhcpConfig` and
  `DhcpAllocate` choose addresses, `DhcpProtocol.Step` decides what one packet does;
  `DhcpClients`, `DhcpReplies`, `DhcpAnswers`, `DhcpBootp` and `DhcpNames` say what its answers
  mean, `DhcpSafety`, `DhcpAgreement`, `DhcpCases`, `DhcpRenewal` and `DhcpReload` are about runs
  of packets (sections 4.3.1 and 4.3.2 of RFC 2131). `DhcpOptions` and `DhcpReplyPacket` write and
  read options, with the overload into the file field (section 9.3 of RFC 2132).
* **Forwarding** (`forward.c`). `ForwardTable` and `ForwardQuery` have the forward records and
  reference-counted random sockets, `ForwardInvariant` and `ForwardRuns` the invariants and runs
  of queries and replies, `ForwardServers` which servers get a query, `ForwardStore.Forwarder` the
  loops.
* **DNS names and records** (`rfc1035.c`, `util.c`, `option.c`). `DnsName`, `DnsCompare`,
  `DnsEncode`, `DnsCrc` (with `CrcBits`), `DnsRecords` and `DnsReading` (sections 3.1, 4.1.3 and
  4.1.4 of RFC 1035), and `DomainSearch` and `DomainScan` for the compressed search list (section
  2 of RFC 3397).
* **TFTP** (`tftp.c`). `TftpBlocks`, `TftpTransfer` and `TftpRuns` (sections 2 and 6 of RFC 1350).

Time, packets, the results of pings, sends, opens and allocations, random numbers and the choice
of a free address by a ping come in as parameters, so every statement holds for all of them. The
hash of a name is an arbitrary function of the folded name; the number of buckets is the power of
two that rehash computes. Addresses are numbers below 2^32 where the code computes with them; the
block number of TFTP, the hash of a hardware address and the id and crc of a query have their
width; cache uids are unbounded.

## Model

| member | source | states |
|---|---|---|
| HostNames.HostnameIsEqual | http1.0/src/dnsmasq/dnsmasq-2.45/src/util.c:222-240 | The byte loop decides equality of two names with ASCII capitals folded, and nothing else: other bytes must agree exactly. |
| HostNames.NameEqMeans | http1.0/src/dnsmasq/dnsmasq-2.45/src/util.c:222-240 | Names equal in this sense have the same length and at every place the same character or the same letter in two cases. |
| CacheState.DropWf | http1.0/src/dnsmasq/dnsmasq-2.45/src/cache.c:173-220 | Taking an entry out of its chain and giving a pool record back leaves LRU, chains and new_chain disjoint and duplicate-free; only that entry is unhashed, and no record enters or leaves the LRU list. |
| CacheInvariant.DropInv | http1.0/src/dnsmasq/dnsmasq-2.45/src/cache.c:173-220 | Every removal of a hashed record keeps the whole invariant: chain order, in use exactly if hashed, free records at the end of the LRU list, no clash with hosts or DHCP names, sound CNAME pointers, and the number of long-name buffers. |
| CacheInvariant.DropGivesBack | http1.0/src/dnsmasq/dnsmasq-2.45/src/cache.c:173-220 | A removed pool record is free, at the tail of the list behind the others in their order, with a uid larger than any before it, so that no cached CNAME is taken to point at it any more; a hosts or DHCP record only leaves its chain; no other record changes. |
| CacheSweep.ScanForwardResult | http1.0/src/dnsmasq/dnsmasq-2.45/src/cache.c:271-295 | The bucket sweep fails exactly if a live hosts or DHCP record holds the name in the family (or a CNAME is involved); when it succeeds no expired and no superseded record is left in the bucket. |
| CacheStays.ScanForwardExact | http1.0/src/dnsmasq/dnsmasq-2.45/src/cache.c:271-295 | When the bucket sweep succeeds, exactly those entries are left that are neither expired nor superseded nor a CNAME whose target has been freed, or is freed in front of it by the same sweep. |
| CacheSweep.EarlyStopIsExact | http1.0/src/dnsmasq/dnsmasq-2.45/src/cache.c:296-328 | Because chains are ordered reverse, other, immortal, stopping at the first non-reverse immortal record leaves the chain as a scan of all its entries would. |
| CacheSweep.ScanAllIsExact | http1.0/src/dnsmasq/dnsmasq-2.45/src/cache.c:296-328 | The whole-cache sweep leaves in each chain exactly what complete scans would keep, in the old order. |
| CacheSweep.EvictionFreesTail | http1.0/src/dnsmasq/dnsmasq-2.45/src/cache.c:402-416 | Sweeping for the record at the tail of the LRU list always ends with a free record at the tail: no hosts or DHCP record can stop it, and the record matches itself. |
| CacheInsert.GrabTailTerminates | http1.0/src/dnsmasq/dnsmasq-2.45/src/cache.c:382-418 | The loop that brings a free record to the tail needs at most three passes, fails only for an empty pool, and never takes the way out meant for a tight loop. |
| CacheInsert.InsertInv | http1.0/src/dnsmasq/dnsmasq-2.45/src/cache.c:356-467 | cache_insert keeps the invariant of a transaction; it either puts one record with the given contents in front of new_chain or sets insert_error and adds nothing, and says which: refused for a name exactly if a hosts or DHCP record holds it, for want of records only if the pool is empty. |
| CacheCommit.StartInsertInv | http1.0/src/dnsmasq/dnsmasq-2.45/src/cache.c:341-354 | From every state, also after an abandoned transaction, cache_start_insert gives back all pending records and opens an empty transaction. |
| CacheCommit.CommitAllExact | http1.0/src/dnsmasq/dnsmasq-2.45/src/cache.c:470-490 | The commit loop hashes exactly those pending records that are no CNAME or whose chain of CNAME targets reaches one, and leaves all other hashed records as they were. |
| CacheCommit.EndInsertExact | http1.0/src/dnsmasq/dnsmasq-2.45/src/cache.c:470-490 | After an insertion error nothing is committed; otherwise new_chain is empty and exactly the records reaching a non-CNAME are hashed. |
| CacheCommit.CnamePathAcyclic | http1.0/src/dnsmasq/dnsmasq-2.45/src/cache.c:232-241 | Following the targets of hashed CNAMEs that are not outdated visits only hashed pool records, each inserted later than the one before: such a path never returns to a record. |
| CacheCommit.LinkInv | http1.0/src/dnsmasq/dnsmasq-2.45/src/rfc1035.c:755-760 | Pointing a pending CNAME at a record inserted after it keeps the invariant, the acyclicity of CNAME pointers included. |
| CacheLookup.LookLoopInv | http1.0/src/dnsmasq/dnsmasq-2.45/src/cache.c:505-562 | The loop of a first lookup, with its removals, promotions and moves in the chain, keeps the invariant. |
| CacheLookupTheorems.KeptExact | http1.0/src/dnsmasq/dnsmasq-2.45/src/cache.c:505-562 | The sweep of a lookup keeps exactly the live entries: not expired, and a CNAME only if its target has not been freed and, where that stands in front of it in the chain, is live too. |
| CacheLookupTheorems.LookupIsFilter | http1.0/src/dnsmasq/dnsmasq-2.45/src/cache.c:492-574 | The answers to a lookup by name are exactly the hashed records that are live and match name (whatever the case), F_FORWARD and protocol, each once, hosts and DHCP records first. |
| CacheLookupTheorems.LiveUnlessExpired | http1.0/src/dnsmasq/dnsmasq-2.45/src/cache.c:511-513 | For a record that is not a CNAME, live means not expired. |
| CacheLookupTheorems.LookupState | http1.0/src/dnsmasq/dnsmasq-2.45/src/cache.c:505-562 | What a lookup leaves: answers are the chained hosts records and then the head of the LRU list, the record behind them does not match, answered records are untouched, and the matches of the class of the first match have rotated left by one in the chain. |
| CacheByAddr.AddrLookupIsFilter | http1.0/src/dnsmasq/dnsmasq-2.45/src/cache.c:576-639 | The answers to a lookup by address are exactly the hashed reverse records with that address that have not expired, each once, hosts and DHCP records first; the record behind the last one does not match. |
| CacheTables.RehashInv | http1.0/src/dnsmasq/dnsmasq-2.45/src/cache.c:100-132 | Rehashing moves every record to the bucket of its folded name in class order, loses and adds none, and never shrinks the table. |
| CacheTables.TableSizeIs | http1.0/src/dnsmasq/dnsmasq-2.45/src/cache.c:103-103 | The new size is doubled just as often as it takes to reach a tenth of the records expected. |
| CacheFixed.AddFixedInv | http1.0/src/dnsmasq/dnsmasq-2.45/src/cache.c:641-683 | Hashing a new hosts or DHCP record whose name no cached record holds keeps the invariant and changes no other record. |
| CacheFixed.FlushInvariant | http1.0/src/dnsmasq/dnsmasq-2.45/src/cache.c:788-832 | After the flush of cache_reload only DHCP records are hashed and every pool record is free; no long-name buffer is lost. |
| CacheFixed.UnhashDhcpInv | http1.0/src/dnsmasq/dnsmasq-2.45/src/cache.c:834-849 | Taking all DHCP records out of the chains keeps the invariant. |
| CacheDhcp.AddDhcpInv | http1.0/src/dnsmasq/dnsmasq-2.45/src/cache.c:851-916 | cache_add_dhcp_entry keeps the invariant whatever it finds. It adds the record exactly if no hosts entry has the name in IPv4 and there is a record; that has the name and address of the lease, its end as expiry or is immortal, and answers reverse lookups exactly if no hosts or DHCP record maps the address back, and then it is the only one for it; no cached IPv4 or CNAME record of the name is left in use. |
| CacheEntries.LeaseIsAnswered | http1.0/src/dnsmasq/dnsmasq-2.45/src/cache.c:851-916 | From when its entry is added until the lease ends, a lookup of the name in any letter case answers with the address of the lease. |
| CacheEntries.LeaseIsOnlyName | http1.0/src/dnsmasq/dnsmasq-2.45/src/cache.c:851-916 | If the entry got the reverse mapping, a lookup of the address answers with it alone. |
| CacheEntries.HostIsAnswered | http1.0/src/dnsmasq/dnsmasq-2.45/src/cache.c:641-683 | From when a line of a hosts file is read, a lookup of the name answers with its address. |
| CacheEntries.KnownIsLeftOut | http1.0/src/dnsmasq/dnsmasq-2.45/src/cache.c:641-683 | The same line again is left out as long as no hosts or DHCP record has the name in the family with another address. |
| CacheDhcp.AddHostsInv | http1.0/src/dnsmasq/dnsmasq-2.45/src/cache.c:641-683 | A hosts entry read after the flush keeps the invariant. An entry is left out only if the hosts records have its name, address and family already; else the record has name, address and index of the entry, and answers reverse lookups exactly if no other hosts record does for the address. |
| CacheRun.TransactionIdle | http1.0/src/dnsmasq/dnsmasq-2.45/src/rfc1035.c:732-817 | A whole transaction (start, inserts, CNAME pointers, commit or abandonment) leads from a sound idle cache to a sound idle cache. |
| CacheStored.StoredIsAnswered | http1.0/src/dnsmasq/dnsmasq-2.45/src/rfc1035.c:616-823 | When a transaction without an insertion error has been committed, a lookup of a name inserted answers, until its time runs out, with a record that holds name, address, expiry and flags as they were inserted. |
| CacheStored.StoredAddrIsAnswered | http1.0/src/dnsmasq/dnsmasq-2.45/src/rfc1035.c:690-708 | The same for an address inserted for reverse lookups. |
| CacheStored.CnameLeads | http1.0/src/dnsmasq/dnsmasq-2.45/src/rfc1035.c:750-817 | A CNAME followed by what it stands for, for the same question, is hashed and points at the hashed record of that, which was not freed since. |
| CacheStored.NothingElse | http1.0/src/dnsmasq/dnsmasq-2.45/src/rfc1035.c:616-823 | Whatever is hashed after a transaction was hashed before, unchanged, or holds an item of it: nothing comes of one that was given up or met an error. |
| CacheRun.ReloadIdle | http1.0/src/dnsmasq/dnsmasq-2.45/src/cache.c:685-832 | cache_reload followed by any hosts entries, with the table enlarged between them, leads to a sound idle cache. |
| CacheRun.ReachableInv | http1.0/src/dnsmasq/dnsmasq-2.45/src/cache.c:70-94 | Every state reachable from cache_init by lookups, transactions, reloads, DHCP updates and rehashes satisfies the invariant, and long-name buffers always add up to a tenth of the cache size. |
| CacheHeap.Cache.constructor | http1.0/src/dnsmasq/dnsmasq-2.45/src/cache.c:70-94 | The record pool, linked one by one, and an empty table: the pointers agree with the initial abstract state, which satisfies the invariant. |
| CacheHeap.Cache.Unlink | http1.0/src/dnsmasq/dnsmasq-2.45/src/cache.c:209-220 | The pointer writes of cache_unlink take exactly the record out of the abstract LRU list. |
| CacheHeap.Cache.Link | http1.0/src/dnsmasq/dnsmasq-2.45/src/cache.c:197-206 | The pointer writes of cache_link put the record at the head of the abstract LRU list. |
| CacheHeap.Cache.Free | http1.0/src/dnsmasq/dnsmasq-2.45/src/cache.c:173-194 | The record goes to the tail of the LRU list, no longer in use, with a uid never used before; a long-name buffer goes to the free list. |
| CacheHeap.Cache.HashRec | http1.0/src/dnsmasq/dnsmasq-2.45/src/cache.c:151-171 | Walking the chain pointers inserts the record at the place its class asks for, and no other unhashed record is touched. |
| CacheHeap.Cache.CacheScanFree | http1.0/src/dnsmasq/dnsmasq-2.45/src/cache.c:254-331 | The pointer loops remove exactly the records the abstract sweep removes and return its verdict. |
| CacheHeap.Cache.GrabFree | http1.0/src/dnsmasq/dnsmasq-2.45/src/cache.c:382-418 | The loop over the tail of the list does what the abstract eviction does, and leaves a record at the tail when it says so. |
| CacheHeap.Cache.CacheInsertRecord | http1.0/src/dnsmasq/dnsmasq-2.45/src/cache.c:356-467 | cache_insert on records and pointers refines the abstract insertion, with its result. |
| CacheHeap.Cache.CacheStartInsert | http1.0/src/dnsmasq/dnsmasq-2.45/src/cache.c:341-354 | The walk over new_chain refines the abstract start of a transaction. |
| CacheHeap.Cache.CacheEndInsert | http1.0/src/dnsmasq/dnsmasq-2.45/src/cache.c:470-490 | The walk over new_chain refines the abstract commit. |
| CacheHeap.Cache.LookThrough | http1.0/src/dnsmasq/dnsmasq-2.45/src/cache.c:505-562 | The loop of a first lookup, with its pointers into the chain, refines the abstract loop, and leaves the hosts answers chained on next. |
| CacheHeap.Cache.FindFirst | http1.0/src/dnsmasq/dnsmasq-2.45/src/cache.c:492-574 | A first call returns the first answer and leaves next fields that lead through all answers to a record that is none. |
| CacheHeap.Cache.FindNext | http1.0/src/dnsmasq/dnsmasq-2.45/src/cache.c:496-497 | A call that goes on from answer j returns answer j + 1, or null behind the last. |
| CacheHeap.Cache.FindAll | http1.0/src/dnsmasq/dnsmasq-2.45/src/cache.c:492-574 | Asking until null collects exactly the answers of the filter over the plain record set, in order, and keeps the invariant. |
| CacheHeap.Cache.FindFirstAddr | http1.0/src/dnsmasq/dnsmasq-2.45/src/cache.c:576-639 | The same for a first lookup by address, over all chains. |
| CacheHeap.Cache.FindNextAddr | http1.0/src/dnsmasq/dnsmasq-2.45/src/cache.c:584-585 | The same for a lookup by address that goes on. |
| CacheHeap.Cache.Rehash | http1.0/src/dnsmasq/dnsmasq-2.45/src/cache.c:100-132 | Walking the old table while its records are hashed into the new one refines the abstract rehash: the chains still to be walked are not disturbed. |
| CacheHeap.Cache.LinkCname | http1.0/src/dnsmasq/dnsmasq-2.45/src/rfc1035.c:755-760 | Storing pointer and uid refines the abstract CNAME link. |
| CacheHeap.Cache.Transact | http1.0/src/dnsmasq/dnsmasq-2.45/src/rfc1035.c:640-817 | A whole transaction on pointers refines the abstract one and keeps the invariant. |
| LeaseEvents.PruneKeeps | http1.0/src/dnsmasq/dnsmasq-2.45/src/lease.c:265-290 | lease_prune keeps what relates the leases to the table a script has built from the events told so far. |
| LeaseRuns.EveryRun | http1.0/src/dnsmasq/dnsmasq-2.45/src/lease.c:265-573 | Over any run of lease operations and script calls: addresses and names of leases are distinct, leases and free slots add up to dhcp_max, the event log never names two addresses alike nor adds a known one, and each pruned lease has exactly one deletion, told or owed. |
| LeaseRuns.DrainedIsExact | http1.0/src/dnsmasq/dnsmasq-2.45/src/lease.c:505-573 | When do_script_run has nothing left to tell after the start-up rerun, replaying the log gives exactly the current table of address, hardware address and hostname, and all deletions have been told, once each. |
| LeaseRuns.EachCallTellsOne | http1.0/src/dnsmasq/dnsmasq-2.45/src/lease.c:505-573 | Each call of do_script_run that tells something leaves exactly one event fewer; it tells nothing exactly if none is left: draining ends. |
| LeaseRuns.AnnouncesLast | http1.0/src/dnsmasq/dnsmasq-2.45/src/lease.c:505-573 | No add or old event is told while a deletion or the loss of a hostname is pending. |
| LeaseTold.EveryRunTold | http1.0/src/dnsmasq/dnsmasq-2.45/src/lease.c:378-573 | Over any run, from the start-up rerun on: a lease that is neither new nor changed was announced to the script with its interface and hardware address, and with its end and client-id unless those changed after that. |
| LeaseDb.LeaseStore.LeasePrune | http1.0/src/dnsmasq/dnsmasq-2.45/src/lease.c:265-290 | The unlinking loop leaves the other leases in order, puts the pruned ones on old_leases last first, and accounts for slots and dirty flags. |
| LeaseDb.LeaseStore.LeaseFindByClient | http1.0/src/dnsmasq/dnsmasq-2.45/src/lease.c:293-313 | The two loops find the first lease with the client-id, else the first with the hardware address that no client-id sets apart. |
| LeaseTable.ByClientIs | http1.0/src/dnsmasq/dnsmasq-2.45/src/lease.c:293-313 | A client is known by the first lease with its client-id; by the first one with its hardware address, where either has no client-id, only if no lease has the client-id. |
| LeaseDb.LeaseStore.LeaseSetHwaddr | http1.0/src/dnsmasq/dnsmasq-2.45/src/lease.c:378-413 | Hardware address and client-id with their dirty and changed flags, also when memory for the client-id runs out. |
| LeaseDb.LeaseStore.LeaseSetHostname | http1.0/src/dnsmasq/dnsmasq-2.45/src/lease.c:415-481 | Taking a hostname from the lease that has it, unless that name is authoritative, with all flags and the lost name kept for the script. |
| LeaseDb.LeaseStore.RunScripts | http1.0/src/dnsmasq/dnsmasq-2.45/src/lease.c:505-573 | Calling do_script_run until it returns 0 tells as many events as were due and leaves none. |
| LeaseText.DecRoundTrip | http1.0/src/dnsmasq/dnsmasq-2.45/src/lease.c:188-188 | A number printed in decimal is read back. |
| LeaseText.QuadRoundTrip | http1.0/src/dnsmasq/dnsmasq-2.45/src/lease.c:76-76 | An address printed in dotted form is read back. |
| LeaseText.ParseHexInPlace | http1.0/src/dnsmasq/dnsmasq-2.45/src/util.c:306-347 | parse_hex, writing bytes into the text it reads, computes what parsing the original text gives: writing never overtakes reading. |
| LeaseText.HwParses | http1.0/src/dnsmasq/dnsmasq-2.45/src/util.c:306-347 | The text of a hardware address gives back its bytes and its type, except that type 0 with an address reads as no type. |
| LeaseFile.LeaseUpdateFile | http1.0/src/dnsmasq/dnsmasq-2.45/src/lease.c:169-221 | The writer puts out one line for each lease: the text the round trip is about. |
| LeaseFile.FieldsRoundTrip | http1.0/src/dnsmasq/dnsmasq-2.45/src/lease.c:67-112 | The five fields of a line give back the lease exactly unless it has an address of hardware type 0 or a single blank for a name; nothing else is changed then. |
| LeaseFile.SaveAndLoad | http1.0/src/dnsmasq/dnsmasq-2.45/src/lease.c:67-221 | The saved file reads as the same entries exactly if none of them has an address of type 0 or is named by a single blank; loading entries with distinct names gives the same leases in reverse order. |
| LeaseDirty.EveryRunUpToDate | http1.0/src/dnsmasq/dnsmasq-2.45/src/lease.c:169-262 | Over any run of lease operations and of writes that may fail: a table whose file_dirty is clear has the lines of the file last written, and one whose dns_dirty is clear the names last given to the DNS cache. |
| LeaseDirty.UpdateDoesIt | http1.0/src/dnsmasq/dnsmasq-2.45/src/lease.c:169-262 | A write that succeeds or was not needed leaves the lines of the table in the file and the flag clear; one that fails stays due; no lease changes. |
| DhcpReload.ServedLeasesReload | http1.0/src/dnsmasq/dnsmasq-2.45/src/rfc2131.c:104-1074 | After any run of packets of bytes, 32-bit addresses and canonicalised names, the leases can be saved, with distinct names, and the file reads as the same entries exactly if no client goes by a single blank. |
| DhcpReload.BlankNameLost | http1.0/src/dnsmasq/dnsmasq-2.45/src/lease.c:201-205 | Such a case: canonicalise lets " .x" pass, without its domain it is a blank, and the lease is read without a name. |
| DhcpConfig.AddressAvailable | http1.0/src/dnsmasq/dnsmasq-2.45/src/dhcp.c:425-453 | The two loops: not the router of the first context, and in a tag-matching range that is not static. |
| DhcpConfig.NarrowFails | http1.0/src/dnsmasq/dnsmasq-2.45/src/dhcp.c:455-487 | narrow_context finds nothing exactly if the address is neither available nor on the network of any context. |
| DhcpConfig.MatchNetidLoop | http1.0/src/dnsmasq/dnsmasq-2.45/src/dhcp.c:502-525 | The loop decides whether all tags of the list are present, negated tags absent. |
| DhcpConfig.CheckDhcpHosts | http1.0/src/dnsmasq/dnsmasq-2.45/src/dhcp.c:828-866 | Of the host configurations with one address only the last keeps it: afterwards reservations are unique; names lose their domain, or go if it is not the domain of the server; hosts without an address are passed over when configuration is read again; at the start any fault makes the server give up. |
| DhcpConfig.AlienNamesGo | http1.0/src/dnsmasq/dnsmasq-2.45/src/dhcp.c:841-863 | After the check a host keeps a name with another domain exactly if configuration was read again and a host without an address had one: the flag tested has the value of the one for an address. |
| DhcpConfig.AlienNameStays | http1.0/src/dnsmasq/dnsmasq-2.45/src/dhcp.c:841-841 | Such a case: a host "x.alien" with a hardware address only, where the domain is "home". |
| DhcpConfig.MemcmpMasked | http1.0/src/dnsmasq/dnsmasq-2.45/src/util.c:349-357 | The masked comparison of hardware addresses: the lowest bit of the mask belongs to the last byte. |
| DhcpClients.HostIs | http1.0/src/dnsmasq/dnsmasq-2.45/src/dhcp.c:625-711 | The host configuration for a client is the first with its client-id (or that behind a zero byte), or else with its hardware address, or else with its name, or else the first whose pattern, a bit mask for the bytes, fits; hosts with an address off all networks do not count. |
| DhcpClients.HostOfClient | http1.0/src/dnsmasq/dnsmasq-2.45/src/rfc2131.c:330-533 | The host configuration of a client is found by its client-id (that of the packet, or else the one in its lease) or its hardware address; only when there is none may the name it gives itself lead to one, exactly if the first host of that name has neither. |
| DhcpClients.TagsAre | http1.0/src/dnsmasq/dnsmasq-2.45/src/rfc2131.c:333-343 | A client has the tags of its packet, "known" if it has a host configuration, and the tag of that. |
| DhcpClients.BootpTagsAre | http1.0/src/dnsmasq/dnsmasq-2.45/src/rfc2131.c:361-384 | A BOOTP client has the same, the name of the boot file it asks for, and "bootp". |
| DhcpClients.SameNetMeans | http1.0/src/dnsmasq/dnsmasq-2.45/src/util.c:257-260 | Two addresses are on the same network exactly if they agree in the bits where the netmask has a one. |
| DhcpClients.DomainOf | http1.0/src/dnsmasq/dnsmasq-2.45/src/dhcp.c:939-951 | A name loses what is behind its first dot; that is an alien domain exactly if it is there and is not, up to letter case, the domain of the server. |
| DhcpClients.IgnoredIsSilent | http1.0/src/dnsmasq/dnsmasq-2.45/src/rfc2131.c:629-697 | A client whose host configuration is disabled, or all of whose tags named in a dhcp-ignore line are there (those behind a # not), gets no offer, no ACK and no NAK; it can only give an address up. |
| DhcpClients.NoUniqueIdIs | http1.0/src/dnsmasq/dnsmasq-2.45/src/rfc2131.c:1076-1108 | A client has no unique id exactly if it has no hardware address and a client-id of three bytes or fewer. |
| DhcpAllocate.HashHwaddr | http1.0/src/dnsmasq/dnsmasq-2.45/src/dhcp.c:538-539 | The hash of the client address modulo 2^32. |
| DhcpAllocate.SumJoin | http1.0/src/dnsmasq/dnsmasq-2.45/src/dhcp.c:538-539 | The sum that is hashed does not depend on the order of the bytes. |
| DhcpAllocate.CountIs | http1.0/src/dnsmasq/dnsmasq-2.45/src/dhcp.c:582-586 | The pings that count against the limit are those of the last 30 seconds. |
| DhcpAllocate.Allocator.AddressAllocate | http1.0/src/dnsmasq/dnsmasq-2.45/src/dhcp.c:527-623 | Terminates; an address returned lies in a tag-matching, non-static range, is no router, not leased and not reserved; none is returned only if every address of every eligible range is excluded or answered a ping. Whatever is returned did not answer: it was pinged now, or is known to be silent, unless pings are off or too many were sent lately; a silent one is noted and counted, and what is known of others is not forgotten. Ranges are tried in their order, those for the tags of the client first, each once round from where the hash of the client and the epoch point, so that the first free address there is taken. For any hash, epoch and end of range, 255.255.255.255 included. |
| DhcpSafety.StepSafe | http1.0/src/dnsmasq/dnsmasq-2.45/src/rfc2131.c:104-1074 | One packet keeps the lease table sound, and an ACK names an address that was free or the client’s own and is bound to the client afterwards, on the interface it came from, until the time granted. |
| DhcpSafety.StepBinds | http1.0/src/dnsmasq/dnsmasq-2.45/src/rfc2131.c:779-1014 | A lease that still runs survives every packet of a client that cannot be taken for its owner, and its address is not granted to it. |
| DhcpAnswers.GrantedTime | http1.0/src/dnsmasq/dnsmasq-2.45/src/rfc2131.c:1111-1125 | Every address offered or ACKed is granted for the time of the host configuration if that sets one, else of the context for the address: less only if less was asked for, but not under two minutes, and never longer unless there is no limit. The context is the one that fits the address first. |
| DhcpReplies.OfferExact | http1.0/src/dnsmasq/dnsmasq-2.45/src/rfc2131.c:694-771 | A DISCOVER is answered with an offer exactly if the client is not to be ignored and there is an address for it with a context that can take it: the one reserved for it, or else its lease, or else the one asked for, or else a free one. |
| DhcpReplies.RequestAnswered | http1.0/src/dnsmasq/dnsmasq-2.45/src/rfc2131.c:779-1014 | A REQUEST is ACKed exactly if it is for this server and nothing speaks against the address; a NAK gives a reason that is true of the address. |
| DhcpReplies.InformAnswered | http1.0/src/dnsmasq/dnsmasq-2.45/src/rfc2131.c:1016-1070 | An INFORM is answered exactly if the client is not ignored and has an address on one of the networks; no lease is made. |
| DhcpAnswers.ReleaseEnds | http1.0/src/dnsmasq/dnsmasq-2.45/src/rfc2131.c:679-692 | A RELEASE ends the lease on its address exactly if it comes from the owner and names this server; no other lease changes. |
| DhcpAnswers.DeclineEnds | http1.0/src/dnsmasq/dnsmasq-2.45/src/rfc2131.c:647-677 | A DECLINE to this server ends the client’s lease on the address and notes the time if the address is reserved for it; nothing else changes. |
| DhcpAnswers.DeclinedRests | http1.0/src/dnsmasq/dnsmasq-2.45/src/rfc2131.c:694-771 | A reserved address that was declined is offered to nobody for ten minutes. |
| DhcpAnswers.DeclinedReturns | http1.0/src/dnsmasq/dnsmasq-2.45/src/rfc2131.c:694-771 | Then the client it is reserved for is offered it again. |
| DhcpBootp.BootpAnswered | http1.0/src/dnsmasq/dnsmasq-2.45/src/rfc2131.c:346-457 | A BOOTP request is answered exactly if there is an address for the client (its reservation if no other client has a lease on that, or else its present lease as long as a range has it, or else a free address where such clients are served), a lease for it and a context; the client then has a lease on it that ends only if its host configuration says so. |
| DhcpNames.HostnameRenames | http1.0/src/dnsmasq/dnsmasq-2.45/src/lease.c:415-481 | A name goes to the lease unless a lease has it from configuration and this is only the client’s wish; whoever had it loses it, and what was lost is kept for the script. |
| DhcpNames.CommitNames | http1.0/src/dnsmasq/dnsmasq-2.45/src/rfc2131.c:944-1003 | An ACK gives the lease the name that is for it: from the host configuration, or the hosts file, or the client, unless names of such clients are ignored. |
| DhcpSafety.EveryRunSafe | http1.0/src/dnsmasq/dnsmasq-2.45/src/rfc2131.c:104-1074 | Over any run of packets addresses and names of leases stay distinct and leases plus free slots equal dhcp_max. |
| DhcpSafety.LeaseIsExclusive | http1.0/src/dnsmasq/dnsmasq-2.45/src/rfc2131.c:779-1014 | Over any run of packets from others, while the lease runs, it stays and its address is never offered, ACKed or given to a BOOTP client. |
| DhcpAgreement.DiscoverThenRequest | http1.0/src/dnsmasq/dnsmasq-2.45/src/rfc2131.c:694-904 | A REQUEST for the offered address with no packet in between is ACKed exactly if the client, as identified then, is not ignored, the address still fits its tags or reservation and is not reserved for another host, and it has an identity and a slot; the address is never leased to another. As long as the same host configuration is found for the client it is not ignored and fits. (All contexts of a packet have one router.) |
| DhcpAgreement.OfferIsKept | http1.0/src/dnsmasq/dnsmasq-2.45/src/rfc2131.c:694-904 | If the packets carry a client-id, or the lease found stores the same one as before, the REQUEST is ACKed or NAKed, and ACKed exactly unless the address is reserved for another host, the client has no identity, or no slot is left. |
| DhcpCases.ForgottenOffer | http1.0/src/dnsmasq/dnsmasq-2.45/src/rfc2131.c:233-241 | Where this fails: a client without client-id is offered the address reserved for the client-id its lease stores; once the lease has run out the REQUEST is refused. |
| DhcpAgreement.ReservedOnlyByLease | http1.0/src/dnsmasq/dnsmasq-2.45/src/rfc2131.c:694-777 | With unique reservations an offered address is reserved for another host only if the client has a lease on it already. |
| DhcpCases.ReservedOffer | http1.0/src/dnsmasq/dnsmasq-2.45/src/rfc2131.c:694-904 | Such a case: the present lease is offered, and the REQUEST for it refused because another host has it reserved. |
| DhcpAgreement.StaticNakThenOffer | http1.0/src/dnsmasq/dnsmasq-2.45/src/rfc2131.c:875-885 | After a NAK because a static lease is available, the next DISCOVER of the client is answered with an offer of that static address if it is found to have the same host configuration; 0.0.0.0 counts as no reservation. |
| DhcpAgreement.StaticNakThenOfferExact | http1.0/src/dnsmasq/dnsmasq-2.45/src/rfc2131.c:875-885 | With unique reservations, only then. |
| DhcpCases.ForgottenReservation | http1.0/src/dnsmasq/dnsmasq-2.45/src/rfc2131.c:875-885 | Where it is not: a renewing client without client-id, whose lease stores one and runs out before the DISCOVER, is offered another address. |
| DhcpAgreement.ReservedOfferAcked | http1.0/src/dnsmasq/dnsmasq-2.45/src/rfc2131.c:694-904 | An offer of the client’s own reservation is ACKed exactly if the same host configuration is found for it again, and it has an identity and a slot. |
| DhcpAgreement.StaticNakConverges | http1.0/src/dnsmasq/dnsmasq-2.45/src/rfc2131.c:694-1014 | NAK, DISCOVER and REQUEST end in a lease on the reserved address exactly if both later packets are found to come from the same host, which has an identity and a slot: then there is no endless loop. |
| DhcpAgreement.RememberedKeepsConfig | http1.0/src/dnsmasq/dnsmasq-2.45/src/rfc2131.c:233-241 | That is so whenever the packets carry a client-id, or the lease found stores the same one as before. |
| DhcpRenewal.StepFound | http1.0/src/dnsmasq/dnsmasq-2.45/src/rfc2131.c:779-1014 | Every packet keeps client-ids of leases distinct; after an ACK the lookup of the same client finds the lease it was given, exactly unless that is a new one for a client that has no hardware address and whose client-id is not to be stored. |
| DhcpCases.NotFoundAgain | http1.0/src/dnsmasq/dnsmasq-2.45/src/rfc2131.c:779-1014 | Such a case: a firewire client with client-id 1 2 3 4 and a host configuration that ignores client-ids gets address 1 and is unknown afterwards. |
| DhcpRenewal.EveryRunClids | http1.0/src/dnsmasq/dnsmasq-2.45/src/rfc2131.c:104-1074 | Client-ids of leases stay distinct over any run of packets. |
| DhcpOptions.PutBounds | http1.0/src/dnsmasq/dnsmasq-2.45/src/rfc2131.c:1344-1404 | A put stays inside the options area and the file field exactly if the option fits or an overload option still has room; with the reserve taken that room is never used up. |
| DhcpOptions.RunInside | http1.0/src/dnsmasq/dnsmasq-2.45/src/rfc2131.c:1655-1658 | Once three bytes are kept back for the overload option, every run of puts stays inside the bounds. |
| DhcpOptions.ReplyInside | http1.0/src/dnsmasq/dnsmasq-2.45/src/rfc2131.c:1530-1852 | A whole reply stays inside its bounds exactly if the file field is in use or the options put before the reserve, up to the first that does not fit, leave four bytes. |
| DhcpOptions.BootFileReply | http1.0/src/dnsmasq/dnsmasq-2.45/src/rfc2131.c:1599-1605 | For a client that asks for the boot file name as an option the bounds are kept exactly unless the name has one of two lengths. |
| DhcpOptions.BootFileTooLong | http1.0/src/dnsmasq/dnsmasq-2.45/src/rfc2131.c:1599-1658 | Such a case: a name of 175 characters behind a relay whose agent option has 98 bytes. |
| DhcpOptions.OptionFind1 | http1.0/src/dnsmasq/dnsmasq-2.45/src/rfc2131.c:1193-1216 | The reader’s loop, for any bytes: it ends, stays inside, and gives the place of an option that fits. |
| DhcpOptions.FindsFirst | http1.0/src/dnsmasq/dnsmasq-2.45/src/rfc2131.c:1193-1216 | In a finished region the reader finds the first option with the code and size asked for, with its value, and nothing if there is none. |
| DhcpOptions.AllAcceptedAreFound | http1.0/src/dnsmasq/dnsmasq-2.45/src/rfc2131.c:1218-1414 | For any reply of options with different codes, each option that found a place, in the options area or the file field, is found by option_find with its own value. |
| DhcpOptions.UintOfBigEndian | http1.0/src/dnsmasq/dnsmasq-2.45/src/rfc2131.c:1254-1265 | A number written by option_put is read back by option_uint. |
| DhcpReplyPacket.Reply.PutOption | http1.0/src/dnsmasq/dnsmasq-2.45/src/rfc2131.c:1344-1404 | free_space on the byte arrays does what the abstract put does and says where the option went. |
| DhcpReplyPacket.Reply.PutLater | http1.0/src/dnsmasq/dnsmasq-2.45/src/rfc2131.c:1660-1850 | Any options put behind the reserve stay inside the bounds. |
| DhcpReplyPacket.Reply.OptionPut | http1.0/src/dnsmasq/dnsmasq-2.45/src/rfc2131.c:1406-1414 | The bytes put are those option_uint reads as the number. |
| DhcpReplyPacket.Reply.PacketSize | http1.0/src/dnsmasq/dnsmasq-2.45/src/rfc2131.c:1288-1342 | After dhcp_packet_size both regions are options, an end marker and nothing the reader looks at; the size is that of header and options, but at least 300. |
| ForwardInvariant.AllocateRfdAt | http1.0/src/dnsmasq/dnsmasq-2.45/src/forward.c:805-834 | A random socket handed out has the family asked for and one user more, at most 0xffff; it is the first unused one that opens if there is one, and else one that is shared in turn; no other socket changes. |
| ForwardInvariant.FreeFrecAt | http1.0/src/dnsmasq/dnsmasq-2.45/src/forward.c:836-847 | Giving up a record leaves each socket with the users that other records are, and open exactly if it was and any is left. |
| ForwardInvariant.AllocateRfdOpen | http1.0/src/dnsmasq/dnsmasq-2.45/src/forward.c:805-834 | The socket handed out is open exactly if an unused one can be opened or the next one to share, round from the finger, is open. |
| ForwardInvariant.ClosedSocketHandedOut | http1.0/src/dnsmasq/dnsmasq-2.45/src/forward.c:822-831 | Two queries suffice for a closed socket to be handed out, when no socket can be opened for the second. |
| ForwardInvariant.AllocateRfdNone | http1.0/src/dnsmasq/dnsmasq-2.45/src/forward.c:805-834 | Nothing is handed out only if no unused socket opens and none can be shared. |
| ForwardRuns.GetNewFrecSafe | http1.0/src/dnsmasq/dnsmasq-2.45/src/forward.c:854-908 | get_new_frec keeps all invariants of the table, its limit of ftabsize + 1 records included; without wait the record is inactive. |
| ForwardRuns.EvictsOnlyOld | http1.0/src/dnsmasq/dnsmasq-2.45/src/forward.c:854-908 | A record younger than TIMEOUT is never ended by get_new_frec. |
| ForwardRuns.EndsExactly | http1.0/src/dnsmasq/dnsmasq-2.45/src/forward.c:854-908 | get_new_frec ends exactly those records that have waited for forty seconds, and if all are in use the one that has waited longest, after ten seconds, or after twenty where the table can grow. |
| ForwardRuns.WaitIs | http1.0/src/dnsmasq/dnsmasq-2.45/src/forward.c:854-908 | The delay reported when there is no record is the time until the longest wait is ten seconds, or one second if only memory is short. |
| ForwardRuns.NoRecordMeansBusy | http1.0/src/dnsmasq/dnsmasq-2.45/src/forward.c:854-908 | No record is returned only if all are in use and young and the table is full or memory short. |
| ForwardRuns.GetIdFrees | http1.0/src/dnsmasq/dnsmasq-2.45/src/forward.c:950-965 | After get_id no active record answers to the id and a known crc. |
| ForwardRuns.GetIdExact | http1.0/src/dnsmasq/dnsmasq-2.45/src/forward.c:950-965 | For forced ids this holds exactly unless a second record has the id; that takes a crc of all ones. |
| ForwardRuns.ForcedIdStays | http1.0/src/dnsmasq/dnsmasq-2.45/src/forward.c:950-965 | Such a case: of two records with id 7, one with that checksum, the other is freed. |
| ForwardRuns.FreeIdExists | http1.0/src/dnsmasq/dnsmasq-2.45/src/forward.c:950-965 | The random search for an id has something to find while the table has fewer than 65536 records. |
| ForwardRuns.OnQueryKeeps | http1.0/src/dnsmasq/dnsmasq-2.45/src/forward.c:185-323 | A client query, new or retried, keeps all invariants. |
| ForwardServers.SendExact | http1.0/src/dnsmasq/dnsmasq-2.45/src/forward.c:253-306 | A query goes to servers that are of the kind asked for, have an address, can be reached and, for a domain, have that domain up to letter case: to the first such server round from the start, or in a burst to all of them in their order, until one needs a socket and there is none. |
| ForwardServers.NewQueryGoes | http1.0/src/dnsmasq/dnsmasq-2.45/src/forward.c:217-306 | A new query that is sent goes to such a server, from the one known to work or, for particular servers, in strict order or when none is known, from the first on; it is a burst exactly if none is known, order does not matter and it is for no particular servers. |
| ForwardServers.RetryGoes | http1.0/src/dnsmasq/dnsmasq-2.45/src/forward.c:198-216 | The same question again goes on behind the server it went to last, to servers of the same kind and domain: to all of them, or to the next one only if order matters. |
| ForwardServers.QueryTaken | http1.0/src/dnsmasq/dnsmasq-2.45/src/forward.c:185-323 | forward_query says yes only if the table awaits an answer to the question, and no only if no use of a record has begun; a query answered here leaves the table as it was. |
| ForwardServers.ReplyRemembers | http1.0/src/dnsmasq/dnsmasq-2.45/src/forward.c:442-482 | A good answer makes its server the one known to work, an error forgets it; servers for particular domains and servers of which all are asked anyway are not remembered. |
| ForwardServers.ReplyEnds | http1.0/src/dnsmasq/dnsmasq-2.45/src/forward.c:442-499 | A good answer, or any answer when one server was asked, ends the wait for the record it fits and goes to the client if anything is left of it; an error that can be asked elsewhere is not passed on. |
| ForwardRuns.RemovedIsGone | http1.0/src/dnsmasq/dnsmasq-2.45/src/forward.c:932-943 | A server that goes is in the list no more, no record waits for it, and it is not the one known to work. |
| ForwardRuns.OnReplyKeeps | http1.0/src/dnsmasq/dnsmasq-2.45/src/forward.c:409-499 | A server reply keeps all invariants and relays at most one answer: to the client of the record it fits, with its original id, and that record is then free. |
| ForwardRuns.EveryRun | http1.0/src/dnsmasq/dnsmasq-2.45/src/forward.c:185-499 | Over any run of queries, replies and changes of the server list: ids and crcs of active records are distinct, every socket’s users are counted, each answer goes to the client that asked, under its own id, and no query is answered twice. |
| ForwardRuns.ReplyFitsOne | http1.0/src/dnsmasq/dnsmasq-2.45/src/forward.c:911-919 | A reply with a known crc fits the one record its query made. |
| ForwardRuns.BurstCounts | http1.0/src/dnsmasq/dnsmasq-2.45/src/forward.c:253-306 | A query sent to n servers at once leaves a countdown of n + 1. |
| ForwardRuns.ErrorsKeptBack | http1.0/src/dnsmasq/dnsmasq-2.45/src/forward.c:463-495 | Of the errors from the n servers of a burst the first n - 1 are kept back and the n-th is passed on, once. |
| ForwardStore.Forwarder.AllocateRandomSock | http1.0/src/dnsmasq/dnsmasq-2.45/src/forward.c:805-834 | The two loops over the socket table do what the abstract allocation does. |
| ForwardStore.Forwarder.Search | http1.0/src/dnsmasq/dnsmasq-2.45/src/forward.c:861-873 | The search loop frees stale records on the way and finds the free and the oldest one. |
| ForwardStore.Forwarder.NewId | http1.0/src/dnsmasq/dnsmasq-2.45/src/forward.c:950-965 | Drawing random ids until one is unused. |
| ForwardStore.Forwarder.SendLoop | http1.0/src/dnsmasq/dnsmasq-2.45/src/forward.c:253-306 | The loop round the server list sends to the servers the abstract loop sends to, taking sockets as it goes. |
| DnsName.ExtractName | http1.0/src/dnsmasq/dnsmasq-2.45/src/rfc1035.c:24-155 | extract_name always ends and reads exactly the labels a recursive reading with at most 255 pointers gives, with the cursor behind the first pointer. |
| DnsCompare.CompareName | http1.0/src/dnsmasq/dnsmasq-2.45/src/rfc1035.c:24-155 | Whenever a name can be extracted, compare mode succeeds with the same cursor and says whether the labels match. |
| DnsCompare.CompareIsEquality | http1.0/src/dnsmasq/dnsmasq-2.45/src/rfc1035.c:24-155 | Compare mode answers 1 exactly if the extracted name is equal up to case, for every given name without a final dot; with one, it also takes the name plus that dot. |
| DnsCompare.FinalDotPasses | http1.0/src/dnsmasq/dnsmasq-2.45/src/rfc1035.c:125-147 | Such a case: "a." is taken for "a". |
| DnsCompare.SkipAgrees | http1.0/src/dnsmasq/dnsmasq-2.45/src/rfc1035.c:264-307 | skip_name leaves the cursor where reading the name leaves it; only it refuses to start at the very end of the packet. |
| DnsCompare.SkipIs | http1.0/src/dnsmasq/dnsmasq-2.45/src/rfc1035.c:264-307 | skip_name gives the end of the labels from its start on, texts and bit strings, up to a zero or a pointer, and nothing exactly if they do not end in the packet. |
| DnsCompare.HopLimit | http1.0/src/dnsmasq/dnsmasq-2.45/src/rfc1035.c:51-53 | As many as 255 pointers are followed to the end of a name, and no more. |
| DnsEncode.DoRfc1035Name | http1.0/src/dnsmasq/dnsmasq-2.45/src/util.c:144-158 | The writer’s loop puts length and text of each label and touches no other byte. |
| DnsEncode.CanonicalLabels | http1.0/src/dnsmasq/dnsmasq-2.45/src/util.c:115-142 | What canonicalise lets through has legal labels of at most 63 characters. |
| DnsEncode.RoundTrip | http1.0/src/dnsmasq/dnsmasq-2.45/src/rfc1035.c:24-155 | A name written by do_rfc1035_name and read by extract_name comes back, less a final dot, exactly if it has no empty label and at most 1023 characters without that dot; canonicalise lets 1025 pass. |
| DnsEncode.EmptyLabelEndsName | http1.0/src/dnsmasq/dnsmasq-2.45/src/util.c:115-158 | Such a case: canonicalise lets "a..b" pass, and it is read as "a". |
| DnsCrc.QuestionsCrc | http1.0/src/dnsmasq/dnsmasq-2.45/src/rfc1035.c:350-389 | The loops compute the checksum of the folded names, types and classes of the questions that can be read. |
| DnsCrc.CrcIsCanonical | http1.0/src/dnsmasq/dnsmasq-2.45/src/rfc1035.c:350-389 | Two packets whose questions have the same labels up to case have the same checksum, whatever is compressed in either. |
| DnsCrc.OneByteShows | http1.0/src/dnsmasq/dnsmasq-2.45/src/rfc1035.c:350-389 | Changing one byte of what is summed changes the checksum: a step is injective in the byte and in the checksum so far. |
| DnsCrc.PointerIsTransparent | http1.0/src/dnsmasq/dnsmasq-2.45/src/rfc1035.c:24-155 | A name that is a pointer is extracted as the name it points at. |
| DnsRecords.AddResourceRecord | http1.0/src/dnsmasq/dnsmasq-2.45/src/rfc1035.c:983-1074 | The record’s bytes, or nothing: a record that does not fit, or follows a truncation, leaves packet and cursor as they were. |
| DnsReading.WrittenIsRead | http1.0/src/dnsmasq/dnsmasq-2.45/src/rfc1035.c:983-1074 | A reader (numbers highest byte first) gets from a record that was added the name offset modulo 2^14, type and class modulo 2^16, the TTL modulo 2^32, and from the data every item: addresses, numbers, names, and text with its length. |
| DnsReading.ReplyReads | http1.0/src/dnsmasq/dnsmasq-2.45/src/rfc1035.c:983-1074 | The same for each record of a run of additions: skipping those before it leads to it. |
| DnsRecords.RunSkips | http1.0/src/dnsmasq/dnsmasq-2.45/src/rfc1035.c:326-342 | After any run of additions, skipping as many records as were added ends exactly at the cursor, which never passes the limit. |
| DnsRecords.ReplySkips | http1.0/src/dnsmasq/dnsmasq-2.45/src/rfc1035.c:309-342 | For a reply built behind a query: skip_questions and then skip_section over the records added end exactly at the cursor, within the limit. |
| DnsRecords.TruncationIsFinal | http1.0/src/dnsmasq/dnsmasq-2.45/src/rfc1035.c:983-1074 | After a truncation no later record that reports truncation is added. |
| DnsReading.WhichAdded | http1.0/src/dnsmasq/dnsmasq-2.45/src/rfc1035.c:983-1074 | A record is added exactly if there is room for it, unless it reports truncation and the answer is truncated already; what is added stands behind what was there. |
| DnsReading.TruncatedMeans | http1.0/src/dnsmasq/dnsmasq-2.45/src/rfc1035.c:983-1074 | An answer is truncated exactly if there was no room for a record that reports it. |
| DnsReading.SkipQuestionsIs | http1.0/src/dnsmasq/dnsmasq-2.45/src/rfc1035.c:309-324 | skip_questions gives the end of the questions, each a name and four bytes, and nothing exactly if they are not all in the packet. |
| DomainSearch.AppendDomain | http1.0/src/dnsmasq/dnsmasq-2.45/src/option.c:848-885 | The encoder for one name: written in full, then cut where an earlier copy of a tail was hit. |
| DomainSearch.AddNameDecodes | http1.0/src/dnsmasq/dnsmasq-2.45/src/option.c:848-885 | Whatever the scan hits upon, even inside a label, the compressed bytes decode to the old names and the new one. |
| DomainScan.LongestTail | http1.0/src/dnsmasq/dnsmasq-2.45/src/option.c:866-885 | A name is written with its longest tail that the scan meets as a pointer to where it is met first, or in full if none is. |
| DomainSearch.CompressionKeepsMeaning | http1.0/src/dnsmasq/dnsmasq-2.45/src/option.c:836-890 | A list of at most 255 bytes decodes to the names it was made from, in order, exactly if no name has an empty label. |
| DomainSearch.EmptyLabelInList | http1.0/src/dnsmasq/dnsmasq-2.45/src/option.c:836-890 | Such a case: the list of "a..b" alone. |
| TftpBlocks.ExpandInPlace | http1.0/src/dnsmasq/dnsmasq-2.45/src/tftp.c:557-583 | The in-place loop fills the block with the next bytes of the expanded text, and expansion and carrylf say exactly where it goes on. |
| TftpTransfer.FullBlockResumes | http1.0/src/dnsmasq/dnsmasq-2.45/src/tftp.c:507-588 | While a whole block of the file is left, a block sent and acknowledged advances the transfer exactly behind what it carried. |
| TftpTransfer.BlocksArePrefix | http1.0/src/dnsmasq/dnsmasq-2.45/src/tftp.c:507-588 | For any number of blocks, each fetched once with a whole block of the file left, the blocks in a row are the expanded file up to exactly where the transfer stands. |
| TftpTransfer.NetasciiRun | http1.0/src/dnsmasq/dnsmasq-2.45/src/tftp.c:507-588 | From the start of a netascii transfer the blocks in a row are a prefix of the file with LF as CR LF. |
| TftpTransfer.LastBlock | http1.0/src/dnsmasq/dnsmasq-2.45/src/tftp.c:557-583 | The last bytes of a netascii file arrive exactly if they fit into a block when expanded, and the client sees the end exactly if they leave room. |
| TftpTransfer.Retransmission | http1.0/src/dnsmasq/dnsmasq-2.45/src/tftp.c:557-583 | A netascii block sent again is the same packet exactly if it does not begin with an LF or a pair was cut before it exactly if one is cut at its end. |
| TftpTransfer.SentAgainDiffers | http1.0/src/dnsmasq/dnsmasq-2.45/src/tftp.c:557-583 | For every block size, a file whose second block differs when it is sent again. |
| TftpTransfer.NoShortBlock | http1.0/src/dnsmasq/dnsmasq-2.45/src/tftp.c:546-583 | For every block size from 2 on, a file whose transfer ends without a short block. |
| TftpTransfer.LastByteLost | http1.0/src/dnsmasq/dnsmasq-2.45/src/tftp.c:376-387 | For every block size from 3 on, a file whose last byte is never sent. |
| TftpRuns.StartSends | http1.0/src/dnsmasq/dnsmasq-2.45/src/tftp.c:249-275 | A transfer starts with the first block of the file, or with the option acknowledgement before it. |
| TftpRuns.AckedTurn | http1.0/src/dnsmasq/dnsmasq-2.45/src/tftp.c:382-456 | An acknowledgement of the packet that went last is answered at once, with the next block or, if that would be behind the end of the file, by ending the transfer. |
| TftpRuns.SilentClient | http1.0/src/dnsmasq/dnsmasq-2.45/src/tftp.c:417-452 | A client that stays silent gets every packet five times, two, five, ten and nineteen seconds after the first; after 36 seconds the transfer is given up. |
| TftpRuns.ErrorEnds | http1.0/src/dnsmasq/dnsmasq-2.45/src/tftp.c:390-452 | An error from the client ends the transfer, and nothing more is sent. |
| TftpTransfer.OctetRun | http1.0/src/dnsmasq/dnsmasq-2.45/src/tftp.c:360-456 | In octet mode, for any interleaving of acknowledgements, timeouts and read errors, the data sent are the block that is due, which is the next one only when the current one is acknowledged: block k is the file from (k-1)*blocksize on; the transfer finishes only when a short block is acknowledged. |
| TftpTransfer.OctetBlocksAreTheFile | http1.0/src/dnsmasq/dnsmasq-2.45/src/tftp.c:507-588 | The octet blocks up to a short one are the file. |
| TftpTransfer.Sender.FetchBlock | http1.0/src/dnsmasq/dnsmasq-2.45/src/tftp.c:507-588 | get_block on the packet buffer computes the abstract block and transfer state. |
| TftpTransfer.Sender.Receive | http1.0/src/dnsmasq/dnsmasq-2.45/src/tftp.c:376-387 | An acknowledgement counts only for the current block number modulo 65536. |

## Findings

Properties one would expect that the code does not have; each is stated with its exact
condition, and those named second give an input.

* A closed random socket can be handed out. `allocate_rfd` shares any socket of the family,
  used or not; after its last user has gone the socket is closed but keeps its family
  (`AllocateRfdOpen`, `ClosedSocketHandedOut`).
* Forced ids of signed packets are unique only if their checksum is known; with the value
  that stands for "unknown" a second record with the id can stay (`GetIdExact`,
  `ForcedIdStays`).
* The overload option is reserved after some options have been put. A boot file name of one
  of two lengths, asked for as an option, fills the area so far that the reserve comes too
  late (`ReplyInside`, `BootFileReply`, `BootFileTooLong`).
* In compare mode `extract_name` takes "a." for "a" (`CompareIsEquality`, `FinalDotPasses`).
* `canonicalise` lets empty labels pass, which are written as the end of the name
  (`RoundTrip`, `EmptyLabelEndsName`, `CompressionKeepsMeaning`, `EmptyLabelInList`).
* The last block of a netascii transfer can be cut without the rest being sent, and a
  transfer can end without a short block (`LastBlock`, `NoShortBlock`, `LastByteLost`); a
  netascii block sent again can differ from the first (`Retransmission`, `SentAgainDiffers`).
* A client name like " .x" passes `canonicalise`; without its domain it is a single blank,
  which is written to the lease file as if there were no name (`FieldsRoundTrip`,
  `BlankNameLost`).
* An offer need not be kept. An offered address that is the client's present lease may be
  reserved for another host (`ReservedOnlyByLease`, `ReservedOffer`). A client without
  client-id goes by the one in its lease; when the lease runs out before the REQUEST, what was
  offered because of it is refused (`DiscoverThenRequest`, `ForgottenOffer`). In the same way
  a client sent away to get its reserved address may not be offered it
  (`StaticNakThenOfferExact`, `ForgottenReservation`).
* When configuration is read again, hosts of the dhcp-hosts file without an address are not
  checked for illegal domains: `check_dhcp_hosts` tests the flag of options instead of the one
  of hosts, and that has the value of the flag for an address (`AlienNamesGo`,
  `AlienNameStays`).
* A client that has no hardware address and whose client-id is not stored does not find its
  new lease again (`StepFound`, `NotFoundAgain`).

## Left out

- I/O, sockets, select, signals, fork, real files, logging, DBus, netlink and privilege dropping: foreign calls; their outcomes are parameters.
- Platform variants and IPv6 beyond the address family flag of cache records and sockets.
- CacheHeap.Cache: cache_reload, cache_unhash_dhcp, add_hosts_entry and cache_add_dhcp_entry are modelled on the abstract state only, so their pointer writes and the list of spare DHCP records are not captured.
- CacheFixed.UnhashDhcpInv: an expired DHCP record that a sweep unhashes is forgotten by later steps instead of waiting on no list, as it does in the code.
- CacheInsert.InsertInv: the name is passed by value; that the name of the evicted tail record shares its buffer with the free list during the scan is not captured.
- CacheDhcp.AddHostsInv: parsing the lines of a hosts file is not part of this model; a line's address being the same as the line before is a parameter, and that an address skipped for this reason may have no reverse mapping is left open.
- extract_addresses: which records of a reply are inserted, and private-range and bogus-wildcard filtering, are parameters of a transaction.
- LeaseDb.LeaseStore: leases are a sequence in list order; their next pointers are not captured, nor the copying of an event into the pipe, which may lose it.
- DhcpProtocol.Step: the chain of contexts (complete_context), tags of vendor and user classes, the fqdn option and DNS names found in the hosts file are fields of the packet; the choice of address_allocate is a field too, which must be one that AddressAllocate can make.
- DhcpProtocol.Step: a DECLINE of an address that is not reserved also moves on the epochs of all ranges, which is not modelled.
- DhcpProtocol.Step: whether the lease time granted is announced with T1 and T2, and the text of NAK messages, are not part of the reply.
- DhcpAllocate.Allocator.AddressAllocate: a range whose end is below its start, which the configuration refuses, is excluded.
- DhcpReload.ServedLeasesReload: host names of more than 255 characters, which only configuration can hold, are excluded.
- DhcpOptions.ReplyInside: options overloaded into the sname field are not modelled; the field counts as in use throughout.
- DhcpOptions.OptionFind1: the byte read at the very end of the buffer is not modelled, since no value of it changes the result.
- LeaseText.HwParses: text that is no output of the writer (wildcards, bad digits) is read by ParseHexInPlace, but no meaning is stated for it.
- ForwardStore.Forwarder: records and servers are sequences; their links are not captured, and the loop of retry_send is one outcome of a send.
- search_servers: the kind of servers and the domain of a query are parameters.
- DnsName.ExtractName: bit-string labels are refused here; extract_name prints them, while skip_name skips them differently.
- DnsRecords.AddResourceRecord: the format string is a list of items; names are given by their text, and where a name was put is not given back.
- TftpTransfer.OctetRun: block numbers beyond 65535 wrap, and an acknowledgement with the same 16 bits counts for the block 65536 later, as in the code.
- Configuration parsing other than domain lists, answer_request, in_arpa_name_2_addr, zone checks, and the small clients beside dnsmasq: they would add members but no harder property.
