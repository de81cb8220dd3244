# dns-relay in Dafny

dns-relay answers DNS queries from block and redirect rules, from a response cache, from
another query already in flight, or from upstream resolvers. This project models its logic
in Dafny and proves what that logic keeps, over every packet, every rule list and every
interleaving.

| files | what they model |
|---|---|
| `Bytes`, `Text`, `Keys`, `Picking` | octets and big-endian fields, splitting and joining text, the cache key, what is picked from a list |
| `Names`, `Compression`, `Message`, `Edns` | names and their pointers, record walks, the OPT record and its options |
| `ClientSubnet`, `KeptOptions`, `Uncovered`, `LastWrite` | client-subnet injection, the options that survive it, what a scan finds after it, and doing it twice |
| `Query`, `KeyBits`, `Lookup` | cache keys of queries, the bits they depend on, the lookup-query builder |
| `Ageing`, `Freshness`, `Redirect`, `RedirectRecords`, `AddressLists` | ageing TTLs in place, the cache time of a response, redirect answers and their records, lists of addresses |
| `Glob`, `Rules`, `Suffixes`, `Trie`, `ConfigLists` | the label glob matcher, the rule list, what it means for a domain, the trie built from it, what configured lists give |
| `Cache`, `CacheHistory`, `Recency` | the response cache, its histories, and what a full cache drops |
| `Dispatcher`, `DispatchProtocol`, `DispatchDelivery` | the UDP id table, the protocol of requests, replies and guards, and what reaches a request |
| `SingleFlight`, `Pipeline`, `Provenance`, `Serving`, `Blocking` | in-flight queries, the query pipeline, where replies come from, what each step gives a requester, what becomes of blocked names |
| `ConfigApply`, `Resolvers` | the configuration transaction, merging and picking resolvers |
| `HistoryText`, `History`, `HistoryInvariant`, `HistoryCut` | the history file, a flush, series of flushes, and writes cut short |

Loops over packets, lists and maps are methods with loops, each proved equal to a
specification function, and the theorems are about those functions. Objects that the code
updates in place are classes. Protocols are step systems: a section under one lock is one
step, everything else may interleave, and the theorems hold for every sequence of steps.

Some of what one would expect is false of the code. For these there is a theorem that says
exactly when it holds.

- The glob matcher tries a literal match before a star. It agrees with the declarative glob
  relation for every pattern exactly on values with no `*` before their last octet
  (`Glob.AgreesExactlyOnCleanValues`).
- Client-subnet injection writes a 16-bit option length and a 16-bit ARCOUNT, both wrapping
  (the release profile has overflow checks off), and an OPT at the end of a packet is found
  again only from a record boundary. `LastWrite.LastWriteWins` says for every packet exactly
  when a second injection undoes the first.
- Raising ARCOUNT can uncover an OPT behind the records announced, even one whose last octets
  are missing and are made up by the appended ones, and so change the cache key of a query.
  `Query.KeySurvivesEcs` says exactly when the key is kept, `Query.HiddenOptChangesKey` gives a
  family of queries whose key changes, and by `Query.HeaderGainsKey` a bare header gains a key.
- A question name that is a pointer to octets behind the OPT is read elsewhere after injection:
  `Query.PointerChangesKey` gives queries for "a" that become queries for the root. The key is
  kept when every octet read for the name stays in place (`Query.KeySurvivesEcs`).
- A query's key depends on RD and CD alone among the id and flags, unless its name is a pointer
  into them: `KeyBits.KeyReadsTwoBits` says exactly when a key is kept under other flags, and
  `KeyBits.FlagsReadAsName` gives queries whose key is lost though neither bit changed.
- A redirect writes a 16-bit answer count: it reads back exactly below 65536 addresses
  (`Redirect.RedirectRoundTrip`), and is not cached when the count wraps to zero
  (`Redirect.RedirectCacheTtl`).
- A built lookup query parses back exactly when every label has 1 to 63 octets
  (`Lookup.LookupRoundTrip`).
- The loop that draws a free id ends exactly when fewer than 65536 entries are pending
  (`Dispatcher.AllocationEndsExactly`).
- A dropped guard can remove another request's entry once 65536 ids were drawn since it
  registered, and never before (`DispatchProtocol.WindowProtects`, `WindowIsSharp`).
- A follower that joins after a send without receivers gets nothing
  (`SingleFlight.LateFollowerGetsNothing`).
- A history flush fails exactly when a domain is both in the dropped and in the kept lines
  (`HistoryInvariant.FlushFailsExactly`), and the release profile turns that panic into the
  end of the process. No series of flushes of blank-free entries gets there while writes are
  whole, but a domain with a space in it does (`HistoryInvariant.SpacedDomainFails`). A write
  cut short is harmless exactly when no domain begins with the domain of an earlier line
  (`HistoryCut.CutHarmlessExactly`).

A comment in the rule trie speaks of the closest matching boundary. The code returns the
policy of the shortest suffix that has one, and the model follows the code.

## Model

| member | source | states |
|---|---|---|
| Glob.WildcardMatches | shared/src/domain_trie.rs:167-193 | The backtracking loop ends, by a lexicographic measure over star, restart point and pattern index, and decides the literal-first matching relation. |
| Glob.Advance | shared/src/domain_trie.rs:173-187 | One turn of the loop keeps "the value is accepted iff it is from here or from a later restart", or refuses a value that is not accepted, and always shrinks the measure. |
| Glob.OnlyStarsLeft | shared/src/domain_trie.rs:189-192 | The closing loop decides whether only stars remain. |
| Glob.NewStarSubsumes | shared/src/domain_trie.rs:177-180 | Forgetting the earlier star is safe: any match it could still find is found from the later one. |
| Glob.Sound | shared/src/domain_trie.rs:167-193 | Whatever the matcher accepts is in the declarative glob relation, for every value and pattern. |
| Glob.Complete | shared/src/domain_trie.rs:167-193 | For a value with no star before its last octet, every glob match is accepted. |
| Glob.RefusedAtStar | shared/src/domain_trie.rs:174-177 | For any other value there is a pattern that matches it and is refused. |
| Glob.AgreesExactlyOnCleanValues | shared/src/domain_trie.rs:167-193 | Matcher and glob relation agree on all patterns if and only if the value has no star before its last octet. |
| Rules.LastPolicyMeaning | shared/src/domain_trie.rs:42-46 | Among rules on one path the last one inserted decides, and no policy means no rule on it. |
| Rules.NearestMeaning | shared/src/domain_trie.rs:133-144 | The suffix walk finds the shortest suffix that has a rule, or there is none. |
| Rules.FirstGlobMeaning | shared/src/domain_trie.rs:145-149 | The first glob in insertion order that matches decides, or none matches. |
| Rules.AnswerMeaning | shared/src/domain_trie.rs:131-150 | A policy is the answer of a lookup if and only if it is that of the shortest suffix with a rule (last inserted on that path), else of the first matching glob, else none. |
| Rules.GlobHoldsIsDeclarative | shared/src/domain_trie.rs:157-165 | For domains without such stars, a label glob holds iff the label counts agree and each label is in the glob relation. |
| Rules.DropSetDecides | shared/src/domain_trie.rs:81-98 | Two drop lists with the same rules, in any order and number, answer every lookup alike, whatever redirects follow. |
| Rules.DotsAndCaseIgnored | shared/src/domain_trie.rs:34-132 | Trailing dots, and differences that lower-casing removes, change neither a lookup nor what a pattern compiles to. |
| Suffixes.EndsInLabels | shared/src/domain_trie.rs:42-45 | The labels of p are the last labels of d if and only if d is p or ends in a dot and p. |
| Suffixes.SuffixMeaning | shared/src/domain_trie.rs:34-47 | The suffix walk of d meets the rule of a pattern if and only if, without a leading "*.", the pattern holds no star and d is it or ends in a dot and it. |
| Suffixes.AnswerChosen | shared/src/domain_trie.rs:131-150 | A list of patterns answers r for a domain if and only if r is the policy of the shortest pattern that the domain equals or ends in behind a dot, the last of equals; else of the first label glob that holds; else none. |
| Trie.InsertUpdates | shared/src/domain_trie.rs:42-46 | Inserting changes the policy of exactly the node of its path. |
| Trie.LabelGlobMatches | shared/src/domain_trie.rs:157-165 | The label loop decides whether a label glob holds. |
| Trie.DomainTrie.constructor | shared/src/domain_trie.rs:26-28 | A new trie represents the empty rule list. |
| Trie.DomainTrie.InsertWithPolicy | shared/src/domain_trie.rs:34-47 | Inserting keeps tree and glob list in step with the rule list and appends exactly the compiled rule. |
| Trie.DomainTrie.FindGlob | shared/src/domain_trie.rs:145-149 | The search of the glob list finds what a scan of the whole rule list finds. |
| Trie.DomainTrie.Lookup | shared/src/domain_trie.rs:131-150 | The cursor walk with early exit answers as a scan of the rule list. |
| Trie.InsertDrops | shared/src/domain_trie.rs:90-97 | Inserting an entry's patterns that were not seen leaves the trie of the deduplicated patterns and the set of all seen. |
| Trie.InsertRedirectLine | shared/src/domain_trie.rs:108-119 | A line of a redirect file adds its rule, or none if it is malformed. |
| Trie.InsertRedirectLines | shared/src/domain_trie.rs:105-120 | A redirect file adds the rules of its lines, in order. |
| Trie.InsertRedirectItem | shared/src/domain_trie.rs:100-122 | A redirect entry adds the rules of its file or its own rule. |
| Trie.TargetsMeaning | shared/src/domain_trie.rs:56-61 | A comma-separated target list stands for its hosts, in order, without their ports. |
| Trie.RedirectLineMeaning | shared/src/domain_trie.rs:108-119 | A line of a redirect file is the text before its first colon and the targets behind it; without a colon, or with a blank side, it stands for nothing. |
| ConfigLists.ConfigExactly | shared/src/domain_trie.rs:67-126 | The entries that decide lookups are exactly those the lists give: an entry itself or each line of a file it names, without comments and blanks, and of a redirect file the text before the first colon with the targets behind it. |
| Trie.Build | shared/src/domain_trie.rs:64-126 | Every lookup in the built trie, although duplicate drops were skipped, gives the policy of the shortest configured pattern that the domain equals or ends in behind a dot, else of the first configured glob that holds, else nothing. |
| Trie.DropListIsASet | shared/src/domain_trie.rs:81-98 | Permuting or repeating entries of the drop list never changes a lookup. |
| Names.SkipNameLoop | shared/src/dns.rs:226-244 | The skipping loop ends on every byte string and computes the specified end. |
| Names.ParseDomainLoop | shared/src/dns.rs:55-110 | The parsing loop ends on every byte string, pointer loops included, by hops left and then octets left; when it succeeds its end is the one that skipping the name gives. |
| Names.ParsedNameEnd | shared/src/dns.rs:55-110 | Whenever a name parses, skipping from the same offset succeeds and ends after it and within the packet. |
| Names.PointerLoopRefused | shared/src/dns.rs:67-83 | A name that leads back to itself through a pointer is refused, whatever the hop limit. |
| Names.EncodedNameParses | shared/src/dns.rs:55-110 | An uncompressed name anywhere in a packet parses to its decoded labels and is skipped exactly. |
| Names.ReadsLocal | shared/src/dns.rs:55-110 | A name parses the same in all packets that agree on the octets read for it, pointers followed. |
| Names.UncompressedFixed | shared/src/dns.rs:55-110 | For a name without pointers these are its own octets. |
| Compression.CompressedNameParses | shared/src/dns.rs:67-83 | Labels followed by a pointer read as the labels and then what stands at the offset its low 14 bits give. |
| Compression.CompressedNameEnds | shared/src/dns.rs:226-244 | Such a name ends behind its pointer. |
| Compression.ChainLimit | shared/src/dns.rs:55-83 | A chain of pointers is followed to its end if and only if there are at most 128. |
| Message.ReadRr | shared/src/dns.rs:583-594 | The record reader finds where name and data lie, or refuses what does not fit. |
| Message.QuestionsLoop | shared/src/dns.rs:254-261 | Skipping the questions gives where the answers start, or nothing if they do not fit. |
| Message.ParseARecords | shared/src/dns.rs:291-333 | The loop returns the four-octet data of the A records of the answers up to the first that does not fit, in order. |
| AddressLists.AddressesRead | shared/src/dns.rs:291-333 | They are the data of exactly those answers that have type 1 and four octets, in order, up to the first answer that cannot be read. |
| AddressLists.TargetsThatParse | shared/src/dns.rs:134-137 | The addresses of a redirect are exactly its targets that parse, in order. |
| Message.ResponseHasOnlyUnspecifiedAddresses | shared/src/dns.rs:246-288 | True iff all answers are well formed, some is an address, and all addresses are zero. |
| Edns.FindOptRecord | shared/src/dns.rs:527-580 | The section loops find the first OPT of the additional section with its fields, or nothing on a malformed packet. |
| Edns.ParseOptionsLoop | shared/src/dns.rs:604-620 | The option loop ends and reads options up to the first that does not fit. |
| Edns.ParsedExactly | shared/src/dns.rs:604-620 | Octets parse to a list of options if and only if they are those options, one after the other, followed by octets into which no option fits. |
| Edns.EncodedNoLonger | shared/src/dns.rs:604-697 | Writing parsed options never takes more octets than were read. |
| Edns.WithoutAgain | shared/src/dns.rs:660-672 | Removing an option that was appended after removing its code restores the list. |
| Edns.BumpArcount | shared/src/dns.rs:717-725 | ARCOUNT goes up by one modulo 2^16 and no other octet changes. |
| ClientSubnet.RebuildWithNewOpt | shared/src/dns.rs:700-728 | The buffer becomes the packet with the record at that place replaced, with ARCOUNT raised iff the record was synthetic. |
| ClientSubnet.SetEcsIpv4Subnet | shared/src/dns.rs:647-697 | The method computes the specified rewrite and never returns nothing. |
| ClientSubnet.EcsRewritesExisting | shared/src/dns.rs:647-728 | With an OPT present, scanning the output finds it at its place with the old size, rcode, version and flags; all octets outside it are unchanged; its options are the old ones without code 8, in order, plus one subnet option, if and only if they fit 16 bits. |
| KeptOptions.OthersSurvive | shared/src/dns.rs:647-697 | With an OPT present, the options found after injection are exactly the old ones whose code is not 8, each at its place in the order, and then code 8 with family 1, prefix 24, scope 0 and the three octets, if and only if they fit 16 bits. |
| ClientSubnet.EcsAddsNew | shared/src/dns.rs:647-728 | Without one, all octets but ARCOUNT are kept, and scanning finds the new OPT (size 4096, zeros, one option) if and only if the packet ends at a record boundary within its announced records and ARCOUNT does not wrap. |
| Uncovered.FoundExactly | shared/src/dns.rs:527-728 | For every packet without an OPT, the scan after injection finds o if and only if ARCOUNT did not wrap and, behind some of the announced records, o stands in the packet followed by the 22 appended octets. |
| Uncovered.DoShownExactly | shared/src/dns.rs:527-728 | It shows the DO bit if and only if, behind some of the announced records, the packet holds an OPT up to its DO bit, set, whose length field and data fit when continued by the appended octets. |
| LastWrite.LastWriteWins | shared/src/dns.rs:647-728 | For every packet, setting s then t equals setting t octet for octet if and only if: the kept options and the new one fit 16 bits, when an OPT was there; or, when none was, the packet followed by the octets appended for s holds, behind some of the announced records, an OPT as a write of s leaves it, with nothing behind it unless s is t. |
| LastWrite.WholePacketFoundAgain | shared/src/dns.rs:700-728 | In a packet without an OPT that ends at a record boundary, that is so if and only if ARCOUNT is below 65535. |
| LastWrite.SecondOptAppended | shared/src/dns.rs:647-728 | Whenever a scan finds no OPT after the first write, the second keeps its octets except ARCOUNT and appends another OPT of 22 octets for t. |
| Query.KeySurvivesEcs | shared/src/cache.rs:58-83 | For every query that has a key and whose name is uncompressed, or read only from octets that stay in place, injection keeps the key if and only if: an OPT that was there lies behind offset 12 or the name read is the root; or, without one, the packet hides no DO bit behind its announced records. |
| Query.DoStaysClear | shared/src/dns.rs:700-728 | A packet without an OPT that ends at a record boundary hides no DO bit, and shows none after injection. |
| Query.HiddenOptChangesKey | shared/src/cache.rs:58-83 | For a one-question query with an unannounced OPT with DO set behind it, whole or cut in its length field, injecting any subnet changes the key. |
| Query.PointerChangesKey | shared/src/cache.rs:58-83 | For a query whose name is a pointer to the name "a" behind its OPT, injecting any subnet changes the key's name from "a" to the root. |
| Query.HeaderGainsKey | shared/src/cache.rs:58-83 | A packet of 12 octets has no key, and has one after injection. |
| Query.PlainKey | shared/src/cache.rs:58-83 | The key of a query is its lower-cased name, type, class, RD, CD, DO bit and subnet. |
| Query.KeySeparates | shared/src/cache.rs:58-83 | Over dot-free ASCII labels two queries share a key if and only if their labels agree up to letter case, the four octets behind the names, the lowest bit of octet 2, the bit of value 16 of octet 3, DO and the subnet agree. |
| KeyBits.KeyReadsTwoBits | shared/src/cache.rs:58-83 | Any query with a key keeps it under another id and other flags if and only if its name still reads the same, and the lowest bit of octet 2 and the bit of value 16 of octet 3 are as they were. |
| KeyBits.RdBit | shared/src/cache.rs:71-71 | Replacing octet 2, if the name is not read from it, keeps the key if and only if the bit of value 1 stays. |
| KeyBits.CdBit | shared/src/cache.rs:71-71 | Replacing octet 3, if the name is not read from it, keeps the key if and only if the bit of value 16 stays. |
| KeyBits.FlagsReadAsName | shared/src/dns.rs:67-83 | For a name that points into the flags, changing other bits of them loses the key. |
| KeyBits.DoBit | shared/src/cache.rs:72-74 | DO is the highest bit of the seventh octet behind the name of the first type 41 record of the additional section, and clear without one. |
| Query.DottedLabelCollides | shared/src/dns.rs:101-106 | A label with a dot in it is spelled like two labels, so such names are not separated. |
| Query.BuildLookupQuery | shared/src/dns.rs:201-222 | The builder's loop writes header, labels with eight-bit lengths, type and class. |
| Lookup.LookupRoundTrip | shared/src/dns.rs:201-222 | Parsing a built query gives the lower-cased domain ending four octets before the packet end if and only if every label has 1 to 63 octets. |
| Lookup.LookupKey | shared/src/dns.rs:201-222 | A built query carries its id, one question of type A and class IN, recursion desired and nothing else, and its cache key is that of the lower-cased domain, flags 1, DO clear. |
| Lookup.InvalidLabelsMisread | shared/src/dns.rs:201-222 | When a too long or empty label still parses to the packet end, the name read is a different one. |
| Ageing.AgeResponseTtls | shared/src/dns.rs:455-504 | The in-place loop over the array computes the specified packet and success flag. |
| Ageing.AgeRecordsInPlace | shared/src/dns.rs:476-501 | The loop over answer and authority records ages each in place, and stops at the first that does not fit. |
| Ageing.AgeExact | shared/src/dns.rs:455-504 | Ageing succeeds if and only if all records fit. Then, for every answer and authority record, new TTL plus elapsed seconds is the old TTL, or the new one is zero when more elapsed or the packet is stale, and no other octet changes. |
| Ageing.AgeingKeeps | shared/src/dns.rs:455-504 | It keeps length, header, record walk, A records and OPT. |
| Ageing.AgeingAdds | shared/src/dns.rs:455-504 | Ageing by a then b seconds equals ageing by a + b, octet for octet. |
| Ageing.ZeroAddressesKept | shared/src/dns.rs:246-288 | Ageing does not change whether a response has only zero addresses. |
| Freshness.ResponseCacheTtl | shared/src/dns.rs:386-453 | The loops compute the specified cache time. |
| Freshness.LeastTtlMeaning | shared/src/dns.rs:404-419 | The answer loop succeeds iff all answers fit with TTLs above zero, and then returns the least. |
| Freshness.CacheTimeExactly | shared/src/dns.rs:386-453 | A response has cache time t if and only if it is complete with rcode 0 or 3 and t is the least answer TTL (none zero, below 2^32 - 1), or without answers the smaller of TTL and MINIMUM of the first SOA record, above zero. |
| Freshness.PositiveAnswer | shared/src/dns.rs:404-422 | With answers the cache time is at least 1, at most every answer TTL and equal to one of them. |
| Freshness.NegativeAnswer | shared/src/dns.rs:424-452 | Without answers it comes from the first SOA record of the authority section. |
| Freshness.MinimumIsFifthField | shared/src/dns.rs:424-452 | Where the first SOA record holds two names and five four-octet fields, the cache time is the smaller of its TTL and the fifth field, and none if that is zero. |
| Redirect.CraftRedirectResponse | shared/src/dns.rs:114-159 | The method computes the specified response from the addresses that parse, or nothing without any. |
| Redirect.RedirectRoundTrip | shared/src/dns.rs:114-159 | For any one-question A query, the A records of the crafted response are the addresses, in order, if and only if there are fewer than 65536. |
| Redirect.RedirectCacheTtl | shared/src/dns.rs:114-159 | The cache time of a crafted response to an A query is 60, or none if the number of addresses is a multiple of 65536. |
| RedirectRecords.RecordsAnswerTheQuestion | shared/src/dns.rs:139-159 | For a query with an uncompressed name, each crafted record reads as that very name, repeats type and class of the question, has TTL 60 and holds its address, in the order of the addresses. |
| Redirect.RedirectKeepsOpt | shared/src/dns.rs:114-159 | The OPT found in a crafted response is the one reached in the query when its own answers are not counted, moved by 16 octets per address, less what crafted answers beyond the 16-bit count use up; for an answerless query and fewer than 65536 addresses that is the query's OPT, unchanged, or none. |
| Cache.PutKeepsWf | shared/src/cache.rs:139-161 | Storing keeps distinct recency, one entry per key and the capacity of 8192. |
| Cache.ResponseCache.constructor | shared/src/cache.rs:41-45 | A new cache is empty. |
| Cache.ResponseCache.Store | shared/src/cache.rs:139-161 | Storing makes the entry for the key newest with its fresh and stale ends, evicts the oldest of a full cache, and ignores what has no cache time. |
| Cache.ResponseCache.Lookup | shared/src/cache.rs:112-121 | A fresh lookup serves the aged packet before the fresh end and touches the entry. |
| Cache.ResponseCache.LookupStale | shared/src/cache.rs:123-137 | A stale lookup serves zero TTLs in the stale window and removes the entry after it. |
| CacheHistory.RunIsWf | shared/src/cache.rs:112-161 | Every history keeps the cache well formed and within capacity. |
| CacheHistory.EntryOrigin | shared/src/cache.rs:139-161 | After every history an entry is the one made by the last cacheable store of its key. |
| CacheHistory.FreshHit | shared/src/cache.rs:112-121 | In every history a fresh hit lies before the fresh end of the last store, an hour at most, and shows every answer TTL at least 1, expiring not before and less than one second after the record's original expiry. |
| CacheHistory.StaleHit | shared/src/cache.rs:123-137 | A stale hit lies in the 300 seconds after the fresh end, with the stored records and only zero answer and authority TTLs. |
| CacheHistory.HitsExactly | shared/src/cache.rs:112-137 | A fresh or stale lookup hits if and only if the key is stored, the time is in its window and the stored packet's records fit. |
| CacheHistory.NeverBoth | shared/src/cache.rs:112-137 | At one instant fresh and stale lookups never both succeed, in either order. |
| CacheHistory.StaleWindowEvicts | shared/src/cache.rs:123-137 | A stale lookup evicts if and only if the stale window is over. |
| CacheHistory.FoundExactly | shared/src/cache.rs:101-161 | In every history a cached key is found fresh if and only if the last store's cache time, at most 3600 seconds, is not over, and stale if and only if it is, by less than 300 seconds, provided the records fit. |
| Recency.OrderIsLastUse | shared/src/cache.rs:112-161 | In every history the recency order is the order of the last events that stored or looked up each key. |
| Recency.FullCacheDropsOldest | shared/src/cache.rs:139-161 | Storing a new key when 8192 are cached drops exactly the key whose last store or lookup came before that of every other. |
| Recency.RoomDropsNothing | shared/src/cache.rs:139-161 | With room, or for a key that is cached, a store drops nothing. |
| CacheHistory.IdIrrelevant | shared/src/cache.rs:139-161 | Zeroing the id of a stored packet changes none of its records. |
| Dispatcher.TakenDraws | dns_relay/src/resolver.rs:139-154 | If n draws in a row, up to 65536, all hit pending ids, at least n are pending. |
| Dispatcher.AllocateFindsFree | dns_relay/src/resolver.rs:139-154 | With fewer than 65536 pending, the draw loop finds the first free id within one draw more than are pending. |
| Dispatcher.AllocationEndsExactly | dns_relay/src/resolver.rs:139-154 | Some draw from here on is free, so the loop ends, if and only if fewer than 65536 entries are pending. |
| Dispatcher.UdpDispatcher.constructor | dns_relay/src/resolver.rs:69-78 | A new dispatcher has no pending entry and no id drawn. |
| Dispatcher.UdpDispatcher.Register | dns_relay/src/resolver.rs:133-154 | The draw loop ends and adds one entry under a free id. |
| Dispatcher.UdpDispatcher.Draw | dns_relay/src/resolver.rs:139-142 | The wrapping counter gives the number of draws modulo 2^16. |
| Dispatcher.UdpDispatcher.TakeReply | dns_relay/src/resolver.rs:112-131 | A reply takes the entry of its id if it comes from that entry's upstream, and changes nothing otherwise. |
| Dispatcher.UdpDispatcher.DropGuard | dns_relay/src/resolver.rs:54-60 | A guard removes the entry at its id. |
| DispatchProtocol.RunKeepsInvariant | dns_relay/src/resolver.rs:49-169 | In every interleaving every pending entry belongs to a live request with its id and upstream, replies carry the request's id and come from its upstream, and each request has at most one. |
| DispatchProtocol.IdleMeansEmpty | dns_relay/src/resolver.rs:49-60 | When no request is live the map is empty. |
| DispatchProtocol.ReceivedIsOwnAndFinal | dns_relay/src/resolver.rs:112-169 | What a request has received carries its id, was sent by its upstream, and is the same after every continuation of the run. |
| DispatchProtocol.WindowSeparatesIds | dns_relay/src/resolver.rs:139-154 | While fewer than 65536 ids were drawn since any live registration, live ids are distinct and a guard finds its own entry or none. |
| DispatchProtocol.WindowProtects | dns_relay/src/resolver.rs:49-60 | In every run that stays inside that window no guard removes another request's entry. |
| DispatchProtocol.WindowIsSharp | dns_relay/src/resolver.rs:54-60 | One draw more and a guard removes another live request's entry. |
| DispatchDelivery.RunTracks | dns_relay/src/resolver.rs:112-169 | In every interleaving the map lists exactly the live requests with an open, empty channel and no reply, and an answered one with an empty channel has its packet on the way. |
| DispatchDelivery.TakenExactly | dns_relay/src/resolver.rs:112-131 | A packet is taken if and only if its first two octets are the id, and its source the upstream, of a request that expects a reply; it then becomes that request's reply. |
| DispatchDelivery.ReplyReaches | dns_relay/src/resolver.rs:112-169 | Taken and delivered, that packet is what the request receives. |
| DispatchDelivery.RegisteredExpects | dns_relay/src/resolver.rs:133-154 | A new request expects its reply from its registration on, unless 65536 are pending. |
| SingleFlight.InFlightQueries.constructor | dns_relay/src/handler.rs:70-73 | Nothing is in flight at first. |
| SingleFlight.InFlightQueries.Join | dns_relay/src/handler.rs:75-91 | The first to join a key leads with a new channel, others subscribe to the leader in the map. |
| SingleFlight.InFlightQueries.Publish | dns_relay/src/handler.rs:114-130 | Publishing stores the packet if a receiver exists, removes the key and drops the sender. |
| SingleFlight.InFlightQueries.Abandon | dns_relay/src/handler.rs:122-130 | Dropping an unpublished leader removes the key and drops the sender. |
| SingleFlight.PublishInSteps | dns_relay/src/handler.rs:114-130 | The send, removal and drop steps of the protocol, taken in a row, have the effect of Publish. |
| SingleFlight.AbandonInSteps | dns_relay/src/handler.rs:122-130 | The removal and drop steps, taken in a row, have the effect of Abandon. |
| SingleFlight.StepKeeps | dns_relay/src/handler.rs:75-145 | Every step keeps the protocol invariant that ties map, channels, leaders and followers. |
| SingleFlight.LeadersNeverOverlap | dns_relay/src/handler.rs:75-130 | In every run a key is in the map if and only if an unremoved leader holds it, and two unremoved leaders never share a key. |
| SingleFlight.FollowerOutcomes | dns_relay/src/handler.rs:136-145 | In every run a finished follower got its own leader's packet or nothing, the packet for certain if it subscribed before the send, and nothing only from an unpublished drop or a join after a send without receivers. |
| SingleFlight.FollowerFinishes | dns_relay/src/handler.rs:136-145 | Once its leader is gone, a follower finishes within its next three moves. |
| SingleFlight.LateFollowerGetsNothing | dns_relay/src/handler.rs:114-130 | A run in which the leader publishes and a late follower still gets nothing. |
| Message.WithTxid | shared/src/dns.rs:336-342 | Replaces the id and nothing else. |
| Pipeline.IsUsableResponse | dns_relay/src/resolver.rs:543-554 | Decides which upstream answers are accepted. |
| Pipeline.EarlyReplyKeepsId | dns_relay/src/handler.rs:169-191 | Drop and redirect replies carry the id of the query. |
| Pipeline.StepKeeps | dns_relay/src/handler.rs:151-261 | Every step of proxy and client tasks, flights, clock and purges keeps the pipeline invariant. |
| Pipeline.ServedIsGood | shared/src/cache.rs:112-137 | A good entry served fresh or stale is still id 0, and not zero-address-only in secure mode. |
| Pipeline.IdsAreKept | dns_relay/src/handler.rs:151-261 | In every run every reply carries its requester's id on all paths, and cached and published packets carry id 0. |
| Pipeline.SecureCacheHoldsNoZeroAnswer | dns_relay/src/client.rs:179-218 | In secure mode no cached packet, stored or served fresh or stale, has only zero addresses. |
| Provenance.StepTraced | dns_relay/src/handler.rs:199-261 | Every step keeps each cached, published and delivered packet traceable to its own key. |
| Provenance.RepliesNeverCrossKeys | dns_relay/src/handler.rs:199-261 | In every run what a task is given is an upstream answer accepted for its own key, possibly aged, or SERVFAIL for a query with that key. |
| Provenance.EveryReplyExplained | dns_relay/src/handler.rs:151-261 | In every run each reply is decided by the rules alone, or is such a packet of the requester's key under the requester's id. |
| Serving.FreshIsServed | dns_relay/src/handler.rs:199-203 | In every run a lookup of a task whose key is cached, before the fresh end and with records that fit, finishes it and sends its client the cached packet, TTLs aged, under the client's id; any other lookup is a miss; flights, queries and answers recorded and the entries stay. |
| Serving.StaleIsServed | dns_relay/src/handler.rs:240-262 | When the upstream fails a leader, it publishes the cached packet with zero TTLs if the entry is in its stale window and fits, else a failure with flags 0x81 0x82 (the program's own lookup ends with nothing); an entry past its window is dropped. |
| Serving.AnswerIsStored | dns_relay/src/handler.rs:228-262 | A leader takes an answer if and only if it is complete, not SERVFAIL or REFUSED and not zero-address-only in secure mode; it publishes it with id 0 and caches it for its cache time, an hour at most, and 300 seconds more as stale. |
| Serving.AnswerServesLater | dns_relay/src/handler.rs:199-231 | As long as the key stays cached and no other answer for it came, every lookup of that key before its cache time is over serves that answer, aged, under the requester's id. |
| Serving.MissedJoins | dns_relay/src/handler.rs:205-213 | A task that missed follows the leader of its key in the map, or leads if there is none. |
| Serving.PublishedIsGiven | dns_relay/src/handler.rs:256-262 | Publishing sends the packet to the leader's client under its id, and to its followers. |
| Serving.FollowedIsGiven | dns_relay/src/handler.rs:207-212 | A follower sends its client the packet its leader published, under the client's id; without one it replies nothing, and a lookup of the program itself starts over. |
| Blocking.BlockedNeverAsked | dns_relay/src/handler.rs:173-213 | In every run, a client's query that gets as far as the cache, a flight or an upstream has a name that equals no configured pattern, ends in a dot and none, and that no configured glob holds for. |
| Blocking.ListedNeverAsked | dns_relay/src/handler.rs:173-213 | In every run no client's query for a name that equals a pattern the lists give, a leading "*." aside, or ends in a dot and it, gets that far. |
| Blocking.BlockedAnsweredAtOnce | dns_relay/src/handler.rs:173-191 | In every run a new query with a policy is answered in its first step and changes nothing else: a dropped one with itself and the flags 0x81 0x83, a redirected one with the addresses that parse, which reading a type A response gives back, or not at all without any. |
| Blocking.UnblockedStarts | dns_relay/src/handler.rs:169-199 | In every run a new query without a policy starts to work under its cache key if it has one, and else changes nothing. |
| Blocking.ClientStarts | dns_relay/src/client.rs:118-136 | In every run a new lookup of the program itself, whatever the rules say, starts to work under its cache key if it has one. |
| ConfigApply.Machine.constructor | dns_relay_admin/src/apply.rs:38-49 | A machine starts from the host's files and service state. |
| ConfigApply.Machine.SwapIn | dns_relay_admin/src/apply.rs:69-72 | The rename makes the staged content live at once, or changes nothing. |
| ConfigApply.Machine.Rollback | dns_relay_admin/src/apply.rs:147-164 | A rollback that works restores the old content or its absence and the prior service state; it works exactly when rename, sync and service command do; a stopped service is never started. |
| ConfigApply.Machine.Activate | dns_relay_admin/src/apply.rs:78-84 | Restart and health check run only for a running service, and report the first failure. |
| ConfigApply.Machine.ApplyConfig | dns_relay_admin/src/apply.rs:38-91 | With a failure possible at every step: the result is the first problem; Ok leaves the new content live and the old in the backup; any error but a failed rollback leaves the old content and service state; at every moment the live file is the old content or the wholly written, accepted new one; a stopped service is never started, and on success a running one is started once if a restart was asked for. |
| ConfigApply.OkExactly | dns_relay_admin/src/apply.rs:38-91 | It succeeds if and only if every step it takes does. |
| ConfigApply.ErrorsAreReal | dns_relay_admin/src/apply.rs:38-91 | An error names a step that failed, a failed rollback a step of the rollback that did, and any other error after the swap means that every step of the rollback worked. |
| ConfigApply.LiveIsAlwaysAccepted | dns_relay_admin/src/apply.rs:38-91 | Over any series of applications the live content is the first or an accepted one, and while no rollback fails it is that of the last success. |
| Resolvers.SortUnstable | dns_relay/src/resolver.rs:916-926 | A sort by latency (DoH first on demand) that is a permutation. |
| Resolvers.RetainFirst | dns_relay/src/resolver.rs:916-926 | The retain loop keeps the first resolver of each address. |
| Resolvers.RetainedMeaning | dns_relay/src/resolver.rs:916-926 | From a sorted list it keeps every address once, at its least latency, in order. |
| Resolvers.MergeKeepsBest | dns_relay/src/resolver.rs:916-926 | For any unstable sort and cap the result is sorted, distinct, at least latency in the union, of length min(cap, distinct addresses), and nothing dropped beats anything kept. |
| Resolvers.ResolverPicker.MergeDiscovered | dns_relay/src/resolver.rs:916-926 | The in-place sort, retain and truncate leave such a list. |
| Resolvers.ResolverPicker.Candidates | dns_relay/src/resolver.rs:348-361 | The candidates are the two best eligible resolvers in order, and no eligible one left out comes before them. |
| Resolvers.EligibleMeaning | dns_relay/src/resolver.rs:348-361 | Eligible are all resolvers, or in secure mode exactly those with an authenticated transport. |
| Resolvers.FirstCandidate | dns_relay/src/resolver.rs:348-361 | The first candidate is the fastest eligible resolver, or with DoH preferred the fastest whose address begins with https:// if there is one. |
| HistoryText.FileRoundTrip | dns_relay/src/handler.rs:379-419 | A printed file of blank-free tokens reads back to the lines written. |
| History.MergeIps | dns_relay/src/handler.rs:396-400 | The inner loop appends each address not seen before and records it. |
| History.LoadFile | dns_relay/src/handler.rs:379-389 | Reading fills the three collections line by line, a later line of a domain replacing its addresses. |
| History.AddBatch | dns_relay/src/handler.rs:390-401 | The batch loop merges entries in order. |
| History.TrimBook | dns_relay/src/handler.rs:403-409 | The drain loop removes the front of the order beyond the limit from all collections. |
| History.WriteLines | dns_relay/src/handler.rs:411-420 | Writing prints every line of the order, or fails at a domain that is missing. |
| History.HistoryBuffer.constructor | dns_relay/src/handler.rs:282-296 | A new buffer is empty. |
| History.HistoryBuffer.Flush | dns_relay/src/handler.rs:360-425 | A flush empties the queue and replaces the file by the worked-out lines; an empty batch leaves the file, a domain missing from the map is a panic that leaves it too, and a failed write leaves the old file or the new one cut short. |
| HistoryInvariant.FreshIsFirstSeen | dns_relay/src/handler.rs:390-401 | The merged list holds every element once, ordered by where it is first met. |
| HistoryInvariant.FlushExact | dns_relay/src/handler.rs:360-425 | From a file without repetitions a flush never meets a missing domain and writes exactly the last lines_count domains of file-then-batch first-seen order, each with its file-then-batch addresses in first-seen order. |
| HistoryInvariant.FlushMeaning | dns_relay/src/handler.rs:379-420 | What is written are the last lines_count of the distinct domains of file and batch in first-met order, each with exactly the addresses the file or the batch lists for it, the file's first. |
| HistoryInvariant.FlushesKeepFile | dns_relay/src/handler.rs:360-425 | From an absent file or any of blank-free lines without repetitions, over any series of flushes of blank-free entries with any limits and writes that succeed or do not open the file, none panics, every written flush writes exactly the last lines_count domains of file-then-batch order with their addresses in first-seen order, and the file reads back as written. |
| HistoryInvariant.FlushFailsExactly | dns_relay/src/handler.rs:403-414 | For any file and batch a flush fails if and only if a domain is both among the dropped and the kept lines. |
| HistoryInvariant.SpacedDomainFails | dns_relay/src/handler.rs:379-414 | A series of two flushes that fails because a domain has a space in it. |
| HistoryCut.CutRereads | dns_relay/src/handler.rs:379-420 | A file cut anywhere is read as the domains of its first lines, and perhaps one domain cut short. |
| HistoryCut.CutHarmlessExactly | dns_relay/src/handler.rs:403-420 | No cut of a written file makes any later flush panic if and only if no domain in it begins with the domain of an earlier line. |

## Left out

- Query.KeySurvivesEcs: says nothing about names read, through a pointer, from octets that injection moves or from ARCOUNT, because what they then spell is up to those octets (Query.PointerChangesKey).
- Dispatcher.UdpDispatcher.Register: needs fewer than 65536 pending entries, because otherwise the draw loop does not end (Dispatcher.AllocationEndsExactly).
- Query.KeySeparates: is stated for ASCII labels without dots, because a dotted label is spelled like two labels.
- KeyBits.RdBit: leaves out names read from the replaced octet, because they then spell something else (KeyBits.KeyReadsTwoBits, KeyBits.FlagsReadAsName).
- KeyBits.CdBit: likewise.
- HistoryInvariant.FlushesKeepFile: needs entries without white space, because others are read back as other lines, and writes that are not cut short (HistoryCut.CutHarmlessExactly). A cut falls between characters.
- Sockets, the tokio runtime, timers, DoH, QUIC, HTTP relays and the listener loops: upstream answers are arbitrary bytes, and time is a parameter that does not run backwards.
- Hedging between candidates and retries upstream: a leader gets any accepted answer or a failure.
- File reading, path checks, TOML, UTF-8 decoding, Unicode lower-casing, address text parsing and whether a configuration exposes health are parameters or outcomes of the model.
- Parsing of block lists in their various formats, and the list of referenced rule files.
- The trie is a tree of values that an insertion rebuilds along its path, so the update through nested mutable references is not captured.
- The steps of the dispatcher, flight and pipeline protocols are functions on values: locks are not modelled beyond the atomicity of their sections.
- The LRU map and the unstable sort are library code: modelled by recency order, and by a sort of which only sortedness and permutation are used.
- Offsets are unbounded, so an overflow of the address size is not modelled.
- Filling the history buffer, its pattern filter, its counter of dropped entries, and flushes that overlap at shutdown.
- Removing domains from the cache by pattern is a step that removes any set of keys, and the separate cache of URL addresses is not modelled.
- Encryption, authentication and the framing of relayed packets.
- Picking of relays and targets, hedge delays, public-subnet tests and the unused least-TTL helper: each is settled by reading one expression.
- The graphical interface, network guard, platform services, metrics, command line and the worker script.
