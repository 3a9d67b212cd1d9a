# netdb verification model

netdb keeps one relational source of truth for a network: hosts, NICs, IP assignments, subnets, DNS zones and
DNS records. Everything else is made to agree with it, over and over. The synthesizer derives DNS records from
the addresses and converges the automatic rows of `dns_records` to them. The reconciler pushes the enabled records
of each zone to Cloudflare or Technitium. The Kea syncer builds the DHCP server's configuration, and the lease
poller brings Kea's leases back in as dynamic addresses. A small DHCP probe carries its own packet codec.

This project is a Dafny model of those convergence algorithms, of the wake-up protocol that drives them, and of
the codecs at their edges, with proofs of what they achieve. Objects that change state (the store, a hosted zone)
are classes; loops are loops, proved against specification functions or relations; a transaction is a method
that works on a copy of the tables and commits by storing it. `dafny verify dfyconfig.toml` checks everything.

| files | what they hold |
|---|---|
| `Basics`, `Text`, `Ordering`, `Net` | small types, Go string functions, `ORDER BY`, `net/netip` addresses and prefixes, reverse names |
| `Database`, `Store` | the tables with their UNIQUE and CASCADE constraints, the queries, manual records, the flattening query |
| `Placement`, `Synth` | subnet choice, and the loops of `buildDesired` as a fold over emissions |
| `SynthMeaning`, `Traversal`, `Derivation` | the emissions as a relation over the tables, their order, and what is wanted in terms of the tables alone |
| `Apply`, `Run` | `apply` and `synth.Run` |
| `StoreInvariant`, `History` | an invariant, and every reachable state of the store under edits, deletions, manual records, runs and lease polls |
| `Publishing`, `PointerExample`, `EndToEnd` | what the flattening query publishes right after a run, a network on which a PTR is published wrongly, and the pipeline from tables to remote zone |
| `ReverseZones` | reverse names against prefixes, and what the raw suffix test accepts |
| `Remote`, `Reconcile`, `Convergence`, `Failures` | a fallible provider zone, one reconcile pass, many clean passes, and passes among which some fail |
| `ProviderCodec` | record codecs of both providers and Cloudflare's paging |
| `Encoded`, `EncodedReconcile`, `ProviderZones` | passes over a zone that stores encoded records, the loops that make them, and when they converge at each provider |
| `ToProviders` | the pipeline from tables to either provider, records encoded |
| `Wakeup` | the ticker, trigger slot and worker of all three background loops |
| `Mac`, `Leases`, `Polling`, `Repolling` | canonical MACs and host names, lease upserts and pruning, what a poll and a repeated poll leave |
| `ShortForm`, `KeaConfig` | pool bounds and resolver lists, the configuration builder |
| `Dhcp` | the probe's DHCP packet printer and parser (RFC 2131, RFC 2132) |

## How the parts fit

`Synth.BuildDesired` is the loop nest, proved equal to a fold over emissions. `SynthMeaning` and `Traversal` prove what
is emitted and in which order, and `Derivation` turns the fold into a relation over table rows in which no loop or list
occurs. `Apply.Converge` is proved to reach `Applied`, a relation that says what the tables are afterwards; `Run`
combines the two, and `History` proves an invariant of all reachable states from which it follows that a run never
violates a constraint. `Reconcile.ReconcileZone` is proved to account for every operation of a pass under arbitrary
failures: a provider's zone records what it was asked and how it answered, nothing else is asked of it, and what failed is
exactly what it refused (`Reconcile.OkIffAllGranted`). `Convergence` derives from that account how many passes it takes
until a remote zone mirrors the store. `EndToEnd` joins these into one theorem from the tables before a run to the keys in the remote zone. `Reconcile` assumes
that an added record lists back under its own key. `Encoded` drops the assumption, for a provider that keeps all it is
sent under new handles and for one that keeps a single entry for each name, type and value; `EncodedReconcile` proves that
the two loops make such passes, `ProviderZones` at which records the assumption fails and that passes converge exactly
when it holds for every wanted one, and `ToProviders` which tables call for no such record.

## Where the code differs from what is said about it

The model follows the code.

- Flattening prefers a bound address for every record type, and automatic PTR rows are bound. So right after a run an
  automatic PTR is published with the address it points from, although the comment at internal/store/dns.go:84-86 says
  otherwise. It then comes out as its target exactly when that address's text is the name pointed to, label, dot and
  forward zone (`Publishing.PointerShowsTargetIff`); with labels that hold no colon and forward zones that do not end in
  a digit, which a caller can check before the run, it does not (`Publishing.PointersNeverShowTargets`). `PointerExample`
  is a network on which the PTR of 10.0.0.5 to web.lan is published as 10.0.0.5.
- Until the next run the binding may be gone. In every reachable state a published automatic PTR is an assigned address
  whose reverse name is the record's, or its target if it is unbound (`History.PublishedPointer`), and it is unbound only
  because an earlier step deleted the address row (`History.UnboundWasCascaded`). So while no stale address is ever
  published for a name (`History.NoStaleAddress`), the PTR of a deleted address is, as its target
  (`PointerExample.PointerFallsBackToTarget`).
- A reverse zone is matched as a raw text suffix without a label boundary. For aligned prefixes of every length this
  agrees with containment exactly for IPv6 zones, for in-addr.arpa itself, and for IPv4 zones whose own octet is at least
  100; every other IPv4 zone, of /8, /16, /24 or /32, also takes PTRs of some address outside its prefix
  (`ReverseZones.SuffixTestExactIff`, `ReverseZones.UnsafeZoneTakesAStranger`).
- A wanted record that its provider spells differently is never seen as present. A manual MX written "010
  mail.example.com" is added at Cloudflare in every pass, and what an earlier pass added is deleted again
  (`ProviderZones.LeadingZeroNeverSettles`). At Technitium, where an add that meets an equal entry is answered "already
  exists" and counted as a success, one pass puts the record in and the next one adds it to no effect and deletes it
  (`ProviderZones.LeadingZeroComesAndGoes`). Passes converge exactly when no such record is wanted and missing
  (`ProviderZones.CloudflareConvergesIff`, `ProviderZones.TechnitiumConvergesIff`); where Cloudflare shows contents in
  absolute form this needs names without bars (`ProviderZones.BarsCoverForEachOther`).
- `Record.Key` joins its fields with bars. With bars inside names, different records share a key
  (`Remote.KeyMeaning`, `Remote.BarsCollide`). The delete-and-add on a TTL change that the comment at
  internal/dnsprov/types.go:25-27 mentions does not exist: records on both sides are left as they are, TTL included
  (`Convergence.SharedKeysUntouched`).
- Repeating the same lease poll is not always the identity. If a lease was refused because both names for its new MAC
  were taken, and a later lease of the same MAC got in, the next poll lets the first one in too. The repeat is the
  identity exactly when the first poll left no such lease behind (`Repolling.SettledIff`, `Repolling.RepeatIsIdentityIff`),
  and a third poll always is (`Repolling.ThirdPollIsIdentity`).
- A synthesizer run fails exactly when a disabled manual row holds a wanted key that no enabled one overrides
  (`Run.RunFailsIff`). No store operation disables a row, so in reachable states this does not happen
  (`History.SynthesisAlwaysSucceeds`).
- Cloudflare's page loop stops at the first answer without a page count. The listing is complete exactly when no later
  page holds a managed record (`ProviderCodec.ListingCompleteIff`), as when every answer reports the number of pages
  (`ProviderCodec.FullCountsListAll`). It can miss records (`ProviderCodec.SecondPageUnlisted`); then each pass adds
  another copy of every wanted record that is there but not listed (`Convergence.UnlistedCopies`).

## Model

| member | source | states |
|---|---|---|
| Placement.ParseSubnets | internal/synth/synth.go:83-95 | the listed subnets that parse, in listing order; the others are skipped |
| Placement.FindSubnet | internal/synth/synth.go:136-146 | the loop stops at the first prefix that contains the address, or finds none |
| Placement.SubnetForMeaning | internal/synth/synth.go:83-146 | the chosen subnet is the covering one whose CIDR text is least, and there is none exactly when no subnet covers the address |
| Synth.AddForward | internal/synth/synth.go:164-181 | one address record a forward link, of type A for an IPv4 address and AAAA for an IPv6 one; bindings accrete in the wanted map |
| Synth.AddReverse | internal/synth/synth.go:190-206 | one PTR a suffix-matching reverse link, and an existing key is left alone |
| Synth.PtrZone | internal/synth/synth.go:150-162 | the forward link with the least zone name |
| Synth.BuildDesired | internal/synth/synth.go:73-212 | the five-deep loop nest computes the fold of all emissions, `Desired` |
| Derivation.AddressRecords | internal/synth/synth.go:109-181 | an A or AAAA key is wanted iff some static or reserved, parseable address of a DNS-enabled host, on its chosen subnet, has a forward link giving that name and type; its bindings are exactly those addresses, none twice, and all of the IPv4 family for A and of the IPv6 family for AAAA; its zone and TTL are those of the first of them by host name, MAC, address text and zone name |
| SynthMeaning.NamesIffInFull | internal/synth/synth.go:109-181 | a row names a key iff, column by column: it is static or reserved, its host takes part in DNS, its text is an address on its chosen subnet, that subnet has the forward link, the name is the DNS name or else the host name, a dot and the zone, the target is empty, and the type is A iff the address is IPv4 and AAAA iff it is IPv6 |
| Derivation.PointerRecords | internal/synth/synth.go:148-206 | a PTR key is wanted iff some such address has a least-named forward link and a reverse link whose zone name is a raw suffix of its reverse name; it is bound to the first such address and filed under the first such zone |
| SynthMeaning.PointsIffInFull | internal/synth/synth.go:148-206 | a row points with a key iff, column by column: the same, with the reverse name as the name, and as the target the name under the one forward link whose zone name is least |
| Derivation.RecordsLieInTheirZone | internal/synth/synth.go:173-205 | every wanted record's name ends with the name of the zone it is filed under |
| Traversal.AllOrdered | internal/synth/synth.go:109-206 | emissions of one key come in the order of host name, MAC, address text and zone name |
| SynthMeaning.AllOnce | internal/synth/synth.go:109-181 | no address contributes twice to one address record, because zone names and links are unique |
| Net.ParseV4Exact | internal/synth/synth.go:131-134 | IPv4 text parses to an address iff it is exactly what that address prints as |
| Net.FirstMarkDecides | internal/synth/synth.go:131-134 | a text with a colon before any dot or percent sign is read as IPv6 whatever follows, and a text without any of them is no address |
| Net.ParsePrefixExact | internal/synth/synth.go:83-95 | a text is a prefix iff it is the text of an address without zone, a slash, and a length in decimal without leading zero, up to 32 or 128 |
| ReverseZones.ContainsByNibbles | internal/synth/synth.go:136-146 | for prefixes of any length: an address is in the prefix iff it is of its family, without zone, and agrees with it in all whole nibbles of the prefix length and in the leading bits of the next one |
| Ordering.LessIsLexicographic | internal/synth/synth.go:150-162 | text order is decided by the character code at the first difference, and a text comes after its prefixes |
| Net.ReverseFqdn | internal/synth/synth.go:215-229 | the sprintf and the nibble loop give the labels of the address in reverse, under in-addr.arpa or ip6.arpa |
| Net.ReverseNameV4 | internal/synth/synth.go:216-219 | the four octets in decimal, last first, under in-addr.arpa |
| Net.ReverseNameV6 | internal/synth/synth.go:220-229 | character by character: of each byte, last first, the low nibble and then the high one in lower-case hexadecimal, each followed by a dot; then ip6.arpa |
| ReverseZones.ReverseNameInjective | internal/synth/synth.go:215-229 | zoneless addresses share a reverse name only if they are equal |
| ReverseZones.ContainedIffSubdomain | internal/synth/synth.go:188-196 | for octet- or nibble-aligned prefixes: the address is in the prefix iff its reverse name ends with a dot and the reverse zone's name |
| ReverseZones.FullLengthIsTheNameItself | internal/synth/synth.go:188-196 | for a prefix of full length: the address is in it iff its reverse name is the zone name |
| ReverseZones.RootZoneIsExact | internal/synth/synth.go:194-196 | a zone without labels of its own takes exactly the addresses of its family |
| ReverseZones.RawSuffixAcceptsThePrefix | internal/synth/synth.go:194-196 | the code's suffix test accepts every address of the zone's prefix, whatever its length |
| ReverseZones.RawSuffixMeaning | internal/synth/synth.go:194-196 | what the suffix test accepts: same family, the labels above the zone's own one equal, and that one a text suffix |
| ReverseZones.UnsafeZoneTakesAStranger | internal/synth/synth.go:194-196 | for every IPv4 zone whose own octet is below 100, an address outside the prefix that the test accepts |
| ReverseZones.SuffixTestExactIff | internal/synth/synth.go:194-196 | for every aligned prefix: the test means containment iff the zone is IPv6, has no label of its own, or its own octet is at least 100 |
| Apply.SyncBindings | internal/synth/synth.go:302-343 | succeeds iff every wanted address exists; then the record's bindings are the wanted set and all others are unchanged |
| Apply.LoadExistingAuto | internal/synth/synth.go:282-300 | the map from key to identifier of the automatic rows |
| Apply.PutRow | internal/synth/synth.go:246-267 | update in place or insert under a fresh identifier; fails iff a manual row has the key or the zone does not exist |
| Apply.ConvergeKeys | internal/synth/synth.go:245-271 | whatever the iteration order, all wanted keys are converged, or the transaction fails iff some constraint would be violated |
| Apply.Converge | internal/synth/synth.go:233-280 | the transaction succeeds iff the wanted records meet the constraints, and then `Applied` holds |
| Apply.AutoRowsAreWanted | internal/synth/synth.go:233-280 | afterwards automatic rows biject with the wanted keys, with the wanted TTL, zone and binding set |
| Apply.ManualRowsUntouched | internal/synth/synth.go:282-284 | manual rows and their bindings are unchanged, and surviving automatic keys keep their row identifier |
| Apply.AppliedTwice | internal/synth/synth.go:233-280 | applying the same records again is the identity on rows, identifiers and bindings |
| Apply.OrderIndependent | internal/synth/synth.go:245-271 | two outcomes from one state agree on every wanted row and its bindings, up to the identifiers of new rows |
| Apply.AppliedValid | internal/store/migrations/001_initial.sql:54-74 | the tables still meet UNIQUE and foreign-key constraints |
| Run.NameAndTypeInjective | internal/synth/synth.go:68 | the joined text of name and type identifies the pair |
| Run.Suppress | internal/synth/synth.go:44-48 | exactly the keys without a manual record of their name and type that is enabled stay, with what was wanted for them |
| Run.Run | internal/synth/synth.go:35-53 | fails and changes nothing iff a constraint stands in the way; otherwise converges to the derivable records that no manual one overrides |
| Run.RunFailsIff | internal/synth/synth.go:35-71 | a run fails iff a disabled manual row holds a wanted key |
| Run.ManualWins | internal/synth/synth.go:31-48 | after a run no name and type has both an enabled manual row and an automatic one |
| Run.RunIdempotent | internal/synth/synth.go:35-53 | a second run over unchanged tables is the identity |
| Storage.Store.CreateManualDnsRecord | internal/store/dns.go:34-64 | succeeds iff the type is reconcilable, the zone exists and the key is free; adds one enabled manual row of that type, with the TTL asked for if it is positive and the zone's default otherwise; else nothing changes |
| Storage.Store.DeleteDnsRecord | internal/store/dns.go:69-82 | removes the row and its bindings, and reports whether it was there |
| Storage.ListDesiredRecordsByZone | internal/store/dns.go:88-118 | one row for each join of an enabled record of the zone with a live binding, or with none, whose value is not empty; each join once, ordered by name, then type as text, then value |
| Storage.FlattensIff | internal/store/dns.go:94-103 | which joins these are, column by column |
| Storage.NotAfterIff | internal/store/dns.go:103 | the query's order of two rows, as a comparison of names, of types as text where names agree, and of values where both do |
| Database.HostsDeleted | internal/store/migrations/001_initial.sql:26-73 | deleting hosts leaves exactly the other hosts, the NICs of these, their addresses, and the bindings to those, and no other table changes |
| Database.ZonesDeleted | internal/store/migrations/002_zones.sql:26-38 | deleting zones leaves exactly the other zones, the links to these, the records filed under none of the deleted ones, and their bindings |
| History.ReachableIsGood | internal/store/migrations/001_initial.sql:26-76 | in every state reachable by edits, deletions, manual records, runs, and the upserts and prunes of lease polls in any order: constraints hold, stored MACs are canonical, every row is enabled, only automatic rows are bound, automatic address rows to addresses of their family and automatic PTR rows to one address at most, whose reverse name is theirs |
| History.SynthesisAlwaysSucceeds | internal/synth/synth.go:35-53 | in no reachable state does a run violate a constraint |
| History.NoStaleAddress | internal/store/dns.go:94-103 | in no reachable state does an automatic address record yield an address that is no longer assigned, even before the next run; what it yields is the text of an IPv4 address for type A and of an IPv6 address for AAAA |
| History.PublishedPointer | internal/store/dns.go:94-103 | in every reachable state a published automatic PTR is the text of an assigned address whose reverse name is the record's, its only binding, or, if it is bound to none, its target |
| History.UnboundWasCascaded | internal/store/migrations/001_initial.sql:70-73 | an automatic PTR is unbound only because an earlier step deleted the address row it was bound to, and has been unbound ever since |
| PointerExample.PointerFallsBackToTarget | internal/store/dns.go:94-103 | on the example network, whose names are ordinary, deleting the address after a run makes the PTR come out as web.lan while the address is no longer assigned |
| StoreInvariant.AutoRowIff | internal/synth/synth.go:35-53 | after a run an automatic row exists iff its key is derivable and not overridden |
| History.DeletingManualRestores | internal/store/dns.go:66-82 | deleting the one manual record in the way brings the derivable automatic row back at the next run |
| Publishing.PointerShowsTargetIff | internal/store/dns.go:94-103 | right after a run an automatic PTR is published as its target iff the text of the first address that points with it is the name it points to: the host's label, a dot and the least-named forward zone |
| Publishing.PointersNeverShowTargets | internal/store/dns.go:94-103 | if no label holds a colon and no forward zone name is empty or ends in a digit, no automatic PTR is published as its target right after a run |
| PointerExample.PointerPublishedWrongly | internal/store/dns.go:94-103 | on a network with one host, one address, its subnet and both links, the PTR of 10.0.0.5 to web.lan is published as 10.0.0.5 after any run |
| Publishing.ManualPublishedAsWritten | internal/store/dns.go:89-93 | a manual record yields one row, its target, iff that is not empty |
| Publishing.PublishedAddresses | internal/store/dns.go:94-103 | after a run the addresses published for an automatic key are exactly those of the rows that name it |
| Publishing.PublishedTtl | internal/synth/synth.go:164-206 | after a run, whatever is published of an automatic record carries the default TTL of the zone it is published in |
| Publishing.PointerPublishedAsAddress | internal/store/dns.go:94-103 | right after a run an automatic PTR is published once, with the address of the first row that points with it |
| EndToEnd.RunMakesStoreWant | internal/synth/synth.go:35-53 | after a run the keys wanted in a zone are exactly those of the rows that name or first point in it, not overridden, and of its manual records |
| EndToEnd.ZoneHoldsWhatTablesCallFor | internal/reconcile/reconcile.go:193-252 | a run from a good state and n OK passes leave in the remote zone exactly the keys the tables before the run call for, iff no other key began with more than n copies |
| ToProviders.TechnitiumHoldsWhatTablesCallFor | internal/dnsprov/technitium/technitium.go:236-279 | the same for a Technitium zone with its encoding: if forward zones and addresses have no final dot and Technitium keeps the zone's manual records, a run and n OK calls leave exactly the keys the tables call for, iff no other key began with more than n entries |
| ToProviders.CloudflareHoldsWhatTablesCallFor | internal/dnsprov/cloudflare/cloudflare.go:214-252 | the same for a Cloudflare zone whose server shows CNAME and PTR contents as sent |
| ToProviders.ReconcilableTypes | internal/store/dns.go:24-29 | A, AAAA, CNAME, TXT, MX and PTR are the types accepted by hand, those Cloudflare's listing keeps, and those Technitium's adapter sends and lists; each is stored under its own name |
| Remote.KeyMeaning | internal/dnsprov/types.go:28 | keys agree iff the bar-separated parts of name, type and value agree as one list |
| Remote.KeyIsTriple | internal/dnsprov/types.go:24-28 | without bars in name and type, keys agree iff name, type and value do |
| Remote.BarsCollide | internal/dnsprov/types.go:28 | two different records with one key |
| Remote.GrantedMeansDone | internal/reconcile/reconcile.go:208-251 | if the calls of a pass are the ensuring, the listing, one add for each missing key and one delete for each stray one, up to the first of the former two that is refused, and what failed is what was refused, then nothing was refused iff the pass compared and nothing failed |
| Remote.HostedZone.AddRecord | internal/dnsprov/types.go:38 | adds one record under a fresh handle, or fails and changes nothing; the call and its answer are recorded |
| Remote.HostedZone.DeleteRecord | internal/dnsprov/cloudflare/cloudflare.go:242-252 | deletes the record with the handle, or fails and changes nothing; the call and its answer are recorded |
| Reconcile.LoadDesired | internal/reconcile/reconcile.go:196-206 | one record for each key of a flattened row, with the name, type, value and TTL of the last row with that key in the query's order |
| Reconcile.AddMissing | internal/reconcile/reconcile.go:225-234 | an add is asked for each desired key the zone lacks, once, and for nothing else; the keys granted are those added, those refused are those that failed, and the counters count them |
| Reconcile.DropStrays | internal/reconcile/reconcile.go:235-244 | a delete is asked for each stray key, once, and for nothing else; of each key granted one copy is gone, the keys refused are those that failed, and the counters count them |
| Reconcile.CompareAndApply | internal/reconcile/reconcile.go:218-251 | the adds and then the deletes, and no other call; added keys and refused adds partition desired minus actual, deleted and refused deletes partition actual minus desired, and the zone is OK iff nothing failed |
| Reconcile.ReconcileZone | internal/reconcile/reconcile.go:193-252 | the whole pass is accounted for against what the provider was asked and answered: it ends early iff ensuring or listing was refused, and then leaves the zone unchanged and not OK; otherwise every difference was asked for once, and failed iff it was refused |
| Reconcile.OkIffAllGranted | internal/reconcile/reconcile.go:208-251 | a zone is reported OK iff the provider refused nothing of what it was asked |
| Reconcile.ReconcileProvider | internal/reconcile/reconcile.go:177-190 | every zone is accounted for, from what it held before to what it holds now and the calls made of it in between; totals are the sums over the zones, and the provider is OK iff every zone is |
| Convergence.SharedKeysUntouched | internal/reconcile/reconcile.go:225-238 | under any failures, records whose key is on both sides are left exactly as they were |
| Convergence.KeySetBounds | internal/reconcile/reconcile.go:224-244 | under any failures the key set stays between the intersection and the union of both sides |
| Convergence.CountsBalance | internal/reconcile/reconcile.go:224-251 | added plus failed adds, and deleted plus failed deletes, are the sizes of the two differences |
| Convergence.OkIsClean | internal/reconcile/reconcile.go:246-251 | a zone reported OK had every missing key added and one copy of every stray key deleted |
| Convergence.GrantedIsClean | internal/reconcile/reconcile.go:208-251 | if the provider refuses nothing, every missing key is added, one copy of every stray key is deleted, and the zone is reported OK |
| Convergence.AddedIsFlattened | internal/reconcile/reconcile.go:202-233 | every record a pass adds is, TTL included, what the last of the flattened rows with its key says |
| Convergence.AddedFields | internal/store/dns.go:94-116 | field by field: the name, type as text and TTL of an enabled record of the zone, and the text of an address bound to it or, if it has none, its target |
| Convergence.CopiesAfterPass | internal/reconcile/reconcile.go:218-244 | one clean pass: a desired key has at least one copy and loses none, a stray key has exactly one copy fewer |
| Convergence.StraysDecrease | internal/reconcile/reconcile.go:235-244 | the number of stray records falls by the number of stray keys |
| Convergence.ConvergedIff | internal/reconcile/reconcile.go:193-252 | after n clean passes, n at least 1, the key set is the desired one iff no stray key began with more than n copies |
| Convergence.StaysConverged | internal/reconcile/reconcile.go:193-252 | from then on later clean passes change nothing |
| Convergence.ZoneMirrorsStore | internal/reconcile/reconcile.go:193-252 | n OK passes over an unchanged store leave exactly the keys of its flattened rows iff no unwanted key began with more than n copies |
| Convergence.LoadedTwice | internal/reconcile/reconcile.go:196-206 | two passes over one store load the same records, but for the TTLs of rows that tie in name, type and value |
| Failures.CopiesAfterCalls | internal/reconcile/reconcile.go:225-251 | over any series of calls, whatever failed in them: no wanted key that was there is lost, no stray key gains a copy, and each call reported OK takes a copy off every stray key |
| Failures.MirrorsDespiteFailures | internal/reconcile/reconcile.go:193-252 | OK calls among failed ones converge as soon as they are as many as the most copies of a stray key, and at least one |
| ProviderCodec.CfSurvivesIff | internal/dnsprov/cloudflare/cloudflare.go:214-240 | a record comes back from an ideal Cloudflare iff its type is managed, its name has no final dot, an MX value is a canonical integer, a blank and an undotted name, and a CNAME or PTR value is dotted where the server shows contents in absolute form |
| ProviderCodec.CfSentFields | internal/dnsprov/cloudflare/cloudflare.go:219-238 | what is sent: name, type and TTL as they are, the value as content, but of an MX the text behind the first blank as content and the number before it as priority; refused iff an MX has no blank or no number |
| ProviderCodec.CfReadFields | internal/dnsprov/cloudflare/cloudflare.go:185-200 | what is read back: handle, type and TTL as they are, the name without one final dot, the content as value, but of an MX the priority, a blank and the content without one; other types than the six are passed over |
| ProviderCodec.AtoiIff | internal/dnsprov/cloudflare/cloudflare.go:231-234 | a preference is a number iff it is at most one sign and then digits, of a value that fits in 64 bits |
| ProviderCodec.ListedMxIsCanonicalIff | internal/dnsprov/cloudflare/cloudflare.go:189-192 | the preference of a listed MX is canonical, so its value is iff its exchange is undotted |
| ProviderCodec.TechnitiumSurvivesIff | internal/dnsprov/technitium/technitium.go:196-305 | with a server that takes and lists each type's value in the field the provider's API names for it, and refuses a request without it: a record comes back iff its name has no final dot and its value is canonical for its type |
| ProviderZones.CfKeySurvivesIff | internal/dnsprov/cloudflare/cloudflare.go:185-240 | Cloudflare lists a record back under its own key iff its type is managed, its name undotted, an MX value canonical, and a CNAME or PTR value dotted where the server shows contents in absolute form |
| ProviderZones.TechKeySurvivesIff | internal/dnsprov/technitium/technitium.go:196-234 | Technitium lists a record back under its own key iff its name is undotted and its value canonical |
| ProviderZones.CloudflareConvergesIff | internal/reconcile/reconcile.go:193-252 | after n clean passes over a Cloudflare zone, from any start, the listed keys are the wanted ones iff every wanted record not listed at the start is one Cloudflare keeps and no stray key began with more than n copies; where contents are shown in absolute form, for names and types without bars |
| ProviderZones.BarsCoverForEachOther | internal/dnsprov/cloudflare/cloudflare.go:185-240 | with bars in names and contents shown in absolute form, two records that are not kept list back under each other's key |
| ProviderZones.TechnitiumConvergesIff | internal/dnsprov/technitium/technitium.go:236-279 | the same for a Technitium zone, one entry for each name, type and value, where an add that meets an equal entry succeeds without effect and a delete goes by name, type and value |
| ProviderZones.LeadingZeroNeverSettles | internal/dnsprov/cloudflare/cloudflare.go:226-237 | a manual MX whose preference is written 010 is added in every pass, and deleted in every pass but the first |
| ProviderZones.LeadingZeroComesAndGoes | internal/dnsprov/technitium/technitium.go:248-253 | from an empty Technitium zone the same record is reported as added in every pass, and what it lists back as is deleted in every second pass and there before exactly these |
| Encoded.SurvivingPassIsClean | internal/reconcile/reconcile.go:213-245 | over a zone of encoded records of either kind, a pass whose missing records all survive is, for the listing, the clean pass of the convergence theorems |
| Encoded.AddedAndDeletedForEver | internal/reconcile/reconcile.go:225-245 | where every add makes an entry: a wanted record that lists back under an unwanted key, and that no other brings back, is added in every pass and deleted in every later one |
| Encoded.ComesAndGoes | internal/reconcile/reconcile.go:225-245 | where adding what is there changes nothing: such a record is reported as added in every pass, and what it lists back as is there before every other pass and deleted in exactly these |
| Encoded.ConvergesIff | internal/reconcile/reconcile.go:193-252 | for any codec, of either kind of provider, under which wanted records that change their key fall in rank: n clean passes converge iff every record missing at the start survives and no stray key began with more than n copies |
| EncodedReconcile.EncodedZone.AddRecord | internal/dnsprov/technitium/technitium.go:236-257 | fails and changes nothing, also where the record is refused; else changes nothing if the provider holds its like, and stores it as a new entry if not; the call and its answer are recorded |
| EncodedReconcile.EncodedZone.DeleteRecord | internal/dnsprov/technitium/technitium.go:259-279 | fails and changes nothing, or takes out the entries of that name, type and value, or that handle at a provider that goes by handles; the call and its answer are recorded |
| EncodedReconcile.AddMissingEntries | internal/reconcile/reconcile.go:225-234 | an add is asked for each desired key not listed, once; the keys granted are added or found to be there already, those refused failed, and the counters count them |
| EncodedReconcile.DropStrayEntries | internal/reconcile/reconcile.go:235-244 | a delete is asked for each stray key, once; of each key granted one entry listed under it is gone, and no other, and the keys refused failed |
| EncodedReconcile.ReconcileEntries | internal/reconcile/reconcile.go:193-252 | the whole call over encoded entries is accounted for against what was asked and answered: operations granted and refused partition both differences of the listed keys |
| EncodedReconcile.EncodedOkIffAllGranted | internal/reconcile/reconcile.go:208-251 | a zone of encoded entries is reported OK iff nothing that was asked was refused, by the provider or by its adapter |
| EncodedReconcile.OkIsEncodedPass | internal/reconcile/reconcile.go:246-251 | a call reported OK made a pass of the kind the convergence theorems are about |
| EncodedReconcile.GrantedIsEncodedPass | internal/reconcile/reconcile.go:208-251 | if nothing is refused, the pass is of that kind, and the zone is reported OK |
| ProviderCodec.CfListRecords | internal/dnsprov/cloudflare/cloudflare.go:174-211 | the page loop returns the managed records of the pages up to the first answer that reports no page after itself, in order |
| ProviderCodec.ListingCompleteIff | internal/dnsprov/cloudflare/cloudflare.go:202-209 | nothing is missed iff no page after that one holds a managed record |
| ProviderCodec.MissingCountStops | internal/dnsprov/cloudflare/cloudflare.go:205-209 | one answer without a page count ends the listing there |
| ProviderCodec.FullCountsListAll | internal/dnsprov/cloudflare/cloudflare.go:202-209 | if every answer reports at least as many pages as there are, everything managed is listed |
| ProviderCodec.SecondPageUnlisted | internal/dnsprov/cloudflare/cloudflare.go:205-209 | two pages with a record each, the first answer without a count: only one record is listed |
| Convergence.UnlistedCopies | internal/reconcile/reconcile.go:213-245 | a clean pass that lists only part of the zone adds a copy of every wanted key it does not see and leaves every stray it does not see |
| Wakeup.NoLostWakeup | internal/reconcile/reconcile.go:95-119 | in every interleaving, once a trigger followed version v: the slot is full, a run is about to start, or a run has begun at v or later, unless the worker was stopped |
| Wakeup.RunsAreRequested | internal/reconcile/reconcile.go:95-110 | runs started never exceed one plus ticks plus triggers |
| Wakeup.BeginsAreAskedFor | internal/reconcile/reconcile.go:95-110 | the same of the actions themselves: in every interleaving there is at most one more start of a run than ticks and triggers |
| Wakeup.StopsOnlyOnCancel | internal/reconcile/reconcile.go:95-110 | a worker with a client returns only after a cancellation, and neither waits nor returns before its first run has begun |
| Wakeup.WaitingWorkerAnswers | internal/kea/sync.go:57-65 | in every reachable state a waiting worker can answer a tick or a trigger with a run, and a cancellation by returning |
| Wakeup.TriggersCoalesce | internal/reconcile/reconcile.go:112-119 | any number of triggers in a row queues one run |
| Wakeup.ServedWithinThreeMoves | internal/kea/sync.go:48-76 | after a trigger, any three moves of the worker include the start of a run that sees the change |
| Wakeup.OwedMeansEnabled | internal/kea/sync.go:57-65 | while a run is owed, some move of the worker is possible |
| Wakeup.NoClientNoRuns | internal/kea/leasepoll.go:43-71 | without a client the worker never runs and the slot stays empty |
| Mac.NormalizeMacLoop | internal/store/nics.go:14-35 | the loop form computes the canonical MAC or rejects the input |
| Mac.NormalizeMacIdempotent | internal/store/nics.go:14-35 | a canonical MAC normalises to itself and holds no bar |
| Mac.NormalizeMacAgreesIff | internal/store/nics.go:14-35 | accepted inputs agree iff their lower-cased hex digits do |
| Mac.NormalizeMacIff | internal/store/nics.go:14-35 | an input is accepted iff, blanks around it and separators removed, twelve hexadecimal digits of either case are left; the result is these in lower case, in pairs with colons between |
| Mac.EveryNotationAccepted | internal/store/nics.go:14-35 | twelve digits of either case, in groups of any size set off by colons, hyphens or dots, are accepted, to one form |
| Mac.SanitizeIdempotent | internal/store/dhcp_leases.go:102-112 | a sanitised host name holds only allowed characters and sanitises to itself |
| Mac.SanitizeLowers | internal/store/dhcp_leases.go:102-112 | case makes no difference, and a name that is fine but for its case comes out lower-cased |
| Mac.SanitizeKeeps | internal/store/dhcp_leases.go:102-112 | of the trimmed and lower-cased name exactly the letters, digits, hyphens and dots are kept, in order |
| Text.TrimmedSlice | internal/store/dhcp_leases.go:103 | trimming keeps the slice between the first and the last character that is no ASCII blank |
| Text.LowerByCode | internal/store/dhcp_leases.go:103 | lower-casing moves the codes 65 to 90 up by 32 and leaves every other character |
| Leases.CreateDiscoveredHost | internal/store/dhcp_leases.go:63-98 | adds a host outside DNS and a NIC; fails iff the chosen name and its MAC-suffixed form are both taken |
| Leases.UpsertDynamicLease | internal/store/dhcp_leases.go:22-58 | succeeds iff MAC and IP are valid and no name blocks it; a known pair changes nothing, a failure leaves every table unchanged |
| Leases.UpsertInFull | internal/store/dhcp_leases.go:22-58 | a lease taken in has a row with the printed form of its address, on the NIC whose MAC is its twelve digits in lower-case pairs; a new row is dynamic, and no other row changes |
| Leases.DiscoveredInFull | internal/store/dhcp_leases.go:63-98 | an unknown MAC brings one host, tagged dhcp-discovered and outside DNS, and one NIC; the name is the client's, made fit, or dhcp- and the twelve digits, with a hyphen and the first six digits behind it if it is taken |
| Leases.DeleteStaleDynamic | internal/store/dhcp_leases.go:116-145 | deletes exactly the dynamic rows whose pair was not seen, with their bindings, and counts them |
| Leases.Poll | internal/kea/leasepoll.go:92-118 | one upsert an active lease, then the prune; counts successful upserts and removed rows |
| Leases.SeenMeaning | internal/kea/leasepoll.go:92-101 | seen are exactly the leases in state 0 with a MAC and an address, as these two with a bar between |
| Polling.PollOutcome | internal/kea/leasepoll.go:92-118 | for any leases: a pair ends up dynamic iff it was seen in canonical form and was dynamic before or newly upserted; old rows keep their identity |
| Polling.PollMirrorsLeases | internal/kea/leasepoll.go:92-118 | for canonical leases the dynamic pairs are the old ones still active plus the upserted ones no row knew |
| Polling.UserRowsUntouched | internal/store/dhcp_leases.go:49-56 | static and reserved rows are the same before and after |
| Polling.RemovedCountsExpired | internal/kea/leasepoll.go:110-117 | the removed count is the number of old dynamic rows no longer active |
| Polling.DiscoveryKeepsInvariants | internal/store/dhcp_leases.go:60-98 | a poll keeps host names, MACs and all other constraints unique, and discovered hosts are outside DNS |
| Polling.PollKeepsGood | internal/kea/leasepoll.go:92-118 | the invariant of all reachable states survives a whole poll, prune included |
| History.PollIsRun | internal/kea/leasepoll.go:92-118 | a poll that nothing interrupts is one upsert a lease and a prune, each an operation of its own that others may precede and follow |
| Polling.AllMacs | internal/store/dhcp_leases.go:23-26 | stored MACs stay canonical through a poll |
| History.ReachablePollMirrors | internal/kea/leasepoll.go:92-118 | in every reachable state a poll of canonical leases leaves the dynamic pairs mirroring them, with no assumption on the stored MACs |
| Repolling.RepeatIsIdentityIff | internal/kea/leasepoll.go:92-118 | polling the same leases again changes nothing iff every acceptable lease already has its row |
| Repolling.AllIngestedSettles | internal/kea/leasepoll.go:93-109 | a poll in which every active lease was ingested settles |
| Repolling.SettledIff | internal/kea/leasepoll.go:93-118 | a poll settles iff it left no lease behind: refused, its MAC made known by another lease of the poll, its pair added by none |
| Repolling.TwoPollsSettle | internal/kea/leasepoll.go:93-118 | for canonical leases, two polls of the same leases settle, whatever the tables were |
| Repolling.ThirdPollIsIdentity | internal/kea/leasepoll.go:93-118 | a third poll of the same leases changes and removes nothing |
| Repolling.BlockedLeaseUnsettles | internal/store/dhcp_leases.go:70-83 | the family of polls after which the repeat does change rows |
| KeaConfig.ListReservations | internal/store/reservations.go:18-41 | the reserved rows, each once, ordered by address text |
| KeaConfig.PlaceOne | internal/kea/config.go:144-153 | the reservation is appended to the first entry whose prefix contains it, and to no other |
| KeaConfig.PlaceReservations | internal/kea/config.go:138-154 | every entry gains exactly the reservations that land in it, in order, and the count is the number placed |
| KeaConfig.BuildConfig | internal/kea/config.go:85-156 | the entries with pools, options and reservations, and the count |
| KeaConfig.PoolIsTwoAddresses | internal/kea/config.go:113-121 | a pool is pushed iff both ends are given and expand, and then it is the expanded start, a hyphen, and the expanded end, both addresses |
| KeaConfig.OptionsMeaning | internal/kea/config.go:121-129 | the options are the gateway as routers and the cleaned resolver list as domain-name-servers, each once and only if not empty, and no other |
| KeaConfig.EntryOfSubnet | internal/kea/config.go:102-136 | each entry is that of one subnet, with its identifier, CIDR, pool and options |
| KeaConfig.EntryReservations | internal/kea/config.go:138-154 | a reservation is in an entry iff it has the MAC, address text and host name of a reserved row whose address that subnet was chosen for |
| KeaConfig.PickedPositions | internal/kea/config.go:138-154 | an entry lists what lands in it once each, in the order it was read |
| KeaConfig.CountIsTotal | internal/kea/config.go:138-154 | the count is the number of reservations over all entries: none is placed twice |
| KeaConfig.KeaAgreesWithDns | internal/kea/config.go:138-154 | a reserved address is in the entry of its chosen subnet and no other, the same subnet the synthesizer files its records under |
| KeaConfig.ConfigListsParseableSubnets | internal/kea/config.go:102-136 | there is an entry for a subnet iff its CIDR parses |
| KeaConfig.EntriesAreSorted | internal/kea/config.go:102-136 | entries come in the order of their CIDR texts, which are all different |
| KeaConfig.ReservationsStaySorted | internal/kea/config.go:147-151 | the reservations of an entry stay in address-text order |
| ShortForm.ExpandExact | internal/kea/config.go:190-214 | an address is left as it is, trimmed; any other value expands iff the subnet is IPv4 and the value spells one to three octets, to the network's leading octets followed by them |
| ShortForm.ShortFormInsideIff | internal/kea/config.go:202-209 | every k-octet short form stays in the prefix iff the prefix has at most 8(4-k) bits |
| ShortForm.ExpandedIsAddress | internal/kea/config.go:190-214 | an expanded value parses as an address and is trimmed |
| ShortForm.ExpandPoolBoundsIdempotent | internal/kea/config.go:178-188 | expanded bounds expand to themselves under any subnet |
| ShortForm.Compact | internal/kea/config.go:163-170 | the in-place compaction keeps the non-blank parts, trimmed and in order, and never overwrites an unread one |
| ShortForm.CleanCsvInPlace | internal/kea/config.go:162-172 | the cleaned list |
| ShortForm.CleanCsvIdempotent | internal/kea/config.go:162-172 | the cleaned list reads back as its parts, so cleaning twice is cleaning once |
| ShortForm.CleanCsvSpaces | internal/kea/config.go:162-172 | a list of trimmed parts without blanks comes out with a blank behind every comma |
| ShortForm.CleanedEmptyIff | internal/kea/config.go:125-131 | nothing is left of a resolver list iff every part is blank |
| Dhcp.MarshalBinary | tools/dhcp-probe/main.go:57-84 | header, cookie, options in some order without repetition, end marker, zeros up to 300 bytes; transaction, seconds and flags stand at bytes 4, 8 and 10, most significant byte first, and the other fields, the four addresses and the cookie 99, 130, 83, 99 at theirs |
| Dhcp.MarshalledEnd | tools/dhcp-probe/main.go:74-83 | behind byte 240 come the options, 255, and then only zeros, to 300 bytes or no further |
| Dhcp.MarshalledFields | tools/dhcp-probe/main.go:58-72 | the place of every other field of the header, the hardware address included |
| Dhcp.AddressField | tools/dhcp-probe/main.go:136-144 | an address field is the four bytes given, the last four of an IPv4-mapped address, or zeros |
| Dhcp.ParseLoop | tools/dhcp-probe/main.go:86-134 | accepts iff there are 240 bytes with 99, 130, 83, 99 at 236, and computes the packet: numbers most significant byte first, and every other field from its place |
| Dhcp.WalkLoop | tools/dhcp-probe/main.go:112-132 | the option walk ends with every index in bounds, on any bytes |
| Dhcp.WalkMarks | tools/dhcp-probe/main.go:115-121 | a zero is passed over, and 255 ends the walk |
| Dhcp.ItemsAreSlices | tools/dhcp-probe/main.go:114-131 | every option is the slice its length byte announces, and its code is neither pad nor end |
| Dhcp.LastOccurrenceWins | tools/dhcp-probe/main.go:130 | an option code is stored iff it occurs, with the value of its last occurrence |
| Dhcp.ParseMarshal | tools/dhcp-probe/main.go:57-134 | printing then parsing a canonical packet gives it back, for every option order |
| Dhcp.RoundTripIff | tools/dhcp-probe/main.go:57-134 | a packet round-trips iff addresses have 4 bytes, the hardware address is as long as HLen says, and options have codes 1 to 254 and at most 255 bytes |
| Dhcp.NormalForm | tools/dhcp-probe/main.go:86-134 | for any accepted bytes, parse, print and parse again is parse |
| Dhcp.ReadMatching | tools/dhcp-probe/main.go:305-331 | the first datagram that is not skipped decides: the reply, or a refusal; without one, a timeout |
| Dhcp.JudgedByMessageType | tools/dhcp-probe/main.go:318-329 | a datagram is the reply iff it is op 2, of the transaction, with an option 53 beginning with the wanted type, and a refusal iff option 53 is the one byte 6 and 6 is not wanted |

## Left out

- Wakeup.ServedWithinThreeMoves: does not say when the moves happen; runs are assumed to end, and the Go scheduler and the ticker's period are not modelled.
- Reconcile.ReconcileZone: reads one snapshot of the store and one unchanging remote zone a pass; other writers to the remote zone during a pass are not modelled.
- Reconcile.ReconcileProvider: requires the linked zones to be different objects, as zone names are unique.
- Remote.HostedZone.AddRecord: a failed operation is assumed to have had no effect, and a successful one adds a record that lists back under the same key; Technitium's success without adding, on "already exists", is excluded, and there `zs.added` counts more than the added keys (`EncodedReconcile` models it).
- Remote.HostedZone.DeleteRecord: models deletion by opaque handle, as Cloudflare does; Technitium's, by name, type and value, is in `EncodedReconcile`.
- Encoded.ConvergesIff: speaks of passes in which every operation succeeded; failures are the subject of `EncodedReconcile`, `Convergence` and `Failures`.
- EncodedReconcile.EncodedZone.AddRecord: an adapter that cannot encode a record is recorded as a refusal, although it does not ask the provider; and the provider either accepts any number of equal records (Cloudflare) or treats entries that read the same as one (Technitium); refusals of other combinations, such as a CNAME beside other records, are failures.
- ProviderZones.CloudflareConvergesIff: names and types without bars are required where contents are shown in absolute form; `ProviderZones.BarsCoverForEachOther` shows why.
- ToProviders.CloudflareHoldsWhatTablesCallFor: not for servers that show contents in absolute form, where no automatic PTR is kept, since its published value is an address.
- ProviderCodec.CfListRecords: the answers are finitely many, and past the last one there is no page count, so the loop ends.
- KeaConfig.BuildConfig: reads subnets and reservations from one snapshot, where the source runs two queries; the constant base configuration is not modelled.
- Dhcp.MarshalBinary: a hardware address longer than 212 bytes, which makes the source panic, is excluded by the precondition.
- Dhcp.ReadMatching: datagrams are values; the options of a reply that share the read buffer are not modelled as aliases.
- ProviderCodec.TechnitiumSurvivesIff: HTTP, tokens and zone caching are not modelled, and the ideal server (16-bit preferences, names shown as sent or absolute) is an assumption.
- Leases.Poll: a failing lease request, which ends the poll before anything changes, is not modelled.
- Storage.ListDesiredRecordsByZone: rows that agree in name, type and value come in any order, as the query leaves them.
- IPv6 text: reading and printing are a parameter (`Net.V6Text`), and every theorem holds for any choice; IPv4 text is modelled in full.
- Text is ASCII: trimming, lower-casing and the host-name filter on other characters are not modelled.
- The SQL engine: tables are values with their constraints, transactions are all-or-nothing, fresh identifiers are arbitrary unused ones, and database errors other than constraint violations do not occur.
- Timestamps, descriptions, notes, NIC labels, zone kinds, `ip_assignments.subnet_id`, status durations, error texts and the status mutex.
- `runOnce` of the reconciler and the syncer beyond the passes and the configuration they compute.
- HTTP handlers, templates, authentication, the MCP tools, the Kea client, migrations and plain create, read, update and delete operations beyond the constraints and cascades used here.
