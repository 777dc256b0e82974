# Proofs about the platform's firewall reconciler, migration splitter and SFTP gateway

This project models three parts of the repository in Dafny and proves what they are for.

**The firewall reconciler** (`images/firewall-reconciler`) turns cluster objects into kernel interval sets.
`Addresses`, `IpText`, `Validation` model addresses, prefixes (section 3.1 of RFC 4632), IPv4-mapped IPv6
(section 2.5.5.2 of RFC 4291) and their texts. `NftKeys`, `NftSets`, `NftRoundTrip`, `NftPorts` model the
element codecs byte by byte: the carry loop over a key, the encoders, the reading loops, what a written set
matches and when it reads back as written. `Firewall`, `Fingerprints`, `Convergence`, `Divergence` model the
writer over a kernel whose calls may fail, the compare-then-apply step, and what a kernel written by anybody
may hold while that step stays quiet. `PeerReconcile`, `PendingLifecycle`, `TenantPorts` model the two passes
and the life of a pending peer over runs. `WakeUp` models handlers, the
trigger channel of capacity one, the ticker and the loop as interleaved steps. `CrowdsecInput`,
`CrowdsecFilter`, `CrowdsecLoop`, `Blocklists` model the ban pipeline from the decision stream to the kernel
and the self-protect latch; `Protection` compares what the peer pass accepts with what the blocklist excludes.

**The migration splitter** (`backend/src/db/sql-splitter.ts`) is in `SqlSplitter` (the loop and the function
it computes), `SqlLaws` (laws about concatenated inputs, comments and the naive form), `SqlGrammar` (an
independent grammar of migration files, dollar quoting as in section 4.1.2.4 of the PostgreSQL
documentation, whose statements the splitter computes), `SqlOutputs` (the statements told from the characters
of the file alone) and `SqlRescan` (when splitting the output again changes nothing).

**The SFTP gateway** (`images/sftp-gateway`) is in `RateLimit` and `GateRuns` (failure limiter, and the gate with both
limiters over whole runs), `Sessions` (admission
counters) and `Paths` (the two path normalisers and the command rewriting).

`Texts` and `Collecting` hold what the others share: byte-wise order, sorting, trimming, joining, splitting, decimals,
and the "append when it parses" loop shape.

Methods follow the source's loops and fields, one method per function of the source, and are proved against
specification functions; the lemmas then say what those functions mean. The main results of each operation are
stated over the objects, texts and numbers a caller sees, with the source's constants written out, so they do
not lean on the functions that the methods are proved against. Clocks, environment values, listed
objects, backend verdicts and the outcome of every kernel or API call are parameters.

Where the code and its own words disagree, the model follows the code:

- `addPow2` says it clamps on overflow; it wraps modulo the size of the space, and yields all ones only for an
  exponent at or beyond the width (`NftKeys.AddPow2`). So the end key of a block at the top of the space is
  zero, the address and CIDR readers drop it, and a desired member there is rewritten on every pass
  (`Convergence.ApplyThenQuiet` gives the exact condition).
- The comments on `applyPeersIfChanged` and `observePeerFingerprint` promise a forced apply when the kernel
  diverges or cannot be read. The comparison is blind in two places. The readers skip ranges that are no
  single address or no block, and read ranges from port zero as text that names nothing; while the step is
  quiet, a set matches what is desired and exactly the values in such ranges besides
  (`Divergence.QuietPeersDenote`, `Divergence.QuietTrustedDenote`, `Divergence.QuietPortsDenote`,
  `Convergence.ForeignRangeUnseen`). And every failing set lookup reads as an empty set
  (`Divergence.MissedLookupIsQuiet`, `Divergence.MissedLookupUnseen`).
- `flushAndAddElements` says that the commit returns the actual error; an error of queueing the members is
  discarded, so the set is left empty by a write that succeeds. The next pass repairs it
  (`Convergence.ApplyThenQuiet`).
- The comment in `buildExclusionSet` promises that a banned trusted address cannot slip past. The peer pass
  reads a trusted range trimmed, as a prefix or a bare address; the exclusions read it untrimmed and as a
  prefix only, and move mapped ranges to the other family. `Protection.TrustedIsExcludedExactly` says which
  trusted ranges are excluded, `Protection.BareTrustedEscapes` and `Protection.BareTrustedIsDropped` that
  bare addresses are not and that a ban on one is written.
- `applyExclusions` says it never under-drops. A ban wider than an exclusion survives and drops excluded
  addresses (`CrowdsecLoop.WiderBanEscapes`); `CrowdsecLoop.ExcludedDropExactly` says which.
- The header speaks of three consecutive trips; the counter is cumulative (`CrowdsecLoop.LatchCountsAlarms`).
- `enforceCap` speaks of a stable sort but uses an unstable one, so the order of equal prefixes is left open.
- `parseIPOrCIDR` says mapped input becomes IPv4; that holds for bare addresses and not for CIDRs
  (`Validation.MappedRangeStaysV6`).
- `portsToElements` says its input was bounded by `tenantPortRegex`; the expression admits "0080", "80-80" and
  "99999". The first two open the right ports but never read back as written, the last opens nothing, and any
  of them causes a rewrite on every pass (`TenantPorts.SecondPassQuiet`, `TenantPorts.CanonicalEntryExactly`).
- The splitter removes block comments without leaving a blank, so it is not idempotent
  (`SqlLaws.NotIdempotent`); `SqlRescan.IdempotentExactly` says when it is, and `SqlRescan.NoBlocksIdempotent`
  that files without block comments are safe.
- A pass that fails is not retried, although the comment on `run` says handlers requeue implicitly. No read
  is ever stale because of that; a source is left behind exactly when the failing pass did not get to read it
  (`WakeUp.UpToDateExactly`, `WakeUp.FailureWaits`).
- `rewriteRsyncCommand` and `rewriteSCPCommand` confine some arguments and leave the others as they are, and
  the directory they confine to can lie outside /data (`Paths.ScpConfinesExactly`,
  `Paths.RsyncConfinesExactly`, `Paths.BelowDataExactly`).
- The sftp branch of `buildCommand` sanitises the home path below "/", where the fallback always fires, so the
  start directory is always "/home" (`Paths.SftpAlwaysStartsAtHome`); lines 15 and 19 of
  `images/sftp-gateway/session_test.go` expect "/home/public_html" and "/home/etc/passwd".

## Model

| member | source | states |
|---|---|---|
| Addresses.CoversInterval | images/firewall-reconciler/crowdsec_reconcile.go:198-213 | a prefix, read as "same leading bits", names exactly the interval of BlockSize addresses from its network address |
| Addresses.NestedOrDisjoint | images/firewall-reconciler/crowdsec_reconcile.go:198-213 | two prefixes of one family are nested or share no address |
| Addresses.ContainsIsInside | images/firewall-reconciler/crowdsec_reconcile.go:198-213 | the guard is true if and only if every address of the unmapped inner prefix is in the unmapped outer one |
| Addresses.UnmapPrefixDenotes | images/firewall-reconciler/crowdsec_reconcile.go:224-240 | an unmapped prefix covers exactly the IPv4 addresses whose mapped form the original covered, the clamp below 96 bits included |
| Addresses.UnmapExactly | images/firewall-reconciler/crowdsec_reconcile.go:224-240 | unmapping subtracts 0xffff00000000 from the IPv6 addresses from there to 0xffffffffffff and leaves every other address as it is |
| IpText.DottedQuad | images/firewall-reconciler/validation.go:68-83 | a dotted quad reads and prints as the address with its four numbers as bytes, the highest first |
| IpText.PrefixReads | images/firewall-reconciler/validation.go:38-64 | an address text, a slash and a decimal length read as that prefix up to 32 or 128, else as none |
| NftKeys.QuadKey | images/firewall-reconciler/nft.go:925-932 | the key of an IPv4 address has its four bytes, the highest first |
| NftKeys.AddPow2 | images/firewall-reconciler/nft.go:953-983 | the key's big-endian value is (a + 2^exp) mod 2^width for exp below the width, and all ones otherwise |
| NftKeys.PropagateCarry | images/firewall-reconciler/nft.go:953-983 | the in-place carry loop leaves the key at the intended total, reduced to the width |
| NftKeys.AddWrappedIsMod | images/firewall-reconciler/nft.go:953-983 | the reduction that the end keys are stated with is the remainder modulo 2^width |
| NftKeys.EndKeyNumber | images/firewall-reconciler/nft.go:938-983 | the end key of a block is the next address, zero when the block ends the space, all ones for the whole space |
| NftKeys.NextNetwork | images/firewall-reconciler/nft.go:938-948 | refused exactly for a length outside 0..width, else the end key of the block |
| NftKeys.PairUpFlatten | images/firewall-reconciler/nft.go:504-547 | pairing elements up again undoes flattening intervals into elements |
| NftSets.PrefixFromIntervalExact | images/firewall-reconciler/nft.go:640-663 | the recovered length is b if and only if the bounds are 2^(width - b) apart |
| NftSets.NotAPower | images/firewall-reconciler/nft.go:640-663 | a distance of 2^k - 1 is refused, which is how the whole space fails to read back |
| NftSets.CidrsToElements | images/firewall-reconciler/nft.go:785-807 | the elements are the flattened intervals of the CIDRs that parse and are of the family, in order |
| NftSets.IpsToElements | images/firewall-reconciler/nft.go:760-781 | the elements are the flattened single-address intervals of the addresses of the family that have a successor |
| NftSets.BytesToAddr | images/firewall-reconciler/nft.go:611-626 | inverse of addrBytes: defined exactly on keys of the family's size, and re-encoding gives the key back |
| NftSets.ReadCidrElements | images/firewall-reconciler/nft.go:504-547 | the pendingStart loop yields the sorted CIDRs of the pairs whose size is a power of two |
| NftSets.ReadAddrElements | images/firewall-reconciler/nft.go:452-496 | the pendingStart loop yields the sorted addresses of the pairs that hold one address |
| NftRoundTrip.LengthReadsBack | images/firewall-reconciler/nft.go:640-663 | the length of a written network comes back unless its block ends at the top |
| NftRoundTrip.CidrsReadBack | images/firewall-reconciler/nft.go:504-547 | for any list: what reads back is the sorted network forms, exactly the blocks that end at the top missing |
| NftRoundTrip.CidrCodecIdentity | images/firewall-reconciler/nft.go:785-807 | readCidrSet after cidrsToElements is the identity on a sorted canonical list if and only if no member ends at the top |
| NftRoundTrip.IpsReadBack | images/firewall-reconciler/nft.go:452-496 | for any list: only the last address of a family is lost |
| NftRoundTrip.IpCodecIdentity | images/firewall-reconciler/nft.go:760-781 | readAddrSet after ipsToElements is the identity on a sorted canonical list if and only if it lacks the all-ones address |
| NftRoundTrip.NetworkInterval | images/firewall-reconciler/nft.go:785-807 | the written interval of a network holds exactly its addresses; the whole space loses its last one |
| NftRoundTrip.CidrsDenote | images/firewall-reconciler/nft.go:785-807 | the written set matches exactly the addresses that some listed CIDR names |
| NftRoundTrip.IpsDenote | images/firewall-reconciler/nft.go:760-781 | the written set matches exactly the addresses that some listed text names |
| NftPorts.TrimSpaces | images/firewall-reconciler/nft.go:905-913 | the loops strip leading, then trailing ASCII blanks |
| NftPorts.ParsePort | images/firewall-reconciler/nft.go:881-900 | the digit loop accepts exactly one to five digits whose value is in 1..65535, and yields the value |
| NftPorts.ParsePortOrRange | images/firewall-reconciler/nft.go:851-876 | splits at the first dash and yields the ordered pair, else nothing |
| NftPorts.PortTextParses | images/firewall-reconciler/nft.go:851-900 | parsing the printed form of lo..hi gives (lo, hi) back for all 1 <= lo <= hi <= 65535 |
| NftPorts.PortsNamedExactly | images/firewall-reconciler/nft.go:851-913 | a string is read as lo..hi if and only if, blanks at its ends aside, it is one to five digits that spell it, or two such numerals in order with a dash between |
| Texts.DecimalDigits | images/firewall-reconciler/tenant_reconcile.go:193-212 | the printed form of a number has its decimal digits, place by place |
| NftPorts.PortsToElements | images/firewall-reconciler/nft.go:828-846 | the elements are the flattened intervals of the strings that name ports, ends truncated to sixteen bits |
| NftPorts.ReadPortElements | images/firewall-reconciler/nft.go:555-608 | the loop yields the sorted printed ranges of the pairs, an end of zero read as the top |
| NftPorts.PortsReadBack | images/firewall-reconciler/nft.go:555-608 | for any list: every string that names ports comes back in canonical spelling, the wrap at 65535 included |
| NftPorts.PortCodecIdentity | images/firewall-reconciler/nft.go:828-846 | the port codec is the identity on a sorted list if and only if every string is canonical |
| NftPorts.PortsDenote | images/firewall-reconciler/nft.go:828-846 | the written set matches exactly the ports that the strings spell |
| Fingerprints.PeerFingerprintFaithful | images/firewall-reconciler/reconcile.go:83-89 | equal fingerprints of four lists of non-empty members free of the two separators mean equal lists |
| Fingerprints.PortsFingerprintFaithful | images/firewall-reconciler/reconcile.go:93-95 | the same for the two port lists |
| Firewall.Applier.ApplyPeerSets | images/firewall-reconciler/nft.go:127-191 | per failing call: succeeds if and only if none fails, members are lost, or only a creation would have failed and no set is missing; then every set, missing before or not, matches exactly the addresses its texts name, or is empty when its members were lost; after a failed lookup or commit missing sets exist empty and the others are as before; after any other failure nothing changed |
| Firewall.Applier.ApplyTenantPorts | images/firewall-reconciler/nft.go:196-240 | the same for the two port sets and the ports their strings spell |
| Firewall.Applier.ApplyCrowdsecBlocklist | images/firewall-reconciler/nft.go:260-308 | the same for the two ban sets and the addresses that prefixes with time left cover |
| Firewall.Applier.ReadAddrSet | images/firewall-reconciler/nft.go:452-496 | a missed lookup reads as empty, failed elements as an error, else the decoded list |
| Firewall.Applier.ReadCidrSet | images/firewall-reconciler/nft.go:504-547 | the same for a CIDR set |
| Firewall.Applier.ReadPortSet | images/firewall-reconciler/nft.go:555-608 | the same for a port set |
| Firewall.Applier.ObservePeerFingerprint | images/firewall-reconciler/nft.go:391-420 | the fingerprint of what all four sets read as; none when one fails |
| Firewall.Applier.ObservePortsFingerprint | images/firewall-reconciler/nft.go:425-444 | the same for the two port sets |
| Firewall.Applier.ApplyPeersIfChanged | images/firewall-reconciler/reconcile.go:48-60 | kernel, changed and success as a function of kernel, desired lists and faults; without a failing call it succeeds; when it wrote, the sets match exactly what is desired; it skips the write only when no read failed |
| Firewall.Applier.ApplyPortsIfChanged | images/firewall-reconciler/reconcile.go:66-78 | the same for the port sets |
| Convergence.QuietExactlyWhenReadAsDesired | images/firewall-reconciler/reconcile.go:48-60 | the step answers "not changed" and leaves the kernel alone if and only if every set was read and reads as desired |
| Convergence.StepExactly | images/firewall-reconciler/reconcile.go:48-60 | from every kernel, read fault and write fault: nothing is done when all sets read as desired; else the step writes, with success exactly when the write goes through, and then every set matches exactly what is desired of it |
| Convergence.WrittenReadsBack | images/firewall-reconciler/nft.go:391-420 | the written sets read back as desired if and only if no desired member ends at the top and none was lost in the write |
| Convergence.ApplyThenQuiet | images/firewall-reconciler/reconcile.go:48-60 | from any kernel, a writing step installs exactly the desired sets, lost members aside, and the next step is quiet if and only if no desired member ends at the top and none was lost |
| Convergence.QuietMeansEqual | images/firewall-reconciler/reconcile.go:48-60 | over a kernel the encoder wrote, "not changed" holds if and only if the desired sets are the written ones |
| Convergence.WrittenPeersDenote | images/firewall-reconciler/nft.go:127-191 | after a write an address matches a set if and only if a desired member names it |
| Convergence.ForeignRangeUnseen | images/firewall-reconciler/nft.go:452-496 | counterexample: an out-of-band range is skipped by the reader, so the step stays quiet while the set matches an address |
| Convergence.PortsQuietExactlyWhenReadAsDesired | images/firewall-reconciler/reconcile.go:66-78 | the port step is quiet if and only if both sets were read and read as desired |
| Convergence.PortsStepExactly | images/firewall-reconciler/reconcile.go:66-78 | the same for the port sets |
| Convergence.PortsApplyThenQuiet | images/firewall-reconciler/reconcile.go:66-78 | the same for ports: the next step is quiet if and only if every desired string is canonical and none was lost |
| Divergence.AddrSetDenotes | images/firewall-reconciler/nft.go:452-496 | any address set, whoever wrote it, matches exactly the addresses read of it and those in pairs the reader skips |
| Divergence.CidrSetDenotes | images/firewall-reconciler/nft.go:504-547 | any CIDR set matches exactly the addresses of the canonical texts read of it and those in pairs that are no block |
| Divergence.PortSetDenotes | images/firewall-reconciler/nft.go:555-608 | any port set matches exactly the ports named by what is read of it and those in ranges from port zero |
| Divergence.QuietPeersDenote | images/firewall-reconciler/reconcile.go:48-60 | over every kernel and read fault, while the step is quiet: a peer set whose lookup missed has nothing desired, and any other matches the desired addresses and exactly the skipped pairs besides |
| Divergence.QuietTrustedDenote | images/firewall-reconciler/reconcile.go:48-60 | the same for the trusted sets, with the pairs that are no block |
| Divergence.QuietPortsDenote | images/firewall-reconciler/reconcile.go:66-78 | the same for the port sets, with the ranges from port zero |
| Divergence.MissedLookupIsQuiet | images/firewall-reconciler/nft.go:452-459 | with lookups that miss, the step is quiet if and only if it would be with those sets absent, whatever they hold |
| Divergence.MissedLookupUnseen | images/firewall-reconciler/nft.go:452-459 | counterexample to the forced apply: any contents at all stay unseen when nothing is desired |
| Validation.AcceptedRangeIsCanonical | images/firewall-reconciler/validation.go:38-108 | an accepted range is the text of a masked network of the reported family with at least one prefix bit |
| Validation.MappedRangeStaysV6 | images/firewall-reconciler/validation.go:38-108 | a CIDR over mapped addresses keeps the IPv6 family |
| Validation.CanonicalRangeFixed | images/firewall-reconciler/validation.go:38-108 | canonical texts are fixed points of parseIPOrCIDR |
| Validation.BareTextOfAccepted | images/firewall-reconciler/validation.go:68-120 | stripPrefix of an accepted bare address is the text of the unmapped address, in its family |
| Validation.TrimSpaceExactly | images/firewall-reconciler/validation.go:38-39 | trimming takes the characters with the code points of unicode.IsSpace off both ends, all of them and no others |
| Validation.RangeNamesExactly | images/firewall-reconciler/validation.go:38-108 | the canonical text names exactly the addresses that the operator's text stands for, and its family is theirs |
| PeerReconcile.SplitAddresses | images/firewall-reconciler/reconcile.go:511-532 | the inner loop collects the unmapped InternalIPs of one node by family, in order |
| PeerReconcile.SplitInternalIPs | images/firewall-reconciler/reconcile.go:511-532 | the sorted InternalIPs of all nodes, split by family |
| PeerReconcile.UniqueSorted | images/firewall-reconciler/reconcile.go:537-552 | the sorted duplicate-free list of the same members |
| PeerReconcile.GatherPending | images/firewall-reconciler/reconcile.go:135-197 | told from the objects: the addresses asked for in time by family, the names of accepted objects out of time, of unclaimed ones in time whose address is a node's, and of all to be patched |
| PeerReconcile.GatherTrusted | images/firewall-reconciler/reconcile.go:199-224 | the canonical texts of the accepted trusted ranges by family |
| PeerReconcile.Act | images/firewall-reconciler/reconcile.go:263-284 | the actions are exactly the patches of unclaimed names, the claims and the deletes, without repetition |
| PeerReconcile.ReconcileOnce | images/firewall-reconciler/reconcile.go:102-284 | one pass: nothing happens when a lister fails; else the kernel step runs on the desired sets and, when it succeeds, it claims exactly the unclaimed peers in time whose ip reads as an internal address of some node, deletes exactly the accepted ones out of time and patches the status of all others; without a failing call it succeeds |
| PeerReconcile.ExactlyOneAction | images/firewall-reconciler/reconcile.go:263-284 | every listed pending peer gets exactly one of delete, claim and status patch |
| PeerReconcile.ActionByObject | images/firewall-reconciler/reconcile.go:135-197 | for every pending peer: deleted if and only if its ip reads as an address and its time is over; claimed if and only if it is in time, has no claimedAt, and some node has an InternalIP that reads as the same address; the time is the grace after the claim, else ttlSeconds, 1800 by default, after its creation |
| PeerReconcile.DesiredIsCanonical | images/firewall-reconciler/reconcile.go:102-284 | whatever the objects hold, the desired lists are sorted lists of canonical texts |
| PeerReconcile.DesiredUnique | images/firewall-reconciler/reconcile.go:102-284 | the desired lists are determined by the objects, whatever their order |
| PeerReconcile.PassInstallsPeers | images/firewall-reconciler/reconcile.go:102-284 | a desired member names an address if and only if it is an internal one of a node or some pending peer in time asks for it, the last address of a family aside |
| PeerReconcile.PassMatchesPeers | images/firewall-reconciler/reconcile.go:102-284 | the kernel then matches exactly those addresses |
| PeerReconcile.PassMatchesTrusted | images/firewall-reconciler/reconcile.go:102-284 | the trusted sets then match exactly the addresses that the CIDR text of some object stands for |
| PeerReconcile.FaultFreePass | images/firewall-reconciler/reconcile.go:102-284 | a pass in which no write fails succeeds from every kernel: the sets read as desired and stay, or they match exactly those addresses |
| PeerReconcile.SecondPassQuiet | images/firewall-reconciler/reconcile.go:102-284 | a pass over the same objects on an untouched kernel writes nothing if and only if no desired member ends at the top and none was lost |
| PendingLifecycle.SpecUnchanged | images/firewall-reconciler/reconcile.go:388-406 | over any run all that changes about a peer is claimedAt, and only from none |
| PendingLifecycle.StopsForGood | images/firewall-reconciler/reconcile.go:135-197 | a peer left out by one pass is left out by the next |
| PendingLifecycle.NeverFlaps | images/firewall-reconciler/reconcile.go:135-197 | over any run with a non-decreasing clock and requests that may fail, once left out always left out |
| PendingLifecycle.ClaimedOnce | images/firewall-reconciler/reconcile.go:388-406 | claimedAt is written at most once, to the second of that pass, and stays |
| PendingLifecycle.ClaimedStays | images/firewall-reconciler/reconcile.go:135-197 | a claimed peer is kept and contributes at every pass up to claimedAt plus the grace, past its time-to-live too |
| PendingLifecycle.ExpiredIsDeleted | images/firewall-reconciler/reconcile.go:410-417 | a peer past its time is gone after the first pass whose delete succeeds |
| PendingLifecycle.UnclaimedWindow | images/firewall-reconciler/reconcile.go:135-197 | an unclaimed peer contributes if and only if its time-to-live has not run out |
| PendingLifecycle.AfterPassExactly | images/firewall-reconciler/reconcile.go:388-417 | what each pass leaves of a peer, told from the objects: nothing of an accepted one out of time once its request succeeds, the whole second of the pass as claimedAt of an unclaimed one in time that is on a node, every other as it is |
| PendingLifecycle.ClaimedAtFirstSuccess | images/firewall-reconciler/reconcile.go:388-406 | over any run, an unclaimed peer in time whose address is on a node gets claimedAt at the first pass whose request succeeds, and not before |
| PendingLifecycle.ContributesExactly | images/firewall-reconciler/reconcile.go:135-197 | a pass has the address of a peer among the desired ones if and only if the object exists, asks for it and is in time |
| TenantPorts.PortCollector.CollectContainer | images/firewall-reconciler/tenant_reconcile.go:193-212 | adds exactly the in-range host ports of a container to the set of their transport |
| TenantPorts.PortCollector.CollectHostPorts | images/firewall-reconciler/tenant_reconcile.go:193-212 | the same over all containers |
| TenantPorts.PortCollector.CollectAnnotationPorts | images/firewall-reconciler/tenant_reconcile.go:217-252 | adds exactly the admitted entries of the two annotations |
| TenantPorts.CollectEntries | images/firewall-reconciler/tenant_reconcile.go:217-252 | the trimmed entries that the regular expression admits |
| TenantPorts.SortedKeys | images/firewall-reconciler/tenant_reconcile.go:258-265 | the sorted duplicate-free list of the keys, in whatever order the map is walked |
| TenantPorts.ReconcileOnce | images/firewall-reconciler/tenant_reconcile.go:127-171 | nothing happens when the lister fails; else the kernel step runs on the ports of the tenant pods of this node |
| TenantPorts.DesiredUnique | images/firewall-reconciler/tenant_reconcile.go:127-171 | the desired lists are determined by the pods |
| TenantPorts.RegexRefusesNoPorts | images/firewall-reconciler/tenant_reconcile.go:217-252 | every trimmed entry that names ports for the encoder passes the regular expression |
| TenantPorts.RegexExactly | images/firewall-reconciler/tenant_reconcile.go:46-50 | the expression admits digits, and digits, a dash and digits, and nothing else |
| TenantPorts.PortOpenExactly | images/firewall-reconciler/tenant_reconcile.go:127-252 | after a writing pass a port matches the tcp or udp set if and only if some pod of this node, in a namespace that is a tenant's by name or annotation, has it as host port of that protocol, in either case, or names it in the annotation of that protocol |
| TenantPorts.FaultFreePass | images/firewall-reconciler/tenant_reconcile.go:127-171 | a pass in which no write fails succeeds from every kernel: the sets read as desired and stay, or they match exactly those ports |
| TenantPorts.SecondPassQuiet | images/firewall-reconciler/tenant_reconcile.go:127-171 | a second pass over the same pods writes nothing if and only if every admitted entry is canonical and no port was lost |
| TenantPorts.CanonicalEntryExactly | images/firewall-reconciler/tenant_reconcile.go:217-252 | an admitted entry is canonical if and only if it is a plain port in range or two of them in strict order |
| WakeUp.InvStep | images/firewall-reconciler/main.go:258-321 | every step of handlers, ticker, loop, failing passes, crash and restart keeps: each read is fresh or a wake-up is to come |
| WakeUp.NoLostWakeUp | images/firewall-reconciler/main.go:295-321 | after any interleaving, every read of the last pass of an idle loop with an empty trigger and no handler in flight saw the latest version, whether that pass failed or not |
| WakeUp.UpToDateExactly | images/firewall-reconciler/main.go:295-321 | such a loop is up to date with every source if and only if its last pass got to read them all, as every successful one does |
| WakeUp.StuckIsQuiet | images/firewall-reconciler/main.go:295-321 | the program has no step left if and only if it is idle with empty trigger and ticker and no handler in flight |
| WakeUp.WorkDecreases | images/firewall-reconciler/main.go:295-321 | every step the program takes by itself uses up a bounded measure, so a burst of changes causes boundedly many passes |
| WakeUp.EverySourceCatchesUp | images/firewall-reconciler/main.go:258-321 | when the environment pauses, boundedly many steps remain in any order, and at their end every source was read at its latest version if and only if a pass was still to come or the last one had read all |
| WakeUp.WakeUpsCatchUp | images/firewall-reconciler/main.go:258-321 | whatever failed before, after a change, a handler, a tick of the ticker, a start or a restart every source is read at its latest version by the time the steps of the program run out, in any order |
| WakeUp.FailureWaits | images/firewall-reconciler/main.go:289-314 | counterexample: after a pass that failed early the loop can be quiet although a change was never read |
| Blocklists.CrowdsecPrefixesToElements | images/firewall-reconciler/nft.go:350-384 | the elements are the flattened timed intervals; a block is opened for exactly the prefixes of the family with time left, with that time or seven days, whichever is less |
| Blocklists.BansDenote | images/firewall-reconciler/nft.go:350-384 | the written ban set matches exactly the addresses that live bans cover; a ban on the whole space spares the last one |
| CrowdsecInput.LapiValueReads | images/firewall-reconciler/crowdsec_lapi.go:219-238 | every printed prefix is accepted as its unmapped form, every printed address as the single host of its unmapped form |
| CrowdsecInput.ParseLAPIStream | images/firewall-reconciler/crowdsec_lapi.go:171-213 | per family, in order and index-aligned; a prefix is banned for a time if and only if some decision of type ban on an address or range orders it with that positive duration; none is mapped |
| CrowdsecInput.PodCIDRsFromNode | images/firewall-reconciler/crowdsec_exclusions.go:157-170 | the trimmed single field, then the trimmed others; a text is among them if and only if it is not blank and one of the two fields, trimmed |
| CrowdsecInput.ExclusionBuilder.Append | images/firewall-reconciler/crowdsec_exclusions.go:188-194 | the set stays the split by family of what was taken, one prefix longer |
| CrowdsecInput.AppendNodes | images/firewall-reconciler/crowdsec_exclusions.go:45-152 | the node loop takes pod ranges and addresses of every node, in order; it adds to what is excluded exactly the addresses of the pod ranges that read after trimming and the internal and external addresses |
| CrowdsecInput.BuildExclusionSet | images/firewall-reconciler/crowdsec_exclusions.go:45-152 | fails exactly when a lister does; else an address is excluded if and only if the service range, a pod range of a node, an internal or external node address, a trusted range or a pending peer stands for it |
| CrowdsecInput.ExcludedExactly | images/firewall-reconciler/crowdsec_exclusions.go:45-170 | the same for all objects: every address of the six sources is excluded, and no other one |
| CrowdsecInput.BuiltIsNormal | images/firewall-reconciler/crowdsec_exclusions.go:45-194 | built exclusions are unmapped and in the list of their family |
| CrowdsecInput.NodeAddressesExcluded | images/firewall-reconciler/crowdsec_exclusions.go:45-152 | every internal or external node address is excluded |
| CrowdsecInput.PendingPeersExcluded | images/firewall-reconciler/crowdsec_exclusions.go:45-152 | every accepted pending address is excluded |
| Protection.TrustedIsExcludedExactly | images/firewall-reconciler/crowdsec_exclusions.go:90-111 | an address that a trusted range stands for is excluded by it if and only if the text is an unpadded prefix over unmapped addresses |
| Protection.BareTrustedEscapes | images/firewall-reconciler/crowdsec_exclusions.go:90-111 | counterexample for every unmapped address: trusted as a bare address, excluded by nothing |
| Protection.BareTrustedIsDropped | images/firewall-reconciler/crowdsec_exclusions.go:90-111 | so a live ban on an address trusted that way goes through the filter into the kernel |
| Protection.PeersAreExcluded | images/firewall-reconciler/crowdsec_exclusions.go:45-152 | across the components: every address in the peer sets is excluded from the blocklist |
| Protection.TrustedAreExcluded | images/firewall-reconciler/crowdsec_exclusions.go:45-152 | an address of a trusted range that both sides read is excluded, whatever else the cluster holds |
| Protection.AcceptedAreExcluded | images/firewall-reconciler/crowdsec_exclusions.go:45-152 | when both sides read every range, everything the firewall accepts as peer or trusted is excluded |
| CrowdsecFilter.FindExclusion | images/firewall-reconciler/crowdsec_reconcile.go:150-181 | the early-exit loop finds an exclusion that contains the prefix if and only if there is one |
| CrowdsecFilter.FilterFamily | images/firewall-reconciler/crowdsec_reconcile.go:150-181 | keeps, with their times and in order, exactly the bans that no exclusion contains, and counts the others |
| CrowdsecFilter.ApplyExclusions | images/firewall-reconciler/crowdsec_reconcile.go:150-181 | both families; input length is kept plus dropped, and the dropped count is the intersecting count |
| CrowdsecFilter.SelfProtectIntersection | images/firewall-reconciler/crowdsec_reconcile.go:291-309 | per family, how many proposed prefixes an exclusion contains |
| CrowdsecFilter.CountIsHits | images/firewall-reconciler/crowdsec_reconcile.go:291-309 | that count is the size of the set of positions whose prefix lies inside an exclusion, address by address |
| CrowdsecFilter.ShouldSelfProtectTrip | images/firewall-reconciler/crowdsec_reconcile.go:315-323 | trips if and only if twenty times the number of proposed prefixes that lie inside an exclusion exceeds the number of all |
| CrowdsecFilter.CapFamily | images/firewall-reconciler/crowdsec_reconcile.go:247-286 | some arrangement sorted by prefix text, cut at 500000, prefixes and times still paired |
| CrowdsecFilter.EnforceCap | images/firewall-reconciler/crowdsec_reconcile.go:247-286 | both families; input length is output plus capped |
| CrowdsecFilter.CapConserves | images/firewall-reconciler/crowdsec_reconcile.go:247-286 | the output pairs are a sorted sub-multiset of the input of the capped length, all of it when it fits |
| CrowdsecFilter.CapTexts | images/firewall-reconciler/crowdsec_reconcile.go:247-286 | the kept prefixes are the first of the sorted texts of the input |
| CrowdsecFilter.CapKeepsSmallest | images/firewall-reconciler/crowdsec_reconcile.go:247-286 | no ban that was cut off has a text below that of one that was kept |
| Texts.LeqByFirstDifference | images/firewall-reconciler/crowdsec_reconcile.go:247-286 | the order of texts is that of the first place where they differ, a prefix first |
| CrowdsecFilter.CapOrderIndependent | images/firewall-reconciler/crowdsec_reconcile.go:247-286 | the output prefix list depends neither on the input order nor on how ties were broken |
| CrowdsecFilter.PipelineConserves | images/firewall-reconciler/crowdsec_reconcile.go:150-286 | through filter and cap the output is a sorted sub-multiset, holds nothing excluded, and holds every other ban when it fits |
| CrowdsecFilter.PipelineOrderIndependent | images/firewall-reconciler/crowdsec_reconcile.go:150-286 | two ban lists in another order yield the same prefix list |
| CrowdsecFilter.StreamOrderIndependent | images/firewall-reconciler/crowdsec_lapi.go:171-213 | two decision streams that are permutations of each other yield the same prefix list |
| CrowdsecLoop.CrowdsecReconciler.Tick | images/firewall-reconciler/crowdsec_reconcile.go:407-499 | the counter rises if and only if the tick is not latched, obtained its inputs and more than one in twenty proposed prefixes lie inside an exclusion, and the third time latches; a list is handed over if and only if the mode is enforce, a writer is wired, and the tick is unlatched, obtained its inputs and does not go off; when it is written the table drops exactly what its bans cover; the whole kernel after the tick, for every fault |
| CrowdsecLoop.LatchCountsAlarms | images/firewall-reconciler/crowdsec_reconcile.go:407-499 | over any run the counter is the number of alarms up to three, and the latch is set if and only if it got there |
| CrowdsecLoop.LatchIsForGood | images/firewall-reconciler/crowdsec_reconcile.go:407-499 | the counter never decreases; once it is three no later tick fetches or writes |
| CrowdsecLoop.TableChangesAreHealthy | images/firewall-reconciler/crowdsec_reconcile.go:407-499 | over any run of ticks, every change of the kernel table happens in enforce mode, before the third alarm, on a tick where at most one in twenty prefixes lies inside an exclusion |
| CrowdsecLoop.HealthyTicksWrite | images/firewall-reconciler/crowdsec_reconcile.go:407-499 | and the other way: over any run, each such tick without a failing call leaves a table that drops exactly what the bans of a list from the pipeline cover |
| CrowdsecLoop.TableFrozen | images/firewall-reconciler/crowdsec_reconcile.go:407-499 | from the third alarm on the table never changes again |
| CrowdsecLoop.UnguardedNeverWrites | images/firewall-reconciler/crowdsec_reconcile.go:504-532 | unless both environment values are set, no run ever changes the kernel table |
| CrowdsecLoop.ExcludedDropNeedsWiderBan | images/firewall-reconciler/crowdsec_reconcile.go:150-213 | end to end: an excluded address is dropped only if a live input ban covers it and strictly contains an exclusion of it |
| CrowdsecLoop.ExcludedDropExactly | images/firewall-reconciler/crowdsec_reconcile.go:150-286 | an excluded address is dropped if and only if an emitted live ban covers it and is strictly wider than an exclusion of it |
| CrowdsecLoop.HostBansSpareExcluded | images/firewall-reconciler/crowdsec_reconcile.go:150-213 | bans on single hosts never drop an excluded address |
| CrowdsecLoop.EmittedExactly | images/firewall-reconciler/crowdsec_reconcile.go:150-286 | the emitted prefixes are those whose text is among the first 500000 sorted texts of what no exclusion contains |
| CrowdsecLoop.ExcludedDropFromInput | images/firewall-reconciler/crowdsec_reconcile.go:150-286 | told from the input alone, at every size: an excluded address is dropped if and only if one of those prefixes is strictly wider than an exclusion of it, the last address under the whole space aside |
| CrowdsecLoop.SomeExcludedDropped | images/firewall-reconciler/crowdsec_reconcile.go:150-286 | some excluded address of a family is dropped if and only if one of those prefixes is strictly wider than an exclusion |
| CrowdsecLoop.WiderBanEscapes | images/firewall-reconciler/crowdsec_reconcile.go:144-181 | counterexample to "never under-drops" |
| SqlSplitter.FindTagEnd | backend/src/db/sql-splitter.ts:67-77 | the end of the run of word characters after a dollar |
| SqlSplitter.NormalStep | backend/src/db/sql-splitter.ts:39-98 | the arm for plain text takes exactly the specified step |
| SqlSplitter.QuoteStep | backend/src/db/sql-splitter.ts:119-147 | the arms for quotes take exactly the specified step, doubled quotes included |
| SqlSplitter.DollarStep | backend/src/db/sql-splitter.ts:149-161 | the arm for dollar quotes closes exactly on the opening tag |
| SqlSplitter.SplitSqlStatements | backend/src/db/sql-splitter.ts:25-169 | the loop over i, mode, current and dollarTag computes SplitOf; no statement is empty or starts or ends with a space, a tab or a line end |
| SqlLaws.SplitDistributes | backend/src/db/sql-splitter.ts:25-169 | whenever scanning a ends at top level, split(a + ";" + b) is split(a) followed by split(b), for every b |
| SqlLaws.SplitOfJoined | backend/src/db/sql-splitter.ts:25-169 | joining statements with ";" and splitting gives them back |
| SqlLaws.BareIsOneStatement | backend/src/db/sql-splitter.ts:25-169 | trimmed non-empty text without comments, quotes, "$" and ";" is one statement |
| SqlLaws.LineCommentIsNewline | backend/src/db/sql-splitter.ts:40-45 | a line comment is worth its newline, unless a dash stands right before it |
| SqlLaws.LineCommentBodyIrrelevant | backend/src/db/sql-splitter.ts:100-107 | replacing the body of a line comment by any newline-free text changes nothing |
| SqlLaws.BlockCommentVanishes | backend/src/db/sql-splitter.ts:46-51 | a block comment is worth nothing before the end or a character that joins with no other |
| SqlLaws.BlockCommentBodyIrrelevant | backend/src/db/sql-splitter.ts:109-117 | replacing the body of a block comment by any text free of "*/" changes nothing |
| SqlLaws.LastLineComment | backend/src/db/sql-splitter.ts:100-107 | a line comment in the last line is worth nothing, and the statement before it stays |
| SqlLaws.UnclosedBlockComment | backend/src/db/sql-splitter.ts:109-117 | so is a block comment that is never closed |
| SqlLaws.SplitIsNaive | backend/src/db/sql-splitter.ts:25-169 | without comments, quotes and "$" the splitter is split on ";", trim, drop empties |
| SqlSplitter.OutputIsTrimmed | backend/src/db/sql-splitter.ts:165-168 | scanned in any mode, every statement of the output is non-empty and starts and ends with no space, tab or line end |
| SqlLaws.NotIdempotent | backend/src/db/sql-splitter.ts:109-117 | counterexample: "-/**/-x" splits into "--x", which splits into nothing |
| SqlGrammar.SplitReadsGrammar | backend/src/db/sql-splitter.ts:25-169 | on every rendering of a well-formed piece list the splitter yields the statements of the grammar |
| SqlGrammar.GrammarCovers | backend/src/db/sql-splitter.ts:25-169 | every text whose scan ends at top level is such a rendering |
| SqlOutputs.StatementsAreCores | backend/src/db/sql-splitter.ts:25-169 | the statements of every well-formed file are the texts between its terminators, comments stripped, that hold more than white space, each without the white space at its ends, told by code points: nothing else is lost or added |
| SqlOutputs.LayoutHasNoStatement | backend/src/db/sql-splitter.ts:165-166 | spaces, tabs and line ends alone split into nothing |
| SqlOutputs.LaidOutStatement | backend/src/db/sql-splitter.ts:88-91 | between such characters a statement with printable ends comes out whole |
| SqlOutputs.LinesAreStatements | backend/src/db/sql-splitter.ts:25-169 | a file with one statement a line, each followed by ";" and a line end, reads as those statements, however many |
| SqlOutputs.OneCharacter | backend/src/db/sql-splitter.ts:165-166 | a file of one character is that statement unless its code point is that of ";" or of white space in ECMA-262 |
| SqlOutputs.DollarQuoteIsWhole | backend/src/db/sql-splitter.ts:67-84 | between two equal tags of letters, digits and underscores, or none, nothing is read |
| SqlOutputs.NoTagNoQuote | backend/src/db/sql-splitter.ts:67-77 | any other character after the dollar and such a run opens no quote, and the next ";" ends the statement |
| SqlRescan.SelfSplitsExactly | backend/src/db/sql-splitter.ts:25-169 | a trimmed statement splits to itself if and only if scanning it enters no comment and ends no statement |
| SqlRescan.ResplitExactly | backend/src/db/sql-splitter.ts:25-169 | splitting a list of trimmed statements again gives the same list if and only if each splits to itself |
| SqlRescan.StatementsSplitAgain | backend/src/db/sql-splitter.ts:25-169 | every statement of a file splits to itself if and only if, with block comments deleted and line comments turned into newlines, no text between two terminators has a comment or a terminator |
| SqlRescan.IdempotentExactly | backend/src/db/sql-splitter.ts:25-169 | splitting the output of a file again changes nothing under exactly that condition |
| SqlRescan.JoinsDecide | backend/src/db/sql-splitter.ts:46-51 | where deleting comments opens no dollar quote and doubles no quote, a segment is uncut if and only if no two of its characters come together as a comment opening |
| SqlRescan.FirstJoinCuts | backend/src/db/sql-splitter.ts:46-51 | whatever follows it, the first join that is not clear cuts when it opens a comment |
| SqlRescan.IdempotentByJoins | backend/src/db/sql-splitter.ts:46-51 | the two conditions together for a whole file |
| SqlRescan.NoBlocksIdempotent | backend/src/db/sql-splitter.ts:25-169 | for every file without block comments, splitting the output again changes nothing |
| RateLimit.RateLimitStore.IsBlockedAt | images/sftp-gateway/auth.go:88-100 | blocked exactly by a fresh entry at the limit; a stale entry is deleted |
| RateLimit.RateLimitStore.IsBlocked | images/sftp-gateway/auth.go:102-115 | the same with the limit for addresses |
| RateLimit.RateLimitStore.RecordFailure | images/sftp-gateway/auth.go:117-127 | opens an entry when there is no fresh one, else counts and keeps the first time |
| RateLimit.RateLimitStore.ResetIP | images/sftp-gateway/auth.go:129-133 | removes the key and nothing else |
| RateLimit.RateLimitStore.Cleanup | images/sftp-gateway/auth.go:135-144 | removes exactly the stale entries, in whatever order the map is walked |
| RateLimit.AuthGate.Authenticate | images/sftp-gateway/auth.go:149-204 | the backend is reached if and only if neither limiter has a first failure at most five minutes old with five, or ten, failures; a login that is let in removes both entries, any other that reached the backend counts in both; no other key changes |
| RateLimit.FailureBound | images/sftp-gateway/auth.go:88-175 | any closed span of at most five minutes records at most 2 * maxFails - 1 failures of a key without successes |
| RateLimit.BoundIsReached | images/sftp-gateway/auth.go:88-175 | that bound is tight |
| RateLimit.DeletesInvisible | images/sftp-gateway/auth.go:88-144 | lazy deletes and sweeps change no later answer |
| RateLimit.SweepsInvisible | images/sftp-gateway/auth.go:135-144 | runs with the same attempts, swept at different points or never, answer alike |
| GateRuns.LimitersRun | images/sftp-gateway/auth.go:149-204 | over any run of calls and sweeps, each limiter sees its events one at a time and holds the entries of its own run |
| GateRuns.BackendFailureBound | images/sftp-gateway/auth.go:88-204 | no span of one window sees more than 9 failures at the backend from an address, nor more than 19 for a user, that was never let in |
| Sessions.SessionManager.Register | images/sftp-gateway/session.go:53-74 | the books after a registration, accepted or refused by either cap |
| Sessions.SessionManager.Unregister | images/sftp-gateway/session.go:76-88 | the books after an unregister; an unknown id changes nothing |
| Sessions.RegisterExactly | images/sftp-gateway/session.go:53-74 | registering keeps the counters exact if and only if it is refused or the id is new |
| Sessions.AdmissionExactly | images/sftp-gateway/session.go:53-74 | on exact books a registration is accepted if and only if there are fewer sessions than the total cap and fewer of its user than its own cap, three when it carries none; then it is on the books beside all others, else nothing changes |
| Sessions.UnregisterExactly | images/sftp-gateway/session.go:76-88 | unregistering keeps them exact if and only if the id is unknown or the username is the session's own |
| Sessions.UnregisterTwice | images/sftp-gateway/session.go:76-88 | a repeated unregister changes nothing |
| Sessions.UnregisterUndoes | images/sftp-gateway/session.go:53-88 | unregistering an accepted new session restores the books |
| Sessions.RunStaysExact | images/sftp-gateway/session.go:53-88 | over any run the counters are exact without zero entries, the total stays within its cap, and no user exceeds the largest cap its registrations carried |
| Sessions.RunAdmits | images/sftp-gateway/session.go:53-88 | so after any run a session is let in exactly when there is room for it |
| Paths.SanitizedBelowRoot | images/sftp-gateway/session.go:246-256 | below a root other than "/" the fallback is unreachable: the result is the root followed by the components of the argument |
| Paths.SanitizedBelowSlash | images/sftp-gateway/session.go:246-256 | below "/" the fallback always fires |
| Paths.NormalisersAgree | images/sftp-gateway/ftps.go:421-436 | joinDataPath and sanitizePath agree on every argument for every cleaned rooted directory |
| Paths.Confined | images/sftp-gateway/session.go:246-256 | the result is a cleaned directory whose components extend those of the root, with no ".." |
| Paths.CleanDrops | images/sftp-gateway/session.go:246-256 | cleaning: a repeated slash and a "." component do not matter |
| Paths.CleanGoesUp | images/sftp-gateway/session.go:246-256 | a ".." component takes back the one before it |
| Paths.CleanAtRoot | images/sftp-gateway/session.go:246-256 | nothing is above the root |
| Paths.CleanKeeps | images/sftp-gateway/session.go:246-256 | a path of proper components is clean already |
| Paths.FieldsSeparate | images/sftp-gateway/session.go:260-261 | white space between two texts separates their words |
| Paths.FieldsOfWord | images/sftp-gateway/session.go:260-261 | a text of printable characters is one word |
| Paths.RewriteSCPCommand | images/sftp-gateway/session.go:260-274 | exactly the arguments that are no flags are sanitised, all else stays |
| Paths.RewriteRsyncCommand | images/sftp-gateway/session.go:279-300 | exactly the arguments after the first "." are sanitised, all else stays |
| Paths.BuildCommand | images/sftp-gateway/session.go:209-242 | the command for every protocol, none for unrecognised ones |
| Paths.ScpConfinesExactly | images/sftp-gateway/session.go:260-274 | of the arguments of a rewritten scp command exactly those that are no flags end up within the root; program name and flags stay |
| Paths.RsyncConfinesExactly | images/sftp-gateway/session.go:279-300 | of a rewritten rsync command exactly the arguments after the first ".", other than ".", are moved within the root; every other one stays |
| Paths.NoDotNoRewrite | images/sftp-gateway/session.go:279-300 | a command without a "." argument comes back as it is |
| Paths.UserDirectoryIsRoot | images/sftp-gateway/session.go:209-210 | the root is a cleaned directory for every home path, so the results on confinement hold for every command |
| Paths.HomeSlashOptional | images/sftp-gateway/session.go:209-210 | a slash in front of the home path does not matter |
| Paths.UserDirectoryWalk | images/sftp-gateway/session.go:209-210 | the root is the home path below /data, unless the home path climbs above its start; then it is what follows the climb |
| Paths.BelowDataExactly | images/sftp-gateway/session.go:209-210 | the root lies below /data if and only if the home path does not climb, or comes back into "data" |
| Paths.HomeLeavesData | images/sftp-gateway/session.go:209-210 | for instance "../etc" leaves it |
| Paths.SftpAlwaysStartsAtHome | images/sftp-gateway/session.go:213-226 | the sftp start directory is "/home" for every home path |
| Paths.SftpDirectoryExactly | images/sftp-gateway/session.go:213-226 | it is the home path below "/home" if and only if that normalises to the root or holds a NUL |
| Paths.PublicHtmlIsLost | images/sftp-gateway/session.go:213-226 | for instance "/public_html" starts at "/home" |

## Left out

- IPv6 text: an arbitrary injective form that holds a colon first among its marks and only visible characters; RFC 5952 spelling and zones are not modelled.
- Kernel behaviour beyond the sets' elements: merging or reordering of intervals, expiry of timed elements and the other rules of the table. A commit is taken to be atomic.
- Kubernetes clients, informers, listers, netlink, HTTP, pod exec, JSON and log output; their results and failures are parameters. `time.ParseDuration` is a parsed or refused duration.
- Floating point: `shouldSelfProtectTrip` compares a float ratio; the model uses the exact integer form.
- Overflow of a Go duration for a huge ttlSeconds, and of the session and failure counters; times and counts are unbounded integers.
- Status condition arrays of the custom resources; only claimedAt is modelled, under merge-patch.
- Stale caches and several replicas that race on one pending peer; a run sees one object and its own updates.
- PendingLifecycle.NeverFlaps: states the property for an up-to-date cache and an unchanged spec, since both are what the pass is handed.
- RateLimit.FailureBound: is for events handled one at a time and for a limit of at least one, since two attempts between check and record can both pass.
- Sessions.RunStaysExact: is for callers that never reuse an id and unregister under the session's own user; `Sessions.RegisterExactly` and `Sessions.UnregisterExactly` say what happens otherwise.
- SqlGrammar.GrammarCovers: says nothing about text that ends inside a comment, a quote or a dollar block; `SqlSplitter.SplitSqlStatements` and `SqlSplitter.OutputIsTrimmed` cover those too.
- CrowdsecLoop.ExcludedDropFromInput: is for bans with time left, which every parsed stream has; a ban without would share its place under the cap with its text.
- SqlRescan.IdempotentExactly: is for files that end at top level; for other texts `SqlRescan.SelfSplitsExactly` and `SqlRescan.ResplitExactly` still hold.
- Strings with surrogate code units, which Dafny's characters do not represent.
- `filepath.Clean` is modelled on rooted paths only, which is where it is called.
- The trigger of the blocklist loop, its plain ticker and the health probe.
- Everything else in the repository: backend routes and schema, frontends, mail and probe images, chroot and pod lookup of the gateway.
