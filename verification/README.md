# LAN Fence

LAN Fence watches a home or office network: it sweeps for devices, listens to broadcast traffic, remembers who was seen
where, and tells the operator about newcomers, disappearances, changed behaviour and unexpected DHCP servers. This
project models the stateful cores of that system in Dafny and proves what they promise over whole runs.

Two kinds of module carry the model. A *rule* module gives the meaning of one operation on one row (a device, a baseline
item, a cooldown key) as functions, and the meaning of a run as a fold of those functions; lemmas over the fold are the
theorems. A *store* module holds the tables as fields of a class and the loops as methods, and its `Valid()` says that
every row is what the fold gives for the calls made so far (the ghost `trace`, `history`, `asked` or `noted`). So each
theorem holds in every reachable state of the store. Where a row cap may take rows, the store says what is left:
a device's most recently observed addresses (`Retention`), or the run with an eviction step (`Evict`, `Evicted`).

- `Presence`, `PresenceRuns`, `PresenceStore`: who is online. Sightings, counted misses, disconnects, the lifecycle log,
  availability episodes, the read-only prediction of disconnects, the retry pass, and whole sweeps over one or several
  interfaces. `Coverage`: which sweeps have a say about a device, told from what was heard and set.
- `Evidence`, `Retention`, `EvidenceStore`: address and name evidence, the preferred value, which evidence the row cap
  leaves, and the `ip` and `hostname` columns that cache the preferred values. `Hearsay`: when a DHCP lease can cost
  direct evidence.
- `Coalescing`, `BatchStore`: collapsing a passive batch before it is stored, and what the stores cannot tell afterwards.
- `Ingest`: the cursor that turns the lifecycle log into changes.
- `Baseline`, `BaselineRuns`, `BaselineStore`: what is normal for a device, the ledger of its items, approvals.
  `BaselineHistory`: what a comparison judges and records, told from the comparisons before it.
- `Throttle`, `Alerts`, `Sms`: per-key cooldowns, the global fixed-window budget, the batch filter, the SMS budget.
- `DhcpServers`: unexpected DHCP servers, a second client of the cooldown and of the evidence tables.
- `DnsName`, `Mdns`, `MdnsCache`: the reader for untrusted mDNS datagrams (RFC 1035, RFC 6762, RFC 6763) and the cache of
  advertised addresses.
- `Delivery`: the monitor loop and the delivery worker as interleaved steps over a bounded queue.
- `IdentityVote`: the weighted vote that guesses what a device is.

Timestamps are integers, MAC addresses and texts are opaque strings, and the order in which SQLite returns rows is left
open: loops over rows take them in any order. Scans, probes, clocks and text decoding enter as parameters.

## Where the code and its documentation disagree

The model follows the code.

- The absence delay of an always-on device is documented as additional time once it is offline (`README.md:1198-1205` of
  the repository). The code counts it from the last sighting, and an override of 0 as the default
  (`lanfence/db.py:1914-1916`): `PresenceRuns.DelayCanBeginEarly` is announced absent in the second it goes offline, and
  `PresenceRuns.DelayIsAdditionalExactlyWhen` says exactly when a check does as documented.
- Returning to `always-on` is documented to start clean. For a device that is still offline it announces a second absence
  in the same episode: `PresenceRuns.SecondAbsenceInOneEpisode` is the run, and `PresenceRuns.ReturningToAlwaysOnFires`
  says exactly when it happens.
- Direct observation is documented to outrank a DHCP lease regardless of recency. At the row cap a lease can evict the
  direct observation and be shown (`EvidenceStore.HearsayCanEvictDirectEvidence`).
  `Hearsay.LeaseReplacesDirectExactlyWhen` says when, from the table before the lease: the device is full, one row alone
  is direct, and no row is older; where rows tie in age the database may spare it, and if every other row is newer it
  cannot.
- Coalescing is documented as safe for everything but duplicates. It can change which interface a device was heard on last
  and with that whether the next sweep counts a miss: `Coalescing.CoalescingCanMoveTheInterface`.
  `Coalescing.SameInterfaceExactlyWhen` and `Coalescing.CoalescingIsInvisibleExactlyWhen` say when, from the batch: the
  device's last packet and its last key to appear name different interfaces, or different subnets over IPv4.
- A finding that the global budget refuses has already used up its cooldown (`lanfence/engine.py:704-712`,
  `Alerts.RefusedByTheBudgetStillCoolsDown`).
- A comparison is not repeatable right after seeding: `BaselineRuns.SecondComparisonIsSilent` gives the exact exception.
- A remote-administration service is documented as never added without approval (`README.md:691` of the repository,
  `lanfence/config.py:568-569`). Learning keeps to that, seeding does not (`lanfence/baseline.py:303-308`):
  `BaselineRuns.SeedingApprovesAdministration` is a first comparison that makes one normal, and
  `BaselineRuns.AdministrationIsNormalExactlyWhenSeeded` says exactly when one is normal that nobody accepted: it was
  observed by the comparison that seeded the baseline in force, and the row cap has not taken it since.
- Identity confidence can be 0 although rules matched: `IdentityVote.ConfidenceCanCancel` and
  `IdentityVote.ConfidenceIsZeroExactlyWhenOutweighed`.
- `shutdown` promises to drain what is queued. A shutdown that finds the queue full discards exactly one item unless the
  worker takes all of it first (`Delivery.FullCostsOneExactlyWhen`), so it may do so although there is room again
  (`Delivery.DiscardsDespiteRoom`); one that begins with room discards nothing (`Delivery.RoomCostsNothing`).
- The row cap of baseline items forgets without a trace: an evicted item is reported as new when it is met again
  (`BaselineRuns.EvictedItemsAreReportedAgain`), though never taken for normal (`BaselineRuns.PendingIsNeverLearned`).
- The target names of PTR and SRV records are read from the whole datagram and are not confined to the record's own
  length (`lanfence/discovery.py:369`, `lanfence/discovery.py:392`): `Mdns.EmptyPtrNamesWhatFollows` is a PTR record of
  no length that names whatever follows it. `Mdns.ConfinedExactlyWhen` says when a record means what it would mean at
  the end of its datagram: when the name it refers to, if it is readable at all, touches nothing behind the record.
- The limit of 255 bytes that section 2.3.4 of RFC 1035 sets for a whole name is not enforced:
  `DnsName.LongNamesAreRead` reads names of any number of 63-byte labels, which exceed the limit from four labels on.
  `DnsName.ObeysTheLimitExactlyWhen` decides it from the length bytes of the name, and
  `DnsName.LengthIsBoundedByTheDatagram` is the bound that does hold.
- A discovery record that is still current is documented as never pruned (`lanfence/db.py:2096-2102`). The row cap that
  follows takes it all the same: `MdnsCache.CurrentRowsCanGo` is a case, and
  `MdnsCache.Cache.ProcessAddressRecord` says when something goes, and that it is what was seen longest ago.
- Addresses whose announcement has run out are still listed for a service until retention forgets them:
  `MdnsCache.Cache.AddressesOf` lists exactly what stands and is retained, `MdnsCache.RunOutExactlyWhen` says which of
  these have run out, and `MdnsCache.RunOutCanBeListed` is one.

## Model
| member | source | states |
|---|---|---|
| PresenceRuns.MissesAreCounted | lanfence/db.py:1836-1867 | Since its last sighting a device's miss count is the number of sweeps that covered all its known paths and omitted it, and it is online exactly while none of them reached both thresholds; nothing else of the row moves |
| PresenceRuns.DisconnectsOnceWhenConfirmed | lanfence/db.py:1852-1862 | A disconnect is logged at exactly the first sweep that confirms the absence, stamped with that sweep's instant, and nothing else is logged between sightings |
| PresenceRuns.SightingsAreSummarised | lanfence/db.py:1553-1589 | Over a device's lifetime `last_seen` is the maximum of all sighting times, and each family flag says whether some sighting came over that family |
| PresenceRuns.LogAlternates | lanfence/db.py:1553-1565 | Every log is a join followed by strictly alternating disconnects and returns, and the device is offline exactly when the last entry is a disconnect |
| PresenceRuns.EpisodesAlternate | lanfence/db.py:1041-1053 | Absences and recoveries alternate unless an episode was dropped by a policy edit or deletion; an alerted episode means offline, always-on, and the absence was the last thing said |
| PresenceRuns.BetweenTwoAbsences | lanfence/db.py:1893-1924 | Two absence findings of one device are separated by a recovery, a policy edit or a deletion |
| PresenceRuns.AnnouncedInTheDisconnectingSweep | lanfence/engine.py:470-485 | An always-on device is announced absent in the very sweep that disconnects it exactly when its own delay override, if any, has passed too |
| PresenceRuns.DelayIsAdditionalExactlyWhen | lanfence/db.py:1914-1916 | After any run the check of a watched, offline device treats the delay as additional time since the disconnect exactly unless the time since its last sighting is enough before that, or not enough after it |
| PresenceRuns.DelayCanBeginEarly | lanfence/db.py:1914-1916 | A run in which an absence is announced at the disconnect although its delay has just begun |
| PresenceRuns.SecondAbsenceInOneEpisode | lanfence/db.py:1014-1025 | A concrete run with two absences and no sighting in between |
| PresenceRuns.ReturningToAlwaysOnFires | lanfence/db.py:1014-1025 | For every run: leaving always-on and returning makes the next check announce an absence exactly if the device is offline, covered, and away for the default delay |
| PresenceRuns.RepliesTouchOnlyResponders | lanfence/engine.py:630-644 | Folding in replies of online devices logs and announces nothing, resets the responders' counts, and leaves everyone else as they were |
| PresenceRuns.RetriesOnlyRescue | lanfence/engine.py:460-478 | With retries a sweep disconnects none of the responders and treats every other device exactly as without retries; the responders would all have been disconnected |
| PresenceRuns.OtherInterfacesDoNotJudge | lanfence/engine.py:512-527 | Sweeps of other interfaces never change a device last heard on one interface |
| Coverage.LocationIsToldLast | lanfence/db.py:1553-1589 | In each lifetime a row names the interface and the IPv4 subnet that sightings told last, and the time of the first sighting |
| Coverage.CoveredExactlyWhenReached | lanfence/db.py:508-526 | A sweep covers a device exactly if it covered every family the device was heard over, on the interface and IPv4 subnet told last, where both are named |
| Coverage.JudgedExactlyWhenReached | lanfence/db.py:1836-1867 | A sweep changes what is known of a device exactly if it missed it while it is online and reached it in that sense |
| Coverage.UncoveredFamiliesShield | lanfence/db.py:523-526 | A sweep that did not cover a family disconnects and announces no device that was ever heard over it |
| Coverage.AnnouncedExactlyWhen | lanfence/db.py:1893-1924 | The whole effect of an availability check, in terms of the sightings and settings: an override of zero counts as none |
| Coverage.SightingsAreLogged | lanfence/db.py:1553-1565 | A sighting logs a join or a return, stamped with its time, exactly if nothing was logged yet or a disconnect was the last entry |
| Coverage.RecoveriesAnswerAbsences | lanfence/engine.py:285-307 | A sighting announces a recovery exactly if an absence was the last thing announced |
| Coverage.PolicyIsSetLast | lanfence/db.py:1002-1026 | The policy in force is the one set last, and none since a deletion |
| Coverage.DelayIsSetLast | lanfence/db.py:1014-1039 | The delay in force is the one set last, unless a deletion or a policy that does not watch the device came later |
| Coverage.NothingIsSetUnasked | lanfence/db.py:968-986 | Without a setting there is neither policy nor delay |
| PresenceStore.DeviceStore.constructor | lanfence/db.py:730-762 | An empty store is the empty run |
| PresenceStore.DeviceStore.RecordEvent | lanfence/db.py:820-825 | The log grows by one entry under a fresh, larger id, and only that device's history changes |
| PresenceStore.DeviceStore.Observe | lanfence/db.py:1487-1608 | The sighted device's row and log become those of the rule, its transition is returned, and no other device changes |
| PresenceStore.DeviceStore.RefreshRow | lanfence/db.py:1555-1589 | The inserted or updated row: coverage only grows, the last sighting never goes back, the miss count is cleared |
| PresenceStore.DeviceStore.SetAvailabilityAlerted | lanfence/db.py:1041-1053 | Only the episode flag of that device changes |
| PresenceStore.DeviceStore.ProcessSighting | lanfence/engine.py:285-307 | A sighting advances every device by the sighting step; a recovery is reported exactly on a return from an alerted absence |
| PresenceStore.DeviceStore.DevicesDueForOffline | lanfence/db.py:1732-1781 | The read-only twin lists, without repetition, exactly the devices `MarkOffline` would disconnect on the same state and arguments |
| PresenceStore.DeviceStore.JudgeMiss | lanfence/db.py:1845-1866 | One row of the loop: uncovered rows stay, due rows are disconnected and logged, others gain one miss |
| PresenceStore.DeviceStore.JudgeMisses | lanfence/db.py:1836-1867 | The loop over all online rows, in any order, applies the rule to every device not found |
| PresenceStore.DeviceStore.MarkOffline | lanfence/db.py:1783-1867 | The whole table advances by one sweep step, and the devices returned are exactly those predicted; `Coverage` says which devices a sweep judges |
| PresenceStore.DeviceStore.EvaluateAvailability | lanfence/db.py:1869-1924 | Exactly the offline, always-on, unalerted, covered devices whose delay has passed are announced, each once |
| PresenceStore.DeviceStore.SetPresencePolicy | lanfence/db.py:1002-1026 | Always-on keeps delay and episode; any other policy clears both |
| PresenceStore.DeviceStore.SetOfflineAfter | lanfence/db.py:1028-1039 | Only the delay of that device changes |
| PresenceStore.DeviceStore.ForgetRows | lanfence/db.py:1969-1990 | All rows of one device go, and no other device's history or id order changes |
| PresenceStore.DeviceStore.DeleteDevice | lanfence/db.py:1975-1991 | Deletion returns a device to the unknown state and reports whether it existed |
| PresenceStore.DeviceStore.RetryDevicesDueForOffline | lanfence/engine.py:555-644 | Only devices about to be disconnected are probed; the responders are exactly the answering ones among those probed before the first probe that cannot be sent, and without such a probe all due devices are probed; an answer counts as a sighting |
| PresenceStore.AllDueAreProbed | lanfence/engine.py:555-644 | Unless some due device cannot be probed, exactly those due devices answered whose probe meets an answer |
| PresenceStore.DeviceStore.ProcessSightings | lanfence/engine.py:435-458 | Every sighting of a sweep is processed in order, and the devices found are exactly the sighted ones |
| PresenceStore.DeviceStore.PassVerdicts | lanfence/engine.py:460-485 | Retries, disconnects and absences against one instant: the disconnected are the due devices minus the responders, the absent those due after the disconnects |
| PresenceStore.DeviceStore.RunActiveSweep | lanfence/engine.py:368-492 | One whole sweep as a run, with exactly its replies, disconnects and absences; with no scan mechanism working no verdict is reached |
| PresenceStore.DeviceStore.RunActiveSweepMulti | lanfence/engine.py:512-548 | One sweep per interface, one after the other, each reporting exactly what a sweep on its own would at that point |
| PresenceStore.DueAfterRetries | lanfence/engine.py:460-478 | The retry pass leaves the state of every device it did not rescue as it was |
| PresenceStore.BlindSweepsOnlyHear | lanfence/engine.py:460-485 | A sweep in which no mechanism worked is its sightings and nothing else |
| PresenceStore.SweepsKeepWhomTheyHeard | lanfence/engine.py:441-478 | After any other sweep every device it sighted, or that answered a retry, is online |
| PresenceStore.SweepsJudgeTheRest | lanfence/engine.py:470-485 | For every other device such a sweep is one miss and one availability check, whatever else it found |
| PresenceStore.WithoutForgets | lanfence/db.py:1988-1989 | Deleting one device's events leaves every other device's log unchanged |
| Evidence.RowsSpanTheirObservations | lanfence/db.py:1179-1200 | With nothing evicted, a row exists for exactly the observed keys and holds the minimum and maximum of all their times |
| Evidence.ArrivalOrderDoesNotMatter | lanfence/db.py:1179-1200 | The same observations in any order and multiplicity leave the same address evidence |
| Evidence.PreferredIsUnique | lanfence/db.py:1337-1347 | What is preferred does not depend on row order: best rows tie only when they show the same |
| Evidence.TheMostTrustedIsPreferred | lanfence/db.py:1151-1155 | The preferred row comes from a class of sources no lower than any other: direct observation, lease, legacy for addresses; self-reported, looked up, legacy for names |
| Evidence.ThenTheMostRecent | lanfence/db.py:1337-1347 | Within a class the most recent row is preferred, and of equally recent ones the first in the order of dictionaries |
| Evidence.LessIsLexicographic | lanfence/db.py:1337-1347 | The order of texts is that of dictionaries |
| Evidence.PickPreferred | lanfence/db.py:1324-1347 | The minimum over a device's rows: lower tier, then later, then smaller text; nothing exactly when there is no evidence |
| Evidence.PreferredByFamily | lanfence/db.py:1349-1386 | One pass over the rows of many devices keeps the true best of each address family of each of them |
| Evidence.FamiliesHoldTheirOwn | lanfence/db.py:1349-1386 | A family has a winner exactly if there is evidence of an address of that family, and the winner is one |
| Evidence.OverallIsTheBetterFamily | lanfence/db.py:1324-1386 | The preferred address is the better-ranked of the two family winners |
| Evidence.OnlyTheLatestMatter | lanfence/db.py:1192-1200 | Leaving out observations that a later one of the same key follows changes nothing but when rows were first seen |
| Evidence.FirstSeenIsNotRanked | lanfence/db.py:1339-1346 | Tables that differ only in first-seen times prefer the same address |
| Retention.EnforceRowCap | lanfence/db.py:764-785 | The cap drops rows of that device only, only as many as needed, and never one seen later than a row it keeps |
| Retention.TrimmedOfAll | lanfence/db.py:764-785 | Below the cap nothing is evicted |
| Retention.RetainsStep | lanfence/db.py:1179-1190 | Recording one observation under the cap keeps what every store holds: each row ends at the last observation of its key, every observed key without a row belongs to a full device and was seen no later than any row that device has, and a device whose keys all fit has exactly what was observed of it |
| Retention.RetainsTheRest | lanfence/db.py:1969-1990 | Deleting one device keeps all of this for every other |
| Retention.RetainedUpToTies | lanfence/db.py:764-785 | However rows were evicted on the way, the same observations leave a device as many rows, with the same last times, and the rows in which two outcomes differ are all tied for oldest |
| Retention.DeterminedExactlyWhen | lanfence/db.py:764-785 | What is left of a device is decided, but for first-seen times, exactly when nothing that was left out ties with a row that was kept |
| Retention.EchoesAreRemembered | lanfence/db.py:1192-1200 | A table that remembers some observations remembers all those that they follow up |
| EvidenceStore.EvidenceStore.constructor | lanfence/db.py:730-745 | No evidence and no devices, and a cap of at least one row |
| EvidenceStore.EvidenceStore.Record | lanfence/db.py:1179-1200 | A repeat widens its row and evicts nothing; a new row may evict the oldest, and no device ever exceeds the cap |
| EvidenceStore.EvidenceStore.RecordAddressEvidence | lanfence/db.py:1157-1201 | A usable address is recorded under its key and an unusable one changes nothing; the table stays the most recent of every observation made of each device since it was last deleted, and the fold of all of them while they fit |
| EvidenceStore.EvidenceStore.RecordNameEvidence | lanfence/db.py:1203-1243 | A non-blank name is recorded under its normalised key and its latest spelling is what is shown; a blank one changes nothing |
| EvidenceStore.EvidenceStore.RefreshPreferredFields | lanfence/db.py:1413-1434 | The columns of one device come to show what its evidence prefers; without evidence they keep their values |
| EvidenceStore.EvidenceStore.Touch | lanfence/db.py:1555-1587 | The raw columns move only when the sighting is not older than the last one |
| EvidenceStore.EvidenceStore.CollectEvidence | lanfence/db.py:1592-1599 | Only a direct, usable address and a sourced, non-blank name are recorded, and only for that device |
| EvidenceStore.EvidenceStore.DirectAddressesAreObserved | lanfence/db.py:1592-1595 | A sighting is evidence of its address exactly if it has a usable one and saw it directly, and of it on its own interface |
| EvidenceStore.EvidenceStore.Observe | lanfence/db.py:1566-1600 | After any sighting the cache of every device agrees with its retained evidence, also when the former winner was just evicted; only direct, usable addresses become evidence; columns never go back in time; only what the most recent observations push out is lost |
| EvidenceStore.EvidenceStore.AcknowledgeLease | lanfence/dhcp_server.py:93-103 | A confirmed lease is recorded as hearsay, touches no presence, and leaves every cache in agreement |
| EvidenceStore.EvidenceStore.DeleteDevice | lanfence/db.py:1969-1991 | Exactly that device's row, evidence and observations go, and the other caches still agree |
| EvidenceStore.TheNewestDirectAddressIsShown | lanfence/db.py:1325-1346 | A direct observation later than all other evidence is shown at once, however full the table |
| EvidenceStore.HearsayDisplacesOnlyByEviction | lanfence/db.py:1325-1331 | A lease changes a directly observed preference only by evicting it, which needs a full table |
| EvidenceStore.HearsayCanEvictDirectEvidence | lanfence/db.py:1187-1189 | A concrete table at the cap where a later lease replaces the direct observation |
| Hearsay.LeaseReplacesDirectExactlyWhen | lanfence/db.py:1178-1190 | From the table before it: a lease may replace what direct observation shows exactly when the device is full, one row alone is direct and none is older, and must exactly when every other row is newer |
| Hearsay.ShownIsDirectIfAnyIs | lanfence/db.py:1325-1346 | A direct address is shown exactly when any direct evidence is left |
| Hearsay.LossMeansRisk | lanfence/db.py:774-779 | Whatever the database does with ties, the last direct row goes only if it was at risk |
| Hearsay.RiskIsReal | lanfence/db.py:774-779 | and if it is at risk, one of the tables the cap may leave is without it |
| Hearsay.TiesCanSpare | lanfence/db.py:774-779 | and unless every other row is newer, one of them keeps it |
| Hearsay.DoomedIsLost | lanfence/db.py:774-779 | while none does if every other row is newer |
| BatchStore.ObservePacket | lanfence/engine.py:255-266 | One packet is observed under the host name it reports, or else the one a reverse lookup gives, with that as the source of the name, and its evidence recorded |
| BatchStore.NamesAreReportedOrLookedUp | lanfence/engine.py:255-260 | A self-reported host name comes first; a looked-up one is used only without it; a name has a source exactly if it says anything |
| BatchStore.ObserveBatch | lanfence/cli.py:980-998 | Observing a batch notes exactly its observations, in order, and leaves their fold in the table if they fit under the cap |
| BatchStore.CoalescedFitsToo | lanfence/engine.py:187-199 | The coalesced batch fits exactly when the whole batch does |
| BatchStore.CoalescedAfterwards | lanfence/engine.py:187-199 | Whatever was noted before, the coalesced batch leaves out only observations that later ones follow up |
| BatchStore.BothWaysShowTheSame | lanfence/engine.py:187-199 | Of two stores, full or not, one of which was spared observations that later ones follow up, every device has the same rows up to ties in age, and shows the same address where nothing ties |
| Coalescing.CoalesceSightings | lanfence/engine.py:201-210 | The dictionary loop keeps the latest packet per key in order of first appearance |
| Coalescing.LatestIsLatest | lanfence/engine.py:207-209 | The packet kept for a key is one of the batch and no packet of that key is later |
| Coalescing.OrderIsFirstAppearance | lanfence/engine.py:202-206 | Of two kept keys the earlier one has a packet before every packet of the other |
| Coalescing.CoalescedKeepsTheLatest | lanfence/engine.py:186-210 | Nothing is invented, and every packet has a kept one of its key that is no earlier |
| Coalescing.BatchIsSummarised | lanfence/db.py:1553-1589 | What any batch of sightings leaves of a device depends only on which sightings it holds, not on their order or number |
| Coalescing.CoalescingKeepsPresence | lanfence/engine.py:187-199 | After any run, the coalesced batch leaves every device with the same status, last sighting, miss count, family coverage, watch, emitted events and notices as the whole batch |
| Coalescing.CoalescingKeepsEvidence | lanfence/engine.py:187-199 | Below the row cap it leaves the same evidence, last seen at the same times, and so the same preferred address |
| Coalescing.RowsNameWhatWasToldLast | lanfence/db.py:1576-1577 | A row names the interface and subnet that were told last, or else those it had |
| Coalescing.SameInterfaceExactlyWhen | lanfence/engine.py:198-210 | The coalesced batch leaves the same interface exactly when the device's last packet with one and its last key to appear with one agree, and the same subnet likewise over IPv4 packets |
| Coalescing.AlikeExactlyWhen | lanfence/db.py:508-526 | Rows of the same families are covered by the same sweeps exactly when interface, and subnet for IPv4, agree |
| Coalescing.CoalescingIsInvisibleExactlyWhen | lanfence/engine.py:186-210 | Every later sweep covers the device alike exactly when it is known over no family, from before or by a packet of the batch, or those last packets and keys agree |
| Coalescing.KnownAfterwards | lanfence/db.py:1553-1589 | A device is known after a batch, and known over a family, exactly if it was before or some packet of the batch says so |
| Coalescing.OneInterfaceLosesNothing | lanfence/engine.py:186-210 | A known device heard over one interface ends with the very same row |
| Coalescing.CoalescingCanMoveTheInterface | lanfence/engine.py:186-210 | A batch of three packets whose coalesced form makes the next sweep miss where the whole batch would not |
| Ingest.LifecycleFeed.constructor | lanfence/baseline.py:227-231 | A feed starts without a cursor |
| Ingest.LifecycleFeed.RecordPage | lanfence/baseline.py:234-257 | Each row of a page becomes one change in order, and the cursor ends at the last row |
| Ingest.LifecycleFeed.IngestLifecycle | lanfence/baseline.py:227-260 | The first call only marks the end of the log; every later one records exactly one change per event past the cursor, in id order, and leaves nothing pending; the cursor stays below every id still to be given |
| Ingest.LifecycleFeed.IngestPages | lanfence/baseline.py:232-260 | The page loop ends, with the first page that is not full, and covers all pending events across pages |
| Ingest.AfterIsExactlyTheNew | lanfence/db.py:2651-2667 | The pending events are exactly those with an id past the cursor |
| Ingest.AfterKeepsOrder | lanfence/db.py:2656-2657 | and they come in ascending id order |
| Ingest.AfterAdvances | lanfence/baseline.py:257-258 | Moving the cursor to a pending event leaves exactly the later ones pending |
| Ingest.MaxIdIsMax | lanfence/db.py:2648-2649 | The first cursor is the largest id in the log |
| Ingest.ReturnsArePaired | lanfence/db.py:2669-2679 | In every reachable store the disconnect found for a return is the entry immediately before it in that device's log |
| Ingest.ReturnsAreMeasured | lanfence/baseline.py:234-257 | In every reachable store the change of a return gives the time since the disconnect just before it, and is significant exactly for a trusted device that was away for long |
| Ingest.OthersAreWeighed | lanfence/baseline.py:234-257 | A newcomer is significant unless trusted, a disconnect if the device is always-on, and each change names its device, kind and time |
| Ingest.NothingTwiceNothingLost | lanfence/baseline.py:257-260 | Between two calls the store may log and delete: every event that is still there, and was pending or logged since, is recorded by exactly one of the two calls, in id order |
| Ingest.TwoCallsRecordWhatOneWould | lanfence/baseline.py:257-260 | Without deletions two calls record, in order, what one call at the end would |
| BaselineRuns.ApprovalHasAReason | lanfence/baseline.py:303-365 | Over every run, evictions included, an item is in the baseline exactly when it was seeded, learned or accepted, and no administration service is ever learned |
| BaselineRuns.AdministrationIsNormalExactlyWhenSeeded | lanfence/baseline.py:303-365 | Over every run without an acceptance, a remote-administration service is normal exactly if the comparison that seeded the baseline in force observed it and the row cap has not taken it since |
| BaselineRuns.SeedingApprovesAdministration | lanfence/baseline.py:296-310 | The first comparison of a device makes an administration service normal that nobody has approved |
| BaselineRuns.OnlyAcceptanceApproves | lanfence/baseline.py:579-602 | A known item enters the baseline only by an operator's acceptance and leaves it only by a reset or the row cap |
| BaselineRuns.PendingIsNeverLearned | lanfence/baseline.py:347-349 | Once pending, an item enters the baseline only by acceptance over any run without a reset, even if it is evicted and met again |
| BaselineRuns.LearnedWhileLearning | lanfence/baseline.py:321-349 | Every learned item was first seen no later than the moment learning ended, at some comparison of the run |
| BaselineRuns.PendingItemsAlternate | lanfence/baseline.py:345-382 | Since the last reset, and unless the row cap took it, the ledger of an unaccepted item alternates new and removed, starting with new, and its end says whether the item is present |
| BaselineRuns.EvictedItemsAreReportedAgain | lanfence/baseline.py:346-359 | An evicted item that is met again is reported as new exactly unless it is learned then |
| BaselineRuns.ConstantObservationsSettle | lanfence/baseline.py:339-382 | While an item's observation stays the same, at most one change is recorded for it, over any run without resets in which the row cap does not take it |
| BaselineRuns.EachEvictionCostsOneChange | lanfence/baseline.py:339-382 | With the row cap at work it is at most one change, and one more for each time the cap took the item |
| BaselineRuns.RepeatingTheRow | lanfence/baseline.py:316-453 | Repeating a comparison leaves the row and log as they were exactly unless it was the seeding one on a lingering unknown device |
| BaselineRuns.RepeatingAnItem | lanfence/baseline.py:335-382 | Repeating a comparison never changes an item |
| BaselineRuns.SecondComparisonIsSilent | lanfence/baseline.py:286-453 | After any run a second comparison at the same instant is silent, with exactly that one exception, if the row cap takes nothing during the first |
| BaselineRuns.SilentAfterEvictionExactlyWhen | lanfence/baseline.py:335-382 | If the row cap takes items during the first comparison, the second is silent about an item exactly unless it was taken, is observed and judged again, and is not learned |
| BaselineRuns.SeedingIsNotRepeatable | lanfence/baseline.py:296-310 | A run, with a stranger that arrived while watching and a reset, for which the exception happens |
| BaselineHistory.RowIsTold | lanfence/baseline.py:296-453 | Over every run since the seeding comparison: the row holds the last known address, host name, category and maker, the trust of the last comparison, the newest inspection, the exclusions set last, when learning ended, and whether a lingering stranger is reported |
| BaselineHistory.JudgedExactlyWhen | lanfence/baseline.py:330-337 | Ports are judged by an inspection newer than all before, advertised services while the device is online, prefixes always; learning lasts until the first comparison late enough after the seeding |
| BaselineHistory.UnjudgedItemsStay | lanfence/baseline.py:333-337 | What a comparison does not judge it leaves alone, such as the services of a device that is offline |
| BaselineHistory.NewItemsAreLearnedOrReported | lanfence/baseline.py:344-355 | A new item is learned exactly while learning lasts and if it is not remote administration, and otherwise reported with its significance and suppression |
| BaselineHistory.KnownItemsAreKept | lanfence/baseline.py:356-365 | A known item that was gone is welcomed back, silently if it is normal; one that was there is refreshed once an hour |
| BaselineHistory.MissingItemsVanish | lanfence/baseline.py:366-379 | A missing item is reported as gone exactly if it was there, is not a prefix, and has been missing long enough, a port at once |
| BaselineHistory.SeedingIsSilent | lanfence/baseline.py:296-310 | The seeding comparison makes exactly what it observes normal and reports nothing |
| BaselineHistory.LowerIgnoresCase | lanfence/baseline.py:392 | Host names are compared up to the case of their letters |
| BaselineHistory.RowChangesExactlyWhen | lanfence/baseline.py:318-449 | Everything a comparison says about the device itself, and in which order, from what the comparisons before it told |
| BaselineStore.DeviceBaseline.constructor | lanfence/baseline.py:286-297 | No row, no items, no changes: the empty run |
| BaselineStore.DeviceBaseline.Record | lanfence/baseline.py:148-153 | One change is appended and reaches exactly the histories it is about |
| BaselineStore.ApplyCap | lanfence/db.py:2799-2803 | At most one row goes, and none ranks below it: normal before pending, present before gone, recent before old |
| BaselineStore.DeviceBaseline.SaveItem | lanfence/db.py:2785-2804 | The row is written, the table stays under the cap, nothing normal has gone while anything pending is left, and nothing that has gone outranks a row left as it was |
| BaselineStore.DeviceBaseline.MeetValue | lanfence/baseline.py:344-372 | An observed value is learned, reported as new, welcomed back or merely refreshed, and nothing else changes |
| BaselineStore.DeviceBaseline.LoseItem | lanfence/baseline.py:375-387 | A stored item that was not observed is removed once it has been gone long enough |
| BaselineStore.DeviceBaseline.CompareSignal | lanfence/baseline.py:335-387 | One signal judges exactly its own items, by the rule, in any order |
| BaselineStore.DeviceBaseline.JudgeSignal | lanfence/baseline.py:341-378 | Of a signal that is judged every observed value is met and every other item lost |
| BaselineStore.DeviceBaseline.CompareItems | lanfence/baseline.py:335-387 | The four signals together judge every item exactly once, against the row as it was at the start |
| BaselineStore.DeviceBaseline.SeedItems | lanfence/baseline.py:304-309 | Everything observed becomes an initial item, administration services included |
| BaselineStore.DeviceBaseline.CompareAddresses | lanfence/baseline.py:388-411 | Address and host name changes are reported when both sides are known and differ, and known values are kept |
| BaselineStore.DeviceBaseline.CompareStanding | lanfence/baseline.py:413-449 | Identity, trust and lingering-stranger changes, and the rearming of the last one |
| BaselineStore.DeviceBaseline.CompareWith | lanfence/baseline.py:312-453 | A whole comparison against an existing baseline: the new row, every item and the log |
| BaselineStore.DeviceBaseline.Compare | lanfence/baseline.py:286-453 | One comparison advances the row and every item by the comparison step, of which `BaselineHistory` says what it judges and records, followed by what the row cap took: something exactly if more than 200 items were left, and then down to 200; nothing normal unless all that is left is normal; and of the rows left as they were none that is gone or seen earlier than one that went |
| BaselineStore.DeviceBaseline.WhatHasGone | lanfence/db.py:2799-2804 | What goes by the end of a call, in terms of the run so far |
| BaselineStore.DeviceBaseline.LeftInOrder | lanfence/db.py:2799-2804 | Of the rows left as they were, none goes after one that is normal while it is pending, present while it is gone, or seen more recently |
| BaselineStore.AnyNumberOfItems | lanfence/baseline.py:303-310 | A single comparison can leave any number of items to hold, so the cap does take some |
| BaselineStore.DeviceBaseline.ReviewAccepted | lanfence/baseline.py:584-588 | Accepting a change puts exactly its item into the baseline |
| BaselineStore.DeviceBaseline.AcceptAllPending | lanfence/baseline.py:591-602 | Exactly the pending items are accepted |
| BaselineStore.DeviceBaseline.ResetBaseline | lanfence/baseline.py:605-612 | Row and items are forgotten, the history is kept |
| BaselineStore.DeviceBaseline.SetExcludedSignals | lanfence/baseline.py:615-622 | Only the excluded signals change, and only of an existing baseline |
| Throttle.CloseDispatchesEscalate | lanfence/db.py:1610-1655 | Two dispatches of one key closer than the cooldown are a strict escalation, whatever lies between them |
| Throttle.AtMostFourPerCooldown | lanfence/db.py:1610-1655 | Any half-open interval as long as the cooldown holds at most four dispatches of one key |
| Throttle.CloseDispatchesClimb | lanfence/db.py:1610-1655 | While such an interval lasts, each dispatch in it climbs one severity |
| Throttle.SteadySeverityIsSpacedOut | lanfence/db.py:1610-1655 | From the moment a key is asked for at one severity only, its dispatches are at least the cooldown apart, whatever came before |
| Throttle.DueExactlyWhenItEscalates | lanfence/db.py:1610-1655 | On a clock that does not run back for its key, an alert is due exactly when it is strictly more severe than every dispatch of its key less than a cooldown ago |
| Throttle.NoCooldownNoRefusal | lanfence/db.py:1610-1655 | With the cooldown off nothing is refused and nothing recorded |
| Throttle.WindowAlwaysAccounts | lanfence/db.py:1657-1694 | The one window row bounds the dispatches of any fixed interval, whatever its phase |
| Throttle.BudgetBoundsEveryInterval | lanfence/db.py:1657-1694 | Any interval as long as the window holds at most 2m-1 granted dispatches |
| Throttle.BudgetBoundsTheWholeRun | lanfence/db.py:1657-1694 | A run of duration T grants at most m * (T / W + 1) |
| Throttle.GrantedExactlyWhen | lanfence/db.py:1674-1694 | A request is granted exactly unless the window that the grants themselves opened last is still open and has given its maximum |
| Throttle.WindowAlwaysTells | lanfence/db.py:1677-1694 | The window row holds when that window was opened and how much was granted since |
| Throttle.RoomIsGranted | lanfence/db.py:1667-1687 | The budget never closes for good: a request is granted whenever the last window of time holds less than the maximum |
| Throttle.NoLimitNoRefusal | lanfence/db.py:1670-1675 | Without a limit every request is granted |
| Alerts.AbsenceNeverSwallowsRecovery | lanfence/engine.py:647-672 | An absence and a recovery never share a cooldown key |
| Alerts.SameKeyExactlyWhen | lanfence/engine.py:647-672 | Two findings share a cooldown exactly if they are about the same service and severity, the same availability and severity, the same lane, or else the same device |
| Alerts.BySeveritySorts | lanfence/engine.py:700-703 | The batch is put in order, most severe first |
| Alerts.BySeverityPermutes | lanfence/engine.py:700-703 | and keeps every finding as often as it came |
| Alerts.AlertStore.constructor | lanfence/db.py:292-300 | No rows: nothing asked, nothing spent |
| Alerts.AlertStore.DueForAlert | lanfence/db.py:1610-1655 | One row per key decides like the whole history of dispatches would |
| Alerts.AlertStore.ConsumeGlobalAlertBudget | lanfence/db.py:1657-1694 | One row decides like the whole history of requests would, and a request is granted exactly unless the open window is spent |
| Alerts.AlertStore.FilterOne | lanfence/engine.py:704-712 | A finding passes exactly if it is due and the budget grants it; the budget is asked only for due findings; what passes joins the history of what was sent |
| Alerts.AlertStore.FilterRateLimited | lanfence/engine.py:675-714 | The batch outcome, given everything asked and spent before, what it adds to the histories of asks, requests and sent findings, and that these stay in clock order |
| Alerts.AlertStore.FilterBatches | lanfence/cli.py:957-999 | Over any number of batches on a clock that does not run back, what was sent is what passed each batch, and stays within the window budget and within four findings per key and cooldown |
| Alerts.AlertStore.SentStaysInBudget | lanfence/engine.py:687-692 | Over any number of batches, any interval as long as the window holds at most 2m-1 sent findings, and a run of duration T at most m * (T / W + 1) |
| Alerts.AlertStore.AtMostFourSent | lanfence/engine.py:684-686 | Over any number of batches, any interval as long as the cooldown of a key holds at most four sent findings of it |
| Alerts.AlertStore.PassesWhenThereIsRoom | lanfence/engine.py:704-712 | In every reachable store a finding passes if no dispatch of its key is still cooling and less than the maximum was sent within the last window |
| Alerts.SentExactlyUnlessHeldBack | lanfence/engine.py:700-714 | In a batch each finding is sent exactly unless a dispatch of its key, earlier in the batch included, is still cooling and at least as severe, or the window is spent |
| Alerts.BatchSendsOnePerKey | lanfence/engine.py:675-714 | One batch sends at most one finding per key, and only findings it was given |
| Alerts.NothingMoreOfThisKey | lanfence/engine.py:704-712 | A dispatch holds back everything of its key in the same batch that is no more severe |
| Alerts.EverySendIsCharged | lanfence/engine.py:709-712 | The budget is charged once for every finding sent, so its bounds bound what leaves the machine |
| Alerts.RefusedByTheBudgetStillCoolsDown | lanfence/engine.py:704-712 | A finding refused by the budget is due again exactly when its cooldown has passed |
| Sms.RstripIsPrefix | lanfence/alerts.py:149-150 | Exactly the trailing white space is removed |
| Sms.AnAlertIsOneToFourSegments | lanfence/alerts.py:393-394 | A body of at most 480 characters bills one to four segments, and no more than it needs |
| Sms.TheBeginningIsSent | lanfence/alerts.py:149-151 | A short text is sent as it is; of a long one the beginning, without the white space before the cut, and an ellipsis |
| Sms.SmsBudget.constructor | lanfence/db.py:1696-1710 | Nothing used on any day |
| Sms.SmsBudget.Consume | lanfence/db.py:1696-1730 | Granted exactly when the day's rest suffices, and then charged to that day alone |
| Sms.SmsBudget.SendTwilio | lanfence/alerts.py:432-442 | The recipients attempted are the first ones; each day is charged segments times the recipients reached on it, never beyond the cap; within one day they are exactly as many as the rest of the budget pays for; the table stays the sum of all messages |
| Sms.SmsBudget.ReachRecipients | lanfence/alerts.py:434-439 | The loop stops at the first recipient whose day cannot pay |
| Sms.SmsBudget.OneCapHolds | lanfence/db.py:1696-1730 | Under one cap, over all messages from an empty table, no day exceeds it |
| Sms.AffordableIsExact | lanfence/alerts.py:432-442 | Stopping at the first refusal serves exactly min(n, (cap - used) / segments) recipients |
| DhcpServers.GenerationKeysDiffer | lanfence/dhcp_server.py:112-116 | Two servers never share a finding cooldown, whatever their interfaces are called |
| DhcpServers.Detector.constructor | lanfence/dhcp_server.py:64-66 | A detector may start on tables that have long been in use |
| DhcpServers.Detector.NoteReply | lanfence/dhcp_server.py:80-103 | The inventory is what the replies make of it, and only an ACK's usable address is recorded for its client |
| DhcpServers.Detector.Raise | lanfence/dhcp_server.py:112-127 | A finding is raised exactly if the server's cooldown has passed |
| DhcpServers.Detector.ProcessSighting | lanfence/dhcp_server.py:64-127 | A finding is raised exactly for an enabled detector, an unapproved server and a passed cooldown; the cooldown is asked for no other reply |
| DhcpServers.Detector.FilterOthers | lanfence/engine.py:675-714 | The batch filter on the same cooldown table leaves the detector's accounts in step |
| DhcpServers.LanesAreDisjoint | lanfence/engine.py:665-672 | No finding about a device, a service or a change shares a cooldown key with the generation of DHCP findings |
| DhcpServers.OthersLeaveItInStep | lanfence/dhcp_server.py:17-28 | Whatever the batch filter is given, the detector's dispatches and findings still match |
| DhcpServers.FindingsAreSpacedOut | lanfence/dhcp_server.py:22-26 | Over any run, with other senders in between, two findings about one server are at least the cooldown apart |
| DhcpServers.RaisedExactlyWhen | lanfence/dhcp_server.py:112-127 | On a fresh table and a clock that does not run back, a finding is raised exactly if none was raised about the server within the cooldown |
| DhcpServers.InventoryCounts | lanfence/dhcp_server.py:80-92 | The inventory counts the replies of every server and knows the first and the last of them |
| DhcpServers.ServersAreToldApart | lanfence/dhcp_server.py:79 | Servers are told apart by address and interface; an absent and an empty interface are one |
| DnsName.ReadName | lanfence/discovery.py:185-232 | The loop with one recursive call per pointer ends on every datagram and computes what its start spells |
| DnsName.AcceptsExactlyTheGrammar | lanfence/discovery.py:185-232 | A name is accepted exactly when the grammar of section 4.1.4 of RFC 1035, with backward pointers only, has it with at most 20 pointers |
| DnsName.ReadsEverySpelledName | lanfence/discovery.py:185-232 | and is read as the labels it denotes and the offset after it |
| DnsName.ReadsOnlySpelledNames | lanfence/discovery.py:185-232 | Whatever is accepted is such a name |
| DnsName.SpellingIsUnique | lanfence/discovery.py:185-232 | A byte string spells at most one name at an offset |
| DnsName.ResultIsInBounds | lanfence/discovery.py:210-232 | Labels have 1 to 63 bytes, and reading resumes after the name and inside the datagram |
| DnsName.SpellsWithinItsReach | lanfence/discovery.py:205-232 | A datagram that is cut off spells exactly the names that reach no further than the cut, and spells them alike |
| DnsName.ReachIsAhead | lanfence/discovery.py:205-232 | A name ends within its reach, and its reach within the datagram |
| DnsName.ReadsWithinItsReach | lanfence/discovery.py:185-232 | Cutting a datagram off leaves exactly the names that reach no further, and never changes one |
| DnsName.ObeysTheLimitExactlyWhen | lanfence/discovery.py:185-232 | Every name of the grammar is accepted, and has at most 255 bytes exactly if the length bytes that spell it say so |
| DnsName.LongNamesAreRead | lanfence/discovery.py:224-232 | A name of any number of 63-byte labels is read, and is beyond the limit from four labels on |
| DnsName.LengthIsBoundedByTheDatagram | lanfence/discovery.py:199-232 | An accepted name has at most 21 times the bytes of its datagram |
| DnsName.WireLengthIsWritten | lanfence/discovery.py:224-232 | The length of a name is that of its labels written without compression |
| DnsName.ReadsBackLabels | lanfence/discovery.py:224-232 | Labels written in full are read back, followed by whatever name comes next |
| DnsName.ReadsBackNames | lanfence/discovery.py:185-232 | Every label list survives being written without compression and read back, wherever it stands |
| DnsName.ReadsThroughPointers | lanfence/discovery.py:212-223 | Labels followed by a pointer to an earlier name read as the two joined |
| Mdns.ParseTxtRdata | lanfence/discovery.py:251-278 | The loop keeps, of the complete strings, the first ones that are allowed, new and still fit |
| Mdns.KeepEntry | lanfence/discovery.py:267-277 | One string is kept if its key is allowed and new and its shortened value still fits |
| Mdns.AttributesAreBounded | lanfence/discovery.py:251-278 | However many strings a record carries, at most 8 distinct allowed keys with values of at most 128, together at most 512, are kept |
| Mdns.OneMoreString | lanfence/discovery.py:267-277 | One more string is kept exactly if there is room for it and its key is allowed and new, and nothing kept is lost |
| Mdns.SplitsAtTheFirst | lanfence/discovery.py:267-270 | A string splits at its first equals sign; without one it is all key |
| Mdns.ReadsBackEntry | lanfence/discovery.py:267-270 | A written pair is split as it was |
| Mdns.LongValuesAreCut | lanfence/discovery.py:274 | A value of more than 128 characters is shown as its first 127 and an ellipsis |
| Mdns.ReadsBackAttributes | lanfence/discovery.py:251-278 | At most eight pairs with different allowed keys and values within the limits are read back, all and in order |
| Mdns.ReadsBackStrings | lanfence/discovery.py:259-266 | Written TXT strings are split again as they were |
| Mdns.ReadsBackBody | lanfence/discovery.py:369-431 | The payload written for each of the five known types, and for any other, is understood as what it means |
| Mdns.ConfinedExactlyWhen | lanfence/discovery.py:356-431 | A record means what it would mean at the end of its datagram exactly when the name it refers to, if any, is unreadable or touches nothing behind the record |
| Mdns.EmptyPtrNamesWhatFollows | lanfence/discovery.py:368-386 | A PTR record without payload is understood as naming whatever name follows it, where on its own it is an error |
| Mdns.ExamineRecord | lanfence/discovery.py:356-431 | One record, read within the datagram, and where the next one starts |
| Mdns.SkipAllQuestions | lanfence/discovery.py:349-351 | At most 64 questions are skipped |
| Mdns.ExamineSections | lanfence/discovery.py:353-435 | The nested loops over three sections examine exactly the first min(64, total) records, in message order |
| Mdns.ParsePacket | lanfence/discovery.py:328-435 | The whole parser, which never reads outside the datagram |
| Mdns.QueriesYieldNothing | lanfence/discovery.py:334-346 | Every written query, with whatever known answers and trailing bytes, yields no sighting and no error |
| Mdns.ReadsBackRecord | lanfence/discovery.py:356-431 | A record written anywhere is read back as what it means, and reading resumes right after it |
| Mdns.LegibleIsRead | lanfence/discovery.py:353-435 | Records that read well one after another yield the sightings of the first ones, in order |
| Mdns.ReadsBackMessages | lanfence/discovery.py:328-435 | Every response with at most 64 questions is read back as the meanings of its first 64 records, however they are spread over the sections |
| MdnsCache.RowsAreAnnouncements | lanfence/db.py:2250-2293 | A row is the last announcement of its address, withdrawn exactly when that no longer stands; while it stands, which it does not once evicted, the row is there exactly as long as retention has not forgotten it |
| MdnsCache.RowsTellWhatStands | lanfence/db.py:2368-2374 | A row is not withdrawn exactly when an announcement stands, not evicted, and is retained, and current exactly when one stands and has not run out |
| MdnsCache.AnnouncementsAreHeeded | lanfence/db.py:2263-2281 | What is announced with a time to live is listed from then on, and expires after that time |
| MdnsCache.GoodbyesAreHeeded | lanfence/discovery.py:658-661 | A zero time to live withdraws exactly its own address and forgets nothing |
| MdnsCache.AnnouncementsForget | lanfence/db.py:2104-2111 | Every announcement, of whatever kind, forgets exactly the other rows that were not seen for the retention period and are withdrawn or have run out |
| MdnsCache.RepeatsKeepTheFirst | lanfence/db.py:2263-2281 | A repeated announcement keeps the earlier first time, and a row begins with its announcement |
| MdnsCache.FlushLeavesTheRecent | lanfence/db.py:2282-2288 | After a cache flush only the flushed-in address and those within the grace second stand for that host |
| MdnsCache.RunOutExactlyWhen | lanfence/db.py:2408-2411 | An address is listed without being advertised exactly when its standing, retained announcement has run out; what is advertised is always listed |
| MdnsCache.RunOutCanBeListed | lanfence/db.py:2408-2411 | A concrete address that is listed after its time, for every retention period |
| MdnsCache.CurrentRowsCanGo | lanfence/db.py:2112-2116 | Two current rows and room for one: the older one goes, and what was advertised is no longer listed |
| MdnsCache.Cache.constructor | lanfence/db.py:251-262 | Nothing heard, nothing held, and room for at least one row |
| MdnsCache.Cache.Prune | lanfence/db.py:2104-2111 | Retention forgets exactly the rows that are no longer current and were not seen for the retention period |
| MdnsCache.Cache.EnforceRowCap | lanfence/db.py:764-785 | Rows go only beyond the cap, as few as needed, and none seen later than one that stays |
| MdnsCache.Cache.Withdraw | lanfence/db.py:2295-2300 | A goodbye withdraws its row and never makes one |
| MdnsCache.Cache.Announce | lanfence/db.py:2250-2291 | An announcement renews its row and a flush withdraws the others of its host outside the grace period |
| MdnsCache.Cache.ProcessAddressRecord | lanfence/discovery.py:658-667 | Each record extends the history, followed by what the row cap took: at most one row, only for a new address on a full table, and one that no other is older than; the table stays exactly what the history makes of it, retention included |
| MdnsCache.Cache.ProcessOtherRecord | lanfence/db.py:2106-2116 | Announcements that other tables keep prune this one too, and leave its cap nothing to take |
| MdnsCache.Cache.AddressesOf | lanfence/db.py:2407-2411 | The addresses listed for a host are exactly those whose announcement stands, not evicted, and is retained |
| Delivery.EveryRunKeepsInv | lanfence/alert_worker.py:83-155 | Under every interleaving: first in first out, exact counters, one `task_done` owed per item taken, bounded discards |
| Delivery.BatchesAreConserved | lanfence/alert_worker.py:83-155 | Accepted batches are delivered, in hand, queued or discarded by a shutdown, and deliveries keep submission order |
| Delivery.CountersAreExact | lanfence/alert_worker.py:83-133 | `dropped` counts the refused batches, and at rest nothing is owed but what is queued |
| Delivery.RefusesOnlyWhenFull | lanfence/alert_worker.py:89-99 | Over any run there are exactly as many refusals as submissions of an idle monitor loop that found the queue full |
| Delivery.RoomAccepts | lanfence/alert_worker.py:89-91 | Any other submission puts exactly its own batch at the end of the queue and disturbs nothing else |
| Delivery.ShutdownsAreCounted | lanfence/alert_worker.py:141-143 | Every shutdown of an idle monitor loop begins, and only a full queue makes it drain |
| Delivery.ShutdownsAreBounded | lanfence/alert_worker.py:136-155 | Each shutdown discards at most one item, only after finding the queue full, and its sentinel is always enqueued |
| Delivery.DiscardsAreExact | lanfence/alert_worker.py:141-151 | Over any run each shutdown that found the queue full discarded one item, came too late, or has yet to drain |
| Delivery.RoomCostsNothing | lanfence/alert_worker.py:141-142 | A shutdown that begins with room discards nothing under any interleaving |
| Delivery.FullCostsOneExactlyWhen | lanfence/alert_worker.py:143-151 | A shutdown that found the queue full discards exactly one item, unless the worker takes all that was queued first |
| Delivery.DiscardsDespiteRoom | lanfence/alert_worker.py:141-149 | An interleaving in which a shutdown discards a batch although the worker has just made room |
| Delivery.StoppedMeansDrained | lanfence/alert_worker.py:110-134 | When the worker has stopped, everything put before its sentinel was delivered or discarded |
| Delivery.WorkerDrainsToTheSentinel | lanfence/alert_worker.py:110-134 | Left alone, the worker delivers what stands before the sentinel, in order, and stops there |
| IdentityVote.CountVotes | lanfence/identity.py:369-372 | The totals are the sums of the weights behind each value |
| IdentityVote.AddVotes | lanfence/identity.py:370-372 | One rule adds its weight to exactly the values it asserts |
| IdentityVote.PickWinner | lanfence/identity.py:375-385 | A field's winner has maximal total weight, ties going to the earliest matched rule |
| IdentityVote.PickWinners | lanfence/identity.py:374-385 | and every asserted field has one |
| IdentityVote.WeighEvidence | lanfence/identity.py:387-395 | One signed weight per rule, which sum to the unclamped confidence, and what is said about each |
| IdentityVote.InferIdentity | lanfence/identity.py:346-405 | The elected winners, the confidence between 0 and 100 and the signed evidence belong together; the evidence comes heaviest first, and in the order of the rules where weights are equal |
| IdentityVote.ItemsTellWhoAgrees | lanfence/identity.py:388-394 | A rule counts for the identity exactly if everything it asserts won, and against it exactly if something lost |
| IdentityVote.AgreementAddsUp | lanfence/identity.py:387-392 | Where nobody disagrees with the winners the confidence is the weight of all rules, before the clamp |
| IdentityVote.ScoreIsAgreementLessDissent | lanfence/identity.py:387-392 | In general it is the weight of the rules that agree less the weight of those that do not |
| IdentityVote.WinnersOutweigh | lanfence/identity.py:374-385 | A winner has at least as much weight behind it as any other value asserted for its field |
| IdentityVote.TiesGoToTheEarliest | lanfence/identity.py:379-385 | Of values with the same weight behind them the one asserted first wins |
| IdentityVote.SortedDescends | lanfence/identity.py:396 | Sorting adds and loses nothing and puts what is heavier first |
| IdentityVote.SortedIsStable | lanfence/identity.py:396 | Evidence of one weight stays in the order of its rules |
| IdentityVote.StableOrderIsUnique | lanfence/identity.py:396 | Heaviest first and stable leaves no choice |
| IdentityVote.ElectionIsDecided | lanfence/identity.py:374-385 | The matched rules decide the winners |
| IdentityVote.OrderOnlyBreaksTies | lanfence/identity.py:379-385 | Unless a field is tied, permuting the rules changes neither winners nor confidence |
| IdentityVote.SupportOnlyStrengthens | lanfence/identity.py:387-392 | One more rule whose every asserted value is a winner, which holds of one that asserts nothing, keeps all winners, adds its weight and never lowers confidence |
| IdentityVote.ConfidenceCanCancel | lanfence/identity.py:387-392 | Two matched rules with confidence 0 |
| IdentityVote.ConfidenceIsZeroExactlyWhenOutweighed | lanfence/identity.py:387-402 | Confidence is 0 exactly when the agreeing rules weigh no more than the conflicting ones |

## Left out

- PTR, SRV, TXT and SSDP tables, which follow the pattern of the address table in `MdnsCache`.
- Coalescing.CoalescingKeepsEvidence: speaks about address evidence; of name evidence the latest spelling depends on arrival order.
- BatchStore.ObservePacket: what a reverse lookup answers is a parameter.
- Alerts.AlertStore.DueForAlert: deleting a device also deletes the cooldown row of its plain lane, which reopens that cooldown; the histories here are those of runs without such a deletion.
- IdentityVote.InferIdentity: starts from the matched rules; matching a rule's conditions against the evidence is not modelled.
- PresenceStore.DeviceStore.RetryDevicesDueForOffline: what a probe of a device meets is a parameter, so which address is probed, and by ARP or ping, is not modelled.
- Delivery.EveryRunKeepsInv: assumes a bounded queue (`maxsize` above 0); a failing delivery counts as delivered because the worker swallows it, and timeouts of `join` are steps the monitor loop may take at any time.
- Sms.SmsBudget.SendTwilio: the call without a store, which spends no budget, and the HTTP request itself.
- EvidenceStore.EvidenceStore.Observe: `vendor`, and the presence columns of the same row, which `PresenceStore` models.
- Device rows in `PresenceStore` and `EvidenceStore` are two views of one table; the two classes do not share an object.
- SQLite, file permissions, schema upgrades (with the import of legacy snapshots), crashes between commits, and access by several processes: each store method or sweep is one atomic step.
- MAC normalisation, address parsing, usable-address tests, name keys and UTF-8 decoding, which are parameters or done before.
- Time zones and sub-second time.
- The whole-database reset.
- The wording and most evidence lines of findings, and `build_findings` with its signature severities: on reappearance a `critical` signature yields only the lifecycle finding.
- The significance of address, host name and identity changes, the historical comparison view, and review states other than acceptance.
- Risk scores and change policies; `risk_changed` events are never produced by the model.
- Ingestion of DHCP server findings, which is the same page loop over another table.
- The SSDP parser, the active port inspection, device classification and signature matching.
- Scanning, name resolution, SMTP, HTTP and syslog delivery, the dashboard, the portal and the commands.
