# Priam core, modelled in Dafny

Priam manages Cassandra nodes on AWS. This project models three of its components and proves
properties of them.

- **Ring doubling** (`DoubleRing`, files `instance_registry.dfy` and `double_ring.dfy`).
  - The ring is a registry of instance records. Each record has an application, a ring slot,
    an instance id, a host, an IP, an availability zone, its volumes, a token and a region.
  - `doubleSlots` lists the cluster's records in the local region and deletes them. It then
    re-creates each one at twice its slot, counted from the region offset. Beside each one it
    creates a placeholder `numZones` slots further on, modulo the doubled ring size.
  - `backup` keeps a snapshot of the local records and `restore` puts it back.
  - The registry is a class holding a sequence of records. The static backup file becomes the
    `snapshot` field.
  - Token creation and the region offset are parameters (`RingConfig.createToken`,
    `RingConfig.regionOffset`).
- **The date-filtered prefix catalogue** (`S3PrefixIterator`, files `date_format.dfy` and
  `s3_prefix_iterator.dfy`).
  - The constructor resolves a bucket and a cluster path from the configuration.
  - It lists the common prefixes under the cluster path, one page at a time.
  - It keeps only the prefixes for which a listing of `prefix + yyyyMMdd(date)` finds an object.
  - The object store is a value. It maps each listing request to its pages and each bucket to
    its keys.
  - The iterator is a class with the page cursor and the buffer of the current filtered page.
  - The main property is proved of the iterator and of `ListPrefixes`: it yields the filtered
    pages concatenated in order, each once.
- **The EBS backup file system** (`EBSFileSystem`, files `device_naming.dfy`, `ec2.dfy` and
  `ebs_file_system.dfy`).
  - At start-up the file system makes sure this instance has its tagged backup volume. If the
    volume is attached here, it only mounts it. If tagged volumes exist but are not attached
    here, it attaches each one and mounts it. If none exists, it creates a volume sized from the
    ephemeral disk and tags it. It attaches the volume only when the create reply already
    reports `available`, because the wait for the volume to be created is never entered.
  - EC2 is an abstract `World`. It holds the volume table, a log of the mutating requests and
    the answers the attachment poll will get. It also holds the id and state the next created
    volume receives, the mount table, and the commands run.
  - The reply to an attach request reports an attachment state (`World.attachReplyState`). The
    poll starts from it, so a reply that is not `attaching` ends the poll without a describe
    call.
  - Each describe call of the poll lists the volume passed to `withVolumes` after its own
    results. The first listed volume's first attachment decides the status.
  - Backups are directory copies between the ephemeral disk and the volume, counted by four
    counters.
  - The class `EbsFileSystem` performs these steps imperatively. It is proved equal to the
    functions `MountSpec`, `AttachSpec`, `AttachAndMountAll`, `CreateTagAttach`,
    `MountAndAttachSpec`, `UploadSpec` and `DownloadSpec`.

`java_lang.dfy` holds the Java behaviour the code relies on: `String.split` on one character,
`StringUtils.isBlank`, `startsWith`, the truncating `%`, and the lexicographic order behind
`Arrays.sort`. `wrappers.dfy` holds `Option`, `Result` and `Outcome`. Exceptions that end an
operation become `Failure`/`Fail` values.

In four places the EBS code as written cannot do what its comments and structure say.
- The device letter rule of `attachVolume`. It fails in three ways, so it has three rows in
  Findings.
- The log line after a successful attach.
- The mount after each attach.
- The lookup before tagging a new volume.

For each of these the model uses the evidently intended behaviour, and a member named
`...AsWritten` states what the code does (see Findings).

## Model

| member | source | states |
|---|---|---|
| JavaLang.Split | core/src/main/java/com/netflix/priam/aws/S3PrefixIterator.java:57 | splitting on the path separator: a path without the separator is the single segment `[path]`; no segment contains the separator; the last segment is not empty when the separator occurs |
| JavaLang.SplitOfJoin | core/src/main/java/com/netflix/priam/aws/S3PrefixIterator.java:57-58 | splitting segments joined by the separator gives the segments back when the last one is not empty, so `paths[0]` is the first segment |
| JavaLang.SplitOfSeparatorFree | core/src/main/java/com/netflix/priam/aws/EBSFileSystem.java:400-401 | a string without the separator splits into exactly itself |
| JavaLang.JavaRem | priam/src/main/java/com/netflix/priam/identity/DoubleRing.java:88 | Java's `%`: the result has the sign of the dividend, its magnitude is below the modulus, and the dividend is the truncated quotient times the modulus plus the result |
| JavaLang.JavaRemKeepsParity | priam/src/main/java/com/netflix/priam/identity/DoubleRing.java:86-88 | a remainder by an even modulus has the dividend's parity (the step of the code comment) |
| JavaLang.LexLeTotal | core/src/main/java/com/netflix/priam/aws/EBSFileSystem.java:176 | the order `Arrays.sort` uses on strings is total |
| JavaLang.LexLeTransitive | core/src/main/java/com/netflix/priam/aws/EBSFileSystem.java:176 | the order `Arrays.sort` uses on strings is transitive |
| JavaLang.Largest | core/src/main/java/com/netflix/priam/aws/EBSFileSystem.java:176-178 | the last name after sorting is one of the names and is at least every name in lexicographic order |
| InstanceRegistry.OfApp | priam/src/main/java/com/netflix/priam/identity/DoubleRing.java:63 | `getAllIds(app)` lists exactly the records of that application |
| InstanceRegistry.WithoutRemovesExactly | priam/src/main/java/com/netflix/priam/identity/DoubleRing.java:67 | deleting a record removes every copy of it and keeps every other record (as multisets) |
| InstanceRegistry.WithoutAfterRemoveAll | priam/src/main/java/com/netflix/priam/identity/DoubleRing.java:66-68 | deleting the records of a list one by one is removing every record of the list |
| InstanceRegistry.Registry.Delete | priam/src/main/java/com/netflix/priam/identity/DoubleRing.java:67 | the registry afterwards is the old one without the record |
| InstanceRegistry.Registry.Create | priam/src/main/java/com/netflix/priam/identity/DoubleRing.java:77-84 | the registry afterwards is the old one plus the record with exactly the given fields |
| InstanceRegistry.Registry.constructor | priam/src/main/java/com/netflix/priam/identity/DoubleRing.java:46 | the registry holds the given records |
| DoubleRing.InRegion | priam/src/main/java/com/netflix/priam/identity/DoubleRing.java:102-110 | `filteredRemote` keeps exactly the records of the local region |
| DoubleRing.NonLocal | priam/src/main/java/com/netflix/priam/identity/DoubleRing.java:63-68 | the records that doubling does not touch are registry records that are not local members of the cluster |
| DoubleRing.LocalMembers | priam/src/main/java/com/netflix/priam/identity/DoubleRing.java:63 | the records listed for doubling are exactly the cluster's records in the local region |
| DoubleRing.InRegionSnoc | priam/src/main/java/com/netflix/priam/identity/DoubleRing.java:104-107 | one more record is kept by the region filter exactly when it is of the local region |
| DoubleRing.LocalCons | priam/src/main/java/com/netflix/priam/identity/DoubleRing.java:63-68 | a record is either a local member, listed for doubling, or one of the records doubling keeps |
| DoubleRing.LocalSplit | priam/src/main/java/com/netflix/priam/identity/DoubleRing.java:63-68 | the local members and the other records together are the whole registry (as multisets) |
| DoubleRing.RemoveAllLocal | priam/src/main/java/com/netflix/priam/identity/DoubleRing.java:65-68 | deleting the listed local members leaves exactly the records that are not local members, in order |
| DoubleRing.ExpandAllLocal | priam/src/main/java/com/netflix/priam/identity/DoubleRing.java:77-97 | every record doubling creates is a local member of the cluster |
| DoubleRing.MovedMemberKeepsIdentity | priam/src/main/java/com/netflix/priam/identity/DoubleRing.java:76-84 | each member is re-created at `offset + 2*(id - offset)` and keeps its instance id, host, IP, zone, volumes and token |
| DoubleRing.PlaceholderBeside | priam/src/main/java/com/netflix/priam/identity/DoubleRing.java:86-97 | the placeholder beside a member is at `offset + (2s + numZones) % 2M` (Java remainder), inside `0 .. 2M-1` for a non-negative relative slot; it has id `new_slot`, this host's name and IP, the member's zone, no volumes, and the token `createToken(newSlot, 2M, region)` |
| DoubleRing.SiblingSlotOdd | priam/src/main/java/com/netflix/priam/identity/DoubleRing.java:86-88 | with an odd zone count and an even ring size, every placeholder's relative slot is odd |
| DoubleRing.DoublingParity | priam/src/main/java/com/netflix/priam/identity/DoubleRing.java:86-88 | with an odd zone count, moved members get even relative slots and placeholders odd ones, so no placeholder shares a slot with a moved member |
| DoubleRing.ShiftedRemainderInjective | priam/src/main/java/com/netflix/priam/identity/DoubleRing.java:88 | two slots in `0 .. n-1` shifted by the same zone count have the same remainder only if they are equal |
| DoubleRing.SiblingSlotsDistinct | priam/src/main/java/com/netflix/priam/identity/DoubleRing.java:88-91 | placeholders of two different members of a dense ring get different slots |
| DoubleRing.DoubledSlotsDistinct | priam/src/main/java/com/netflix/priam/identity/DoubleRing.java:70-98 | M members on distinct relative slots `0 .. M-1` with an odd zone count give exactly 2M records on pairwise distinct relative slots in `0 .. 2M-1` |
| DoubleRing.EvenZoneCountCollides | priam/src/main/java/com/netflix/priam/identity/DoubleRing.java:86-88 | with two zones, a placeholder of a two-member ring lands on a moved member's slot, so the odd zone count is needed |
| DoubleRing.DoublingEmptyRegion | priam/src/main/java/com/netflix/priam/identity/DoubleRing.java:71-98 | with no local member nothing is created (the modulus is never used) and the registry is unchanged |
| DoubleRing.DoublingKeepsOtherRecords | priam/src/main/java/com/netflix/priam/identity/DoubleRing.java:62-99 | doubling leaves every record of other regions and applications as it was, in order |
| DoubleRing.RecreateSnoc | priam/src/main/java/com/netflix/priam/identity/DoubleRing.java:146-147 | each record restored is appended with the local region |
| DoubleRing.RestoreKeepsOtherRecords | priam/src/main/java/com/netflix/priam/identity/DoubleRing.java:135-148 | restoring a snapshot of the cluster leaves every record of other regions and applications as it was |
| DoubleRing.BackupDoubleRestoreRoundTrip | priam/src/main/java/com/netflix/priam/identity/DoubleRing.java:115-153 | `backup; doubleSlots; restore` gives back the registry as it was before `backup` (as a multiset) |
| DoubleRing.DoubleRing.constructor | priam/src/main/java/com/netflix/priam/identity/DoubleRing.java:50-55 | the component holds its configuration and registry, and no backup exists yet |
| DoubleRing.DoubleRing.FilteredRemote | priam/src/main/java/com/netflix/priam/identity/DoubleRing.java:102-110 | the loop returns exactly the records of the local region, in order |
| DoubleRing.DoubleRing.DeleteAll | priam/src/main/java/com/netflix/priam/identity/DoubleRing.java:66-68 | the delete loop removes every record of the list and nothing else |
| DoubleRing.DoubleRing.DeleteLocal | priam/src/main/java/com/netflix/priam/identity/DoubleRing.java:63-68 | deleting the listed local members leaves exactly the other records |
| DoubleRing.DoubleRing.CreateDoubled | priam/src/main/java/com/netflix/priam/identity/DoubleRing.java:70-98 | the create loop appends, for each member in order, the moved member and then its placeholder |
| DoubleRing.DoubleRing.DoubleSlots | priam/src/main/java/com/netflix/priam/identity/DoubleRing.java:62-99 | the registry afterwards is the other records followed by the doubled local members (`DoubledRegistry`) |
| DoubleRing.DoubleRing.Backup | priam/src/main/java/com/netflix/priam/identity/DoubleRing.java:115-127 | the snapshot is exactly the filtered local-region list |
| DoubleRing.DoubleRing.Restore | priam/src/main/java/com/netflix/priam/identity/DoubleRing.java:135-154 | the local members are deleted first; without a backup the call fails with only the other records left; otherwise the snapshot records are created again in the local region |
| DateFormat.Yyyymmdd | core/src/main/java/com/netflix/priam/aws/S3PrefixIterator.java:38 | the formatted date is all digits and at least eight characters long |
| DateFormat.PaddedRoundTrip | core/src/main/java/com/netflix/priam/aws/S3PrefixIterator.java:38 | a zero-padded field reads back as its number |
| DateFormat.YyyymmddRoundTrip | core/src/main/java/com/netflix/priam/aws/S3PrefixIterator.java:38 | for a four-digit year and two-digit month and day the date string is eight digits and determines the date |
| DateFormat.FirstOfJanuary2024 | core/src/main/java/com/netflix/priam/aws/S3PrefixIterator.java:81 | 1 January 2024 is probed as `20240101` |
| S3PrefixIterator.Pages | core/src/main/java/com/netflix/priam/aws/S3PrefixIterator.java:71 | every listing yields at least one page |
| S3PrefixIterator.ProbeFindsKey | core/src/main/java/com/netflix/priam/aws/S3PrefixIterator.java:134-141 | the probe holds exactly when some key of the bucket starts with the candidate followed by the date |
| S3PrefixIterator.LocateDefault | core/src/main/java/com/netflix/priam/aws/S3PrefixIterator.java:50-59 | with a blank restore prefix the bucket name is searched, under `baseDir/region/cluster/` |
| S3PrefixIterator.LocateOverride | core/src/main/java/com/netflix/priam/aws/S3PrefixIterator.java:50-59 | a restore prefix `b/e1/e2/e3[/...]` searches bucket `b` under `e1/e2/e3/` |
| S3PrefixIterator.LocateTooFewSegments | core/src/main/java/com/netflix/priam/aws/S3PrefixIterator.java:122-123 | a restore prefix of two or three segments fails the assertion of `remotePrefix` |
| S3PrefixIterator.LocateSeparatorsOnly | core/src/main/java/com/netflix/priam/aws/S3PrefixIterator.java:57-58 | a restore prefix made only of a separator has no bucket segment and construction fails |
| S3PrefixIterator.SeparatorIsNotBlank | core/src/main/java/com/netflix/priam/aws/S3PrefixIterator.java:51 | a path holding a separator counts as not blank |
| S3PrefixIterator.FilterPage | core/src/main/java/com/netflix/priam/aws/S3PrefixIterator.java:79-87 | a page keeps exactly its candidates that have data on the date |
| S3PrefixIterator.FilterPagesConcat | core/src/main/java/com/netflix/priam/aws/S3PrefixIterator.java:95-97 | filtering pages one after another is filtering their concatenation |
| S3PrefixIterator.FilterPagesMembers | core/src/main/java/com/netflix/priam/aws/S3PrefixIterator.java:79-97 | a candidate is yielded exactly when some page lists it and it has data on the date |
| S3PrefixIterator.TwoPageExample | core/src/main/java/com/netflix/priam/aws/S3PrefixIterator.java:75-101 | two pages `A/` and `B/`, with data only under `A/20240101`, yield `A/` once |
| S3PrefixIterator.PrefixIterator.constructor | core/src/main/java/com/netflix/priam/aws/S3PrefixIterator.java:59-61 | the listing is requested at once; the buffer is the first page filtered; what remains is the whole filtered listing |
| S3PrefixIterator.PrefixIterator.InitListing | core/src/main/java/com/netflix/priam/aws/S3PrefixIterator.java:64-73 | the token listing with the cluster path and the delimiter is requested, and the first page is current |
| S3PrefixIterator.PrefixIterator.CreateIterator | core/src/main/java/com/netflix/priam/aws/S3PrefixIterator.java:75-88 | it requests the listing only when there is none; the rebuilt buffer is the current page's candidates with data on the date, in page order |
| S3PrefixIterator.PrefixIterator.HasNext | core/src/main/java/com/netflix/priam/aws/S3PrefixIterator.java:91-101 | true at once when the buffer holds something; it fetches pages only forward; what remains is unchanged; false only on the last page with an empty buffer, i.e. exactly when nothing remains |
| S3PrefixIterator.PrefixIterator.Next | core/src/main/java/com/netflix/priam/aws/S3PrefixIterator.java:104-106 | yields the head of the buffer and removes it from what remains; an empty buffer gives no element |
| S3PrefixIterator.PrefixIterator.Remove | core/src/main/java/com/netflix/priam/aws/S3PrefixIterator.java:109-110 | changes nothing |
| S3PrefixIterator.PrefixIterator.Drain | core/src/main/java/com/netflix/priam/aws/S3PrefixIterator.java:91-106 | a `hasNext`/`next` loop receives exactly what remained, in order, and leaves nothing |
| S3PrefixIterator.ListPrefixes | core/src/main/java/com/netflix/priam/aws/S3PrefixIterator.java:43-62 | a malformed search path fails as construction does; otherwise the catalogue yields the filtered pages of the token listing concatenated in order |
| DeviceNaming.InUse | core/src/main/java/com/netflix/priam/aws/EBSFileSystem.java:172 | the listed devices are exactly the mounted names starting with `/dev/xvd` |
| DeviceNaming.NextDeviceName | core/src/main/java/com/netflix/priam/aws/EBSFileSystem.java:166-193 | the stated rule always ends in `/dev/xvd` plus one letter from `f` to `z`; the rule says nothing about a largest letter `z`, and the model fails there (see Left out) |
| DeviceNaming.LetterDevicesOrdered | core/src/main/java/com/netflix/priam/aws/EBSFileSystem.java:176-178 | single-letter devices sort by their letter |
| DeviceNaming.NextDeviceIsFree | core/src/main/java/com/netflix/priam/aws/EBSFileSystem.java:186-192 | when the mounted `/dev/xvd*` devices are single-letter devices, the chosen device is not one of them and sorts above every mounted `/dev/xvd*` device |
| DeviceNaming.LargestOfTwoLetterDevices | core/src/main/java/com/netflix/priam/aws/EBSFileSystem.java:176-178 | of two letter devices the larger letter sorts last |
| DeviceNaming.BelowFloorUsesFloor | core/src/main/java/com/netflix/priam/aws/EBSFileSystem.java:187-188 | with only devices below `f` mounted, `/dev/xvdf` is chosen |
| DeviceNaming.NextAfterLargest | core/src/main/java/com/netflix/priam/aws/EBSFileSystem.java:189-192 | with `/dev/xvdf` and `/dev/xvdg` mounted, `/dev/xvdh` is chosen |
| DeviceNaming.NextLetterAsWrittenIsNull | core/src/main/java/com/netflix/priam/aws/EBSFileSystem.java:185-192 | `forDigit(getNumericValue(c) + 1, 16)` gives the null character, not a letter, for every letter from `f` on |
| DeviceNaming.AsWrittenIgnoresMounts | core/src/main/java/com/netflix/priam/aws/EBSFileSystem.java:174 | the text the code splits is one line without the device prefix, so the code picks `/dev/xvdf` whatever is mounted |
| DeviceNaming.AsWrittenPicksDeviceInUse | core/src/main/java/com/netflix/priam/aws/EBSFileSystem.java:172-181 | with `/dev/xvdf` mounted the code picks `/dev/xvdf` while the stated rule picks `/dev/xvdg` |
| DeviceNaming.AsWrittenFailsOnListedDevice | core/src/main/java/com/netflix/priam/aws/EBSFileSystem.java:184 | a listed device name fails at `substring(-1)` |
| Ec2.Describe | core/src/main/java/com/netflix/priam/aws/EBSFileSystem.java:79-90 | `getEbsVolumes` returns exactly the volumes whose `Name` tag is the given value |
| Ec2.DescribeConcat | core/src/main/java/com/netflix/priam/aws/EBSFileSystem.java:79-90 | the lookup of a concatenated table is the concatenated lookups |
| Ec2.AttachInTable | core/src/main/java/com/netflix/priam/aws/EBSFileSystem.java:203-208 | the attach request changes no table length and records the attachment in the state the reply reports; `EbsFileSystem.AttachKeepsVolumes` and `EbsFileSystem.CurrentRecordAfterAttach` state what it changes |
| Ec2.TagInTable | core/src/main/java/com/netflix/priam/aws/EBSFileSystem.java:316-323 | the tag request changes no table length; `EbsFileSystem.CreatedVolumeIsFoundByTag` states what it changes |
| Ec2.CurrentRecord | core/src/main/java/com/netflix/priam/aws/EBSFileSystem.java:263 | the current record of a volume has its id and is in the table or is the record given |
| Ec2.Poll | core/src/main/java/com/netflix/priam/aws/EBSFileSystem.java:209-236 | the poll settles only on a status other than `attaching`; it ends at once when the status is already settled; it consumes answers from the front |
| Ec2.PollStopsOnError | core/src/main/java/com/netflix/priam/aws/EBSFileSystem.java:224-227 | an `error` status ends the poll before the sleep |
| Ec2.PollInterruptAfterAttached | core/src/main/java/com/netflix/priam/aws/EBSFileSystem.java:229-235 | after `attached` the loop still sleeps once, so an interrupt there is propagated |
| Ec2.PollReadsFirstListedVolume | core/src/main/java/com/netflix/priam/aws/EBSFileSystem.java:214-220 | the status is read from the first listed volume, which may be another volume than the one being attached |
| EbsFileSystem.ToInt32 | core/src/main/java/com/netflix/priam/aws/EBSFileSystem.java:281 | the `(int)` cast lies in the 32-bit range and keeps every value already in it |
| EbsFileSystem.VolumeSizeTruncatesToGiB | core/src/main/java/com/netflix/priam/aws/EBSFileSystem.java:273-281 | below 2^31 GiB the created volume's size is the ephemeral capacity in GiB, rounded down |
| EbsFileSystem.MountUsesFirstAttachment | core/src/main/java/com/netflix/priam/aws/EBSFileSystem.java:124-146 | a volume with one or more attachments (several are only logged) is mounted at the device of attachment 0, with no EC2 request |
| EbsFileSystem.AttachSkipsUnavailable | core/src/main/java/com/netflix/priam/aws/EBSFileSystem.java:162 | a volume that is not `available` is left alone |
| EbsFileSystem.AttachRequestsDevice | core/src/main/java/com/netflix/priam/aws/EBSFileSystem.java:161-236 | an `available` volume gets one attach request, to this instance at the device the rule picks; the step completes exactly when the poll, started from the attach reply's state, settles |
| EbsFileSystem.AttachSettledReplyDoesNotPoll | core/src/main/java/com/netflix/priam/aws/EBSFileSystem.java:208-210 | an attach reply that is not `attaching` completes the step without reading a poll answer |
| EbsFileSystem.AttachStopsOnErrorAnswer | core/src/main/java/com/netflix/priam/aws/EBSFileSystem.java:210-228 | an `attaching` reply whose first answer is `error` completes the step after that one answer, without an exception |
| EbsFileSystem.AsWrittenAttachFailsOnSuccess | core/src/main/java/com/netflix/priam/aws/EBSFileSystem.java:238-240 | when an unattached volume's attach succeeds, the code as written fails at the log line |
| EbsFileSystem.AttachKeepsVolumes | core/src/main/java/com/netflix/priam/aws/EBSFileSystem.java:161-236 | attaching changes no volume's id, tags, size or zone and only adds to the request log |
| EbsFileSystem.CurrentRecordAfterAttach | core/src/main/java/com/netflix/priam/aws/EBSFileSystem.java:203-207 | after the attach request, the table's record of the volume is in use and ends with the new attachment |
| EbsFileSystem.AttachedVolumeIsMounted | core/src/main/java/com/netflix/priam/aws/EBSFileSystem.java:258-265 | a tagged `available` volume whose attach settles `attached` is attached at the chosen device and then mounted there (the model mounts after any settle, see `Ec2.AttachInTable` under Left out); the code as written fails for every settle, at the log line after `attached` and at the mount otherwise |
| EbsFileSystem.AsWrittenMountFailsAfterErrorPoll | core/src/main/java/com/netflix/priam/aws/EBSFileSystem.java:262-263 | when the poll settles `error`, the attach as written returns normally and the mount of the stale record then fails; that the intended loop still mounts rests on the table abstraction named under Left out (`Ec2.AttachInTable`) |
| EbsFileSystem.StaleRecordMountFails | core/src/main/java/com/netflix/priam/aws/EBSFileSystem.java:262-263 | after an `attached` settle, mounting the record described before the attach fails, while mounting the table's current record uses the device just attached |
| EbsFileSystem.AsWrittenCreateNeverTags | core/src/main/java/com/netflix/priam/aws/EBSFileSystem.java:311 | as written, the create path fails after the create request and before the tag request |
| EbsFileSystem.CreateRequestsInOrder | core/src/main/java/com/netflix/priam/aws/EBSFileSystem.java:280-325 | the create path issues the create request (this zone, the ephemeral size) and then the tag request `Name = <cluster>-<token>` on the new volume, before any attach request |
| EbsFileSystem.CreatedVolumeIsFoundByTag | core/src/main/java/com/netflix/priam/aws/EBSFileSystem.java:267-325 | the lookup filter and the created volume's tag use the same value: after the create path the lookup finds the new volume, with the ephemeral size and this zone |
| EbsFileSystem.AlreadyAttachedOnlyMounts | core/src/main/java/com/netflix/priam/aws/EBSFileSystem.java:250-254 | when a tagged volume is attached here, start-up only mounts the first tagged volume and makes no EC2 request |
| EbsFileSystem.RestartWhenAttachedMakesNoRequests | core/src/main/java/com/netflix/priam/aws/EBSFileSystem.java:244-254 | two start-ups while attached make no EC2 request |
| EbsFileSystem.NoTaggedVolumeCreates | core/src/main/java/com/netflix/priam/aws/EBSFileSystem.java:267-283 | with no tagged volume, start-up takes the create path, and its first request creates the volume in this zone with the ephemeral size |
| EbsFileSystem.GetPrefixOfBlank | core/src/main/java/com/netflix/priam/aws/EBSFileSystem.java:394-402 | a blank restore prefix gives the prefix "" |
| EbsFileSystem.GetPrefixFirstSegment | core/src/main/java/com/netflix/priam/aws/EBSFileSystem.java:394-402 | a restore prefix `a/b/...` gives its first segment `a` |
| EbsFileSystem.GetPrefixOfSeparator | core/src/main/java/com/netflix/priam/aws/EBSFileSystem.java:400-401 | a restore prefix `/` has no first segment and fails |
| EbsFileSystem.CopyDirectory | core/src/main/java/com/netflix/priam/aws/EBSFileSystem.java:358 | a successful copy gives the destination the source's contents and keeps the source and every other directory |
| EbsFileSystem.UploadThenDownload | core/src/main/java/com/netflix/priam/aws/EBSFileSystem.java:332-364 | after an upload, a download from the same path succeeds, brings back exactly the uploaded directory and counts the same bytes |
| EbsFileSystem.UploadFromBlankPrefixFails | core/src/main/java/com/netflix/priam/aws/EBSFileSystem.java:350-364 | with a blank restore prefix the upload's source `""` is missing and the upload fails |
| EbsFileSystem.EbsFileSystem.constructor | core/src/main/java/com/netflix/priam/aws/EBSFileSystem.java:57-65 | the object holds the configuration, EC2 and the disk, with all counters at zero |
| EbsFileSystem.EbsFileSystem.Open | core/src/main/java/com/netflix/priam/aws/EBSFileSystem.java:57-68 | construction runs the start-up; a start-up failure is the construction's failure; otherwise the new object holds the world after the start-up |
| EbsFileSystem.EbsFileSystem.GetEbsVolumes | core/src/main/java/com/netflix/priam/aws/EBSFileSystem.java:79-90 | returns exactly the volumes tagged `<cluster>-<token>` |
| EbsFileSystem.EbsFileSystem.IsEbsAttached | core/src/main/java/com/netflix/priam/aws/EBSFileSystem.java:92-122 | true exactly when some attachment of some tagged volume belongs to this instance; false for an empty lookup |
| EbsFileSystem.EbsFileSystem.AttachedHere | core/src/main/java/com/netflix/priam/aws/EBSFileSystem.java:109-117 | the inner loop finds an attachment exactly when one of the volume's attachments belongs to this instance |
| EbsFileSystem.EbsFileSystem.AttachedToSnoc | core/src/main/java/com/netflix/priam/aws/EBSFileSystem.java:107-118 | one more volume in the search adds exactly its own attachments |
| EbsFileSystem.EbsFileSystem.MountVolume | core/src/main/java/com/netflix/priam/aws/EBSFileSystem.java:124-146 | performs `MountSpec`: the mount command for attachment 0, or failure without attachments; disk and counters unchanged |
| EbsFileSystem.EbsFileSystem.MountVolumes | core/src/main/java/com/netflix/priam/aws/EBSFileSystem.java:152-158 | mounts the first volume only |
| EbsFileSystem.EbsFileSystem.AttachVolume | core/src/main/java/com/netflix/priam/aws/EBSFileSystem.java:161-242 | the loop starts from the attach reply's state and performs `AttachSpec`, so it has the properties proved of it above |
| EbsFileSystem.EbsFileSystem.EbsMountAndAttach | core/src/main/java/com/netflix/priam/aws/EBSFileSystem.java:244-328 | performs the three-way start-up `MountAndAttachSpec` |
| EbsFileSystem.EbsFileSystem.AttachAndMountEach | core/src/main/java/com/netflix/priam/aws/EBSFileSystem.java:258-265 | attaches and mounts each tagged volume in turn, stopping at the first failure |
| EbsFileSystem.EbsFileSystem.CreateAndAttach | core/src/main/java/com/netflix/priam/aws/EBSFileSystem.java:267-327 | creates, tags and attaches as `CreateTagAttach` states, without mounting |
| EbsFileSystem.EbsFileSystem.Upload | core/src/main/java/com/netflix/priam/aws/EBSFileSystem.java:350-366 | the upload count goes up even when the copy fails; the disk and the uploaded bytes change only on success, by the source's size; failures are reported as backup errors |
| EbsFileSystem.EbsFileSystem.Download | core/src/main/java/com/netflix/priam/aws/EBSFileSystem.java:332-346 | the download count goes up even when the copy fails; the disk and the downloaded bytes change only on success, by the source's size; failures are reported as backup errors |
| EbsFileSystem.EbsFileSystem.ActiveCount | core/src/main/java/com/netflix/priam/aws/EBSFileSystem.java:369-371 | there is never a transfer in flight |

## Left out

- AWS requests (`describeVolumes`, `attachVolume`, `createVolume`, `createTags`, `listObjects`, `listNextBatchOfObjects`) are abstract state and answers, not implementations. Remote errors such as `AmazonServiceException` are not modelled.
- `Runtime.exec` of the mount script is recorded as a command, and the device joins the mount table. The script's output, exit status and I/O errors are not modelled. The device-listing pipeline is modelled by the mount table (the stated rule) and by the text the code splits (as written).
- Logging, the 30-second `Thread.sleep` and its timing, and the JMX registration in the constructor (EBSFileSystem.java:70-76) are left out. A sleep interrupt is modelled as a flag on each poll answer.
- DeviceNaming.NextDeviceName: the comments of `attachVolume` say only "the next letter in the alphabet" and give no rule once the largest device ends in `z`. The model fails there with `NoLetterLeft`. Lines 185-192 taken alone would give the null character; the code as written never reaches them with a listed device, because line 174 lists none and line 184 throws first.
- Ec2.AttachInTable: the table records the new attachment as soon as it is requested, whatever the poll later reports, and the poll answers are not tied to the table. So the intended loop (`AttachAndMountAll`) mounts the volume even after an `error` settle, where the code as written fails at the mount.
- Ec2.World: one `attachReplyState` serves every attach request of a run, so the model does not capture replies that differ from one attach to the next.
- Ec2.Poll: the poll answers are a finite sequence. When they run out while the status is still `attaching`, the model stops with `PollBudgetExhausted`, where the code would keep polling.
- The create-wait loop (EBSFileSystem.java:289-309) is not modelled. Its guard `"creating".equals(createState)` is false on entry because `createState` is `""`, so its body never runs.
- Java serialization of the backup file, and the I/O errors of writing or reading it, are left out. The snapshot is a field holding the list. A restore without a backup fails after the deletes, where the code throws on the null file.
- 32-bit wrap-around of the `int` slot arithmetic in `doubleSlots` and of the counters is not modelled: integers are unbounded. The `(int)` cast of the volume size is modelled (`ToInt32`).
- The atomicity of `AtomicInteger`/`AtomicLong` and all concurrency are left out. The counters are plain fields.
- `TokenManager.createToken` and `TokenManager.regionOffset` are parameters of the ring configuration.
- The registry stamps created records with the region of the running process. `Registry.Create` takes that region as an argument.
- Registry order: the registry's order is not meaningful, so the doubling round trip is stated up to order (as multisets).
- `FileUtils.copyDirectory` is modelled as replacing the destination with the source's bytes. Merging into an existing destination, nested files, file dates, and copying a directory into itself are left out. `sizeOfDirectory` is the byte count.
- The stream parameters of `upload` and `download` are unused by the code and are left out.
- `EBSFileSystem.list` and `listPrefixes` are left out: EBSFileIterator and EBSPrefixIterator are not part of this model. The counter getters (EBSFileSystem.java:405-422) become the fields themselves.
- `EBSBackupPath.PATH_SEP` is taken to be `/`: EBSBackupPath is not part of this model.
- `cleanup` does nothing. `EbsFileSystem.Cleanup` has an empty body and modifies nothing, so there is no contract to state.
- `parsePartialPrefix` and `AbstractBackupPath` are left out: the catalogue yields the common-prefix strings themselves.
- `SimpleDateFormat`: the calendar fields of the date are an input. Time zones and the calendar computation are left out.
- Null values (null attachments, null strings, a null restore prefix) and the `NullPointerException`s they cause are left out. A blank string stands for a null restore prefix.
- `Character.isWhitespace` is modelled on ASCII and the C0 control characters only.

## Findings

| source | as written | input that shows it | evidently intended | confidence | as-written member | corrected member |
|---|---|---|---|---|---|---|
| core/src/main/java/com/netflix/priam/aws/EBSFileSystem.java:174 | the device list is split from `getOutputStream().toString()`, the description of the process's input stream, not from what `mount` printed | `/dev/xvdf` mounted: the text holds no device, so `/dev/xvdf` is chosen again | read the command's output and choose the letter after the largest mounted device | not executed; high | DeviceNaming.DeviceNameAsWritten, DeviceNaming.AsWrittenPicksDeviceInUse | DeviceNaming.NextDeviceName, DeviceNaming.NextDeviceIsFree |
| core/src/main/java/com/netflix/priam/aws/EBSFileSystem.java:184 | `lastDeviceName.substring(-1)` takes the last character | any listed device, e.g. `/dev/xvdf`: `substring(-1)` throws `StringIndexOutOfBoundsException` | take the last character, `charAt(length - 1)` | not executed; high | DeviceNaming.DeviceNameAsWritten, DeviceNaming.AsWrittenFailsOnListedDevice | DeviceNaming.NextDeviceName, DeviceNaming.NextAfterLargest |
| core/src/main/java/com/netflix/priam/aws/EBSFileSystem.java:185-192 | the next letter is `Character.forDigit(getNumericValue(c) + 1, 16)` | last letter `f`: `getNumericValue('f') + 1` is 16, not a hex digit, so `forDigit` gives the null character | the next letter of the alphabet | not executed; high | DeviceNaming.NextLetterAsWritten, DeviceNaming.NextLetterAsWrittenIsNull | DeviceNaming.NextDeviceName, DeviceNaming.NextAfterLargest |
| core/src/main/java/com/netflix/priam/aws/EBSFileSystem.java:238-240 | after `attached`, the log line reads `volume.getAttachments().get(0)` of the volume as described before the attach | an `available` volume with no attachments whose attach settles `attached`: `get(0)` throws `IndexOutOfBoundsException` | report success without reading the stale record | not executed; high | EbsFileSystem.AttachAsWritten, EbsFileSystem.AsWrittenAttachFailsOnSuccess | EbsFileSystem.AttachSpec, EbsFileSystem.AttachRequestsDevice |
| core/src/main/java/com/netflix/priam/aws/EBSFileSystem.java:262-263 | each volume is mounted with the record described before `attachVolume` | a tagged `available` volume with no attachments whose attach settles `attached` (with the log line at 238-240 fixed): `mountVolume(vol)` fails at `getAttachments().get(0)` on the record described before the attach | mount the volume's record after the attach, which holds the new attachment | not executed; high | EbsFileSystem.AttachAndMountAllAsWritten, EbsFileSystem.StaleRecordMountFails | EbsFileSystem.AttachAndMountAll, EbsFileSystem.AttachedVolumeIsMounted |
| core/src/main/java/com/netflix/priam/aws/EBSFileSystem.java:311 | before tagging the new volume, the code reads `getEbsVolumes().get(0)`, a lookup by the tag the volume does not have yet | no tagged volume, the only way into the create branch: the lookup is empty and `get(0)` throws, so the volume is left untagged | check the created volume itself, then tag and attach it | not executed; high | EbsFileSystem.CreateTagAttachAsWritten, EbsFileSystem.AsWrittenCreateNeverTags | EbsFileSystem.CreateTagAttach, EbsFileSystem.CreatedVolumeIsFoundByTag |
