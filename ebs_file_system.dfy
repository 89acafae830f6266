/**
 * The EBS-backed backup file system (core/src/main/java/com/netflix/priam/aws/EBSFileSystem.java).
 *
 * At start-up it makes sure this instance has its backup volume: a volume tagged
 * `Name = <cluster>-<token>` that is already attached is mounted; tagged volumes that are not
 * attached here are attached and mounted; when there is none, a volume sized from the
 * ephemeral disk is created, tagged and attached. Backups are directory copies between the
 * ephemeral disk and the volume, counted by four counters.
 *
 * The pure functions below state what each operation does to the `World` (EC2, the mount table,
 * the commands run); the class `EbsFileSystem` performs the same steps imperatively and is
 * proved to agree with them. Where the code as written cannot work, the functions state the
 * evidently intended behaviour, and a function named `...AsWritten` states what the code does.
 */
module EbsFileSystem {
  import opened Wrappers
  import opened JavaLang
  import opened DeviceNaming
  import opened Ec2

  /** The configuration and identity the file system reads. */
  datatype Settings = Settings(
    clusterName: string,
    token: string,                  // this instance's ring token
    instanceId: string,             // this instance's EC2 id
    availabilityZone: string,
    restorePrefix: string,
    ephemeralTotalSpace: nat)       // `new File("/mnt/ephemeral").getTotalSpace()`, in bytes

  datatype EbsError =
    | IndexOutOfBounds                      // `getAttachments().get(0)` or `get(0)` of an empty list
    | DeviceNamingFailed(cause: NamingError)
    | AttachInterrupted                     // the poll's sleep was interrupted
    | PollBudgetExhausted                   // the model's poll answers ran out while still attaching

  /** A step of the start-up sequence: the world after it and whether it completed. */
  datatype Step = Step(world: World, outcome: Outcome<EbsError>)

  /** The tag value volumes are looked up by and created with. */
  function TagName(s: Settings): string {
    s.clusterName + "-" + s.token
  }

  const MountScript: string := "/opt/bazaarvoice/bin/mountEbsVolume.sh "

  function MountCommand(device: string): string {
    MountScript + device + " backup"
  }

  // ---------------------------------------------------------------------------------------
  // Volume size

  /** Java's `(int)` cast of a `long`: the low 32 bits, read as a signed number. */
  function ToInt32(x: int): (r: int)
    ensures -0x8000_0000 <= r < 0x8000_0000
    ensures -0x8000_0000 <= x < 0x8000_0000 ==> r == x
  {
    var m := x % 0x1_0000_0000;
    if m >= 0x8000_0000 then m - 0x1_0000_0000 else m
  }

  /** `(int) (raidSize / 1024 / 1024 / 1024)`: the ephemeral capacity in whole GiB. */
  function VolumeSize(totalSpace: nat): int {
    ToInt32(totalSpace / 1024 / 1024 / 1024)
  }

  /** Below 2^31 GiB, the size is the capacity in GiB rounded down. */
  lemma VolumeSizeTruncatesToGiB(totalSpace: nat)
    requires totalSpace < 0x8000_0000 * 0x4000_0000
    ensures 0 <= VolumeSize(totalSpace)
    ensures VolumeSize(totalSpace) * 0x4000_0000 <= totalSpace < (VolumeSize(totalSpace) + 1) * 0x4000_0000
  {
    var a := totalSpace / 1024;
    var b := a / 1024;
    var c := b / 1024;
    assert a * 1024 <= totalSpace < a * 1024 + 1024;
    assert b * 1024 <= a < b * 1024 + 1024;
    assert c * 1024 <= b < c * 1024 + 1024;
    assert c * 0x4000_0000 <= totalSpace < c * 0x4000_0000 + 0x4000_0000;
    assert c < 0x8000_0000;
  }

  // ---------------------------------------------------------------------------------------
  // Mounting (`mountVolume`)

  /**
   * `mountVolume(volume)`: run the mount script on the device of the volume's first attachment
   * (a volume with several attachments is only logged); a volume without attachments fails.
   * The script's effect is modelled as the device joining the mount table.
   */
  function MountSpec(w: World, v: Volume): Step {
    if |v.attachments| == 0 then Step(w, Fail(IndexOutOfBounds))
    else
      var device := v.attachments[0].device;
      Step(w.(execs := w.execs + [MountCommand(device)], mounted := w.mounted + [device]), Pass)
  }

  /** `mountVolume(list)`: mount the first volume only. */
  function MountFirst(w: World, vs: seq<Volume>): Step {
    if vs == [] then Step(w, Pass) else MountSpec(w, vs[0])
  }

  /** A volume with one or more attachments is mounted at its first attachment's device, touching nothing in EC2. */
  lemma MountUsesFirstAttachment(w: World, v: Volume)
    requires |v.attachments| >= 1
    ensures var r := MountSpec(w, v);
      && r.outcome == Pass
      && r.world.execs == w.execs + [MountCommand(v.attachments[0].device)]
      && r.world.mounted == w.mounted + [v.attachments[0].device]
      && r.world.volumes == w.volumes && r.world.calls == w.calls && r.world.polls == w.polls
  {
  }

  // ---------------------------------------------------------------------------------------
  // Attaching (`attachVolume`)

  /** The world after the attach request: EC2 records the attachment, the call is logged. */
  function AttachRequested(s: Settings, w: World, v: Volume, device: string): World {
    w.(volumes := AttachInTable(w.volumes, v.volumeId, s.instanceId, device, w.attachReplyState),
       calls := w.calls + [AttachCall(v.volumeId, s.instanceId, device)])
  }

  /**
   * How the attachment poll ends, starting from the status the attach reply reports: a reply
   * that is not `attaching` ends it at once, without a describe call or a sleep.
   */
  function PollOutcome(w: World, v: Volume): Step {
    match Poll(w.polls, w.attachReplyState, v)
    case Settled(_, rest) => Step(w.(polls := rest), Pass)
    case Interrupted(rest) => Step(w.(polls := rest), Fail(AttachInterrupted))
    case Exhausted => Step(w.(polls := []), Fail(PollBudgetExhausted))
  }

  /**
   * `attachVolume(volume)`: nothing unless the volume is `available`; otherwise choose the
   * device by the stated rule, request the attachment, and poll while it is `attaching`.
   */
  function AttachSpec(s: Settings, w: World, v: Volume): Step {
    if v.state != Available then Step(w, Pass)
    else
      match NextDeviceName(w.mounted)
      case Failure(e) => Step(w, Fail(DeviceNamingFailed(e)))
      case Success(device) => PollOutcome(AttachRequested(s, w, v, device), v)
  }

  /** A volume that is not `available` is left alone. */
  lemma AttachSkipsUnavailable(s: Settings, w: World, v: Volume)
    requires v.state != Available
    ensures AttachSpec(s, w, v) == Step(w, Pass)
  {
  }

  /**
   * An `available` volume is attached to this instance at the device the rule picks: exactly
   * one attach request is issued, and the step completes exactly when the poll settles.
   */
  lemma AttachRequestsDevice(s: Settings, w: World, v: Volume)
    requires v.state == Available && NextDeviceName(w.mounted).Success?
    ensures var r := AttachSpec(s, w, v);
      && r.world.calls == w.calls + [AttachCall(v.volumeId, s.instanceId, NextDeviceName(w.mounted).value)]
      && r.world.volumes == AttachInTable(w.volumes, v.volumeId, s.instanceId, NextDeviceName(w.mounted).value, w.attachReplyState)
      && (r.outcome.Pass? <==> Poll(w.polls, w.attachReplyState, v).Settled?)
  {
  }

  /**
   * An attach reply that already reports a status other than `attaching` (`attached`, `error`,
   * ...) completes the step without reading any poll answer.
   */
  lemma AttachSettledReplyDoesNotPoll(s: Settings, w: World, v: Volume)
    requires v.state == Available && NextDeviceName(w.mounted).Success?
    requires w.attachReplyState != Attaching
    ensures var r := AttachSpec(s, w, v);
      && r.outcome == Pass
      && r.world.polls == w.polls
      && r.world == AttachRequested(s, w, v, NextDeviceName(w.mounted).value)
  {
  }

  /** An `attaching` reply followed by an `error` answer completes the step after one answer, without an exception. */
  lemma AttachStopsOnErrorAnswer(s: Settings, w: World, v: Volume)
    requires v.state == Available && NextDeviceName(w.mounted).Success?
    requires w.attachReplyState == Attaching
    requires w.polls != [] && ObservedStatus(w.polls[0].listing + [v], Attaching) == ErrorState
    ensures var r := AttachSpec(s, w, v);
      r.outcome == Pass && r.world.polls == w.polls[1..]
  {
    PollStopsOnError(w.polls, v);
  }

  /**
   * `attachVolume` as written: after the poll reports `attached`, the log line reads the first
   * attachment of the volume as it was described BEFORE the attach, and fails when it had none.
   */
  function AttachAsWritten(s: Settings, w: World, v: Volume): Step {
    var r := AttachSpec(s, w, v);
    var poll := Poll(w.polls, w.attachReplyState, v);
    if v.state == Available && NextDeviceName(w.mounted).Success? && poll.Settled?
       && poll.status == AttachedState && |v.attachments| == 0
    then r.(outcome := Fail(IndexOutOfBounds))
    else r
  }

  /** An `available` volume without attachments that attaches successfully makes the code as written fail. */
  lemma AsWrittenAttachFailsOnSuccess(s: Settings, w: World, v: Volume)
    requires v.state == Available && v.attachments == [] && NextDeviceName(w.mounted).Success?
    requires Poll(w.polls, w.attachReplyState, v).Settled? && Poll(w.polls, w.attachReplyState, v).status == AttachedState
    ensures AttachSpec(s, w, v).outcome == Pass
    ensures AttachAsWritten(s, w, v).outcome == Fail(IndexOutOfBounds)
  {
  }

  // ---------------------------------------------------------------------------------------
  // Attaching and mounting every tagged volume

  /**
   * The loop over the tagged volumes that are not attached here: attach each, then mount it
   * using its current record; the first failure ends the loop.
   */
  function AttachAndMountAll(s: Settings, w: World, vs: seq<Volume>): Step
    decreases |vs|
  {
    if vs == [] then Step(w, Pass)
    else
      var a := AttachSpec(s, w, vs[0]);
      if a.outcome.Fail? then a
      else
        var m := MountSpec(a.world, CurrentRecord(a.world.volumes, vs[0]));
        if m.outcome.Fail? then m else AttachAndMountAll(s, m.world, vs[1..])
  }

  /**
   * The same loop as written: each volume is attached by `attachVolume` as written (with its log
   * line after `attached`) and then mounted as described before the attach.
   */
  function AttachAndMountAllAsWritten(s: Settings, w: World, vs: seq<Volume>): Step
    decreases |vs|
  {
    if vs == [] then Step(w, Pass)
    else
      var a := AttachAsWritten(s, w, vs[0]);
      if a.outcome.Fail? then a
      else
        var m := MountSpec(a.world, vs[0]);
        if m.outcome.Fail? then m else AttachAndMountAllAsWritten(s, m.world, vs[1..])
  }

  lemma AttachInTableTail(volumes: seq<Volume>, volumeId: string, instanceId: string, device: string, state: string)
    requires volumes != []
    ensures AttachInTable(volumes, volumeId, instanceId, device, state)[1..] == AttachInTable(volumes[1..], volumeId, instanceId, device, state)
  {
  }

  /** After the attach request, the table's record of the volume carries the new attachment last. */
  lemma {:induction false} CurrentRecordAfterAttach(volumes: seq<Volume>, v: Volume, instanceId: string, device: string, state: string)
    requires exists i :: 0 <= i < |volumes| && volumes[i].volumeId == v.volumeId
    ensures var old_ := CurrentRecord(volumes, v);
      CurrentRecord(AttachInTable(volumes, v.volumeId, instanceId, device, state), v)
        == old_.(state := Ec2.InUse, attachments := old_.attachments + [Attachment(device, instanceId, state)])
  {
    if volumes[0].volumeId != v.volumeId {
      var i :| 0 <= i < |volumes| && volumes[i].volumeId == v.volumeId;
      assert volumes[1..][i - 1].volumeId == v.volumeId;
      AttachInTableTail(volumes, v.volumeId, instanceId, device, state);
      CurrentRecordAfterAttach(volumes[1..], v, instanceId, device, state);
    }
  }

  /** A settled poll completes the attach step: the world is the requested one, with the answers read. */
  lemma SettledAttach(s: Settings, w: World, v: Volume)
    requires v.state == Available && NextDeviceName(w.mounted).Success?
    requires Poll(w.polls, w.attachReplyState, v).Settled?
    ensures AttachSpec(s, w, v) == Step(AttachRequested(s, w, v, NextDeviceName(w.mounted).value)
      .(polls := Poll(w.polls, w.attachReplyState, v).rest), Pass)
  {
  }

  /** As written, a volume described without attachments cannot be attached and mounted. */
  lemma AsWrittenStaleVolumeFails(s: Settings, w: World, v: Volume)
    requires v.attachments == []
    ensures AttachAsWritten(s, w, v).outcome.Pass? ==> AttachAndMountAllAsWritten(s, w, [v]).outcome == Fail(IndexOutOfBounds)
    ensures AttachAsWritten(s, w, v).outcome.Fail? ==> AttachAndMountAllAsWritten(s, w, [v]) == AttachAsWritten(s, w, v)
  {
    assert [v][0] == v;
  }

  /** After the attach request, the record of a volume recorded without attachments holds just the new one. */
  lemma RequestedRecord(s: Settings, w: World, v: Volume, device: string)
    requires exists i :: 0 <= i < |w.volumes| && w.volumes[i].volumeId == v.volumeId
    requires CurrentRecord(w.volumes, v).attachments == []
    ensures CurrentRecord(AttachRequested(s, w, v, device).volumes, v).attachments
      == [Attachment(device, s.instanceId, w.attachReplyState)]
  {
    CurrentRecordAfterAttach(w.volumes, v, s.instanceId, device, w.attachReplyState);
    assert [] + [Attachment(device, s.instanceId, w.attachReplyState)] == [Attachment(device, s.instanceId, w.attachReplyState)];
  }

  /** The loop over a single volume: attach it, then mount its current record. */
  lemma AttachAndMountOne(s: Settings, w: World, v: Volume)
    ensures var a := AttachSpec(s, w, v);
      AttachAndMountAll(s, w, [v]) ==
        if a.outcome.Fail? then a
        else
          var m := MountSpec(a.world, CurrentRecord(a.world.volumes, v));
          if m.outcome.Fail? then m else Step(m.world, Pass)
  {
    assert [v][0] == v && [v][1..] == [];
  }

  /** The intended loop over one settled volume, recorded without attachments, mounts the new attachment's device. */
  lemma MountsNewAttachment(s: Settings, w: World, v: Volume)
    requires v.state == Available && NextDeviceName(w.mounted).Success?
    requires Poll(w.polls, w.attachReplyState, v).Settled?
    requires exists i :: 0 <= i < |w.volumes| && w.volumes[i].volumeId == v.volumeId
    requires CurrentRecord(w.volumes, v).attachments == []
    ensures var device := NextDeviceName(w.mounted).value;
      var r := AttachAndMountAll(s, w, [v]);
      && r.outcome == Pass
      && r.world.mounted == w.mounted + [device]
      && r.world.execs == w.execs + [MountCommand(device)]
      && r.world.calls == w.calls + [AttachCall(v.volumeId, s.instanceId, device)]
  {
    var device := NextDeviceName(w.mounted).value;
    SettledAttach(s, w, v);
    RequestedRecord(s, w, v, device);
    AttachAndMountOne(s, w, v);
    var a := AttachSpec(s, w, v);
    MountUsesFirstAttachment(a.world, CurrentRecord(a.world.volumes, v));
  }

  /**
   * A tagged `available` volume, recorded without attachments, whose attachment settles, is
   * attached at the chosen device and then mounted at that device. The code as written fails
   * instead: at the log line of `attachVolume` when the poll settles `attached`, and at the mount
   * of the stale record otherwise.
   */
  lemma AttachedVolumeIsMounted(s: Settings, w: World, v: Volume)
    requires v.state == Available && v.attachments == [] && NextDeviceName(w.mounted).Success?
    requires Poll(w.polls, w.attachReplyState, v).Settled?
    requires exists i :: 0 <= i < |w.volumes| && w.volumes[i].volumeId == v.volumeId
    requires CurrentRecord(w.volumes, v).attachments == []
    ensures var device := NextDeviceName(w.mounted).value;
      var r := AttachAndMountAll(s, w, [v]);
      && r.outcome == Pass
      && r.world.mounted == w.mounted + [device]
      && r.world.execs == w.execs + [MountCommand(device)]
      && r.world.calls == w.calls + [AttachCall(v.volumeId, s.instanceId, device)]
    ensures AttachAndMountAllAsWritten(s, w, [v]).outcome == Fail(IndexOutOfBounds)
  {
    MountsNewAttachment(s, w, v);
    SettledAttach(s, w, v);
    AsWrittenStaleVolumeFails(s, w, v);
    if Poll(w.polls, w.attachReplyState, v).status == AttachedState {
      assert AttachAsWritten(s, w, v).outcome == Fail(IndexOutOfBounds);
    } else {
      assert AttachAsWritten(s, w, v) == AttachSpec(s, w, v);
    }
  }

  /**
   * The stale mount on its own, after an `attached` settle: the record described before the
   * attach has no attachment to mount, while the table's current record mounts at the device
   * just attached.
   */
  lemma StaleRecordMountFails(s: Settings, w: World, v: Volume)
    requires v.state == Available && v.attachments == [] && NextDeviceName(w.mounted).Success?
    requires Poll(w.polls, w.attachReplyState, v).Settled? && Poll(w.polls, w.attachReplyState, v).status == AttachedState
    requires exists i :: 0 <= i < |w.volumes| && w.volumes[i].volumeId == v.volumeId
    requires CurrentRecord(w.volumes, v).attachments == []
    ensures var a := AttachSpec(s, w, v);
      var device := NextDeviceName(w.mounted).value;
      && a.outcome == Pass
      && MountSpec(a.world, v) == Step(a.world, Fail(IndexOutOfBounds))
      && MountSpec(a.world, CurrentRecord(a.world.volumes, v))
           == Step(a.world.(execs := a.world.execs + [MountCommand(device)], mounted := a.world.mounted + [device]), Pass)
  {
    var device := NextDeviceName(w.mounted).value;
    SettledAttach(s, w, v);
    RequestedRecord(s, w, v, device);
  }

  /**
   * The stale mount on its own: when the poll settles `error`, `attachVolume` as written returns
   * normally, and the mount of the record described before the attach then fails, while the
   * intended loop mounts the new attachment's device.
   */
  lemma AsWrittenMountFailsAfterErrorPoll(s: Settings, w: World, v: Volume)
    requires v.state == Available && v.attachments == [] && NextDeviceName(w.mounted).Success?
    requires Poll(w.polls, w.attachReplyState, v).Settled? && Poll(w.polls, w.attachReplyState, v).status == ErrorState
    requires exists i :: 0 <= i < |w.volumes| && w.volumes[i].volumeId == v.volumeId
    requires CurrentRecord(w.volumes, v).attachments == []
    ensures AttachAsWritten(s, w, v).outcome == Pass
    ensures AttachAndMountAll(s, w, [v]).outcome == Pass
    ensures AttachAndMountAllAsWritten(s, w, [v]).outcome == Fail(IndexOutOfBounds)
  {
    MountsNewAttachment(s, w, v);
    SettledAttach(s, w, v);
    assert AttachAsWritten(s, w, v) == AttachSpec(s, w, v);
    AsWrittenStaleVolumeFails(s, w, v);
  }

  // ---------------------------------------------------------------------------------------
  // Creating a volume

  /** The volume the create reply describes. */
  function CreatedVolume(s: Settings, w: World): Volume {
    Volume(w.freshVolumeId, w.createdState, VolumeSize(s.ephemeralTotalSpace), s.availabilityZone, map[], [])
  }

  function VolumeCreated(s: Settings, w: World): World {
    w.(volumes := w.volumes + [CreatedVolume(s, w)],
       calls := w.calls + [CreateCall(VolumeSize(s.ephemeralTotalSpace), s.availabilityZone)])
  }

  function VolumeTagged(s: Settings, w: World, volumeId: string): World {
    w.(volumes := TagInTable(w.volumes, volumeId, NameTag, TagName(s)),
       calls := w.calls + [TagCall(volumeId, NameTag, TagName(s))])
  }

  /**
   * No tagged volume exists: create one in this zone with the ephemeral size, tag it, and
   * attach the volume the create reply describes (which is attached only if that reply already
   * says `available`). The wait loop after the create is never entered and is not modelled.
   */
  function CreateTagAttach(s: Settings, w: World): Step {
    var created := CreatedVolume(s, w);
    AttachSpec(s, VolumeTagged(s, VolumeCreated(s, w), created.volumeId), created)
  }

  /**
   * The create path as written: before tagging it checks `getEbsVolumes().get(0)`, a lookup by
   * the tag the new volume does not have yet.
   */
  function CreateTagAttachAsWritten(s: Settings, w: World): Step {
    var w1 := VolumeCreated(s, w);
    if Describe(w1.volumes, TagName(s)) == [] then Step(w1, Fail(IndexOutOfBounds))
    else CreateTagAttach(s, w)
  }

  /** As written, the create path always fails before the volume is tagged, leaving it untagged. */
  lemma AsWrittenCreateNeverTags(s: Settings, w: World)
    requires Describe(w.volumes, TagName(s)) == []
    ensures var r := CreateTagAttachAsWritten(s, w);
      && r.outcome == Fail(IndexOutOfBounds)
      && r.world.calls == w.calls + [CreateCall(VolumeSize(s.ephemeralTotalSpace), s.availabilityZone)]
  {
    DescribeConcat(w.volumes, [CreatedVolume(s, w)], TagName(s));
  }

  /** Two tables list the same volumes, with the same ids, tags, sizes and zones, in the same order. */
  predicate SameVolumes(a: seq<Volume>, b: seq<Volume>) {
    && |a| == |b|
    && forall i :: 0 <= i < |a| ==>
         a[i].volumeId == b[i].volumeId && a[i].tags == b[i].tags && a[i].size == b[i].size && a[i].zone == b[i].zone
  }

  lemma AttachInTableKeepsVolumes(volumes: seq<Volume>, volumeId: string, instanceId: string, device: string, state: string)
    ensures SameVolumes(AttachInTable(volumes, volumeId, instanceId, device, state), volumes)
  {
  }

  /** Attaching changes only states and attachments, and only adds to the call log. */
  lemma AttachKeepsVolumes(s: Settings, w: World, v: Volume)
    ensures SameVolumes(AttachSpec(s, w, v).world.volumes, w.volumes)
    ensures |AttachSpec(s, w, v).world.calls| >= |w.calls| && AttachSpec(s, w, v).world.calls[..|w.calls|] == w.calls
  {
    var r := AttachSpec(s, w, v);
    if v.state == Available && NextDeviceName(w.mounted).Success? {
      var device := NextDeviceName(w.mounted).value;
      var w1 := AttachRequested(s, w, v, device);
      assert r == PollOutcome(w1, v);
      assert r.world.volumes == w1.volumes && r.world.calls == w1.calls;
      AttachInTableKeepsVolumes(w.volumes, v.volumeId, s.instanceId, device, w.attachReplyState);
      assert w1.calls[..|w.calls|] == w.calls;
    } else {
      assert r.world == w;
      assert w.calls[..|w.calls|] == w.calls;
    }
  }

  /** The create path issues the create request and then the tag request, before any attach request. */
  lemma CreateRequestsInOrder(s: Settings, w: World)
    ensures var r := CreateTagAttach(s, w);
      && |r.world.calls| >= |w.calls| + 2
      && r.world.calls[..|w.calls| + 2] == w.calls + [CreateCall(VolumeSize(s.ephemeralTotalSpace), s.availabilityZone),
                                                     TagCall(w.freshVolumeId, NameTag, TagName(s))]
  {
    var created := CreatedVolume(s, w);
    var w1 := VolumeTagged(s, VolumeCreated(s, w), created.volumeId);
    AttachKeepsVolumes(s, w1, created);
  }

  /**
   * The lookup and the tag agree: after the create path the lookup by tag finds the created
   * volume, with the ephemeral size and this zone, so a later start-up does not create another.
   */
  lemma CreatedVolumeIsFoundByTag(s: Settings, w: World)
    ensures var r := CreateTagAttach(s, w);
      exists v :: v in Describe(r.world.volumes, TagName(s)) && v.volumeId == w.freshVolumeId
        && v.size == VolumeSize(s.ephemeralTotalSpace) && v.zone == s.availabilityZone
  {
    var created := CreatedVolume(s, w);
    var w1 := VolumeTagged(s, VolumeCreated(s, w), created.volumeId);
    var k := |w.volumes|;
    assert w1.volumes[k] == created.(tags := created.tags[NameTag := TagName(s)]);
    var r := CreateTagAttach(s, w);
    AttachKeepsVolumes(s, w1, created);
    var v := r.world.volumes[k];
    assert v.volumeId == w.freshVolumeId && NameTag in v.tags && v.tags[NameTag] == TagName(s);
    assert v in r.world.volumes;
  }

  // ---------------------------------------------------------------------------------------
  // Start-up (`ebsMountAndAttach`)

  /** `ebsMountAndAttach`: already attached, tagged but not attached here, or none at all. */
  function MountAndAttachSpec(s: Settings, w: World): Step {
    var ebsVolumes := Describe(w.volumes, TagName(s));
    if AttachedTo(ebsVolumes, s.instanceId) then MountFirst(w, ebsVolumes)
    else if |ebsVolumes| > 0 then AttachAndMountAll(s, w, ebsVolumes)
    else CreateTagAttach(s, w)
  }

  /** When a tagged volume is attached here, start-up only mounts the first tagged volume: no EC2 request is made. */
  lemma AlreadyAttachedOnlyMounts(s: Settings, w: World)
    requires AttachedTo(Describe(w.volumes, TagName(s)), s.instanceId)
    ensures var r := MountAndAttachSpec(s, w);
      && r == MountSpec(w, Describe(w.volumes, TagName(s))[0])
      && r.world.volumes == w.volumes && r.world.calls == w.calls && r.world.polls == w.polls
  {
  }

  /** Starting up twice when attached mounts twice but still makes no EC2 request. */
  lemma RestartWhenAttachedMakesNoRequests(s: Settings, w: World)
    requires AttachedTo(Describe(w.volumes, TagName(s)), s.instanceId)
    ensures var r := MountAndAttachSpec(s, w);
      r.outcome.Pass? ==> MountAndAttachSpec(s, r.world).world.calls == w.calls
  {
    var r := MountAndAttachSpec(s, w);
    AlreadyAttachedOnlyMounts(s, w);
    if r.outcome.Pass? {
      AlreadyAttachedOnlyMounts(s, r.world);
    }
  }

  /** With no tagged volume, start-up takes the create path. */
  lemma NoTaggedVolumeCreates(s: Settings, w: World)
    requires Describe(w.volumes, TagName(s)) == []
    ensures MountAndAttachSpec(s, w) == CreateTagAttach(s, w)
    ensures MountAndAttachSpec(s, w).world.calls[|w.calls|] == CreateCall(VolumeSize(s.ephemeralTotalSpace), s.availabilityZone)
  {
    var r := CreateTagAttach(s, w);
    assert MountAndAttachSpec(s, w) == r;
    CreateRequestsInOrder(s, w);
    assert r.world.calls[..|w.calls| + 2][|w.calls|] == r.world.calls[|w.calls|];
  }

  // ---------------------------------------------------------------------------------------
  // Backups: directory copies and the prefix

  /** A directory's contents; its size in bytes is the length. */
  type Dir = seq<bv8>

  datatype PrefixError = NoFirstSegment
  datatype CopyError = SourceMissing(path: string) | SameDirectory(path: string) | DestinationUnusable(path: string)
  datatype BackupRestoreError = PrefixFailed(prefixCause: PrefixError) | CopyFailed(copyCause: CopyError)

  /** `getPrefix`: the first `/`-segment of the restore prefix, or "" when it is blank. */
  function GetPrefix(restorePrefix: string): Result<string, PrefixError> {
    var prefix := if !IsBlank(restorePrefix) then restorePrefix else "";
    var paths := Split(prefix, '/');
    if |paths| == 0 then Failure(NoFirstSegment) else Success(paths[0])
  }

  lemma GetPrefixOfBlank(restorePrefix: string)
    requires IsBlank(restorePrefix)
    ensures GetPrefix(restorePrefix) == Success("")
  {
  }

  /** A restore prefix `a/b/...` (last segment not empty, not blank) yields its first segment `a`. */
  lemma GetPrefixFirstSegment(segments: seq<string>)
    requires |segments| >= 1 && segments[|segments| - 1] != ""
    requires forall i :: 0 <= i < |segments| ==> '/' !in segments[i]
    requires !IsBlank(Join(segments, '/'))
    ensures GetPrefix(Join(segments, '/')) == Success(segments[0])
  {
    SplitOfJoin(segments, '/');
  }

  /** A restore prefix made only of separators has no first segment. */
  lemma GetPrefixOfSeparator()
    ensures GetPrefix("/") == Failure(NoFirstSegment)
  {
    assert !IsWhitespace('/');
    assert Pieces("/", '/') == ["", ""];
  }

  /** `FileUtils.copyDirectory(src, dst)`, overwriting the destination. */
  function CopyDirectory(disk: map<string, Dir>, src: string, dst: string): (r: Result<map<string, Dir>, CopyError>)
    ensures r.Success? ==> src in disk && dst in r.value && r.value[dst] == disk[src] && src in r.value && r.value[src] == disk[src]
    ensures r.Success? ==> forall p :: p in disk && p != dst ==> p in r.value && r.value[p] == disk[p]
  {
    if src == "" || src !in disk then Failure(SourceMissing(src))
    else if src == dst then Failure(SameDirectory(src))
    else if dst == "" then Failure(DestinationUnusable(dst))
    else Success(disk[dst := disk[src]])
  }

  /** The disk after a successful transfer and the bytes it adds to its counter. */
  datatype Transfer = Transfer(disk: map<string, Dir>, bytes: nat)

  /** `upload(path)`: copy the local prefix directory to the remote path; count the source's size. */
  function UploadSpec(disk: map<string, Dir>, restorePrefix: string, remotePath: string): Result<Transfer, BackupRestoreError> {
    match GetPrefix(restorePrefix)
    case Failure(e) => Failure(PrefixFailed(e))
    case Success(local) =>
      match CopyDirectory(disk, local, remotePath)
      case Failure(e) => Failure(CopyFailed(e))
      case Success(d) => Success(Transfer(d, |d[local]|))
  }

  /** `download(path)`: copy the remote path to the local prefix directory; count the source's size. */
  function DownloadSpec(disk: map<string, Dir>, restorePrefix: string, remotePath: string): Result<Transfer, BackupRestoreError> {
    match GetPrefix(restorePrefix)
    case Failure(e) => Failure(PrefixFailed(e))
    case Success(local) =>
      match CopyDirectory(disk, remotePath, local)
      case Failure(e) => Failure(CopyFailed(e))
      case Success(d) => Success(Transfer(d, |d[remotePath]|))
  }

  /**
   * A download after an upload to the same path brings back exactly the uploaded directory: it
   * succeeds, leaves the disk as the upload left it, and counts the same number of bytes.
   */
  lemma UploadThenDownload(disk: map<string, Dir>, restorePrefix: string, remotePath: string)
    requires UploadSpec(disk, restorePrefix, remotePath).Success?
    ensures var up := UploadSpec(disk, restorePrefix, remotePath).value;
      && DownloadSpec(up.disk, restorePrefix, remotePath) == Success(Transfer(up.disk, up.bytes))
      && up.disk[remotePath] == disk[GetPrefix(restorePrefix).value]
  {
    var local := GetPrefix(restorePrefix).value;
    var up := UploadSpec(disk, restorePrefix, remotePath).value;
    assert up.disk == disk[remotePath := disk[local]];
    assert up.disk[local := up.disk[remotePath]] == up.disk;
  }

  /** A transfer fails whenever its source does not exist, e.g. a blank restore prefix ("" is no directory). */
  lemma UploadFromBlankPrefixFails(disk: map<string, Dir>, restorePrefix: string, remotePath: string)
    requires IsBlank(restorePrefix)
    ensures UploadSpec(disk, restorePrefix, remotePath) == Failure(CopyFailed(SourceMissing("")))
  {
  }

  // ---------------------------------------------------------------------------------------
  // The imperative component

  class EbsFileSystem {
    const config: Settings
    var world: World
    var disk: map<string, Dir>
    var uploadCount: int
    var downloadCount: int
    var bytesUploaded: int
    var bytesDownloaded: int

    function Counters(): (int, int, int, int)
      reads this
    {
      (uploadCount, downloadCount, bytesUploaded, bytesDownloaded)
    }

    constructor (config: Settings, world: World, disk: map<string, Dir>)
      ensures this.config == config && this.world == world && this.disk == disk
      ensures Counters() == (0, 0, 0, 0)
    {
      this.config := config;
      this.world := world;
      this.disk := disk;
      uploadCount, downloadCount, bytesUploaded, bytesDownloaded := 0, 0, 0, 0;
    }

    /** The constructor: create the object, then run the start-up; a failure is thrown to the creator. */
    static method Open(config: Settings, world: World, disk: map<string, Dir>) returns (r: Result<EbsFileSystem, EbsError>)
      ensures MountAndAttachSpec(config, world).outcome.Fail? ==> r == Failure(MountAndAttachSpec(config, world).outcome.error)
      ensures MountAndAttachSpec(config, world).outcome.Pass? ==>
        r.Success? && fresh(r.value) && r.value.config == config && r.value.disk == disk
        && r.value.world == MountAndAttachSpec(config, world).world && r.value.Counters() == (0, 0, 0, 0)
    {
      var fs := new EbsFileSystem(config, world, disk);
      var o := fs.EbsMountAndAttach();
      if o.Fail? {
        return Failure(o.error);
      }
      return Success(fs);
    }

    /** `getEbsVolumes`: the volumes tagged with this instance's tag name. */
    method GetEbsVolumes() returns (volumes: seq<Volume>)
      ensures volumes == Describe(world.volumes, TagName(config))
      ensures forall v :: v in volumes <==> v in world.volumes && NameTag in v.tags && v.tags[NameTag] == TagName(config)
    {
      volumes := Describe(world.volumes, TagName(config));
    }

    /** `isEbsAttached`: whether some attachment of some tagged volume belongs to this instance. */
    method IsEbsAttached() returns (isAttached: bool)
      ensures isAttached <==> AttachedTo(Describe(world.volumes, TagName(config)), config.instanceId)
      ensures Describe(world.volumes, TagName(config)) == [] ==> !isAttached
    {
      var volumeList := GetEbsVolumes();
      isAttached := false;
      if volumeList == [] {
        isAttached := false;
      } else {
        var i := 0;
        while i < |volumeList|
          invariant 0 <= i <= |volumeList|
          invariant isAttached <==> AttachedTo(volumeList[..i], config.instanceId)
        {
          var found := AttachedHere(volumeList[i]);
          if found {
            isAttached := true;
          }
          AttachedToSnoc(volumeList, i);
          i := i + 1;
        }
        assert volumeList[..i] == volumeList;
      }
    }

    /** The inner loop of `isEbsAttached`: it stops at the first attachment to this instance. */
    method AttachedHere(vol: Volume) returns (found: bool)
      ensures found <==> HasAttachmentOf(vol, config.instanceId)
    {
      var attachments := vol.attachments;
      found := false;
      var j := 0;
      while j < |attachments|
        invariant 0 <= j <= |attachments|
        invariant !found
        invariant forall k :: 0 <= k < j ==> attachments[k].instanceId != config.instanceId
      {
        if attachments[j].instanceId == config.instanceId {
          found := true;
          break;
        }
        j := j + 1;
      }
    }

    static lemma AttachedToSnoc(vs: seq<Volume>, i: nat)
      requires i < |vs|
      ensures forall id :: AttachedTo(vs[..i + 1], id) <==> AttachedTo(vs[..i], id) || HasAttachmentOf(vs[i], id)
    {
      forall id ensures AttachedTo(vs[..i + 1], id) <==> AttachedTo(vs[..i], id) || HasAttachmentOf(vs[i], id) {
        if AttachedTo(vs[..i + 1], id) {
          var k :| 0 <= k < i + 1 && HasAttachmentOf(vs[..i + 1][k], id);
          if k < i {
            assert vs[..i][k] == vs[k];
          }
        }
        if AttachedTo(vs[..i], id) {
          var k :| 0 <= k < i && HasAttachmentOf(vs[..i][k], id);
          assert vs[..i + 1][k] == vs[k];
        }
        if HasAttachmentOf(vs[i], id) {
          assert vs[..i + 1][i] == vs[i];
        }
      }
    }

    /** `mountVolume(volume)`. */
    method MountVolume(volume: Volume) returns (o: Outcome<EbsError>)
      modifies this
      ensures Step(world, o) == MountSpec(old(world), volume)
      ensures disk == old(disk) && Counters() == old(Counters())
    {
      // a volume with more than one attachment is only logged as an error
      if |volume.attachments| == 0 {
        return Fail(IndexOutOfBounds);
      }
      var device := volume.attachments[0].device;
      world := world.(execs := world.execs + [MountCommand(device)], mounted := world.mounted + [device]);
      o := Pass;
    }

    /** `mountVolume(list)`: the loop over the list stops after its first volume. */
    method MountVolumes(volumes: seq<Volume>) returns (o: Outcome<EbsError>)
      modifies this
      ensures Step(world, o) == MountFirst(old(world), volumes)
      ensures disk == old(disk) && Counters() == old(Counters())
    {
      o := Pass;
      if |volumes| > 0 {
        o := MountVolume(volumes[0]);
      }
    }

    /** `attachVolume(volume)`, with the poll loop over the answers EC2 gives. */
    method AttachVolume(volume: Volume) returns (o: Outcome<EbsError>)
      modifies this
      ensures Step(world, o) == AttachSpec(config, old(world), volume)
      ensures disk == old(disk) && Counters() == old(Counters())
    {
      if volume.state != Available {
        return Pass;
      }
      var nextDeviceName := NextDeviceName(world.mounted);
      if nextDeviceName.Failure? {
        return Fail(DeviceNamingFailed(nextDeviceName.error));
      }
      world := AttachRequested(config, world, volume, nextDeviceName.value);
      ghost var requested := world;
      var attachmentStatus := world.attachReplyState;
      while attachmentStatus == Attaching
        invariant world == requested.(polls := world.polls)
        invariant Poll(world.polls, attachmentStatus, volume) == Poll(requested.polls, requested.attachReplyState, volume)
        invariant disk == old(disk) && Counters() == old(Counters())
        decreases |world.polls|
      {
        if world.polls == [] {
          return Fail(PollBudgetExhausted);
        }
        var reply := world.polls[0];
        world := world.(polls := world.polls[1..]);
        attachmentStatus := ObservedStatus(reply.listing + [volume], attachmentStatus);
        if attachmentStatus == ErrorState {
          break;
        }
        if reply.interrupted {
          return Fail(AttachInterrupted);
        }
      }
      o := Pass;
    }

    /** `ebsMountAndAttach`. */
    method EbsMountAndAttach() returns (o: Outcome<EbsError>)
      modifies this
      ensures Step(world, o) == MountAndAttachSpec(config, old(world))
      ensures disk == old(disk) && Counters() == old(Counters())
    {
      var ebsVolumes := GetEbsVolumes();
      var attached := IsEbsAttached();
      if attached {
        o := MountVolumes(ebsVolumes);
        return;
      }
      if |ebsVolumes| > 0 {
        o := AttachAndMountEach(ebsVolumes);
      } else {
        o := CreateAndAttach();
      }
    }

    /** The loop of `ebsMountAndAttach` over the tagged volumes not attached here. */
    method AttachAndMountEach(ebsVolumes: seq<Volume>) returns (o: Outcome<EbsError>)
      modifies this
      ensures Step(world, o) == AttachAndMountAll(config, old(world), ebsVolumes)
      ensures disk == old(disk) && Counters() == old(Counters())
    {
      var i := 0;
      while i < |ebsVolumes|
        invariant 0 <= i <= |ebsVolumes|
        invariant AttachAndMountAll(config, world, ebsVolumes[i..]) == AttachAndMountAll(config, old(world), ebsVolumes)
        invariant disk == old(disk) && Counters() == old(Counters())
      {
        var vol := ebsVolumes[i];
        assert ebsVolumes[i..][0] == vol && ebsVolumes[i..][1..] == ebsVolumes[i + 1..];
        var a := AttachVolume(vol);
        if a.Fail? {
          return a;
        }
        var m := MountVolume(CurrentRecord(world.volumes, vol));
        if m.Fail? {
          return m;
        }
        i := i + 1;
      }
      o := Pass;
    }

    /** The create path of `ebsMountAndAttach`. */
    method CreateAndAttach() returns (o: Outcome<EbsError>)
      modifies this
      ensures Step(world, o) == CreateTagAttach(config, old(world))
      ensures disk == old(disk) && Counters() == old(Counters())
    {
      var volSize := ToInt32(config.ephemeralTotalSpace / 1024 / 1024 / 1024);
      var created := Volume(world.freshVolumeId, world.createdState, volSize, config.availabilityZone, map[], []);
      world := world.(volumes := world.volumes + [created],
                      calls := world.calls + [CreateCall(volSize, config.availabilityZone)]);
      world := world.(volumes := TagInTable(world.volumes, created.volumeId, NameTag, TagName(config)),
                      calls := world.calls + [TagCall(created.volumeId, NameTag, TagName(config))]);
      o := AttachVolume(created);
    }

    /** `upload(path)`: the count goes up first; bytes only after the copy succeeds. */
    method Upload(remotePath: string) returns (o: Outcome<BackupRestoreError>)
      modifies this
      ensures uploadCount == old(uploadCount) + 1
      ensures downloadCount == old(downloadCount) && bytesDownloaded == old(bytesDownloaded) && world == old(world)
      ensures UploadSpec(old(disk), config.restorePrefix, remotePath).Success? ==>
        o == Pass && disk == UploadSpec(old(disk), config.restorePrefix, remotePath).value.disk
        && bytesUploaded == old(bytesUploaded) + UploadSpec(old(disk), config.restorePrefix, remotePath).value.bytes
      ensures UploadSpec(old(disk), config.restorePrefix, remotePath).Failure? ==>
        o == Fail(UploadSpec(old(disk), config.restorePrefix, remotePath).error)
        && disk == old(disk) && bytesUploaded == old(bytesUploaded)
    {
      uploadCount := uploadCount + 1;
      var ephemeralPath := GetPrefix(config.restorePrefix);
      if ephemeralPath.Failure? {
        return Fail(PrefixFailed(ephemeralPath.error));
      }
      var copied := CopyDirectory(disk, ephemeralPath.value, remotePath);
      if copied.Failure? {
        return Fail(CopyFailed(copied.error));
      }
      disk := copied.value;
      bytesUploaded := bytesUploaded + |disk[ephemeralPath.value]|;
      o := Pass;
    }

    /** `download(path)`: the count goes up first; bytes only after the copy succeeds. */
    method Download(remotePath: string) returns (o: Outcome<BackupRestoreError>)
      modifies this
      ensures downloadCount == old(downloadCount) + 1
      ensures uploadCount == old(uploadCount) && bytesUploaded == old(bytesUploaded) && world == old(world)
      ensures DownloadSpec(old(disk), config.restorePrefix, remotePath).Success? ==>
        o == Pass && disk == DownloadSpec(old(disk), config.restorePrefix, remotePath).value.disk
        && bytesDownloaded == old(bytesDownloaded) + DownloadSpec(old(disk), config.restorePrefix, remotePath).value.bytes
      ensures DownloadSpec(old(disk), config.restorePrefix, remotePath).Failure? ==>
        o == Fail(DownloadSpec(old(disk), config.restorePrefix, remotePath).error)
        && disk == old(disk) && bytesDownloaded == old(bytesDownloaded)
    {
      downloadCount := downloadCount + 1;
      var ephemeralPath := GetPrefix(config.restorePrefix);
      if ephemeralPath.Failure? {
        return Fail(PrefixFailed(ephemeralPath.error));
      }
      var copied := CopyDirectory(disk, remotePath, ephemeralPath.value);
      if copied.Failure? {
        return Fail(CopyFailed(copied.error));
      }
      disk := copied.value;
      bytesDownloaded := bytesDownloaded + |disk[remotePath]|;
      o := Pass;
    }

    /** `getActivecount`: this file system never has transfers in flight. */
    function ActiveCount(): (n: int)
      ensures n == 0
    {
      0
    }

    /** `cleanup`: does nothing (the method may change nothing). */
    method Cleanup()
    {
    }
  }
}
