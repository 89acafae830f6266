/**
 * The part of EC2 the EBS file system talks to, as an abstract model: a table of volumes with
 * their tags and attachments, a log of the mutating calls issued, and the answers still to come
 * to the describe calls of the attachment poll.
 */
module Ec2 {

  const Available: string := "available"
  const Attaching: string := "attaching"
  const AttachedState: string := "attached"
  const ErrorState: string := "error"
  const InUse: string := "in-use"

  /** The tag key volumes are looked up by. */
  const NameTag: string := "Name"

  datatype Attachment = Attachment(device: string, instanceId: string, state: string)

  datatype Volume = Volume(
    volumeId: string,
    state: string,
    size: int,
    zone: string,
    tags: map<string, string>,
    attachments: seq<Attachment>)

  /** The mutating EC2 requests, as the log records them. */
  datatype Ec2Call =
    | AttachCall(volumeId: string, instanceId: string, device: string)
    | CreateCall(size: int, zone: string)
    | TagCall(volumeId: string, key: string, value: string)

  /** One round of the attachment poll: what the describe call lists, and whether the sleep after it is interrupted. */
  datatype PollReply = PollReply(listing: seq<Volume>, interrupted: bool)

  /**
   * Everything outside the process that the EBS file system reads or changes: EC2's volume
   * table and the calls it received, the attachment state its replies to attach requests
   * report, the poll answers still to come, the id and the state EC2 gives the next volume it
   * creates, the device names in the mount table, and the commands run.
   */
  datatype World = World(
    volumes: seq<Volume>,
    calls: seq<Ec2Call>,
    attachReplyState: string,
    polls: seq<PollReply>,
    freshVolumeId: string,
    createdState: string,
    mounted: seq<string>,
    execs: seq<string>)

  /** `describeVolumes` filtered by `tag:Name` = `name`. */
  function Describe(volumes: seq<Volume>, name: string): (r: seq<Volume>)
    ensures forall v :: v in r <==> v in volumes && NameTag in v.tags && v.tags[NameTag] == name
    ensures |r| <= |volumes|
  {
    if volumes == [] then []
    else
      var v := volumes[0];
      (if NameTag in v.tags && v.tags[NameTag] == name then [v] else []) + Describe(volumes[1..], name)
  }

  lemma {:induction false} DescribeConcat(a: seq<Volume>, b: seq<Volume>, name: string)
    ensures Describe(a + b, name) == Describe(a, name) + Describe(b, name)
  {
    if a == [] {
      assert a + b == b;
    } else {
      assert (a + b)[0] == a[0] && (a + b)[1..] == a[1..] + b;
      DescribeConcat(a[1..], b, name);
    }
  }

  predicate HasAttachmentOf(v: Volume, instanceId: string) {
    exists j :: 0 <= j < |v.attachments| && v.attachments[j].instanceId == instanceId
  }

  /** Some volume of `vs` has an attachment to the instance. */
  predicate AttachedTo(vs: seq<Volume>, instanceId: string) {
    exists i :: 0 <= i < |vs| && HasAttachmentOf(vs[i], instanceId)
  }

  /** The table after `attachVolume`: the volume is in use, with a new attachment in the state the reply reports. */
  function AttachInTable(volumes: seq<Volume>, volumeId: string, instanceId: string, device: string, state: string): (r: seq<Volume>)
    ensures |r| == |volumes|
  {
    seq(|volumes|, i requires 0 <= i < |volumes| =>
      var v := volumes[i];
      if v.volumeId == volumeId
      then v.(state := InUse, attachments := v.attachments + [Attachment(device, instanceId, state)])
      else v)
  }

  /** The table after `createTags` on one volume. */
  function TagInTable(volumes: seq<Volume>, volumeId: string, key: string, value: string): (r: seq<Volume>)
    ensures |r| == |volumes|
  {
    seq(|volumes|, i requires 0 <= i < |volumes| =>
      var v := volumes[i];
      if v.volumeId == volumeId then v.(tags := v.tags[key := value]) else v)
  }

  /** The table's current record of a volume, or the given record when the table has none. */
  function CurrentRecord(volumes: seq<Volume>, v: Volume): (r: Volume)
    ensures r.volumeId == v.volumeId
    ensures r == v || r in volumes
  {
    if volumes == [] then v
    else if volumes[0].volumeId == v.volumeId then volumes[0]
    else CurrentRecord(volumes[1..], v)
  }

  /**
   * The status one poll round reads: the state of the first attachment of the FIRST volume the
   * describe call lists (the stale volume is appended after the listing), when it has one.
   */
  function ObservedStatus(listing: seq<Volume>, status: string): string {
    if |listing| > 0 && |listing[0].attachments| > 0 then listing[0].attachments[0].state else status
  }

  datatype PollEnd =
    | Settled(status: string, rest: seq<PollReply>)
    | Interrupted(rest: seq<PollReply>)
    | Exhausted

  /**
   * The attachment poll: while the status is `attaching`, read it again; stop on `error`;
   * otherwise sleep, where an interrupt ends the poll. Running out of answers is `Exhausted`.
   */
  function Poll(polls: seq<PollReply>, status: string, stale: Volume): (r: PollEnd)
    ensures r.Settled? ==> r.status != Attaching
    ensures status != Attaching ==> r == Settled(status, polls)
    ensures !r.Exhausted? ==> |r.rest| <= |polls| && r.rest == polls[|polls| - |r.rest|..]
    decreases |polls|
  {
    if status != Attaching then Settled(status, polls)
    else if polls == [] then Exhausted
    else
      var reply := polls[0];
      var observed := ObservedStatus(reply.listing + [stale], status);
      if observed == ErrorState then Settled(observed, polls[1..])
      else if reply.interrupted then Interrupted(polls[1..])
      else
        var r := Poll(polls[1..], observed, stale);
        assert !r.Exhausted? ==> polls[1..][|polls[1..]| - |r.rest|..] == polls[|polls| - |r.rest|..];
        r
  }

  /** An `error` status ends the poll even when the sleep would have been interrupted. */
  lemma PollStopsOnError(polls: seq<PollReply>, stale: Volume)
    requires polls != [] && ObservedStatus(polls[0].listing + [stale], Attaching) == ErrorState
    ensures Poll(polls, Attaching, stale) == Settled(ErrorState, polls[1..])
  {
  }

  /** A status other than `attaching` or `error` still goes through the sleep, so an interrupt after `attached` propagates. */
  lemma PollInterruptAfterAttached(polls: seq<PollReply>, stale: Volume)
    requires polls != [] && polls[0].interrupted
    requires ObservedStatus(polls[0].listing + [stale], Attaching) == AttachedState
    ensures Poll(polls, Attaching, stale) == Interrupted(polls[1..])
  {
  }

  /** The listing's first volume decides the status even when it is not the volume being attached. */
  lemma PollReadsFirstListedVolume(other: Volume, stale: Volume, rest: seq<PollReply>)
    requires |other.attachments| > 0 && other.attachments[0].state == AttachedState
    ensures Poll([PollReply([other], false)] + rest, Attaching, stale) == Settled(AttachedState, rest)
  {
    var polls := [PollReply([other], false)] + rest;
    assert polls[1..] == rest;
    assert ([other] + [stale])[0] == other;
  }
}
