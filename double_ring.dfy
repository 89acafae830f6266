/**
 * Ring doubling (`DoubleRing`, priam/src/main/java/com/netflix/priam/identity/DoubleRing.java).
 *
 * Doubling reads the local region's members of the cluster, deletes them, and re-creates each
 * one at twice its slot relative to the region offset, together with a placeholder "sibling"
 * slot `numZones` further on (modulo the doubled ring size). A snapshot of the local members
 * taken by `Backup` can be put back by `Restore`.
 */
module DoubleRing {
  import opened Wrappers
  import opened JavaLang
  import opened InstanceRegistry

  /** What ring doubling reads from its configuration and its token manager. */
  datatype RingConfig = RingConfig(
    clusterName: string,
    regionName: string,
    regionOffset: int,                              // TokenManager.regionOffset(regionName)
    numZones: nat,                                  // number of usable availability zones
    privateHostName: string,
    privateIP: string,
    createToken: (int, int, string) -> string)     // createToken(slot, ringSize, region)

  /** The instance id given to every placeholder slot. */
  const NewSlotInstanceId: string := "new_slot"

  datatype RestoreError = NoBackupTaken

  // ---------------------------------------------------------------------------------------
  // Which records are touched

  /** A record of this cluster in the local region: the only kind doubling reads or writes. */
  predicate IsLocal(c: RingConfig, x: Instance) {
    x.app == c.clusterName && x.regionName == c.regionName
  }

  /** `filteredRemote`: the records of the given region, in order. */
  function InRegion(s: seq<Instance>, region: string): (r: seq<Instance>)
    ensures forall y :: y in r <==> y in s && y.regionName == region
    ensures |r| <= |s|
  {
    if s == [] then []
    else (if s[0].regionName == region then [s[0]] else []) + InRegion(s[1..], region)
  }

  /** The local members, as `filteredRemote(getAllIds(clusterName))` lists them. */
  function Local(c: RingConfig, s: seq<Instance>): seq<Instance>
  {
    InRegion(OfApp(s, c.clusterName), c.regionName)
  }

  /** Every record that is not a local member, in order. */
  function NonLocal(c: RingConfig, s: seq<Instance>): (r: seq<Instance>)
    ensures forall y :: y in r ==> y in s && !IsLocal(c, y)
  {
    if s == [] then []
    else (if IsLocal(c, s[0]) then [] else [s[0]]) + NonLocal(c, s[1..])
  }

  // ---------------------------------------------------------------------------------------
  // The doubled ring

  function RelativeSlot(c: RingConfig, x: Instance): int {
    x.id - c.regionOffset
  }

  /** An existing member moved to twice its relative slot, otherwise unchanged. */
  function Moved(c: RingConfig, x: Instance): Instance {
    Instance(x.app, c.regionOffset + RelativeSlot(c, x) * 2, x.instanceId, x.hostName, x.hostIP,
             x.availabilityZone, x.volumes, x.token, c.regionName)
  }

  /** The relative slot of the placeholder created beside `x`: `(slot + numZones) % newRingSize` in Java. */
  function SiblingSlot(c: RingConfig, x: Instance, ringSize: int): int
    requires ringSize != 0
  {
    JavaRem(RelativeSlot(c, x) * 2 + c.numZones, ringSize)
  }

  /** The placeholder beside `x`: this host's identity, the sentinel id, no volumes, a fresh token. */
  function Sibling(c: RingConfig, x: Instance, ringSize: int): Instance
    requires ringSize != 0
  {
    var slot := SiblingSlot(c, x, ringSize);
    Instance(x.app, c.regionOffset + slot, NewSlotInstanceId, c.privateHostName, c.privateIP,
             x.availabilityZone, None, c.createToken(slot, ringSize, c.regionName), c.regionName)
  }

  /** The records created for the members `xs`, in creation order: moved member, then its sibling. */
  function Expand(c: RingConfig, xs: seq<Instance>, ringSize: int): (r: seq<Instance>)
    requires xs != [] ==> ringSize != 0
  {
    seq(2 * |xs|, k requires 0 <= k < 2 * |xs| =>
      if k % 2 == 0 then Moved(c, xs[k / 2]) else Sibling(c, xs[k / 2], ringSize))
  }

  /** The registry after `doubleSlots`: local members are replaced by their expansion. */
  function DoubledRegistry(c: RingConfig, s: seq<Instance>): seq<Instance>
  {
    var local := Local(c, s);
    NonLocal(c, s) + Expand(c, local, |local| * 2)
  }

  /** Snapshot records as `restore` re-creates them: the registry stamps them with the local region. */
  function Recreate(c: RingConfig, snapshot: seq<Instance>): seq<Instance>
  {
    seq(|snapshot|, k requires 0 <= k < |snapshot| => snapshot[k].(regionName := c.regionName))
  }

  /** The registry after `restore` of a snapshot: local members are replaced by the snapshot. */
  function RestoredRegistry(c: RingConfig, s: seq<Instance>, snapshot: seq<Instance>): seq<Instance>
  {
    NonLocal(c, s) + Recreate(c, snapshot)
  }

  // ---------------------------------------------------------------------------------------
  // Facts about the filters

  lemma {:induction false} InRegionConcat(a: seq<Instance>, b: seq<Instance>, region: string)
    ensures InRegion(a + b, region) == InRegion(a, region) + InRegion(b, region)
  {
    if a == [] {
      assert a + b == b;
    } else {
      assert (a + b)[0] == a[0] && (a + b)[1..] == a[1..] + b;
      InRegionConcat(a[1..], b, region);
    }
  }

  lemma InRegionSnoc(xs: seq<Instance>, x: Instance, region: string)
    ensures InRegion(xs + [x], region) == InRegion(xs, region) + (if x.regionName == region then [x] else [])
  {
    InRegionConcat(xs, [x], region);
    assert [x][1..] == [];
  }

  lemma {:induction false} OfAppConcat(a: seq<Instance>, b: seq<Instance>, app: string)
    ensures OfApp(a + b, app) == OfApp(a, app) + OfApp(b, app)
  {
    if a == [] {
      assert a + b == b;
    } else {
      assert (a + b)[0] == a[0] && (a + b)[1..] == a[1..] + b;
      OfAppConcat(a[1..], b, app);
    }
  }

  lemma {:induction false} NonLocalConcat(c: RingConfig, a: seq<Instance>, b: seq<Instance>)
    ensures NonLocal(c, a + b) == NonLocal(c, a) + NonLocal(c, b)
  {
    if a == [] {
      assert a + b == b;
    } else {
      assert (a + b)[0] == a[0] && (a + b)[1..] == a[1..] + b;
      NonLocalConcat(c, a[1..], b);
    }
  }

  lemma LocalMembers(c: RingConfig, s: seq<Instance>)
    ensures forall y :: y in Local(c, s) <==> y in s && IsLocal(c, y)
  {
  }

  lemma {:induction false} NonLocalOfLocalFree(c: RingConfig, s: seq<Instance>)
    requires forall y :: y in s ==> !IsLocal(c, y)
    ensures NonLocal(c, s) == s
  {
    if s != [] {
      NonLocalOfLocalFree(c, s[1..]);
      assert [s[0]] + s[1..] == s;
    }
  }

  lemma {:induction false} NonLocalOfAllLocal(c: RingConfig, s: seq<Instance>)
    requires forall y :: y in s ==> IsLocal(c, y)
    ensures NonLocal(c, s) == []
  {
    if s != [] {
      NonLocalOfAllLocal(c, s[1..]);
    }
  }

  /** Deleting every listed local member leaves exactly the records that are not local members. */
  lemma {:induction false} RemoveAllLocal(c: RingConfig, s: seq<Instance>, xs: seq<Instance>)
    requires forall y :: y in s ==> (y in xs <==> IsLocal(c, y))
    ensures RemoveAll(s, xs) == NonLocal(c, s)
  {
    if s != [] {
      RemoveAllLocal(c, s[1..], xs);
    }
  }

  /** One more record in front: it is a local member or one of the others. */
  lemma LocalCons(c: RingConfig, x: Instance, t: seq<Instance>)
    ensures Local(c, [x] + t) == (if IsLocal(c, x) then [x] else []) + Local(c, t)
    ensures NonLocal(c, [x] + t) == (if IsLocal(c, x) then [] else [x]) + NonLocal(c, t)
  {
    var s := [x] + t;
    assert s[0] == x && s[1..] == t;
    var head := if x.app == c.clusterName then [x] else [];
    assert OfApp(s, c.clusterName) == head + OfApp(t, c.clusterName);
    InRegionConcat(head, OfApp(t, c.clusterName), c.regionName);
    assert [x][1..] == [];
  }

  /** The local members and the rest together are the whole registry. */
  lemma {:induction false} LocalSplit(c: RingConfig, s: seq<Instance>)
    ensures multiset(Local(c, s)) + multiset(NonLocal(c, s)) == multiset(s)
  {
    if s != [] {
      var x, t := s[0], s[1..];
      LocalSplit(c, t);
      assert s == [x] + t;
      LocalCons(c, x, t);
      assert multiset(s) == multiset([x]) + multiset(t);
    }
  }

  lemma ExpandSnoc(c: RingConfig, xs: seq<Instance>, x: Instance, ringSize: int)
    requires ringSize != 0
    ensures Expand(c, xs + [x], ringSize) == Expand(c, xs, ringSize) + [Moved(c, x), Sibling(c, x, ringSize)]
  {
    var ys := xs + [x];
    var lhs, rhs := Expand(c, ys, ringSize), Expand(c, xs, ringSize) + [Moved(c, x), Sibling(c, x, ringSize)];
    assert |lhs| == |rhs|;
    forall k | 0 <= k < |lhs| ensures lhs[k] == rhs[k] {
      if k < 2 * |xs| {
        assert k / 2 < |xs| && ys[k / 2] == xs[k / 2];
      } else {
        assert k / 2 == |xs| && ys[k / 2] == x;
      }
    }
  }

  lemma ExpandAllLocal(c: RingConfig, xs: seq<Instance>, ringSize: int)
    requires xs != [] ==> ringSize != 0
    requires forall y :: y in xs ==> y.app == c.clusterName
    ensures forall y :: y in Expand(c, xs, ringSize) ==> IsLocal(c, y)
  {
    var e := Expand(c, xs, ringSize);
    forall y | y in e ensures IsLocal(c, y) {
      var k :| 0 <= k < |e| && e[k] == y;
      assert xs[k / 2] in xs;
    }
  }

  // ---------------------------------------------------------------------------------------
  // Properties of the doubled ring

  /** Each member re-created by doubling keeps every field except its slot, which doubles. */
  lemma MovedMemberKeepsIdentity(c: RingConfig, xs: seq<Instance>, k: nat)
    requires k < |xs| && IsLocal(c, xs[k])
    ensures |Expand(c, xs, 2 * |xs|)| == 2 * |xs|
    ensures Expand(c, xs, 2 * |xs|)[2 * k] == xs[k].(id := c.regionOffset + 2 * (xs[k].id - c.regionOffset))
  {
    assert (2 * k) / 2 == k && (2 * k) % 2 == 0;
  }

  /**
   * The placeholder created beside each member: the slot `(2s + numZones) mod 2M` relative to the
   * offset, which lies in `0 .. 2M-1` whenever the member's relative slot `s` is not negative.
   */
  lemma PlaceholderBeside(c: RingConfig, xs: seq<Instance>, k: nat)
    requires k < |xs|
    ensures var n := 2 * |xs|;
      var p := Expand(c, xs, n)[2 * k + 1];
      var slot := p.id - c.regionOffset;
      && slot == JavaRem(2 * RelativeSlot(c, xs[k]) + c.numZones, n)
      && (RelativeSlot(c, xs[k]) >= 0 ==> 0 <= slot < n)
      && p.instanceId == NewSlotInstanceId && p.volumes == None
      && p.hostName == c.privateHostName && p.hostIP == c.privateIP
      && p.availabilityZone == xs[k].availabilityZone && p.app == xs[k].app
      && p.token == c.createToken(slot, n, c.regionName)
  {
    assert (2 * k + 1) / 2 == k && (2 * k + 1) % 2 == 1;
  }

  lemma SiblingSlotOdd(c: RingConfig, x: Instance, n: int)
    requires c.numZones % 2 == 1 && n != 0 && n % 2 == 0
    ensures RelativeSlot(c, Sibling(c, x, n)) % 2 == 1
  {
    var d := RelativeSlot(c, x) * 2 + c.numZones;
    assert RelativeSlot(c, Sibling(c, x, n)) == JavaRem(d, n);
    JavaRemKeepsParity(d, n);
    OddAfterEven(RelativeSlot(c, x), c.numZones);
  }

  lemma OddAfterEven(a: int, z: int)
    requires z % 2 == 1
    ensures (a * 2 + z) % 2 == 1
  {
    var q := z / 2;
    assert z == 2 * q + 1;
    assert a * 2 + z == 2 * (a + q) + 1;
  }

  /**
   * The safety argument of the doubling: with an odd number of zones, every moved member has an
   * even relative slot and every placeholder an odd one, so no placeholder takes a moved slot.
   */
  lemma DoublingParity(c: RingConfig, xs: seq<Instance>)
    requires c.numZones % 2 == 1
    ensures var e := Expand(c, xs, 2 * |xs|);
      && (forall k :: 0 <= k < |e| ==> RelativeSlot(c, e[k]) % 2 == k % 2)
      && (forall i, j :: 0 <= i < |e| && 0 <= j < |e| && i % 2 != j % 2 ==> e[i].id != e[j].id)
  {
    var n := 2 * |xs|;
    var e := Expand(c, xs, n);
    forall k | 0 <= k < |e| ensures RelativeSlot(c, e[k]) % 2 == k % 2 {
      var x := xs[k / 2];
      if k % 2 == 1 {
        SiblingSlotOdd(c, x, n);
      }
    }
    forall i, j | 0 <= i < |e| && 0 <= j < |e| && i % 2 != j % 2 ensures e[i].id != e[j].id {
      assert RelativeSlot(c, e[i]) % 2 != RelativeSlot(c, e[j]) % 2;
    }
  }

  lemma {:induction false} MultipleAtLeast(d: int, n: int)
    requires d >= 1 && n > 0
    ensures d * n >= n
    decreases d
  {
    if d > 1 {
      MultipleAtLeast(d - 1, n);
      assert d * n == (d - 1) * n + n;
    }
  }

  lemma MultipleBounds(d: int, n: int)
    requires n > 0
    ensures d >= 1 ==> d * n >= n
    ensures d <= -1 ==> d * n <= -n
  {
    if d >= 1 {
      MultipleAtLeast(d, n);
    } else if d <= -1 {
      MultipleAtLeast(-d, n);
      assert (-d) * n == -(d * n);
    }
  }

  /** Two numbers in `0 .. n-1` whose difference is a multiple of `n` are equal. */
  lemma ShiftedRemainderInjective(a: int, b: int, z: int, n: int)
    requires n > 0 && 0 <= a < n && 0 <= b < n
    requires (a + z) % n == (b + z) % n
    ensures a == b
  {
    var qa, qb := (a + z) / n, (b + z) / n;
    assert a - b == qa * n - qb * n;
    assert qa * n - qb * n == (qa - qb) * n;
    MultipleBounds(qa - qb, n);
  }

  /** The relative slots of the members are distinct and all below the member count. */
  predicate DenseSlots(c: RingConfig, xs: seq<Instance>) {
    && (forall k :: 0 <= k < |xs| ==> 0 <= RelativeSlot(c, xs[k]) < |xs|)
    && (forall i, j :: 0 <= i < j < |xs| ==> xs[i].id != xs[j].id)
  }

  lemma SiblingSlotsDistinct(c: RingConfig, xs: seq<Instance>, a: nat, b: nat)
    requires DenseSlots(c, xs) && a < b < |xs|
    ensures Sibling(c, xs[a], 2 * |xs|).id != Sibling(c, xs[b], 2 * |xs|).id
  {
    var n := 2 * |xs|;
    var sa, sb := RelativeSlot(c, xs[a]) * 2, RelativeSlot(c, xs[b]) * 2;
    assert SiblingSlot(c, xs[a], n) == (sa + c.numZones) % n;
    assert SiblingSlot(c, xs[b], n) == (sb + c.numZones) % n;
    if Sibling(c, xs[a], n).id == Sibling(c, xs[b], n).id {
      ShiftedRemainderInjective(sa, sb, c.numZones, n);
    }
  }

  /**
   * Doubling a ring of M members on distinct relative slots `0 .. M-1` creates exactly 2M
   * records, all on distinct relative slots in `0 .. 2M-1` (the zone count being odd).
   */
  lemma DoubledSlotsDistinct(c: RingConfig, xs: seq<Instance>)
    requires DenseSlots(c, xs)
    requires c.numZones % 2 == 1
    ensures var e := Expand(c, xs, 2 * |xs|);
      && |e| == 2 * |xs|
      && (forall k :: 0 <= k < |e| ==> 0 <= RelativeSlot(c, e[k]) < 2 * |xs|)
      && (forall i, j :: 0 <= i < j < |e| ==> e[i].id != e[j].id)
  {
    var n := 2 * |xs|;
    var e := Expand(c, xs, n);
    DoublingParity(c, xs);
    forall i, j | 0 <= i < j < |e| ensures e[i].id != e[j].id {
      if i % 2 == j % 2 {
        assert i / 2 < j / 2;
        if i % 2 == 1 {
          SiblingSlotsDistinct(c, xs, i / 2, j / 2);
        } else {
          assert xs[i / 2].id != xs[j / 2].id;
        }
      }
    }
  }

  /** Why the zone count must be odd: with two zones, the first placeholder lands on a moved slot. */
  lemma EvenZoneCountCollides(c: RingConfig, xs: seq<Instance>)
    requires c.numZones == 2 && |xs| == 2
    requires RelativeSlot(c, xs[0]) == 0 && RelativeSlot(c, xs[1]) == 1
    ensures Expand(c, xs, 4)[1].id == Expand(c, xs, 4)[2].id
  {
    assert JavaRem(2, 4) == 2;
  }

  /** Doubling leaves every record that is not a local member where it was. */
  lemma DoublingKeepsOtherRecords(c: RingConfig, s: seq<Instance>)
    ensures NonLocal(c, DoubledRegistry(c, s)) == NonLocal(c, s)
  {
    var local := Local(c, s);
    var rest := NonLocal(c, s);
    var e := Expand(c, local, |local| * 2);
    assert DoubledRegistry(c, s) == rest + e;
    assert forall y :: y in local ==> y.app == c.clusterName;
    ExpandAllLocal(c, local, |local| * 2);
    NonLocalConcat(c, rest, e);
    NonLocalOfLocalFree(c, rest);
    NonLocalOfAllLocal(c, e);
    assert rest + [] == rest;
  }

  /** With no local member, doubling creates nothing and the registry stays as it was. */
  lemma DoublingEmptyRegion(c: RingConfig, s: seq<Instance>)
    requires Local(c, s) == []
    ensures DoubledRegistry(c, s) == s
  {
    LocalMembers(c, s);
    NonLocalOfLocalFree(c, s);
    assert s + [] == s;
  }

  /** Restoring a snapshot of this cluster's records leaves every record that is not a local member where it was. */
  lemma RestoreKeepsOtherRecords(c: RingConfig, s: seq<Instance>, snapshot: seq<Instance>)
    requires forall y :: y in snapshot ==> y.app == c.clusterName
    ensures NonLocal(c, RestoredRegistry(c, s, snapshot)) == NonLocal(c, s)
  {
    var rest := NonLocal(c, s);
    var back := Recreate(c, snapshot);
    forall y | y in back ensures IsLocal(c, y) {
      var k :| 0 <= k < |back| && back[k] == y;
      assert snapshot[k] in snapshot;
    }
    NonLocalConcat(c, rest, back);
    NonLocalOfLocalFree(c, rest);
    NonLocalOfAllLocal(c, back);
    assert rest + [] == rest;
  }

  /**
   * The recovery round trip: restoring the snapshot of the local members taken before doubling
   * yields the original registry, up to the order of its records.
   */
  lemma BackupDoubleRestoreRoundTrip(c: RingConfig, s: seq<Instance>)
    ensures multiset(RestoredRegistry(c, DoubledRegistry(c, s), Local(c, s))) == multiset(s)
  {
    var local := Local(c, s);
    DoublingKeepsOtherRecords(c, s);
    assert Recreate(c, local) == local by {
      forall k | 0 <= k < |local| ensures local[k].regionName == c.regionName {
        assert local[k] in local;
      }
    }
    LocalSplit(c, s);
  }

  lemma RecreateSnoc(c: RingConfig, xs: seq<Instance>, x: Instance)
    ensures Recreate(c, xs + [x]) == Recreate(c, xs) + [x.(regionName := c.regionName)]
  {
    var lhs, rhs := Recreate(c, xs + [x]), Recreate(c, xs) + [x.(regionName := c.regionName)];
    assert |lhs| == |rhs|;
    forall k | 0 <= k < |lhs| ensures lhs[k] == rhs[k] {
      if k < |xs| {
        assert (xs + [x])[k] == xs[k];
      }
    }
  }

  // ---------------------------------------------------------------------------------------
  // The imperative component

  class DoubleRing {
    const config: RingConfig
    const registry: Registry
    /** The recovery checkpoint: the static `TMP_BACKUP_FILE` of the source, as a value. */
    var snapshot: Option<seq<Instance>>

    constructor (config: RingConfig, registry: Registry)
      ensures this.config == config && this.registry == registry && snapshot == None
    {
      this.config := config;
      this.registry := registry;
      snapshot := None;
    }

    /** `filteredRemote`: keep the records of the local region. */
    method FilteredRemote(instances: seq<Instance>) returns (local: seq<Instance>)
      ensures local == InRegion(instances, config.regionName)
      ensures forall y :: y in local <==> y in instances && y.regionName == config.regionName
    {
      local := [];
      var i := 0;
      while i < |instances|
        invariant 0 <= i <= |instances|
        invariant local == InRegion(instances[..i], config.regionName)
      {
        InRegionSnoc(instances[..i], instances[i], config.regionName);
        assert instances[..i + 1] == instances[..i] + [instances[i]];
        if instances[i].regionName == config.regionName {
          local := local + [instances[i]];
        }
        i := i + 1;
      }
      assert instances[..i] == instances;
    }

    /** The delete loop shared by `doubleSlots` and `restore`. */
    method DeleteAll(xs: seq<Instance>)
      modifies registry
      ensures registry.entries == RemoveAll(old(registry.entries), xs)
    {
      ghost var before := registry.entries;
      RemoveAllOfNothing(before);
      var i := 0;
      while i < |xs|
        invariant 0 <= i <= |xs|
        invariant registry.entries == RemoveAll(before, xs[..i])
      {
        registry.Delete(xs[i]);
        WithoutAfterRemoveAll(before, xs[..i], xs[i]);
        assert xs[..i + 1] == xs[..i] + [xs[i]];
        i := i + 1;
      }
      assert xs[..i] == xs;
    }

    /** Deletes the local members just listed, which leaves every other record. */
    method DeleteLocal(local: seq<Instance>)
      requires local == Local(config, registry.entries)
      modifies registry
      ensures registry.entries == NonLocal(config, old(registry.entries))
    {
      LocalMembers(config, registry.entries);
      RemoveAllLocal(config, registry.entries, local);
      DeleteAll(local);
    }

    method DoubleSlots()
      modifies registry
      ensures registry.entries == DoubledRegistry(config, old(registry.entries))
    {
      var instancesInRegion := FilteredRemote(registry.GetAllIds(config.clusterName));
      DeleteLocal(instancesInRegion);
      CreateDoubled(instancesInRegion);
    }

    /** The create loop of `doubleSlots`: each member at twice its slot, then its placeholder. */
    method CreateDoubled(instancesInRegion: seq<Instance>)
      modifies registry
      ensures registry.entries == old(registry.entries) + Expand(config, instancesInRegion, |instancesInRegion| * 2)
    {
      ghost var before := registry.entries;
      var regionOffsetHash := config.regionOffset;
      var newRingSize := |instancesInRegion| * 2;
      var numZones := config.numZones;
      var i := 0;
      while i < |instancesInRegion|
        invariant 0 <= i <= |instancesInRegion|
        invariant registry.entries == before + Expand(config, instancesInRegion[..i], newRingSize)
      {
        var x := instancesInRegion[i];
        var slot := (x.id - regionOffsetHash) * 2;
        registry.Create(x.app, regionOffsetHash + slot, x.instanceId, x.hostName, x.hostIP,
                        x.availabilityZone, x.volumes, x.token, config.regionName);
        var newSlot := JavaRem(slot + numZones, newRingSize);
        var token := config.createToken(newSlot, newRingSize, config.regionName);
        registry.Create(x.app, regionOffsetHash + newSlot, NewSlotInstanceId, config.privateHostName,
                        config.privateIP, x.availabilityZone, None, token, config.regionName);
        ExpandSnoc(config, instancesInRegion[..i], x, newRingSize);
        assert instancesInRegion[..i + 1] == instancesInRegion[..i] + [x];
        i := i + 1;
      }
      assert instancesInRegion[..i] == instancesInRegion;
    }

    method Backup()
      modifies this
      ensures snapshot == Some(Local(config, registry.entries))
    {
      var local := FilteredRemote(registry.GetAllIds(config.clusterName));
      snapshot := Some(local);
    }

    /**
     * `restore`: the local members are deleted first; then, if no backup was ever taken (the
     * backup file is still null and reading it throws), the call fails with them deleted.
     */
    method Restore() returns (o: Outcome<RestoreError>)
      modifies registry
      ensures o == (if snapshot.Some? then Pass else Fail(NoBackupTaken))
      ensures registry.entries ==
        if snapshot.Some? then RestoredRegistry(config, old(registry.entries), snapshot.value)
        else NonLocal(config, old(registry.entries))
    {
      ghost var before := registry.entries;
      var current := FilteredRemote(registry.GetAllIds(config.clusterName));
      DeleteLocal(current);
      if snapshot.None? {
        return Fail(NoBackupTaken);
      }
      var allInstances := snapshot.value;
      var i := 0;
      while i < |allInstances|
        invariant 0 <= i <= |allInstances|
        invariant registry.entries == NonLocal(config, before) + Recreate(config, allInstances[..i])
      {
        var data := allInstances[i];
        registry.Create(data.app, data.id, data.instanceId, data.hostName, data.hostIP,
                        data.availabilityZone, data.volumes, data.token, config.regionName);
        assert allInstances[..i + 1] == allInstances[..i] + [data];
        RecreateSnoc(config, allInstances[..i], data);
        i := i + 1;
      }
      assert allInstances[..i] == allInstances;
      o := Pass;
    }
  }
}
