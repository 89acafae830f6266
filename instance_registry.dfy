/**
 * The ring-membership registry that ring doubling reads and rewrites. It is a remote store of
 * instance records; here it is an object holding the records, with the three operations the
 * ring code uses: list by application, delete a record, create a record.
 */
module InstanceRegistry {
  import opened Wrappers

  /** The volumes recorded for an instance (a Java map that may be null). */
  type Volumes = map<string, seq<string>>

  /** A ring member: a record of `PriamInstance`. `id` is the absolute ring slot. */
  datatype Instance = Instance(
    app: string,
    id: int,
    instanceId: string,
    hostName: string,
    hostIP: string,
    availabilityZone: string,
    volumes: Option<Volumes>,
    token: string,
    regionName: string)

  /** The records of one application, in registry order. */
  function OfApp(s: seq<Instance>, app: string): (r: seq<Instance>)
    ensures forall y :: y in r <==> y in s && y.app == app
    ensures |r| <= |s|
  {
    if s == [] then []
    else (if s[0].app == app then [s[0]] else []) + OfApp(s[1..], app)
  }

  /** The records left after deleting `x`: every record equal to it goes. */
  function Without(s: seq<Instance>, x: Instance): seq<Instance>
  {
    if s == [] then []
    else (if s[0] == x then [] else [s[0]]) + Without(s[1..], x)
  }

  /** Deleting a record removes all its copies and keeps every other record. */
  lemma {:induction false} WithoutRemovesExactly(s: seq<Instance>, x: Instance)
    ensures multiset(Without(s, x)) == multiset(s)[x := 0]
  {
    if s != [] {
      WithoutRemovesExactly(s[1..], x);
      assert s == [s[0]] + s[1..];
    }
  }

  /** The records left after deleting each record of `xs` in turn. */
  function RemoveAll(s: seq<Instance>, xs: seq<Instance>): seq<Instance>
  {
    if s == [] then []
    else (if s[0] in xs then [] else [s[0]]) + RemoveAll(s[1..], xs)
  }

  lemma {:induction false} WithoutAfterRemoveAll(s: seq<Instance>, xs: seq<Instance>, x: Instance)
    ensures Without(RemoveAll(s, xs), x) == RemoveAll(s, xs + [x])
  {
    if s != [] {
      WithoutAfterRemoveAll(s[1..], xs, x);
      var head := if s[0] in xs then [] else [s[0]];
      var rest := RemoveAll(s[1..], xs);
      assert RemoveAll(s, xs) == head + rest;
      WithoutOfConcat(head, rest, x);
    }
  }

  lemma {:induction false} WithoutOfConcat(a: seq<Instance>, b: seq<Instance>, x: Instance)
    ensures Without(a + b, x) == Without(a, x) + Without(b, x)
  {
    if a != [] {
      assert (a + b)[0] == a[0] && (a + b)[1..] == a[1..] + b;
      WithoutOfConcat(a[1..], b, x);
      var h := if a[0] == x then [] else [a[0]];
      calc {
        Without(a + b, x);
        h + Without(a[1..] + b, x);
        h + (Without(a[1..], x) + Without(b, x));
        (h + Without(a[1..], x)) + Without(b, x);
      }
    } else {
      assert a + b == b;
    }
  }

  lemma RemoveAllOfNothing(s: seq<Instance>)
    ensures RemoveAll(s, []) == s
  {
  }

  /** The registry: a mutable collection of records with no meaningful order. */
  class Registry {
    var entries: seq<Instance>

    constructor (initial: seq<Instance>)
      ensures entries == initial
    {
      entries := initial;
    }

    /** `getAllIds(app)`: every record of the application. */
    function GetAllIds(app: string): seq<Instance>
      reads this
    {
      OfApp(entries, app)
    }

    /** `delete(instance)`. */
    method Delete(x: Instance)
      modifies this
      ensures entries == Without(old(entries), x)
    {
      entries := Without(entries, x);
    }

    /**
     * `create(app, id, instanceId, host, ip, zone, volumes, token)`; the registry stamps the
     * record with the region of the calling process, passed here explicitly.
     */
    method Create(app: string, id: int, instanceId: string, hostName: string, hostIP: string,
                  zone: string, volumes: Option<Volumes>, token: string, regionName: string)
      modifies this
      ensures entries == old(entries) + [Instance(app, id, instanceId, hostName, hostIP, zone, volumes, token, regionName)]
    {
      entries := entries + [Instance(app, id, instanceId, hostName, hostIP, zone, volumes, token, regionName)];
    }
  }
}
