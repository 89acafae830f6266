/**
 * The date-filtered catalogue of backup prefixes in an object store
 * (core/src/main/java/com/netflix/priam/aws/S3PrefixIterator.java).
 *
 * The iterator lists, one level deep, the common prefixes under the cluster path of a bucket.
 * It keeps a candidate only when a second listing, scoped to the candidate followed by the
 * `yyyyMMdd` date, finds at least one object. The listing arrives in pages; the iterator holds
 * the filtered current page in a buffer and fetches further pages only when the buffer runs dry.
 */
module S3PrefixIterator {
  import opened Wrappers
  import opened JavaLang
  import opened DateFormat

  /** `PATH_SEP` of the backup paths. */
  const PathSep: char := '/'

  /** The configuration the catalogue reads. */
  datatype Settings = Settings(
    restorePrefix: string,      // backupConfiguration.getRestorePrefix()
    s3BucketName: string,
    s3BaseDir: string,
    regionName: string,
    clusterName: string)

  /** A listing request: bucket, key prefix and an optional delimiter. */
  datatype ListRequest = ListRequest(bucket: string, prefix: string, delimiter: Option<char>)

  /** One page of a delimited listing: its common prefixes. */
  type Page = seq<string>

  /**
   * The object store, abstractly: the pages a delimited listing request is answered with (every
   * page but the last is truncated), and the keys held in each bucket.
   */
  datatype ObjectStore = ObjectStore(listings: map<ListRequest, seq<Page>>, keys: map<string, set<string>>)

  datatype OpenError =
    | NoBucketSegment               // `paths[0]` of an empty split
    | TooFewElements(location: string)  // the assertion of `remotePrefix`, or the index past the end

  // ---------------------------------------------------------------------------------------
  // The store's answers

  /** The pages a listing request is answered with; an unknown request lists one empty page. */
  function Pages(store: ObjectStore, req: ListRequest): (r: seq<Page>)
    ensures |r| >= 1
  {
    if req in store.listings && |store.listings[req]| >= 1 then store.listings[req] else [[]]
  }

  function BucketKeys(store: ObjectStore, bucket: string): set<string> {
    if bucket in store.keys then store.keys[bucket] else {}
  }

  /** The objects a listing of `prefix` in `bucket` returns. */
  function ObjectsUnder(store: ObjectStore, bucket: string, prefix: string): set<string> {
    set k | k in BucketKeys(store, bucket) && StartsWith(k, prefix)
  }

  /** `pathExistsForDate`: a listing of the candidate followed by the date returns some object. */
  function PathExistsForDate(store: ObjectStore, bucket: string, tprefix: string, datestr: string): bool {
    |ObjectsUnder(store, bucket, tprefix + datestr)| > 0
  }

  /** The probe succeeds exactly when some key of the bucket starts with candidate and date. */
  lemma ProbeFindsKey(store: ObjectStore, bucket: string, tprefix: string, datestr: string)
    ensures PathExistsForDate(store, bucket, tprefix, datestr)
      <==> exists k :: k in BucketKeys(store, bucket) && StartsWith(k, tprefix + datestr)
  {
    var hits := ObjectsUnder(store, bucket, tprefix + datestr);
    if |hits| > 0 {
      var k :| k in hits;
    }
    if exists k :: k in BucketKeys(store, bucket) && StartsWith(k, tprefix + datestr) {
      var k :| k in BucketKeys(store, bucket) && StartsWith(k, tprefix + datestr);
      assert k in hits;
    }
  }

  /** The listing of the tokens under the cluster path, one segment deep (`initListing`). */
  function TokenListing(bucket: string, clusterPath: string): ListRequest {
    ListRequest(bucket, clusterPath, Some(PathSep))
  }

  // ---------------------------------------------------------------------------------------
  // Where to search

  /** The configured search path: the restore prefix when it is not blank, else the bucket name. */
  function SearchPath(s: Settings): string {
    if !IsBlank(s.restorePrefix) then s.restorePrefix else s.s3BucketName
  }

  /** `remotePrefix`: the cluster path (up to the token) of a search path. */
  function RemotePrefix(s: Settings, location: string): Result<string, OpenError> {
    var elements := Split(location, PathSep);
    if |elements| <= 1 then
      Success(s.s3BaseDir + [PathSep] + s.regionName + [PathSep] + s.clusterName + [PathSep])
    else if |elements| < 4 then
      Failure(TooFewElements(location))
    else
      Success(elements[1] + [PathSep] + elements[2] + [PathSep] + elements[3] + [PathSep])
  }

  /** The bucket and the cluster path fixed at construction, or the error construction throws. */
  function Locate(s: Settings): Result<(string, string), OpenError> {
    var path := SearchPath(s);
    var paths := Split(path, PathSep);
    if |paths| == 0 then Failure(NoBucketSegment)
    else
      var clusterPath :- RemotePrefix(s, path);
      Success((paths[0], clusterPath))
  }

  lemma SeparatorIsNotBlank(s: string)
    requires PathSep in s
    ensures !IsBlank(s)
  {
    var i :| 0 <= i < |s| && s[i] == PathSep;
  }

  /** With a blank restore prefix and a plain bucket name, the default layout is searched. */
  lemma LocateDefault(s: Settings)
    requires IsBlank(s.restorePrefix)
    requires PathSep !in s.s3BucketName
    ensures Locate(s) == Success((s.s3BucketName,
      s.s3BaseDir + [PathSep] + s.regionName + [PathSep] + s.clusterName + [PathSep]))
  {
  }

  /**
   * A restore prefix `bucket/e1/e2/e3[/...]` of at least four segments (the last not empty)
   * searches bucket `bucket` under `e1/e2/e3/`.
   */
  lemma LocateOverride(s: Settings, segments: seq<string>)
    requires |segments| >= 4 && segments[|segments| - 1] != ""
    requires forall i :: 0 <= i < |segments| ==> PathSep !in segments[i]
    requires s.restorePrefix == Join(segments, PathSep)
    ensures Locate(s) == Success((segments[0],
      segments[1] + [PathSep] + segments[2] + [PathSep] + segments[3] + [PathSep]))
  {
    assert PathSep in Join(segments, PathSep) by {
      assert Join(segments, PathSep) == segments[0] + [PathSep] + Join(segments[1..], PathSep);
      assert Join(segments, PathSep)[|segments[0]|] == PathSep;
    }
    SeparatorIsNotBlank(s.restorePrefix);
    SplitOfJoin(segments, PathSep);
  }

  /** A restore prefix of two or three segments is malformed: construction fails. */
  lemma LocateTooFewSegments(s: Settings, segments: seq<string>)
    requires 2 <= |segments| <= 3 && segments[|segments| - 1] != ""
    requires forall i :: 0 <= i < |segments| ==> PathSep !in segments[i]
    requires s.restorePrefix == Join(segments, PathSep)
    ensures Locate(s) == Failure(TooFewElements(s.restorePrefix))
  {
    assert PathSep in Join(segments, PathSep) by {
      assert Join(segments, PathSep) == segments[0] + [PathSep] + Join(segments[1..], PathSep);
      assert Join(segments, PathSep)[|segments[0]|] == PathSep;
    }
    SeparatorIsNotBlank(s.restorePrefix);
    SplitOfJoin(segments, PathSep);
  }

  /** A search path made only of separators has no first segment: construction fails. */
  lemma LocateSeparatorsOnly(s: Settings)
    requires s.restorePrefix == "/"
    ensures Locate(s) == Failure(NoBucketSegment)
  {
    assert Pieces("/", PathSep) == ["", ""];
  }

  // ---------------------------------------------------------------------------------------
  // What the catalogue yields

  /** The candidates of one page that have data on the date, in page order. */
  function FilterPage(store: ObjectStore, bucket: string, page: Page, datestr: string): (r: seq<string>)
    ensures forall p :: p in r <==> p in page && PathExistsForDate(store, bucket, p, datestr)
    ensures |r| <= |page|
  {
    if page == [] then []
    else
      var last := page[|page| - 1];
      FilterPage(store, bucket, page[..|page| - 1], datestr)
        + (if PathExistsForDate(store, bucket, last, datestr) then [last] else [])
  }

  /** The filtered pages, concatenated in page order. */
  function FilterPages(store: ObjectStore, bucket: string, pages: seq<Page>, datestr: string): seq<string>
  {
    if pages == [] then []
    else FilterPage(store, bucket, pages[0], datestr) + FilterPages(store, bucket, pages[1..], datestr)
  }

  /** Filtering pages one after another is filtering their concatenation. */
  lemma {:induction false} FilterPagesConcat(store: ObjectStore, bucket: string, a: seq<Page>, b: seq<Page>, datestr: string)
    ensures FilterPages(store, bucket, a + b, datestr)
      == FilterPages(store, bucket, a, datestr) + FilterPages(store, bucket, b, datestr)
  {
    if a == [] {
      assert a + b == b;
    } else {
      assert (a + b)[0] == a[0] && (a + b)[1..] == a[1..] + b;
      FilterPagesConcat(store, bucket, a[1..], b, datestr);
    }
  }

  /** A candidate is yielded exactly when some page lists it and it has data on the date. */
  lemma {:induction false} FilterPagesMembers(store: ObjectStore, bucket: string, pages: seq<Page>, datestr: string, p: string)
    ensures p in FilterPages(store, bucket, pages, datestr)
      <==> (exists i :: 0 <= i < |pages| && p in pages[i]) && PathExistsForDate(store, bucket, p, datestr)
  {
    if pages != [] {
      FilterPagesMembers(store, bucket, pages[1..], datestr, p);
      if exists i :: 1 <= i < |pages| && p in pages[i] {
        var i :| 1 <= i < |pages| && p in pages[i];
        assert pages[1..][i - 1] == pages[i];
      }
      if exists i :: 0 <= i < |pages[1..]| && p in pages[1..][i] {
        var i :| 0 <= i < |pages[1..]| && p in pages[1..][i];
        assert pages[i + 1] == pages[1..][i];
      }
    }
  }

  /**
   * The example of the catalogue's documentation: with keys `A/20240101/x` and `B/20240102/y`
   * and the candidates `A/` and `B/` on two pages, the date `20240101` yields `A/` once.
   */
  lemma TwoPageExample(bucket: string, clusterPath: string)
    ensures var store := ObjectStore(
        map[TokenListing(bucket, clusterPath) := [["A/"], ["B/"]]],
        map[bucket := {"A/20240101/x", "B/20240102/y"}]);
      FilterPages(store, bucket, Pages(store, TokenListing(bucket, clusterPath)), "20240101") == ["A/"]
  {
    var store := ObjectStore(
        map[TokenListing(bucket, clusterPath) := [["A/"], ["B/"]]],
        map[bucket := {"A/20240101/x", "B/20240102/y"}]);
    assert "A/" + "20240101" == "A/20240101" && "B/" + "20240101" == "B/20240101";
    assert "A/20240101/x"[..10] == "A/20240101";
    assert "A/20240101/x" in ObjectsUnder(store, bucket, "A/20240101");
    assert ObjectsUnder(store, bucket, "B/20240101") == {} by {
      assert "A/20240101/x"[..10][0] != "B/20240101"[0];
      assert "B/20240102/y"[..10][9] != "B/20240101"[9];
    }
    var pages := [["A/"], ["B/"]];
    assert Pages(store, TokenListing(bucket, clusterPath)) == pages;
    assert pages[1..] == [["B/"]] && pages[1..][1..] == [];
    assert ["A/"][..0] == [] && ["B/"][..0] == [];
    assert FilterPage(store, bucket, ["A/"], "20240101") == ["A/"];
    assert FilterPage(store, bucket, ["B/"], "20240101") == [];
    assert FilterPages(store, bucket, pages[1..][1..], "20240101") == [];
  }

  // ---------------------------------------------------------------------------------------
  // The iterator

  class PrefixIterator {
    const store: ObjectStore
    const bucket: string
    const clusterPath: string
    /** The formatted date the candidates are probed with. */
    const datestr: string
    /** Whether the token listing has been requested (`objectListing != null`). */
    var listed: bool
    /** The pages of the token listing. */
    var pages: seq<Page>
    /** The index of the current page (`objectListing`); it is truncated when it is not the last. */
    var cursor: nat
    /** The filtered candidates of the current page not yet yielded (`iterator`). */
    var buffer: seq<string>

    predicate Valid()
      reads this
    {
      listed && pages == Pages(store, TokenListing(bucket, clusterPath)) && cursor < |pages|
    }

    /** What the iterator still yields: the buffer, then the filtered pages not yet fetched. */
    function Remaining(): seq<string>
      reads this
      requires Valid()
    {
      buffer + FilterPages(store, bucket, pages[cursor + 1..], datestr)
    }

    /** The constructor after the search path is resolved: the first page is fetched eagerly. */
    constructor (store: ObjectStore, bucket: string, clusterPath: string, date: CalendarDate)
      ensures this.store == store && this.bucket == bucket && this.clusterPath == clusterPath
      ensures datestr == Yyyymmdd(date)
      ensures Valid() && cursor == 0
      ensures buffer == FilterPage(store, bucket, pages[0], datestr)
      ensures Remaining() == FilterPages(store, bucket, Pages(store, TokenListing(bucket, clusterPath)), datestr)
    {
      this.store := store;
      this.bucket := bucket;
      this.clusterPath := clusterPath;
      this.datestr := Yyyymmdd(date);
      listed := false;
      pages := [];
      cursor := 0;
      buffer := [];
      new;
      buffer := CreateIterator();
    }

    /** `initListing`: request the token listing with the cluster path and the delimiter. */
    method InitListing()
      modifies this
      ensures Valid() && cursor == 0
      ensures buffer == old(buffer)
    {
      pages := Pages(store, TokenListing(bucket, clusterPath));
      cursor := 0;
      listed := true;
    }

    /** `createIterator`: the filtered current page, requesting the listing first when needed. */
    method CreateIterator() returns (temp: seq<string>)
      requires listed ==> Valid()
      modifies this
      ensures Valid() && buffer == old(buffer)
      ensures old(listed) ==> cursor == old(cursor)
      ensures !old(listed) ==> cursor == 0
      ensures temp == FilterPage(store, bucket, pages[cursor], datestr)
    {
      if !listed {
        InitListing();
      }
      var page := pages[cursor];
      temp := [];
      var i := 0;
      while i < |page|
        invariant 0 <= i <= |page|
        invariant temp == FilterPage(store, bucket, page[..i], datestr)
      {
        assert page[..i + 1][..i] == page[..i];
        if PathExistsForDate(store, bucket, page[i], datestr) {
          temp := temp + [page[i]];
        }
        i := i + 1;
      }
      assert page[..i] == page;
    }

    /**
     * `hasNext`: true at once when the buffer holds something; otherwise fetches the next pages
     * while the listing is truncated and the buffer is empty. It never loses or repeats what is
     * still to come.
     */
    method HasNext() returns (b: bool)
      requires Valid()
      modifies this
      ensures Valid() && old(cursor) <= cursor
      ensures Remaining() == old(Remaining())
      ensures b == (buffer != [])
      ensures b == (Remaining() != [])
      ensures old(buffer) != [] ==> cursor == old(cursor) && buffer == old(buffer)
      ensures !b ==> cursor == |pages| - 1
    {
      if buffer != [] {
        return true;
      }
      while cursor + 1 < |pages| && buffer == []
        invariant Valid() && old(cursor) <= cursor
        invariant Remaining() == old(Remaining())
        decreases |pages| - cursor
      {
        ghost var rest := pages[cursor + 1..];
        assert rest == [pages[cursor + 1]] + pages[cursor + 2..];
        cursor := cursor + 1;
        buffer := CreateIterator();
      }
      b := buffer != [];
    }

    /** `next`: the head of the buffer; an empty buffer throws `NoSuchElementException` (`None`). */
    method Next() returns (r: Option<string>)
      requires Valid()
      modifies this
      ensures Valid() && cursor == old(cursor)
      ensures r.None? <==> old(buffer) == []
      ensures r.None? ==> buffer == old(buffer)
      ensures r.Some? ==> r.value == old(buffer)[0] && buffer == old(buffer)[1..]
      ensures r.Some? ==> old(Remaining()) == [r.value] + Remaining()
    {
      if buffer == [] {
        return None;
      }
      r := Some(buffer[0]);
      buffer := buffer[1..];
    }

    /** `remove`: does nothing. */
    method Remove()
      requires Valid()
      ensures Valid() && Remaining() == old(Remaining())
    {
    }

    /** A consumer's loop of `hasNext` and `next`: it receives everything still to come. */
    method Drain() returns (yielded: seq<string>)
      requires Valid()
      modifies this
      ensures Valid() && Remaining() == []
      ensures yielded == old(Remaining())
    {
      yielded := [];
      var more := HasNext();
      while more
        invariant Valid()
        invariant yielded + Remaining() == old(Remaining())
        invariant more == (buffer != []) && more == (Remaining() != [])
        decreases |Remaining()|
      {
        var x := Next();
        yielded := yielded + [x.value];
        more := HasNext();
      }
    }
  }

  /**
   * Opening the catalogue for a date (the constructor's path resolution) and draining it: a
   * malformed search path fails, and otherwise the result is the in-order concatenation of the
   * listing's filtered pages.
   */
  method ListPrefixes(s: Settings, store: ObjectStore, date: CalendarDate) returns (r: Result<seq<string>, OpenError>)
    ensures Locate(s).Failure? ==> r == Failure(Locate(s).error)
    ensures Locate(s).Success? ==> r == Success(FilterPages(store, Locate(s).value.0,
      Pages(store, TokenListing(Locate(s).value.0, Locate(s).value.1)), Yyyymmdd(date)))
  {
    var located := Locate(s);
    if located.Failure? {
      return Failure(located.error);
    }
    var (bucket, clusterPath) := located.value;
    var it := new PrefixIterator(store, bucket, clusterPath, date);
    var yielded := it.Drain();
    r := Success(yielded);
  }
}
