/**
 * What filesInDir (Lab2.c:53-116) collects: one FileInfo record per regular
 * file of the source tree, appended to a growable array in the order
 * readdir reports the entries, subdirectories first expanded in place.
 *
 * The directory tree stands in for opendir/readdir/realpath/stat: each
 * listing carries the real path of its directory and its entries in
 * readdir order, each regular file the outcome of stat, and each regular
 * file the outcome of the realloc that would make room for its record.
 */
module Records {
  import opened Wrappers
  import opened CStr
  import opened Names

  /** The record of Lab2.c:24-28: full path, entry name, size from stat. */
  datatype FileInfo = FileInfo(path: string, filename: string, size: int)

  /** One readdir entry: its d_name and what d_type and the oracles say of it. */
  datatype Entry = Entry(name: string, kind: Kind)

  datatype Kind =
    | Directory(listing: Dir)
      /** stat's st_size, None when stat fails; `grows`: whether realloc succeeds. */
    | Regular(stat: Option<int>, grows: bool)
      /** Any other d_type (symbolic link, device, socket, ...): ignored. */
    | Other

  datatype Dir =
      /** opendir, the path buffer's malloc or realpath failed: nothing is collected. */
    | Unavailable
    | Listing(realPath: string, entries: seq<Entry>)

  /** The full path built for an entry: realpath, "/", d_name (Lab2.c:75-80). */
  function FullPath(d: Dir, e: Entry): (p: string)
    requires d.Listing?
    ensures |p| == |d.realPath| + 1 + |e.name|
    ensures p[..|d.realPath| + 1] == d.realPath + "/" && p[|d.realPath| + 1..] == e.name
  {
    d.realPath + "/" + e.name
  }

  /** The test at Lab2.c:81: a directory other than "." and "..". */
  predicate Descends(e: Entry) {
    e.kind.Directory? && e.name != "." && e.name != ".."
  }

  /** The records a walk of d appends, in order. */
  function Walk(d: Dir): (r: seq<FileInfo>)
    ensures |r| <= RegularCount(d)
    decreases d, 1
  {
    match d
    case Unavailable => []
    case Listing(_, entries) => WalkEntries(d, |entries|)
  }

  /** The records appended while reading the first n entries of d. */
  function WalkEntries(d: Dir, n: nat): (r: seq<FileInfo>)
    requires d.Listing? && n <= |d.entries|
    ensures |r| <= RegularCountEntries(d, n)
    decreases d, 0, n
  {
    if n == 0 then []
    else
      var e := d.entries[n - 1];
      WalkEntries(d, n - 1) +
      (if Descends(e) then Walk(e.kind.listing)
       else if e.kind.Regular? && e.kind.stat.Some? && e.kind.grows
       then [FileInfo(FullPath(d, e), e.name, e.kind.stat.value)]
       else [])
  }

  // ------------------------------------------------------------ the array

  /** The array *files and its length *files_count. */
  class FileList {
    var items: seq<FileInfo>
    var count: nat

    predicate Valid()
      reads this
    {
      |items| == count
    }

    /** Both start out empty: files = NULL, files_count = 0 (Lab2.c:203-204). */
    constructor ()
      ensures Valid() && items == [] && count == 0
    {
      items := [];
      count := 0;
    }

    /**
     * Room for one more record (Lab2.c:93-107): the count is bumped before
     * realloc; when realloc fails (`grows` is false) the old array and the
     * old count come back, otherwise the new last record holds the path,
     * the name and the size, and the earlier records are untouched.
     */
    method Append(path: string, name: string, size: int, grows: bool) returns (ok: bool)
      requires Valid()
      modifies this
      ensures Valid()
      ensures ok == grows
      ensures ok ==> count == old(count) + 1 && items == old(items) + [FileInfo(path, name, size)]
      ensures ok ==> items[count - 1] == FileInfo(path, name, size) && items[..old(count)] == old(items)
      ensures !ok ==> count == old(count) && items == old(items)
    {
      var oldItems := items;
      count := count + 1;
      if !grows {
        items := oldItems;
        count := count - 1;
        return false;
      }
      items := oldItems + [FileInfo(path, name, size)];
      return true;
    }

    /**
     * filesInDir (Lab2.c:53-116): read the entries of d in order, descend
     * into subdirectories other than "." and "..", and append a record for
     * each regular file whose stat and realloc succeed.
     */
    method FilesInDir(d: Dir)
      requires Valid()
      modifies this
      ensures Valid()
      ensures items == old(items) + Walk(d)
      decreases d
    {
      if d.Unavailable? {
        return;
      }
      var i := 0;
      while i < |d.entries|
        invariant 0 <= i <= |d.entries|
        invariant Valid()
        invariant items == old(items) + WalkEntries(d, i)
      {
        var e := d.entries[i];
        var fullPath := FullPath(d, e);
        if Descends(e) {
          FilesInDir(e.kind.listing);
        }
        if e.kind.Regular? && e.kind.stat.Some? {
          var _ := Append(fullPath, e.name, e.kind.stat.value, e.kind.grows);
        }
        i := i + 1;
      }
    }
  }

  // ------------------------------------------------------------ properties

  /** The regular files a walk reaches, whether or not stat and realloc succeed. */
  function RegularCount(d: Dir): nat
    decreases d, 1
  {
    match d
    case Unavailable => 0
    case Listing(_, entries) => RegularCountEntries(d, |entries|)
  }

  function RegularCountEntries(d: Dir, n: nat): nat
    requires d.Listing? && n <= |d.entries|
    decreases d, 0, n
  {
    if n == 0 then 0
    else
      var e := d.entries[n - 1];
      RegularCountEntries(d, n - 1) +
      (if Descends(e) then RegularCount(e.kind.listing) else if e.kind.Regular? then 1 else 0)
  }

  /** Every stat and every realloc under d succeeds. */
  predicate AllSucceed(d: Dir)
    decreases d
  {
    d.Listing? ==>
      forall i :: 0 <= i < |d.entries| ==>
        var e := d.entries[i];
        (e.kind.Regular? ==> e.kind.stat.Some? && e.kind.grows) &&
        (Descends(e) ==> AllSucceed(e.kind.listing))
  }

  /**
   * Each record stands for one regular file: a walk never yields more
   * records than there are regular files, and exactly as many when stat
   * and realloc never fail.
   */
  lemma {:induction false} WalkCount(d: Dir)
    ensures |Walk(d)| <= RegularCount(d)
    ensures AllSucceed(d) ==> |Walk(d)| == RegularCount(d)
    decreases d, 1
  {
    if d.Listing? {
      WalkEntriesCount(d, |d.entries|);
    }
  }

  lemma {:induction false} WalkEntriesCount(d: Dir, n: nat)
    requires d.Listing? && n <= |d.entries|
    ensures |WalkEntries(d, n)| <= RegularCountEntries(d, n)
    ensures AllSucceed(d) ==> |WalkEntries(d, n)| == RegularCountEntries(d, n)
    decreases d, 0, n
  {
    if n > 0 {
      WalkEntriesCount(d, n - 1);
      var e := d.entries[n - 1];
      if Descends(e) {
        WalkCount(e.kind.listing);
      }
    }
  }

  /** No entry name under d holds a '/', as readdir guarantees. */
  predicate PlainNames(d: Dir)
    decreases d
  {
    d.Listing? ==>
      forall i :: 0 <= i < |d.entries| ==>
        var e := d.entries[i];
        '/' !in e.name && (Descends(e) ==> PlainNames(e.kind.listing))
  }

  /** Every record's file name is the basename of its path. */
  predicate NamedByPath(rs: seq<FileInfo>) {
    forall i :: 0 <= i < |rs| ==> Basename(rs[i].path) == rs[i].filename
  }

  lemma NamedByPathConcat(a: seq<FileInfo>, b: seq<FileInfo>)
    requires NamedByPath(a) && NamedByPath(b)
    ensures NamedByPath(a + b)
  {
    forall i | 0 <= i < |a + b| ensures Basename((a + b)[i].path) == (a + b)[i].filename {
      if i >= |a| {
        assert (a + b)[i] == b[i - |a|];
      }
    }
  }

  /** The record of one regular entry is named by its path. */
  lemma RecordNamed(d: Dir, e: Entry, r: FileInfo)
    requires d.Listing? && '/' !in e.name
    requires r.path == FullPath(d, e) && r.filename == e.name
    ensures NamedByPath([r])
  {
    BasenameOfJoin(d.realPath, e.name);
  }

  /** Every record built by a walk has its own entry name as the basename of its path. */
  lemma {:induction false} WalkRecordsNamed(d: Dir)
    requires PlainNames(d)
    ensures NamedByPath(Walk(d))
    decreases d, 1
  {
    if d.Listing? {
      WalkEntriesRecordsNamed(d, |d.entries|);
    }
  }

  lemma {:induction false} WalkEntriesRecordsNamed(d: Dir, n: nat)
    requires d.Listing? && n <= |d.entries| && PlainNames(d)
    ensures NamedByPath(WalkEntries(d, n))
    decreases d, 0, n
  {
    if n > 0 {
      WalkEntriesRecordsNamed(d, n - 1);
      var e := d.entries[n - 1];
      assert '/' !in e.name && (Descends(e) ==> PlainNames(e.kind.listing));
      if Descends(e) {
        WalkRecordsNamed(e.kind.listing);
        assert WalkEntries(d, n) == WalkEntries(d, n - 1) + Walk(e.kind.listing);
        NamedByPathConcat(WalkEntries(d, n - 1), Walk(e.kind.listing));
      } else if e.kind.Regular? && e.kind.stat.Some? && e.kind.grows {
        var r := FileInfo(FullPath(d, e), e.name, e.kind.stat.value);
        RecordNamed(d, e, r);
        assert WalkEntries(d, n) == WalkEntries(d, n - 1) + [r];
        NamedByPathConcat(WalkEntries(d, n - 1), [r]);
      } else {
        assert WalkEntries(d, n) == WalkEntries(d, n - 1) + [];
      }
    }
  }
}
