/**
 * main (Lab2.c:184-212): check the arguments, collect the records of the
 * source tree, sort them and copy them into the destination directory.
 */
module Program {
  import opened Wrappers
  import opened CStr
  import opened Names
  import opened Records
  import opened Ordering
  import opened Collision
  import opened Writer

  /**
   * One run of the program. `src` is the tree that argv[1] opens onto,
   * `outReal` the outcome of realpath on argv[3], and `disk` the
   * destination as it is when the copying starts. The exit status is 1
   * when the arguments are refused and 0 otherwise; the records are copied
   * in sorted order, a rearrangement of the records the walk collected.
   */
  method Run(argv: seq<string>, src: Dir, disk: Disk, outReal: Option<string>,
             unreadable: set<string>, unwritable: set<string>, fuel: nat)
    returns (status: int, log: seq<Outcome>, ghost sorted: seq<FileInfo>)
    requires forall i :: 0 <= i < |argv| ==> NoNul(argv[i])
    requires CNames(Walk(src))
    modifies disk
    ensures status == 0 || status == 1
    ensures status == 1 <==> !ParseArgs(argv).Parsed?
    ensures status == 1 ==> log == [] && disk.existing == old(disk.existing)
    ensures status == 0 ==>
      Sorted(ParseArgs(argv).sortType, sorted) && multiset(sorted) == multiset(Walk(src)) &&
      (outReal.None? ==> log == []) &&
      (outReal.Some? ==> log == WriteAll(Step, sorted, outReal.value, outReal.value + "/", old(disk.existing), unreadable, unwritable, fuel)) &&
      disk.existing == old(disk.existing) + Destinations(log)
  {
    sorted := [];
    var args := ParseArgs(argv);
    if !args.Parsed? {
      return 1, [], sorted;
    }
    var list := new FileList();
    list.FilesInDir(src);
    var items := list.items;
    var a := new FileInfo[|items|](i requires 0 <= i < |items| => items[i]);
    assert a[..] == Walk(src);
    Sort(a, args.sortType);
    sorted := a[..];
    log := disk.WriteFiles(a[..], outReal, unreadable, unwritable, fuel);
    status := 0;
  }
}
