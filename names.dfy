/**
 * The small text helpers of Lab2.c: basename (Lab2.c:47-51), getSortType
 * (Lab2.c:172-182) and the argument check at the start of main
 * (Lab2.c:184-200).
 */
module Names {
  import opened Wrappers
  import opened CStr

  /** The values of the sortType enumeration (Lab2.c:18-21). */
  const BY_NAME: int := 0
  const BY_SIZE: int := 1

  /** The number of command-line words main insists on, the program name included. */
  const ARGS_COUNT: int := 4

  /**
   * basename: the text after the last '/', or the whole string when it
   * holds no '/'.
   */
  function Basename(s: string): (r: string)
    ensures '/' !in r
    ensures |r| <= |s| && s[|s| - |r|..] == r
    ensures '/' !in s ==> r == s
    ensures '/' in s ==> |r| < |s| && s[|s| - |r| - 1] == '/'
  {
    match StrRChr(s, '/')
    case None => s
    case Some(i) =>
      var t := s[i + 1..];
      assert forall k :: 0 <= k < |t| ==> t[k] == s[i + 1 + k];
      t
  }

  /** A path "<dir>/<name>" whose name holds no '/' has that name as its basename. */
  lemma BasenameOfJoin(dir: string, name: string)
    requires '/' !in name
    ensures Basename(dir + "/" + name) == name
  {
    var s := dir + "/" + name;
    assert s[|dir|] == '/';
    var i := StrRChr(s, '/').value;
    assert i >= |dir|;
    assert i == |dir|;
    assert s[i + 1..] == name;
  }

  /**
   * getSortType: "1" selects BY_SIZE, "2" selects BY_NAME, and every other
   * argument is refused with -1.
   */
  function GetSortType(param: string): (r: int)
    requires NoNul(param)
    ensures r == BY_SIZE <==> param == "1"
    ensures r == BY_NAME <==> param == "2"
    ensures r == -1 <==> param != "1" && param != "2"
  {
    if StrCmp(param, "1") == 0 then BY_SIZE
    else if StrCmp(param, "2") == 0 then BY_NAME
    else -1
  }

  /** How main reads its command line. */
  datatype Args =
    | WrongCount
    | InvalidSortType
    | Parsed(srcDir: string, sortType: int, destDir: string)

  /**
   * The checks main makes before any work (Lab2.c:187-200): exactly three
   * arguments after the program name, and a sort type that getSortType
   * accepts; argv[1] is the source and argv[3] the destination directory.
   */
  function ParseArgs(argv: seq<string>): (r: Args)
    requires forall i :: 0 <= i < |argv| ==> NoNul(argv[i])
    ensures r.WrongCount? <==> |argv| != ARGS_COUNT
    ensures r.InvalidSortType? <==> |argv| == ARGS_COUNT && argv[2] != "1" && argv[2] != "2"
    ensures r.Parsed? ==> r.srcDir == argv[1] && r.destDir == argv[3]
    ensures r.Parsed? ==> (r.sortType == BY_SIZE <==> argv[2] == "1")
    ensures r.Parsed? ==> (r.sortType == BY_NAME <==> argv[2] == "2")
  {
    if |argv| != ARGS_COUNT then WrongCount
    else
      var t := GetSortType(argv[2]);
      if t == -1 then InvalidSortType else Parsed(argv[1], t, argv[3])
  }
}
