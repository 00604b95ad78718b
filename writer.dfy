/**
 * writeFiles (Lab2.c:118-170): every record is copied, in array order, to
 * a path of its own, chosen by the collision loop of the Collision module
 * against the files that exist at that moment, the copies made so far
 * included.
 *
 * The path buffer out_path is shared by all passes: each pass cuts it back
 * to the length of "<dir>/" and appends the record's file name, so
 * whatever an earlier collision loop rewrote inside that length is kept.
 * While the destination's real path holds no '[' nothing is ever rewritten
 * there and every destination lies in the destination directory.
 *
 * The file system is a set of existing paths; whether a source opens for
 * reading and whether a destination opens for writing are given as sets
 * of the paths for which fopen fails.
 */
module Writer {
  import opened Wrappers
  import opened CStr
  import opened Collision
  import opened Records

  /** What happens to one record. */
  datatype Outcome =
      /** Both files opened: dst now exists and holds the copy. */
    | Copied(src: string, dst: string)
      /** fopen(src, "r") failed (Lab2.c:145-149): nothing is created. */
    | ReadFailed(src: string, dst: string)
      /** fopen(dst, "w+") failed (Lab2.c:150-155): nothing is created. */
    | WriteFailed(src: string, dst: string)
      /** Every candidate within the fuel bound exists: the C loop spins for ever. */
    | Hung(src: string)

  /**
   * One pass of the for loop at Lab2.c:128-168 for the record f, with the
   * path buffer holding outPath, over a disk where `existing` exists.
   */
  function Next(step: string -> string, f: FileInfo, outDir: string, outPath: string, existing: set<string>,
                unreadable: set<string>, unwritable: set<string>, fuel: nat): (o: Outcome)
    ensures o.src == f.path
    ensures !o.Hung? ==> o.dst !in existing
  {
    match Resolve(step, FirstCandidate(outDir, outPath, f.filename), existing, fuel)
    case None => Hung(f.path)
    case Some(dst) =>
      if f.path in unreadable then ReadFailed(f.path, dst)
      else if dst in unwritable then WriteFailed(f.path, dst)
      else Copied(f.path, dst)
  }

  /** The disk after an outcome: a copy adds its destination. */
  function After(existing: set<string>, o: Outcome): set<string> {
    if o.Copied? then existing + {o.dst} else existing
  }

  /**
   * The outcomes of copying `files` with the destination's real path
   * outDir (without its trailing '/'), the path buffer holding outPath, over
   * a disk where `existing` exists. After a pass the buffer holds the path
   * that pass settled on, whether or not the copy succeeded; the run ends
   * at the first record whose collision loop hangs.
   */
  function WriteAll(step: string -> string, files: seq<FileInfo>, outDir: string, outPath: string,
                    existing: set<string>, unreadable: set<string>, unwritable: set<string>, fuel: nat): (log: seq<Outcome>)
    ensures |log| <= |files|
    decreases |files|
  {
    if files == [] then []
    else
      var o := Next(step, files[0], outDir, outPath, existing, unreadable, unwritable, fuel);
      if o.Hung? then [o]
      else [o] + WriteAll(step, files[1..], outDir, o.dst, After(existing, o), unreadable, unwritable, fuel)
  }

  /** The first record of a run that does not hang is followed by the run over the rest. */
  lemma WriteAllCons(step: string -> string, files: seq<FileInfo>, outDir: string, outPath: string,
                     existing: set<string>, unreadable: set<string>, unwritable: set<string>, fuel: nat)
    requires files != []
    requires !Next(step, files[0], outDir, outPath, existing, unreadable, unwritable, fuel).Hung?
    ensures var o := Next(step, files[0], outDir, outPath, existing, unreadable, unwritable, fuel);
      WriteAll(step, files, outDir, outPath, existing, unreadable, unwritable, fuel) ==
      [o] + WriteAll(step, files[1..], outDir, o.dst, After(existing, o), unreadable, unwritable, fuel)
  {
  }

  /** The paths a log of outcomes has created. */
  function Destinations(log: seq<Outcome>): set<string> {
    if log == [] then {}
    else
      var o := log[|log| - 1];
      Destinations(log[..|log| - 1]) + (if o.Copied? then {o.dst} else {})
  }

  /** WriteAll from record i on: the outcome of record i, then the rest. */
  lemma WriteAllFrom(step: string -> string, files: seq<FileInfo>, i: nat, outDir: string, outPath: string,
                     existing: set<string>, unreadable: set<string>, unwritable: set<string>, fuel: nat)
    requires i < |files|
    ensures var o := Next(step, files[i], outDir, outPath, existing, unreadable, unwritable, fuel);
      WriteAll(step, files[i..], outDir, outPath, existing, unreadable, unwritable, fuel) ==
        if o.Hung? then [o]
        else [o] + WriteAll(step, files[i + 1..], outDir, o.dst, After(existing, o), unreadable, unwritable, fuel)
  {
    assert files[i..][0] == files[i] && files[i..][1..] == files[i + 1..];
  }

  lemma DestinationsAppend(log: seq<Outcome>, o: Outcome)
    ensures Destinations(log + [o]) == After(Destinations(log), o)
  {
    assert (log + [o])[..|log|] == log;
  }

  lemma {:induction false} DestinationsConcat(a: seq<Outcome>, b: seq<Outcome>)
    ensures Destinations(a + b) == Destinations(a) + Destinations(b)
    decreases |b|
  {
    if b != [] {
      var c := b[..|b| - 1];
      DestinationsConcat(a, c);
      assert a + b == (a + c) + [b[|b| - 1]];
      DestinationsAppend(a + c, b[|b| - 1]);
      DestinationsAppend(c, b[|b| - 1]);
      assert c + [b[|b| - 1]] == b;
    } else {
      assert a + b == a;
    }
  }

  // ------------------------------------------------------------ properties

  /**
   * The run handles the records in order, one outcome each, and stops
   * only at a record whose collision loop hangs.
   */
  lemma {:induction false} WriteAllShape(step: string -> string, files: seq<FileInfo>, outDir: string, outPath: string,
                                         existing: set<string>, unreadable: set<string>, unwritable: set<string>, fuel: nat)
    ensures var log := WriteAll(step, files, outDir, outPath, existing, unreadable, unwritable, fuel);
      (forall i :: 0 <= i < |log| ==> log[i].src == files[i].path) &&
      (forall i :: 0 <= i < |log| - 1 ==> !log[i].Hung?) &&
      (|log| == |files| || log[|log| - 1].Hung?)
    decreases |files|
  {
    if files != [] {
      var o := Next(step, files[0], outDir, outPath, existing, unreadable, unwritable, fuel);
      if !o.Hung? {
        var rest := WriteAll(step, files[1..], outDir, o.dst, After(existing, o), unreadable, unwritable, fuel);
        WriteAllShape(step, files[1..], outDir, o.dst, After(existing, o), unreadable, unwritable, fuel);
        var log := [o] + rest;
        assert WriteAll(step, files, outDir, outPath, existing, unreadable, unwritable, fuel) == log;
        forall i | 0 < i < |log| ensures log[i] == rest[i - 1] && files[i] == files[1..][i - 1] {
        }
      }
    }
  }

  /**
   * No copy overwrites anything: every destination the run settles on
   * was neither on the disk at the start nor written earlier in the run.
   */
  predicate FreshDestinations(log: seq<Outcome>, existing: set<string>) {
    forall i :: 0 <= i < |log| && !log[i].Hung? ==> log[i].dst !in existing + Destinations(log[..i])
  }

  lemma {:induction false} WriteAllFresh(step: string -> string, files: seq<FileInfo>, outDir: string, outPath: string,
                                         existing: set<string>, unreadable: set<string>, unwritable: set<string>, fuel: nat)
    ensures FreshDestinations(WriteAll(step, files, outDir, outPath, existing, unreadable, unwritable, fuel), existing)
    decreases |files|
  {
    if files != [] {
      var o := Next(step, files[0], outDir, outPath, existing, unreadable, unwritable, fuel);
      var log := WriteAll(step, files, outDir, outPath, existing, unreadable, unwritable, fuel);
      assert Destinations(log[..0]) == {};
      if !o.Hung? {
        var after := After(existing, o);
        var rest := WriteAll(step, files[1..], outDir, o.dst, after, unreadable, unwritable, fuel);
        WriteAllFresh(step, files[1..], outDir, o.dst, after, unreadable, unwritable, fuel);
        assert log == [o] + rest;
        forall i | 0 < i < |log| && !log[i].Hung? ensures log[i].dst !in existing + Destinations(log[..i]) {
          assert log[i] == rest[i - 1];
          assert log[..i] == [o] + rest[..i - 1];
          DestinationsConcat([o], rest[..i - 1]);
          DestinationsAppend([], o);
          assert [] + [o] == [o];
        }
      } else {
        assert log == [o];
      }
    }
  }

  /** "<dir>/<name>" lies under "<dir>/". */
  lemma UnderJoin(outDir: string, name: string)
    ensures Under(outDir + "/", outDir + "/" + name)
  {
    assert (outDir + "/" + name)[..|outDir| + 1] == outDir + "/";
  }

  /**
   * With a loop body that never rewrites "<dir>/" (Collision.StepKeepsUnder:
   * a destination whose real path holds no '['), every pass starts from
   * "<dir>/<filename>" and every destination lies in the destination
   * directory.
   */
  lemma {:induction false} WriteAllStaysInside(step: string -> string, files: seq<FileInfo>, outDir: string, outPath: string,
                                               existing: set<string>, unreadable: set<string>, unwritable: set<string>, fuel: nat)
    requires KeepsUnder(step, outDir + "/") && Under(outDir + "/", outPath)
    ensures var log := WriteAll(step, files, outDir, outPath, existing, unreadable, unwritable, fuel);
      forall i :: 0 <= i < |log| && !log[i].Hung? ==> Under(outDir + "/", log[i].dst)
    decreases |files|
  {
    if files != [] {
      var start := FirstCandidate(outDir, outPath, files[0].filename);
      UnderJoin(outDir, files[0].filename);
      ResolveKeepsUnder(step, outDir + "/", start, existing, fuel);
      var o := Next(step, files[0], outDir, outPath, existing, unreadable, unwritable, fuel);
      if !o.Hung? {
        var after := After(existing, o);
        WriteAllStaysInside(step, files[1..], outDir, o.dst, after, unreadable, unwritable, fuel);
        var rest := WriteAll(step, files[1..], outDir, o.dst, after, unreadable, unwritable, fuel);
        var log := [o] + rest;
        WriteAllCons(step, files, outDir, outPath, existing, unreadable, unwritable, fuel);
        forall i | 0 < i < |log| && !log[i].Hung? ensures Under(outDir + "/", log[i].dst) {
          assert log[i] == rest[i - 1];
        }
      }
    }
  }

  /**
   * When the destination's real path holds no '[' and no "<dir>/<filename>"
   * ends in "<digit>]", every record's collision loop terminates, within
   * |existing| + |files| rewrites.
   */
  lemma {:induction false} WriteAllTerminates(files: seq<FileInfo>, outDir: string, outPath: string, existing: set<string>,
                                              unreadable: set<string>, unwritable: set<string>, fuel: nat)
    requires '[' !in outDir && Under(outDir + "/", outPath)
    requires forall i :: 0 <= i < |files| ==> !EndsWithDigitBracket(outDir + "/" + files[i].filename)
    requires fuel >= |existing| + |files|
    ensures var log := WriteAll(Step, files, outDir, outPath, existing, unreadable, unwritable, fuel);
      |log| == |files| && forall i :: 0 <= i < |log| ==> !log[i].Hung?
    decreases |files|
  {
    if files != [] {
      var dir := outDir + "/";
      assert '[' !in dir;
      StepKeepsUnder(dir);
      var start := FirstCandidate(outDir, outPath, files[0].filename);
      assert start == dir + files[0].filename;
      UntaggedResolves(start, existing);
      ResolveFuelMonotone(Step, start, existing, |existing|, fuel);
      UnderJoin(outDir, files[0].filename);
      ResolveKeepsUnder(Step, dir, start, existing, fuel);
      var o := Next(Step, files[0], outDir, outPath, existing, unreadable, unwritable, fuel);
      assert !o.Hung?;
      var after := After(existing, o);
      assert |after| <= |existing| + 1;
      forall i | 0 <= i < |files[1..]| ensures !EndsWithDigitBracket(outDir + "/" + files[1..][i].filename) {
        assert files[1..][i] == files[i + 1];
      }
      WriteAllTerminates(files[1..], outDir, o.dst, after, unreadable, unwritable, fuel);
      var rest := WriteAll(Step, files[1..], outDir, o.dst, after, unreadable, unwritable, fuel);
      var log := [o] + rest;
      assert WriteAll(Step, files, outDir, outPath, existing, unreadable, unwritable, fuel) == log;
      forall i | 0 < i < |log| ensures !log[i].Hung? {
        assert log[i] == rest[i - 1];
      }
    }
  }

  /**
   * The first `count` candidates from start, taken one after another:
   * with candidates 0 .. k-1 on the disk, the loop settles on candidate k.
   */
  predicate SettlesInTurn(step: string -> string, start: string, m: nat, count: nat, fuel: nat) {
    forall k :: m <= k < m + count ==>
      Resolve(step, start, Candidates(step, start, k), fuel) == Some(Iterate(step, start, k))
  }

  /**
   * Records that share one name land on its successive candidates in
   * array order: with a loop body that never rewrites "<dir>/" and
   * candidates 0 .. m-1 already on the disk, record i is copied to
   * candidate m + i.
   */
  lemma {:induction false} WriteAllSameName(step: string -> string, files: seq<FileInfo>, outDir: string, outPath: string,
                                            name: string, m: nat, fuel: nat)
    requires forall i :: 0 <= i < |files| ==> files[i].filename == name
    requires KeepsUnder(step, outDir + "/") && Under(outDir + "/", outPath)
    requires SettlesInTurn(step, outDir + "/" + name, m, |files|, fuel)
    ensures var start := outDir + "/" + name;
      CopiedInTurn(WriteAll(step, files, outDir, outPath, Candidates(step, start, m), {}, {}, fuel), files, step, start, m)
    decreases |files|
  {
    var start := outDir + "/" + name;
    if files != [] {
      var taken := Candidates(step, start, m);
      var dst := Iterate(step, start, m);
      assert Resolve(step, start, taken, fuel) == Some(dst);
      SameNameHead(step, files[0], outDir, outPath, name, m, fuel);
      forall i | 0 <= i < |files[1..]| ensures files[1..][i].filename == name {
        assert files[1..][i] == files[i + 1];
      }
      assert SettlesInTurn(step, start, m + 1, |files[1..]|, fuel);
      WriteAllSameName(step, files[1..], outDir, dst, name, m + 1, fuel);
      var rest := WriteAll(step, files[1..], outDir, dst, Candidates(step, start, m + 1), {}, {}, fuel);
      WriteAllCons(step, files, outDir, outPath, taken, {}, {}, fuel);
      var log := [Copied(files[0].path, dst)] + rest;
      assert WriteAll(step, files, outDir, outPath, taken, {}, {}, fuel) == log;
      CopiesShift(step, files, start, m, rest);
    } else {
      assert WriteAll(step, files, outDir, outPath, Candidates(step, start, m), {}, {}, fuel) == [];
    }
  }

  /** Record i of the log is the copy of files[i] to candidate m + i. */
  predicate CopiedInTurn(log: seq<Outcome>, files: seq<FileInfo>, step: string -> string, start: string, m: nat) {
    |log| == |files| &&
    forall i :: 0 <= i < |log| ==> log[i] == Copied(files[i].path, Iterate(step, start, m + i))
  }

  /** One record of the name: copied to candidate m, which then exists and stays under "<dir>/". */
  lemma SameNameHead(step: string -> string, f: FileInfo, outDir: string, outPath: string,
                     name: string, m: nat, fuel: nat)
    requires f.filename == name
    requires KeepsUnder(step, outDir + "/") && Under(outDir + "/", outPath)
    requires Resolve(step, outDir + "/" + name, Candidates(step, outDir + "/" + name, m), fuel) ==
      Some(Iterate(step, outDir + "/" + name, m))
    ensures var start := outDir + "/" + name;
      var o := Copied(f.path, Iterate(step, start, m));
      Next(step, f, outDir, outPath, Candidates(step, start, m), {}, {}, fuel) == o &&
      After(Candidates(step, start, m), o) == Candidates(step, start, m + 1) &&
      Under(outDir + "/", o.dst)
  {
    var start := outDir + "/" + name;
    assert FirstCandidate(outDir, outPath, name) == start;
    CandidatesNext(step, start, m);
    UnderJoin(outDir, name);
    IterateKeepsUnder(step, outDir + "/", start, m);
  }

  /** Putting the copy to candidate m in front of the copies to m + 1, m + 2, ... */
  lemma CopiesShift(step: string -> string, files: seq<FileInfo>, start: string, m: nat, rest: seq<Outcome>)
    requires files != [] && CopiedInTurn(rest, files[1..], step, start, m + 1)
    ensures CopiedInTurn([Copied(files[0].path, Iterate(step, start, m))] + rest, files, step, start, m)
  {
    var log := [Copied(files[0].path, Iterate(step, start, m))] + rest;
    forall i | 0 < i < |log| ensures log[i] == Copied(files[i].path, Iterate(step, start, m + i)) {
      assert log[i] == rest[i - 1] && files[i] == files[1..][i - 1];
      assert rest[i - 1] == Copied(files[1..][i - 1].path, Iterate(step, start, m + 1 + (i - 1)));
      assert m + 1 + (i - 1) == m + i;
    }
  }

  /** Untagged names settle in turn with enough fuel. */
  lemma UntaggedSettlesInTurn(start: string, count: nat, fuel: nat)
    requires !EndsWithDigitBracket(start) && |start| >= 1
    requires fuel >= count
    ensures SettlesInTurn(Step, start, 0, count, fuel)
  {
    forall k | 0 <= k < count
      ensures Resolve(Step, start, Candidates(Step, start, k), fuel) == Some(Iterate(Step, start, k))
    {
      NextCopyGetsNextTag(start, k);
      UntaggedIterates(start, k);
      ResolveFuelMonotone(Step, start, Candidates(Step, start, k), k, fuel);
    }
  }

  /**
   * In the program's own terms: from an empty disk, with a destination
   * whose real path holds no '[', the k-th record that bears a name
   * (counting from 0) is copied to name[k], the first to the name itself.
   * Three records called a.txt, copied into an empty /out, become
   * /out/a.txt, /out/a.txt[1] and /out/a.txt[2].
   */
  lemma WriteAllSameNameTags(files: seq<FileInfo>, outDir: string, outPath: string, name: string, fuel: nat)
    requires forall i :: 0 <= i < |files| ==> files[i].filename == name
    requires '[' !in outDir && Under(outDir + "/", outPath)
    requires !EndsWithDigitBracket(outDir + "/" + name)
    requires fuel >= |files|
    ensures var start := outDir + "/" + name;
      var log := WriteAll(Step, files, outDir, outPath, {}, {}, {}, fuel);
      |log| == |files| &&
      forall i :: 0 <= i < |log| ==> log[i] == Copied(files[i].path, if i == 0 then start else Tagged(start, i))
  {
    var start := outDir + "/" + name;
    assert Candidates(Step, start, 0) == {};
    assert '[' !in outDir + "/";
    StepKeepsUnder(outDir + "/");
    UntaggedSettlesInTurn(start, |files|, fuel);
    WriteAllSameName(Step, files, outDir, outPath, name, 0, fuel);
    var log := WriteAll(Step, files, outDir, outPath, {}, {}, {}, fuel);
    assert CopiedInTurn(log, files, Step, start, 0);
    forall i | 0 <= i < |log| ensures log[i] == Copied(files[i].path, if i == 0 then start else Tagged(start, i)) {
      assert log[i] == Copied(files[i].path, Iterate(Step, start, 0 + i));
      UntaggedIterates(start, i);
    }
  }

  /**
   * A '[' in the destination's real path lets a rewrite reach into "<dir>/"
   * (Collision.StepCanLeaveDirectory), and the next record then starts
   * from what the rewrite left: with the destination /t/[3 holding x5],
   * copying x5] and then y gives /t/[4] and then /t/[4]y.
   */
  lemma RewrittenPrefixCarriesOver(fuel: nat)
    requires fuel >= 1
    ensures var files := [FileInfo("/s/x5]", "x5]", 0), FileInfo("/s/y", "y", 0)];
      WriteAll(Step, files, "/t/[3", "/t/[3/", {"/t/[3/x5]"}, {}, {}, fuel) ==
      [Copied("/s/x5]", "/t/[4]"), Copied("/s/y", "/t/[4]y")]
  {
    StepCanLeaveDirectory();
    CarryOver(Step, fuel);
  }

  /** RewrittenPrefixCarriesOver for any step that takes /t/[3/x5] to /t/[4]. */
  lemma CarryOver(step: string -> string, fuel: nat)
    requires fuel >= 1 && step("/t/[3/x5]") == "/t/[4]"
    ensures var files := [FileInfo("/s/x5]", "x5]", 0), FileInfo("/s/y", "y", 0)];
      WriteAll(step, files, "/t/[3", "/t/[3/", {"/t/[3/x5]"}, {}, {}, fuel) ==
      [Copied("/s/x5]", "/t/[4]"), Copied("/s/y", "/t/[4]y")]
  {
    var files := [FileInfo("/s/x5]", "x5]", 0), FileInfo("/s/y", "y", 0)];
    var taken := {"/t/[3/x5]"};
    CarryOverFirst(step, fuel);
    var rest := files[1..];
    assert rest == [FileInfo("/s/y", "y", 0)];
    CarryOverSecond(step, fuel);
    WriteAllCons(step, rest, "/t/[3", "/t/[4]", taken + {"/t/[4]"}, {}, {}, fuel);
    assert rest[1..] == [];
    assert WriteAll(step, rest, "/t/[3", "/t/[4]", taken + {"/t/[4]"}, {}, {}, fuel) == [Copied("/s/y", "/t/[4]y")];
    WriteAllCons(step, files, "/t/[3", "/t/[3/", taken, {}, {}, fuel);
  }

  /**
   * The first pass of RewrittenPrefixCarriesOver: x5] is taken, so the loop
   * moves on to the path one step gives, /t/[4] for Step.
   */
  lemma CarryOverFirst(step: string -> string, fuel: nat)
    requires fuel >= 1 && step("/t/[3/x5]") == "/t/[4]"
    ensures Next(step, FileInfo("/s/x5]", "x5]", 0), "/t/[3", "/t/[3/", {"/t/[3/x5]"}, {}, {}, fuel) ==
      Copied("/s/x5]", "/t/[4]")
  {
    var taken := {"/t/[3/x5]"};
    assert FirstCandidate("/t/[3", "/t/[3/", "x5]") == "/t/[3/x5]";
    assert Resolve(step, "/t/[3/x5]", taken, fuel) == Resolve(step, "/t/[4]", taken, fuel - 1);
    assert "/t/[4]" !in taken;
  }

  /** The second pass of RewrittenPrefixCarriesOver: y is appended to the rewritten buffer. */
  lemma CarryOverSecond(step: string -> string, fuel: nat)
    ensures Next(step, FileInfo("/s/y", "y", 0), "/t/[3", "/t/[4]", {"/t/[3/x5]", "/t/[4]"}, {}, {}, fuel) ==
      Copied("/s/y", "/t/[4]y")
  {
    assert FirstCandidate("/t/[3", "/t/[4]", "y") == "/t/[4]y";
    assert "/t/[4]y" !in {"/t/[3/x5]", "/t/[4]"};
  }

  lemma ConcatAssoc(a: seq<Outcome>, b: seq<Outcome>, c: seq<Outcome>)
    ensures (a + b) + c == a + (b + c)
  {
  }

  /** The destination directory as the C program sees it. */
  class Disk {
    var existing: set<string>

    constructor (existing: set<string>)
      ensures this.existing == existing
    {
      this.existing := existing;
    }

    /**
     * writeFiles: nothing happens when realpath of the destination fails
     * (`outReal` is None); otherwise the path buffer starts as "<dir>/",
     * each record goes through the collision loop and the two fopen calls,
     * the buffer keeps the path the loop settled on, and each successful
     * copy adds its destination to the disk.
     */
    method WriteFiles(files: seq<FileInfo>, outReal: Option<string>,
                      unreadable: set<string>, unwritable: set<string>, fuel: nat)
      returns (log: seq<Outcome>)
      modifies this
      ensures outReal.None? ==> log == []
      ensures outReal.Some? ==>
        log == WriteAll(Step, files, outReal.value, outReal.value + "/", old(existing), unreadable, unwritable, fuel)
      ensures existing == old(existing) + Destinations(log)
    {
      log := [];
      if outReal.None? {
        return;
      }
      var outDir := outReal.value;
      var outPath := outDir + "/";
      ghost var all := WriteAll(Step, files, outDir, outPath, existing, unreadable, unwritable, fuel);
      var i := 0;
      while i < |files|
        invariant 0 <= i <= |files|
        invariant log + WriteAll(Step, files[i..], outDir, outPath, existing, unreadable, unwritable, fuel) == all
        invariant existing == old(existing) + Destinations(log)
      {
        ghost var rest := WriteAll(Step, files[i..], outDir, outPath, existing, unreadable, unwritable, fuel);
        WriteAllFrom(Step, files, i, outDir, outPath, existing, unreadable, unwritable, fuel);
        var o := CopyOne(files[i], outDir, outPath, unreadable, unwritable, fuel);
        DestinationsAppend(log, o);
        ghost var prev := log;
        log := log + [o];
        if o.Hung? {
          assert rest == [o];
          return;
        }
        outPath := o.dst;
        ConcatAssoc(prev, [o], WriteAll(Step, files[i + 1..], outDir, outPath, existing, unreadable, unwritable, fuel));
        i := i + 1;
      }
      assert files[i..] == [];
    }

    /**
     * The body of the for loop at Lab2.c:129-167: cut the path buffer
     * back and append the file name, run the collision loop against the
     * disk, open the source and the destination; a successful copy
     * creates the destination.
     */
    method CopyOne(f: FileInfo, outDir: string, outPath: string, unreadable: set<string>, unwritable: set<string>, fuel: nat)
      returns (o: Outcome)
      modifies this
      ensures o == Next(Step, f, outDir, outPath, old(existing), unreadable, unwritable, fuel)
      ensures existing == After(old(existing), o)
    {
      var found := FindFreePath(FirstCandidate(outDir, outPath, f.filename), existing, fuel);
      if found.None? {
        o := Hung(f.path);
      } else if f.path in unreadable {
        o := ReadFailed(f.path, found.value);
      } else if found.value in unwritable {
        o := WriteFailed(f.path, found.value);
      } else {
        o := Copied(f.path, found.value);
        existing := existing + {found.value};
      }
    }
  }
}
