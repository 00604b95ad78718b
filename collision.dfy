/**
 * How writeFiles (Lab2.c:126-144) picks a destination path that does not
 * exist yet: it starts from "<dir>/<filename>" and, while that path exists,
 * rewrites the tail of the path buffer one step at a time.
 */
module Collision {
  import opened Wrappers
  import opened CStr

  /** The test at Lab2.c:133: longer than 3 characters and ending in "<digit>]". */
  predicate EndsWithDigitBracket(p: string) {
    |p| > 3 && p[|p| - 1] == ']' && IsDigit(p[|p| - 2])
  }

  /**
   * One pass of the body of the while loop at Lab2.c:131-144. The last '['
   * is searched in the whole path, directory part included. When the text
   * after it reads as a nonzero number, "[N]" becomes "[N+1]"; when it reads
   * as 0, only the closing ']' is removed; when there is no '[', nothing
   * changes. A path without the "<digit>]" tail gets "[1]" appended.
   */
  function Step(p: string): (r: string)
    ensures !EndsWithDigitBracket(p) ==> r == p + "[1]"
    ensures EndsWithDigitBracket(p) && '[' !in p ==> r == p
    ensures EndsWithDigitBracket(p) && '[' in p ==>
      var b := StrRChr(p, '[').value; b < |p| - 2 && |r| > b + 1 && r[..b + 1] == p[..b + 1]
  {
    if EndsWithDigitBracket(p) then
      match StrRChr(p, '[')
      case None => p
      case Some(b) =>
        if b < |p| - 2 then Retag(p, b) else p
    else p + "[1]"
  }

  /**
   * The rewrite of a tail "[...]" whose '[' is at b: "[N]" becomes "[N+1]"
   * when atoi reads N as nonzero; otherwise the closing ']' goes.
   */
  function Retag(p: string, b: nat): (r: string)
    requires b < |p| - 2
    ensures |r| > b + 1 && r[..b + 1] == p[..b + 1]
  {
    var n := Atoi(p[b + 1..|p| - 1]);
    if n != 0 then
      var r := p[..b + 1] + IntToString(n + 1) + "]";
      assert r[..b + 1] == p[..b + 1];
      r
    else p[..|p| - 1]
  }

  /** A path with the numeric tag n: stem + "[" + n + "]". */
  function Tagged(stem: string, n: int): string {
    stem + "[" + IntToString(n) + "]"
  }

  /**
   * The candidate after k passes of the loop body `step`. The loop and the
   * lemmas about where it stops do not depend on what the step does, so
   * they take it as a parameter; writeFiles uses Step.
   */
  function Iterate(step: string -> string, p: string, k: nat): string
    decreases k
  {
    if k == 0 then p else Iterate(step, step(p), k - 1)
  }

  /**
   * The path the loop stops at, or None when it would need more than fuel
   * passes; `taken` is the set of paths for which access(F_OK) succeeds.
   */
  function Resolve(step: string -> string, p: string, taken: set<string>, fuel: nat): (r: Option<string>)
    ensures r.Some? ==> r.value !in taken
    decreases fuel
  {
    if p !in taken then Some(p)
    else if fuel == 0 then None
    else Resolve(step, step(p), taken, fuel - 1)
  }

  // ------------------------------------------------------ the single step

  /** The last '[' of stem + "[" + t + "]" is the one before t, when t has none. */
  lemma LastBracketOfTagged(stem: string, t: string)
    requires '[' !in t
    ensures StrRChr(stem + "[" + t + "]", '[') == Some(|stem|)
  {
    var a, b := stem + "[", t + "]";
    assert stem + "[" + t + "]" == a + b;
    assert '[' !in b;
    StrRChrConcat(a, b, '[');
    assert a[|a| - 1] == '[';
  }

  /**
   * A path that does not end in "<digit>]", or is at most 3 characters
   * long, gets "[1]" appended; when that path is taken too, the tag
   * becomes "[2]" (a.txt, a.txt[1], a.txt[2]).
   */
  lemma {:induction false} StepAppendsTag(p: string)
    requires !EndsWithDigitBracket(p)
    ensures Step(p) == p + "[1]"
    ensures |p| >= 1 ==> Step(Step(p)) == p + "[2]"
  {
    if |p| >= 1 {
      assert NatToDigits(1) == "1" && NatToDigits(2) == "2";
      assert Tagged(p, 1) == p + "[1]" && Tagged(p, 2) == p + "[2]";
      StepIncrementsTag(p, 1);
    }
  }

  /**
   * A tag "[N]" with N nonzero whose '[' is the last one in the path
   * becomes "[N+1]"; everything up to and including that '[' is kept.
   */
  lemma StepIncrementsTag(stem: string, n: int)
    requires n != 0
    requires |Tagged(stem, n)| > 3
    ensures Step(Tagged(stem, n)) == Tagged(stem, n + 1)
  {
    var d := IntToString(n);
    var p := Tagged(stem, n);
    IntToStringShape(n);
    LastBracketOfTagged(stem, d);
    assert p[|p| - 2] == d[|d| - 1];
    assert EndsWithDigitBracket(p);
    assert p[|stem| + 1..|p| - 1] == d;
    AtoiIntToString(n);
    assert p[..|stem| + 1] == stem + "[";
  }

  /**
   * A tag whose text reads as 0 under atoi ("[0]", "[00]", "[x7]") loses
   * its closing ']' and nothing else: "x[0]" becomes "x[0", which no longer
   * ends in ']', so the next pass appends "[1]".
   */
  lemma StepDropsBracketOfZeroTag(stem: string, t: string)
    requires '[' !in t && t != [] && IsDigit(t[|t| - 1])
    requires |stem| >= 1 && Atoi(t) == 0
    ensures Step(stem + "[" + t + "]") == stem + "[" + t
    ensures Step(stem + "[" + t) == stem + "[" + t + "[1]"
  {
    var q := stem + "[" + t;
    var p := q + "]";
    assert p == stem + "[" + t + "]";
    LastBracketOfTagged(stem, t);
    assert p[|p| - 2] == t[|t| - 1];
    assert p[|stem| + 1..|p| - 1] == t;
    StepOfZeroTag(p, |stem|);
    assert p[..|p| - 1] == q;
    assert q[|q| - 1] == t[|t| - 1];
    StepAppendsTag(q);
  }

  /** A tag that reads as 0 under atoi loses its closing ']'. */
  lemma StepOfZeroTag(p: string, b: nat)
    requires EndsWithDigitBracket(p) && StrRChr(p, '[') == Some(b) && b < |p| - 2
    requires Atoi(p[b + 1..|p| - 1]) == 0
    ensures Step(p) == p[..|p| - 1]
  {
  }

  /**
   * The guard brc_o < out_path + len - 2 (Lab2.c:135) never fails: once the
   * path ends in "<digit>]" its last '[' lies before that digit.  So a step
   * leaves the path unchanged exactly when it ends in "<digit>]", is longer
   * than 3 characters and holds no '[' at all.
   */
  lemma StepFixpoint(p: string)
    ensures EndsWithDigitBracket(p) && StrRChr(p, '[').Some? ==> StrRChr(p, '[').value < |p| - 2
    ensures Step(p) == p <==> EndsWithDigitBracket(p) && '[' !in p
  {
    if !EndsWithDigitBracket(p) {
      assert |Step(p)| == |p| + 3;
    } else if '[' in p {
      var b := StrRChr(p, '[').value;
      assert p[b] == '[';
      assert b < |p| - 2;
      if Atoi(p[b + 1..|p| - 1]) != 0 {
        StepOfNonzeroTag(p, b);
      } else {
        StepOfZeroTag(p, b);
      }
    }
  }

  /** A tag that reads as a nonzero number gets a different number. */
  lemma StepOfNonzeroTag(p: string, b: nat)
    requires EndsWithDigitBracket(p) && StrRChr(p, '[') == Some(b) && b < |p| - 2
    requires Atoi(p[b + 1..|p| - 1]) != 0
    ensures Step(p) != p
  {
    var n := Atoi(p[b + 1..|p| - 1]);
    var u := IntToString(n + 1);
    StepRetags(p, b);
    AtoiIntToString(n + 1);
    RetaggedDiffers(p, b, u);
  }

  /** A tag that reads as the nonzero number n becomes n + 1. */
  lemma StepRetags(p: string, b: nat)
    requires EndsWithDigitBracket(p) && StrRChr(p, '[') == Some(b) && b < |p| - 2
    requires Atoi(p[b + 1..|p| - 1]) != 0
    ensures Step(p) == p[..b + 1] + IntToString(Atoi(p[b + 1..|p| - 1]) + 1) + "]"
  {
    assert EndsWithDigitBracket(p);
    assert StrRChr(p, '[') == Some(b);
    assert Step(p) == Retag(p, b);
  }

  /** Replacing the text between p[b] and the last character by one that reads differently changes p. */
  lemma RetaggedDiffers(p: string, b: nat, u: string)
    requires b < |p| - 1 && Atoi(u) != Atoi(p[b + 1..|p| - 1])
    ensures p[..b + 1] + u + "]" != p
  {
  }

  /**
   * A step never touches a directory prefix that holds no '[' and ends in
   * '/': only the file-name part of the path is rewritten.
   */
  lemma StepKeepsDirectory(dir: string, p: string)
    requires '[' !in dir && |dir| >= 1 && dir[|dir| - 1] == '/'
    requires |p| >= |dir| && p[..|dir|] == dir
    ensures |Step(p)| >= |dir| && Step(p)[..|dir|] == dir
  {
    var r := Step(p);
    if !EndsWithDigitBracket(p) {
      assert r[..|dir|] == p[..|dir|];
    } else if '[' in p {
      var b := StrRChr(p, '[').value;
      assert b >= |dir|;
      assert r[..|dir|] == r[..b + 1][..|dir|];
    }
  }

  /**
   * When the directory part holds a '[' the guess is off: with the
   * directory "/t/[3" and "x5]" already taken there, the next candidate is
   * "/t/[4]", a file outside that directory.
   */
  lemma StepCanLeaveDirectory()
    ensures Step("/t/[3/x5]") == "/t/[4]"
  {
    var p := "/t/[3/x5]";
    SampleLastBracket();
    SampleTagValue();
    assert p[4..|p| - 1] == "3/x5";
    StepRetags(p, 3);
    assert NatToDigits(4) == "4";
    assert p[..4] == "/t/[";
  }

  lemma SampleLastBracket()
    ensures StrRChr("/t/[3/x5]", '[') == Some(3)
  {
    assert "/t/[3/x5]" == "/t/" + "[" + "3/x5" + "]";
    LastBracketOfTagged("/t/", "3/x5");
  }

  lemma SampleTagValue()
    ensures Atoi("3/x5") == 3
  {
    assert "3/x5"[1..] == "/x5";
    assert LeadingDigits("/x5") == "";
    assert LeadingDigits("3/x5") == "3";
  }

  // --------------------------------------------------------- the iteration

  lemma {:induction false} IterateLast(step: string -> string, p: string, k: nat)
    ensures Iterate(step, p, k + 1) == step(Iterate(step, p, k))
    decreases k
  {
    if k == 0 {
      assert Iterate(step, p, 1) == Iterate(step, step(p), 0);
    } else {
      IterateLast(step, step(p), k - 1);
    }
  }

  /** p lies under dir: it starts with it. */
  predicate Under(dir: string, p: string) {
    |p| >= |dir| && p[..|dir|] == dir
  }

  /** A step that keeps every path under dir under dir. */
  ghost predicate KeepsUnder(step: string -> string, dir: string) {
    forall p :: Under(dir, p) ==> Under(dir, step(p))
  }

  lemma {:induction false} IterateKeepsUnder(step: string -> string, dir: string, p: string, k: nat)
    requires KeepsUnder(step, dir) && Under(dir, p)
    ensures Under(dir, Iterate(step, p, k))
    decreases k
  {
    if k > 0 {
      IterateKeepsUnder(step, dir, step(p), k - 1);
    }
  }

  /** With a step that keeps paths under dir, the path the loop stops at is under dir too. */
  lemma {:induction false} ResolveKeepsUnder(step: string -> string, dir: string, p: string, taken: set<string>, fuel: nat)
    requires KeepsUnder(step, dir) && Under(dir, p)
    ensures Resolve(step, p, taken, fuel).Some? ==> Under(dir, Resolve(step, p, taken, fuel).value)
    decreases fuel
  {
    if p in taken && fuel > 0 {
      ResolveKeepsUnder(step, dir, step(p), taken, fuel - 1);
    }
  }

  /** The loop body keeps every path under a '['-free directory under it. */
  lemma StepKeepsUnder(dir: string)
    requires '[' !in dir && |dir| >= 1 && dir[|dir| - 1] == '/'
    ensures KeepsUnder(Step, dir)
  {
    forall p | Under(dir, p) ensures Under(dir, Step(p)) {
      StepKeepsDirectory(dir, p);
    }
  }

  /** Every candidate the loop visits stays inside a '['-free directory. */
  lemma IterateKeepsDirectory(dir: string, p: string, k: nat)
    requires '[' !in dir && |dir| >= 1 && dir[|dir| - 1] == '/'
    requires |p| >= |dir| && p[..|dir|] == dir
    ensures var q := Iterate(Step, p, k); |q| >= |dir| && q[..|dir|] == dir
  {
    StepKeepsUnder(dir);
    IterateKeepsUnder(Step, dir, p, k);
  }

  /**
   * From a start that does not end in "<digit>]" the loop visits the start
   * itself, then start[1], start[2], ... in this order.
   */
  lemma {:induction false} UntaggedIterates(start: string, k: nat)
    requires !EndsWithDigitBracket(start) && |start| >= 1
    ensures Iterate(Step, start, k) == if k == 0 then start else Tagged(start, k)
    decreases k
  {
    if k == 1 {
      assert NatToDigits(1) == "1";
      assert Iterate(Step, start, 1) == Step(start);
    } else if k > 1 {
      UntaggedIterates(start, k - 1);
      IterateLast(Step, start, k - 1);
      IntToStringShape(k - 1);
      StepIncrementsTag(start, k - 1);
    }
  }

  // ------------------------------------------------------------ the result

  /** The loop stops at the first candidate that is not taken. */
  lemma {:induction false} ResolveFindsFirstFree(step: string -> string, p: string, taken: set<string>, fuel: nat, k: nat)
    requires k <= fuel
    requires forall j :: 0 <= j < k ==> Iterate(step, p, j) in taken
    requires Iterate(step, p, k) !in taken
    ensures Resolve(step, p, taken, fuel) == Some(Iterate(step, p, k))
    decreases k
  {
    if k > 0 {
      assert Iterate(step, p, 0) in taken;
      forall j | 0 <= j < k - 1 ensures Iterate(step, step(p), j) in taken {
        assert Iterate(step, p, j + 1) in taken;
      }
      ResolveFindsFirstFree(step, step(p), taken, fuel - 1, k - 1);
    }
  }

  /** The first n + 1 candidates, the start included, all exist. */
  predicate AllTakenUpTo(step: string -> string, p: string, taken: set<string>, n: nat) {
    forall j :: 0 <= j <= n ==> Iterate(step, p, j) in taken
  }

  /** Running out of fuel means that every candidate up to the bound is taken. */
  lemma {:induction false} ResolveNone(step: string -> string, p: string, taken: set<string>, fuel: nat)
    ensures Resolve(step, p, taken, fuel).None? <==> AllTakenUpTo(step, p, taken, fuel)
    decreases fuel
  {
    assert Iterate(step, p, 0) == p;
    if p in taken && fuel > 0 {
      ResolveNone(step, step(p), taken, fuel - 1);
      assert Resolve(step, p, taken, fuel) == Resolve(step, step(p), taken, fuel - 1);
      if Resolve(step, p, taken, fuel).None? {
        forall j | 0 <= j <= fuel ensures Iterate(step, p, j) in taken {
          if j > 0 {
            assert Iterate(step, p, j) == Iterate(step, step(p), j - 1);
            assert Iterate(step, step(p), j - 1) in taken;
          }
        }
      } else {
        var j :| 0 <= j <= fuel - 1 && Iterate(step, step(p), j) !in taken;
        assert Iterate(step, p, j + 1) !in taken;
      }
    } else if p !in taken {
      assert Iterate(step, p, 0) !in taken;
    } else {
      forall j | 0 <= j <= fuel ensures Iterate(step, p, j) in taken {
        assert j == 0;
      }
    }
  }

  /** More fuel never changes a path that was found. */
  lemma {:induction false} ResolveFuelMonotone(step: string -> string, p: string, taken: set<string>, fuel: nat, more: nat)
    requires fuel <= more && Resolve(step, p, taken, fuel).Some?
    ensures Resolve(step, p, taken, more) == Resolve(step, p, taken, fuel)
    decreases fuel
  {
    if p in taken {
      ResolveFuelMonotone(step, step(p), taken, fuel - 1, more - 1);
    }
  }

  /**
   * A taken path that ends in "<digit>]" and holds no '[' is never left:
   * the loop at Lab2.c:131 does not terminate, whatever the fuel.
   */
  lemma {:induction false} ResolveStuck(p: string, taken: set<string>, fuel: nat)
    requires p in taken && EndsWithDigitBracket(p) && '[' !in p
    ensures Resolve(Step, p, taken, fuel) == None
    decreases fuel
  {
    StepFixpoint(p);
    if fuel > 0 {
      ResolveStuck(p, taken, fuel - 1);
    }
  }

  lemma TaggedInjective(stem: string, m: int, n: int)
    requires Tagged(stem, m) == Tagged(stem, n)
    ensures m == n
  {
    var a, b := Tagged(stem, m), Tagged(stem, n);
    assert a[|stem| + 1..|a| - 1] == IntToString(m);
    assert b[|stem| + 1..|b| - 1] == IntToString(n);
    IntToStringInjective(m, n);
  }

  /** The set of the first n candidates. */
  function Candidates(step: string -> string, p: string, n: nat): set<string> {
    set j | 0 <= j < n :: Iterate(step, p, j)
  }

  lemma CandidatesNext(step: string -> string, p: string, n: nat)
    ensures Candidates(step, p, n + 1) == Candidates(step, p, n) + {Iterate(step, p, n)}
  {
  }

  /** The first n candidates from an untagged start are n different paths. */
  lemma {:induction false} UntaggedCandidatesDistinct(start: string, n: nat)
    requires !EndsWithDigitBracket(start) && |start| >= 1
    ensures |Candidates(Step, start, n)| == n
    decreases n
  {
    if n == 0 {
      assert Candidates(Step, start, n) == {};
    } else {
      UntaggedCandidatesDistinct(start, n - 1);
      var prev := Candidates(Step, start, n - 1);
      var all := Candidates(Step, start, n);
      var last := Iterate(Step, start, n - 1);
      assert all == prev + {last};
      assert last !in prev by {
        if last in prev {
          var j :| 0 <= j < n - 1 && Iterate(Step, start, j) == last;
          UntaggedIterates(start, n - 1);
          UntaggedIterates(start, j);
          if j == 0 {
            assert false;
          } else {
            TaggedInjective(start, j, n - 1);
            assert false;
          }
        }
      }
      assert |all| == |prev| + 1;
    }
  }

  lemma {:induction false} SubsetCardinality(a: set<string>, b: set<string>)
    requires a <= b
    ensures |a| <= |b|
    decreases b
  {
    if b != {} {
      var x :| x in b;
      SubsetCardinality(a - {x}, b - {x});
    }
  }

  /**
   * From an untagged start the loop always terminates: with `taken` finite,
   * at most |taken| rewrites reach a free path.
   */
  lemma UntaggedResolves(start: string, taken: set<string>)
    requires !EndsWithDigitBracket(start) && |start| >= 1
    ensures Resolve(Step, start, taken, |taken|).Some?
  {
    if Resolve(Step, start, taken, |taken|).None? {
      ResolveNone(Step, start, taken, |taken|);
      var candidates := Candidates(Step, start, |taken| + 1);
      UntaggedCandidatesDistinct(start, |taken| + 1);
      forall x | x in candidates ensures x in taken {
        var j :| 0 <= j < |taken| + 1 && x == Iterate(Step, start, j);
      }
      SubsetCardinality(candidates, taken);
      assert false;
    }
  }

  /**
   * The first candidate of a pass (Lab2.c:126-130). The path buffer still
   * holds the path the previous pass settled on ("<dir>/" before the first
   * pass); a NUL is written at the length of "<dir>/" and the file name is
   * appended at the end of what is left, which is all of the buffer when
   * it is shorter than that. Only while the buffer still starts with
   * "<dir>/" is the candidate "<dir>/<filename>".
   */
  function FirstCandidate(outDir: string, buffer: string, filename: string): (p: string)
    ensures Under(outDir + "/", buffer) ==> p == outDir + "/" + filename
    ensures |buffer| <= |outDir| + 1 ==> p == buffer + filename
  {
    (if |buffer| <= |outDir| + 1 then buffer else buffer[..|outDir| + 1]) + filename
  }

  /**
   * Copying one name again and again: when the first k candidates of an
   * untagged start exist (the start, start[1], ..., start[k-1]), the loop
   * settles on start[k] after k rewrites. For a.txt this is a.txt, then
   * a.txt[1], then a.txt[2].
   */
  lemma NextCopyGetsNextTag(start: string, k: nat)
    requires !EndsWithDigitBracket(start) && |start| >= 1
    ensures Resolve(Step, start, Candidates(Step, start, k), k) == Some(if k == 0 then start else Tagged(start, k))
  {
    var taken := Candidates(Step, start, k);
    CandidatesNext(Step, start, k);
    UntaggedCandidatesDistinct(start, k);
    UntaggedCandidatesDistinct(start, k + 1);
    UntaggedIterates(start, k);
    forall j | 0 <= j < k ensures Iterate(Step, start, j) in taken {
    }
    ResolveFindsFirstFree(Step, start, taken, k, k);
  }

  // ---------------------------------------------------------------- the loop

  /**
   * The while loop at Lab2.c:131-144, rewriting the candidate in place
   * while access() reports it as existing; the loop is cut off after
   * `fuel` rewrites, where the C program would go on for ever.
   */
  method FindFreePath(start: string, taken: set<string>, fuel: nat) returns (r: Option<string>)
    ensures r == Resolve(Step, start, taken, fuel)
    ensures r.Some? ==> r.value !in taken
  {
    var outPath := start;
    var left := fuel;
    while outPath in taken && left > 0
      invariant Resolve(Step, outPath, taken, left) == Resolve(Step, start, taken, fuel)
      decreases left
    {
      outPath := Step(outPath);
      left := left - 1;
    }
    r := if outPath in taken then None else Some(outPath);
  }
}
