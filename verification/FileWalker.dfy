/** internal/aghos/filewalker.go: walking the files matched by patterns, where a walked file
    can name further patterns. */
module FileWalker {
  import opened Net

  type Path = string
  type Pattern = string

  /** What opening a path leads to.  `closeFails` is an error of closing the opened file. */
  datatype Entry =
    | Missing
    | OpenFails
    | StatFails(closeFails: bool)
    | Directory(closeFails: bool)
    | File(patterns: seq<Pattern>, cont: bool, fails: bool, closeFails: bool)

  /** A finite file system together with what the walker answers for each file.  A malformed
      pattern matches None. */
  datatype RawFs = Fs(paths: set<Path>, entries: map<Path, Entry>, glob: Pattern -> Option<seq<Path>>)

  ghost predicate Finite(fs: RawFs) {
    && fs.paths == fs.entries.Keys
    && forall p, i :: fs.glob(p).Some? && 0 <= i < |fs.glob(p).value| ==> fs.glob(p).value[i] in fs.paths
  }

  type Fs = fs: RawFs | Finite(fs) witness Fs({}, map[], (p: Pattern) => None)

  datatype Checked = Checked(patterns: seq<Pattern>, cont: bool) | CheckError

  /** checkFile */
  function CheckFile(fs: Fs, path: Path): Checked
    requires path in fs.paths
  {
    match fs.entries[path]
    case Missing => Checked([], true)
    case OpenFails => CheckError
    case StatFails(_) => CheckError
    case Directory(closeFails) => if closeFails then CheckError else Checked([], true)
    case File(patterns, cont, fails, closeFails) =>
      if fails || closeFails then CheckError else Checked(patterns, cont)
  }

  /** What has vanished and what is a directory is skipped; a check fails exactly if opening,
      examining, reading or closing does; and only a file that was read has patterns or stops
      the walk. */
  lemma {:induction false} CheckFileIs(fs: Fs, path: Path)
    requires path in fs.paths
    ensures var e, r := fs.entries[path], CheckFile(fs, path);
            && (r.CheckError? <==>
                e.OpenFails? || e.StatFails? || (e.File? && e.fails) || ((e.Directory? || e.File?) && e.closeFails))
            && (e.Missing? ==> r == Checked([], true))
            && (e.Directory? && !e.closeFails ==> r == Checked([], true))
            && (r.Checked? && e.File? ==> r.patterns == e.patterns && r.cont == e.cont)
  {
  }

  /** The paths matched by some of the patterns. */
  ghost predicate MatchedBy(fs: Fs, patterns: seq<Pattern>, path: Path) {
    exists i :: 0 <= i < |patterns| && fs.glob(patterns[i]).Some? && path in fs.glob(patterns[i]).value
  }

  /** The file q has been checked and one of its patterns matches p. */
  ghost predicate Names(fs: Fs, q: Path, p: Path)
    requires q in fs.paths
  {
    CheckFile(fs, q).Checked? && MatchedBy(fs, CheckFile(fs, q).patterns, p)
  }

  /** S contains what the initial patterns match and, with each file, what that file's
      patterns match. */
  ghost predicate ClosedUnder(fs: Fs, initial: seq<Pattern>, S: set<Path>) {
    && (forall p :: MatchedBy(fs, initial, p) ==> p in S)
    && (forall q, p :: q in S && q in fs.paths && Names(fs, q, p) ==> p in S)
  }

  /** handlePatterns: the matches that are not in `seen` yet, once each and in order;
      `seen'` is the set it leaves behind. */
  method HandlePatterns(fs: Fs, seen: set<Path>, patterns: seq<Pattern>)
    returns (sub: Option<seq<Path>>, seen': set<Path>)
    requires seen <= fs.paths
    ensures seen <= seen' <= fs.paths
    ensures sub.None? <==> Malformed(fs, patterns)
    ensures sub.Some? ==>
              && NoRepeats(sub.value)
              && (forall p :: p in sub.value <==> MatchedBy(fs, patterns, p) && p !in seen)
              && (forall p :: p in seen' <==> p in seen || p in sub.value)
  {
    var found: seq<Path> := [];
    seen' := seen;
    for i := 0 to |patterns|
      invariant seen <= seen' <= fs.paths && NoRepeats(found)
      invariant forall j :: 0 <= j < i ==> fs.glob(patterns[j]).Some?
      invariant forall p :: p in found <==> MatchedBy(fs, patterns[..i], p) && p !in seen
      invariant forall p :: p in seen' <==> p in seen || p in found
    {
      var matches := fs.glob(patterns[i]);
      if matches.None? {
        return None, seen';
      }
      ghost var before := found;
      for j := 0 to |matches.value|
        invariant seen <= seen' <= fs.paths && NoRepeats(found)
        invariant forall p :: p in found <==> p in before || (p in matches.value[..j] && p !in seen)
        invariant forall p :: p in seen' <==> p in seen || p in found
      {
        var m := matches.value[j];
        if m !in seen' {
          seen' := seen' + {m};
          found := found + [m];
        }
      }
      assert matches.value[..|matches.value|] == matches.value;
      forall p ensures MatchedBy(fs, patterns[..i + 1], p) <==> MatchedBy(fs, patterns[..i], p) || p in matches.value {
        OneMorePattern(fs, patterns, i, p);
      }
    }
    assert patterns[..|patterns|] == patterns;
    sub := Some(found);
  }

  lemma {:induction false} OneMorePattern(fs: Fs, patterns: seq<Pattern>, i: nat, p: Path)
    requires i < |patterns| && fs.glob(patterns[i]).Some?
    ensures MatchedBy(fs, patterns[..i + 1], p) <==> MatchedBy(fs, patterns[..i], p) || p in fs.glob(patterns[i]).value
  {
    if MatchedBy(fs, patterns[..i], p) {
      var j :| 0 <= j < i && fs.glob(patterns[..i][j]).Some? && p in fs.glob(patterns[..i][j]).value;
      assert patterns[..i + 1][j] == patterns[..i][j];
    }
    if p in fs.glob(patterns[i]).value {
      assert patterns[..i + 1][i] == patterns[i];
    }
    if MatchedBy(fs, patterns[..i + 1], p) {
      var j :| 0 <= j <= i && fs.glob(patterns[..i + 1][j]).Some? && p in fs.glob(patterns[..i + 1][j]).value;
      if j < i { assert patterns[..i][j] == patterns[..i + 1][j]; }
    }
  }

  /** The worklist src, of which the first i paths have been checked. */
  ghost predicate Progress(fs: Fs, initial: seq<Pattern>, src: seq<Path>, i: nat, seen: set<Path>) {
    && i <= |src| && NoRepeats(src) && seen <= fs.paths && (forall p :: p in seen <==> p in src)
    && (forall p :: MatchedBy(fs, initial, p) ==> p in src)
    && (forall j :: 0 <= j < i ==> src[j] in fs.paths && CheckFile(fs, src[j]).Checked? && CheckFile(fs, src[j]).cont)
    && (forall j, p :: 0 <= j < i && MatchedBy(fs, CheckFile(fs, src[j]).patterns, p) ==> p in src)
    && Necessary(fs, initial, src)
  }

  /** Every closed set contains the listed paths. */
  ghost predicate Necessary(fs: Fs, initial: seq<Pattern>, src: seq<Path>) {
    forall S, p :: ClosedUnder(fs, initial, S) && p in src ==> p in S
  }

  /** One round: the path at i is checked and the new matches of its patterns are appended
      to the very list that is being walked. */
  lemma {:induction false} Advances(
      fs: Fs, initial: seq<Pattern>, src: seq<Path>, i: nat, seen: set<Path>, sub: seq<Path>, seen': set<Path>)
    requires Progress(fs, initial, src, i, seen) && i < |src| && src[i] in fs.paths
    requires CheckFile(fs, src[i]).Checked? && CheckFile(fs, src[i]).cont
    requires NoRepeats(sub) && seen' <= fs.paths
    requires forall p :: p in sub <==> MatchedBy(fs, CheckFile(fs, src[i]).patterns, p) && p !in seen
    requires forall p :: p in seen' <==> p in seen || p in sub
    ensures Progress(fs, initial, src + sub, i + 1, seen')
  {
    var all := src + sub;
    assert forall p :: p in all <==> p in src || p in sub;
    JoinedNoRepeats(src, sub);
    forall j | 0 <= j < i + 1
      ensures all[j] in fs.paths && CheckFile(fs, all[j]).Checked? && CheckFile(fs, all[j]).cont
    {
      assert all[j] == src[j];
    }
    forall j, p | 0 <= j < i + 1 && MatchedBy(fs, CheckFile(fs, all[j]).patterns, p) ensures p in all {
      assert all[j] == src[j];
      if j == i && p !in seen { assert p in sub; }
    }
    forall S, p | ClosedUnder(fs, initial, S) && p in all ensures p in S {
      if p !in src {
        assert src[i] in S && Names(fs, src[i], p);
      }
    }
  }

  lemma {:induction false} JoinedNoRepeats(s: seq<Path>, t: seq<Path>)
    requires NoRepeats(s) && NoRepeats(t) && forall p :: p in t ==> p !in s
    ensures NoRepeats(s + t)
  {
    forall i, j | 0 <= i < j < |s + t| ensures (s + t)[i] != (s + t)[j] {
      assert i < |s| <= j ==> t[j - |s|] in t && s[i] in s;
    }
  }

  lemma {:induction false} Starts(fs: Fs, initial: seq<Pattern>, src: seq<Path>, seen: set<Path>)
    requires NoRepeats(src) && seen <= fs.paths && forall p :: p in seen <==> p in src
    requires forall p :: p in src <==> MatchedBy(fs, initial, p)
    ensures Progress(fs, initial, src, 0, seen)
  {
  }

  /** A finished walk has visited a closed set. */
  lemma {:induction false} FinishedCloses(fs: Fs, initial: seq<Pattern>, src: seq<Path>, seen: set<Path>)
    requires Progress(fs, initial, src, |src|, seen)
    ensures ClosedUnder(fs, initial, set p | p in src)
    ensures ProperVisit(fs, initial, src) && !StopsAtEnd(fs, src)
  {
    assert src[..|src|] == src;
    PrefixVisited(fs, initial, src, |src|, seen, |src|);
    var S := set p | p in src;
    forall q, p | q in S && q in fs.paths && Names(fs, q, p) ensures p in S {
      var j :| 0 <= j < |src| && src[j] == q;
    }
  }

  datatype Outcome = Stopped | Finished | Failed

  ghost predicate Malformed(fs: Fs, patterns: seq<Pattern>) {
    exists i :: 0 <= i < |patterns| && fs.glob(patterns[i]).None?
  }

  /** Checking the path fails, or it goes on with a malformed pattern. */
  ghost predicate FailsAt(fs: Fs, path: Path)
    requires path in fs.paths
  {
    var checked := CheckFile(fs, path);
    checked.CheckError? || (checked.cont && Malformed(fs, checked.patterns))
  }

  /** The walk came to a failure: at once if an initial pattern is malformed, otherwise at the
      last path it checked. */
  ghost predicate FailsAtEnd(fs: Fs, initial: seq<Pattern>, visited: seq<Path>) {
    if Malformed(fs, initial) then visited == []
    else visited != [] && visited[|visited| - 1] in fs.paths && FailsAt(fs, visited[|visited| - 1])
  }

  /** None of the first i paths failed. */
  ghost predicate Passed(fs: Fs, src: seq<Path>, i: nat) {
    i <= |src| && forall j :: 0 <= j < i ==> src[j] in fs.paths && !FailsAt(fs, src[j])
  }

  lemma {:induction false} PassedOne(fs: Fs, src: seq<Path>, i: nat, sub: seq<Path>)
    requires Passed(fs, src, i) && i < |src| && src[i] in fs.paths && !FailsAt(fs, src[i])
    ensures Passed(fs, src + sub, i + 1)
  {
  }

  lemma {:induction false} PassedAll(fs: Fs, initial: seq<Pattern>, src: seq<Path>)
    requires Passed(fs, src, |src|) && !Malformed(fs, initial)
    ensures !FailsAtEnd(fs, initial, src)
  {
  }

  /** The last path decides whether a walk failed or stopped there. */
  lemma {:induction false} EndsHere(fs: Fs, initial: seq<Pattern>, src: seq<Path>, i: nat)
    requires i < |src| && src[i] in fs.paths && !Malformed(fs, initial)
    ensures FailsAtEnd(fs, initial, src[..i + 1]) <==> FailsAt(fs, src[i])
    ensures StopsAtEnd(fs, src[..i + 1]) <==> CheckFile(fs, src[i]).Checked? && !CheckFile(fs, src[i]).cont
  {
    assert src[..i + 1][i] == src[i];
  }

  /** Nothing in the set stops or fails a walk from the initial patterns. */
  ghost predicate Undisturbed(fs: Fs, initial: seq<Pattern>, S: set<Path>) {
    && !Malformed(fs, initial)
    && forall p :: p in S && p in fs.paths ==> !FailsAt(fs, p) && CheckFile(fs, p).Checked? && CheckFile(fs, p).cont
  }

  /** What holds of the visited paths however the walk ends. */
  ghost predicate ProperVisit(fs: Fs, initial: seq<Pattern>, visited: seq<Path>) {
    && NoRepeats(visited) && (forall p :: p in visited ==> p in fs.paths)
    && Necessary(fs, initial, visited)
    && forall i :: 0 <= i < |visited| - 1 ==>
         CheckFile(fs, visited[i]).Checked? && CheckFile(fs, visited[i]).cont
  }

  lemma {:induction false} PrefixVisited(fs: Fs, initial: seq<Pattern>, src: seq<Path>, i: nat, seen: set<Path>, k: nat)
    requires Progress(fs, initial, src, i, seen) && k <= |src| && k <= i + 1
    ensures ProperVisit(fs, initial, src[..k])
  {
    assert forall p :: p in src[..k] ==> p in src;
  }

  /** Walk: the files are checked in the order they are found; `visited` are the paths that
      were checked.  It ends on every finite file system, checks no path twice, checks only
      paths that every closed set contains, and if nothing stops it and nothing fails the
      checked paths are themselves closed, so they are the least closed set. */
  method Walk(fs: Fs, initial: seq<Pattern>) returns (outcome: Outcome, visited: seq<Path>)
    ensures ProperVisit(fs, initial, visited)
    ensures outcome.Finished? ==> ClosedUnder(fs, initial, set p | p in visited)
    ensures outcome.Stopped? <==> StopsAtEnd(fs, visited)
    ensures outcome.Failed? <==> FailsAtEnd(fs, initial, visited)
  {
    var sub, seen := HandlePatterns(fs, {}, initial);
    if sub.None? {
      return Failed, [];
    }
    var src := sub.value;
    Starts(fs, initial, src, seen);
    var i := 0;
    while i < |src|
      invariant Progress(fs, initial, src, i, seen) && !Malformed(fs, initial)
      invariant Passed(fs, src, i)
      decreases |fs.paths - seen|, |src| - i
    {
      PrefixVisited(fs, initial, src, i, seen, i + 1);
      assert src[i] in seen;
      EndsHere(fs, initial, src, i);
      var checked := CheckFile(fs, src[i]);
      if checked.CheckError? {
        return Failed, src[..i + 1];
      }
      if !checked.cont {
        return Stopped, src[..i + 1];
      }
      var sub', seen' := HandlePatterns(fs, seen, checked.patterns);
      if sub'.None? {
        return Failed, src[..i + 1];
      }
      Shrinks(fs, seen, seen', sub'.value);
      Advances(fs, initial, src, i, seen, sub'.value, seen');
      PassedOne(fs, src, i, sub'.value);
      src, seen := src + sub'.value, seen';
      i := i + 1;
    }
    FinishedCloses(fs, initial, src, seen);
    PassedAll(fs, initial, src);
    outcome, visited := Finished, src;
  }

  /** If some closed set holds nothing that stops or fails a walk, every walk finishes, and what
      it has checked is the least closed set. */
  lemma {:induction false} UndisturbedFinishes(
      fs: Fs, initial: seq<Pattern>, S: set<Path>, outcome: Outcome, visited: seq<Path>)
    requires ClosedUnder(fs, initial, S) && Undisturbed(fs, initial, S)
    requires ProperVisit(fs, initial, visited)
    requires outcome.Finished? ==> ClosedUnder(fs, initial, set p | p in visited)
    requires (outcome.Stopped? <==> StopsAtEnd(fs, visited)) && (outcome.Failed? <==> FailsAtEnd(fs, initial, visited))
    ensures outcome.Finished? && ClosedUnder(fs, initial, set p | p in visited)
    ensures forall p, T :: p in visited && ClosedUnder(fs, initial, T) ==> p in T
  {
    if visited != [] {
      var last := visited[|visited| - 1];
      assert last in visited && last in S;
    }
  }

  /** Walk on such a file system. */
  method WalkUndisturbed(
      fs: Fs, initial: seq<Pattern>, ghost S: set<Path>) returns (outcome: Outcome, visited: seq<Path>)
    requires ClosedUnder(fs, initial, S) && Undisturbed(fs, initial, S)
    ensures outcome.Finished? && NoRepeats(visited) && ClosedUnder(fs, initial, set p | p in visited)
    ensures forall p, T :: p in visited && ClosedUnder(fs, initial, T) ==> p in T
  {
    outcome, visited := Walk(fs, initial);
    UndisturbedFinishes(fs, initial, S, outcome, visited);
  }

  /** The last visited file asked to stop. */
  ghost predicate StopsAtEnd(fs: Fs, visited: seq<Path>) {
    && visited != [] && visited[|visited| - 1] in fs.paths
    && CheckFile(fs, visited[|visited| - 1]).Checked? && !CheckFile(fs, visited[|visited| - 1]).cont
  }

  lemma {:induction false} Shrinks(fs: Fs, before: set<Path>, after: set<Path>, sub: seq<Path>)
    requires before <= after <= fs.paths
    requires forall p :: p in after <==> p in before || p in sub
    requires forall p :: p in sub ==> p !in before
    ensures sub != [] ==> |fs.paths - after| < |fs.paths - before|
    ensures sub == [] ==> after == before
  {
    if sub != [] {
      assert sub[0] in fs.paths - before && sub[0] !in fs.paths - after;
      ProperSubset(fs.paths - after, fs.paths - before, sub[0]);
    } else {
      assert after == before;
    }
  }

  lemma {:induction false} ProperSubset(a: set<Path>, b: set<Path>, x: Path)
    requires a <= b && x in b && x !in a
    ensures |a| < |b|
  {
    SubsetSize(a, b - {x});
  }

  lemma {:induction false} SubsetSize(a: set<Path>, b: set<Path>)
    requires a <= b
    ensures |a| <= |b|
    decreases a
  {
    if a != {} {
      var x :| x in a;
      SubsetSize(a - {x}, b - {x});
    }
  }
}
