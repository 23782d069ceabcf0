/**
 * What the `/similar` handler promises about its reply: which files can
 * appear, what each entry says, the order of the entries and how many there
 * are, and when the request is refused instead.
 */
module SimilarLemmas {
  import opened Wrappers
  import opened Metric
  import opened FileNames
  import opened Sequences
  import opened StableSort
  import opened Slicing
  import opened SimilarImages

  /** The walk meets exactly the files some walk step lists under its root. */
  lemma {:induction false} WalkedMembership(walk: seq<Listing>, f: Found)
    ensures f in Walked(walk)
        <==> exists i, j :: 0 <= i < |walk| && 0 <= j < |walk[i].files| && f == Found(walk[i].root, walk[i].files[j])
  {
    if |walk| > 0 {
      WalkedMembership(walk[1..], f);
      var here := Listed(walk[0]);
      ListedAt(walk[0]);
      assert Walked(walk) == here + Walked(walk[1..]);
      if f in Walked(walk) {
        if f in here {
          var j :| 0 <= j < |here| && here[j] == f;
          assert f == Found(walk[0].root, walk[0].files[j]);
        } else {
          var i, j :| 0 <= i < |walk[1..]| && 0 <= j < |walk[1..][i].files|
                   && f == Found(walk[1..][i].root, walk[1..][i].files[j]);
          assert f == Found(walk[i + 1].root, walk[i + 1].files[j]);
        }
      }
      if exists i, j :: 0 <= i < |walk| && 0 <= j < |walk[i].files| && f == Found(walk[i].root, walk[i].files[j]) {
        var i, j :| 0 <= i < |walk| && 0 <= j < |walk[i].files| && f == Found(walk[i].root, walk[i].files[j]);
        if i == 0 {
          assert here[j] == f;
        } else {
          assert walk[1..][i - 1] == walk[i];
        }
      }
    }
  }

  /** A file yields an entry exactly when it has an image name, is not the target, and scores. */
  lemma VisitAccepts(w: World, targetHash: Hash, targetAbs: Path, f: Found)
    ensures Visit(w, targetHash, targetAbs, f).Some?
        <==> && IsImageName(f.name)
             && !IsTarget(w, PathOf(f), targetAbs)
             && w.phash(PathOf(f)).Some?
             && |w.phash(PathOf(f)).value| == |targetHash| > 0
    ensures Visit(w, targetHash, targetAbs, f).Some?
        ==> Visit(w, targetHash, targetAbs, f).value.path == PathOf(f)
  {
  }

  /** A file that yields no entry is skipped without disturbing the entries of the others. */
  lemma FailingFileSkipped(w: World, targetHash: Hash, targetAbs: Path, before: seq<Found>, f: Found, after: seq<Found>)
    requires Visit(w, targetHash, targetAbs, f) == None
    ensures ScanFiles(w, targetHash, targetAbs, before + [f] + after)
         == ScanFiles(w, targetHash, targetAbs, before) + ScanFiles(w, targetHash, targetAbs, after)
  {
    var v := Visitor(w, targetHash, targetAbs);
    FilterMapAppend(before + [f], after, v);
    FilterMapAppend(before, [f], v);
    FilterMapSingleton(f, v);
  }

  /** A file that scores contributes exactly its one entry, in its place in the walk. */
  lemma ScoredFileKept(w: World, targetHash: Hash, targetAbs: Path, before: seq<Found>, f: Found, after: seq<Found>, e: Entry)
    requires Visit(w, targetHash, targetAbs, f) == Some(e)
    ensures ScanFiles(w, targetHash, targetAbs, before + [f] + after)
         == ScanFiles(w, targetHash, targetAbs, before) + [e] + ScanFiles(w, targetHash, targetAbs, after)
  {
    var v := Visitor(w, targetHash, targetAbs);
    FilterMapAppend(before + [f], after, v);
    FilterMapAppend(before, [f], v);
    FilterMapSingleton(f, v);
  }

  /** Step one of the pipeline: the file name carries an image extension. */
  function HasImageName(): Found -> bool {
    (f: Found) => IsImageName(f.name)
  }

  /** Step two: the file is not the target. */
  function NotTarget(w: World, targetAbs: Path): Found -> bool {
    (f: Found) => !IsTarget(w, PathOf(f), targetAbs)
  }

  /** Step three: hash and compare the file's path. */
  function Scorer(w: World, targetHash: Hash): Found -> Option<Entry> {
    (f: Found) => Score(w, targetHash, PathOf(f))
  }

  /** For a single file, the loop body and the three steps agree. */
  lemma StagedSingleton(w: World, targetHash: Hash, targetAbs: Path, f: Found)
    ensures FilterMap([f], Visitor(w, targetHash, targetAbs))
         == FilterMap(Filter(Filter([f], HasImageName()), NotTarget(w, targetAbs)), Scorer(w, targetHash))
  {
    FilterMapSingleton(f, Visitor(w, targetHash, targetAbs));
    FilterSingleton(f, HasImageName());
    if IsImageName(f.name) {
      FilterSingleton(f, NotTarget(w, targetAbs));
      if !IsTarget(w, PathOf(f), targetAbs) {
        FilterMapSingleton(f, Scorer(w, targetHash));
      }
    }
  }

  /**
   * The one-pass loop equals the staged pipeline: filter by name, drop the
   * target, then score what is left, skipping failures.
   */
  lemma {:induction false} ScanIsStaged(w: World, targetHash: Hash, targetAbs: Path, files: seq<Found>)
    ensures ScanFiles(w, targetHash, targetAbs, files)
         == FilterMap(Filter(Filter(files, HasImageName()), NotTarget(w, targetAbs)), Scorer(w, targetHash))
  {
    if |files| > 0 {
      var f := files[0];
      var rest := files[1..];
      assert files == [f] + rest;
      var v := Visitor(w, targetHash, targetAbs);
      var named := HasImageName();
      var other := NotTarget(w, targetAbs);
      var scorer := Scorer(w, targetHash);
      ScanIsStaged(w, targetHash, targetAbs, rest);
      StagedSingleton(w, targetHash, targetAbs, f);
      FilterMapAppend([f], rest, v);
      FilterAppend([f], rest, named);
      FilterAppend(Filter([f], named), Filter(rest, named), other);
      FilterMapAppend(Filter(Filter([f], named), other), Filter(Filter(rest, named), other), scorer);
    }
  }

  /** Every entry comes from a file of the walk with an image name, not the target, that scored. */
  lemma {:induction false} ScanEntryOrigin(w: World, targetHash: Hash, targetAbs: Path, files: seq<Found>, e: Entry)
    ensures e in ScanFiles(w, targetHash, targetAbs, files)
        <==> exists i :: 0 <= i < |files|
               && IsImageName(files[i].name)
               && !IsTarget(w, PathOf(files[i]), targetAbs)
               && Score(w, targetHash, PathOf(files[i])) == Some(e)
  {
    var v := Visitor(w, targetHash, targetAbs);
    FilterMapMembership(files, v, e);
    assert forall i :: 0 <= i < |files| ==> v(files[i]) == Visit(w, targetHash, targetAbs, files[i]);
  }

  /**
   * What every collected entry says: it is not the target, its path has an image
   * extension, its hash is the file's, its distance counts the bits where
   * that hash differs from the target's, and its similarity is one minus the
   * fraction of differing bits.
   */
  lemma ScanEntryFacts(w: World, targetHash: Hash, targetAbs: Path, files: seq<Found>)
    ensures forall e :: e in ScanFiles(w, targetHash, targetAbs, files) ==>
              && !IsTarget(w, e.path, targetAbs)
              && IsImageName(e.path)
              && w.phash(e.path) == Some(e.hash)
              && |e.hash| == |targetHash| > 0
              && e.distance == |DiffPositions(targetHash, e.hash)|
              && e.distance <= |targetHash|
              && e.similarity == 1.0 - (e.distance as real) / (|targetHash| as real)
              && 0.0 <= e.similarity <= 1.0
              && (e.similarity == 1.0 <==> e.hash == targetHash)
  {
    forall e | e in ScanFiles(w, targetHash, targetAbs, files)
      ensures !IsTarget(w, e.path, targetAbs) && IsImageName(e.path)
      ensures w.phash(e.path) == Some(e.hash) && |e.hash| == |targetHash| > 0
      ensures e.distance == |DiffPositions(targetHash, e.hash)| && e.distance <= |targetHash|
      ensures e.similarity == 1.0 - (e.distance as real) / (|targetHash| as real)
      ensures 0.0 <= e.similarity <= 1.0 && (e.similarity == 1.0 <==> e.hash == targetHash)
    {
      ScanEntryOrigin(w, targetHash, targetAbs, files, e);
      var i :| 0 <= i < |files|
        && IsImageName(files[i].name)
        && !IsTarget(w, PathOf(files[i]), targetAbs)
        && Score(w, targetHash, PathOf(files[i])) == Some(e);
      IsImageNameOfEnding(PathOf(files[i]), files[i].name);
      DistanceCountsDiffPositions(targetHash, e.hash);
    }
  }

  /** The reply is refused exactly in these cases, and succeeds otherwise. */
  lemma SimilarRefusals(w: World, req: Request)
    ensures Similar(w, req) == Err(TargetNotFound)
        <==> TargetPath(req) == "" || !w.pathExists(TargetPath(req))
    ensures Similar(w, req) == Err(SearchDirNotFound)
        <==> TargetPath(req) != "" && w.pathExists(TargetPath(req)) && !w.isDir(SearchDir(w, req))
    ensures Similar(w, req) == Err(TargetUnreadable)
        <==> && TargetPath(req) != "" && w.pathExists(TargetPath(req)) && w.isDir(SearchDir(w, req))
             && w.phash(TargetPath(req)).None?
    ensures Similar(w, req).Ok?
        <==> && TargetPath(req) != "" && w.pathExists(TargetPath(req)) && w.isDir(SearchDir(w, req))
             && w.phash(TargetPath(req)).Some?
  {
  }

  /** The entries a successful request ranks: the scan of the search directory against the target. */
  function Scored(w: World, req: Request): seq<Entry>
    requires w.phash(TargetPath(req)).Some?
  {
    Scan(w, w.phash(TargetPath(req)).value, w.absPath(TargetPath(req)), w.walk(SearchDir(w, req)))
  }

  /** A successful reply, unfolded: the first `top_k` of the stable ranking of the scored entries. */
  lemma SimilarReply(w: World, req: Request)
    requires Similar(w, req).Ok?
    ensures w.phash(TargetPath(req)).Some?
    ensures Similar(w, req).value.target == TargetPath(req)
    ensures Similar(w, req).value.top == Prefix(Sort(Scored(w, req), DistanceOf), TopK(req))
  {
    SimilarRefusals(w, req);
  }

  /**
   * The reply ranks: it is sorted by distance, it is a prefix of a stable
   * rearrangement of the scored entries, and its length follows Python's
   * slice rule for `top_k`.
   */
  lemma SimilarRanking(w: World, req: Request)
    requires Similar(w, req).Ok?
    ensures w.phash(TargetPath(req)).Some?
    ensures var top := Similar(w, req).value.top;
            var ranked := Sort(Scored(w, req), DistanceOf);
            && SortedBy(top, DistanceOf)
            && top == ranked[..|top|]
            && multiset(ranked) == multiset(Scored(w, req))
            && StablyRearranges(ranked, Scored(w, req), DistanceOf)
    ensures var n := |Scored(w, req)|;
            var top := Similar(w, req).value.top;
            var k := TopK(req);
            && (k >= 0 ==> |top| == if k <= n then k else n)
            && (k < 0 ==> |top| == if -k <= n then n + k else 0)
  {
    SimilarReply(w, req);
  }

  /** Without `top_k` the reply holds the five best entries, or all of them when there are fewer. */
  lemma SimilarDefaultLength(w: World, req: Request)
    requires Similar(w, req).Ok?
    requires req.topK.None?
    ensures w.phash(TargetPath(req)).Some?
    ensures |Similar(w, req).value.top| == if |Scored(w, req)| < 5 then |Scored(w, req)| else 5
  {
    SimilarRanking(w, req);
  }

  /** The reply never names the target, and every entry has an image path and bounded scores. */
  lemma SimilarEntries(w: World, req: Request)
    requires Similar(w, req).Ok?
    ensures w.phash(TargetPath(req)).Some?
    ensures forall e :: e in Similar(w, req).value.top ==>
              && !IsTarget(w, e.path, w.absPath(TargetPath(req)))
              && IsImageName(e.path)
              && e.distance <= |w.phash(TargetPath(req)).value|
              && |w.phash(TargetPath(req)).value| > 0
              && e.similarity == Similarity(e.distance, |w.phash(TargetPath(req)).value|)
              && 0.0 <= e.similarity <= 1.0
  {
    SimilarRanking(w, req);
    var top := Similar(w, req).value.top;
    var th := w.phash(TargetPath(req)).value;
    var ta := w.absPath(TargetPath(req));
    var files := Walked(w.walk(SearchDir(w, req)));
    forall e | e in top
      ensures !IsTarget(w, e.path, ta) && IsImageName(e.path)
      ensures e.distance <= |th| && 0.0 <= e.similarity <= 1.0
      ensures |th| > 0 && e.similarity == Similarity(e.distance, |th|)
    {
      assert e in multiset(Sort(Scored(w, req), DistanceOf));
      ScanEntryFacts(w, th, ta, files);
    }
  }

  /**
   * The reply keeps the best: every scored entry left out is at least as far
   * from the target as every entry kept.
   */
  lemma SimilarKeepsNearest(w: World, req: Request)
    requires Similar(w, req).Ok?
    ensures w.phash(TargetPath(req)).Some?
    ensures var top := Similar(w, req).value.top;
            forall x, y :: x in top && y in multiset(Scored(w, req)) - multiset(top) ==> x.distance <= y.distance
  {
    SimilarRanking(w, req);
    var top := Similar(w, req).value.top;
    var ranked := Sort(Scored(w, req), DistanceOf);
    SortedPrefixIsSmallest(ranked, |top|, DistanceOf);
  }

  /** Down the reply, similarity never increases. */
  lemma SimilarSimilarityDescends(w: World, req: Request)
    requires Similar(w, req).Ok?
    ensures var top := Similar(w, req).value.top;
            forall i, j :: 0 <= i < j < |top| ==> top[i].similarity >= top[j].similarity
  {
    SimilarRanking(w, req);
    SimilarEntries(w, req);
    var top := Similar(w, req).value.top;
    var m := |w.phash(TargetPath(req)).value|;
    SimilarityFollowsDistance(top, m);
  }

  /**
   * In entries sorted by distance whose similarity is computed from the
   * distance, similarity never increases.
   */
  lemma SimilarityFollowsDistance(top: seq<Entry>, m: nat)
    requires SortedBy(top, DistanceOf)
    requires forall e :: e in top ==> m > 0 && e.similarity == Similarity(e.distance, m)
    ensures forall i, j :: 0 <= i < j < |top| ==> top[i].similarity >= top[j].similarity
  {
    forall i, j | 0 <= i < j < |top|
      ensures top[i].similarity >= top[j].similarity
    {
      assert DistanceOf(top[i]) <= DistanceOf(top[j]);
      if top[i].distance < top[j].distance {
        SimilarityStrictlyDecreasing(top[i].distance, top[j].distance, m);
      }
    }
  }

  /** One step of the sort: the head inserted into the sorted tail. */
  lemma SortStep(x: Entry, rest: seq<Entry>, sorted: seq<Entry>, r: seq<Entry>)
    requires Sort(rest, DistanceOf) == sorted
    requires Insert(x, sorted, DistanceOf) == r
    ensures Sort([x] + rest, DistanceOf) == r
  {
    assert ([x] + rest)[1..] == rest;
  }

  /** A 9-bit target hash for the example, and candidate hashes at distances 2, 5 and 9 from it. */
  const ExampleTarget: Hash := [false, false, false, false, false, false, false, false, false]
  const HashAt2: Hash := [true, true, false, false, false, false, false, false, false]
  const HashAt5: Hash := [true, true, true, true, true, false, false, false, false]
  const HashAt9: Hash := [true, true, true, true, true, true, true, true, true]

  /** Five entries met by a walk in this order, with distances 5, 0, 5, 9 and 2 to the example target. */
  const WalkZ := Entry("z.png", HashAt5, 5, Similarity(5, 9))
  const WalkA := Entry("a.png", ExampleTarget, 0, Similarity(0, 9))
  const WalkB := Entry("b.png", HashAt5, 5, Similarity(5, 9))
  const WalkC := Entry("c.png", HashAt9, 9, Similarity(9, 9))
  const WalkD := Entry("d.png", HashAt2, 2, Similarity(2, 9))

  /** A readable 9-bit candidate hash at distance `d` from the example target scores as that entry. */
  lemma ExampleScore(w: World, p: Path, h: Hash, d: nat)
    requires w.phash(p) == Some(h)
    requires |h| == 9 && Distance(ExampleTarget, h) == d
    ensures Score(w, ExampleTarget, p) == Some(Entry(p, h, d, Similarity(d, 9)))
  {
  }

  /** The distances of the example hashes, counted bit by bit. */
  lemma ExampleDistances()
    ensures Distance(ExampleTarget, ExampleTarget) == 0
    ensures Distance(ExampleTarget, HashAt2) == 2
    ensures Distance(ExampleTarget, HashAt5) == 5
    ensures Distance(ExampleTarget, HashAt9) == 9
  {
    DistanceCountsDiffPositions(ExampleTarget, HashAt2);
    assert DiffPositions(ExampleTarget, HashAt2) == {0, 1};
    DistanceCountsDiffPositions(ExampleTarget, HashAt5);
    assert DiffPositions(ExampleTarget, HashAt5) == {0, 1, 2, 3, 4};
    DistanceToComplement(ExampleTarget, HashAt9);
  }

  /** The five example entries are what scoring the five files against the example target gives. */
  lemma ExampleEntriesScored(w: World)
    requires w.phash("z.png") == Some(HashAt5) && w.phash("a.png") == Some(ExampleTarget)
    requires w.phash("b.png") == Some(HashAt5) && w.phash("c.png") == Some(HashAt9)
    requires w.phash("d.png") == Some(HashAt2)
    ensures Score(w, ExampleTarget, "z.png") == Some(WalkZ)
    ensures Score(w, ExampleTarget, "a.png") == Some(WalkA)
    ensures Score(w, ExampleTarget, "b.png") == Some(WalkB)
    ensures Score(w, ExampleTarget, "c.png") == Some(WalkC)
    ensures Score(w, ExampleTarget, "d.png") == Some(WalkD)
  {
    ExampleDistances();
    ExampleScore(w, "z.png", HashAt5, 5);
    ExampleScore(w, "a.png", ExampleTarget, 0);
    ExampleScore(w, "b.png", HashAt5, 5);
    ExampleScore(w, "c.png", HashAt9, 9);
    ExampleScore(w, "d.png", HashAt2, 2);
  }

  /** The last entry of the example walk, ranked alone. */
  lemma ExampleLastOneRanked()
    ensures Sort([WalkD], DistanceOf) == [WalkD]
  {
    InsertInFront(WalkD, [], DistanceOf);
    SortStep(WalkD, [], [], [WalkD]);
    assert [WalkD] + [] == [WalkD];
  }

  /** The last two entries of the example walk, ranked. */
  lemma ExampleLastTwoRanked()
    ensures Sort([WalkC, WalkD], DistanceOf) == [WalkD, WalkC]
  {
    ExampleLastOneRanked();
    InsertBehind(WalkC, [WalkD], DistanceOf);
    InsertInFront(WalkC, [], DistanceOf);
    assert [WalkD][1..] == [];
    SortStep(WalkC, [WalkD], [WalkD], [WalkD, WalkC]);
  }

  /** `b.png` goes behind the smaller distance and in front of the larger. */
  lemma ExampleInsertB()
    ensures Insert(WalkB, [WalkD, WalkC], DistanceOf) == [WalkD, WalkB, WalkC]
  {
    InsertBehind(WalkB, [WalkD, WalkC], DistanceOf);
    assert [WalkD, WalkC][1..] == [WalkC];
    InsertInFront(WalkB, [WalkC], DistanceOf);
  }

  /** The last three entries of the example walk, ranked. */
  lemma ExampleLastThreeRanked()
    ensures Sort([WalkB, WalkC, WalkD], DistanceOf) == [WalkD, WalkB, WalkC]
  {
    ExampleLastTwoRanked();
    ExampleInsertB();
    SortStep(WalkB, [WalkC, WalkD], [WalkD, WalkC], [WalkD, WalkB, WalkC]);
  }

  /** The first entry of the walk has the smallest distance so far and goes in front. */
  lemma ExampleInsertA()
    ensures Insert(WalkA, [WalkD, WalkB, WalkC], DistanceOf) == [WalkA, WalkD, WalkB, WalkC]
  {
  }

  /** `z.png` goes in front of `b.png`, its tie, which it precedes in the walk. */
  lemma ExampleInsertZBeforeTie()
    ensures Insert(WalkZ, [WalkD, WalkB, WalkC], DistanceOf) == [WalkD, WalkZ, WalkB, WalkC]
  {
    InsertBehind(WalkZ, [WalkD, WalkB, WalkC], DistanceOf);
    assert [WalkD, WalkB, WalkC][1..] == [WalkB, WalkC];
    assert Insert(WalkZ, [WalkB, WalkC], DistanceOf) == [WalkZ, WalkB, WalkC];
  }

  /** `z.png` goes after the smaller distances and in front of `b.png`. */
  lemma ExampleInsertZ()
    ensures Insert(WalkZ, [WalkA, WalkD, WalkB, WalkC], DistanceOf) == [WalkA, WalkD, WalkZ, WalkB, WalkC]
  {
    InsertBehind(WalkZ, [WalkA, WalkD, WalkB, WalkC], DistanceOf);
    assert [WalkA, WalkD, WalkB, WalkC][1..] == [WalkD, WalkB, WalkC];
    ExampleInsertZBeforeTie();
  }

  /** The last four entries of the example walk, ranked. */
  lemma ExampleLastFourRanked()
    ensures Sort([WalkA, WalkB, WalkC, WalkD], DistanceOf) == [WalkA, WalkD, WalkB, WalkC]
  {
    ExampleLastThreeRanked();
    ExampleInsertA();
    SortStep(WalkA, [WalkB, WalkC, WalkD], [WalkD, WalkB, WalkC], [WalkA, WalkD, WalkB, WalkC]);
  }

  /** The whole example walk, ranked. */
  lemma ExampleRanked()
    ensures Sort([WalkZ, WalkA, WalkB, WalkC, WalkD], DistanceOf) == [WalkA, WalkD, WalkZ, WalkB, WalkC]
  {
    ExampleLastFourRanked();
    ExampleInsertZ();
    SortStep(WalkZ, [WalkA, WalkB, WalkC, WalkD], [WalkA, WalkD, WalkB, WalkC], [WalkA, WalkD, WalkZ, WalkB, WalkC]);
  }

  /** `top_k` of 4 keeps the first four of five. */
  lemma FirstFourOfFive<T>(x1: T, x2: T, x3: T, x4: T, x5: T)
    ensures Prefix([x1, x2, x3, x4, x5], 4) == [x1, x2, x3, x4]
  {
    assert [x1, x2, x3, x4, x5][..4] == [x1, x2, x3, x4];
  }

  /**
   * Ties keep the order of the walk, not the order of the paths: with
   * `top_k` of 4, the entry for `z.png` met first stays ahead of `b.png` at
   * the same distance.
   */
  lemma TiesKeepWalkOrder()
    ensures Prefix(Sort([WalkZ, WalkA, WalkB, WalkC, WalkD], DistanceOf), 4) == [WalkA, WalkD, WalkZ, WalkB]
  {
    ExampleRanked();
    FirstFourOfFive(WalkA, WalkD, WalkZ, WalkB, WalkC);
  }
}
