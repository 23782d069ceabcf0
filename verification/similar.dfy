/**
 * The `/similar` handler: rank the image files under a search directory by
 * the Hamming distance of their perceptual hashes to a target image's hash.
 *
 * Everything the handler asks of the operating system and of the imaging
 * libraries is a field of `World`: whether a path exists or is a directory,
 * absolute paths, same-file identity, the directory walk and the perceptual
 * hash. A `None` from `sameFile` or `phash` stands for the call raising.
 */
module SimilarImages {
  import opened Wrappers
  import opened Metric
  import opened FileNames
  import opened Sequences
  import opened StableSort
  import opened Slicing

  type Path = string

  /** One step of the directory walk: a directory and the names of the files directly in it. */
  datatype Listing = Listing(root: Path, files: seq<string>)

  /** A file met by the walk: the directory it was listed under and its name. */
  datatype Found = Found(root: Path, name: string)

  /** The file system and imaging library as the handler sees them during one request. */
  datatype World = World(
    pathExists: Path -> bool,
    isDir: Path -> bool,
    absPath: Path -> Path,
    sameFile: (Path, Path) -> Option<bool>,
    phash: Path -> Option<Hash>,
    walk: Path -> seq<Listing>,
    refDir: Path)

  /** One ranked candidate: its path, its hash, its distance to the target and its similarity. */
  datatype Entry = Entry(path: Path, hash: Hash, distance: nat, similarity: real)

  /** The request body, after `top_k` has been converted to an integer; `None` is an absent key. */
  datatype Request = Request(imagePath: Option<Path>, searchDir: Option<Path>, topK: Option<int>)

  /** A successful reply: the target path as given and the best-ranked candidates. */
  datatype Response = Response(target: Path, top: seq<Entry>)

  /** Why a request is refused. */
  datatype Failure =
    | TargetNotFound     // no image path, an empty one, or one that does not exist
    | SearchDirNotFound  // the search directory is not a directory
    | TargetUnreadable   // the target cannot be opened or hashed; the handler does not catch this

  /** Number of candidates returned when the request does not say. */
  const DefaultTopK: int := 5

  /** `os.path.join(dir, name)` on POSIX for two components. */
  function Join(dir: Path, name: string): (p: Path)
    ensures EndsWith(p, name)
  {
    if |name| > 0 && name[0] == '/' then name
    else if |dir| == 0 || dir[|dir| - 1] == '/' then dir + name
    else dir + "/" + name
  }

  /**
   * A relative name is joined under the directory as a path component of its
   * own: the result starts with the directory, ends with the name, and a `/`
   * separates the two whenever the directory is not empty. The separator is
   * added exactly when the directory does not already end in one. An
   * absolute name replaces the directory.
   */
  lemma JoinUnderDirectory(dir: Path, name: string)
    ensures |name| > 0 && name[0] == '/' ==> Join(dir, name) == name
    ensures |name| == 0 || name[0] != '/' ==>
              && dir <= Join(dir, name)
              && |dir| + |name| <= |Join(dir, name)| <= |dir| + |name| + 1
    ensures (|name| == 0 || name[0] != '/') && |dir| > 0 ==>
              Join(dir, name)[|Join(dir, name)| - |name| - 1] == '/'
    ensures (|name| == 0 || name[0] != '/') ==>
              (|Join(dir, name)| == |dir| + |name| <==> |dir| == 0 || dir[|dir| - 1] == '/')
    ensures (|name| == 0 || name[0] != '/') && |Join(dir, name)| == |dir| + |name| + 1 ==>
              Join(dir, name)[|dir|] == '/'
  {
  }

  /** The path the handler builds for a file met by the walk. */
  function PathOf(f: Found): Path {
    Join(f.root, f.name)
  }

  /** The files of one walk step, in listing order. */
  function Listed(l: Listing): seq<Found> {
    seq(|l.files|, i requires 0 <= i < |l.files| => Found(l.root, l.files[i]))
  }

  /** Each listed file carries its step's root. */
  lemma ListedAt(l: Listing)
    ensures |Listed(l)| == |l.files|
    ensures forall i :: 0 <= i < |l.files| ==> Listed(l)[i] == Found(l.root, l.files[i])
  {
  }

  /** The files of the whole walk, in the order the nested loops meet them. */
  function Walked(walk: seq<Listing>): seq<Found> {
    if |walk| == 0 then [] else Listed(walk[0]) + Walked(walk[1..])
  }

  /**
   * Self-exclusion: a candidate is the target when the file system says it
   * is the same file; when that question raises, when its absolute path is
   * the target's.
   */
  predicate IsTarget(w: World, p: Path, targetAbs: Path) {
    match w.sameFile(p, targetAbs)
    case Some(same) => same
    case None => w.absPath(p) == targetAbs
  }

  /**
   * Hashes a candidate and compares it with the target. `None` wherever the
   * source raises inside its `try`: the file cannot be opened or hashed, the
   * hashes differ in size, or the target hash has no bits to divide by.
   */
  function Score(w: World, targetHash: Hash, p: Path): (r: Option<Entry>)
    ensures r.Some? <==> w.phash(p).Some? && |w.phash(p).value| == |targetHash| && |targetHash| > 0
    ensures r.Some? ==> r.value.path == p && r.value.hash == w.phash(p).value
    ensures r.Some? ==> r.value.distance <= |targetHash|
    ensures r.Some? ==> (r.value.distance == 0 <==> r.value.hash == targetHash)
    ensures r.Some? ==> 0.0 <= r.value.similarity <= 1.0
    ensures r.Some? ==> (r.value.similarity == 1.0 <==> r.value.distance == 0)
  {
    match w.phash(p)
    case None => None
    case Some(h) =>
      if |h| != |targetHash| then None
      else if |targetHash| == 0 then None
      else
        var d := Distance(targetHash, h);
        Some(Entry(p, h, d, Similarity(d, |targetHash|)))
  }

  /** The body of the scan loop for one file: filter by name, skip the target, score. */
  function Visit(w: World, targetHash: Hash, targetAbs: Path, f: Found): Option<Entry> {
    if !IsImageName(f.name) then None
    else if IsTarget(w, PathOf(f), targetAbs) then None
    else Score(w, targetHash, PathOf(f))
  }

  /** `Visit` as a value, for the sequence combinators. */
  function Visitor(w: World, targetHash: Hash, targetAbs: Path): Found -> Option<Entry> {
    f => Visit(w, targetHash, targetAbs, f)
  }

  /** The entries collected from a sequence of files, in that order. */
  function ScanFiles(w: World, targetHash: Hash, targetAbs: Path, files: seq<Found>): seq<Entry> {
    FilterMap(files, Visitor(w, targetHash, targetAbs))
  }

  /** The entries the scan collects, in walk order. */
  function Scan(w: World, targetHash: Hash, targetAbs: Path, walk: seq<Listing>): seq<Entry> {
    ScanFiles(w, targetHash, targetAbs, Walked(walk))
  }

  /** The sort key of the ranking. */
  function DistanceOf(e: Entry): int {
    e.distance
  }

  /** The path of the target as the request gives it; absent and empty are alike. */
  function TargetPath(req: Request): Path {
    match req.imagePath
    case Some(p) => p
    case None => ""
  }

  /** The directory searched: the request's, or the reference directory by default. */
  function SearchDir(w: World, req: Request): Path {
    match req.searchDir
    case Some(dir) => dir
    case None => w.refDir
  }

  /** How many entries the reply keeps: the request's `top_k`, or the default. */
  function TopK(req: Request): int {
    match req.topK
    case Some(k) => k
    case None => DefaultTopK
  }

  /** The handler: validate, hash the target, scan, stable-sort by distance, keep `top_k`. */
  function Similar(w: World, req: Request): (r: Result<Response, Failure>)
    ensures r.Ok? ==> r.value.target == TargetPath(req) && TargetPath(req) != ""
    ensures r.Ok? ==> SortedBy(r.value.top, DistanceOf)
  {
    var target := TargetPath(req);
    if target == "" || !w.pathExists(target) then Err(TargetNotFound)
    else if !w.isDir(SearchDir(w, req)) then Err(SearchDirNotFound)
    else match w.phash(target)
      case None => Err(TargetUnreadable)
      case Some(targetHash) =>
        var entries := Scan(w, targetHash, w.absPath(target), w.walk(SearchDir(w, req)));
        Ok(Response(target, Prefix(Sort(entries, DistanceOf), TopK(req))))
  }

  /** The walk of a longer listing sequence continues the walk of its prefix. */
  lemma {:induction false} WalkedAppend(a: seq<Listing>, b: seq<Listing>)
    ensures Walked(a + b) == Walked(a) + Walked(b)
  {
    if |a| > 0 {
      assert (a + b)[1..] == a[1..] + b;
      WalkedAppend(a[1..], b);
    } else {
      assert a + b == b;
    }
  }

  /** Scanning one more walk step appends that step's entries. */
  lemma ScanExtend(w: World, targetHash: Hash, targetAbs: Path, walk: seq<Listing>, i: nat)
    requires i < |walk|
    ensures Scan(w, targetHash, targetAbs, walk[..i + 1])
         == Scan(w, targetHash, targetAbs, walk[..i]) + FilterMap(Listed(walk[i]), Visitor(w, targetHash, targetAbs))
  {
    assert walk[..i + 1] == walk[..i] + [walk[i]];
    WalkedAppend(walk[..i], [walk[i]]);
    assert Walked([walk[i]]) == Listed(walk[i]) by {
      assert [walk[i]][1..] == [];
    }
    FilterMapAppend(Walked(walk[..i]), Listed(walk[i]), Visitor(w, targetHash, targetAbs));
  }

  /** Visiting one more file appends that file's entry, if it has one. */
  lemma VisitExtend(w: World, targetHash: Hash, targetAbs: Path, files: seq<Found>, j: nat, entry: Option<Entry>)
    requires j < |files|
    requires entry == Visit(w, targetHash, targetAbs, files[j])
    ensures FilterMap(files[..j + 1], Visitor(w, targetHash, targetAbs))
         == FilterMap(files[..j], Visitor(w, targetHash, targetAbs)) + (if entry.Some? then [entry.value] else [])
  {
    assert files[..j + 1] == files[..j] + [files[j]];
    FilterMapAppend(files[..j], [files[j]], Visitor(w, targetHash, targetAbs));
    FilterMapSingleton(files[j], Visitor(w, targetHash, targetAbs));
  }

  /**
   * The inner loop of the scan: the entries of one directory's files, in
   * listing order. A file is passed over when its name has no image
   * extension, when it is the target, and when it cannot be scored.
   */
  method ScanDirectory(w: World, targetHash: Hash, targetAbs: Path, listing: Listing)
    returns (entries: seq<Entry>)
    ensures entries == FilterMap(Listed(listing), Visitor(w, targetHash, targetAbs))
  {
    ghost var visit := Visitor(w, targetHash, targetAbs);
    var files := Listed(listing);
    entries := [];
    var j := 0;
    while j < |files|
      invariant 0 <= j <= |files|
      invariant entries == FilterMap(files[..j], visit)
    {
      var entry := Visit(w, targetHash, targetAbs, files[j]);
      VisitExtend(w, targetHash, targetAbs, files, j, entry);
      if entry.Some? {
        entries := entries + [entry.value];
      }
      j := j + 1;
    }
    assert files[..j] == files;
  }

  /** The scan as the source writes it: the walk's directories in order, each one's entries appended. */
  method CollectResults(w: World, targetHash: Hash, targetAbs: Path, walk: seq<Listing>)
    returns (results: seq<Entry>)
    ensures results == Scan(w, targetHash, targetAbs, walk)
  {
    results := [];
    var i := 0;
    while i < |walk|
      invariant 0 <= i <= |walk|
      invariant results == Scan(w, targetHash, targetAbs, walk[..i])
    {
      var entries := ScanDirectory(w, targetHash, targetAbs, walk[i]);
      results := results + entries;
      ScanExtend(w, targetHash, targetAbs, walk, i);
      i := i + 1;
    }
    assert walk[..i] == walk;
  }
}
