# Similar-image ranking, modelled in Dafny

This project models the `/similar` endpoint of the calculation service
(`services/calc_service/app.py`, `similar_images`). Given a target image, a
search directory and `top_k`, the endpoint does the following:

- it walks the directory tree;
- it keeps files whose lower-cased name ends in `.png`, `.jpg`, `.jpeg` or `.webp`;
- it skips the target itself, using `os.path.samefile` and falling back to
  comparing absolute paths when that call raises;
- it takes each remaining file's perceptual hash;
- it scores the file by the Hamming distance to the target's hash and by
  `1 - distance / max_bits`;
- it quietly skips any file whose hashing or scoring raises;
- it stable-sorts the scored entries by distance and returns the first `top_k` (5 by default).

Modules, one per concern:

- `Wrappers`: `Option` and `Result`.
- `Metric`: the hash as a bit sequence, Hamming distance as the count of differing
  positions, and similarity as a real number.
- `FileNames`: ASCII lower-casing and the extension filter.
- `Sequences`: `Filter` and `FilterMap`, the "skip or keep" loop shape.
- `StableSort`: a stable insertion sort by an integer key. Stability is
  stated key by key. A uniqueness lemma shows that any sorted and stable
  rearrangement is the same sequence, so Python's `list.sort` has the same
  result as this sort.
- `Slicing`: Python's `xs[:stop]`, negative `stop` included.
- `SimilarImages`: the request, the `World`, the per-file visit, the scan and
  the handler `Similar`. It also has loop-based methods (`ScanDirectory`,
  `CollectResults`) that follow the source's nested loops
  and are proved equal to the functional scan.
- `SimilarLemmas`: what the reply promises.

The `World` holds everything the handler asks of the operating system and the
imaging libraries. Existence and directory tests, `abspath`, `samefile`, the
walk and the perceptual hash are function-valued fields. A `None` from
`sameFile` or `phash` stands for that call raising.

Two consequences of the code are worth stating:

- Ties in distance keep the walk order, because `list.sort` is stable.
  `SimilarLemmas.TiesKeepWalkOrder` ranks five scored entries at distances
  5, 0, 5, 9 and 2. The two entries at distance 5 come out in walk order,
  which is the reverse of their path order.
- A `top_k` of zero or below is used as a slice bound. So `0` gives an empty
  reply and `-1` drops the last entry.

## Model

| member | source | states |
|---|---|---|
| Metric.Distance | services/calc_service/app.py:127 | the distance between two equal-sized hashes is at most their size, and is zero exactly when the hashes are equal |
| Metric.DistanceCountsDiffPositions | services/calc_service/app.py:127 | the distance is the number of bit positions at which the two hashes differ (Hamming distance) |
| Metric.DistanceSymmetric | services/calc_service/app.py:127 | the distance does not depend on which hash is subtracted from which |
| Metric.DistanceToComplement | services/calc_service/app.py:127-128 | a hash differing from the target in every bit is at distance `max_bits`, the largest possible |
| Metric.Similarity | services/calc_service/app.py:128 | for a distance within `max_bits`, similarity lies in [0, 1]; it is 1 exactly at distance 0 and 0 exactly at distance `max_bits` |
| Metric.SimilarityStrictlyDecreasing | services/calc_service/app.py:128 | a strictly larger distance gives a strictly smaller similarity |
| FileNames.IsImageName | services/calc_service/app.py:113 | the extension test: the lower-cased name ends with `.png`, `.jpg`, `.jpeg` or `.webp`. Its properties are stated by `IsImageNameIgnoresCase`, `IsImageNameSuffix`, `IsImageNameOfEnding` and the examples below |
| FileNames.Lower | services/calc_service/app.py:113 | lower-casing keeps the length and maps each character on its own |
| FileNames.LowerIdempotent | services/calc_service/app.py:113 | lower-casing twice is lower-casing once |
| FileNames.LowerAppend | services/calc_service/app.py:113 | lower-casing a concatenation lower-cases each part |
| FileNames.SameIgnoringCaseLower | services/calc_service/app.py:113 | two names are equal ignoring case exactly when their lower-cased forms are equal |
| FileNames.IsImageNameIgnoresCase | services/calc_service/app.py:113 | two names that differ only in letter case are both accepted or both rejected by the extension filter |
| FileNames.IsImageNameSuffix | services/calc_service/app.py:113 | only the ending matters: putting anything in front of an accepted name keeps it accepted |
| FileNames.IsImageNameOfEnding | services/calc_service/app.py:113-115 | a path ending in an accepted file name is itself accepted |
| FileNames.AcceptsUpperCase | services/calc_service/app.py:113 | `PHOTO.JPG` passes the filter |
| FileNames.AcceptsMixedCase | services/calc_service/app.py:113 | `a.JpEg` passes the filter |
| FileNames.AcceptsBareExtension | services/calc_service/app.py:113 | a name that is only an extension, `.webp`, passes the filter |
| FileNames.RejectsOtherExtensions | services/calc_service/app.py:113 | `photo.png.bak` and `photo.gif` are rejected: the extension must end the name |
| FileNames.RejectsWithoutDot | services/calc_service/app.py:113 | `png` and the empty name are rejected: the dot is part of the extension |
| StableSort.Insert | services/calc_service/app.py:138 | inserting into a sorted sequence keeps it sorted, adds one element and brings in nothing but the new one and the old ones |
| StableSort.InsertPermutes | services/calc_service/app.py:138 | insertion adds exactly the new element to the multiset |
| StableSort.InsertWithKey | services/calc_service/app.py:138 | among elements of any one key, the inserted element goes first and the others keep their order |
| StableSort.Sort | services/calc_service/app.py:138 | the result is sorted by key, a permutation of the input, and stable: for every key, the elements with that key keep their input order |
| StableSort.StableSortUnique | services/calc_service/app.py:138 | two sorted sequences that hold, key by key, the same elements in the same order are equal |
| StableSort.SortIsTheStableSort | services/calc_service/app.py:138 | any sorted and stable rearrangement of the input equals `Sort`'s result, so every stable sort orders the entries as the source does |
| StableSort.SortedPrefixIsSmallest | services/calc_service/app.py:138-139 | in a sorted sequence, no element of a prefix has a larger key than an element left out |
| StableSort.SortOfSorted | services/calc_service/app.py:138 | sorting already-sorted input changes nothing |
| Slicing.Prefix | services/calc_service/app.py:139 | `xs[:stop]` is a prefix of `xs`; for `stop >= 0` its length is `min(stop, len(xs))`, for `stop < 0` it is `max(len(xs) + stop, 0)` |
| Slicing.PrefixDropsTail | services/calc_service/app.py:139 | a negative bound `-n` drops exactly the last `n` elements |
| Slicing.PrefixOfNegativeBeyondLength | services/calc_service/app.py:139 | a negative bound reaching past the front gives the empty list |
| Slicing.PrefixBeyondLength | services/calc_service/app.py:139 | a bound at least the length keeps the whole list |
| SimilarImages.Join | services/calc_service/app.py:115 | the joined candidate path ends with the file name |
| SimilarImages.JoinUnderDirectory | services/calc_service/app.py:115 | an absolute file name replaces the directory; a relative one follows the directory as a component of its own: a `/` stands right before it whenever the directory is not empty, and that `/` is added exactly when the directory does not already end in one |
| SimilarImages.Walked | services/calc_service/app.py:111-112 | the files of the walk in the order the two loops meet them. `SimilarLemmas.WalkedMembership` states which files these are, and `SimilarImages.WalkedAppend` that walking more steps appends their files |
| SimilarLemmas.WalkedMembership | services/calc_service/app.py:111-112 | a file is met by the walk exactly when some walk step lists its name under that step's root |
| SimilarImages.IsTarget | services/calc_service/app.py:117-122 | self-exclusion: the file is the target when `samefile` says so; when `samefile` raises, when its absolute path equals the target's. `SimilarLemmas.SimilarEntries` proves no reply entry satisfies it |
| SimilarImages.Visit | services/calc_service/app.py:113-136 | the loop body for one file. `SimilarLemmas.VisitAccepts` states exactly when it yields an entry |
| SimilarImages.ScanFiles | services/calc_service/app.py:112-136 | the entries the loop body collects over a run of files. `SimilarLemmas.ScanIsStaged`, `ScanEntryOrigin`, `ScanEntryFacts`, `FailingFileSkipped` and `ScoredFileKept` state its properties |
| SimilarImages.Scan | services/calc_service/app.py:110-136 | the entries collected over the whole walk. `SimilarImages.CollectResults` proves the source's nested loops compute it |
| SimilarImages.DistanceOf | services/calc_service/app.py:138 | the sort key, the entry's distance. `SimilarLemmas.SimilarRanking` and `SimilarKeepsNearest` state the ranking by it |
| SimilarImages.TargetPath | services/calc_service/app.py:96-100 | the target path, with an absent path read as empty. `SimilarLemmas.SimilarRefusals` shows both are refused as "not found" |
| SimilarImages.SearchDir | services/calc_service/app.py:97 | the search directory, the reference directory when the request gives none. `SimilarLemmas.SimilarRefusals` states the directory check on it |
| SimilarImages.TopK | services/calc_service/app.py:98 | `top_k`, 5 when the request gives none. `SimilarLemmas.SimilarDefaultLength` states the resulting reply length |
| SimilarImages.Similar | services/calc_service/app.py:93-139 | a successful reply echoes the non-empty target path and is sorted by distance. `SimilarLemmas.SimilarRefusals`, `SimilarRanking`, `SimilarEntries` and `SimilarKeepsNearest` state the rest |
| SimilarImages.Score | services/calc_service/app.py:124-136 | a file is scored exactly when its hash is readable, has the target's size, and the size is non-zero; a score carries the file's path and hash, a distance within `max_bits` that is zero exactly for an equal hash, and a similarity in [0, 1] that is 1 exactly at distance 0 |
| SimilarImages.ScanDirectory | services/calc_service/app.py:112-136 | the loop over one directory's files, taking each file's verdict from `Visit`, collects exactly the entries of the functional scan of that listing, in listing order |
| SimilarImages.CollectResults | services/calc_service/app.py:110-136 | the nested loops over the whole walk collect exactly the scan's entries, in walk order |
| SimilarLemmas.VisitAccepts | services/calc_service/app.py:113-136 | a file yields an entry exactly when its name has an image extension, it is not the target, and its hash is readable and of the target's non-zero size; the entry carries the joined path |
| SimilarLemmas.FailingFileSkipped | services/calc_service/app.py:135-136 | a file that yields no entry leaves the entries of the files before and after it untouched: the scan goes on |
| SimilarLemmas.ScoredFileKept | services/calc_service/app.py:124-134 | a scored file contributes exactly one entry, in its place in the walk |
| SimilarLemmas.ScanIsStaged | services/calc_service/app.py:111-136 | the one-pass loop equals the pipeline of three stages: filter by extension, drop the target, then score and skip failures |
| SimilarLemmas.ScanEntryOrigin | services/calc_service/app.py:110-136 | an entry is in the scan exactly when some walked file has an image name, is not the target, and scores to that entry |
| SimilarLemmas.ScanEntryFacts | services/calc_service/app.py:113-134 | each collected entry is not the target and has an image name; its hash is the file's hash, of the target's size; its distance counts the differing bits and is within `max_bits`; its similarity is `1 - distance/max_bits`, lies in [0, 1], and is 1 exactly when the hashes are equal |
| SimilarLemmas.SimilarRefusals | services/calc_service/app.py:100-106 | the target is "not found" exactly when its path is absent, empty or does not exist; the search directory is "not found" exactly when the target exists and the directory is not a directory; the target is unreadable exactly when both checks pass and hashing the target fails; the request succeeds in every other case |
| SimilarLemmas.SimilarRanking | services/calc_service/app.py:138-139 | the reply is sorted by distance and is a prefix of a stable permutation of the scored entries; its length is `min(top_k, n)` for `top_k >= 0` and `max(n + top_k, 0)` otherwise |
| SimilarLemmas.SimilarDefaultLength | services/calc_service/app.py:98 | without `top_k` the reply holds `min(5, n)` entries |
| SimilarLemmas.SimilarEntries | services/calc_service/app.py:113-128 | no reply entry is the target; every entry has an image path, a distance within `max_bits` and a similarity `1 - distance/max_bits` in [0, 1] |
| SimilarLemmas.SimilarKeepsNearest | services/calc_service/app.py:138-139 | every scored entry left out of the reply is at least as far from the target as every entry kept |
| SimilarLemmas.SimilarSimilarityDescends | services/calc_service/app.py:128-139 | down the reply, similarity never increases |
| SimilarLemmas.SimilarityFollowsDistance | services/calc_service/app.py:128-138 | entries sorted by distance, with similarity computed from distance, have non-increasing similarity |
| SimilarLemmas.ExampleDistances | services/calc_service/app.py:127 | the example's 9-bit hashes are at distances 0, 2, 5 and 9 from the example target |
| SimilarLemmas.ExampleEntriesScored | services/calc_service/app.py:124-134 | scoring five files with the example hashes against the example target gives the five example entries, with similarity `1 - d/9` |
| SimilarLemmas.TiesKeepWalkOrder | services/calc_service/app.py:138-139 | ranking those five entries, met at distances 5, 0, 5, 9, 2, and keeping the first four gives the entries at 0, 2, 5, 5. The two tied entries keep their walk order |

## Left out

- The HTTP layer is not modelled: Flask routing, JSON parsing and the status codes. A refusal is a `Failure` value rather than a 400 response.
- `TargetUnreadable` stands for an exception the handler does not catch, so the real service answers with a server error there, not a 400.
- The `/health`, `/sum` and `/plot` endpoints and the plotting code are not part of this model.
- PIL and `imagehash` are not modelled. The perceptual hash of a path is an uninterpreted `phash` field of `World`, with `None` meaning opening or hashing raised.
- The hex string of a hash (`str(h)`) in each entry is not modelled. An entry carries the hash bits themselves.
- A hash is a flat bit sequence. Subtracting two hashes is modelled as requiring equal sizes and counting the differing bits of the flattened hashes; the `imagehash` library itself is not part of this model.
- `os.walk`, `os.path.exists`, `os.path.isdir`, `os.path.abspath` and `os.path.samefile` are fields of `World`. The walk is the sequence of (root, file names) pairs in the order the directory iterator gives them.
- `round(sim, 4)` and floating-point division are not modelled. Similarity is an exact real number.
- `int(data.get("top_k", 5))` is modelled after the conversion. A `top_k` that does not convert raises in the source and is not modelled.
- A `search_dir` given as JSON `null` makes `os.path.isdir` raise in the source. This is not modelled: a request either names a directory or leaves the key out.
- `FileNames.Lower` lower-cases ASCII letters only. Python's `str.lower` also maps non-ASCII letters, but the only ones whose lower case contains an ASCII letter are U+0130 (to `i` followed by U+0307) and U+212A (to `k`). No accepted extension contains `i` or `k`, so `IsImageName` gives the same verdict as `fname.lower().endswith(...)` on every name.
- `SimilarImages.Join` models `os.path.join` on POSIX for two components only. Windows path rules are not modelled.
