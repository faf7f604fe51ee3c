/**
 * The near-duplicate remover: images are bucketed by their perceptual-hash
 * string, buckets are merged greedily around seeds whose hash distance is within
 * a threshold, one image per group (the earliest) is copied out, and the report
 * and the statistics are derived from the groups.
 *
 * Hashing, the hash distance, creation times and all file operations are
 * parameters: a hash is an opaque string, the distance an arbitrary function to
 * naturals, the creation time an arbitrary function to integers.
 */
module DedupePhotos {
  import opened Wrappers
  import opened Text
  import opened Sorting

  /** The extensions treated as HEIC when copying out. */
  const HeicExtensions: seq<string> := [".heic", ".heif"]

  /** A successful `compute_image_hash`: the image path and its hash string. */
  datatype Hashed = Hashed(path: string, hash: string)

  /** One entry of `hash_dict`: a hash string and the images that have it, in result order. */
  datatype Bucket = Bucket(hash: string, paths: seq<string>)

  // ---------------------------------------------------------------------
  // What the hash results contain

  /** The distinct hash strings among the successful results. */
  function Hashes(results: seq<Option<Hashed>>): set<string> {
    if results == [] then {}
    else
      var last := results[|results| - 1];
      Hashes(results[..|results| - 1]) + (if last.Some? then {last.value.hash} else {})
  }

  /** The paths of the successfully hashed images. */
  function HashedPaths(results: seq<Option<Hashed>>): set<string> {
    if results == [] then {}
    else
      var last := results[|results| - 1];
      HashedPaths(results[..|results| - 1]) + (if last.Some? then {last.value.path} else {})
  }

  /** The paths whose hash is `hash`, in result order, repeats kept. */
  function PathsWithHash(results: seq<Option<Hashed>>, hash: string): seq<string> {
    if results == [] then []
    else
      var last := results[|results| - 1];
      PathsWithHash(results[..|results| - 1], hash)
        + (if last.Some? && last.value.hash == hash then [last.value.path] else [])
  }

  /** No image was hashed to two different strings. */
  predicate ConsistentHashes(results: seq<Option<Hashed>>) {
    forall i, j ::
      (0 <= i < |results| && 0 <= j < |results| && results[i].Some? && results[j].Some?
       && results[i].value.path == results[j].value.path) ==> results[i].value.hash == results[j].value.hash
  }

  lemma {:induction false} PathsWithHashOrigin(results: seq<Option<Hashed>>, hash: string, path: string)
    requires path in PathsWithHash(results, hash)
    ensures exists i :: 0 <= i < |results| && results[i] == Some(Hashed(path, hash))
  {
    var init := results[..|results| - 1];
    if path in PathsWithHash(init, hash) {
      PathsWithHashOrigin(init, hash, path);
      var i :| 0 <= i < |init| && init[i] == Some(Hashed(path, hash));
      assert results[i] == init[i];
    } else {
      assert results[|results| - 1] == Some(Hashed(path, hash));
    }
  }

  lemma {:induction false} PathsWithHashNonEmpty(results: seq<Option<Hashed>>, hash: string)
    requires hash in Hashes(results)
    ensures PathsWithHash(results, hash) != []
  {
    var init := results[..|results| - 1];
    if hash in Hashes(init) {
      PathsWithHashNonEmpty(init, hash);
    }
  }

  // ---------------------------------------------------------------------
  // hash_dict, an insertion-ordered dict of lists

  /** `hash_dict.get(hash, [])`. */
  function PathsFor(buckets: seq<Bucket>, hash: string): seq<string> {
    if buckets == [] then []
    else if buckets[0].hash == hash then buckets[0].paths
    else PathsFor(buckets[1..], hash)
  }

  /** The keys of `hash_dict`. */
  function BucketHashes(buckets: seq<Bucket>): set<string> {
    if buckets == [] then {} else {buckets[0].hash} + BucketHashes(buckets[1..])
  }

  /** Every path held by some bucket. */
  function AllPaths(buckets: seq<Bucket>): set<string> {
    if buckets == [] then {} else (set p | p in buckets[0].paths) + AllPaths(buckets[1..])
  }

  predicate DistinctHashes(buckets: seq<Bucket>) {
    forall i, j :: 0 <= i < j < |buckets| ==> buckets[i].hash != buckets[j].hash
  }

  /** Paths held by different buckets are different. */
  predicate DisjointBuckets(buckets: seq<Bucket>) {
    forall i, j, p :: 0 <= i < |buckets| && 0 <= j < |buckets| && i != j && p in buckets[i].paths
      ==> p !in buckets[j].paths
  }

  /** `hash_dict.setdefault(hash, []).append(path)`: a new key goes last. */
  function AddPath(buckets: seq<Bucket>, hash: string, path: string): seq<Bucket> {
    if buckets == [] then [Bucket(hash, [path])]
    else if buckets[0].hash == hash then [Bucket(hash, buckets[0].paths + [path])] + buckets[1..]
    else [buckets[0]] + AddPath(buckets[1..], hash, path)
  }

  lemma {:induction false} InBucketHashes(buckets: seq<Bucket>, hash: string)
    ensures hash in BucketHashes(buckets) <==> exists i :: 0 <= i < |buckets| && buckets[i].hash == hash
  {
    if buckets != [] {
      InBucketHashes(buckets[1..], hash);
      if exists i :: 0 <= i < |buckets| && buckets[i].hash == hash {
        var i :| 0 <= i < |buckets| && buckets[i].hash == hash;
        if i > 0 { assert buckets[1..][i - 1].hash == hash; }
      }
      if exists i :: 0 <= i < |buckets[1..]| && buckets[1..][i].hash == hash {
        var i :| 0 <= i < |buckets[1..]| && buckets[1..][i].hash == hash;
        assert buckets[i + 1].hash == hash;
      }
    }
  }

  lemma {:induction false} InAllPaths(buckets: seq<Bucket>, path: string)
    ensures path in AllPaths(buckets) <==> exists i :: 0 <= i < |buckets| && path in buckets[i].paths
  {
    if buckets != [] {
      InAllPaths(buckets[1..], path);
      if exists i :: 0 <= i < |buckets| && path in buckets[i].paths {
        var i :| 0 <= i < |buckets| && path in buckets[i].paths;
        if i > 0 { assert path in buckets[1..][i - 1].paths; }
      }
      if exists i :: 0 <= i < |buckets[1..]| && path in buckets[1..][i].paths {
        var i :| 0 <= i < |buckets[1..]| && path in buckets[1..][i].paths;
        assert buckets[i + 1] == buckets[1..][i];
      }
    }
  }

  lemma {:induction false} PathsForAt(buckets: seq<Bucket>, i: nat)
    requires DistinctHashes(buckets) && i < |buckets|
    ensures PathsFor(buckets, buckets[i].hash) == buckets[i].paths
  {
    if i > 0 {
      assert buckets[0].hash != buckets[i].hash;
      PathsForAt(buckets[1..], i - 1);
    }
  }

  lemma HeadHashFresh(buckets: seq<Bucket>)
    requires DistinctHashes(buckets) && buckets != []
    ensures buckets[0].hash !in BucketHashes(buckets[1..])
  {
    InBucketHashes(buckets[1..], buckets[0].hash);
    forall k | 0 <= k < |buckets[1..]| ensures buckets[1..][k].hash != buckets[0].hash {
      assert buckets[1..][k] == buckets[k + 1];
    }
  }

  lemma {:induction false} DistinctHashesCount(buckets: seq<Bucket>)
    requires DistinctHashes(buckets)
    ensures |BucketHashes(buckets)| == |buckets|
  {
    if buckets != [] {
      DistinctHashesCount(buckets[1..]);
      HeadHashFresh(buckets);
    }
  }

  /** Appending one path: its key gains the path, the key set gains the hash, distinctness stays. */
  lemma {:induction false} AddPathEffect(buckets: seq<Bucket>, hash: string, path: string)
    ensures forall h :: PathsFor(AddPath(buckets, hash, path), h) == PathsFor(buckets, h) + (if h == hash then [path] else [])
    ensures BucketHashes(AddPath(buckets, hash, path)) == BucketHashes(buckets) + {hash}
    ensures AllPaths(AddPath(buckets, hash, path)) == AllPaths(buckets) + {path}
    ensures DistinctHashes(buckets) ==> DistinctHashes(AddPath(buckets, hash, path))
  {
    var r := AddPath(buckets, hash, path);
    if buckets == [] {
      assert r[1..] == [];
    } else if buckets[0].hash == hash {
      assert r[1..] == buckets[1..];
      assert (set p | p in buckets[0].paths + [path]) == (set p | p in buckets[0].paths) + {path};
      if DistinctHashes(buckets) {
        forall i, j | 0 <= i < j < |r| ensures r[i].hash != r[j].hash {
          assert r[j] == buckets[j];
          if i > 0 { assert r[i] == buckets[i]; }
        }
      }
    } else {
      var rest := AddPath(buckets[1..], hash, path);
      AddPathEffect(buckets[1..], hash, path);
      assert r[1..] == rest;
      if DistinctHashes(buckets) {
        assert DistinctHashes(buckets[1..]);
        HeadHashFresh(buckets);
        InBucketHashes(rest, buckets[0].hash);
        forall i, j | 0 <= i < j < |r| ensures r[i].hash != r[j].hash {
          if i == 0 {
            assert r[j] == rest[j - 1];
          } else {
            assert r[i] == rest[i - 1] && r[j] == rest[j - 1];
          }
        }
      }
    }
  }

  /** `buckets` is `hash_dict` after the results have been consumed. */
  ghost predicate Bucketed(results: seq<Option<Hashed>>, buckets: seq<Bucket>) {
    && DistinctHashes(buckets)
    && (forall h :: PathsFor(buckets, h) == PathsWithHash(results, h))
    && BucketHashes(buckets) == Hashes(results)
    && AllPaths(buckets) == HashedPaths(results)
  }

  /** One more result, as the specification functions see it. */
  lemma ResultsStep(results: seq<Option<Hashed>>, result: Option<Hashed>)
    ensures result.None? ==>
      && Hashes(results + [result]) == Hashes(results)
      && HashedPaths(results + [result]) == HashedPaths(results)
      && forall h :: PathsWithHash(results + [result], h) == PathsWithHash(results, h)
    ensures result.Some? ==>
      && Hashes(results + [result]) == Hashes(results) + {result.value.hash}
      && HashedPaths(results + [result]) == HashedPaths(results) + {result.value.path}
      && forall h :: PathsWithHash(results + [result], h)
                       == PathsWithHash(results, h) + (if h == result.value.hash then [result.value.path] else [])
  {
    assert (results + [result])[..|results|] == results;
  }

  lemma BucketedStep(results: seq<Option<Hashed>>, buckets: seq<Bucket>, result: Option<Hashed>)
    requires Bucketed(results, buckets)
    ensures Bucketed(results + [result],
                     if result.Some? then AddPath(buckets, result.value.hash, result.value.path) else buckets)
  {
    ResultsStep(results, result);
    if result.Some? {
      var (hash, path) := (result.value.hash, result.value.path);
      AddPathEffect(buckets, hash, path);
      var next := AddPath(buckets, hash, path);
      forall h ensures PathsFor(next, h) == PathsWithHash(results + [result], h) {
        assert PathsFor(buckets, h) == PathsWithHash(results, h);
      }
    }
  }

  /**
   * The first loop of `find_similar_images`: failed hashes are dropped, and each
   * hash string gets one bucket holding its images in result order.
   */
  method BucketByHash(results: seq<Option<Hashed>>) returns (buckets: seq<Bucket>)
    ensures DistinctHashes(buckets)
    ensures BucketHashes(buckets) == Hashes(results) && |buckets| == |Hashes(results)|
    ensures forall i :: 0 <= i < |buckets| ==>
      buckets[i].paths == PathsWithHash(results, buckets[i].hash) && buckets[i].paths != []
    ensures AllPaths(buckets) == HashedPaths(results)
  {
    buckets := [];
    for i := 0 to |results|
      invariant Bucketed(results[..i], buckets)
    {
      BucketedStep(results[..i], buckets, results[i]);
      assert results[..i + 1] == results[..i] + [results[i]];
      match results[i]
      case Some(Hashed(path, hash)) =>
        buckets := AddPath(buckets, hash, path);
      case None =>
    }
    assert results[..|results|] == results;
    DistinctHashesCount(buckets);
    forall i | 0 <= i < |buckets|
      ensures buckets[i].paths == PathsWithHash(results, buckets[i].hash) && buckets[i].paths != []
    {
      PathsForAt(buckets, i);
      InBucketHashes(buckets, buckets[i].hash);
      PathsWithHashNonEmpty(results, buckets[i].hash);
    }
  }

  /** A path whose every result carries `hash0` is in no other hash's list. */
  lemma {:induction false} PathsWithOtherHash(results: seq<Option<Hashed>>, path: string, hash0: string, hash: string)
    requires forall k :: 0 <= k < |results| && results[k].Some? && results[k].value.path == path ==>
      results[k].value.hash == hash0
    requires hash != hash0
    ensures path !in PathsWithHash(results, hash)
  {
    if results != [] {
      var init := results[..|results| - 1];
      PathsWithOtherHash(init, path, hash0, hash);
    }
  }

  /** When every image has one hash, no path sits in two buckets. */
  lemma ConsistentHashesGiveDisjointBuckets(results: seq<Option<Hashed>>, buckets: seq<Bucket>)
    requires ConsistentHashes(results) && DistinctHashes(buckets)
    requires forall i :: 0 <= i < |buckets| ==> buckets[i].paths == PathsWithHash(results, buckets[i].hash)
    ensures DisjointBuckets(buckets)
  {
    forall i, j, p | 0 <= i < |buckets| && 0 <= j < |buckets| && i != j && p in buckets[i].paths
      ensures p !in buckets[j].paths
    {
      PathsWithHashOrigin(results, buckets[i].hash, p);
      var a :| 0 <= a < |results| && results[a] == Some(Hashed(p, buckets[i].hash));
      PathsWithOtherHash(results, p, buckets[i].hash, buckets[j].hash);
    }
  }

  // ---------------------------------------------------------------------
  // Greedy grouping

  /** The images of the buckets that `owner` assigns to group `g`. */
  function Members(buckets: seq<Bucket>, owner: seq<nat>, g: nat): set<string>
    requires |owner| == |buckets|
  {
    set j, p | 0 <= j < |buckets| && owner[j] == g && p in buckets[j].paths :: p
  }

  /**
   * The grouping loop's result, stated without its loop: bucket `j` ends in group
   * `owner[j]`, group `g` was opened by bucket `seeds[g]`. A group is opened by the
   * first bucket no earlier group took, and it takes exactly those buckets not
   * taken earlier whose distance from the seed's hash is within the threshold,
   * whatever their distance to the other members.
   */
  ghost predicate IsGreedyGrouping(buckets: seq<Bucket>, distance: (string, string) -> nat, threshold: int,
                                   groups: seq<set<string>>, owner: seq<nat>, seeds: seq<nat>)
  {
    && |owner| == |buckets| && |seeds| == |groups|
    && (forall j :: 0 <= j < |owner| ==> owner[j] < |groups|)
    && (forall g :: 0 <= g < |seeds| ==> seeds[g] < |buckets| && owner[seeds[g]] == g)
    && (forall g, j :: 0 <= g < |seeds| && 0 <= j < seeds[g] ==> owner[j] < g)
    && (forall g, j :: 0 <= g < |seeds| && 0 <= j < |owner| && j != seeds[g] && owner[j] >= g ==>
          (owner[j] == g <==> distance(buckets[seeds[g]].hash, buckets[j].hash) <= threshold))
    && (forall g :: 0 <= g < |groups| ==> groups[g] == Members(buckets, owner, g))
  }

  lemma MembersFrame(buckets: seq<Bucket>, owner: seq<nat>, owner': seq<nat>, g: nat)
    requires |owner| == |buckets| == |owner'|
    requires forall j :: 0 <= j < |buckets| ==> (owner[j] == g <==> owner'[j] == g)
    ensures Members(buckets, owner, g) == Members(buckets, owner', g)
  {
  }

  lemma MembersAdd(buckets: seq<Bucket>, owner: seq<nat>, j: nat, g: nat)
    requires |owner| == |buckets| && j < |buckets| && owner[j] != g
    ensures Members(buckets, owner[j := g], g) == Members(buckets, owner, g) + (set p | p in buckets[j].paths)
  {
    var owner' := owner[j := g];
    forall p | p in Members(buckets, owner', g)
      ensures p in Members(buckets, owner, g) + (set p | p in buckets[j].paths)
    {
      var k :| 0 <= k < |buckets| && owner'[k] == g && p in buckets[k].paths;
      if k != j {
        assert owner[k] == g;
      }
    }
  }

  /** The grouping loop's state before bucket `i` is looked at. */
  ghost predicate GroupingSoFar(buckets: seq<Bucket>, distance: (string, string) -> nat, threshold: int,
                                groups: seq<set<string>>, owner: seq<nat>, seeds: seq<nat>,
                                processed: set<string>, i: nat)
  {
    var n := |buckets|;
    && i <= n && |owner| == n && |seeds| == |groups| <= i
    && (forall j :: 0 <= j < n ==> owner[j] < |groups| || owner[j] == n)
    && (forall j :: 0 <= j < i ==> owner[j] < |groups|)
    && (forall j :: 0 <= j < n ==> (buckets[j].hash in processed <==> owner[j] != n))
    && (forall g :: 0 <= g < |seeds| ==> seeds[g] < i && owner[seeds[g]] == g)
    && (forall g, j :: 0 <= g < |seeds| && 0 <= j < seeds[g] ==> owner[j] < g)
    && (forall g, j :: 0 <= g < |seeds| && 0 <= j < n && j != seeds[g] && owner[j] >= g ==>
          (owner[j] == g <==> distance(buckets[seeds[g]].hash, buckets[j].hash) <= threshold))
    && (forall g :: 0 <= g < |groups| ==> groups[g] == Members(buckets, owner, g))
  }

  /**
   * One pass of the inner loop, seeded by the unprocessed bucket `i`: the group
   * starts with the seed's images and takes every unprocessed bucket within the
   * threshold of the seed's hash. `owner` marks unprocessed buckets with |buckets|
   * and the new group is `g`.
   */
  method GrowGroup(buckets: seq<Bucket>, distance: (string, string) -> nat, threshold: int, i: nat,
                   processed: set<string>, ghost owner: seq<nat>, ghost g: nat)
    returns (current: set<string>, processed': set<string>, ghost owner': seq<nat>)
    requires DistinctHashes(buckets) && i < |buckets| && |owner| == |buckets| && g < |buckets|
    requires owner[i] == |buckets|
    requires forall j :: 0 <= j < |buckets| ==> (buckets[j].hash in processed <==> owner[j] != |buckets|)
    requires forall j :: 0 <= j < |buckets| ==> owner[j] != g
    ensures |owner'| == |buckets| && owner'[i] == g
    ensures forall k :: 0 <= k < |buckets| ==>
      owner'[k] == owner[k] || (owner[k] == |buckets| && owner'[k] == g)
    ensures forall k :: 0 <= k < |buckets| && k != i && owner[k] == |buckets| ==>
      (owner'[k] == g <==> distance(buckets[i].hash, buckets[k].hash) <= threshold)
    ensures forall j :: 0 <= j < |buckets| ==> (buckets[j].hash in processed' <==> owner'[j] != |buckets|)
    ensures current == Members(buckets, owner', g)
  {
    var n := |buckets|;
    var seed := buckets[i];
    current := set p | p in seed.paths;
    processed' := processed + {seed.hash};
    MembersAdd(buckets, owner, i, g);
    assert Members(buckets, owner, g) == {};
    owner' := owner[i := g];
    for j := 0 to n
      invariant |owner'| == n && owner'[i] == g
      invariant forall k :: 0 <= k < n ==>
        owner'[k] == owner[k] || (k == i && owner'[k] == g) || (k < j && owner[k] == n && owner'[k] == g)
      invariant forall k :: 0 <= k < j && k != i && owner[k] == n ==>
        (owner'[k] == g <==> distance(seed.hash, buckets[k].hash) <= threshold)
      invariant forall k :: 0 <= k < n ==> (buckets[k].hash in processed' <==> owner'[k] != n)
      invariant current == Members(buckets, owner', g)
    {
      var other := buckets[j];
      if !(other.hash in processed' || other.hash == seed.hash) {
        if distance(seed.hash, other.hash) <= threshold {
          MembersAdd(buckets, owner', j, g);
          current := current + (set p | p in other.paths);
          processed' := processed' + {other.hash};
          owner' := owner'[j := g];
        }
      }
    }
  }

  lemma GroupingStart(buckets: seq<Bucket>, distance: (string, string) -> nat, threshold: int)
    ensures GroupingSoFar(buckets, distance, threshold, [], seq(|buckets|, _ => |buckets|), [], {}, 0)
  {
  }

  /** Closing the group seeded by bucket `i` keeps the loop's state consistent. */
  lemma GroupingStep(buckets: seq<Bucket>, distance: (string, string) -> nat, threshold: int,
                     groups: seq<set<string>>, owner: seq<nat>, seeds: seq<nat>, processed: set<string>,
                     i: nat, current: set<string>, processed': set<string>, owner': seq<nat>)
    requires GroupingSoFar(buckets, distance, threshold, groups, owner, seeds, processed, i)
    requires i < |buckets| && owner[i] == |buckets|
    requires |owner'| == |buckets| && owner'[i] == |groups|
    requires forall k :: 0 <= k < |buckets| ==>
      owner'[k] == owner[k] || (owner[k] == |buckets| && owner'[k] == |groups|)
    requires forall k :: 0 <= k < |buckets| && k != i && owner[k] == |buckets| ==>
      (owner'[k] == |groups| <==> distance(buckets[i].hash, buckets[k].hash) <= threshold)
    requires forall j :: 0 <= j < |buckets| ==> (buckets[j].hash in processed' <==> owner'[j] != |buckets|)
    requires current == Members(buckets, owner', |groups|)
    ensures GroupingSoFar(buckets, distance, threshold, groups + [current], owner', seeds + [i], processed', i + 1)
  {
    var n := |buckets|;
    var g := |groups|;
    var groups' := groups + [current];
    var seeds' := seeds + [i];
    forall g' | 0 <= g' < |groups'| ensures groups'[g'] == Members(buckets, owner', g') {
      if g' < g {
        MembersFrame(buckets, owner, owner', g');
      }
    }
    forall g', j | 0 <= g' < |seeds'| && 0 <= j < n && j != seeds'[g'] && owner'[j] >= g'
      ensures owner'[j] == g' <==> distance(buckets[seeds'[g']].hash, buckets[j].hash) <= threshold
    {
    }
  }

  /** Before the loop opens a group at an unprocessed bucket `i`, the inner loop's demands hold. */
  lemma GroupingReady(buckets: seq<Bucket>, distance: (string, string) -> nat, threshold: int,
                      groups: seq<set<string>>, owner: seq<nat>, seeds: seq<nat>, processed: set<string>, i: nat)
    requires GroupingSoFar(buckets, distance, threshold, groups, owner, seeds, processed, i)
    requires i < |buckets| && buckets[i].hash !in processed
    ensures |owner| == |buckets| && owner[i] == |buckets| && |groups| < |buckets|
    ensures forall j :: 0 <= j < |buckets| ==> (buckets[j].hash in processed <==> owner[j] != |buckets|)
    ensures forall j :: 0 <= j < |buckets| ==> owner[j] != |groups|
  {
  }

  lemma GroupingSkip(buckets: seq<Bucket>, distance: (string, string) -> nat, threshold: int,
                     groups: seq<set<string>>, owner: seq<nat>, seeds: seq<nat>, processed: set<string>, i: nat)
    requires GroupingSoFar(buckets, distance, threshold, groups, owner, seeds, processed, i)
    requires i < |buckets| && buckets[i].hash in processed
    ensures GroupingSoFar(buckets, distance, threshold, groups, owner, seeds, processed, i + 1)
  {
  }

  lemma GroupingEnd(buckets: seq<Bucket>, distance: (string, string) -> nat, threshold: int,
                    groups: seq<set<string>>, owner: seq<nat>, seeds: seq<nat>, processed: set<string>)
    requires GroupingSoFar(buckets, distance, threshold, groups, owner, seeds, processed, |buckets|)
    ensures IsGreedyGrouping(buckets, distance, threshold, groups, owner, seeds)
  {
  }

  /**
   * The grouping loop of `find_similar_images`. `processed` holds hash strings;
   * as the keys of `hash_dict` are distinct, a hash is processed exactly when its
   * bucket has been given a group.
   */
  method GroupSimilar(buckets: seq<Bucket>, distance: (string, string) -> nat, threshold: int)
    returns (groups: seq<set<string>>, ghost owner: seq<nat>, ghost seeds: seq<nat>)
    requires DistinctHashes(buckets)
    ensures IsGreedyGrouping(buckets, distance, threshold, groups, owner, seeds)
    ensures |groups| <= |buckets|
  {
    groups := [];
    var processed: set<string> := {};
    owner := seq(|buckets|, _ => |buckets|);
    seeds := [];
    GroupingStart(buckets, distance, threshold);
    for i := 0 to |buckets|
      invariant GroupingSoFar(buckets, distance, threshold, groups, owner, seeds, processed, i)
    {
      if buckets[i].hash !in processed {
        GroupingReady(buckets, distance, threshold, groups, owner, seeds, processed, i);
        var current, processed', owner' :=
          GrowGroup(buckets, distance, threshold, i, processed, owner, |groups|);
        GroupingStep(buckets, distance, threshold, groups, owner, seeds, processed, i, current, processed', owner');
        groups, processed, owner, seeds := groups + [current], processed', owner', seeds + [i];
      } else {
        GroupingSkip(buckets, distance, threshold, groups, owner, seeds, processed, i);
      }
    }
    GroupingEnd(buckets, distance, threshold, groups, owner, seeds, processed);
  }

  /**
   * What the greedy grouping guarantees: the groups cover exactly the bucketed
   * images, each group is non-empty when every bucket is, and groups are
   * pairwise disjoint when no image sits in two buckets.
   */
  lemma GroupingPartitions(buckets: seq<Bucket>, distance: (string, string) -> nat, threshold: int,
                           groups: seq<set<string>>, owner: seq<nat>, seeds: seq<nat>)
    requires IsGreedyGrouping(buckets, distance, threshold, groups, owner, seeds)
    ensures forall p :: (exists g :: 0 <= g < |groups| && p in groups[g]) <==> p in AllPaths(buckets)
    ensures (forall j :: 0 <= j < |buckets| ==> buckets[j].paths != []) ==>
      forall g :: 0 <= g < |groups| ==> groups[g] != {}
    ensures DisjointBuckets(buckets) ==>
      forall g1, g2 :: 0 <= g1 < g2 < |groups| ==> groups[g1] !! groups[g2]
  {
    forall p ensures (exists g :: 0 <= g < |groups| && p in groups[g]) <==> p in AllPaths(buckets) {
      InAllPaths(buckets, p);
      if p in AllPaths(buckets) {
        var j :| 0 <= j < |buckets| && p in buckets[j].paths;
        assert p in groups[owner[j]];
      }
    }
    if forall j :: 0 <= j < |buckets| ==> buckets[j].paths != [] {
      forall g | 0 <= g < |groups| ensures groups[g] != {} {
        var s := seeds[g];
        assert owner[s] == g && buckets[s].paths[0] in buckets[s].paths;
        assert buckets[s].paths[0] in Members(buckets, owner, g);
      }
    }
    if DisjointBuckets(buckets) {
      forall g1, g2 | 0 <= g1 < g2 < |groups| ensures groups[g1] !! groups[g2] {
        forall p | p in groups[g1] ensures p !in groups[g2] {
          var j1 :| 0 <= j1 < |buckets| && owner[j1] == g1 && p in buckets[j1].paths;
          forall j2 | 0 <= j2 < |buckets| && owner[j2] == g2 ensures p !in buckets[j2].paths {
            assert j1 != j2;
          }
        }
      }
    }
  }

  /** Seeds are taken in bucket order. */
  lemma GroupingSeedsAscending(buckets: seq<Bucket>, distance: (string, string) -> nat, threshold: int,
                               groups: seq<set<string>>, owner: seq<nat>, seeds: seq<nat>)
    requires IsGreedyGrouping(buckets, distance, threshold, groups, owner, seeds)
    ensures forall g1, g2 :: 0 <= g1 < g2 < |seeds| ==> seeds[g1] < seeds[g2]
  {
    forall g1, g2 | 0 <= g1 < g2 < |seeds| ensures seeds[g1] < seeds[g2] {
      assert owner[seeds[g1]] == g1 && owner[seeds[g2]] == g2;
    }
  }

  function ChainDistance(a: string, b: string): nat {
    if {a, b} == {"a", "b"} || {a, b} == {"b", "c"} then 1 else 10
  }

  /**
   * Merging is not transitive: with a threshold of 5, bucket "b" is close to
   * both "a" and "c", yet "c" ends in a group of its own because only the seed's
   * distance counts.
   */
  lemma GroupingNotTransitive(groups: seq<set<string>>, owner: seq<nat>, seeds: seq<nat>)
    requires IsGreedyGrouping([Bucket("a", ["1.jpg"]), Bucket("b", ["2.jpg"]), Bucket("c", ["3.jpg"])],
                              ChainDistance, 5, groups, owner, seeds)
    ensures owner[0] == owner[1] && owner[2] != owner[0]
    ensures groups[0] == {"1.jpg", "2.jpg"}
  {
    var buckets := [Bucket("a", ["1.jpg"]), Bucket("b", ["2.jpg"]), Bucket("c", ["3.jpg"])];
    assert owner[0] < |groups|;
    assert seeds[0] == 0 by { assert 0 <= owner[0]; }
    assert owner[0] == 0;
    assert ChainDistance("a", "b") == 1;
    assert ChainDistance("a", "c") == 10;
    assert owner[1] == 0;
    assert owner[2] != 0;
    assert groups[0] == Members(buckets, owner, 0);
    forall p | p in groups[0] ensures p == "1.jpg" || p == "2.jpg" {
      var k :| 0 <= k < 3 && owner[k] == 0 && p in buckets[k].paths;
    }
    assert "1.jpg" in buckets[0].paths && "2.jpg" in buckets[1].paths;
  }

  // ---------------------------------------------------------------------
  // find_similar_images

  predicate NoDuplicates(l: seq<string>) {
    forall i, j :: 0 <= i < j < |l| ==> l[i] != l[j]
  }

  /** `list(s)`: the elements of a set in an order the caller cannot rely on. */
  method ListOfSet(s: set<string>) returns (l: seq<string>)
    ensures forall p :: p in l <==> p in s
    ensures NoDuplicates(l) && |l| == |s|
  {
    l := [];
    var rest := s;
    while rest != {}
      invariant rest <= s
      invariant forall p :: p in l <==> p in s - rest
      invariant NoDuplicates(l) && |l| + |rest| == |s|
      decreases |rest|
    {
      var p :| p in rest;
      assert p !in l;
      l := l + [p];
      rest := rest - {p};
    }
  }

  /** `similar_groups.append(list(current_group))` for every group. */
  method ListGroups(sets: seq<set<string>>) returns (groups: seq<seq<string>>)
    ensures |groups| == |sets|
    ensures forall k :: 0 <= k < |groups| ==>
      (forall p :: p in groups[k] <==> p in sets[k]) && NoDuplicates(groups[k]) && |groups[k]| == |sets[k]|
  {
    groups := [];
    for g := 0 to |sets|
      invariant |groups| == g
      invariant forall k :: 0 <= k < g ==>
        (forall p :: p in groups[k] <==> p in sets[k]) && NoDuplicates(groups[k]) && |groups[k]| == |sets[k]|
    {
      var members := ListOfSet(sets[g]);
      groups := groups + [members];
    }
  }

  /** Non-empty groups without repeats whose images are exactly `paths`. */
  ghost predicate CoverWithoutRepeats(groups: seq<seq<string>>, paths: set<string>) {
    && (forall g :: 0 <= g < |groups| ==> groups[g] != [] && NoDuplicates(groups[g]))
    && (forall p :: (exists g :: 0 <= g < |groups| && p in groups[g]) <==> p in paths)
  }

  /** No image is in two groups. */
  ghost predicate PairwiseDisjoint(groups: seq<seq<string>>) {
    forall g1, g2, p :: 0 <= g1 < g2 < |groups| && p in groups[g1] ==> p !in groups[g2]
  }

  /**
   * `find_similar_images` after hashing: the groups are non-empty lists without
   * repeats, they cover exactly the images that were hashed, there are at most as
   * many as distinct hash strings, and they are pairwise disjoint as long as no
   * image was hashed to two different strings.
   */
  method FindSimilarImages(results: seq<Option<Hashed>>, distance: (string, string) -> nat, threshold: int)
    returns (groups: seq<seq<string>>)
    ensures CoverWithoutRepeats(groups, HashedPaths(results))
    ensures |groups| <= |Hashes(results)|
    ensures ConsistentHashes(results) ==> PairwiseDisjoint(groups)
  {
    var buckets := BucketByHash(results);
    var sets, owner, seeds := GroupSimilar(buckets, distance, threshold);
    GroupingPartitions(buckets, distance, threshold, sets, owner, seeds);
    if ConsistentHashes(results) {
      ConsistentHashesGiveDisjointBuckets(results, buckets);
    }
    groups := ListGroups(sets);
    ListedSetsCover(sets, groups, HashedPaths(results));
  }

  /** Listing each set of a cover without repeats keeps it a cover, and keeps it disjoint. */
  lemma ListedSetsCover(sets: seq<set<string>>, groups: seq<seq<string>>, paths: set<string>)
    requires |groups| == |sets|
    requires forall k :: 0 <= k < |groups| ==>
      (forall p :: p in groups[k] <==> p in sets[k]) && NoDuplicates(groups[k]) && |groups[k]| == |sets[k]|
    requires forall g :: 0 <= g < |sets| ==> sets[g] != {}
    requires forall p :: (exists g :: 0 <= g < |sets| && p in sets[g]) <==> p in paths
    ensures CoverWithoutRepeats(groups, paths)
    ensures (forall g1, g2 :: 0 <= g1 < g2 < |sets| ==> sets[g1] !! sets[g2]) ==> PairwiseDisjoint(groups)
  {
    forall k | 0 <= k < |groups| ensures groups[k] != [] {
      assert |sets[k]| > 0;
    }
    forall p ensures (exists g :: 0 <= g < |groups| && p in groups[g]) <==> p in paths {
      if p in paths {
        var g :| 0 <= g < |sets| && p in sets[g];
        assert p in groups[g];
      }
      if exists g :: 0 <= g < |groups| && p in groups[g] {
        var g :| 0 <= g < |groups| && p in groups[g];
        assert p in sets[g];
      }
    }
  }

  // ---------------------------------------------------------------------
  // Statistics

  /** `total_images`: the sum of the group sizes. */
  function TotalImages(groups: seq<seq<string>>): nat {
    if groups == [] then 0 else |groups[0]| + TotalImages(groups[1..])
  }

  /** The images of all groups together. */
  function Union(groups: seq<seq<string>>): set<string> {
    if groups == [] then {} else (set p | p in groups[0]) + Union(groups[1..])
  }

  /** The three numbers `main` reports: total, unique (kept) and duplicate (removed) images. */
  datatype Statistics = Statistics(total: nat, unique: nat, duplicates: int)

  lemma {:induction false} TotalAtLeastGroups(groups: seq<seq<string>>)
    ensures (forall g :: 0 <= g < |groups| ==> groups[g] != []) ==> TotalImages(groups) >= |groups|
  {
    if groups != [] {
      TotalAtLeastGroups(groups[1..]);
      assert forall g :: 0 <= g < |groups[1..]| ==> groups[1..][g] == groups[g + 1];
    }
  }

  /**
   * The statistics of `main`. With non-empty groups the duplicate count is never
   * negative, and the total is zero exactly when there are no groups.
   */
  function ComputeStatistics(groups: seq<seq<string>>): (s: Statistics)
    ensures s.total == TotalImages(groups) && s.unique == |groups|
    ensures s.duplicates == s.total - s.unique
    ensures (forall g :: 0 <= g < |groups| ==> groups[g] != []) ==>
      s.duplicates >= 0 && (s.total == 0 <==> groups == [])
  {
    TotalAtLeastGroups(groups);
    var total := TotalImages(groups);
    Statistics(total, |groups|, total - |groups|)
  }

  lemma {:induction false} DistinctCount(l: seq<string>)
    requires NoDuplicates(l)
    ensures |set p | p in l| == |l|
  {
    if l != [] {
      DistinctCount(l[1..]);
      assert (set p | p in l) == {l[0]} + (set p | p in l[1..]);
      assert l[0] !in l[1..];
    }
  }

  lemma {:induction false} InUnion(groups: seq<seq<string>>, p: string)
    ensures p in Union(groups) <==> exists g :: 0 <= g < |groups| && p in groups[g]
  {
    if groups != [] {
      InUnion(groups[1..], p);
      if exists g :: 0 <= g < |groups| && p in groups[g] {
        var g :| 0 <= g < |groups| && p in groups[g];
        if g > 0 { assert groups[1..][g - 1] == groups[g]; }
      }
      if exists g :: 0 <= g < |groups[1..]| && p in groups[1..][g] {
        var g :| 0 <= g < |groups[1..]| && p in groups[1..][g];
        assert groups[g + 1] == groups[1..][g];
      }
    }
  }

  /** For disjoint groups without repeats, the total counts every image exactly once. */
  lemma {:induction false} TotalCountsEachImageOnce(groups: seq<seq<string>>)
    requires forall g :: 0 <= g < |groups| ==> NoDuplicates(groups[g])
    requires forall g1, g2, p :: 0 <= g1 < g2 < |groups| && p in groups[g1] ==> p !in groups[g2]
    ensures TotalImages(groups) == |Union(groups)|
  {
    if groups != [] {
      var rest := groups[1..];
      TotalCountsEachImageOnce(rest);
      DistinctCount(groups[0]);
      forall p | p in groups[0] ensures p !in Union(rest) {
        InUnion(rest, p);
        forall g | 0 <= g < |rest| ensures p !in rest[g] {
          assert rest[g] == groups[g + 1];
        }
      }
      assert (set p | p in groups[0]) !! Union(rest);
    }
  }

  // ---------------------------------------------------------------------
  // Copying out the earliest image of each group

  /** The sort key `os.path.getctime`. */
  function CtimeKey(ctime: string -> int): string -> Key {
    x => (ctime(x), 0)
  }

  /** The first image after the stable sort by creation time. */
  function KeptImage(group: seq<string>, ctime: string -> int): string
    requires group != []
  {
    SortBy(group, CtimeKey(ctime))[0]
  }

  /**
   * The image with the least creation time, the first such in the group: the one
   * a stable sort by creation time brings to the front.
   */
  function Earliest(group: seq<string>, ctime: string -> int): (e: string)
    requires group != []
    ensures e in group
    ensures forall y :: y in group ==> ctime(e) <= ctime(y)
    ensures exists i :: (0 <= i < |group| && group[i] == e
                         && forall j :: 0 <= j < i ==> ctime(group[j]) > ctime(e))
  {
    if |group| == 1 then group[0]
    else
      var rest := Earliest(group[1..], ctime);
      if ctime(group[0]) <= ctime(rest) then group[0]
      else
        var i :| (0 <= i < |group[1..]| && group[1..][i] == rest
                  && forall j :: 0 <= j < i ==> ctime(group[1..][j]) > ctime(rest));
        assert group[i + 1] == rest;
        assert forall j :: 1 <= j < i + 1 ==> group[j] == group[1..][j - 1];
        rest
  }

  /** The image a stable sort by creation time brings to the front is a first least one. */
  lemma SortedHeadIsFirstLeast(group: seq<string>, ctime: string -> int)
    requires group != []
    ensures KeptImage(group, ctime) in group
    ensures forall y :: y in group ==> ctime(KeptImage(group, ctime)) <= ctime(y)
    ensures exists i :: (0 <= i < |group| && group[i] == KeptImage(group, ctime)
                         && forall j :: 0 <= j < i ==> ctime(group[j]) > ctime(group[i]))
  {
    var key := CtimeKey(ctime);
    var sorted := SortBy(group, key);
    var kept := sorted[0];
    SortByHeadIsLeast(group, key);
    var k := key(kept);
    WithKeyHasOwnHead(sorted, key);
    SortByStable(group, key, k);
    WithKeyHead(group, key, k);
    var i :| (0 <= i < |group| && group[i] == WithKey(group, key, k)[0] && key(group[i]) == k
              && forall j :: 0 <= j < i ==> key(group[j]) != k);
    forall j | 0 <= j < i ensures ctime(group[j]) > ctime(group[i]) {
      assert group[j] in group;
    }
  }

  /** A group has only one least image that no earlier image ties with. */
  lemma FirstLeastUnique(group: seq<string>, ctime: string -> int, a: string, b: string)
    requires a in group && b in group && ctime(a) == ctime(b)
    requires exists i :: (0 <= i < |group| && group[i] == a && forall j :: 0 <= j < i ==> ctime(group[j]) > ctime(a))
    requires exists i :: (0 <= i < |group| && group[i] == b && forall j :: 0 <= j < i ==> ctime(group[j]) > ctime(b))
    ensures a == b
  {
    var ia :| (0 <= ia < |group| && group[ia] == a && forall j :: 0 <= j < ia ==> ctime(group[j]) > ctime(a));
    var ib :| (0 <= ib < |group| && group[ib] == b && forall j :: 0 <= j < ib ==> ctime(group[j]) > ctime(b));
    assert group[ia] == a && group[ib] == b;
    assert ia < ib ==> ctime(a) > ctime(b);
    assert ib < ia ==> ctime(b) > ctime(a);
  }

  /** Sorting by creation time and taking the first image picks `Earliest`. */
  lemma KeptImageIsEarliest(group: seq<string>, ctime: string -> int)
    requires group != []
    ensures KeptImage(group, ctime) == Earliest(group, ctime)
  {
    var kept := KeptImage(group, ctime);
    var e := Earliest(group, ctime);
    SortedHeadIsFirstLeast(group, ctime);
    assert ctime(kept) == ctime(e) by {
      assert ctime(kept) <= ctime(e) && ctime(e) <= ctime(kept);
    }
    var i :| (0 <= i < |group| && group[i] == kept && forall j :: 0 <= j < i ==> ctime(group[j]) > ctime(group[i]));
    assert forall j :: 0 <= j < i ==> ctime(group[j]) > ctime(kept);
    FirstLeastUnique(group, ctime, kept, e);
  }

  /** What happens to the kept image: copied as is, or converted to JPEG. */
  datatype CopyAction = Copy(source: string, dest: string) | ConvertToJpeg(source: string, dest: string)

  /**
   * What `process_and_copy_image` does with the image it keeps: a HEIC or HEIF
   * image is written as JPEG under its stem plus `.jpg` when conversion is asked
   * for; anything else is copied under its own name.
   */
  function CopyFor(source: string, outputDir: string, convertHeic: bool): (r: CopyAction)
    ensures r.source == source
    ensures r.ConvertToJpeg? <==> convertHeic && EndsWithAny(Lower(source), HeicExtensions)
  {
    var fileName := BaseName(source);
    if convertHeic && EndsWithAny(Lower(source), HeicExtensions) then
      ConvertToJpeg(source, JoinPath(outputDir, Root(fileName) + ".jpg"))
    else
      Copy(source, JoinPath(outputDir, fileName))
  }

  /**
   * The kept image lands in the output directory: converted exactly when asked
   * for and HEIC or HEIF, under its own file name or, converted, under its stem
   * with `.jpg`.
   */
  lemma CopyForDestination(source: string, outputDir: string, convertHeic: bool)
    ensures var action := CopyFor(source, outputDir, convertHeic);
      && action.source == source
      && (action.ConvertToJpeg? <==> convertHeic && EndsWithAny(Lower(source), HeicExtensions))
      && StartsWith(action.dest, outputDir)
      && (action.Copy? ==> EndsWith(action.dest, BaseName(source)))
      && (action.ConvertToJpeg? ==> EndsWith(action.dest, Root(BaseName(source)) + ".jpg"))
  {
    var fileName := BaseName(source);
    if convertHeic && EndsWithAny(Lower(source), HeicExtensions) {
      var stem := Root(fileName);
      assert '/' !in stem + ".jpg" by {
        forall k | 0 <= k < |stem| ensures stem[k] != '/' {
          assert (stem + Extension(fileName))[k] == fileName[k];
        }
      }
      JoinPathInDir(outputDir, stem + ".jpg");
    } else {
      JoinPathInDir(outputDir, fileName);
    }
  }

  /**
   * `process_and_copy_image`: the group is sorted by creation time and its first
   * image is written out as `CopyFor` says. The group size is returned.
   */
  method ProcessAndCopyImage(group: seq<string>, outputDir: string, convertHeic: bool, ctime: string -> int)
    returns (action: CopyAction, count: nat)
    requires group != []
    ensures action == CopyFor(Earliest(group, ctime), outputDir, convertHeic)
    ensures count == |group|
  {
    var sorted := SortBy(group, CtimeKey(ctime));
    var source := sorted[0];
    KeptImageIsEarliest(group, ctime);
    var fileName := BaseName(source);
    if convertHeic && EndsWithAny(Lower(source), HeicExtensions) {
      action := ConvertToJpeg(source, JoinPath(outputDir, Root(fileName) + ".jpg"));
    } else {
      action := Copy(source, JoinPath(outputDir, fileName));
    }
    count := |group|;
  }

  // ---------------------------------------------------------------------
  // The HTML report

  /** The content of one report section: its number, the image labelled KEPT, those labelled REMOVED. */
  datatype GroupReport = Skipped | Shown(number: nat, kept: string, removed: seq<string>)

  /**
   * `process_group` as written: a group of one image gives no section; otherwise
   * the first image of the list is labelled KEPT and the others REMOVED.
   */
  function ProcessGroup(i: nat, group: seq<string>): (r: GroupReport)
    ensures r.Skipped? <==> |group| <= 1
    ensures r.Shown? ==> r.number == i + 1 && [r.kept] + r.removed == group
  {
    if |group| <= 1 then Skipped
    else Shown(i + 1, group[0], group[1..])
  }

  /** `process_group` given the group in the order the copy step sorted it. */
  function ProcessSortedGroup(i: nat, group: seq<string>, ctime: string -> int): (r: GroupReport)
    ensures r.Skipped? <==> |group| <= 1
    ensures r.Shown? ==>
      r.number == i + 1 && r.kept == Earliest(group, ctime)
      && multiset([r.kept] + r.removed) == multiset(group)
  {
    if group == [] then ProcessGroup(i, group)
    else
      KeptImageIsEarliest(group, ctime);
      ProcessGroup(i, SortBy(group, CtimeKey(ctime)))
  }

  function ExampleCtime(path: string): int {
    if path == "a.jpg" then 1 else 2
  }

  /**
   * The report can label the wrong image KEPT: the copy step sorts a copy of the
   * group inside a worker process, so the report still sees the unsorted list.
   */
  lemma ReportLabelsWrongImage()
    ensures CreateHtmlReport([["b.jpg", "a.jpg"]]) == [Shown(1, "b.jpg", ["a.jpg"])]
    ensures KeptImage(["b.jpg", "a.jpg"], ExampleCtime) == Earliest(["b.jpg", "a.jpg"], ExampleCtime) == "a.jpg"
  {
    KeptImageIsEarliest(["b.jpg", "a.jpg"], ExampleCtime);
    var groups := [["b.jpg", "a.jpg"]];
    assert groups[..0] == [];
    assert DuplicateGroups(groups) == groups;
  }

  /** `[group for group in similar_groups if len(group) > 1]`. */
  function DuplicateGroups(groups: seq<seq<string>>): (r: seq<seq<string>>)
    ensures |r| <= |groups|
    ensures forall k :: 0 <= k < |r| ==> |r[k]| > 1 && r[k] in groups
    ensures |groups| == 1 ==> (r == groups <==> |groups[0]| > 1) && (r == [] <==> |groups[0]| <= 1)
  {
    if groups == [] then []
    else
      var init := DuplicateGroups(groups[..|groups| - 1]);
      var last := groups[|groups| - 1];
      if |last| > 1 then init + [last] else init
  }

  /** The filter keeps order and multiplicity: filtering a concatenation concatenates the filtered parts. */
  lemma {:induction false} DuplicateGroupsConcat(a: seq<seq<string>>, b: seq<seq<string>>)
    ensures DuplicateGroups(a + b) == DuplicateGroups(a) + DuplicateGroups(b)
  {
    if b == [] {
      assert a + b == a;
    } else {
      var init := b[..|b| - 1];
      assert (a + b)[..|a + b| - 1] == a + init;
      assert (a + b)[|a + b| - 1] == b[|b| - 1];
      DuplicateGroupsConcat(a, init);
    }
  }

  lemma {:induction false} DuplicateGroupsComplete(groups: seq<seq<string>>, group: seq<string>)
    requires group in groups && |group| > 1
    ensures group in DuplicateGroups(groups)
  {
    var init := groups[..|groups| - 1];
    if group != groups[|groups| - 1] {
      var k :| 0 <= k < |groups| && groups[k] == group;
      assert init[k] == group;
      DuplicateGroupsComplete(init, group);
    }
  }

  /** The sections of `create_html_report` as written: one per duplicate group, none skipped. */
  function CreateHtmlReport(groups: seq<seq<string>>): (r: seq<GroupReport>)
    ensures |r| == |DuplicateGroups(groups)|
    ensures forall k :: 0 <= k < |r| ==>
      r[k].Shown? && r[k].number == k + 1
      && [r[k].kept] + r[k].removed == DuplicateGroups(groups)[k]
  {
    var duplicates := DuplicateGroups(groups);
    seq(|duplicates|, k requires 0 <= k < |duplicates| => ProcessGroup(k, duplicates[k]))
  }

  /** The sections with each group in copy order, so KEPT names the image that was copied. */
  function CreateCorrectedReport(groups: seq<seq<string>>, ctime: string -> int): (r: seq<GroupReport>)
    ensures |r| == |DuplicateGroups(groups)|
    ensures forall k :: 0 <= k < |r| ==>
      r[k].Shown? && r[k].number == k + 1
      && r[k].kept == Earliest(DuplicateGroups(groups)[k], ctime)
      && multiset([r[k].kept] + r[k].removed) == multiset(DuplicateGroups(groups)[k])
  {
    var duplicates := DuplicateGroups(groups);
    seq(|duplicates|, k requires 0 <= k < |duplicates| => ProcessSortedGroup(k, duplicates[k], ctime))
  }

  /** The copy step of `main`: `process_and_copy_image` on every group, in order. */
  method CopyAll(groups: seq<seq<string>>, outputDir: string, convertHeic: bool, ctime: string -> int)
    returns (copies: seq<CopyAction>)
    requires forall g :: 0 <= g < |groups| ==> groups[g] != []
    ensures |copies| == |groups|
    ensures forall c :: 0 <= c < |copies| ==> copies[c] == CopyFor(Earliest(groups[c], ctime), outputDir, convertHeic)
  {
    copies := [];
    for k := 0 to |groups|
      invariant |copies| == k
      invariant forall c :: 0 <= c < k ==> copies[c] == CopyFor(Earliest(groups[c], ctime), outputDir, convertHeic)
    {
      var action, _ := ProcessAndCopyImage(groups[k], outputDir, convertHeic, ctime);
      copies := copies + [action];
    }
  }

  /** Every image the corrected report labels KEPT is one the copy step copied. */
  lemma ReportKeptWasCopied(groups: seq<seq<string>>, ctime: string -> int, copies: seq<CopyAction>)
    requires |copies| == |groups|
    requires forall c :: 0 <= c < |copies| ==> groups[c] != [] && copies[c].source == Earliest(groups[c], ctime)
    ensures forall k :: 0 <= k < |CreateCorrectedReport(groups, ctime)| ==>
      exists c :: 0 <= c < |copies| && copies[c].source == CreateCorrectedReport(groups, ctime)[k].kept
  {
    var report := CreateCorrectedReport(groups, ctime);
    forall k | 0 <= k < |report|
      ensures exists c :: 0 <= c < |copies| && copies[c].source == report[k].kept
    {
      var duplicate := DuplicateGroups(groups)[k];
      var c :| 0 <= c < |groups| && groups[c] == duplicate;
      assert copies[c].source == report[k].kept;
    }
  }

  // ---------------------------------------------------------------------
  // main

  /** With non-empty groups covering `paths`, the total is zero exactly when `paths` is empty. */
  lemma NoTotalIffNothingFound(groups: seq<seq<string>>, paths: set<string>)
    requires forall g :: 0 <= g < |groups| ==> groups[g] != []
    requires forall p :: (exists g :: 0 <= g < |groups| && p in groups[g]) <==> p in paths
    ensures ComputeStatistics(groups).total == 0 <==> paths == {}
  {
    if groups == [] {
      forall p ensures p !in paths {
        assert |groups| == 0;
      }
    } else {
      var p := groups[0][0];
      assert p in groups[0];
      assert p in paths;
    }
  }

  /** Every copied image belongs to the images the groups were made of. */
  lemma CopiesComeFromGroups(groups: seq<seq<string>>, paths: set<string>, copies: seq<CopyAction>,
                             ctime: string -> int)
    requires forall p :: (exists g :: 0 <= g < |groups| && p in groups[g]) <==> p in paths
    requires |copies| == |groups|
    requires forall c :: 0 <= c < |copies| ==> groups[c] != [] && copies[c].source == Earliest(groups[c], ctime)
    ensures forall c :: 0 <= c < |copies| ==> copies[c].source in paths
  {
    forall c | 0 <= c < |copies| ensures copies[c].source in paths {
      assert copies[c].source in groups[c];
    }
  }

  /** Disjoint groups without repeats that cover `paths` count each of its images once. */
  lemma TotalIsImageCount(groups: seq<seq<string>>, paths: set<string>)
    requires forall g :: 0 <= g < |groups| ==> NoDuplicates(groups[g])
    requires forall g1, g2, p :: 0 <= g1 < g2 < |groups| && p in groups[g1] ==> p !in groups[g2]
    requires forall p :: (exists g :: 0 <= g < |groups| && p in groups[g]) <==> p in paths
    ensures ComputeStatistics(groups).total == |paths|
  {
    TotalCountsEachImageOnce(groups);
    forall p ensures p in Union(groups) <==> p in paths {
      InUnion(groups, p);
    }
    assert Union(groups) == paths;
  }

  /** Every report section is shown, and the image it labels KEPT is the source of some copy. */
  ghost predicate KeptWereCopied(report: seq<GroupReport>, copies: seq<CopyAction>) {
    forall k :: 0 <= k < |report| ==>
      report[k].Shown? && exists c :: 0 <= c < |copies| && copies[c].source == report[k].kept
  }

  /** One copy per group, in order, each the action for the group's earliest image. */
  ghost predicate CopiesOfGroups(copies: seq<CopyAction>, groups: seq<seq<string>>, outputDir: string,
                                 convertHeic: bool, ctime: string -> int) {
    && |copies| == |groups|
    && forall c :: 0 <= c < |copies| ==>
         groups[c] != [] && copies[c] == CopyFor(Earliest(groups[c], ctime), outputDir, convertHeic)
  }

  datatype DedupeOutcome =
    | MissingInput
    | NoImages
    | Done(stats: Statistics, groups: seq<seq<string>>, copies: seq<CopyAction>, report: seq<GroupReport>)

  /**
   * A finished run over `groups`, which cover `paths`: the printed statistics are
   * the sum of the group sizes, the number of groups and their difference; there
   * is one copy per group; and every copied image is one of `paths`.
   */
  ghost predicate FinishedWith(outcome: DedupeOutcome, groups: seq<seq<string>>, paths: set<string>,
                               outputDir: string, convertHeic: bool, ctime: string -> int) {
    && outcome.Done?
    && outcome.groups == groups
    && outcome.stats.total == TotalImages(groups)
    && outcome.stats.unique == |groups|
    && outcome.stats.duplicates == outcome.stats.total - outcome.stats.unique >= 0
    && (PairwiseDisjoint(groups) ==> outcome.stats.total == |paths|)
    && CopiesOfGroups(outcome.copies, groups, outputDir, convertHeic, ctime)
    && (forall c :: 0 <= c < |outcome.copies| ==> outcome.copies[c].source in paths)
  }

  /**
   * `main` once the groups are found, as written: nothing to do when no image was
   * hashed; otherwise the statistics, one copy per group, and the report of
   * line 279 built from the unsorted groups.
   */
  method DedupeGroups(groups: seq<seq<string>>, paths: set<string>, outputDir: string, convertHeic: bool,
                      ctime: string -> int)
    returns (outcome: DedupeOutcome)
    requires CoverWithoutRepeats(groups, paths)
    ensures !outcome.MissingInput?
    ensures outcome.NoImages? <==> paths == {}
    ensures outcome.Done? ==>
      FinishedWith(outcome, groups, paths, outputDir, convertHeic, ctime)
      && outcome.report == CreateHtmlReport(groups)
  {
    var stats := ComputeStatistics(groups);
    NoTotalIffNothingFound(groups, paths);
    if stats.total == 0 {
      return NoImages;
    }
    var copies := CopyAll(groups, outputDir, convertHeic, ctime);
    var report := CreateHtmlReport(groups);
    FinishedRun(groups, paths, outputDir, convertHeic, ctime, copies, report);
    outcome := Done(stats, groups, copies, report);
  }

  /** Statistics and one copy per group of a cover make a finished run, whatever the report. */
  lemma FinishedRun(groups: seq<seq<string>>, paths: set<string>, outputDir: string, convertHeic: bool,
                    ctime: string -> int, copies: seq<CopyAction>, report: seq<GroupReport>)
    requires CoverWithoutRepeats(groups, paths)
    requires |copies| == |groups|
    requires forall c :: 0 <= c < |copies| ==> copies[c] == CopyFor(Earliest(groups[c], ctime), outputDir, convertHeic)
    ensures FinishedWith(Done(ComputeStatistics(groups), groups, copies, report), groups, paths,
                         outputDir, convertHeic, ctime)
  {
    CopiesComeFromGroups(groups, paths, copies, ctime);
    if PairwiseDisjoint(groups) {
      TotalIsImageCount(groups, paths);
    }
  }

  /** As written, the run over `[["b.jpg", "a.jpg"]]` labels KEPT an image it never copied. */
  lemma AsWrittenReportMissesCopy(copies: seq<CopyAction>, outputDir: string, convertHeic: bool)
    requires CopiesOfGroups(copies, [["b.jpg", "a.jpg"]], outputDir, convertHeic, ExampleCtime)
    ensures !KeptWereCopied(CreateHtmlReport([["b.jpg", "a.jpg"]]), copies)
  {
    ReportLabelsWrongImage();
    CopiesAreOfEarliest(copies, [["b.jpg", "a.jpg"]], outputDir, convertHeic, ExampleCtime);
    assert "a.jpg" != "b.jpg" by {
      assert "a.jpg"[0] != "b.jpg"[0];
    }
    KeptNotCopied(CreateHtmlReport([["b.jpg", "a.jpg"]]), copies, 0);
  }

  /** A section whose KEPT image no copy has as its source breaks `KeptWereCopied`. */
  lemma KeptNotCopied(report: seq<GroupReport>, copies: seq<CopyAction>, k: nat)
    requires k < |report| && report[k].Shown?
    requires forall c :: 0 <= c < |copies| ==> copies[c].source != report[k].kept
    ensures !KeptWereCopied(report, copies)
  {
  }

  /** Each copy of a run copies the earliest image of its group. */
  lemma CopiesAreOfEarliest(copies: seq<CopyAction>, groups: seq<seq<string>>, outputDir: string,
                            convertHeic: bool, ctime: string -> int)
    requires CopiesOfGroups(copies, groups, outputDir, convertHeic, ctime)
    ensures |copies| == |groups|
    ensures forall c :: 0 <= c < |copies| ==> copies[c].source == Earliest(groups[c], ctime)
  {
  }

  lemma CorrectedReportKeptWasCopied(groups: seq<seq<string>>, ctime: string -> int, copies: seq<CopyAction>,
                                     outputDir: string, convertHeic: bool)
    requires CopiesOfGroups(copies, groups, outputDir, convertHeic, ctime)
    ensures KeptWereCopied(CreateCorrectedReport(groups, ctime), copies)
  {
    assert forall c :: 0 <= c < |copies| ==> copies[c].source == Earliest(groups[c], ctime);
    ReportKeptWasCopied(groups, ctime, copies);
  }

  lemma FinishedWithAnyReport(outcome: DedupeOutcome, report: seq<GroupReport>, groups: seq<seq<string>>,
                              paths: set<string>, outputDir: string, convertHeic: bool, ctime: string -> int)
    requires FinishedWith(outcome, groups, paths, outputDir, convertHeic, ctime)
    ensures FinishedWith(outcome.(report := report), groups, paths, outputDir, convertHeic, ctime)
  {
  }

  /** Corrected: `main` with the report built from each group in copy order, so every KEPT image was copied. */
  method DedupeGroupsCorrected(groups: seq<seq<string>>, paths: set<string>, outputDir: string, convertHeic: bool,
                               ctime: string -> int)
    returns (outcome: DedupeOutcome)
    requires CoverWithoutRepeats(groups, paths)
    ensures !outcome.MissingInput?
    ensures outcome.NoImages? <==> paths == {}
    ensures outcome.Done? ==>
      FinishedWith(outcome, groups, paths, outputDir, convertHeic, ctime)
      && outcome.report == CreateCorrectedReport(groups, ctime)
      && KeptWereCopied(outcome.report, outcome.copies)
  {
    outcome := DedupeGroups(groups, paths, outputDir, convertHeic, ctime);
    if outcome.Done? {
      var report := CreateCorrectedReport(groups, ctime);
      CorrectedReportKeptWasCopied(groups, ctime, outcome.copies, outputDir, convertHeic);
      FinishedWithAnyReport(outcome, report, groups, paths, outputDir, convertHeic, ctime);
      outcome := outcome.(report := report);
    }
  }

  /**
   * `main`: stop when the input directory is missing or nothing could be hashed;
   * otherwise copy one image per group and write the report, as written.
   */
  method RunDedupe(inputExists: bool, results: seq<Option<Hashed>>, distance: (string, string) -> nat,
                   threshold: int, convertHeic: bool, outputDir: string, ctime: string -> int)
    returns (outcome: DedupeOutcome)
    ensures outcome.MissingInput? <==> !inputExists
    ensures outcome.NoImages? <==> inputExists && HashedPaths(results) == {}
    ensures outcome.Done? ==>
      && CoverWithoutRepeats(outcome.groups, HashedPaths(results))
      && |outcome.groups| <= |Hashes(results)|
      && (ConsistentHashes(results) ==> PairwiseDisjoint(outcome.groups))
      && FinishedWith(outcome, outcome.groups, HashedPaths(results), outputDir, convertHeic, ctime)
      && outcome.report == CreateHtmlReport(outcome.groups)
  {
    if !inputExists {
      return MissingInput;
    }
    var groups := FindSimilarImages(results, distance, threshold);
    outcome := DedupeGroups(groups, HashedPaths(results), outputDir, convertHeic, ctime);
  }

  /** Corrected: `main` writing the corrected report, whose every KEPT image was copied. */
  method RunDedupeCorrected(inputExists: bool, results: seq<Option<Hashed>>, distance: (string, string) -> nat,
                            threshold: int, convertHeic: bool, outputDir: string, ctime: string -> int)
    returns (outcome: DedupeOutcome)
    ensures outcome.MissingInput? <==> !inputExists
    ensures outcome.NoImages? <==> inputExists && HashedPaths(results) == {}
    ensures outcome.Done? ==>
      && CoverWithoutRepeats(outcome.groups, HashedPaths(results))
      && |outcome.groups| <= |Hashes(results)|
      && (ConsistentHashes(results) ==> PairwiseDisjoint(outcome.groups))
      && FinishedWith(outcome, outcome.groups, HashedPaths(results), outputDir, convertHeic, ctime)
      && outcome.report == CreateCorrectedReport(outcome.groups, ctime)
      && KeptWereCopied(outcome.report, outcome.copies)
  {
    if !inputExists {
      return MissingInput;
    }
    var groups := FindSimilarImages(results, distance, threshold);
    outcome := DedupeGroupsCorrected(groups, HashedPaths(results), outputDir, convertHeic, ctime);
  }
}
