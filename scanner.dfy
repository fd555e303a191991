/**
 * `scan_repo`: one pass over the enumerated entries of the tree that sorts
 * every classified file into the bucket of its tier or into `unknown`.
 */
module Scanner {
  import opened Wrappers
  import opened Tiers

  /**
   * One entry that `root.rglob("*")` yields: its path relative to the root,
   * whether it is a directory, and what `f.read` on it would return in text
   * mode (None when opening or reading raises OSError).
   */
  datatype Entry = Entry(rel: Path, isDir: bool, text: Option<string>)

  /** Where a single entry ends up: exactly one of these, by construction. */
  datatype Place = Skipped | Marked(tier: Tier) | Unmarked

  /** The decision the loop body of `scan_repo` takes for one entry. */
  function Classify(e: Entry): (p: Place)
    ensures p.Skipped? <==> e.isDir || IsExcluded(e.rel)
    ensures p.Marked? ==> DetectTier(e.rel, e.text) == Some(p.tier.Name())
    ensures p.Unmarked? ==> DetectTier(e.rel, e.text).None?
    ensures !e.isDir && !IsExcluded(e.rel) && !HasTextExt(e.rel) ==> p.Unmarked?
  {
    if e.isDir then Skipped
    else if IsExcluded(e.rel) then Skipped
    else match DetectTier(e.rel, e.text)
      case None => Unmarked
      case Some(w) =>
        match TierOf(w)
        case Some(t) => Marked(t)
        case None => Unmarked
  }

  /**
   * An entry's path together with where it was placed. The tag form of the
   * buckets (`Tagged`, `Pick`, `PickScanned`) exists only for the proofs.
   * It keeps `Classify` out of the inductions, and `CollectIsPick` ties it
   * to `Collect`, which defines the buckets.
   */
  datatype Tag = Tag(rel: Path, place: Place)

  function Tagged(entries: seq<Entry>): (r: seq<Tag>)
    ensures |r| == |entries|
  {
    if entries == [] then []
    else
      var last := entries[|entries| - 1];
      Tagged(entries[..|entries| - 1]) + [Tag(last.rel, Classify(last))]
  }

  /** The paths placed at `place`, in enumeration order. */
  function Pick(tags: seq<Tag>, place: Place): seq<Path> {
    if tags == [] then []
    else
      var last := tags[|tags| - 1];
      Pick(tags[..|tags| - 1], place) + (if last.place == place then [last.rel] else [])
  }

  /** The paths of everything that was not skipped, in enumeration order. */
  function PickScanned(tags: seq<Tag>): seq<Path> {
    if tags == [] then []
    else
      var last := tags[|tags| - 1];
      PickScanned(tags[..|tags| - 1]) + (if last.place != Skipped then [last.rel] else [])
  }

  /** The paths of the entries placed at `place`, in enumeration order. */
  function Collect(entries: seq<Entry>, place: Place): seq<Path> {
    if entries == [] then []
    else
      var last := entries[|entries| - 1];
      Collect(entries[..|entries| - 1], place) + (if Classify(last) == place then [last.rel] else [])
  }

  function Bucket(entries: seq<Entry>, t: Tier): seq<Path> {
    Collect(entries, Marked(t))
  }

  function Unknown(entries: seq<Entry>): seq<Path> {
    Collect(entries, Unmarked)
  }

  /** The paths of all entries that are not skipped, in enumeration order. */
  function Scanned(entries: seq<Entry>): seq<Path> {
    PickScanned(Tagged(entries))
  }

  lemma {:induction false} TaggedAt(entries: seq<Entry>, i: nat)
    requires i < |entries|
    ensures Tagged(entries)[i] == Tag(entries[i].rel, Classify(entries[i]))
  {
    if i < |entries| - 1 {
      TaggedAt(entries[..|entries| - 1], i);
    }
  }

  lemma PickStep(tags: seq<Tag>, x: Tag, place: Place)
    ensures Pick(tags + [x], place) == Pick(tags, place) + (if x.place == place then [x.rel] else [])
  {
    assert (tags + [x])[..|tags|] == tags;
  }

  lemma CollectStep(entries: seq<Entry>, i: nat, place: Place)
    requires i < |entries|
    ensures Collect(entries[..i + 1], place) == Collect(entries[..i], place) + Appended(entries[i], place)
  {
    assert entries[..i + 1][..i] == entries[..i];
  }

  lemma {:induction false} CollectIsPick(entries: seq<Entry>, place: Place)
    ensures Collect(entries, place) == Pick(Tagged(entries), place)
  {
    if entries != [] {
      var n := |entries| - 1;
      CollectIsPick(entries[..n], place);
      PickStep(Tagged(entries[..n]), Tag(entries[n].rel, Classify(entries[n])), place);
    }
  }

  /** What placing `e` appends to the bucket of `place`. */
  function Appended(e: Entry, place: Place): seq<Path> {
    if Classify(e) == place then [e.rel] else []
  }

  /**
   * `scan_repo`: the buckets start empty for every tier name; a directory
   * or an excluded entry is passed over; any other entry is appended to the
   * bucket named by its detected tier, or to `unknown`.
   */
  method ScanRepo(entries: seq<Entry>) returns (results: map<string, seq<Path>>, unknown: seq<Path>)
    ensures results.Keys == {"HOT", "WARM", "COLD"}
    ensures results["HOT"] == Bucket(entries, HOT)
    ensures results["WARM"] == Bucket(entries, WARM)
    ensures results["COLD"] == Bucket(entries, COLD)
    ensures unknown == Unknown(entries)
  {
    results := map t | t in TIERS :: [];
    unknown := [];
    for i := 0 to |entries|
      invariant results.Keys == {"HOT", "WARM", "COLD"}
      invariant results["HOT"] == Bucket(entries[..i], HOT)
      invariant results["WARM"] == Bucket(entries[..i], WARM)
      invariant results["COLD"] == Bucket(entries[..i], COLD)
      invariant unknown == Unknown(entries[..i])
    {
      CollectStep(entries, i, Marked(HOT));
      CollectStep(entries, i, Marked(WARM));
      CollectStep(entries, i, Marked(COLD));
      CollectStep(entries, i, Unmarked);
      results, unknown := ScanEntry(results, unknown, entries[i]);
    }
    assert entries[..|entries|] == entries;
  }

  /** The body of the loop in `scan_repo`, for one entry. */
  method ScanEntry(results: map<string, seq<Path>>, unknown: seq<Path>, p: Entry)
    returns (results': map<string, seq<Path>>, unknown': seq<Path>)
    requires results.Keys == {"HOT", "WARM", "COLD"}
    ensures results'.Keys == {"HOT", "WARM", "COLD"}
    ensures results'["HOT"] == results["HOT"] + Appended(p, Marked(HOT))
    ensures results'["WARM"] == results["WARM"] + Appended(p, Marked(WARM))
    ensures results'["COLD"] == results["COLD"] + Appended(p, Marked(COLD))
    ensures unknown' == unknown + Appended(p, Unmarked)
  {
    results', unknown' := results, unknown;
    if p.isDir {
      return;
    }
    if IsExcluded(p.rel) {
      return;
    }
    var tier := DetectTier(p.rel, p.text);
    if tier.Some? && tier.value in results {
      results' := results[tier.value := results[tier.value] + [p.rel]];
    } else {
      unknown' := unknown + [p.rel];
    }
  }

  // ---------------------------------------------------------------------
  // Properties of the partition

  /** The four-way sum of the bucket multisets. */
  function Buckets(tags: seq<Tag>): multiset<Path> {
    multiset(Pick(tags, Marked(HOT))) + multiset(Pick(tags, Marked(WARM))) +
    multiset(Pick(tags, Marked(COLD))) + multiset(Pick(tags, Unmarked))
  }

  /** Appending a tag adds its path to the buckets once, unless it was skipped. */
  lemma BucketsStep(init: seq<Tag>, x: Tag)
    ensures Buckets(init + [x]) == Buckets(init) + (if x.place != Skipped then multiset{x.rel} else multiset{})
  {
    PickBagStep(init, x, Marked(HOT));
    PickBagStep(init, x, Marked(WARM));
    PickBagStep(init, x, Marked(COLD));
    PickBagStep(init, x, Unmarked);
    AddedOnce(x);
  }

  /** What appending `x` adds to the bucket of `place`. */
  function Added(x: Tag, place: Place): multiset<Path> {
    if x.place == place then multiset{x.rel} else multiset{}
  }

  lemma PickBagStep(init: seq<Tag>, x: Tag, place: Place)
    ensures multiset(Pick(init + [x], place)) == multiset(Pick(init, place)) + Added(x, place)
  {
    PickStep(init, x, place);
  }

  /** A tag that is not skipped lands in exactly one of the four buckets. */
  lemma AddedOnce(x: Tag)
    ensures Added(x, Marked(HOT)) + Added(x, Marked(WARM)) + Added(x, Marked(COLD)) + Added(x, Unmarked) ==
      if x.place != Skipped then multiset{x.rel} else multiset{}
  {
    var one := multiset{x.rel};
    match x.place
    case Skipped =>
    case Marked(HOT) =>
      assert Added(x, Marked(HOT)) == one;
    case Marked(WARM) =>
      assert Added(x, Marked(WARM)) == one;
    case Marked(COLD) =>
      assert Added(x, Marked(COLD)) == one;
    case Unmarked =>
      assert Added(x, Unmarked) == one;
  }

  lemma PickScannedStep(init: seq<Tag>, x: Tag)
    ensures multiset(PickScanned(init + [x])) ==
      multiset(PickScanned(init)) + (if x.place != Skipped then multiset{x.rel} else multiset{})
  {
    assert (init + [x])[..|init|] == init;
  }

  lemma {:induction false} PartitionTags(tags: seq<Tag>)
    ensures multiset(PickScanned(tags)) == Buckets(tags)
  {
    if tags != [] {
      var init, last := tags[..|tags| - 1], tags[|tags| - 1];
      PartitionTags(init);
      assert tags == init + [last];
      BucketsStep(init, last);
      PickScannedStep(init, last);
    }
  }

  /**
   * Every scanned file lands in exactly one of the four buckets: together
   * they hold each scanned path exactly as often as it was enumerated.
   */
  lemma Partition(entries: seq<Entry>)
    ensures multiset(Scanned(entries)) ==
      multiset(Bucket(entries, HOT)) + multiset(Bucket(entries, WARM)) +
      multiset(Bucket(entries, COLD)) + multiset(Unknown(entries))
  {
    PartitionTags(Tagged(entries));
    CollectIsPick(entries, Marked(HOT));
    CollectIsPick(entries, Marked(WARM));
    CollectIsPick(entries, Marked(COLD));
    CollectIsPick(entries, Unmarked);
    assert Buckets(Tagged(entries)) ==
      multiset(Bucket(entries, HOT)) + multiset(Bucket(entries, WARM)) +
      multiset(Bucket(entries, COLD)) + multiset(Unknown(entries));
  }

  /** Hence the four bucket sizes add up to the number of scanned files. */
  lemma PartitionSizes(entries: seq<Entry>)
    ensures |Bucket(entries, HOT)| + |Bucket(entries, WARM)| + |Bucket(entries, COLD)| + |Unknown(entries)|
      == |Scanned(entries)|
  {
    Partition(entries);
    assert |multiset(Scanned(entries))| == |Scanned(entries)|;
  }

  lemma {:induction false} PickMembers(tags: seq<Tag>, place: Place, p: Path)
    ensures p in Pick(tags, place) <==> Tag(p, place) in tags
  {
    if tags != [] {
      var init := tags[..|tags| - 1];
      PickMembers(init, place, p);
      assert tags == init + [tags[|tags| - 1]];
    }
  }

  /** A path is in a bucket exactly when some entry with that path was placed there. */
  lemma CollectMembers(entries: seq<Entry>, place: Place, p: Path)
    ensures p in Collect(entries, place) <==>
      exists i :: 0 <= i < |entries| && entries[i].rel == p && Classify(entries[i]) == place
  {
    CollectIsPick(entries, place);
    PickMembers(Tagged(entries), place, p);
    TagMembers(entries, place, p);
  }

  /** A tag is in the tagged sequence exactly when some entry gives rise to it. */
  lemma TagMembers(entries: seq<Entry>, place: Place, p: Path)
    ensures Tag(p, place) in Tagged(entries) <==>
      exists i :: 0 <= i < |entries| && entries[i].rel == p && Classify(entries[i]) == place
  {
    var tags := Tagged(entries);
    if Tag(p, place) in tags {
      var i :| 0 <= i < |tags| && tags[i] == Tag(p, place);
      TaggedAt(entries, i);
    }
    if exists i :: 0 <= i < |entries| && entries[i].rel == p && Classify(entries[i]) == place {
      var i :| 0 <= i < |entries| && entries[i].rel == p && Classify(entries[i]) == place;
      TaggedAt(entries, i);
      assert tags[i] == Tag(p, place);
    }
  }

  /**
   * Directories and excluded entries appear in no bucket, provided no other
   * entry has the same path (as in a real tree).
   */
  lemma SkippedInNoBucket(entries: seq<Entry>, k: nat, place: Place)
    requires k < |entries| && Classify(entries[k]).Skipped?
    requires forall i :: 0 <= i < |entries| && i != k ==> entries[i].rel != entries[k].rel
    requires !place.Skipped?
    ensures entries[k].rel !in Collect(entries, place)
  {
    CollectMembers(entries, place, entries[k].rel);
  }

  lemma {:induction false} PickAppend(a: seq<Tag>, b: seq<Tag>, place: Place)
    ensures Pick(a + b, place) == Pick(a, place) + Pick(b, place)
  {
    if b == [] {
      assert a + b == a;
    } else {
      var n := |b| - 1;
      assert (a + b)[..|a + b| - 1] == a + b[..n];
      assert (a + b)[|a + b| - 1] == b[n];
      PickAppend(a, b[..n], place);
    }
  }

  /**
   * Buckets keep enumeration order: the bucket of a longer enumeration is
   * the bucket of its first part followed by that of the rest.
   */
  lemma CollectAppend(a: seq<Entry>, b: seq<Entry>, place: Place)
    ensures Collect(a + b, place) == Collect(a, place) + Collect(b, place)
  {
    CollectIsPick(a + b, place);
    CollectIsPick(a, place);
    CollectIsPick(b, place);
    TaggedAppend(a, b);
    PickAppend(Tagged(a), Tagged(b), place);
  }

  lemma {:induction false} TaggedAppend(a: seq<Entry>, b: seq<Entry>)
    ensures Tagged(a + b) == Tagged(a) + Tagged(b)
  {
    if b == [] {
      assert a + b == a;
    } else {
      var n := |b| - 1;
      assert (a + b)[..|a + b| - 1] == a + b[..n];
      TaggedAppend(a, b[..n]);
    }
  }
}
