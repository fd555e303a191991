/**
 * The selection, sorting and accumulation logic of the three commands,
 * each of which performs its own fresh scan.
 */
module Commands {
  import opened Wrappers
  import opened Text
  import opened Tiers
  import opened PathOrder
  import opened Scanner

  /** The bucket `results.get(tier.upper(), [])` selects. */
  function Requested(entries: seq<Entry>, tier: string): seq<Path> {
    match TierOf(Upper(tier))
    case Some(t) => Bucket(entries, t)
    case None => []
  }

  lemma RequestedBucket(entries: seq<Entry>, tier: string, results: map<string, seq<Path>>)
    requires results.Keys == {"HOT", "WARM", "COLD"}
    requires results["HOT"] == Bucket(entries, HOT)
    requires results["WARM"] == Bucket(entries, WARM)
    requires results["COLD"] == Bucket(entries, COLD)
    ensures (if Upper(tier) in results then results[Upper(tier)] else []) == Requested(entries, tier)
  {
  }

  // ---------------------------------------------------------------------
  // list

  /**
   * `cmd_list`: the root-relative paths of the requested tier, sorted; the
   * tier name is upper-cased first, and a name that is not a tier selects
   * nothing.
   */
  method CmdList(entries: seq<Entry>, tier: string) returns (lines: seq<Path>)
    ensures Sorted(lines)
    ensures multiset(lines) == multiset(Requested(entries, tier))
    ensures Upper(tier) !in TIERS ==> lines == []
  {
    var results, _ := ScanRepo(entries);
    var key := Upper(tier);
    RequestedBucket(entries, tier, results);
    var files := if key in results then results[key] else [];
    lines := SortPaths(files);
    if key !in TIERS {
      assert |lines| == |multiset(lines)| == 0;
    }
  }

  /**
   * Whatever sorting algorithm produces it, a listing is determined by the
   * bucket: any sorted arrangement of the requested paths is that listing.
   */
  lemma ListingIsUnique(entries: seq<Entry>, tier: string, lines: seq<Path>, other: seq<Path>)
    requires Sorted(lines) && multiset(lines) == multiset(Requested(entries, tier))
    requires Sorted(other) && multiset(other) == multiset(Requested(entries, tier))
    ensures lines == other
  {
    SortedUnique(lines, other);
  }

  // ---------------------------------------------------------------------
  // status

  /**
   * What `f.read_bytes()` yields at status time, by length: the number of
   * bytes and the number of characters of their lenient UTF-8 decoding.
   */
  datatype Blob = Blob(bytes: nat, chars: nat)

  /** One summary line: tier name, file count, total bytes, approximate tokens. */
  datatype TierLine = TierLine(tier: string, files: nat, totalBytes: nat, tokens: int)

  /** The byte and character totals of the files that can be read. */
  function Totals(files: seq<Path>, readFile: Path -> Option<Blob>): Blob {
    if files == [] then Blob(0, 0)
    else
      var acc := Totals(files[..|files| - 1], readFile);
      match readFile(files[|files| - 1])
      case None => acc
      case Some(data) => Blob(acc.bytes + data.bytes, acc.chars + data.chars)
  }

  function StatusLine(name: string, files: seq<Path>, readFile: Path -> Option<Blob>): TierLine {
    var total := Totals(files, readFile);
    TierLine(name, |files|, total.bytes, ApproxTokens(total.chars))
  }

  lemma TotalsStep(files: seq<Path>, j: nat, readFile: Path -> Option<Blob>)
    requires j < |files|
    ensures Totals(files[..j + 1], readFile) ==
      match readFile(files[j])
      case None => Totals(files[..j], readFile)
      case Some(data) => Blob(Totals(files[..j], readFile).bytes + data.bytes, Totals(files[..j], readFile).chars + data.chars)
  {
    assert files[..j + 1][..j] == files[..j];
  }

  /**
   * `cmd_status`: for each tier in the fixed order, the bucket's length and
   * the totals over the files that can be read; unreadable files are passed
   * over, and the token estimate is taken once, of the character total.
   */
  method CmdStatus(entries: seq<Entry>, readFile: Path -> Option<Blob>) returns (report: seq<TierLine>)
    ensures |report| == |TIERS|
    ensures forall k :: 0 <= k < |TIERS| ==> report[k] == StatusLine(TIERS[k], Bucket(entries, ORDER[k]), readFile)
  {
    var results, _ := ScanRepo(entries);
    report := [];
    for k := 0 to |TIERS|
      invariant |report| == k
      invariant forall j :: 0 <= j < k ==> report[j] == StatusLine(TIERS[j], Bucket(entries, ORDER[j]), readFile)
    {
      var t := TIERS[k];
      OrderNames(k);
      var files := results[t];
      var totalBytes, totalChars := TierTotals(files, readFile);
      report := report + [TierLine(t, |files|, totalBytes, ApproxTokens(totalChars))];
    }
  }

  /**
   * The inner loop of `cmd_status`: add up the byte and character lengths
   * of every file that can be read, passing over those that raise OSError.
   */
  method TierTotals(files: seq<Path>, readFile: Path -> Option<Blob>) returns (totalBytes: nat, totalChars: nat)
    ensures Blob(totalBytes, totalChars) == Totals(files, readFile)
  {
    totalBytes, totalChars := 0, 0;
    for j := 0 to |files|
      invariant Totals(files[..j], readFile) == Blob(totalBytes, totalChars)
    {
      TotalsStep(files, j, readFile);
      match readFile(files[j])
      case Some(data) =>
        totalBytes := totalBytes + data.bytes;
        totalChars := totalChars + data.chars;
      case None =>
    }
    assert files[..|files|] == files;
  }

  /** The totals of a concatenation are the sums of the totals of its parts. */
  lemma {:induction false} TotalsAppend(a: seq<Path>, b: seq<Path>, readFile: Path -> Option<Blob>)
    ensures Totals(a + b, readFile).bytes == Totals(a, readFile).bytes + Totals(b, readFile).bytes
    ensures Totals(a + b, readFile).chars == Totals(a, readFile).chars + Totals(b, readFile).chars
  {
    if b == [] {
      assert a + b == a;
    } else {
      var n := |b| - 1;
      assert (a + b)[..|a + b| - 1] == a + b[..n];
      TotalsAppend(a, b[..n], readFile);
    }
  }

  /** An unreadable file adds nothing to either total, wherever it stands. */
  lemma UnreadableAddsNothing(a: seq<Path>, p: Path, b: seq<Path>, readFile: Path -> Option<Blob>)
    requires readFile(p).None?
    ensures Totals(a + [p] + b, readFile) == Totals(a + b, readFile)
  {
    TotalsAppend(a + [p], b, readFile);
    TotalsAppend(a, b, readFile);
    assert (a + [p])[..|a|] == a;
  }

  /**
   * Lenient decoding never yields more characters than there are bytes, so
   * the token estimate is at most a quarter of the byte total, or 1.
   */
  lemma {:induction false} CharsWithinBytes(files: seq<Path>, readFile: Path -> Option<Blob>)
    requires forall p :: readFile(p).Some? ==> readFile(p).value.chars <= readFile(p).value.bytes
    ensures Totals(files, readFile).chars <= Totals(files, readFile).bytes
    ensures ApproxTokens(Totals(files, readFile).chars) <= if Totals(files, readFile).bytes < 8 then 1 else Totals(files, readFile).bytes / 4
  {
    if files != [] {
      CharsWithinBytes(files[..|files| - 1], readFile);
    }
  }

  /** A tier whose files are all unreadable still counts them, with zero totals and one token. */
  lemma {:induction false} AllUnreadable(name: string, files: seq<Path>, readFile: Path -> Option<Blob>)
    requires forall i :: 0 <= i < |files| ==> readFile(files[i]).None?
    ensures StatusLine(name, files, readFile) == TierLine(name, |files|, 0, 1)
  {
    if files != [] {
      AllUnreadable(name, files[..|files| - 1], readFile);
    }
  }

  // ---------------------------------------------------------------------
  // bundle

  /** One `shutil.copy2(src, dst)`, by root-relative source and destination path. */
  datatype Copy = Copy(src: Path, dst: Path)

  /**
   * `cmd_bundle`: one copy per path of the requested tier, in bucket order,
   * each to the same relative path under the output directory; the printed
   * count is the bucket's length.
   */
  method CmdBundle(entries: seq<Entry>, tier: string, outDir: Path) returns (copies: seq<Copy>, count: nat)
    ensures count == |copies| == |Requested(entries, tier)|
    ensures forall i :: 0 <= i < |copies| ==>
      copies[i].src == Requested(entries, tier)[i] && copies[i].dst == outDir + copies[i].src
  {
    var results, _ := ScanRepo(entries);
    var key := Upper(tier);
    RequestedBucket(entries, tier, results);
    var files := if key in results then results[key] else [];
    copies := CopyAll(files, outDir);
    count := |files|;
  }

  /** The copy loop of `cmd_bundle`: each source to the same relative path under `outDir`. */
  method CopyAll(files: seq<Path>, outDir: Path) returns (copies: seq<Copy>)
    ensures |copies| == |files|
    ensures forall i :: 0 <= i < |copies| ==> copies[i] == Copy(files[i], outDir + files[i])
  {
    copies := [];
    for i := 0 to |files|
      invariant |copies| == i
      invariant forall j :: 0 <= j < i ==> copies[j] == Copy(files[j], outDir + files[j])
    {
      var rel := files[i];
      copies := copies + [Copy(rel, outDir + rel)];
    }
  }

  /**
   * Distinct sources go to distinct destinations, all inside the output
   * directory, so no copy overwrites another one of the same bundle.
   */
  lemma BundleDestinations(copies: seq<Copy>, outDir: Path, i: nat, j: nat)
    requires forall k :: 0 <= k < |copies| ==> copies[k].dst == outDir + copies[k].src
    requires i < |copies| && j < |copies| && copies[i].src != copies[j].src
    ensures copies[i].dst != copies[j].dst
    ensures copies[i].dst[..|outDir|] == outDir && copies[i].dst[|outDir|..] == copies[i].src
  {
    assert copies[i].dst[|outDir|..] == copies[i].src;
    assert copies[j].dst[|outDir|..] == copies[j].src;
  }
}
