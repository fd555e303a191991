/**
 * Configuration constants and the per-file classification of
 * context_tiers.py: the exclusion filter, the tier detector with its marker
 * search, and the token heuristic.
 */
module Tiers {
  import opened Wrappers
  import opened Text

  /** A path as its sequence of segments; the file name is the last one. */
  type Path = seq<string>

  datatype Tier = HOT | WARM | COLD {
    function Name(): string {
      match this
      case HOT => "HOT"
      case WARM => "WARM"
      case COLD => "COLD"
    }
  }

  /** The tier names, in the fixed order status reports them. */
  const TIERS: seq<string> := ["HOT", "WARM", "COLD"]
  const ORDER: seq<Tier> := [HOT, WARM, COLD]

  const DEFAULT_EXCLUDES: set<string> :=
    {".git", "node_modules", "dist", "build", ".next", ".venv", "venv", "__pycache__"}

  const TEXT_EXTS: set<string> :=
    {".md", ".txt", ".py", ".js", ".ts", ".tsx", ".jsx", ".json", ".yaml", ".yml",
     ".toml", ".ps1", ".sh", ".bat", ".cmd"}

  /** `f.read(4096)` on a text-mode file reads at most this many characters. */
  const HEAD_CHARS: nat := 4096

  /** The literal part of `MARK_RE`, already in lower case. */
  const MARK_PREFIX: string := "@byt3-tier"

  /** The tier whose name is exactly `w`, if any (`w in results`). */
  function TierOf(w: string): (r: Option<Tier>)
    ensures r.Some? <==> w in TIERS
    ensures r.Some? ==> r.value.Name() == w
  {
    if w == "HOT" then Some(HOT)
    else if w == "WARM" then Some(WARM)
    else if w == "COLD" then Some(COLD)
    else None
  }

  lemma OrderNames(k: nat)
    requires k < |ORDER|
    ensures |TIERS| == |ORDER| && ORDER[k].Name() == TIERS[k]
  {
  }

  // ---------------------------------------------------------------------
  // Exclusion filter

  /** `is_excluded`: some exclusion name is one of the path's parts. */
  function IsExcluded(rel: Path): (r: bool)
    ensures r <==> exists i :: 0 <= i < |rel| && rel[i] in DEFAULT_EXCLUDES
  {
    var parts := set p | p in rel;
    exists x :: x in DEFAULT_EXCLUDES && x in parts
  }

  /** Exclusion is by whole segment at any depth, never by substring. */
  lemma ExcludedAtAnyDepth(dirs: Path, name: string, rest: Path)
    requires name in DEFAULT_EXCLUDES
    ensures IsExcluded(dirs + [name] + rest)
    ensures !IsExcluded(["rebuild", "dist2", "my.venv", "a.py"])
  {
    assert (dirs + [name] + rest)[|dirs|] == name;
  }

  // ---------------------------------------------------------------------
  // Path.suffix

  /** `str.rfind(c)`: the last index of `c`, or -1. */
  function LastIndexOf(s: string, c: char): (r: int)
    ensures -1 <= r < |s|
    ensures r >= 0 ==> s[r] == c
    ensures forall k :: r < k < |s| ==> s[k] != c
  {
    if |s| == 0 then -1
    else if s[|s| - 1] == c then |s| - 1
    else LastIndexOf(s[..|s| - 1], c)
  }

  /** `Path.name`: the last segment, or empty for an empty path. */
  function FileName(rel: Path): string {
    if |rel| == 0 then "" else rel[|rel| - 1]
  }

  /**
   * `PurePath.suffix`: from the last dot to the end, provided that dot is
   * neither the first nor the last character of the name.
   */
  function Suffix(name: string): (r: string)
    ensures r == "" || (2 <= |r| < |name| && r == name[|name| - |r|..])
    ensures r != "" ==> r[0] == '.' && '.' !in r[1..]
    ensures forall i :: 0 < i < |name| - 1 && name[i] == '.' && '.' !in name[i + 1..] ==> r == name[i..]
  {
    var i := LastIndexOf(name, '.');
    if 0 < i < |name| - 1 then name[i..] else ""
  }

  predicate HasTextExt(rel: Path) {
    Lower(Suffix(FileName(rel))) in TEXT_EXTS
  }

  // ---------------------------------------------------------------------
  // The marker search: MARK_RE = @byt3-tier\s+(HOT|WARM|COLD), IGNORECASE

  /** Length of the run of whitespace starting at `j` (the greedy `\s+`). */
  function SpaceRun(s: string, j: nat): (n: nat)
    requires j <= |s|
    decreases |s| - j
    ensures j + n <= |s|
    ensures forall k :: j <= k < j + n ==> IsSpace(s[k])
    ensures j + n == |s| || !IsSpace(s[j + n])
  {
    if j < |s| && IsSpace(s[j]) then 1 + SpaceRun(s, j + 1) else 0
  }

  /**
   * The alternation `(HOT|WARM|COLD)` at position `j`, trying the tier names
   * from index `k` on: the first that matches case-insensitively, as it
   * appears in `s`.
   */
  function Alternative(s: string, j: nat, k: nat): (r: Option<string>)
    requires j <= |s|
    decreases |TIERS| - k
    ensures r.Some? ==> Upper(r.value) in TIERS
    ensures r.Some? ==> j + |r.value| <= |s| && r.value == s[j..j + |r.value|]
  {
    if k >= |TIERS| then None
    else if j + |TIERS[k]| <= |s| && Lower(s[j..j + |TIERS[k]|]) == Lower(TIERS[k]) then
      TierNameIsUpper(k);
      UpperOfFoldedWord(s[j..j + |TIERS[k]|], TIERS[k]);
      Some(s[j..j + |TIERS[k]|])
    else Alternative(s, j, k + 1)
  }

  lemma TierNameIsUpper(k: nat)
    requires k < |TIERS|
    ensures IsUpperWord(TIERS[k])
  {
  }

  /** The tier names begin with letters that differ even when case is ignored. */
  lemma InitialsDiffer(k: nat, k0: nat)
    requires k < k0 < |TIERS|
    ensures |TIERS[k]| > 0 && |TIERS[k0]| > 0
    ensures LowerChar(TIERS[k][0]) != LowerChar(TIERS[k0][0])
  {
  }

  /**
   * A tier word at `j`, in any case, is captured, and at most one tier word
   * can start at `j`, so the capture is exactly that word as it appears.
   */
  lemma {:induction false} AlternativeComplete(s: string, j: nat, k: nat, k0: nat)
    requires k <= k0 < |TIERS|
    requires j + |TIERS[k0]| <= |s| && Lower(s[j..j + |TIERS[k0]|]) == Lower(TIERS[k0])
    decreases k0 - k
    ensures Alternative(s, j, k) == Some(s[j..j + |TIERS[k0]|])
  {
    if k < k0 {
      var w, w0 := TIERS[k], TIERS[k0];
      InitialsDiffer(k, k0);
      assert LowerChar(s[j]) == LowerChar(w0[0]) by {
        assert Lower(s[j..j + |w0|])[0] == Lower(w0)[0];
      }
      assert j + |w| <= |s| ==> Lower(s[j..j + |w|])[0] != Lower(w)[0];
      assert Alternative(s, j, k) == Alternative(s, j, k + 1);
      AlternativeComplete(s, j, k + 1, k0);
    }
  }

  /**
   * Where `@byt3-tier\s+` ends when it matches at index `i`: the prefix in
   * any case, then a maximal run of at least one whitespace character.
   */
  function MarkerEnd(s: string, i: nat): (r: Option<nat>)
    ensures r.Some? ==> i + |MARK_PREFIX| < r.value <= |s|
    ensures r.Some? ==> r.value == i + |MARK_PREFIX| + SpaceRun(s, i + |MARK_PREFIX|)
    ensures r.Some? ==> Lower(s[i..i + |MARK_PREFIX|]) == MARK_PREFIX
    ensures r.Some? ==> forall k :: i + |MARK_PREFIX| <= k < r.value ==> IsSpace(s[k])
    ensures r.Some? ==> r.value == |s| || !IsSpace(s[r.value])
    ensures r.None? && i + |MARK_PREFIX| < |s| && Lower(s[i..i + |MARK_PREFIX|]) == MARK_PREFIX ==>
      !IsSpace(s[i + |MARK_PREFIX|])
  {
    if i + |MARK_PREFIX| <= |s| && Lower(s[i..i + |MARK_PREFIX|]) == MARK_PREFIX then
      var n := SpaceRun(s, i + |MARK_PREFIX|);
      if n == 0 then None else Some(i + |MARK_PREFIX| + n)
    else None
  }

  /**
   * An anchored match of `MARK_RE` at index `i`: the captured tier word, in
   * the case it has in `s`.
   */
  function MatchAt(s: string, i: nat): (r: Option<string>)
    ensures r.Some? ==> i + |MARK_PREFIX| < |s| && Lower(s[i..i + |MARK_PREFIX|]) == MARK_PREFIX
    ensures r.Some? ==> IsSpace(s[i + |MARK_PREFIX|])
    ensures r.Some? ==> Upper(r.value) in TIERS
    ensures r.Some? ==>
      var j := i + |MARK_PREFIX| + SpaceRun(s, i + |MARK_PREFIX|);
      j + |r.value| <= |s| && r.value == s[j..j + |r.value|]
  {
    match MarkerEnd(s, i)
    case None => None
    case Some(j) => Alternative(s, j, 0)
  }

  /**
   * The prefix in any case at `i`, whitespace right after it, and a tier
   * word where that whitespace run ends: then the marker matches at `i` and
   * captures that word.
   */
  lemma MatchAtComplete(s: string, i: nat, j: nat, k0: nat)
    requires i + |MARK_PREFIX| < |s| && Lower(s[i..i + |MARK_PREFIX|]) == MARK_PREFIX
    requires IsSpace(s[i + |MARK_PREFIX|])
    requires j == i + |MARK_PREFIX| + SpaceRun(s, i + |MARK_PREFIX|)
    requires k0 < |TIERS| && j + |TIERS[k0]| <= |s| && Lower(s[j..j + |TIERS[k0]|]) == Lower(TIERS[k0])
    ensures MatchAt(s, i) == Some(s[j..j + |TIERS[k0]|])
  {
    assert MarkerEnd(s, i) == Some(j);
    AlternativeComplete(s, j, 0, k0);
  }

  datatype Match = Match(start: nat, word: string)

  /**
   * `MARK_RE.search(s)` from index `from`: the leftmost index at which the
   * pattern matches, with its capture.
   */
  function Search(s: string, from: nat): (r: Option<Match>)
    decreases |s| - from
    ensures r.Some? ==> from <= r.value.start < |s| && MatchAt(s, r.value.start) == Some(r.value.word)
    ensures forall k :: from <= k && (r.None? || k < r.value.start) ==> MatchAt(s, k).None?
  {
    if from >= |s| then None
    else match MatchAt(s, from)
      case Some(w) => Some(Match(from, w))
      case None => Search(s, from + 1)
  }

  /** `f.read(4096)`: the first `HEAD_CHARS` characters of the content. */
  function Head(text: string): (r: string)
    ensures |r| == if |text| < HEAD_CHARS then |text| else HEAD_CHARS
    ensures r == text[..|r|]
  {
    if |text| <= HEAD_CHARS then text else text[..HEAD_CHARS]
  }

  /**
   * `detect_tier`: None for a name outside the text allow-list (content is
   * not consulted) and for an unreadable file (`text == None`); otherwise the
   * upper-cased capture of the leftmost marker in the head.
   */
  function DetectTier(rel: Path, text: Option<string>): (r: Option<string>)
    ensures !HasTextExt(rel) ==> r.None?
    ensures text.None? ==> r.None?
    ensures r.Some? ==> r.value in TIERS
  {
    if !HasTextExt(rel) then None
    else match text
      case None => None
      case Some(content) =>
        match Search(Head(content), 0)
        case None => None
        case Some(m) => Some(Upper(m.word))
  }

  /**
   * A tier is reported exactly when a marker starts somewhere in the head,
   * and then it is the upper-cased capture of a marker that starts there.
   */
  lemma DetectFindsMarker(rel: Path, text: string)
    requires HasTextExt(rel)
    ensures DetectTier(rel, Some(text)).Some? <==> exists i :: MatchAt(Head(text), i).Some?
    ensures DetectTier(rel, Some(text)).Some? ==>
      exists i :: 0 <= i < HEAD_CHARS && MatchAt(Head(text), i).Some? &&
        Upper(MatchAt(Head(text), i).value) == DetectTier(rel, Some(text)).value
  {
    var h := Head(text);
    match Search(h, 0)
    case None =>
      assert DetectTier(rel, Some(text)).None?;
      assert forall i :: MatchAt(h, i).None?;
    case Some(m) =>
      assert DetectTier(rel, Some(text)) == Some(Upper(m.word));
      assert m.start < HEAD_CHARS && MatchAt(h, m.start) == Some(m.word);
  }

  /** When several markers lie in the head, the leftmost one decides. */
  lemma FirstMarkerWins(rel: Path, text: string, i: nat)
    requires HasTextExt(rel)
    requires MatchAt(Head(text), i).Some?
    requires forall k :: 0 <= k < i ==> MatchAt(Head(text), k).None?
    ensures DetectTier(rel, Some(text)) == Some(Upper(MatchAt(Head(text), i).value))
  {
    var h := Head(text);
    var r := Search(h, 0);
    assert r.Some? && r.value.start == i;
  }

  /** Nothing past the first HEAD_CHARS characters influences the tier. */
  lemma HeadCutoff(rel: Path, head: string, rest: string)
    requires |head| == HEAD_CHARS
    ensures DetectTier(rel, Some(head + rest)) == DetectTier(rel, Some(head))
  {
    assert Head(head + rest) == head;
  }

  /** The marker needs at least one whitespace character before the tier word. */
  lemma NoMarkerWithoutSpace(s: string, i: nat)
    requires i + |MARK_PREFIX| >= |s| || !IsSpace(s[i + |MARK_PREFIX|])
    ensures MatchAt(s, i).None?
  {
  }

  /**
   * A text file whose first marker lies wholly within the first HEAD_CHARS
   * characters gets the tier that marker names, in upper case.
   */
  lemma DetectsMarker(rel: Path, text: string, i: nat, j: nat, k0: nat)
    requires HasTextExt(rel)
    requires i + |MARK_PREFIX| < |text| && Lower(text[i..i + |MARK_PREFIX|]) == MARK_PREFIX
    requires IsSpace(text[i + |MARK_PREFIX|])
    requires j == i + |MARK_PREFIX| + SpaceRun(text, i + |MARK_PREFIX|)
    requires k0 < |TIERS| && j + |TIERS[k0]| <= |text| && Lower(text[j..j + |TIERS[k0]|]) == Lower(TIERS[k0])
    requires j + |TIERS[k0]| <= HEAD_CHARS
    requires forall k :: 0 <= k < i ==> MatchAt(Head(text), k).None?
    ensures DetectTier(rel, Some(text)) == Some(TIERS[k0])
  {
    HeadMarker(text, i, j, k0);
    FirstMarkerWins(rel, text, i);
    TierNameIsUpper(k0);
    UpperOfFoldedWord(text[j..j + |TIERS[k0]|], TIERS[k0]);
  }

  /** Such a marker is matched in the head, capturing the tier word as written. */
  lemma HeadMarker(text: string, i: nat, j: nat, k0: nat)
    requires i + |MARK_PREFIX| < |text| && Lower(text[i..i + |MARK_PREFIX|]) == MARK_PREFIX
    requires IsSpace(text[i + |MARK_PREFIX|])
    requires j == i + |MARK_PREFIX| + SpaceRun(text, i + |MARK_PREFIX|)
    requires k0 < |TIERS| && j + |TIERS[k0]| <= |text| && Lower(text[j..j + |TIERS[k0]|]) == Lower(TIERS[k0])
    requires j + |TIERS[k0]| <= HEAD_CHARS
    ensures MatchAt(Head(text), i) == Some(text[j..j + |TIERS[k0]|])
  {
    PrefixMarker(text, Head(text), i, j, k0);
  }

  /** A marker that ends inside a prefix of the text is matched in that prefix too. */
  lemma PrefixMarker(s: string, t: string, i: nat, j: nat, k0: nat)
    requires |t| <= |s| && t == s[..|t|]
    requires i + |MARK_PREFIX| < |s| && Lower(s[i..i + |MARK_PREFIX|]) == MARK_PREFIX
    requires IsSpace(s[i + |MARK_PREFIX|])
    requires j == i + |MARK_PREFIX| + SpaceRun(s, i + |MARK_PREFIX|)
    requires k0 < |TIERS| && j + |TIERS[k0]| <= |t| && Lower(s[j..j + |TIERS[k0]|]) == Lower(TIERS[k0])
    ensures MatchAt(t, i) == Some(s[j..j + |TIERS[k0]|])
  {
    PrefixFacts(s, t, i, j, k0);
    MatchAtComplete(t, i, j, k0);
  }

  /** The conditions of `MatchAtComplete` carry over from the text to such a prefix. */
  lemma PrefixFacts(s: string, t: string, i: nat, j: nat, k0: nat)
    requires |t| <= |s| && t == s[..|t|]
    requires i + |MARK_PREFIX| < |s| && Lower(s[i..i + |MARK_PREFIX|]) == MARK_PREFIX
    requires IsSpace(s[i + |MARK_PREFIX|])
    requires j == i + |MARK_PREFIX| + SpaceRun(s, i + |MARK_PREFIX|)
    requires k0 < |TIERS| && j + |TIERS[k0]| <= |t| && Lower(s[j..j + |TIERS[k0]|]) == Lower(TIERS[k0])
    ensures i + |MARK_PREFIX| < |t| && Lower(t[i..i + |MARK_PREFIX|]) == MARK_PREFIX
    ensures IsSpace(t[i + |MARK_PREFIX|])
    ensures j == i + |MARK_PREFIX| + SpaceRun(t, i + |MARK_PREFIX|)
    ensures t[j..j + |TIERS[k0]|] == s[j..j + |TIERS[k0]|]
  {
    var p := |MARK_PREFIX|;
    SliceOfPrefix(s, t, i, i + p);
    SliceOfPrefix(s, t, j, j + |TIERS[k0]|);
    assert IsSpace(t[i + p]) by { assert t[i + p] == s[i + p]; }
    SpaceRunPrefix(s, t, i + p);
  }

  lemma SliceOfPrefix(s: string, t: string, x: nat, y: nat)
    requires |t| <= |s| && t == s[..|t|] && x <= y <= |t|
    ensures t[x..y] == s[x..y] && Lower(t[x..y]) == Lower(s[x..y])
  {
    assert t[x..y] == s[x..y];
  }

  /** A whitespace run that ends inside a prefix of the text is the same run in that prefix. */
  lemma {:induction false} SpaceRunPrefix(s: string, t: string, x: nat)
    requires |t| <= |s| && t == s[..|t|]
    requires x <= |s| && x + SpaceRun(s, x) < |t|
    decreases |s| - x
    ensures SpaceRun(t, x) == SpaceRun(s, x)
  {
    if IsSpace(s[x]) {
      SpaceRunPrefix(s, t, x + 1);
    }
  }

  /**
   * No word boundary follows the tier word: a marker reading "hotter"
   * still classifies the file as HOT.
   */
  lemma NoWordBoundary()
    ensures DetectTier(["notes", "todo.md"], Some("@byt3-tier hotter")) == Some("HOT")
  {
    var s := "@byt3-tier hotter";
    assert Lower(s[0..10]) == MARK_PREFIX;
    assert SpaceRun(s, 11) == 0;
    assert SpaceRun(s, 10) == 1;
    assert Lower(s[11..14]) == Lower("HOT");
    assert s[11..14] == "hot";
    assert Alternative(s, 11, 0) == Some("hot");
    assert MarkerEnd(s, 0) == Some(11);
    assert MatchAt(s, 0) == Some("hot");
    assert Search(s, 0) == Some(Match(0, "hot"));
    assert Upper("hot") == "HOT";
    assert LastIndexOf("todo.md", '.') == 4;
    assert Lower(".md") == ".md";
  }

  // ---------------------------------------------------------------------
  // Case insensitivity

  lemma {:induction false} SpaceRunIgnoresCase(a: string, b: string, j: nat)
    requires |a| == |b| && Lower(a) == Lower(b) && j <= |a|
    decreases |a| - j
    ensures SpaceRun(a, j) == SpaceRun(b, j)
  {
    if j < |a| {
      assert Lower(a)[j] == Lower(b)[j];
      SpaceIgnoresCase(a[j]);
      SpaceIgnoresCase(b[j]);
      if IsSpace(a[j]) {
        SpaceRunIgnoresCase(a, b, j + 1);
      }
    }
  }

  lemma {:induction false} AlternativeIgnoresCase(a: string, b: string, j: nat, k: nat)
    requires |a| == |b| && Lower(a) == Lower(b) && j <= |a|
    decreases |TIERS| - k
    ensures Alternative(a, j, k).Some? == Alternative(b, j, k).Some?
    ensures Alternative(a, j, k).Some? ==> Lower(Alternative(a, j, k).value) == Lower(Alternative(b, j, k).value)
  {
    if k < |TIERS| {
      var e := j + |TIERS[k]|;
      if e <= |a| && Lower(a[j..e]) == Lower(TIERS[k]) {
        LowerSlice(a, b, j, e);
        assert Alternative(a, j, k) == Some(a[j..e]);
        assert Alternative(b, j, k) == Some(b[j..e]);
      } else {
        if e <= |a| {
          LowerSlice(a, b, j, e);
        }
        assert Alternative(a, j, k) == Alternative(a, j, k + 1);
        assert Alternative(b, j, k) == Alternative(b, j, k + 1);
        AlternativeIgnoresCase(a, b, j, k + 1);
      }
    }
  }

  /** Two texts equal up to ASCII case match the marker at the same places. */
  lemma MatchAtIgnoresCase(a: string, b: string, i: nat)
    requires |a| == |b| && Lower(a) == Lower(b)
    ensures TierAt(a, i) == TierAt(b, i)
  {
    MarkerIgnoresCase(a, b, i);
    match MarkerEnd(a, i)
    case None =>
    case Some(j) => CaptureIgnoresCase(a, b, j);
  }

  /** `@byt3-tier\s+` ends at the same place whatever the case. */
  lemma MarkerIgnoresCase(a: string, b: string, i: nat)
    requires |a| == |b| && Lower(a) == Lower(b)
    ensures MarkerEnd(a, i) == MarkerEnd(b, i)
  {
    if i + |MARK_PREFIX| <= |a| {
      LowerSlice(a, b, i, i + |MARK_PREFIX|);
      SpaceRunIgnoresCase(a, b, i + |MARK_PREFIX|);
    }
  }

  /** The alternation captures words that upper-case alike. */
  lemma CaptureIgnoresCase(a: string, b: string, j: nat)
    requires |a| == |b| && Lower(a) == Lower(b) && j <= |a|
    ensures UpperCapture(Alternative(a, j, 0)) == UpperCapture(Alternative(b, j, 0))
  {
    AlternativeIgnoresCase(a, b, j, 0);
    CapturesAgree(Alternative(a, j, 0), Alternative(b, j, 0));
  }

  /** The upper-cased capture, as `m.group(1).upper()` yields it. */
  function UpperCapture(w: Option<string>): Option<string> {
    match w
    case None => None
    case Some(word) => Some(Upper(word))
  }

  /** The upper-cased capture of a marker at `i`, if one matches there. */
  function TierAt(s: string, i: nat): Option<string> {
    UpperCapture(MatchAt(s, i))
  }

  /** Two captures of the alternation that agree up to case upper-case alike. */
  lemma CapturesAgree(wa: Option<string>, wb: Option<string>)
    requires wa.Some? == wb.Some?
    requires wa.Some? ==> Lower(wa.value) == Lower(wb.value) && Upper(wa.value) in TIERS
    ensures UpperCapture(wa) == UpperCapture(wb)
  {
    if wa.Some? {
      LowerOfUpper(wa.value);
      UpperOfFoldedWord(wb.value, Upper(wa.value));
    }
  }

  lemma {:induction false} SearchIgnoresCase(a: string, b: string, from: nat)
    requires |a| == |b| && Lower(a) == Lower(b)
    decreases |a| - from
    ensures Search(a, from).Some? == Search(b, from).Some?
    ensures Search(a, from).Some? && Search(b, from).Some? ==>
      Search(a, from).value.start == Search(b, from).value.start &&
      Upper(Search(a, from).value.word) == Upper(Search(b, from).value.word)
  {
    if from < |a| {
      MatchAtIgnoresCase(a, b, from);
      if MatchAt(a, from).None? {
        SearchIgnoresCase(a, b, from + 1);
      }
    }
  }

  /**
   * The match is case-insensitive on both the prefix and the tier word:
   * texts that differ only in ASCII case get the same tier.
   */
  lemma DetectIgnoresCase(rel: Path, a: string, b: string)
    requires Lower(a) == Lower(b)
    ensures DetectTier(rel, Some(a)) == DetectTier(rel, Some(b))
  {
    assert |a| == |Lower(a)| == |Lower(b)| == |b|;
    var ha, hb := Head(a), Head(b);
    LowerSlice(a, b, 0, |ha|);
    assert ha == a[0..|ha|] && hb == b[0..|ha|];
    SearchIgnoresCase(ha, hb, 0);
  }

  // ---------------------------------------------------------------------
  // Token heuristic

  /** `approx_tokens`: a quarter of the characters, rounded down, but at least 1. */
  function ApproxTokens(chars: int): (r: int)
    ensures r >= 1
    ensures chars >= 4 ==> 4 * r <= chars < 4 * r + 4
    ensures chars < 8 ==> r == 1
  {
    var q := chars / 4;
    if q > 1 then q else 1
  }
}
