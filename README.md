# context-tiers, modelled in Dafny

`context_tiers.py` sorts the files of a directory tree into three priority
tiers, HOT, WARM and COLD. The tier comes from an inline marker
`@byt3-tier <TIER>` near the top of a file. The script then lists one tier,
summarises all three, or copies one tier into a bundle directory. This
project models its classification pipeline and the pure parts of its three
commands, and proves what they promise:

- `text.dfy` (module `Text`): ASCII case folding, which stands for
  `re.IGNORECASE` and `str.upper`, and the exact character set that
  Python's `\s` matches.
- `tiers.dfy` (module `Tiers`): the constants `TIERS`, `DEFAULT_EXCLUDES`
  and `TEXT_EXTS`, and the exclusion filter `is_excluded`. It also holds
  `Path.suffix`, the regular expression `MARK_RE` as an anchored match
  (`MatchAt`) plus a leftmost search (`Search`), `detect_tier` and
  `approx_tokens`.
- `path_order.dfy` (module `PathOrder`): Python's ordering of paths, which
  compares their part lists lexicographically and each part by code point.
  It also holds the insertion sort that stands for `sorted`.
- `scanner.dfy` (module `Scanner`): the filesystem as a sequence of
  entries, each entry's placement as one value of `Place`, and `scan_repo`
  as a loop that builds the dict of buckets and the `unknown` list.
- `commands.dfy` (module `Commands`): the selection and sorting done by
  `cmd_list`, the accumulation done by `cmd_status`, and the list of copy
  operations that `cmd_bundle` performs.

The directory walk is an input: a sequence of `Entry` values, each with a
root-relative path as segments, an `isDir` flag, and the text that
`f.read` would return (`None` when opening or reading raises `OSError`).
The second read that `cmd_status` does is a parameter
`readFile: Path -> Option<Blob>`, where a `Blob` gives the byte length and
the decoded character length. Buckets hold root-relative paths, where the
source stores `root / rel`. `cmd_list` and `cmd_bundle` call
`relative_to(root)` on each stored path. A shared root prefix changes
neither the sort order nor the printed text. `cmd_status` only reads each
file, and `readFile` takes the file by its root-relative path. No command
uses `unknown`.

In these places the code does something a reader might not expect; the
model follows the code:
- The head read is `f.read(4096)` on a text-mode file, so the cut-off is
  4096 decoded characters, not 4096 bytes.
- `approx_tokens` is applied once to each tier's character total. It
  returns 1 even when that total is 0. It is not applied per file.
- The exclusion filter compares whole path segments, never substrings.
- The pattern has no word boundary after the tier word, so
  `@byt3-tier hotter` reads as HOT.

## Model

| member | source | states |
|---|---|---|
| `Tiers.TierOf` | clawdbot/context-tiers/context_tiers.py:78 | `tier in results` holds exactly for the three tier names, and the tier found has that name |
| `Tiers.IsExcluded` | clawdbot/context-tiers/context_tiers.py:40-42 | a path is excluded iff one of its segments equals one of the eight names in `DEFAULT_EXCLUDES` |
| `Tiers.ExcludedAtAnyDepth` | clawdbot/context-tiers/context_tiers.py:10-19 | an excluded name excludes at any depth, the file name included; segments that only contain one (`rebuild`, `dist2`, `my.venv`) do not |
| `Tiers.Suffix` | clawdbot/context-tiers/context_tiers.py:47 | the suffix is empty, or it runs from the last dot to the end of the name, where that dot is neither first nor last |
| `Tiers.SpaceRun` | clawdbot/context-tiers/context_tiers.py:8 | the greedy `\s+` covers a maximal run of whitespace |
| `Tiers.Alternative` | clawdbot/context-tiers/context_tiers.py:8 | a captured word is a slice of the text whose upper case is one of the tier names |
| `Tiers.AlternativeComplete` | clawdbot/context-tiers/context_tiers.py:8 | a tier word at the position, in any case, is captured exactly as written; no other tier word can start at the same place, since the initials differ |
| `Tiers.MarkerEnd` | clawdbot/context-tiers/context_tiers.py:8 | `@byt3-tier\s+` matches when the prefix is there in any case and at least one whitespace character follows; it ends after a maximal whitespace run |
| `Tiers.MatchAt` | clawdbot/context-tiers/context_tiers.py:8 | a match at `i` needs the prefix `@byt3-tier` in any case, then at least one whitespace character; the capture is the text where that whitespace run ends, and it upper-cases to a tier name |
| `Tiers.MatchAtComplete` | clawdbot/context-tiers/context_tiers.py:8 | the prefix in any case, whitespace after it and a tier word where the whitespace ends give a match at that index, capturing that word |
| `Tiers.Search` | clawdbot/context-tiers/context_tiers.py:56 | `MARK_RE.search` finds the leftmost index where the pattern matches; no earlier index matches, and with no result no index matches |
| `Tiers.Head` | clawdbot/context-tiers/context_tiers.py:52 | the head is the prefix of the content of length min(4096, length) |
| `Tiers.DetectTier` | clawdbot/context-tiers/context_tiers.py:45-59 | None for a suffix outside `TEXT_EXTS` whatever the content, None for an unreadable file, and otherwise None or one of `HOT`, `WARM`, `COLD` |
| `Tiers.DetectFindsMarker` | clawdbot/context-tiers/context_tiers.py:56-59 | for a text file, a tier is reported iff some marker matches in the head; the tier is the upper-cased capture of a marker starting before index 4096 |
| `Tiers.FirstMarkerWins` | clawdbot/context-tiers/context_tiers.py:56-59 | when several markers lie in the head, the leftmost one decides the tier |
| `Tiers.DetectsMarker` | clawdbot/context-tiers/context_tiers.py:45-59 | a text file whose first marker lies wholly within the first 4096 characters is classified as the tier that marker names, e.g. `@byt3-tier warm` in a `.md` file gives WARM |
| `Tiers.PrefixMarker` | clawdbot/context-tiers/context_tiers.py:52-56 | a marker that ends inside a prefix of the text also matches in that prefix, with the same capture |
| `Tiers.HeadCutoff` | clawdbot/context-tiers/context_tiers.py:52 | nothing after the first 4096 characters changes the result, so a marker that starts at or after index 4096 is never seen |
| `Tiers.NoMarkerWithoutSpace` | clawdbot/context-tiers/context_tiers.py:8 | there is no match when a non-whitespace character follows `@byt3-tier`, or when the prefix ends the text |
| `Tiers.NoWordBoundary` | clawdbot/context-tiers/context_tiers.py:8 | `@byt3-tier hotter` in a `.md` file classifies as HOT |
| `Tiers.DetectIgnoresCase` | clawdbot/context-tiers/context_tiers.py:8 | texts that differ only in letter case get the same tier: prefix and tier word are both case-insensitive |
| `Tiers.ApproxTokens` | clawdbot/context-tiers/context_tiers.py:62-64 | the estimate is at least 1; for 4 or more characters it is the floor of a quarter of them; below 8 characters it is 1 |
| `Text.UpperOfFoldedWord` | clawdbot/context-tiers/context_tiers.py:59 | a word that case-folds like an upper-case tier name upper-cases to exactly that name |
| `PathOrder.PathLtTransitive` | clawdbot/context-tiers/context_tiers.py:116 | the ordering `sorted` uses on paths is transitive |
| `PathOrder.PathLtTotal` | clawdbot/context-tiers/context_tiers.py:116 | any two different paths are ordered one way or the other |
| `PathOrder.SortPaths` | clawdbot/context-tiers/context_tiers.py:116 | `sorted` returns an ascending permutation of its input |
| `PathOrder.SortedUnique` | clawdbot/context-tiers/context_tiers.py:116 | two ascending permutations of the same paths are equal |
| `Scanner.Classify` | clawdbot/context-tiers/context_tiers.py:72-81 | an entry is skipped iff it is a directory or excluded; a marked entry carries the tier `detect_tier` reports; an unmarked one had no tier detected; a non-text file that is scanned is unmarked |
| `Scanner.ScanRepo` | clawdbot/context-tiers/context_tiers.py:67-83 | the dict has the keys HOT, WARM and COLD; each bucket and `unknown` hold, in enumeration order, the paths of exactly the entries placed there |
| `Scanner.ScanEntry` | clawdbot/context-tiers/context_tiers.py:72-81 | one pass of the loop body appends the entry's path to the bucket where `Classify` places it and leaves the other buckets and the dict's keys as they were |
| `Scanner.Partition` | clawdbot/context-tiers/context_tiers.py:67-83 | the four buckets together hold each scanned path exactly as often as it was enumerated, so every scanned file is in exactly one bucket |
| `Scanner.PartitionSizes` | clawdbot/context-tiers/context_tiers.py:67-83 | the four bucket sizes add up to the number of scanned files |
| `Scanner.CollectMembers` | clawdbot/context-tiers/context_tiers.py:77-81 | a path is in a bucket iff some entry with that path was placed there |
| `Scanner.SkippedInNoBucket` | clawdbot/context-tiers/context_tiers.py:72-75 | a directory or an excluded entry appears in no bucket (paths being distinct, as in a tree) |
| `Scanner.CollectAppend` | clawdbot/context-tiers/context_tiers.py:71-81 | buckets keep enumeration order: the bucket of an enumeration is the bucket of its first part followed by that of the rest |
| `Commands.RequestedBucket` | clawdbot/context-tiers/context_tiers.py:115-116 | `results.get(tier.upper(), [])` selects the requested tier's bucket, or nothing for a name that is no tier |
| `Commands.CmdList` | clawdbot/context-tiers/context_tiers.py:113-117 | the listing is sorted and is a permutation of the upper-cased tier's bucket; a name that is no tier lists nothing |
| `Commands.ListingIsUnique` | clawdbot/context-tiers/context_tiers.py:116 | the listing is determined by the bucket, whatever sorting algorithm produces it |
| `Commands.CmdStatus` | clawdbot/context-tiers/context_tiers.py:86-107 | one line per tier in the order HOT, WARM, COLD, with the bucket length (unreadable files included), the byte total of the readable files and the token estimate of their character total |
| `Commands.TierTotals` | clawdbot/context-tiers/context_tiers.py:93-103 | the inner loop's byte and character accumulators end equal to the totals over the readable files |
| `Commands.TotalsAppend` | clawdbot/context-tiers/context_tiers.py:96-103 | the totals of a concatenation are the sums of the totals of its parts |
| `Commands.UnreadableAddsNothing` | clawdbot/context-tiers/context_tiers.py:97-103 | an unreadable file adds nothing to either total, wherever it stands |
| `Commands.CharsWithinBytes` | clawdbot/context-tiers/context_tiers.py:99-106 | when decoding never yields more characters than bytes, the character total is at most the byte total, and the token estimate is at most a quarter of the bytes (or 1) |
| `Commands.AllUnreadable` | clawdbot/context-tiers/context_tiers.py:92-106 | a tier whose files are all unreadable still counts them, with totals 0 and an estimate of 1 token |
| `Commands.CmdBundle` | clawdbot/context-tiers/context_tiers.py:120-131 | one copy per path of the requested tier, in bucket order, to the same relative path under the output directory; the printed count is the bucket length |
| `Commands.CopyAll` | clawdbot/context-tiers/context_tiers.py:125-129 | the copy loop copies each source, in order, to the output directory followed by its relative path |
| `Commands.BundleDestinations` | clawdbot/context-tiers/context_tiers.py:126-129 | every destination is inside the output directory, and distinct sources get distinct destinations |

## Left out

- The directory walk (`root.rglob`, `is_dir`, `relative_to`) is an input sequence of entries. Enumeration order and symbolic-link behaviour are whatever that sequence says.
- Opening files and decoding UTF-8 with `errors="ignore"` are not modelled. Detection receives the decoded text, or None for `OSError`. Status receives byte and character lengths, or None.
- Case folding is ASCII only. Python's `re.IGNORECASE` also pairs a few non-ASCII letters with ASCII ones (for example dotless `ı` with `i`), and `str.upper` is Unicode-wide. Those extra equivalences are not modelled.
- The `Path.suffix` edge cases beyond "last dot, neither first nor last character of the name" are not modelled. Nor is Windows' case-insensitive path comparison.
- The kilobyte figure `total_bytes/1024` formatted with one decimal is floating point and is not modelled. The byte total it is computed from is.
- The printed text of every command, the argument parsing in `main`, and the choice of the current directory as root are not modelled.
- `mkdir` and `shutil.copy2` in `cmd_bundle` are filesystem effects. The model gives the list of copies they perform, not their effect, metadata preservation or failure part-way.
- Commands.CmdBundle: states the destinations, not that the copied bytes equal the source bytes, because file contents at copy time are not part of the model.
