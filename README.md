# imgCompare histo.go, modelled in Dafny

imgCompare groups similar JPEG pictures of a directory. For each picture it
builds the histogram of its luma (Y) channel. It compares every picture with
every picture listed after it by the cross-correlation of the two 256-level
histograms. For each picture it keeps the partner with the largest |score|,
ranks these best pairs by non-increasing |score|, and copies the pictures to a
destination directory under numbered names, so that similar pictures end up
next to each other.

The Dafny project models that pipeline as it is written in `histo.go`:

| module | file | models |
|---|---|---|
| `Types` | types.dfy | pixels, images, histograms, `compRes`, `matches`, `rankedPair`, `math.Abs` |
| `Histograms` | histogram.dfy | `Histo`; the dense vectors built by `diff4` |
| `Paths` | paths.dfy | the `isJpeg` regexp on `strings.ToLower`; `filepath.Join`, `filepath.Ext`, `%d` |
| `Compare` | compare.dfy | `diffFiles`; the workers of `diffDir` as one sequential loop |
| `Select` | select.dfy | `uniquify` |
| `Rank` | rank.dfy | `sortedPairs` Less/Swap; `sort.Sort`; `bestPairsToSortedPairs` |
| `Rename` | rename.dfy | `renameAll`: the destination directory and the plan of `cp` calls |
| `Samples` | samples.dfy | the five-picture table kept in a comment of `main`, and its recorded result |

The outside world enters only through parameters:
- image decoding (`os.Open` + `image.Decode`) is `Env.decode: string -> Option<Image>`;
- the floating-point score (`xCorrelation`) is `Env.score` applied to the two dense vectors;
- the directory listing (`os.Open` + `Readdirnames`) is an `Option<seq<string>>`;
- `os.MkdirAll` and `cp` are `mkdirAll: string -> bool` and `copy: (string, string) -> bool`.

A Go panic is modelled as a result that ends the run:
- `Outcome.Panicked` and `DirResult.Crashed` stand for `Histo` meeting a pixel that is not YCbCr;
- `None` from `Select.Uniquify` stands for the index panic on an empty list;
- `Status.MkdirFailed` and `Status.CopyFailed` stand for `renameAll`'s panics.

Go's random map iteration order is an arbitrary choice (`:|`) in the loops that range over a map.
The results are stated for every such choice.

## Model

| member | source | states |
|---|---|---|
| Histograms.Histo | histo.go:20-38 | returns the histogram of the image's luma values, or the abort when some pixel is not YCbCr (the reference function HistoOf) |
| Histograms.HistoCounts | histo.go:20-37 | a successful histogram counts each level exactly as often as it occurs among the pixels, has no zero entries, and its counts add up to width × height |
| Histograms.NonYCbCrAborts | histo.go:26-29 | one pixel that is not YCbCr, anywhere in the image, makes Histo abort |
| Histograms.DenseVectors | histo.go:153-158 | x and y have 256 entries; entry i is histo[i], and 0 for a level missing from the map |
| Histograms.DenseSumIsPixelCount | histo.go:150-158 | the dense vector of an image's histogram sums to the number of pixels |
| Types.Abs | histo.go:261 | math.Abs: the result is non-negative and is the argument or its negation |
| Paths.Lower | histo.go:210 | strings.ToLower on ASCII letters: same length, each character lowercased in place |
| Paths.IsJpeg | histo.go:210 | the name filter of histo.go:210 and 220: the lowercased name ends in ".jpg" or ".jpeg", checked back to front (its meaning is stated by Paths.IsJpegMatchesRegex) |
| Paths.Join | histo.go:214 | filepath.Join for a directory and a plain name: the name alone when the directory is empty, else the directory, a '/' unless it already ends in one, then the name |
| Paths.JoinShape | histo.go:214 | the joined path starts with the directory and ends with the name, and a '/' separates them |
| Paths.Decimal | histo.go:323 | the `%d` rendering of a natural number: a non-empty run of decimal digits (with Paths.DecimalInjective, one number per rendering) |
| Paths.DecimalInjective | histo.go:323 | two numbers with the same `%d` rendering are equal |
| Paths.IsJpegMatchesRegex | histo.go:191 | IsJpeg(name) holds exactly when the lowercased name matches `.*\.(jpg\|jpeg)$` (the regex's acceptance stated separately as RegexAccepts) |
| Paths.IsJpegIgnoresCase | histo.go:210 | the JPEG test gives the same answer on a name and on its lowercased form |
| Paths.Ext | histo.go:322 | filepath.Ext: the result is empty exactly when no '.' of the path lies in its last element (after its last '/'); otherwise it is the suffix from that element's last '.', holding no '/' and no further '.' |
| Paths.JoinInjective | histo.go:214 | joining one directory with two different names gives two different paths |
| Paths.NumberedNameInjective | histo.go:323 | "%d" followed by an extension determines both the number and the extension |
| Compare.DiffFiles | histo.go:162-182 | the outcome is a failure exactly when one of the two files does not decode, a panic exactly when both decode and one is not YCbCr, and otherwise the score of the two dense vectors |
| Compare.Worker | histo.go:208-237 | a worker panics exactly when its name is a JPEG and one of its comparisons panics; otherwise it returns nothing for a non-JPEG and the row of scored later JPEG names (Row) for a JPEG; the diffFiles calls it makes are a prefix of Attempts, all of Attempts when it does not panic, and none for a non-JPEG |
| Compare.CompareWith | histo.go:216-231 | one pass of the worker's inner loop: calls diffFiles exactly when k2 is a later JPEG name, records that call, panics exactly when that comparison panics, and otherwise extends the row as Row does |
| Compare.RunWorker | histo.go:206-237 | one worker of diffDir: the table grows exactly as Table does, the call count grows by that worker's calls, and a crash means some comparison of the listing panics |
| Compare.DiffDir | histo.go:193-253 | returns the listing error, the crash when some comparison panics, or the table of all workers (DiffDirOf); it makes at most CallsFrom(names, 0) diffFiles calls, and exactly N(N-1)/2 for N JPEG names when it returns a table |
| Compare.AttemptsPrefix | histo.go:216-225 | the calls a worker has made before position n are a prefix of all its calls |
| Compare.AttemptsExact | histo.go:216-222 | worker k attempts exactly the later JPEG names, each once, in increasing listing order |
| Compare.OncePerPair | histo.go:206-222 | every unordered pair of distinct JPEG names is compared by exactly one worker: the one of the name listed first |
| Compare.CallsFromCount | histo.go:206-225 | the workers for names[j..] call diffFiles N(N-1)/2 times, N being the JPEG count of names[j..] |
| Compare.TotalComparisons | histo.go:206-225 | diffDir calls diffFiles N(N-1)/2 times for the N JPEG names of the directory |
| Compare.SuccessesExact | histo.go:225-230 | the scored indices of worker k are exactly the later JPEG names whose comparison produced a score, in listing order |
| Compare.RowShape | histo.go:225-230 | the row holds one entry per scored index, in the same order: the joined path of the later name and its score; a failed comparison drops only its own pair |
| Compare.RowWithoutFailures | histo.go:216-230 | when no comparison fails, the row has one entry for every later JPEG name |
| Compare.TableKeys | histo.go:233-235 | the table's keys are the joined paths of the JPEG names whose row is not empty, and no key holds an empty list |
| Compare.TableEntry | histo.go:233-235 | with no repeated names, the key of a JPEG name with a non-empty row holds exactly that row |
| Select.Uniquify | histo.go:255-270 | panics (None) exactly when some key has an empty list; otherwise the result has the same keys as the table; each key gets the entry of largest \|score\| of its list, the first such entry when several tie, and entry 0 when no score beats 0 |
| Select.FirstMaxUnique | histo.go:258-265 | a list has at most one "first entry of largest \|score\|" |
| Select.AllZeroPicksFirst | histo.go:258-265 | a list whose scores are all 0 yields its first entry |
| Select.BestPairsDeterministic | histo.go:257-268 | two results that both meet uniquify's contract are equal: the map order cannot change the result |
| Rank.Less | histo.go:285-287 | sortedPairs.Less: element i goes first when its \|rank\| is strictly larger than that of element j |
| Rank.LessIsStrictWeakOrder | histo.go:285-287 | Less is irreflexive and transitive, and incomparability is transitive: the strict weak ordering sort.Interface asks for |
| Rank.Swap | histo.go:290-292 | exchanges elements i and j and changes nothing else |
| Rank.Insert | histo.go:306 | one insertion step of the sort: with the first i elements in non-increasing \|rank\| order, the first i+1 are after it; the contents are a permutation, and the elements after i are left as they were |
| Rank.Sort | histo.go:306 | after the sort no element is Less than one before it (non-increasing \|rank\|), and the contents are a permutation of the old ones |
| Rank.Entry | histo.go:298-302 | the rankedPair built from key k of the best-pairs map: pic1 = k, pic2 = m[k].file, rank = m[k].match |
| Rank.FillPairs | histo.go:295-305 | a fresh slice of len(m) pairs holding each entry (k, m[k].file, m[k].match) exactly once |
| Rank.BestPairsToSortedPairs | histo.go:294-308 | the result lists every entry of the best-pairs map exactly once and is sorted by non-increasing \|rank\| |
| Rank.ListedSoFarSnoc | histo.go:297-305 | one iteration of the fill loop keeps "every visited key listed exactly once" |
| Rank.PermutationKeepsListing | histo.go:306 | any permutation of a listing of the map is still a listing of it |
| Rank.SortedListingUnique | histo.go:294-308 | when no two best matches tie on \|score\|, there is only one sorted listing, whatever the map order and the unstable sort do |
| Rename.DestDir | histo.go:311-313 | the destination directory is never empty: "sorted" when none is given, else the given one |
| Rename.Target | histo.go:322-324 | the destination of slot n holding file f: the directory joined with `%d` of n followed by filepath.Ext(f) (the same at histo.go:333-335 for pic2) |
| Rename.Slots | histo.go:320-336 | the files in the order renameAll meets them: pair k's pic1 at 2k and its pic2 at 2k+1 |
| Rename.VisitSlot | histo.go:321-331 | one `done` test: copies the file to its numbered name unless it was met before; the copies made so far follow the plan, and a failed cp is the last one |
| Rename.CopyPairs | histo.go:318-343 | the copies made are a prefix of the plan; all but the last succeeded; the plan is complete exactly when every cp succeeded |
| Rename.RenameAll | histo.go:310-344 | uses "sorted" when no directory is given; panics before any copy when MkdirAll fails; otherwise the copies made are a prefix of the plan, it completes exactly when every cp succeeds, and a failure is always the last cp |
| Rename.PlanPrefix | histo.go:320-343 | the plan for a prefix of the walk is a prefix of the plan for the whole walk |
| Rename.PlanSnoc | histo.go:320-343 | one more slot appends one copy when its file is new, and none otherwise |
| Rename.PlanMembers | histo.go:320-343 | a copy is planned exactly when it is the copy of a slot that is the first occurrence of its file, to `<slot><ext>` |
| Rename.PlanSourcesDistinct | histo.go:318-343 | every planned copy reads a file of the pairs, and no file is copied twice |
| Rename.PlanCoversFiles | histo.go:320-343 | every file of the pairs is copied |
| Rename.TargetInjective | histo.go:322-335 | two slots never share a destination path, whatever the files' extensions |
| Rename.PlanDestsDistinct | histo.go:320-343 | no two planned copies write the same destination |
| Rename.FirstEncounterNames | histo.go:321-336 | a pic1 met for the first time is copied to `2k<ext>`, a pic2 met for the first time to `2k+1<ext>` |
| Rename.TargetKeepsJpg | histo.go:322-324 | a ".jpg" file in slot n is copied to `<n>.jpg` |
| Samples.UniquifyOnTable | histo.go:360-379 | for any five distinct names, uniquify on the commented table gives exactly the four best pairs recorded after "uniquify:" |
| Samples.RankingOfBest | histo.go:294-308 | for any five distinct names, ranking those best pairs can only give (maison, plage), (plage, voiture), (tour, vipere), (voiture, vipere) |
| Samples.PlanOfRanking | histo.go:310-344 | for any five distinct names, renaming that ranking copies the five pictures to slots 0, 1, 3, 4 and 5 |
| Samples.UniquifyOnTestTable | histo.go:360-379 | uniquify on the table with the source's own picture names gives the recorded best pairs |
| Samples.RankingOfTestTable | histo.go:294-308 | bestPairsToSortedPairs on those best pairs can only return maison, plage, tour, voiture in that order |
| Samples.PlanOfTestRanking | histo.go:310-344 | renameAll on that ranking copies maison, plage, voiture, tour, vipere to 0, 1, 3, 4, 5 |

## Left out

- Floating point: `diff1`, `diff2`, `diff3`, `mean`, `denominator` and `xCorrelation` are not modelled. The score is an abstract function of the two dense vectors, and scores are `real`, so NaN and rounding are not modelled.
- File I/O is not modelled: `os.Open`, `image.Decode`, `Readdirnames`, `os.MkdirAll` and `exec.Command("cp", ...)` are abstract parameters. The JPEG decoder and the colour model are not part of this model.
- Concurrency is not modelled. diffDir's goroutines, the WaitGroup and the unsynchronised concurrent writes to `results` become one sequential loop over the listing. Each worker writes only its own key, so the final table is the same when the writes do not race.
- `log.Print`, the `fmt.Printf`/`println` traces, `printHisto` and `main`'s flag handling only print or parse, so they are left out.
- Compare.DiffDir: only a panic from `Histo` is modelled inside a worker. Go's fatal error on concurrent map writes is not.
- Paths.Join: the path is not cleaned the way `filepath.Clean` does it. It stands for `dir + "/" + name`, or `name` when the directory is empty.
- Paths.Lower: folds ASCII letters only, not the whole of Unicode.
- Histograms.Histo: the image bounds are assumed to start at (0, 0), so `At(x, y)` is the pixel in row y and column x.
- Rank.Sort: this is an insertion sort, not Go's pdqsort. Only what `sort.Sort` promises is stated: sorted and a permutation. The order of ties is left unconstrained, and where no ties exist the order is unique (Rank.SortedListingUnique).
- sortedPairs.Len is `|s|` and needs no member of its own.
- Histograms.DenseVectors: the vectors hold the integer counts. The `float64` conversion is left out because counts are far below 2^53.
