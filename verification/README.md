# Verified cores of Anvil

Anvil is an editor for Windows. Six of its cores compute something that can be stated without
a window, a GPU or a file system. This project models them in Dafny and proves what they promise.

| component | modules |
|---|---|
| Histogram diff | `PairChains`, `CommonSubsequence`, `DiffLines`, `RegionSplitting`, `HistogramMatching`, `DiffEngine` |
| Fuzzy and literal search | `Utf8`, `FoldedText`, `NormalizedText`, `PrefixMatching`, `LiteralSearch`, `AsciiText`, `Spelling`, `FuzzyScore`, `TopResults`, `FuzzyIndexing`, `FuzzySearch`, `FuzzyOrder`, `BestMatches` |
| File index builder | `NulFields`, `TableGrowth`, `OpenAddressing`, `FileCandidates`, `FileIndexBuilding`, `FileNames` |
| Git status index | `GitPaths`, `GitRecords`, `GitStatusIndex`, `StatusText`, `StatusAnswers` |
| Shell and Project transport | `SinglePrecision`, `SurfacePackets`, `PacketBytes`, `Compaction`, `IpcPipe`, `SurfaceQueues`, `SurfaceEnds`, `SurfaceConnection`, `ConnectionInputs`, `ConnectionMovement`, `ConnectionProgress` |
| Quad batcher and texture cache | `TextureUploads`, `QuadBatching`, `TextureCaching` |
| Runtime archive and command lines | `ByteOrder`, `RuntimeArchive`, `CommandLine`, `HostedArguments` |
| Shared | `Wrappers`; inputs that both indexes refuse: `ManyFiles` |

Objects that the source updates in place are classes here, and loops are loops; each method is proved
against a function or a predicate about values, and the promises are lemmas about those.

The main results:

- A histogram diff returns pairs of equal lines, ascending on both sides, such that no further pair of
  equal lines fits anywhere. They are those of an anchor of the texts and, in the same way, of the two parts
  beside it; a part without an anchor has a longest alignment. The anchor has a line as rare as any that leads
  a run, and among unique lines is the first of the longest. A text compared with itself gives every line its
  own partner. It terminates.
- A literal search finds the needle in the folded stream exactly when it occurs there, and the slice of
  the text that it reports contains the needle when it is folded on its own. Plain text is found where it
  stands, in either case unless case matters; an accent does not count, but an enye is a letter of its own.
- A fuzzy search returns the first `limit` entries of the one ranking that orders all matches: higher scores,
  then the dictionary, then the order of entries. Of two matches of a word, one that is placed better in some
  respect and worse in none scores strictly higher.
- A file index holds the first candidate of every file, however the input is cut into chunks. It fails
  exactly for a candidate of which nothing is left, and on the third usable candidate after 375,809,638
  different files. The Git status index fails exactly on the third path after as many different paths.
- A lookup in the Git status index answers what a scan of all records answers, and the scan finds the first
  of the strongest records, or the nearest summary above. From the text that git prints to the answer: the two
  letters of the lines that count for a path decide its kind, and the changes below it its counts.
- Over every run of a shell and Project connection, nothing is lost, doubled or reordered: what is
  dispatched, queued and underway is a compaction of what was sent, and the bytes underway are its packets,
  field by field. Epochs agree on layouts, so the "layout changed without configuration epoch" loss cannot
  happen. Every input that is delivered was sent by an earlier step under the layout that the process has;
  every frame that is shown was published by an earlier step under the layout that the shell has. Of the
  dispatched inputs, those of the configuration then current are delivered, in order, and those are all. A live
  connection is never stuck: what is queued or underway can be moved on, in a bounded number of steps, until
  all that was sent is dispatched and every input delivered, or the connection ends; then a frame in the size
  of the layout can be published and is shown.
- Batched drawing draws the pushed quads in order, each with its own texture, and atlas quads with the
  rows that they were pushed with.
- The runtime archive and the quoted command line are read back as they were written. A child process reads
  from its arguments exactly what the shell started it for, and the user's own arguments, if and only if none
  of those is a flag of the shell and the path of the Project is no option.

Where the code falls short of what one would expect of it, lemmas say when, and a lemma or a method produces an
input:

- A histogram diff need not be a longest one: among unique lines it joins a longest block, and a block that
  moved can cost more lines than it has (`DiffEngine.DiffAfterMove`). It is longest when no two pairs of equal
  lines cross, in which case it has them all, and when no line of the new text occurs 1 to 64 times in the old
  one (`DiffEngine.EqualPairs`).
- An image that changes between two pushes of one batch is drawn changed both times
  (`QuadBatching.DrawChangedImage`). It is drawn with the rows of its last push in the batch, so as it was
  pushed exactly when those are the same, and surely when its surface did not advance in between
  (`QuadBatching.ImageDrawnAsLastPushed`). Which pushes share a batch is stated by `PushTexture` and `Flush`.
  The public functions of the backend allow that input; its callers in the editor bring a canvas up to date
  before each push (src/rencache.c:907-914) and change no image between two pushes of a batch.
- Merged mouse motions are added in single precision. In every run the movement that was sent arrives exactly as
  long as there is a number for the sum of every two motions that a step merges
  (`ConnectionMovement.MovementIsLostExactly`); there is none for one tenth and sixteen
  (`ConnectionMovement.TenthIsLost`). Motions in a row that go less than 2^24 steps of a size that divides them
  all are safe (`ConnectionMovement.MovementIsKept`).
- After 2^64 - 1 epochs a new layout is sent under epoch 0, which is refused (`SurfaceEnds.EpochsRunOut`).
- The 32-bit load test of both hash tables wraps around from 2^30 slots on; the tables then grow twice
  more and refuse (`TableGrowth.GrowthTest`, `TableGrowth.RefusedExactly`). Of files named by numbers of nine
  digits, both indexes take 375,809,640 and fail for one more (`ManyFiles.TooManyFiles`,
  `ManyFiles.TooManyChanges`).
- Files whose names are one path to the file system are all extracted as packed exactly when they are
  equal (`RuntimeArchive.OnDiskIffNoClash`); two names that differ in case are enough
  (`RuntimeArchive.CaseClash`).
- A user's argument that is one of the shell's own flags is swallowed by the Project that the shell starts, or
  keeps it from starting (`HostedArguments.ChildReadsBack`).
- Of the names that the writer accepts, the reader refuses exactly ".", names with a colon in second place, and
  names with a component that, split at its backslashes, has an empty, a "." or a ".." piece
  (`RuntimeArchive.ReaderAcceptsWritten`, `RuntimeArchive.RefusedNames`).

Two things that the code leaves to the writers of surfaces are assumed: generations count from one, and an
atlas gets a new row with every new generation.

Parameters of the model: the Unicode tables, the hash functions, which payloads of the other packet types a
process accepts, the pixel conversion, zlib, and whether Windows can make a path of a name.

## Model

| member | source | states |
|---|---|---|
| `PairChains.InsertKeepsChain` | src/diff_engine.cpp:130-132 | Putting a pair where the sort order wants it keeps the pairs ascending on both sides, if it crosses none of them |
| `PairChains.FullChainIsDiagonal` | src/diff_engine.cpp:100-134 | n pairs that ascend within n lines on both sides are (1,1) to (n,n) |
| `PairChains.SubchainIsShorter` | src/diff_engine.cpp:130-132 | Ascending pairs that are all among other ascending pairs are no more than those |
| `CommonSubsequence.Longest` | src/diff_engine.cpp:244-254 | The fallback's common pairs are a longest common subsequence |
| `CommonSubsequence.LongestIsMaximal` | src/diff_engine.cpp:244-254 | No equal pair can be added to a longest common subsequence |
| `CommonSubsequence.EmptyIsLongest` | src/diff_engine.cpp:241 | With one side empty the early return is right |
| `DiffLines.InternLines` | src/diff_engine.cpp:63-77 | Interned numbers are equal exactly where lines are, within a text and across both |
| `DiffLines.LinkOccurrences` | src/diff_engine.cpp:79-84 | Every position is linked to the next occurrence of its line in A |
| `DiffLines.BuildChains` | src/diff_engine.cpp:79-87 | Positions of B refer to the first occurrence of their line in A, or to nothing |
| `DiffLines.CountOccurrences` | src/diff_engine.cpp:89-97 | First occurrences hold the exact count of their line, later ones point back with a negative number |
| `HistogramMatching.HistogramMatcher.constructor` | src/diff_engine.cpp:56-98 | Establishes the chains and the sign encoding that every method keeps |
| `HistogramMatching.HistogramMatcher.OccurrenceCount` | src/diff_engine.cpp:145-148 | Gives the number stored at the first occurrence of a line |
| `HistogramMatching.HistogramMatcher.BEqualsA` | src/diff_engine.cpp:150-153 | Compares lines through the encoding: true exactly for equal lines |
| `HistogramMatching.HistogramMatcher.ZeroCounts` | src/diff_engine.cpp:156-164 | The first two passes zero the counts of exactly the lines of the region |
| `HistogramMatching.HistogramMatcher.RefillOccurrenceCounts` | src/diff_engine.cpp:155-173 | Each line of the region holds its exact count in A's sub-range, other counts and the sign encoding are unchanged |
| `HistogramMatching.HistogramMatcher.GrowRun` | src/diff_engine.cpp:197-210 | The run grown from an equal pair cannot be extended inside the region on either side, and its lowest count is exact |
| `HistogramMatching.HistogramMatcher.GrowLeft` | src/diff_engine.cpp:199-204 | Growing to the left ends at the region or at different lines |
| `HistogramMatching.HistogramMatcher.GrowRight` | src/diff_engine.cpp:205-210 | Growing to the right ends at the region or at different lines |
| `HistogramMatching.HistogramMatcher.SkipToRegion` | src/diff_engine.cpp:187-189 | Passes over exactly the occurrences before the region |
| `HistogramMatching.HistogramMatcher.SkipCovered` | src/diff_engine.cpp:219-221 | Passes over the occurrences that the run covers |
| `HistogramMatching.HistogramMatcher.TryCandidate` | src/diff_engine.cpp:197-217 | Keeping the longer or rarer run keeps everything that the search knows: that run is as rare as every leading line so far, among unique lines the first of the longest, and among single-line runs the rarest |
| `HistogramMatching.HistogramMatcher.ScanChain` | src/diff_engine.cpp:195-224 | Following one chain advances the search to the end of the longest run met |
| `HistogramMatching.HistogramMatcher.FindBestMatchingRegion` | src/diff_engine.cpp:175-228 | Fails exactly when every line common to both sub-ranges occurs more than 64 times; a returned run matches, is maximal and has a line occurring at most 64 times; it has a line as rare as any rarest line that nowhere in A follows the line that it follows in B; it is the first of the longest among unique lines, the rarest among single-line runs, and the whole region for a text with itself |
| `HistogramMatching.HistogramMatcher.RegionHasCommonLine` | src/diff_engine.cpp:230-237 | True exactly when some line occurs in both sub-ranges |
| `HistogramMatching.HistogramMatcher.AppendShortestEditPairs` | src/diff_engine.cpp:239-255 | Appends pairs that fill the region: none can be added, and no other filling is longer |
| `HistogramMatching.HistogramMatcher.AppendRun` | src/diff_engine.cpp:114-116 | Appends the pairs of the run in order |
| `HistogramMatching.HistogramMatcher.TakeRegion` | src/diff_engine.cpp:107-128 | One region off the stack keeps pairs and regions in order, loses no pair that still fits, and lessens the sum of region sizes plus one; it adds an anchor and leaves the two regions beside it, or adds a longest alignment of the region |
| `HistogramMatching.HistogramMatcher.Unanchored` | src/diff_engine.cpp:125-127 | A region without an anchor is filled, or has nothing to fill it with |
| `HistogramMatching.HistogramMatcher.Compare` | src/diff_engine.cpp:100-134 | The pairs ascend on both sides, join equal lines and are maximal; equal texts give (1,1) to (n,n); they are those of an anchor of the whole texts and of the two regions beside it in the same way, a region without an anchor having a longest alignment |
| `HistogramMatching.HistogramMatcher.CompareMinimal` | src/diff_engine.cpp:136-140 | The pairs are a longest alignment of both texts |
| `HistogramMatching.BegunStays` | src/diff_engine.cpp:107-128 | What the first region decided stays decided while the others are taken |
| `HistogramMatching.CandidateLeads` | src/diff_engine.cpp:197-217 | The better of two runs is as rare as every leading line so far: no leading line lies inside a run |
| `HistogramMatching.CandidateLongest` | src/diff_engine.cpp:197-217 | Among unique lines, the better of two runs is the first of the longest so far |
| `HistogramMatching.SplitCompletes` | src/diff_engine.cpp:113-124 | With an anchor taken, the pairs found and those of the regions on the stack still make up the pairs of the whole texts |
| `HistogramMatching.TakenCompletes` | src/diff_engine.cpp:107-128 | So they do whatever is done with a region |
| `RegionSplitting.SplitStep` | src/diff_engine.cpp:113-124 | Splitting a region around a run keeps the alignment, the order of the stack and every pair that still fits, and lessens the work |
| `RegionSplitting.DropStep` | src/diff_engine.cpp:125-127 | Filling or dropping a region does the same |
| `RegionSplitting.SplitLessensWork` | src/diff_engine.cpp:119-124 | The two parts of a split weigh less than the region |
| `RegionSplitting.SplitCovers` | src/diff_engine.cpp:113-124 | A pair of the region that crosses no pair of the run lies in one of the two parts |
| `RegionSplitting.ShiftFills` | src/diff_engine.cpp:249-252 | The fallback's local positions, shifted into the region, leave no pair that fits |
| `RegionSplitting.ShiftIsLongest` | src/diff_engine.cpp:239-255 | Shifted, they still are a longest filling |
| `RegionSplitting.DiagonalFill` | src/diff_engine.cpp:239-255 | A text aligned with itself by the fallback pairs every line |
| `RegionSplitting.SortPairs` | src/diff_engine.cpp:130-132 | Sorting gives the same pairs, ascending on both sides |
| `DiffEngine.EqualPairs` | src/diff_engine.cpp:266-307 | Over the lines themselves: an alignment into which no equal pair fits; identical texts pair every line with itself; it has all pairs of equal lines exactly when no two of those cross; longest then, and when no line of B occurs 1 to 64 times in A; among unique lines it joins the first of the longest blocks; where a rarest line leads, a line as rare is joined, however long other blocks are; every part beside an anchor is aligned in the same way |
| `DiffEngine.MinimalEqualPairs` | src/diff_engine.cpp:309-315 | Over the lines themselves: a longest alignment |
| `DiffEngine.LongestOfSelf` | src/diff_engine.cpp:136-140 | The only longest alignment of a text with itself is the identity |
| `DiffEngine.LongestLeavesNothing` | src/diff_engine.cpp:136-140 | A longest alignment is maximal too |
| `DiffEngine.MaximalIsAll` | src/diff_engine.cpp:266-307 | A maximal alignment has all pairs of equal lines exactly when no two of those cross, and then none is longer |
| `DiffEngine.JoiningMovedLinesCosts` | src/diff_engine.cpp:212-217 | Where the longest block moved, joining it leaves a shorter alignment than there is |
| `DiffEngine.DiffAfterMove` | src/diff_engine.cpp:100-134 | The histogram diff of such texts is maximal and not longest |
| `DiffEngine.AnchorsAreLines` | src/diff_engine.cpp:175-185 | A text has an anchor exactly when a line of B occurs 1 to 64 times in A |
| `DiffEngine.LeadsOverLines` | src/diff_engine.cpp:212-217 | Where a rarest line of B, at most 64 times in A, nowhere in A follows the line that it follows in B, a line that occurs as often is joined |
| `DiffEngine.OnlyRareLine` | src/diff_engine.cpp:212-217 | If that is the only line of B that occurs once in A, it is that line that is joined |
| `DiffEngine.DiffAroundRareLine` | src/diff_engine.cpp:212-217 | A block of two lines is given up for a single line that occurs once: of b,x,a,a and a,a,y,b the pair (1,4) is the diff |
| `Utf8.DecodeAt` | src/fuzzy.c:25-48 | Decoding accepts exactly the well-formed sequences of sections 3 and 4 of RFC 3629 and gives their value and width |
| `Utf8.DecodeAfterEncode` | src/fuzzy.c:25-68 | Whatever follows, an encoded scalar value decodes to itself |
| `Utf8.EncodeAfterDecode` | src/fuzzy.c:25-68 | A successful decode re-encodes to the bytes consumed |
| `Utf8.DecodeIsLocal` | src/fuzzy.c:25-48 | Decoding looks at the bytes of its own sequence only |
| `Utf8.MatchStartsOnBoundary` | src/fuzzy.c:50-68 | A byte match of an encoded needle in an encoded stream starts on a code point |
| `FoldedText.FoldCodepointInto` | src/fuzzy.c:92-108 | What was there, then all letters that the code point decomposes to, cut after eight |
| `FoldedText.FoldKeepsFirstLetters` | src/fuzzy.c:92-108 | Stopping at eight while decomposing comes to cutting the full decomposition |
| `FoldedText.FoldNext` | src/fuzzy.c:110-126 | Consumes one source character: a code point and the combining marks behind it, a broken byte standing for itself |
| `FoldedText.SourceCharIsLocal` | src/fuzzy.c:110-126 | Cutting a text behind a source character leaves that character as it was |
| `FoldedText.StreamEncodesFolded` | src/fuzzy.c:246-257 | The stream that search matches is the encoding of the folded, case-folded text |
| `NormalizedText.NormalizedLength` | src/fuzzy.c:173-189 | Measures the normal form, or fails beyond 32 bits |
| `NormalizedText.NormalLength` | src/fuzzy.c:133-189 | Both normal forms have the measured length, whatever the mode and the case |
| `NormalizedText.NormalizeInto` | src/fuzzy.c:191-210 | Writes exactly the measured bytes, in both forms, and nothing else |
| `NormalizedText.AppendNormalized` | src/fuzzy.c:133-157 | One code point goes into both buffers at the same place |
| `PrefixMatching.BuildFailure` | src/fuzzy.c:288-293 | The failure table holds the longest proper border of every prefix |
| `PrefixMatching.Advance` | src/fuzzy.c:323-324 | One more byte: the matched length is the longest prefix that the stream ends with |
| `PrefixMatching.FullMatch` | src/fuzzy.c:325-328 | A full prefix is matched exactly where the needle ends in the stream |
| `LiteralSearch.FuzzyLiteral.constructor` | src/fuzzy.c:284-298 | A search for a folded query, with its failure table |
| `LiteralSearch.CreateLiteral` | src/fuzzy.c:259-302 | The needle is what the query itself folds to; it fails exactly when the normalised query or the needle has more bytes than 32 bits count |
| `LiteralSearch.FuzzyLiteral.FeedChar` | src/fuzzy.c:317-330 | Feeding one source character keeps the matched length, and the ring holds where the last bytes came from |
| `LiteralSearch.FuzzyLiteral.ScanCharAt` | src/fuzzy.c:314-332 | Reports a hit at the first byte that completes the needle |
| `LiteralSearch.FuzzyLiteral.Find` | src/fuzzy.c:308-334 | Succeeds exactly when the needle occurs in the folded stream from the offset on; finds the earliest end, and the span runs from the source character of the first byte to that of the last |
| `LiteralSearch.MatchedSliceContainsNeedle` | src/fuzzy.c:308-334 | Folding the reported slice alone contains the needle |
| `LiteralSearch.SliceStream` | src/fuzzy.c:308-334 | Whole source characters fold to their own part of the stream |
| `AsciiText.AsciiStream` | src/fuzzy.c:240-257 | Plain text is its own stream where case matters; without, every byte is the same letter in lower case |
| `AsciiText.StreamsAlike` | src/fuzzy.c:240-257 | Plain texts have one stream exactly when they are equal, or without case, equal up to A-Z and a-z |
| `AsciiText.FirstMatchIsFirstPlace` | src/fuzzy.c:308-334 | What a search promises of the stream, said of plain text: the span is that of the first place where the query stands |
| `AsciiText.FindPlain` | src/fuzzy.c:259-334 | A plain query is found in plain text at the first place where it stands, byte for byte up to case, and nowhere exactly when it stands nowhere |
| `AsciiText.AsciiNormalForm` | src/fuzzy.c:133-157 | The normal forms of plain text, byte by byte |
| `Spelling.CaseDoesNotMatter` | src/fuzzy.c:240-257 | Any texts that differ in the case of plain letters only have one stream where case does not matter |
| `Spelling.LetterStream` | src/fuzzy.c:240-257 | From code point 128 on, a letter is fed as itself where case matters, and else as the table folds it |
| `Spelling.LetterForm` | src/fuzzy.c:128-157 | In a fuzzy index, a letter beyond ASCII stays as it is, but an enye is made small with the rest |
| `Spelling.AccentIsOff` | src/fuzzy.c:92-108 | A letter with an accent, in one code point, is the letter |
| `Spelling.MarkIsOff` | src/fuzzy.c:110-126 | A letter and its accent, in two, are the letter, except that n and a tilde are an enye |
| `FuzzyScore.GreedyIsEarliest` | src/fuzzy.c:763-768 | No spelling of the word gets anywhere earlier than the greedy scan |
| `FuzzyScore.GreedyStuck` | src/fuzzy.c:765-766 | When the scan runs out of text, the word is no subsequence |
| `FuzzyScore.ScoreWord` | src/fuzzy.c:737-806 | The score of a word is that of its first contiguous hit, or of its greedy subsequence |
| `FuzzyScore.ScoreSubsequence` | src/fuzzy.c:758-806 | The loop's tallies are those of the greedy positions; weak matches are refused |
| `FuzzyScore.FindSubstring` | src/fuzzy.c:662-671 | Finds the first occurrence, or none |
| `FuzzyScore.ScoreIsUnique` | src/fuzzy.c:737-806 | A word has one score in a text |
| `FuzzyScore.ContiguousOutranksSubsequence` | src/fuzzy.c:742-757 | For words up to 127 bytes, a contiguous hit at most 1700 bytes in scores above any subsequence hit in any text and mode |
| `FuzzyOrder.BetterStartScoresHigher` | src/fuzzy.c:742-757 | Of two contiguous hits of a word, one not later, and at no worse place, scores strictly higher; placed alike, they differ by the distance of their positions |
| `FuzzyOrder.BetterPlacesScoreHigher` | src/fuzzy.c:758-806 | Of two scattered matches, one with no letter worse placed, no later start and no wider span scores no lower, and strictly higher for a better placed letter or an earlier start |
| `FuzzyOrder.LongestRunIsLongest` | src/fuzzy.c:770-779 | The longest run is a run of neighbouring hits, and no run is longer |
| `FuzzyOrder.MaxGapIsWidest` | src/fuzzy.c:770-779 | No gap is wider than the widest, which is one of them |
| `FuzzyOrder.ShortWordsMatch` | src/fuzzy.c:719-720 | Words of up to three letters are never refused for being scattered |
| `FuzzyOrder.MoreScatteredIsRefused` | src/fuzzy.c:719-735 | A match that is scattered more than a refused one is refused |
| `FuzzyOrder.CaretIsRefused` | src/fuzzy.c:722-735 | The coincidence that the comment names is refused |
| `FuzzyOrder.CinematicIsKept` | src/fuzzy.c:722-735 | The match that it names is kept |
| `FuzzyOrder.BasenameIsBoundary` | src/fuzzy.c:435-449 | The last name of a path starts at a boundary |
| `TopResults.StrLessIsTotal` | src/fuzzy.c:850-855 | Texts are ordered by their bytes |
| `TopResults.RankingIsUnique` | src/fuzzy.c:850-855 | Score, then text, then index order all matches in one way |
| `TopResults.PlaceKeepsRanked` | src/fuzzy.c:857-870 | Inserting a later candidate keeps the ranking |
| `TopResults.PlaceInTake` | src/fuzzy.c:857-870 | Cutting the list before or after an insertion comes to the same |
| `TopResults.InsertTop` | src/fuzzy.c:857-870 | The bounded array holds the first `limit` of the ranking with the candidate |
| `FuzzyIndexing.MeasureArenas` | src/fuzzy.c:502-514 | Sums the sizes of both arenas, or fails beyond 32 bits |
| `FuzzyIndexing.SlicesTile` | src/fuzzy.c:525-552 | The slices of the arena follow each other without overlap and hold the parts |
| `FuzzyIndexing.BasenameStart` | src/fuzzy.c:443-449 | The position behind the last separator |
| `FuzzyIndexing.Build` | src/fuzzy.c:490-560 | Fails exactly when an arena exceeds 32 bits; else the arenas are the texts and their normal forms, and every entry knows its slices |
| `FuzzySearch.QueryScore` | src/fuzzy.c:832-848 | The sum of the words' scores less an eighth of the length, if every word matches |
| `FuzzySearch.QueryScoreIsUnique` | src/fuzzy.c:832-848 | A query has one score in a text |
| `FuzzySearch.EntryScore` | src/fuzzy.c:888-893 | An entry is scored on its own slices of the arenas |
| `FuzzySearch.Collect` | src/fuzzy.c:880-897 | The kept results are the front of the ranking of all matches |
| `FuzzySearch.CutAtLimit` | src/fuzzy.c:881-901 | One result more than asked for tells whether there are others |
| `FuzzySearch.Search` | src/fuzzy.c:876-903 | The results are the first `limit` of the ranking of all matches, and `hasMore` holds exactly when more match |
| `FuzzyOrder.ShorterTextScoresNoLower` | src/fuzzy.c:832-848 | Of two texts in which the words score alike, the shorter one never scores lower |
| `BestMatches.StrLessIsDictionary` | src/fuzzy.c:850-855 | Texts are compared at their first difference, or by which one ends first |
| `BestMatches.TopIsBest` | src/fuzzy.c:876-903 | Each result is a match with its score; higher scores come first, then texts as in a dictionary, then earlier entries; a match is left out only when there are `limit` results that all come before it; and more are announced exactly when one is left out |
| `OpenAddressing.Probe` | src/git_status_index.c:185-207 | Probing ends, finds a key exactly when it is in the table, and else stops at the free slot of its sequence |
| `OpenAddressing.AbsentAtFreeSlot` | src/git_status_index.c:191-199 | A key not met before the first free slot is nowhere |
| `OpenAddressing.InsertAtFreeSlot` | src/git_status_index.c:200-206 | Writing a new key there keeps every key reachable |
| `OpenAddressing.MoreToVisit` | src/git_status_index.c:191-199 | While a slot is free, the probe has not been around the table |
| `TableGrowth.GrowthTest` | src/git_status_index.c:187-190 | Up to 2^29 slots the 32-bit test is the load of seven tenths; beyond, the table always grows or refuses; a slot stays free |
| `TableGrowth.LoadAfterGrowth` | src/git_status_index.c:187-190 | After doubling there is room for one more entry |
| `TableGrowth.GrowthStages` | src/git_status_index.c:187-190 | The load is right until there are many keys; the next two keys grow the table for the last time, and a third is refused |
| `TableGrowth.RefusedExactly` | src/git_status_index.c:187-190 | A key is refused exactly when it is at least the third after the first 375,809,638 different ones |
| `TableGrowth.RoomForOne` | src/git_status_index.c:187-190 | A table with a right load stays, doubles or refuses, and then has room for one more entry |
| `TableGrowth.DistinctAreRefused` | src/git_status_index.c:187-190 | Of keys without repetitions, exactly 375,809,641 and more are refused |
| `ManyFiles.TooManyFiles` | src/fuzzy.c:1195-1200 | A file index of files named by numbers fails exactly from 375,809,641 of them on |
| `ManyFiles.TooManyChanges` | src/git_status_index.c:187-190 | So does a status index of that many untracked files |
| `NulFields.FieldsRoundTrip` | src/git_status_index.c:116-124 | Fields without a terminator inside are read back from the text that holds them |
| `FileCandidates.BestMapping` | src/fuzzy.c:1202-1223 | The longest matching prefix of whole segments; the later mapping wins a tie |
| `FileCandidates.FeedJoins` | src/fuzzy.c:1343-1381 | Feeding two chunks is feeding their concatenation |
| `FileCandidates.ChunksDoNotMatter` | src/fuzzy.c:1343-1381 | Any split of the same bytes for one root ends in the same entries, statistics and success |
| `FileCandidates.FeedingAddsFields` | src/fuzzy.c:1343-1433 | Feeding and finishing adds the NUL-separated candidates one by one, the unterminated tail included |
| `FileCandidates.AddFollows` | src/fuzzy.c:1267-1321 | A candidate fails exactly when nothing is left of it or the table refuses to grow; else entries are the first candidates of distinct files and candidates == accepted + duplicates + empty ones |
| `FileCandidates.FinishedIndex` | src/fuzzy.c:1267-1441 | The same for a whole text of one root, which fails exactly for an unusable candidate or on the third usable one after too many different files |
| `FileCandidates.EntriesAreDifferentKeys` | src/fuzzy.c:1283-1318 | There are as many entries as different identities among the usable candidates |
| `FileCandidates.EntriesAreDistinct` | src/fuzzy.c:1149-1177 | No two entries name the same file |
| `FileNames.OneIdentityIsOneFile` | src/fuzzy.c:1029-1039 | Paths have one identity exactly when they are equal up to the kind of slash and the case of A-Z |
| `FileNames.CandidateIsRead` | src/fuzzy.c:1252-1265 | What is left of a candidate is the path between a "./" in front and returns behind, with backslashes; nothing is left exactly when that is empty or too long |
| `FileNames.MatchesHolds` | src/fuzzy.c:1202-1210 | A prefix matches exactly the paths that lie at it or below it, however they are spelled |
| `FileNames.FileIsShown` | src/fuzzy.c:1212-1250 | A file is shown under the title of the mapping with the longest prefix that holds it, or of its root, and a title of the role "root" is not shown |
| `FileCandidates.CapacityStep` | src/fuzzy.c:1195-1200 | The growth test before every lookup keeps the load, and refuses exactly at 2^31 slots |
| `FileIndexBuilding.Rebuild` | src/fuzzy.c:1179-1193 | A larger table holds exactly the entries |
| `FileIndexBuilding.InsertId` | src/fuzzy.c:1283-1318 | Entering a new identity keeps the table a table of exactly the entries |
| `FileIndexBuilding.FindMapping` | src/fuzzy.c:1211-1223 | The loop finds the best mapping |
| `FileIndexBuilding.FileIndexBuilder.EnsureSlots` | src/fuzzy.c:1195-1200 | Grows before a lookup as the test demands, or fails and changes nothing |
| `FileIndexBuilding.FileIndexBuilder.FindSlot` | src/fuzzy.c:1283-1294 | Finds an entry of the same identity exactly when there is one |
| `FileIndexBuilding.FileIndexBuilder.AddCandidate` | src/fuzzy.c:1267-1321 | The whole new state is that of adding the candidate |
| `FileIndexBuilding.FileIndexBuilder.Feed` | src/fuzzy.c:1343-1381 | The state after a chunk is that of feeding its bytes; a fragment left by another root fails the builder |
| `FileIndexBuilding.FileIndexBuilder.Finish` | src/fuzzy.c:1427-1441 | The unterminated tail is added, and the entries are given up unless the builder failed |
| `FileIndexBuilding.BuildFromChunks` | src/fuzzy.c:1343-1441 | End to end: the first candidate of every file of the concatenated chunks; failure exactly for an unusable candidate or on the third usable one after too many different files |
| `GitPaths.CanonicalPath` | src/git_status_index.c:130-163 | Refuses absolute paths, drive paths, empty and ".." segments, and else drops "." segments and folds case |
| `GitPaths.CanonicalIsIdempotent` | src/git_status_index.c:130-163 | A canonical path is its own canonical form |
| `GitPaths.SpellingsAgree` | src/git_status_index.c:130-163 | "./" in front and a separator behind do not change the key |
| `GitPaths.CaseDoesNotMatter` | src/git_status_index.c:126-163 | Where case does not matter, paths that differ in case only are one key |
| `GitPaths.NamesAreKept` | src/git_status_index.c:130-163 | Where it matters, a path of plain names is its own key |
| `GitRecords.RootConservation` | src/git_status_index.c:278-322 | The root's totals are the sums over all records, modulo 2^64 |
| `GitRecords.DirectoryConservation` | src/git_status_index.c:209-225 | A directory's totals are the sums over the records strictly below it, modulo 2^64 |
| `GitRecords.BelowIsTransitive` | src/git_status_index.c:209-225 | A record is below every directory above its own |
| `GitRecords.ScansFindStrongest` | src/git_status_index.c:65-82 | The kind of a path, of a directory and of a subtree is that of the first of the strongest records that count |
| `GitRecords.InheritedIsNearest` | src/git_status_index.c:414-423 | The inherited kind is the subtree kind of the nearest directory above that has one |
| `GitRecords.RootFindsStrongest` | src/git_status_index.c:261-263 | The root's kind is that of the first of the strongest records that are not ignored |
| `GitStatusIndex.NextField` | src/git_status_index.c:116-124 | Cuts off the next NUL-terminated field |
| `GitStatusIndex.ParseUint` | src/git_status_index.c:227-238 | Succeeds exactly for a nonempty digit string whose value fits 64 bits, and returns that value |
| `GitStatusIndex.ReadCounts` | src/git_status_index.c:285-295 | Splits a numstat field at its first two tabs |
| `GitStatusIndex.ReadNumstat` | src/git_status_index.c:282-306 | A rename takes its paths from the next two fields |
| `GitStatusIndex.GitStatusSnapshot.constructor` | src/git_status_index.c:352-366 | A new index holds nothing |
| `GitStatusIndex.GitStatusSnapshot.Grow` | src/git_status_index.c:165-183 | Doubling the table preserves every binding |
| `GitStatusIndex.GitStatusSnapshot.Find` | src/git_status_index.c:191-199 | Finds the entry of a path exactly when it has one |
| `GitStatusIndex.GitStatusSnapshot.MakeRoom` | src/git_status_index.c:186-190 | Grows the table as the test demands, keeping every binding, or fails and changes nothing |
| `GitStatusIndex.GitStatusSnapshot.EntryFor` | src/git_status_index.c:185-207 | Gives a path an entry and changes no other; fails exactly when the table refuses to grow for the paths looked up so far |
| `GitStatusIndex.GitStatusSnapshot.Update` | src/git_status_index.c:261-268 | Replaces the data of one path |
| `GitStatusIndex.GitStatusSnapshot.UpdateParents` | src/git_status_index.c:209-225 | Every directory above the path takes the record once, no other path changes; it fails exactly when one of them is refused |
| `GitStatusIndex.GitStatusSnapshot.AddStatus` | src/git_status_index.c:259-272 | The index keeps saying what a scan of the status records says; it fails exactly when a path that the records look up is refused |
| `GitStatusIndex.GitStatusSnapshot.AddNumstat` | src/git_status_index.c:307-318 | The index keeps saying what a scan of the numstat records says; it fails exactly when a path that the records look up is refused |
| `GitStatusIndex.GitStatusSnapshot.ParseStatus` | src/git_status_index.c:240-276 | All accepted status records are in, sources of renames and copies skipped; it fails exactly when a path is refused |
| `GitStatusIndex.ReadStatus` | src/git_status_index.c:244-258 | One field is one record or none, a rename or a copy takes the next field with it |
| `GitStatusIndex.GitStatusSnapshot.ParseNumstat` | src/git_status_index.c:278-322 | All accepted numstat records are in; it fails exactly when a path is refused |
| `GitStatusIndex.GitStatusSnapshot.Inherited` | src/git_status_index.c:414-423 | The summary of the nearest directory that has one |
| `GitStatusIndex.GitStatusSnapshot.Lookup` | src/git_status_index.c:396-435 | The answer is that of a scan: strongest exact kind, kinds below a directory, the subtree summary, or the nearest one above |
| `GitStatusIndex.Build` | src/git_status_index.c:352-373 | The built index reflects the records of both texts; there is none exactly when the paths of the records and the directories above come to at least three lookups after the first 375,809,638 different ones |
| `GitStatusIndex.AboveIsBelow` | src/git_status_index.c:209-225 | A record looks up exactly the directories that it is below |
| `StatusText.CommonLetters` | src/git_status_index.c:99-114 | The common lines of git's short format, each with the kind that it has |
| `StatusText.SaysIsStatusKind` | src/git_status_index.c:99-114 | What the two letters of a line say: a special line, or the first of R, C, D, A, T, M among them |
| `StatusText.StatusRoundTrip` | src/git_status_index.c:240-276 | The status text of some lines, with sources of renames and copies and slashes behind directories, is read back as those lines |
| `StatusText.DecimalIsRead` | src/git_status_index.c:227-238 | A number written in decimal is read back |
| `StatusText.NumbersAreRead` | src/git_status_index.c:285-293 | The two numbers of a numstat line are read back, additions first |
| `StatusText.NumstatRoundTrip` | src/git_status_index.c:278-322 | The numstat text of some changes, renames among them, is read back as those changes |
| `StatusAnswers.OutweighsIsRank` | src/git_status_index.c:65-78 | Unmerged outweighs deleted, then come added, any other change, untracked and ignored |
| `StatusAnswers.AnswerIsUnique` | src/git_status_index.c:396-435 | The lines leave one answer |
| `StatusAnswers.TwoLines` | src/git_status_index.c:80-82 | A line alone answers for its path with its own kind, and of two lines for one path the second answers exactly when it outweighs the first |
| `StatusAnswers.AnswerOverItems` | src/git_status_index.c:396-435 | Over the lines themselves: those of the path, those below a directory but for ignored ones, and for a path without a line those of the nearest ignored or untracked directory above count; the kind is that of the first that none outweighs, the path's own going first |
| `StatusAnswers.TotalsOverChanges` | src/git_status_index.c:396-435 | A file has the counts of its last change, a directory the sums of the changes below it modulo 2^64, the root those of all |
| `StatusAnswers.AnswerFor` | src/git_status_index.c:352-435 | From the text of lines and changes through the index to the answer: both of the above |
| `Compaction.CompactsMerge` | src/hosted_surface.c:899-916 | Merging two neighbours anywhere keeps a compaction |
| `Compaction.JoinGroups` | src/hosted_surface.c:899-916 | Two groups that were merged by different queues are one group, whatever the brackets of the sums |
| `Compaction.CompactsMergeLast` | src/anvil_shell.c:1510-1529 | Merging into the tail keeps a compaction of what was sent |
| `Compaction.CompactionKeeps` | src/anvil_shell.c:1510-1529 | What does not merge stays, once and in order, and the last configuration stays |
| `Compaction.CompactionRises` | src/anvil_shell.c:1510-1529 | Rising epochs stay rising |
| `Compaction.ComesFrom` | src/anvil_shell.c:1510-1529 | Every packet of a compaction is one that was sent, but for the movement of a motion |
| `Compaction.CompactionStaysInStep` | src/hosted_surface.c:899-916 | Compaction never moves an input behind another configuration: inputs keep the epoch of the configuration in front of them |
| `Compaction.MovementArrives` | src/hosted_surface.c:905-912 | The whole movement of every epoch stays, in any bracketing, while the motions in a row go less than 2^24 steps |
| `Compaction.MergeIsExactly` | src/anvil_shell.c:1518-1521 | Merging two motions loses no movement exactly when there is a number for their sum |
| `SinglePrecision.RoundedIsExact` | src/anvil_shell.c:1519-1520 | A value of at most 24 bits is a number, and none of it is rounded away |
| `SinglePrecision.SumIsExact` | src/anvil_shell.c:1519-1520 | Adding whole steps is exact while the sum has fewer than 2^24 of them |
| `SinglePrecision.SumIsExactly` | src/anvil_shell.c:1519-1520 | A sum is exact exactly when it is finite and a multiple of the step at its own size |
| `SinglePrecision.TenthAndSixteen` | src/anvil_shell.c:1519-1520 | One tenth and sixteen have no exact sum |
| `PacketBytes.ConfigRoundTrip` | src/surface_protocol.h:214-236 | The 112 bytes of a configuration are read back as every field was written |
| `PacketBytes.InputRoundTrip` | src/surface_protocol.h:238-242 | The 144 bytes of an input and its text are read back |
| `PacketBytes.PacketRoundTrip` | src/hosted_surface.c:816-846 | Every packet that fits is read back as it was sent |
| `IpcPipe.HeaderRoundTrip` | src/ipc_pipe.h:6-10 | A header is read back as it was written |
| `IpcPipe.RecordIsDelimited` | src/ipc_pipe.c:119-134 | The header of a record tells where it ends, whatever follows, and the payload is parsed back to the packet |
| `IpcPipe.Pipe.TransferOut` | src/ipc_pipe.c:77-117 | After any series of partial writes the bytes written are a prefix; it succeeds exactly when all are |
| `IpcPipe.Pipe.TransferIn` | src/ipc_pipe.c:77-117 | After any series of partial reads the bytes read are taken off the front; it succeeds exactly when all came |
| `IpcPipe.Pipe.Write` | src/ipc_pipe.c:149-182 | Writes a whole record, or refuses one that is too large |
| `IpcPipe.Pipe.Read` | src/ipc_pipe.c:119-134 | Gives back a whole record with an acceptable header |
| `IpcPipe.RelayPacket` | src/ipc_pipe.c:77-182 | Whatever the transfers, a packet written whole is read back whole |
| `SurfaceQueues.PutKeeps` | src/anvil_shell.c:1530-1546 | The byte accounting of a queue is exact and within eight MiB |
| `SurfaceQueues.PutCompacts` | src/anvil_shell.c:1509-1546 | Queueing keeps what is queued a compaction of what was sent |
| `SurfaceQueues.MoveCompacts` | src/hosted_surface.c:896-939 | Moving a packet into the inbound queue keeps the whole a compaction |
| `SurfaceQueues.OutboundQueue.Send` | src/anvil_shell.c:1475-1547 | The tail is replaced by a configuration, or moved by a motion of its epoch; else the packet is appended, or the connection fails |
| `SurfaceQueues.OutboundQueue.Pop` | src/anvil_shell.c:1415-1425 | The writer takes the oldest packet and its bytes |
| `SurfaceQueues.InboundQueue.Enqueue` | src/hosted_surface.c:896-939 | A motion of the tail's epoch moves the tail; else the packet is appended, or the queue overflows |
| `SurfaceQueues.InboundQueue.Pop` | src/hosted_surface.c:787-796 | Dispatch takes the oldest packet and its bytes |
| `SurfaceEnds.EpochsTellLayouts` | src/anvil_shell.c:1674-1689 | A sent configuration keeps the epoch of the last one exactly when it has its layout and no repaint is due; else the epoch is the next; it carries the layout, the window and the Pane request |
| `SurfaceEnds.NothingToSend` | src/anvil_shell.c:1674-1676 | Nothing is sent exactly when the shell would repeat itself |
| `SurfaceEnds.EpochsRunOut` | src/anvil_shell.c:1677-1680 | A new layout gets a higher epoch exactly until the epochs have run out; then it gets one that is refused |
| `SurfaceEnds.ShellSurface.SendConfigure` | src/anvil_shell.c:1602-1695 | Sends the numbered configuration, and nothing when nothing changed |
| `SurfaceEnds.ShellSurface.LoadPendingFrame` | src/anvil_shell.c:3064-3135 | Shows the newest frame exactly when it matches the last configuration and its resource loads, which answers the Pane request; a busy one stays pending, a bad one fails the connection |
| `SurfaceEnds.HostedSurface.Dispatch` | src/hosted_surface.c:677-693 | Applies configurations, delivers inputs of its own epoch, and loses the connection on a layout change without one |
| `SurfaceEnds.HostedSurface.SendMessage` | src/hosted_surface.c:990-1022 | A new frame replaces a frame at the tail; else the reply is appended, or the queue is full |
| `SurfaceEnds.HostedSurface.Publish` | src/hosted_surface.c:1470-1489 | A frame carries the applied epoch and the completed Pane request |
| `SurfaceConnection.SendConserves` | src/anvil_shell.c:1475-1547 | Sending conserves all packets |
| `SurfaceConnection.ReceiveConserves` | src/hosted_surface.c:816-939 | Receiving conserves all packets that the process knows |
| `SurfaceConnection.ReceivedIsFirst` | src/ipc_pipe.c:119-134 | A record that was read whole is the oldest packet underway |
| `SurfaceConnection.DispatchApplies` | src/hosted_surface.c:677-686 | A dispatched configuration is never stale and never changes the layout of an epoch |
| `SurfaceConnection.StepKeeps` | src/anvil_shell.c:1410-1547 | Every step of either process keeps the invariant |
| `SurfaceConnection.Conservation` | src/hosted_surface.c:806-939 | In every run, dispatched, inbound, underway and outbound packets are a compaction of what was sent, and the bytes underway are the records of packets |
| `SurfaceConnection.EpochSafety` | src/hosted_surface.c:677-686 | In every run the process is never ahead of the shell, equal epochs have equal layouts, and no layout loss is raised |
| `SurfaceConnection.ConfigurationsApply` | src/hosted_surface.c:448-452 | In every run each dispatched configuration becomes the view, and epochs rise |
| `SurfaceConnection.LayoutsStay` | src/anvil_shell.c:1677-1689 | In every run an epoch names one layout for good |
| `SurfaceConnection.DeliveredInputIsCurrent` | src/hosted_surface.c:687-693 | In every run, whenever an input is delivered, an earlier step sent it, but for the movement of merged motions, under the layout that the process now has |
| `SurfaceConnection.ShownFrameIsCurrent` | src/anvil_shell.c:3077-3089 | In every run, whenever another frame is shown, an earlier step published that very frame under the layout that the shell now has, and it has its size |
| `SurfaceConnection.InputWasSent` | src/anvil_shell.c:4481-4497 | In every run each input among the sent packets was sent by a step, with the epoch of that moment |
| `SurfaceConnection.FrameWasPublished` | src/hosted_surface.c:1470-1489 | In every run each frame underway or received was published by a step, with the epoch of that moment |
| `ConnectionInputs.DispatchDelivers` | src/hosted_surface.c:687-693 | Dispatching an input delivers it exactly when its epoch is that of the last configuration dispatched before it |
| `ConnectionInputs.SentStep` | src/anvil_shell.c:4481-4497 | Every input is sent with the epoch of the last configuration sent before it |
| `ConnectionInputs.InputsAreDelivered` | src/hosted_surface.c:677-693 | In every run, the inputs delivered are, in order, exactly those dispatched ones whose epoch is that of the last configuration dispatched before them; and those are all dispatched inputs |
| `ConnectionInputs.Settled` | src/hosted_surface.c:572-745 | With nothing underway, everything that does not merge was dispatched once and in order, every input that does not merge was delivered, both sides agree on epoch, layout and window, and the newest frame arrived |
| `ConnectionMovement.StepLoses` | src/hosted_surface.c:896-939 | What a step loses of the movement is what it rounds away of the two motions that it merges |
| `ConnectionMovement.MovementIsLostExactly` | src/anvil_shell.c:1515-1524 | In every run the movement that was sent arrives, at any time, exactly as long as there is a number for the sum of every two motions that a step merges |
| `ConnectionMovement.FirstLoss` | src/anvil_shell.c:1515-1524 | At the first merge without such a number some movement is lost |
| `ConnectionMovement.MovementIsKept` | src/hosted_surface.c:905-912 | In every run all movement arrives while the motions in a row go less than 2^24 steps of a size that divides them |
| `ConnectionMovement.TenthIsLost` | src/anvil_shell.c:1519-1520 | A run that configures a surface and moves its pointer by one tenth and by sixteen loses some movement |
| `ConnectionProgress.QueuesCanEmpty` | src/anvil_shell.c:1415-1425 | Accounting never blocks taking a packet from a queue that has one |
| `ConnectionProgress.CanMoveOn` | src/ipc_pipe.c:119-134 | In a live connection with anything queued or underway, some packet, byte or reply can be moved on |
| `ConnectionProgress.StepLessens` | src/hosted_surface.c:806-939 | Moving on lessens the work that is left, unless it ends the connection |
| `ConnectionProgress.ComesToRest` | src/hosted_surface.c:572-745 | Every run can be moved on, in as many steps as there is work, until nothing is queued or underway or the connection ends |
| `ConnectionProgress.EverythingArrives` | src/hosted_surface.c:572-745 | From any run on, moving on alone dispatches all that was sent, once and in order, delivers every input, and agrees on the configuration and the newest frame, or ends the connection |
| `ConnectionProgress.PublishedIsShown` | src/anvil_shell.c:3064-3135 | At rest, a frame that the process publishes in the size of its layout, for the Pane request that the shell made, is shown when it is delivered and its resource loads |
| `TextureUploads.UpdateTexture` | src/d3d11_backend.c:1554-1645 | Uploads the rows that are due, skips what is current, and fails when nothing is due |
| `TextureUploads.UpdateShows` | src/d3d11_backend.c:1562-1588 | An update succeeds and then shows every row that can be drawn, if generations start at one and bring rows |
| `TextureUploads.AdvanceTracks` | src/renderer.c:497-501 | Appending glyph rows under a new generation keeps that so |
| `TextureUploads.AdvanceKeepsRows` | src/renderer.c:497-498 | Rows that were pushed stay in the atlas |
| `QuadBatching.QuadBatcher.WriteInstances` | src/d3d11_backend.c:1769-1787 | The instances are in the buffer at the place that is drawn, and earlier ones are kept unless the buffer is discarded |
| `QuadBatching.QuadBatcher.EnsureBuffer` | src/d3d11_backend.c:1253-1272 | The buffer has room for the batch; a new one starts empty |
| `QuadBatching.QuadBatcher.UpdateAtlases` | src/d3d11_backend.c:1763-1767 | Every atlas of the batch shows its glyph rows, and no other texture changes |
| `QuadBatching.QuadBatcher.DrawBatch` | src/d3d11_backend.c:1756-1820 | The draw call draws the pending pushes |
| `QuadBatching.QuadBatcher.Flush` | src/d3d11_backend.c:1756-1846 | The pending pushes become the next drawn batch, and the batch is empty afterwards |
| `QuadBatching.QuadBatcher.QueuePlain` | src/d3d11_backend.c:1848-1875 | A quad without a texture is queued as it is placed |
| `QuadBatching.PlacedMoves` | src/d3d11_backend.c:1853-1870 | Moving the origin of the transform moves a placed quad, and nothing else of it |
| `QuadBatching.QuadBatcher.FindSlot` | src/d3d11_backend.c:1884-1889 | The search of the slots finds the texture exactly when it has one |
| `QuadBatching.QuadBatcher.ClaimSlot` | src/d3d11_backend.c:1876-1903 | The last-slot shortcut, the search and a new slot all lead to a slot that holds the texture; exactly a ninth texture draws the batch first |
| `QuadBatching.QuadBatcher.QueueTextured` | src/d3d11_backend.c:1848-1907 | The quad joins the batch, or starts the next one exactly when there is no slot for its texture, and everything pending is still to be shown |
| `QuadBatching.QuadBatcher.PushTexture` | src/d3d11_backend.c:1909-1986 | A push counts with the rows and the generation that its surface has now, uploaded at once or at the draw |
| `QuadBatching.QuadBatcher.AdvanceSurface` | src/d3d11_backend.c:1461-1463 | New content under a new generation leaves what pending atlas quads show |
| `QuadBatching.QuadBatcher.AddTexture` | src/d3d11_backend.c:1497-1509 | A new texture starts with nothing uploaded and can be brought up to date |
| `QuadBatching.QuadBatcher.BeginFrame` | src/d3d11_backend.c:1349-1360 | A frame starts without pending quads and without a transform |
| `QuadBatching.DrawnInOrder` | src/d3d11_backend.c:1756-1846 | The instances of all draw calls are the pushed quads in order |
| `QuadBatching.AtlasDrawnAsPushed` | src/d3d11_backend.c:1763-1767 | An atlas quad is drawn with all rows that it was pushed with |
| `QuadBatching.ImageDrawnAsLastPushed` | src/d3d11_backend.c:1660-1662 | An image quad is drawn with the rows of the last push of the image in the batch: as it was pushed exactly when those are the same, and surely when the surface did not advance in between |
| `QuadBatching.PushChangePush` | src/d3d11_backend.c:1660-1662 | Pushing an image, changing it and pushing it again draws both quads with the second rows |
| `QuadBatching.DrawChangedImage` | src/d3d11_backend.c:1660-1662 | The same from a new batcher, with one row and then another |
| `QuadBatching.PushTwice` | src/d3d11_backend.c:1909-1986 | Two pushes of a texture whose surface advances in between are drawn in one batch, each counting with the rows that its surface had |
| `QuadBatching.DrawGrownAtlas` | src/d3d11_backend.c:1763-1767 | From a new batcher: a glyph appended to an atlas between two pushes is shown, and so is the one before |
| `TextureCaching.TextureCache.Find` | src/d3d11_backend.c:1465-1489 | The table in front always answers what a search of the list answers |
| `TextureCaching.TextureCache.Get` | src/d3d11_backend.c:1647-1664 | A new texture goes to the front; the texture counts as used in this frame; every other lookup and every other texture stays as it was |
| `TextureCaching.TextureCache.Forget` | src/d3d11_backend.c:992-1006 | Exactly the textures of the surface are freed, and no slot keeps one |
| `TextureCaching.TextureCache.Prune` | src/d3d11_backend.c:1008-1025 | Exactly the textures not used for more than the given frames are freed, and no slot keeps one |
| `RuntimeArchive.SafeArchiveName` | src/embedded_runtime.c:153-168 | True exactly for names of good components without a drive |
| `RuntimeArchive.SafeNamesGoDown` | src/embedded_runtime.c:153-168 | A name is safe exactly when it names no drive and each of its components goes one directory down |
| `RuntimeArchive.ComponentsArePieces` | src/embedded_runtime.c:153-168 | The components of the reader are those of the writer, split at backslashes |
| `RuntimeArchive.ReaderAcceptsWritten` | scripts/generate-embedded-runtime.py:45-52 | Of the writer's names, the reader refuses exactly ".", those with a colon in second place, and those with a component that, split at its backslashes, has an empty, a "." or a ".." piece |
| `RuntimeArchive.RefusedNames` | src/embedded_runtime.c:153-168 | Three names that the writer packs and the reader refuses |
| `RuntimeArchive.WriteArchive` | scripts/generate-embedded-runtime.py:116-136 | Writes header and entries in order, or refuses a wrong count or a file that is too large |
| `RuntimeArchive.Cursor.ReadBytes` | src/embedded_runtime.c:29-34 | Reads and advances, or fails and stays |
| `RuntimeArchive.Cursor.ReadU16` | src/embedded_runtime.c:36-41 | Reads a little-endian number of two bytes |
| `RuntimeArchive.Cursor.ReadU32` | src/embedded_runtime.c:43-49 | Reads a little-endian number of four bytes |
| `RuntimeArchive.Cursor.ReadU64` | src/embedded_runtime.c:51-59 | Reads a little-endian number of eight bytes |
| `RuntimeArchive.Cursor.ReadEntry` | src/embedded_runtime.c:204-216 | Accepts exactly the entries of the format and advances past them |
| `RuntimeArchive.Cursor.ReadBody` | src/embedded_runtime.c:212-267 | Accepts exactly safe names and contents of the announced size and checksum |
| `RuntimeArchive.ExtractArchive` | src/embedded_runtime.c:181-284 | Accepts exactly the archives of the format, and gives their files |
| `RuntimeArchive.EntryRoundTrip` | scripts/generate-embedded-runtime.py:131-136 | An entry is read back, whatever follows |
| `RuntimeArchive.ArchiveRoundTrip` | scripts/generate-embedded-runtime.py:116-136 | Extracting what was written gives the same names and contents |
| `RuntimeArchive.WriterIsInjective` | scripts/generate-embedded-runtime.py:116-136 | Equal archives hold equal files under equal identifiers |
| `RuntimeArchive.ArchiveIsDelimited` | src/embedded_runtime.c:279-282 | An accepted archive with anything behind it is refused |
| `RuntimeArchive.AcceptedAreSafe` | src/embedded_runtime.c:204-227 | Whatever the bytes, accepted files have safe names and bounded contents, as many as announced |
| `RuntimeArchive.OnDiskIffNoClash` | src/embedded_runtime.c:264-271 | All files are on disk as packed exactly when names that are one path have equal contents |
| `RuntimeArchive.CaseClash` | src/embedded_runtime.c:264-271 | Two files that are packed and read under names that differ in case only are not both on disk |
| `CommandLine.AppendQuotedArg` | src/anvil_shell.c:911-936 | Writes the quoted argument and at most twice its length and two more |
| `CommandLine.QuotedParses` | src/anvil_shell.c:911-936 | A quoted argument is read back by the Microsoft C runtime's rules |
| `CommandLine.ArgsRoundTrip` | src/anvil_shell.c:966-971 | Every list of arguments is read back |
| `CommandLine.CommandLineRoundTrip` | src/anvil_shell.c:938-975 | So is a whole command line with its program |
| `CommandLine.CapacitySuffices` | src/anvil_shell.c:941-944 | The computed buffer size is enough for every child |
| `CommandLine.BuildChildCommandLine` | src/anvil_shell.c:938-975 | The line fits its buffer, and the child reads exactly the arguments that it was given |
| `HostedArguments.TakeFlags` | src/hosted_surface.c:133-164 | Takes every flag of the shell out of the arguments, notes it, and leaves the others in order |
| `HostedArguments.ParseArgs` | src/hosted_surface.c:115-170 | Refuses a Project without a path; else reads the flags, and is valid exactly when Project, sidebar, pipe, restart and arguments fit together |
| `HostedArguments.OthersAreAll` | src/hosted_surface.c:134-164 | Nothing is taken out exactly when there is no flag |
| `HostedArguments.ProjectReadsBack` | src/hosted_surface.c:115-170 | A Project reads what it was started for exactly when its path is no option and names a Project, its pipe is usable, and no user argument is a flag of the shell |
| `HostedArguments.SidebarReadsBack` | src/hosted_surface.c:115-170 | A sidebar does exactly when its pipe is usable and it has no arguments and no restart |
| `HostedArguments.ChildReadsBack` | src/anvil_shell.c:938-975 | Both: what the shell wrote into the arguments is what the child reads, exactly then |
| `HostedArguments.StartChild` | src/anvil_shell.c:938-975 | The same through the command line and its buffer |

## Left out

- Memory allocation, cancellation callbacks, timing, logging, statistics for display and fault probes: they fail or count, and decide nothing that is stated here.
- `HistogramMatching.HistogramMatcher.AppendShortestEditPairs`: the DTL library is not modelled; a verified longest common subsequence stands in its place. DTL gives up optimality on inputs beyond its limit of path coordinates, so what is stated of the fallback holds below that limit only.
- `CommonSubsequence.Longest`, `HistogramMatching.HistogramMatcher.CompareMinimal`, `DiffEngine.MinimalEqualPairs`: the same; they speak of the stand-in.
- `HistogramMatching.HistogramMatcher.Compare`, `HistogramMatching.HistogramMatcher.TakeRegion`, `HistogramMatching.HistogramMatcher.Unanchored`, `DiffEngine.EqualPairs`: the same for regions that go to the fallback, in what they say of maximality and of length.
- `DiffEngine.EqualPairs`: that the diff is longest is stated one way, for two conditions on the lines; other texts can have a longest diff too.
- The Unicode tables of `src/unidata.h`: functions with a rank that bounds decomposition.
- 32-bit overflow of scores and of diff positions, and 64-bit wrap-around of byte counts.
- `SurfaceConnection.EpochSafety`, and the other lemmas about runs: a run ends before a configuration is sent after 2^64 - 1 epochs; `SurfaceEnds.EpochsRunOut` says what happens then.
- `fuzzy_literal_pattern`, `map_match_spans`, the boundary tally and the extension position of an index entry: they decide no result that is modelled.
- `parse_query_words`: a fuzzy query is given by its words.
- `FuzzyOrder.BetterStartScoresHigher`, `FuzzyOrder.BetterPlacesScoreHigher`: matches of which each is better placed in some respect are compared by the numbers in the source.
- `DiffEngine.LeadsOverLines`: it speaks of a rarest line that starts a run wherever it occurs; which of the occurrences of more frequent lines are tried depends on the runs met before.
- `StatusText.StatusRoundTrip`, `StatusText.NumstatRoundTrip`: lines are written with canonical paths; other spellings are `GitPaths.SpellingsAgree` and `GitPaths.CaseDoesNotMatter`.
- `HostedArguments.ParseArgs`: which paths name a Project and which names are pipes are parameters.
- `ConnectionInputs.InputsAreDelivered`: what the application does with a delivered input.
- Sorting the finished file entries for display and telling equal display paths apart: nested roots can still concatenate to the same text.
- `input_bytes` of a failed builder depends on the chunks, because later chunks are refused; the chunk lemma is about everything else.
- `compact_paths`: moves the stored paths in memory and changes none.
- The Sidebar's wrapped packets, adoption, reconnection and the handshake's first read: one connection of one surface is modelled, and its first configuration arrives through the queue like any other.
- What a reply other than a frame means, and its bytes on the way back: the pipe's theorem covers both directions, the reply queue is modelled by whole replies.
- Byte accounting of the inbound queue after an overflow: the connection is lost then.
- Quantities that C keeps as `float` are `real` here, except for what packets carry: those are single-precision bits, and their sums are rounded.
- `QuadBatching.QuadBatcher.Flush`: D3D11 calls that fail, which leave the batch pending, and freeing a texture while a batch that uses it is pending.
- `TextureUploads.UpdateTexture`: recreating the texture of a surface of another size or format; a surface keeps its size here.
- `TextureCaching.TextureCache.Get`: recreating a texture after a resize, and the upload of a texture that is no atlas, which `QuadBatching.QuadBatcher.PushTexture` has.
- `SurfaceEnds.ShellSurface.LoadPendingFrame`: how a resource loads is a parameter, and a window whose GPU has failed loads nothing.
- `RuntimeArchive.OnDiskIffNoClash`: which names are one path is a parameter; `RuntimeArchive.FoldPath` is one example of it.
- `Compaction.MovementArrives`, `ConnectionMovement.MovementIsKept`: sufficient conditions on what was sent; which sums are made depends on what met in a queue, and `ConnectionMovement.MovementIsLostExactly` is exact about those.
- `Get` of the texture cache and the pushes of the batcher are separate classes: a push starts from the texture that `Get` found.
- Writing extracted files, creating directories and the length limits of Windows paths: the parameter `accepts` stands for them.
- Reading the archive's inputs and the dictionary of names: the writer is given the sorted files.
- Conversion of the command line to UTF-16.
- `src/alt_navigation.c`, `src/image_scale.c`, `src/font_raster_internal.h`, `src/display_packet.c`, window lifecycle and dialogs are not part of this model.
