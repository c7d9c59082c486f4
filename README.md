# External merge sort over a three-block cache, in Dafny

`external.c` simulates an external merge sort. An `ExternalMemory` holds a
cache of `CACHE_SIZE` = 3 `Block`s. Each block has `BLOCK_SIZE` = 4 integer
cells and a logical `size`. The C file has four operations:

- `initializeExternalMemory` zeroes every cell and size;
- `readArray` copies an input array into consecutive blocks;
- `merge` is a three-cursor two-way merge that stops when the output block is full;
- `externalMergeSort` repeatedly merges each adjacent pair of blocks into the
  first block of the pair.

The model follows the C code as written, defects included.

- `merging.dfy` (module `Merging`) states the merge on sequences. `Merged` is
  the full merge with the C tie rule: an equal head is taken from the second
  input. `MergeSpec(a, b, cap)` is its first `min(|a| + |b|, cap)` elements.
  The lemmas prove what a merge promises: ascending output, a permutation
  when everything fits, the `cap` smallest elements otherwise, and each
  input's order kept.
- `blocks.dfy` (module `Blocks`) has the `Block` class and the `merge`
  method.
  - `Merge` runs the three C loops on the block arrays. Each loop is its own
    method (`MergeHeads`, `MergeRestOfFirst`, `MergeRestOfSecond`).
  - `Merge` is proved against `MergeRun`, a cursor-by-cursor function that
    reads an input from the current output cells when that input IS the
    output block. This is how the sort calls it, at external.c:70.
  - With a distinct output block, `Merge` is proved to write exactly
    `MergeSpec` of its inputs.
  - `InPlaceMerge` is the aliased call. It is proved correct when no write
    lands on an unread cell (`InPlaceMergeBenign`), and shown by an example
    to lose data when one does (`InPlaceMergeLosesData`).
- `memory.dfy` (module `Memory`) has the `ExternalMemory` class. Its methods
  are proved against functions on the cache's value, a sequence of
  `BlockValue`s: `Zeroed`, `Loaded`, `MergeStep`, `Pass`, `Round` and
  `Rounds`. The lemmas state what those functions do.
  - `MergeRound` returns the new `numBlocks`. It is the same as the old one
    whenever a round runs (external.c:82).
  - So the outer loop of `externalMergeSort` never ends once `numBlocks > 1`.
    `ExternalMergeSort` therefore takes a bound on the number of rounds and
    reports whether it finished. It finishes exactly when `numBlocks <= 1`.
  - The `Demo…` lemmas follow `main`'s own input. After the first round the
    cache is `[9,9,9,9]`, `[9,11,6,2]`, `[0,0,0,0]`, and no further round
    changes it.

The model keeps these behaviours of the code:

- On equal keys the code takes the element of the SECOND input, because its
  test is a strict `<` (external.c:49). A stable merge would usually take the
  first input's element on a tie.
- Pairs overlap: (0,1), then (1,2). They are not disjoint pairs, and the
  active count is not halved.
- The merged block's size is forced to `BLOCK_SIZE` (external.c:73), whatever
  the merge wrote.
- `numBlocks` never decreases, so the sort does not terminate for
  `numBlocks > 1`.
- There are no error results: the C code's unchecked bounds become
  preconditions.

## Model

| member | source | states |
|---|---|---|
| Merging.MergedInterleaves | external.c:48-60 | the full merge interleaves its inputs, keeping each input's order, since the cursors i and j only move forward |
| Merging.MergedPermutation | external.c:48-60 | the full merge has exactly the elements of both inputs (multiset equality) |
| Merging.MergedSorted | external.c:48-54 | merging two ascending inputs gives an ascending result |
| Merging.MergedIsTheSortedPermutation | external.c:48-60 | for ascending inputs, the full merge is the only ascending permutation of both inputs |
| Merging.SortedUnique | external.c:48-60 | two ascending sequences with the same elements are equal |
| Merging.MergeSpecSorted | external.c:47-61 | a merge capped at the block capacity is ascending when its inputs are |
| Merging.MergeSpecComplete | external.c:47-61 | when size1 + size2 <= capacity, the capped merge is the full merge, a permutation of both inputs |
| Merging.MergeSpecKeepsSmallest | external.c:47-61 | when the inputs overflow the capacity: exactly capacity elements are kept, size1 + size2 - capacity are dropped, and no kept element exceeds a dropped one |
| Merging.MergeSpecPreservesOrder | external.c:48-60 | the capped merge interleaves a prefix of each input, in the inputs' order |
| Blocks.Block.constructor | external.c:8-11 | a block owns a fresh array of BLOCK_SIZE cells |
| Blocks.MergedSoFarTakeFirst | external.c:49-50 | taking input1's head when it is the smaller (or input2 is used up) extends the merged prefix by one |
| Blocks.MergedSoFarTakeSecond | external.c:51-52 | taking input2's head on a tie or when it is smaller extends the merged prefix by one |
| Blocks.DistinctRunFrom | external.c:48-60 | into a distinct output, the loops from any consistent cursor pair finish the capped merge |
| Blocks.DistinctMergeIsMergeSpec | external.c:47-61 | into a distinct output, the cursor loops write MergeSpec(input1, input2, BLOCK_SIZE) |
| Blocks.MergeRunWritesPrefix | external.c:47-60 | whatever aliases, the loops write no cell at or beyond min(size1 + size2, BLOCK_SIZE) |
| Blocks.MergeHeads | external.c:47-54 | the first loop keeps the cursor state of MergeRun and stops only when an input is used up or the output is full |
| Blocks.MergeRestOfFirst | external.c:55-57 | the second loop keeps the cursor state and stops when input1 is used up or the output is full |
| Blocks.MergeRestOfSecond | external.c:58-60 | the third loop keeps the cursor state and stops when input2 is used up or the output is full |
| Blocks.Merge | external.c:46-62 | output size is min(size1 + size2, BLOCK_SIZE); the output cells are MergeRun of the old cells, reading an aliased input from the output; cells from the new size on are untouched; a distinct input is unchanged; with a distinct output the live cells are MergeSpec of the inputs |
| Blocks.InPlaceCopyPhase | external.c:48-57 | in a merge of a block into itself, while input2's head exceeds every live cell, each step copies a cell onto itself |
| Blocks.InPlaceDrainPhase | external.c:58-60 | once input1 is used up, the aliased merge copies input2's cells after input1's |
| Blocks.MergedFirstBeforeSecond | external.c:48-57 | when every element of input1 is below input2's head, the merge is input1 followed by input2 |
| Blocks.InPlaceMergeBenign | external.c:70 | the merge of a block into itself is the correct capped merge when the second block is empty or all of the first block's live cells are below the second block's head |
| Blocks.InPlaceMergeLosesData | external.c:70 | merging [3,4] into itself with [1,2] leaves [1,1,1,2], not the permutation [1,2,3,4] |
| Blocks.MergeIntoFirst | external.c:70-73 | merging through a scratch block gives the first block MergeSpec of both blocks, size min(size1 + size2, BLOCK_SIZE), and leaves the second block unchanged |
| Memory.LoadPlacement | external.c:30-39 | readArray puts input element i at cell i % BLOCK_SIZE of block i / BLOCK_SIZE |
| Memory.LoadSizes | external.c:30-43 | each touched block b gets size min(BLOCK_SIZE, size - b * BLOCK_SIZE) > 0; blocks from ceil(size / BLOCK_SIZE) on keep their cells and size |
| Memory.LoadEmpty | external.c:30 | reading an empty input changes nothing |
| Memory.LoadLive | external.c:30-43 | the live cells of a touched block are its slice of the input |
| Memory.LoadPrefix | external.c:30-43 | the live cells of the first m blocks, in block order, are the input's first min(m * BLOCK_SIZE, size) elements |
| Memory.LoadRoundTrip | external.c:26-44 | reading back the touched blocks' live cells gives exactly the input: nothing is lost or reordered |
| Memory.LoadCells | external.c:30-43 | the loaded cache cell by cell: the input's element at each covered position, the old cell elsewhere, and the sizes |
| Memory.LoadStep | external.c:31-42 | one more iteration stores the next element at the current cursor and sets that block's size to the cursor plus one |
| Memory.PassSizes | external.c:68-81 | the rest of a round from pair i sets sizes i .. n-2 to BLOCK_SIZE, empties block n-1 without touching its cells, and leaves every other block alone |
| Memory.RoundSizes | external.c:66-81 | after one round over n > 1 blocks, sizes 0 .. n-2 are BLOCK_SIZE, block n-1 has size 0, and the blocks outside the round are unchanged |
| Memory.CountNeverDrops | external.c:65-83 | for numBlocks > 1, `Iterate` (numBlocks after any number of rounds) is numBlocks again, so the outer loop never exits |
| Memory.RoundsStep | external.c:65-83 | rounds + 1 rounds are one more round after rounds rounds |
| Memory.DemoFirstRound | external.c:87-97 | main's input, read into a zeroed cache, becomes [9,9,9,9] / [9,11,6,2] / empty after one round |
| Memory.DemoStuckIsFixed | external.c:65-83 | from that cache, every further round changes nothing |
| Memory.DemoNeverSorts | external.c:87-97 | after any number of rounds main's cache stays there, so block 0 never holds its four smallest elements in order |
| Memory.ExternalMemory.constructor | external.c:13-15 | the cache holds CACHE_SIZE distinct blocks that share no cells |
| Memory.ExternalMemory.Initialize | external.c:17-24 | every cell and every size becomes 0, whatever the cache held before, so a second call changes nothing |
| Memory.ExternalMemory.ReadArray | external.c:26-44 | the cache becomes Loaded(old cache, first size elements of the input) |
| Memory.ExternalMemory.Put | external.c:38-42 | the store of one element and its block's new size, with the other blocks unchanged |
| Memory.ExternalMemory.MergeAdjacent | external.c:69-76 | one inner step: the in-place merge of block j into block i, block i's size forced to BLOCK_SIZE, block j emptied |
| Memory.ExternalMemory.MergeRound | external.c:66-82 | the cache becomes Round(old cache, numBlocks); the returned count equals numBlocks whenever numBlocks > 1 (1 otherwise); sizes stay readable |
| Memory.ExternalMemory.ExternalMergeSort | external.c:64-84 | finished exactly when numBlocks <= 1, whatever the round bound, its loop count following `Iterate`; the cache is the result of that many rounds |

The methods above are proved against these specification functions:

- `Merging.Merged` and `Merging.MergeSpec`: the merge of external.c:47-61 on sequences.
- `Blocks.MergeRun`: the three cursor loops of external.c:47-60, aliasing included.
- `Blocks.InPlaceMerge`: the aliased call at external.c:70.
- `Memory.Zeroed`: the cache after external.c:17-24.
- `Memory.LoadBlock` and `Memory.Loaded`: one block, and the whole cache, after `readArray` (external.c:26-44).
- `Memory.MergeStep`: one inner step, external.c:69-76.
- `Memory.Pass`, `Memory.Round` and `Memory.Rounds`: the rest of a round, one round, and several rounds (external.c:65-83).
- `Memory.NextCount`: `numBlocks = i + 1` at external.c:82.
- `Memory.Iterate`: `numBlocks` across the rounds of the outer loop (external.c:65-83). `ExternalMergeSort`'s loop keeps its count equal to it.

## Left out

- `main` (external.c:86-107) is left out. Its print loop (external.c:100-104) is never reached, because the sort it calls at external.c:97 with `CACHE_SIZE` blocks does not return. Its input is used only by the `Demo…` lemmas.
- Memory.ExternalMemory.ExternalMergeSort: runs at most `maxRounds` rounds of the outer loop, because the C loop never ends for `numBlocks > 1`. The model states that it never finishes, rather than looping forever.
- Memory.ExternalMemory.ReadArray: the C pointer `int* array` becomes a sequence with `size <= |input|`. A negative `size` copies nothing, as the C `for` does.
- Memory.ExternalMemory.ReadArray: requires `size <= CACHE_SIZE * BLOCK_SIZE`, because a larger input writes past the cache (undefined behaviour in C).
- Memory.ExternalMemory.MergeRound and ExternalMergeSort: require `numBlocks <= CACHE_SIZE`, because otherwise `cache[j]` is read outside the cache. They also require the sizes of the first `numBlocks` blocks to be in 0..BLOCK_SIZE, so that `merge`'s requires are met.
- Blocks.Merge: requires both input sizes in 0..BLOCK_SIZE. This does not prevent an out-of-bounds access: `merge` reads cells only while k = i + j < BLOCK_SIZE, and a negative size just skips the loops. Sizes in this range hold in every state that `initializeExternalMemory`, `readArray` and the sort can reach. The requires is kept so that the new size can be stated as min(size1 + size2, BLOCK_SIZE).
- Blocks.Block.constructor: leaves the cells and size indeterminate, as a C block is before it is initialized. Only the array length is stated.
- Memory.ExternalMemory.Put: is the two stores of external.c:38-42, kept in their own method. `currentIndex++` happens in between, which is why the new size is `c + 1`.
- Error results (overflow, insufficient capacity, a count of dropped elements) are not modelled: the code has none.
- Sorting each block before merging, disjoint pairing, and halving the active count are not modelled: the code does none of them.
- C `int` overflow is not modelled. The code only compares elements, and its indices stay below 13.

## Findings

| source | as written | input that shows it | evidently intended | confidence | as-written member | corrected member |
|---|---|---|---|---|---|---|
| external.c:70 | `merge(&em->cache[i], &em->cache[i], &em->cache[j])` makes the output block the first input, so cell k is overwritten before input1's cell k is read whenever input2's head is taken first | block i = [3, 4] (size 2), block j = [1, 2] (size 2): block i becomes [1, 1, 1, 2] | block i receives the merge [1, 2, 3, 4] of both blocks | not executed | Blocks.InPlaceMergeLosesData | Blocks.MergeIntoFirst |

The sort itself is modelled as written, so `MergeRound` uses the aliased
merge. `MergeIntoFirst` is the repaired step: it merges through a scratch
block and is proved to leave `MergeSpec` of both blocks in the first block.
