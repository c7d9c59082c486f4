/**
 * The `ExternalMemory` cache of external.c (CACHE_SIZE blocks) and the three
 * operations on it: `initializeExternalMemory`, `readArray` and
 * `externalMergeSort`. Each method is proved against a function on the
 * cache's value, a sequence of `BlockValue`s, and the lemmas below state what
 * those functions do.
 */
module Memory {
  import opened Merging
  import opened Blocks

  /** Blocks in the cache (`CACHE_SIZE` in external.c). */
  const CACHE_SIZE := 3

  /** A cache value: CACHE_SIZE blocks of BLOCK_SIZE cells each. */
  predicate WellFormed(v: seq<BlockValue>) {
    |v| == CACHE_SIZE && forall b :: 0 <= b < |v| ==> |v[b].data| == BLOCK_SIZE
  }

  /** Blocks lo .. hi - 1 have sizes `merge` can read. */
  predicate SizesInRange(v: seq<BlockValue>, lo: int, hi: int) {
    forall b :: 0 <= lo <= b < hi && b < |v| ==> 0 <= v[b].size <= BLOCK_SIZE
  }

  /** The live cells of a block: its first `size` cells. */
  function Live(bv: BlockValue): seq<int>
    requires 0 <= bv.size <= |bv.data|
  {
    bv.data[..bv.size]
  }

  /** The live cells of a run of blocks, block after block. */
  function Contents(v: seq<BlockValue>): seq<int>
    requires forall b :: 0 <= b < |v| ==> 0 <= v[b].size <= |v[b].data|
  {
    if v == [] then [] else Contents(v[..|v| - 1]) + Live(v[|v| - 1])
  }

  /** Number of blocks `readArray` touches for n elements: ceil(n / BLOCK_SIZE). */
  function BlocksFor(n: nat): nat {
    (n + BLOCK_SIZE - 1) / BLOCK_SIZE
  }

  /** The cache after `initializeExternalMemory`. */
  function Zeroed(): seq<BlockValue> {
    seq(CACHE_SIZE, _ => BlockValue(seq(BLOCK_SIZE, _ => 0), 0))
  }

  /** Block b after `readArray` has copied `xs`: when the input reaches block
      b, its first n = min(BLOCK_SIZE, |xs| - b * BLOCK_SIZE) cells are the
      input's elements b * BLOCK_SIZE .. b * BLOCK_SIZE + n - 1 and its size is
      n; the other cells, and every block the input does not reach, are kept. */
  function LoadBlock(bv: BlockValue, xs: seq<int>, b: nat): BlockValue
    requires |bv.data| == BLOCK_SIZE
  {
    if b * BLOCK_SIZE < |xs| then
      var n := Min(BLOCK_SIZE, |xs| - b * BLOCK_SIZE);
      BlockValue(xs[b * BLOCK_SIZE .. b * BLOCK_SIZE + n] + bv.data[n..], n)
    else bv
  }

  /** The cache after `readArray` has copied `xs` into cache value `v`. */
  function Loaded(v: seq<BlockValue>, xs: seq<int>): (r: seq<BlockValue>)
    requires WellFormed(v)
    ensures WellFormed(r)
  {
    seq(|v|, b requires 0 <= b < |v| => LoadBlock(v[b], xs, b))
  }

  /** One inner step of `externalMergeSort` on the pair (i, i + 1)
      (external.c:70-76): block i is merged with block i + 1 into itself, its
      size is then forced to BLOCK_SIZE, and block i + 1 is emptied. */
  function MergeStep(v: seq<BlockValue>, i: nat): (r: seq<BlockValue>)
    requires WellFormed(v) && i + 1 < |v|
    ensures WellFormed(r)
  {
    var merged := InPlaceMerge(v[i].data, v[i].size, v[i + 1].data, v[i + 1].size);
    v[i := BlockValue(merged, BLOCK_SIZE)][i + 1 := v[i + 1].(size := 0)]
  }

  /** The rest of a round of `externalMergeSort` from pair (i, i + 1) on. */
  function Pass(v: seq<BlockValue>, i: nat, n: int): (r: seq<BlockValue>)
    requires WellFormed(v) && n <= |v|
    ensures WellFormed(r)
    decreases n - i
  {
    if i + 1 < n then Pass(MergeStep(v, i), i + 1, n) else v
  }

  /** One round of `externalMergeSort` over the first n blocks (external.c:66-81). */
  function Round(v: seq<BlockValue>, n: int): (r: seq<BlockValue>)
    requires WellFormed(v) && n <= |v|
    ensures WellFormed(r)
  {
    Pass(v, 0, n)
  }

  /** `rounds` rounds of `externalMergeSort` over the first n blocks. */
  function Rounds(v: seq<BlockValue>, n: int, rounds: nat): (r: seq<BlockValue>)
    requires WellFormed(v) && n <= |v|
    ensures WellFormed(r)
    decreases rounds
  {
    if rounds == 0 then v else Rounds(Round(v, n), n, rounds - 1)
  }

  /** The value of `numBlocks` that external.c:82 sets after a round over n
      blocks: the inner loop leaves i at n - 1 when n > 1 and at 0 otherwise. */
  function NextCount(n: int): int {
    (if n > 1 then n - 1 else 0) + 1
  }

  /** `readArray` puts input element i in cell i % BLOCK_SIZE of block i / BLOCK_SIZE. */
  lemma LoadPlacement(v: seq<BlockValue>, xs: seq<int>)
    requires WellFormed(v) && |xs| <= CACHE_SIZE * BLOCK_SIZE
    ensures forall i :: 0 <= i < |xs| ==> Loaded(v, xs)[i / BLOCK_SIZE].data[i % BLOCK_SIZE] == xs[i]
  {
    forall i | 0 <= i < |xs|
      ensures Loaded(v, xs)[i / BLOCK_SIZE].data[i % BLOCK_SIZE] == xs[i]
    {
      var b, c := i / BLOCK_SIZE, i % BLOCK_SIZE;
      assert i == b * BLOCK_SIZE + c;
      var n := Min(BLOCK_SIZE, |xs| - b * BLOCK_SIZE);
      assert c < n;
      assert Loaded(v, xs)[b].data == xs[b * BLOCK_SIZE .. b * BLOCK_SIZE + n] + v[b].data[n..];
    }
  }

  /** Each block the input reaches holds min(BLOCK_SIZE, |xs| - b * BLOCK_SIZE)
      elements; the blocks from ceil(|xs| / BLOCK_SIZE) on keep their cells and size. */
  lemma LoadSizes(v: seq<BlockValue>, xs: seq<int>)
    requires WellFormed(v)
    ensures forall b :: 0 <= b < |v| && b < BlocksFor(|xs|) ==>
      Loaded(v, xs)[b].size == Min(BLOCK_SIZE, |xs| - b * BLOCK_SIZE) > 0
    ensures forall b :: BlocksFor(|xs|) <= b < |v| ==> Loaded(v, xs)[b] == v[b]
  {
    forall b | 0 <= b < |v| && b < BlocksFor(|xs|)
      ensures b * BLOCK_SIZE < |xs|
    {
    }
    forall b | BlocksFor(|xs|) <= b < |v|
      ensures |xs| <= b * BLOCK_SIZE
    {
    }
  }

  /** Copying nothing changes nothing. */
  lemma LoadEmpty(v: seq<BlockValue>)
    requires WellFormed(v)
    ensures Loaded(v, []) == v
  {
    assert forall b :: 0 <= b < |v| ==> Loaded(v, [])[b] == v[b];
  }

  /** The live cells of a block `readArray` touched are its slice of the input. */
  lemma LoadLive(v: seq<BlockValue>, xs: seq<int>, b: nat)
    requires WellFormed(v) && b < |v| && b < BlocksFor(|xs|)
    ensures 0 <= Loaded(v, xs)[b].size <= BLOCK_SIZE
    ensures Live(Loaded(v, xs)[b]) == xs[b * BLOCK_SIZE .. Min((b + 1) * BLOCK_SIZE, |xs|)]
  {
    LoadSizes(v, xs);
  }

  /** Reading back the live cells of the first m blocks gives the input's
      first min(m * BLOCK_SIZE, |xs|) elements. */
  lemma {:induction false} LoadPrefix(v: seq<BlockValue>, xs: seq<int>, m: nat)
    requires WellFormed(v) && m <= |v| && m <= BlocksFor(|xs|)
    ensures forall b :: 0 <= b < m ==> 0 <= Loaded(v, xs)[b].size <= BLOCK_SIZE
    ensures Contents(Loaded(v, xs)[..m]) == xs[..Min(m * BLOCK_SIZE, |xs|)]
  {
    var r := Loaded(v, xs);
    if m > 0 {
      LoadPrefix(v, xs, m - 1);
      var b := m - 1;
      LoadLive(v, xs, b);
      assert r[..m][..b] == r[..b];
      var hi := Min(m * BLOCK_SIZE, |xs|);
      assert xs[..hi] == xs[..b * BLOCK_SIZE] + xs[b * BLOCK_SIZE .. hi];
    }
  }

  /** `readArray` loses nothing: the live cells of the blocks it touches,
      read back in block order, are exactly the input. */
  lemma LoadRoundTrip(v: seq<BlockValue>, xs: seq<int>)
    requires WellFormed(v) && |xs| <= CACHE_SIZE * BLOCK_SIZE
    ensures BlocksFor(|xs|) <= |v|
    ensures Contents(Loaded(v, xs)[..BlocksFor(|xs|)]) == xs
  {
    LoadPrefix(v, xs, BlocksFor(|xs|));
    assert xs[..|xs|] == xs;
  }

  /** Cell by cell, `readArray` of `xs` puts element p * BLOCK_SIZE + c in
      cell c of block p while the input lasts and leaves every other cell as
      it was; the size of each block the input reaches is the number of
      elements it received. */
  lemma LoadCells(v: seq<BlockValue>, xs: seq<int>)
    requires WellFormed(v)
    ensures forall p :: 0 <= p < |v| ==>
      Loaded(v, xs)[p].size == if p * BLOCK_SIZE < |xs| then Min(BLOCK_SIZE, |xs| - p * BLOCK_SIZE) else v[p].size
    ensures forall p, c :: 0 <= p < |v| && 0 <= c < BLOCK_SIZE ==>
      Loaded(v, xs)[p].data[c] == if p * BLOCK_SIZE + c < |xs| then xs[p * BLOCK_SIZE + c] else v[p].data[c]
  {
  }

  /** One more input element, input[i], goes to cell c of block b, where
      i = b * BLOCK_SIZE + c, and block b's size becomes c + 1 (external.c:31-42). */
  lemma LoadStep(v: seq<BlockValue>, input: seq<int>, i: nat, b: nat, c: nat)
    requires WellFormed(v) && b < |v| && c < BLOCK_SIZE && i == b * BLOCK_SIZE + c < |input|
    ensures Loaded(v, input[..i + 1]) == Loaded(v, input[..i])[b := BlockValue(Loaded(v, input[..i])[b].data[c := input[i]], c + 1)]
  {
    var r, s := Loaded(v, input[..i]), Loaded(v, input[..i + 1]);
    var t := r[b := BlockValue(r[b].data[c := input[i]], c + 1)];
    LoadCells(v, input[..i]);
    LoadCells(v, input[..i + 1]);
    forall p | 0 <= p < |v|
      ensures s[p] == t[p]
    {
      assert s[p].data == t[p].data;
    }
  }

  /** A round over n > 1 blocks (external.c:68-81) leaves blocks 0 .. n - 2
      with size BLOCK_SIZE whatever the merges wrote, empties block n - 1
      without touching its cells, and leaves the blocks from n on alone. */
  lemma {:induction false} PassSizes(v: seq<BlockValue>, i: nat, n: int)
    requires WellFormed(v) && n <= |v| && i < n
    ensures forall b :: 0 <= b < |v| && !(i <= b < n) ==> Pass(v, i, n)[b] == v[b]
    ensures forall b :: i <= b < n - 1 ==> Pass(v, i, n)[b].size == BLOCK_SIZE
    ensures Pass(v, i, n)[n - 1] == if i < n - 1 then v[n - 1].(size := 0) else v[n - 1]
    decreases n - i
  {
    if i + 1 < n {
      PassSizes(MergeStep(v, i), i + 1, n);
    }
  }

  /** What one round does to the sizes (external.c:66-81): blocks 0 .. n - 2
      end with size BLOCK_SIZE, block n - 1 keeps its cells but is emptied,
      and the blocks outside the round are untouched. */
  lemma RoundSizes(v: seq<BlockValue>, n: int)
    requires WellFormed(v) && n <= |v|
    ensures 1 < n ==> forall b :: 0 <= b < n - 1 ==> Round(v, n)[b].size == BLOCK_SIZE
    ensures 1 < n ==> Round(v, n)[n - 1] == v[n - 1].(size := 0)
    ensures forall b :: 0 <= b < |v| && !(0 <= b < n) ==> Round(v, n)[b] == v[b]
  {
    if 0 < n {
      PassSizes(v, 0, n);
    }
  }

  /** The line `numBlocks = i + 1` (external.c:82) gives back the count the
      round started with whenever it is above 1, so the outer `while
      (numBlocks > 1)` (external.c:65) never exits once entered. */
  lemma {:induction false} CountNeverDrops(n: int, rounds: nat)
    requires n > 1
    ensures Iterate(n, rounds) == n
    decreases rounds
  {
    if rounds > 0 {
      CountNeverDrops(n, rounds - 1);
    }
  }

  /** `numBlocks` after `rounds` passes of the outer loop (external.c:65-83). */
  function Iterate(n: int, rounds: nat): int
    decreases rounds
  {
    if rounds == 0 || n <= 1 then n else Iterate(NextCount(n), rounds - 1)
  }

  /** The input `main` sorts (external.c:87). */
  const DemoInput: seq<int> := [14, 7, 3, 12, 9, 11, 6, 2]

  /** The cache `main` holds after its first round: block 0 has been filled
      with copies of 9, because the in-place merge overwrote input cells it
      had not read yet; block 1 was merged with the empty block 2 and forced
      back to size BLOCK_SIZE. */
  const DemoStuck: seq<BlockValue> :=
    [BlockValue([9, 9, 9, 9], 4), BlockValue([9, 11, 6, 2], 4), BlockValue([0, 0, 0, 0], 0)]

  /** `main`'s input, read into a zeroed cache, reaches `DemoStuck` after one round. */
  lemma DemoFirstRound()
    ensures Round(Loaded(Zeroed(), DemoInput), CACHE_SIZE) == DemoStuck
  {
    var z := Zeroed();
    var v := Loaded(z, DemoInput);
    assert DemoInput[0..4] == [14, 7, 3, 12] && DemoInput[4..8] == [9, 11, 6, 2];
    assert v[0] == LoadBlock(z[0], DemoInput, 0) == BlockValue([14, 7, 3, 12], 4);
    assert v[1] == LoadBlock(z[1], DemoInput, 1) == BlockValue([9, 11, 6, 2], 4);
    assert v[2] == LoadBlock(z[2], DemoInput, 2) == BlockValue([0, 0, 0, 0], 0);
    assert InPlaceMerge([14, 7, 3, 12], 4, [9, 11, 6, 2], 4) == [9, 9, 9, 9];
    var w := MergeStep(v, 0);
    assert w == [BlockValue([9, 9, 9, 9], 4), BlockValue([9, 11, 6, 2], 0), BlockValue([0, 0, 0, 0], 0)];
    assert InPlaceMerge([9, 11, 6, 2], 0, [0, 0, 0, 0], 0) == [9, 11, 6, 2];
  }

  /** Every later round leaves `DemoStuck` as it is. */
  lemma DemoStuckIsFixed()
    ensures Round(DemoStuck, CACHE_SIZE) == DemoStuck
  {
    assert InPlaceMerge([9, 9, 9, 9], 4, [9, 11, 6, 2], 4) == [9, 9, 9, 9];
    var w := MergeStep(DemoStuck, 0);
    assert w == [BlockValue([9, 9, 9, 9], 4), BlockValue([9, 11, 6, 2], 0), BlockValue([0, 0, 0, 0], 0)];
    assert InPlaceMerge([9, 11, 6, 2], 0, [0, 0, 0, 0], 0) == [9, 11, 6, 2];
  }

  /** However many rounds `main`'s sort runs, block 0 never holds the sorted
      input: the cache stays at `DemoStuck`. */
  lemma {:induction false} DemoNeverSorts(rounds: nat)
    requires rounds >= 1
    ensures Rounds(Loaded(Zeroed(), DemoInput), CACHE_SIZE, rounds) == DemoStuck
    ensures Live(Rounds(Loaded(Zeroed(), DemoInput), CACHE_SIZE, rounds)[0]) != [2, 3, 6, 7]
  {
    var v := Loaded(Zeroed(), DemoInput);
    if rounds == 1 {
      DemoFirstRound();
    } else {
      DemoNeverSorts(rounds - 1);
      RoundsStep(v, CACHE_SIZE, rounds - 1);
      DemoStuckIsFixed();
    }
  }

  class ExternalMemory {
    /** The embedded `Block cache[CACHE_SIZE]`. */
    const cache: array<Block>
    /** The blocks and their cell arrays: what the operations may change. */
    ghost const Repr: set<object>

    constructor ()
      ensures Valid() && fresh(cache) && fresh(Repr)
    {
      var b0 := new Block();
      var b1 := new Block();
      var b2 := new Block();
      cache := new Block[CACHE_SIZE] [b0, b1, b2];
      Repr := {b0, b1, b2, b0.data, b1.data, b2.data};
    }

    /** CACHE_SIZE distinct blocks of BLOCK_SIZE cells, no two sharing cells. */
    ghost predicate Valid()
      reads cache
    {
      && cache.Length == CACHE_SIZE
      && (forall b :: 0 <= b < CACHE_SIZE ==> cache[b].data.Length == BLOCK_SIZE)
      && (forall b, c :: 0 <= b < c < CACHE_SIZE ==> cache[b] != cache[c] && cache[b].data != cache[c].data)
      && (forall b :: 0 <= b < CACHE_SIZE ==> cache[b] in Repr && cache[b].data in Repr)
      && cache !in Repr
    }

    /** The cache's value, block by block. */
    ghost function View(): (v: seq<BlockValue>)
      requires Valid()
      reads cache, Repr
      ensures WellFormed(v)
      ensures forall b :: 0 <= b < CACHE_SIZE ==> v[b] == cache[b].Value()
    {
      seq(cache.Length, b requires 0 <= b < cache.Length reads cache, (if 0 <= b < cache.Length then {cache[b] as object, cache[b].data} else {}) => cache[b].Value())
    }

    /** The cache's value, read off its sizes and cells one by one. */
    lemma ViewFromCells(v: seq<BlockValue>)
      requires Valid() && WellFormed(v)
      requires forall p :: 0 <= p < CACHE_SIZE ==> cache[p].size == v[p].size
      requires forall p, c :: 0 <= p < CACHE_SIZE && 0 <= c < BLOCK_SIZE ==> cache[p].data[c] == v[p].data[c]
      ensures View() == v
    {
      forall p | 0 <= p < CACHE_SIZE
        ensures cache[p].Value() == v[p]
      {
        assert cache[p].data[..] == v[p].data;
      }
    }

    /** `initializeExternalMemory` (external.c:17-24): every cell and every
        size becomes 0, whatever the cache held, so a second call changes nothing. */
    method Initialize()
      requires Valid()
      modifies Repr
      ensures Valid()
      ensures View() == Zeroed()
    {
      var i := 0;
      while i < CACHE_SIZE
        invariant 0 <= i <= CACHE_SIZE
        invariant forall b :: 0 <= b < i ==> cache[b].Value() == Zeroed()[b]
      {
        var j := 0;
        while j < BLOCK_SIZE
          invariant 0 <= j <= BLOCK_SIZE
          invariant forall c :: 0 <= c < j ==> cache[i].data[c] == 0
          invariant forall b :: 0 <= b < i ==> cache[b].Value() == Zeroed()[b]
        {
          cache[i].data[j] := 0;
          j := j + 1;
        }
        cache[i].size := 0;
        assert cache[i].data[..] == Zeroed()[i].data;
        i := i + 1;
      }
    }

    /** `readArray` (external.c:26-44): the first `size` elements of `input`
        go into consecutive blocks, BLOCK_SIZE to a block, and each block the
        input reaches gets as size the number of elements it received. */
    method ReadArray(input: seq<int>, size: int)
      requires Valid() && size <= |input| && size <= CACHE_SIZE * BLOCK_SIZE
      modifies Repr
      ensures Valid()
      ensures View() == Loaded(old(View()), input[..if size < 0 then 0 else size])
    {
      ghost var v0 := View();
      var currentBlock, currentIndex := 0, 0;
      var i := 0;
      ghost var cur := v0;
      LoadEmpty(v0);
      assert input[..0] == [];
      while i < size
        invariant 0 <= i && (i <= size || i == 0)
        invariant 0 <= currentIndex <= BLOCK_SIZE && currentBlock * BLOCK_SIZE + currentIndex == i
        invariant i > 0 ==> currentIndex > 0
        invariant cur == Loaded(v0, input[..i])
        invariant forall p :: 0 <= p < CACHE_SIZE ==> cache[p].Value() == cur[p]
      {
        if currentIndex == BLOCK_SIZE {
          currentBlock := currentBlock + 1;
          currentIndex := 0;
        }
        LoadStep(v0, input, i, currentBlock, currentIndex);
        cur := cur[currentBlock := BlockValue(cur[currentBlock].data[currentIndex := input[i]], currentIndex + 1)];
        Put(currentBlock, currentIndex, input[i]);
        currentIndex := currentIndex + 1;
        i := i + 1;
      }
      assert View() == cur;
    }

    /** Cell c of block b receives x, and c + 1 becomes the block's size (external.c:38-42). */
    method Put(b: int, c: int, x: int)
      requires Valid() && 0 <= b < CACHE_SIZE && 0 <= c < BLOCK_SIZE
      modifies cache[b], cache[b].data
      ensures cache[b].Value() == BlockValue(old(cache[b].data[..])[c := x], c + 1)
      ensures forall p :: 0 <= p < CACHE_SIZE && p != b ==> cache[p].Value() == old(cache[p].Value())
    {
      cache[b].data[c] := x;
      cache[b].size := c + 1;
    }

    /** One round of the outer loop of `externalMergeSort` (external.c:66-82):
        every adjacent pair (i, i + 1) of the first `numBlocks` blocks is
        merged into block i, in that order, and the returned new value of
        `numBlocks` equals the old one whenever the round runs at all. */
    method MergeRound(numBlocks: int) returns (next: int)
      requires Valid() && numBlocks <= CACHE_SIZE && SizesInRange(View(), 0, numBlocks)
      modifies Repr
      ensures Valid()
      ensures SizesInRange(View(), 0, numBlocks)
      ensures next == NextCount(numBlocks)
      ensures View() == Round(old(View()), numBlocks)
    {
      hide MergeRun;
      var i, j := 0, 1;
      while j < numBlocks
        invariant 0 <= i && j == i + 1 && (i < numBlocks || i == 0)
        invariant SizesInRange(View(), 0, numBlocks)
        invariant Pass(View(), i, numBlocks) == Round(old(View()), numBlocks)
      {
        MergeAdjacent(i, j);
        i, j := i + 1, j + 1;
      }
      next := i + 1;
    }

    /** One step of the inner loop (external.c:69-76): merge block `j`
        into block `i` in place, force the size of `i` to `BLOCK_SIZE` and
        empty `j`. */
    method MergeAdjacent(i: int, j: int)
      requires Valid() && 0 <= i && j == i + 1 < CACHE_SIZE
      requires 0 <= cache[i].size <= BLOCK_SIZE && 0 <= cache[j].size <= BLOCK_SIZE
      modifies Repr
      ensures Valid()
      ensures View() == MergeStep(old(View()), i)
    {
      Merge(cache[i], cache[i], cache[j]);
      cache[i].size := BLOCK_SIZE;
      cache[j].size := 0;
      assert View() == MergeStep(old(View()), i);
    }

    /** `externalMergeSort` (external.c:64-84), run for at most `maxRounds`
        rounds of its outer loop. The loop's count follows `Iterate`, which
        never drops below its start above 1, so the method finishes exactly
        when `numBlocks <= 1`: for every bound, when `numBlocks > 1` it is
        still running. */
    method ExternalMergeSort(numBlocks: int, maxRounds: nat) returns (finished: bool)
      requires Valid() && numBlocks <= CACHE_SIZE && SizesInRange(View(), 0, numBlocks)
      modifies Repr
      ensures Valid()
      ensures finished <==> numBlocks <= 1
      ensures View() == Rounds(old(View()), numBlocks, if numBlocks <= 1 then 0 else maxRounds)
    {
      hide MergeRun;
      ghost var v0 := View();
      var n := numBlocks;
      var rounds := 0;
      while n > 1 && rounds < maxRounds
        invariant Valid()
        invariant rounds <= maxRounds && n == Iterate(numBlocks, rounds)
        invariant numBlocks <= 1 ==> rounds == 0
        invariant SizesInRange(View(), 0, numBlocks)
        invariant View() == Rounds(v0, numBlocks, rounds)
      {
        CountNeverDrops(numBlocks, rounds);
        CountNeverDrops(numBlocks, rounds + 1);
        RoundsStep(v0, numBlocks, rounds);
        n := MergeRound(n);
        rounds := rounds + 1;
      }
      if numBlocks > 1 {
        CountNeverDrops(numBlocks, rounds);
      }
      finished := n <= 1;
    }
  }

  /** One more round after `rounds` rounds. */
  lemma {:induction false} RoundsStep(v: seq<BlockValue>, n: int, rounds: nat)
    requires WellFormed(v) && n <= |v|
    ensures Rounds(v, n, rounds + 1) == Round(Rounds(v, n, rounds), n)
    decreases rounds
  {
    if rounds > 0 {
      RoundsStep(Round(v, n), n, rounds - 1);
    }
  }
}
