/**
 * The `Block` record of external.c (BLOCK_SIZE integer cells and a logical
 * size) and its `merge` function, which the sort calls both with a distinct
 * output block and with an output block that is also its first input.
 */
module Blocks {
  import opened Merging

  /** Cells per block (`BLOCK_SIZE` in external.c). */
  const BLOCK_SIZE := 4

  /** The value a block holds: all of its cells and its logical size. */
  datatype BlockValue = BlockValue(data: seq<int>, size: int)

  class Block {
    /** The embedded `int data[BLOCK_SIZE]`: its identity never changes, only its cells. */
    const data: array<int>
    var size: int

    /** A freshly allocated block; C leaves its cells and size indeterminate. */
    constructor ()
      ensures data.Length == BLOCK_SIZE && fresh(data)
    {
      data := new int[BLOCK_SIZE];
    }

    /** The cells have the C array's length and the logical size is one `merge` can read. */
    ghost predicate Valid()
      reads this
    {
      data.Length == BLOCK_SIZE && 0 <= size <= BLOCK_SIZE
    }

    /** The block's cells and size as a value. */
    ghost function Value(): BlockValue
      reads this, data
    {
      BlockValue(data[..], size)
    }
  }

  /**
   * The cursor loops of `merge` from cursors i and j, as a function of the
   * cells: `out` holds the output block's cells, `in1` and `in2` the inputs'
   * cells at the start of the call. When `alias1` holds, input1 IS the output
   * block, so its cell i is read from the current `out` (and likewise for
   * `alias2`): each step writes cell k = i + j, which may be a cell of that
   * input that has not been read yet.
   */
  function MergeRun(out: seq<int>, in1: seq<int>, alias1: bool, s1: int,
                    in2: seq<int>, alias2: bool, s2: int, i: nat, j: nat): (r: seq<int>)
    requires |out| == BLOCK_SIZE && |in1| == BLOCK_SIZE && |in2| == BLOCK_SIZE
    ensures |r| == BLOCK_SIZE
    decreases BLOCK_SIZE - (i + j)
  {
    var k := i + j;
    var x := if alias1 then out else in1;
    var y := if alias2 then out else in2;
    if k < BLOCK_SIZE && (i < s1 || j < s2) then
      var first := i < s1 && (j < s2 ==> x[i] < y[j]);
      if first then MergeRun(out[k := x[i]], in1, alias1, s1, in2, alias2, s2, i + 1, j)
      else MergeRun(out[k := y[j]], in1, alias1, s1, in2, alias2, s2, i, j + 1)
    else out
  }

  /** The cells `merge(&b, &b, &c)` leaves in block b (external.c:70): b's cells
      `buf` and size `s1` are both input1 and output, `cells2`, `s2` are c's. */
  function InPlaceMerge(buf: seq<int>, s1: int, cells2: seq<int>, s2: int): seq<int>
    requires |buf| == BLOCK_SIZE && |cells2| == BLOCK_SIZE
  {
    MergeRun(buf, buf, true, s1, cells2, false, s2, 0, 0)
  }

  /** The first k cells of `out` are the first k elements of the full merge of
      `a` and `b`, and cursors i and j, with k = i + j, mark where it goes on. */
  ghost predicate MergedSoFar(out: seq<int>, a: seq<int>, b: seq<int>, i: nat, j: nat)
  {
    i <= |a| && j <= |b| && i + j <= |out| && out[..i + j] + Merged(a[i..], b[j..]) == Merged(a, b)
  }

  lemma MergedSoFarTakeFirst(out: seq<int>, a: seq<int>, b: seq<int>, i: nat, j: nat)
    requires MergedSoFar(out, a, b, i, j) && i < |a| && i + j < |out|
    requires j == |b| || a[i] < b[j]
    ensures MergedSoFar(out[i + j := a[i]], a, b, i + 1, j)
  {
    var k := i + j;
    assert a[i..] == [a[i]] + a[i + 1..];
    assert Merged(a[i..], b[j..]) == [a[i]] + Merged(a[i + 1..], b[j..]);
    assert out[k := a[i]][..k + 1] == out[..k] + [a[i]];
  }

  lemma MergedSoFarTakeSecond(out: seq<int>, a: seq<int>, b: seq<int>, i: nat, j: nat)
    requires MergedSoFar(out, a, b, i, j) && j < |b| && i + j < |out|
    requires i == |a| || !(a[i] < b[j])
    ensures MergedSoFar(out[i + j := b[j]], a, b, i, j + 1)
  {
    var k := i + j;
    assert b[j..] == [b[j]] + b[j + 1..];
    assert Merged(a[i..], b[j..]) == [b[j]] + Merged(a[i..], b[j + 1..]);
    assert out[k := b[j]][..k + 1] == out[..k] + [b[j]];
  }

  /** From any point of a merge into a distinct block, the loops complete the capped merge. */
  lemma {:induction false} DistinctRunFrom(out: seq<int>, in1: seq<int>, s1: int, in2: seq<int>, s2: int, i: nat, j: nat)
    requires |out| == BLOCK_SIZE && |in1| == BLOCK_SIZE && |in2| == BLOCK_SIZE
    requires 0 <= s1 <= BLOCK_SIZE && 0 <= s2 <= BLOCK_SIZE
    requires MergedSoFar(out, in1[..s1], in2[..s2], i, j)
    ensures MergeRun(out, in1, false, s1, in2, false, s2, i, j)[..Min(s1 + s2, BLOCK_SIZE)]
         == Merged(in1[..s1], in2[..s2])[..Min(s1 + s2, BLOCK_SIZE)]
    decreases BLOCK_SIZE - (i + j)
  {
    var a, b, k := in1[..s1], in2[..s2], i + j;
    if k < BLOCK_SIZE && (i < s1 || j < s2) {
      if i < s1 && (j < s2 ==> in1[i] < in2[j]) {
        MergedSoFarTakeFirst(out, a, b, i, j);
        DistinctRunFrom(out[k := in1[i]], in1, s1, in2, s2, i + 1, j);
      } else {
        MergedSoFarTakeSecond(out, a, b, i, j);
        DistinctRunFrom(out[k := in2[j]], in1, s1, in2, s2, i, j + 1);
      }
    } else {
      assert k == Min(s1 + s2, BLOCK_SIZE);
      assert out[..k] == (out[..k] + Merged(a[i..], b[j..]))[..k];
    }
  }

  /** Into a distinct output block, `merge` writes the capped merge of its inputs. */
  lemma DistinctMergeIsMergeSpec(out: seq<int>, in1: seq<int>, s1: int, in2: seq<int>, s2: int)
    requires |out| == BLOCK_SIZE && |in1| == BLOCK_SIZE && |in2| == BLOCK_SIZE
    requires 0 <= s1 <= BLOCK_SIZE && 0 <= s2 <= BLOCK_SIZE
    ensures MergeRun(out, in1, false, s1, in2, false, s2, 0, 0)[..Min(s1 + s2, BLOCK_SIZE)]
         == MergeSpec(in1[..s1], in2[..s2], BLOCK_SIZE)
  {
    assert MergedSoFar(out, in1[..s1], in2[..s2], 0, 0);
    DistinctRunFrom(out, in1, s1, in2, s2, 0, 0);
  }

  /** Whatever aliases, the loops write only cells below min(s1 + s2, BLOCK_SIZE). */
  lemma {:induction false} MergeRunWritesPrefix(out: seq<int>, in1: seq<int>, alias1: bool, s1: int,
                                                in2: seq<int>, alias2: bool, s2: int, i: nat, j: nat)
    requires |out| == BLOCK_SIZE && |in1| == BLOCK_SIZE && |in2| == BLOCK_SIZE
    requires 0 <= s1 <= BLOCK_SIZE && 0 <= s2 <= BLOCK_SIZE && i <= s1 && j <= s2
    ensures forall p :: Min(s1 + s2, BLOCK_SIZE) <= p < BLOCK_SIZE ==>
      MergeRun(out, in1, alias1, s1, in2, alias2, s2, i, j)[p] == out[p]
    decreases BLOCK_SIZE - (i + j)
  {
    var k := i + j;
    var x := if alias1 then out else in1;
    var y := if alias2 then out else in2;
    if k < BLOCK_SIZE && (i < s1 || j < s2) {
      if i < s1 && (j < s2 ==> x[i] < y[j]) {
        MergeRunWritesPrefix(out[k := x[i]], in1, alias1, s1, in2, alias2, s2, i + 1, j);
      } else {
        MergeRunWritesPrefix(out[k := y[j]], in1, alias1, s1, in2, alias2, s2, i, j + 1);
      }
    }
  }

  /** The state the loops of `merge` keep: the inputs that are not the output
      block still hold their old cells, the cursors are in range, and running
      the loops on from cursors (i, j) gives the final output cells. */
  ghost predicate Cursors(output: Block, input1: Block, input2: Block,
                          cells1: seq<int>, cells2: seq<int>, final: seq<int>, i: int, j: int)
    reads output, input1, input2, output.data, input1.data, input2.data
  {
    && output.data.Length == BLOCK_SIZE && input1.Valid() && input2.Valid()
    && (output.data == input1.data ==> output == input1)
    && (output.data == input2.data ==> output == input2)
    && |cells1| == BLOCK_SIZE && |cells2| == BLOCK_SIZE
    && (output != input1 ==> input1.data[..] == cells1)
    && (output != input2 ==> input2.data[..] == cells2)
    && 0 <= i <= input1.size && 0 <= j <= input2.size && i + j <= BLOCK_SIZE
    && MergeRun(output.data[..], cells1, output == input1, input1.size,
                cells2, output == input2, input2.size, i, j) == final
  }

  /** The first loop of `merge` (external.c:48-54): while both inputs have
      cells left and the output has room, the smaller head goes out, the head
      of input2 on a tie. */
  method MergeHeads(output: Block, input1: Block, input2: Block,
                    ghost cells1: seq<int>, ghost cells2: seq<int>, ghost final: seq<int>) returns (i: int, j: int)
    requires Cursors(output, input1, input2, cells1, cells2, final, 0, 0)
    modifies output.data
    ensures Cursors(output, input1, input2, cells1, cells2, final, i, j)
    ensures !(i < input1.size && j < input2.size && i + j < BLOCK_SIZE)
  {
    i, j := 0, 0;
    var k := 0;
    while i < input1.size && j < input2.size && k < BLOCK_SIZE
      invariant k == i + j
      invariant Cursors(output, input1, input2, cells1, cells2, final, i, j)
    {
      ghost var out := output.data[..];
      var x, y := input1.data[i], input2.data[j];
      if x < y {
        output.data[k] := x;
        assert output.data[..] == out[k := x];
        i, k := i + 1, k + 1;
      } else {
        output.data[k] := y;
        assert output.data[..] == out[k := y];
        j, k := j + 1, k + 1;
      }
    }
  }

  /** The second loop of `merge` (external.c:55-57): the rest of input1 goes out while there is room. */
  method MergeRestOfFirst(output: Block, input1: Block, input2: Block,
                          ghost cells1: seq<int>, ghost cells2: seq<int>, ghost final: seq<int>,
                          i0: int, j: int) returns (i: int)
    requires Cursors(output, input1, input2, cells1, cells2, final, i0, j)
    requires !(i0 < input1.size && j < input2.size && i0 + j < BLOCK_SIZE)
    modifies output.data
    ensures Cursors(output, input1, input2, cells1, cells2, final, i, j)
    ensures !(i < input1.size && i + j < BLOCK_SIZE)
  {
    i := i0;
    var k := i + j;
    while i < input1.size && k < BLOCK_SIZE
      invariant k == i + j
      invariant !(i < input1.size && j < input2.size && k < BLOCK_SIZE)
      invariant Cursors(output, input1, input2, cells1, cells2, final, i, j)
    {
      output.data[k] := input1.data[i];
      i, k := i + 1, k + 1;
    }
  }

  /** The third loop of `merge` (external.c:58-60): the rest of input2 goes out while there is room. */
  method MergeRestOfSecond(output: Block, input1: Block, input2: Block,
                           ghost cells1: seq<int>, ghost cells2: seq<int>, ghost final: seq<int>,
                           i: int, j0: int) returns (j: int)
    requires Cursors(output, input1, input2, cells1, cells2, final, i, j0)
    requires !(i < input1.size && i + j0 < BLOCK_SIZE)
    modifies output.data
    ensures Cursors(output, input1, input2, cells1, cells2, final, i, j)
    ensures !(j < input2.size && i + j < BLOCK_SIZE)
  {
    j := j0;
    var k := i + j;
    while j < input2.size && k < BLOCK_SIZE
      invariant k == i + j
      invariant !(i < input1.size && k < BLOCK_SIZE)
      invariant Cursors(output, input1, input2, cells1, cells2, final, i, j)
    {
      output.data[k] := input2.data[j];
      j, k := j + 1, k + 1;
    }
  }

  /**
   * `merge` (external.c:46-62). The output size is the number of cells
   * written, min(size1 + size2, BLOCK_SIZE); the output cells are what the
   * three cursor loops compute, reading an input from the output block when
   * it is the output block; nothing at or beyond the new size is touched.
   * With a distinct output block the written cells are the capped merge of
   * the two inputs and the inputs are unchanged.
   */
  method Merge(output: Block, input1: Block, input2: Block)
    requires output.data.Length == BLOCK_SIZE && input1.Valid() && input2.Valid()
    requires output.data == input1.data ==> output == input1
    requires output.data == input2.data ==> output == input2
    modifies output, output.data
    ensures output.Valid()
    ensures output.size == Min(old(input1.size) + old(input2.size), BLOCK_SIZE)
    ensures output.data[..] == MergeRun(old(output.data[..]), old(input1.data[..]), output == input1, old(input1.size),
                                        old(input2.data[..]), output == input2, old(input2.size), 0, 0)
    ensures output.data[output.size..] == old(output.data[..])[output.size..]
    ensures output != input1 ==> unchanged(input1, input1.data)
    ensures output != input2 ==> unchanged(input2, input2.data)
    ensures output != input1 && output != input2 ==>
      output.data[..output.size] == MergeSpec(old(input1.data[..input1.size]), old(input2.data[..input2.size]), BLOCK_SIZE)
  {
    ghost var buf, cells1, cells2 := output.data[..], input1.data[..], input2.data[..];
    ghost var s1, s2 := input1.size, input2.size;
    ghost var alias1, alias2 := output == input1, output == input2;
    ghost var final := MergeRun(buf, cells1, alias1, s1, cells2, alias2, s2, 0, 0);
    var i, j := MergeHeads(output, input1, input2, cells1, cells2, final);
    i := MergeRestOfFirst(output, input1, input2, cells1, cells2, final, i, j);
    j := MergeRestOfSecond(output, input1, input2, cells1, cells2, final, i, j);
    output.size := i + j;
    MergeRunWritesPrefix(buf, cells1, alias1, s1, cells2, alias2, s2, 0, 0);
    if !alias1 && !alias2 {
      DistinctMergeIsMergeSpec(buf, cells1, s1, cells2, s2);
      assert cells1[..s1] == old(input1.data[..input1.size]);
      assert cells2[..s2] == old(input2.data[..input2.size]);
    }
  }

  /** In a merge of a block into itself, while the second cursor is still 0 and
      the block's cells stay below the second input's head, every step copies
      cell i onto itself. */
  lemma {:induction false} InPlaceCopyPhase(buf: seq<int>, in1: seq<int>, s1: int, b: seq<int>, s2: int, i: nat)
    requires |buf| == BLOCK_SIZE && |in1| == BLOCK_SIZE && |b| == BLOCK_SIZE
    requires 0 <= s1 <= BLOCK_SIZE && 0 <= s2 <= BLOCK_SIZE && i <= s1
    requires s2 == 0 || forall p :: 0 <= p < s1 ==> buf[p] < b[0]
    ensures MergeRun(buf, in1, true, s1, b, false, s2, i, 0) == MergeRun(buf, in1, true, s1, b, false, s2, s1, 0)
    decreases s1 - i
  {
    if i < s1 {
      assert buf[i := buf[i]] == buf;
      InPlaceCopyPhase(buf, in1, s1, b, s2, i + 1);
    }
  }

  /** Once the block's own cells are used up, the merge copies the second
      input's cells after them. */
  lemma {:induction false} InPlaceDrainPhase(buf: seq<int>, in1: seq<int>, s1: int, b: seq<int>, s2: int, j: nat)
    requires |buf| == BLOCK_SIZE && |in1| == BLOCK_SIZE && |b| == BLOCK_SIZE
    requires 0 <= s1 <= BLOCK_SIZE && 0 <= s2 <= BLOCK_SIZE
    requires j <= s2 && s1 + j <= BLOCK_SIZE
    ensures forall p :: 0 <= p < BLOCK_SIZE ==>
      MergeRun(buf, in1, true, s1, b, false, s2, s1, j)[p]
        == if s1 + j <= p < s1 + Min(s2, BLOCK_SIZE - s1) then b[p - s1] else buf[p]
    decreases s2 - j
  {
    if j < s2 && s1 + j < BLOCK_SIZE {
      InPlaceDrainPhase(buf[s1 + j := b[j]], in1, s1, b, s2, j + 1);
    }
  }

  /** A merge whose first input is used up before the second is touched is a concatenation. */
  lemma {:induction false} MergedFirstBeforeSecond(a: seq<int>, b: seq<int>)
    requires b == [] || forall p :: 0 <= p < |a| ==> a[p] < b[0]
    ensures Merged(a, b) == a + b
    decreases |a|
  {
    if a != [] && b != [] {
      MergedFirstBeforeSecond(a[1..], b);
      assert a == [a[0]] + a[1..];
    }
  }

  /**
   * The in-place merge of external.c:70 gives the correct capped merge when
   * the second block is empty, or when every live cell of the first block is
   * below the second block's first cell: only then does no write land on a
   * cell of input1 that is still to be read.
   */
  lemma InPlaceMergeBenign(buf: seq<int>, s1: int, b: seq<int>, s2: int)
    requires |buf| == BLOCK_SIZE && |b| == BLOCK_SIZE && 0 <= s1 <= BLOCK_SIZE && 0 <= s2 <= BLOCK_SIZE
    requires s2 == 0 || forall p :: 0 <= p < s1 ==> buf[p] < b[0]
    ensures InPlaceMerge(buf, s1, b, s2)[..Min(s1 + s2, BLOCK_SIZE)] == MergeSpec(buf[..s1], b[..s2], BLOCK_SIZE)
  {
    InPlaceCopyPhase(buf, buf, s1, b, s2, 0);
    InPlaceDrainPhase(buf, buf, s1, b, s2, 0);
    MergedFirstBeforeSecond(buf[..s1], b[..s2]);
    var r := InPlaceMerge(buf, s1, b, s2);
    var m := buf[..s1] + b[..s2];
    var k := Min(s1 + s2, BLOCK_SIZE);
    forall p | 0 <= p < k
      ensures r[p] == m[p]
    {
    }
  }

  /**
   * With both inputs ascending and fitting in one block, the in-place merge
   * of external.c:70 still loses data: merging [3, 4] into itself with
   * [1, 2] leaves [1, 1, 1, 2] instead of [1, 2, 3, 4].
   */
  lemma InPlaceMergeLosesData()
    ensures Sorted([3, 4]) && Sorted([1, 2])
    ensures MergeSpec([3, 4], [1, 2], BLOCK_SIZE) == [1, 2, 3, 4]
    ensures InPlaceMerge([3, 4, 0, 0], 2, [1, 2, 0, 0], 2) == [1, 1, 1, 2]
    ensures multiset(InPlaceMerge([3, 4, 0, 0], 2, [1, 2, 0, 0], 2)) != multiset([3, 4]) + multiset([1, 2])
  {
    var a, b := [3, 4, 0, 0], [1, 2, 0, 0];
    assert MergeRun(a, a, true, 2, b, false, 2, 0, 0) == MergeRun([1, 4, 0, 0], a, true, 2, b, false, 2, 0, 1);
    assert MergeRun([1, 4, 0, 0], a, true, 2, b, false, 2, 0, 1) == MergeRun([1, 1, 0, 0], a, true, 2, b, false, 2, 1, 1);
    assert MergeRun([1, 1, 0, 0], a, true, 2, b, false, 2, 1, 1) == MergeRun([1, 1, 1, 0], a, true, 2, b, false, 2, 2, 1);
    assert MergeRun([1, 1, 1, 0], a, true, 2, b, false, 2, 2, 1) == MergeRun([1, 1, 1, 2], a, true, 2, b, false, 2, 2, 2);
    assert Merged([3, 4], [1, 2]) == [1] + Merged([3, 4], [2]);
    assert Merged([3, 4], [2]) == [2] + Merged([3, 4], []);
    assert 3 in multiset([3, 4]) + multiset([1, 2]);
  }

  /**
   * The merge step external.c:70 evidently intends: merge `second` into
   * `first` through a scratch block, so that no cell of `first` is
   * overwritten before it is read.
   */
  method MergeIntoFirst(first: Block, second: Block)
    requires first.Valid() && second.Valid() && first != second && first.data != second.data
    modifies first, first.data
    ensures first.Valid()
    ensures first.size == Min(old(first.size) + second.size, BLOCK_SIZE)
    ensures first.data[..first.size] == MergeSpec(old(first.data[..first.size]), second.data[..second.size], BLOCK_SIZE)
    ensures first.data[first.size..] == old(first.data[..])[first.size..]
    ensures unchanged(second, second.data)
  {
    var scratch := new Block();
    Merge(scratch, first, second);
    ghost var merged := scratch.data[..];
    var p := 0;
    while p < scratch.size
      invariant scratch.Valid() && scratch.size == Min(old(first.size) + second.size, BLOCK_SIZE)
      invariant scratch.data[..] == merged && 0 <= p <= scratch.size
      invariant forall q :: 0 <= q < p ==> first.data[q] == scratch.data[q]
      invariant forall q :: p <= q < BLOCK_SIZE ==> first.data[q] == old(first.data[q])
    {
      first.data[p] := scratch.data[p];
      p := p + 1;
    }
    first.size := scratch.size;
    assert first.data[..first.size] == scratch.data[..scratch.size];
  }
}
