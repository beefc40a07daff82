/**
  The boundary-tag heap of boot_mem.c.

  Memory is an array of 32-bit words, and addresses are word indices; a byte address is four
  times the index.  Each block has one tag word before and one after its payload.  Tags and
  payloads live in the same memory, and coalescing rewrites tags in place.
*/
module BootHeap {

  import opened Words

  type word = x: int | 0 <= x < 0x1_0000_0000

  const ALLOCATED: nat := 0x8000_0000
  const MAX_WORDS: nat := 0x4000_0000
  /** The null pointer. */
  const NULL: nat := 0

  function IsAllocated(info: word): bool { info >= ALLOCATED }

  function BlockWcount(info: word): nat { info % ALLOCATED }

  function Tag(inUse: bool, wcount: nat): word
    requires wcount < ALLOCATED
  {
    if inUse then ALLOCATED + wcount else wcount
  }

  lemma TagReads(inUse: bool, wcount: nat)
    requires wcount < ALLOCATED
    ensures IsAllocated(Tag(inUse, wcount)) == inUse && BlockWcount(Tag(inUse, wcount)) == wcount
  {
  }

  /** A live block as its owner sees it. */
  datatype Chunk = Chunk(ptr: nat, words: nat)

  // ----- the tiling of the heap by blocks -----

  /** Block i is [cuts[i], cuts[i + 1]), and used[i] tells whether it is allocated. */
  datatype Layout = Layout(cuts: seq<nat>, used: seq<bool>)
  {
    ghost predicate Shaped() {
      && |cuts| == |used| + 1
      && (forall i, j :: 0 <= i < j < |cuts| ==> cuts[i] + 2 <= cuts[j])
      && (forall i :: 0 <= i < |cuts| ==> cuts[i] % 2 == 1)
    }

    ghost function Words(i: nat): nat
      requires Shaped() && i < |used|
    {
      cuts[i + 1] - cuts[i] - 2
    }

    /** No two free blocks are adjacent, and the last block is allocated. */
    ghost predicate Coalesced() {
      && (forall i :: 0 <= i && i + 1 < |used| ==> used[i] || used[i + 1])
      && (|used| > 0 ==> used[|used| - 1])
    }

    ghost function At(i: nat): Chunk
      requires Shaped() && i < |used|
    {
      Chunk(cuts[i] + 1, Words(i))
    }

    ghost function Live(): set<Chunk>
      requires Shaped()
    {
      set i | 0 <= i < |used| && used[i] :: At(i)
    }

    /** All live blocks except block k. */
    ghost function Others(k: nat): set<Chunk>
      requires Shaped() && k < |used|
    {
      set i | 0 <= i < |used| && used[i] && i != k :: At(i)
    }

    /** The layout where block i swallowed block i + 1. */
    ghost function Merged(i: nat): Layout
      requires Shaped() && i + 1 < |used|
    {
      Layout(cuts[..i + 1] + cuts[i + 2..], used[..i] + [true] + used[i + 2..])
    }
  }

  /** Both tags of block i are in place. */
  ghost predicate BlockTagged(m: seq<word>, L: Layout, i: nat)
    requires L.Shaped() && i < |L.used|
  {
    && L.cuts[i + 1] <= |m| && L.Words(i) < ALLOCATED
    && m[L.cuts[i]] == Tag(L.used[i], L.Words(i))
    && m[L.cuts[i + 1] - 1] == Tag(L.used[i], L.Words(i))
  }

  ghost predicate Tagged(m: seq<word>, L: Layout)
  {
    |m| <= MAX_WORDS && L.Shaped() && forall i :: 0 <= i < |L.used| ==> BlockTagged(m, L, i)
  }

  function SetTags(m: seq<word>, head: nat, wcount: nat, inUse: bool): (r: seq<word>)
    requires head + wcount + 1 < |m| && wcount < ALLOCATED
    ensures |r| == |m|
    ensures r[head] == r[head + wcount + 1] == Tag(inUse, wcount)
    ensures forall k :: 0 <= k < |m| && k != head && k != head + wcount + 1 ==> r[k] == m[k]
  {
    m[head := Tag(inUse, wcount)][head + wcount + 1 := Tag(inUse, wcount)]
  }

  /** Payloads of the given blocks are the same in both memories. */
  ghost predicate SamePayloads(m: seq<word>, m': seq<word>, chunks: set<Chunk>)
  {
    && |m| == |m'|
    && forall c, k :: c in chunks && c.ptr <= k < c.ptr + c.words && k < |m| ==> m'[k] == m[k]
  }

  // ----- what coalescing does to the tiling -----

  lemma MergeShape(L: Layout, i: nat)
    requires L.Shaped() && i + 1 < |L.used|
    ensures var M := L.Merged(i);
            && M.Shaped() && M.used[i] && |M.used| == |L.used| - 1
            && M.cuts[0] == L.cuts[0] && M.cuts[|M.used|] == L.cuts[|L.used|]
            && M.cuts[i] == L.cuts[i] && M.cuts[i + 1] == L.cuts[i + 2]
            && M.Words(i) == L.Words(i) + L.Words(i + 1) + 2
  {
  }

  /** Where the other blocks are after merging blocks i and i + 1. */
  lemma MergedAt(L: Layout, i: nat, j: nat)
    requires L.Shaped() && i + 1 < |L.used| && j < |L.used| - 1 && j != i && L.Merged(i).Shaped()
    ensures var o := if j < i then j else j + 1;
            L.Merged(i).used[j] == L.used[o] && L.Merged(i).At(j) == L.At(o)
  {
  }

  /** A block keeps its tags when they are not overwritten. */
  lemma TagsKept(m: seq<word>, m': seq<word>, L: Layout, i: nat, M: Layout, j: nat)
    requires L.Shaped() && i < |L.used| && BlockTagged(m, L, i) && |m'| == |m|
    requires M.Shaped() && j < |M.used| && M.At(j) == L.At(i) && M.used[j] == L.used[i]
    requires m'[L.cuts[i]] == m[L.cuts[i]] && m'[L.cuts[i + 1] - 1] == m[L.cuts[i + 1] - 1]
    ensures BlockTagged(m', M, j)
  {
  }

  /** Blocks outside [a, b) have no tag at the ends of that range. */
  lemma TagsApart(L: Layout, a: nat, b: nat, j: nat)
    requires L.Shaped() && a < b < |L.cuts| && j < |L.used| && (j < a || b <= j)
    ensures L.cuts[j] < L.cuts[a] || L.cuts[b] <= L.cuts[j]
    ensures L.cuts[j + 1] - 1 < L.cuts[a] || L.cuts[b] < L.cuts[j + 1]
  {
  }

  lemma MergeTags(m: seq<word>, L: Layout, i: nat)
    requires Tagged(m, L) && i + 1 < |L.used|
    ensures var w := L.Words(i) + L.Words(i + 1) + 2;
            && L.cuts[i] + w + 1 < |m| && w < ALLOCATED
            && Tagged(SetTags(m, L.cuts[i], w, true), L.Merged(i))
  {
    hide Layout.Merged, Layout.Words, Layout.At, Tag, SetTags, BlockTagged;
    var M := L.Merged(i);
    MergeShape(L, i);
    BlockEnd(m, L, i + 1);
    MergedTagNew(m, L, i);
    var m' := SetTags(m, L.cuts[i], M.Words(i), true);
    forall j | 0 <= j < |M.used|
      ensures BlockTagged(m', M, j)
    {
      if j != i {
        var o := if j < i then j else j + 1;
        MergedAt(L, i, j);
        MergedTagKept(m, L, i, j, o);
      }
    }
  }

  lemma BlockEnd(m: seq<word>, L: Layout, i: nat)
    requires Tagged(m, L) && i < |L.used|
    ensures L.cuts[i + 1] <= |m|
  {
    assert BlockTagged(m, L, i);
  }

  lemma MergedTagNew(m: seq<word>, L: Layout, i: nat)
    requires |m| <= MAX_WORDS && L.Shaped() && i + 1 < |L.used| && L.cuts[i + 2] <= |m|
    ensures var w := L.Words(i) + L.Words(i + 1) + 2;
            && L.cuts[i] + w + 1 < |m| && w < ALLOCATED && L.Merged(i).Shaped()
            && BlockTagged(SetTags(m, L.cuts[i], w, true), L.Merged(i), i)
  {
    MergeShape(L, i);
    hide Layout.Merged, Tag;
  }

  lemma MergedTagKept(m: seq<word>, L: Layout, i: nat, j: nat, o: nat)
    requires Tagged(m, L) && i + 1 < |L.used| && o < |L.used| && (o < i || i + 2 <= o)
    requires L.Merged(i).Shaped() && j < |L.Merged(i).used|
    requires L.Merged(i).At(j) == L.At(o) && L.Merged(i).used[j] == L.used[o]
    requires var w := L.Words(i) + L.Words(i + 1) + 2; L.cuts[i] + w + 1 < |m| && w < ALLOCATED
    ensures BlockTagged(SetTags(m, L.cuts[i], L.Words(i) + L.Words(i + 1) + 2, true), L.Merged(i), j)
  {
    hide Layout.Merged, Tag;
    var m' := SetTags(m, L.cuts[i], L.Words(i) + L.Words(i + 1) + 2, true);
    hide SetTags;
    assert BlockTagged(m, L, o);
    TagsApart(L, i, i + 2, o);
    TagsKept(m, m', L, o, L.Merged(i), j);
  }

  lemma MergeCoalesced(L: Layout, i: nat)
    requires L.Shaped() && L.Coalesced() && i + 1 < |L.used| && (L.used[i] || L.used[i + 1])
    ensures L.Merged(i).Coalesced()
  {
  }

  lemma MergeOthersIn(L: Layout, i: nat, keep: nat, c: Chunk)
    requires L.Shaped() && i + 1 < |L.used| && i <= keep <= i + 1
    requires L.Merged(i).Shaped() && |L.Merged(i).used| == |L.used| - 1
    requires c in L.Merged(i).Others(i)
    ensures c in L.Others(keep)
  {
    var M := L.Merged(i);
    hide Layout.Merged, Layout.At, Layout.Words, Layout.Shaped;
    var j :| 0 <= j < |M.used| && M.used[j] && j != i && M.At(j) == c;
    MergedAt(L, i, j);
  }

  lemma MergeOthersOut(L: Layout, i: nat, keep: nat, gone: nat, c: Chunk)
    requires L.Shaped() && i + 1 < |L.used| && i <= keep <= i + 1 && keep + gone == i + i + 1
    requires !L.used[gone] && L.Merged(i).Shaped() && |L.Merged(i).used| == |L.used| - 1
    requires c in L.Others(keep)
    ensures c in L.Merged(i).Others(i)
  {
    var M := L.Merged(i);
    hide Layout.Merged, Layout.At, Layout.Words, Layout.Shaped;
    var j :| 0 <= j < |L.used| && L.used[j] && j != keep && L.At(j) == c;
    assert j != gone;
    if j < i {
      MergedAt(L, i, j);
      assert M.used[j];
    } else {
      MergedAt(L, i, j - 1);
      assert M.used[j - 1];
    }
  }

  /** Merging two blocks, one of them free, leaves the other live blocks alone. */
  lemma MergeOthers(L: Layout, i: nat, keep: nat, gone: nat)
    requires L.Shaped() && i + 1 < |L.used| && i <= keep <= i + 1 && keep + gone == i + i + 1
    requires !L.used[gone] && L.Merged(i).Shaped() && |L.Merged(i).used| == |L.used| - 1
    ensures L.Merged(i).Others(i) == L.Others(keep)
  {
    hide Layout.Merged, Layout.Others;
    forall c | c in L.Merged(i).Others(i)
      ensures c in L.Others(keep)
    {
      MergeOthersIn(L, i, keep, c);
    }
    forall c | c in L.Others(keep)
      ensures c in L.Merged(i).Others(i)
    {
      MergeOthersOut(L, i, keep, gone, c);
    }
  }

  /** Rewriting the outer tags of the blocks [a, b) touches no live payload outside of them. */
  lemma TagsOutsideOthers(m: seq<word>, L: Layout, i: nat, a: nat, b: nat, inUse: bool)
    requires Tagged(m, L) && a <= i < b < |L.cuts|
    requires L.cuts[b] <= |m| && L.cuts[b] - L.cuts[a] - 2 < ALLOCATED
    ensures SamePayloads(m, SetTags(m, L.cuts[a], L.cuts[b] - L.cuts[a] - 2, inUse), L.Others(i))
  {
    var m' := SetTags(m, L.cuts[a], L.cuts[b] - L.cuts[a] - 2, inUse);
    forall c, k | c in L.Others(i) && c.ptr <= k < c.ptr + c.words && k < |m|
      ensures m'[k] == m[k]
    {
      var j :| 0 <= j < |L.used| && j != i && L.At(j) == c;
      assert L.At(j).ptr == L.cuts[j] + 1;
      PayloadApart(L, j, k, a);
      PayloadApart(L, j, k, b);
    }
  }

  /** A payload word is not a tag word. */
  lemma PayloadApart(L: Layout, j: nat, k: nat, a: nat)
    requires L.Shaped() && j < |L.used| && a < |L.cuts|
    requires L.cuts[j] < k && k + 1 < L.cuts[j + 1]
    ensures k != L.cuts[a] && k + 1 != L.cuts[a]
  {
    assert a <= j || a == j + 1 || j + 1 < a;
  }

  /** The layout where block i is free, and given back to the unused part if it is the last. */
  ghost function Freed(L: Layout, i: nat): Layout
    requires L.Shaped() && i < |L.used|
  {
    if i + 1 == |L.used| then Layout(L.cuts[..i + 1], L.used[..i])
    else Layout(L.cuts, L.used[i := false])
  }

  lemma FreedShape(L: Layout, i: nat)
    requires L.Shaped() && i < |L.used|
    ensures var M := Freed(L, i);
            && M.Shaped() && |M.used| == (if i + 1 == |L.used| then i else |L.used|)
            && M.cuts[0] == L.cuts[0]
            && M.cuts[|M.used|] == (if i + 1 == |L.used| then L.cuts[i] else L.cuts[|L.used|])
  {
  }

  lemma FreedAt(L: Layout, i: nat, j: nat)
    requires L.Shaped() && i < |L.used| && Freed(L, i).Shaped() && j < |Freed(L, i).used|
    ensures Freed(L, i).At(j) == L.At(j) && Freed(L, i).used[j] == (L.used[j] && j != i)
  {
  }

  lemma FreedTags(m: seq<word>, L: Layout, i: nat)
    requires Tagged(m, L) && i < |L.used|
    ensures L.cuts[i] + L.Words(i) + 1 < |m| && L.Words(i) < ALLOCATED
    ensures Tagged(SetTags(m, L.cuts[i], L.Words(i), false), Freed(L, i))
  {
    var M := Freed(L, i);
    FreedShape(L, i);
    assert BlockTagged(m, L, i);
    hide Freed, Tag;
    var m' := SetTags(m, L.cuts[i], L.Words(i), false);
    hide SetTags;
    forall j | 0 <= j < |M.used|
      ensures BlockTagged(m', M, j)
    {
      FreedAt(L, i, j);
      assert BlockTagged(m, L, j);
      if j != i {
        TagsKept(m, m', L, j, M, j);
      }
    }
  }

  lemma FreedCoalesced(L: Layout, i: nat)
    requires L.Shaped() && L.Coalesced() && i < |L.used| && L.used[i]
    requires (i == 0 || L.used[i - 1]) && (i + 1 == |L.used| || L.used[i + 1])
    ensures Freed(L, i).Coalesced()
  {
  }

  lemma FreedLive(L: Layout, i: nat)
    requires L.Shaped() && i < |L.used| && Freed(L, i).Shaped()
    requires |Freed(L, i).used| == if i + 1 == |L.used| then i else |L.used|
    ensures Freed(L, i).Live() == L.Others(i)
  {
    var M := Freed(L, i);
    hide Freed, Layout.At, Layout.Words, Layout.Shaped;
    forall c | c in L.Others(i)
      ensures c in M.Live()
    {
      var j :| 0 <= j < |L.used| && L.used[j] && j != i && L.At(j) == c;
      FreedAt(L, i, j);
    }
    forall c | c in M.Live()
      ensures c in L.Others(i)
    {
      var j :| 0 <= j < |M.used| && M.used[j] && M.At(j) == c;
      FreedAt(L, i, j);
    }
  }

  /** Every live block is either block i or one of the others, and not both. */
  lemma OneOfLive(L: Layout, i: nat)
    requires L.Shaped() && i < |L.used| && L.used[i]
    ensures L.Live() == L.Others(i) + {L.At(i)} && L.At(i) !in L.Others(i)
  {
    forall c | c in L.Live()
      ensures c in L.Others(i) + {L.At(i)}
    {
    }
  }

  // ----- what allocation does to the tiling -----

  ghost function Extended(L: Layout, wcount: nat): Layout
    requires L.Shaped()
  {
    Layout(L.cuts + [L.cuts[|L.used|] + wcount + 2], L.used + [true])
  }

  lemma ExtendedShape(L: Layout, wcount: nat)
    requires L.Shaped() && wcount % 2 == 0
    ensures var M := Extended(L, wcount);
            && M.Shaped() && |M.used| == |L.used| + 1 && M.used[|L.used|]
            && M.cuts[0] == L.cuts[0] && M.cuts[|M.used|] == L.cuts[|L.used|] + wcount + 2
            && M.At(|L.used|) == Chunk(L.cuts[|L.used|] + 1, wcount)
            && (L.Coalesced() ==> M.Coalesced())
  {
  }

  lemma ExtendedAt(L: Layout, wcount: nat, j: nat)
    requires L.Shaped() && Extended(L, wcount).Shaped() && j < |L.used|
    ensures Extended(L, wcount).At(j) == L.At(j) && Extended(L, wcount).used[j] == L.used[j]
  {
  }

  lemma ExtendedOthers(L: Layout, wcount: nat)
    requires L.Shaped() && Extended(L, wcount).Shaped() && |Extended(L, wcount).used| == |L.used| + 1
    ensures Extended(L, wcount).Others(|L.used|) == L.Live()
  {
    var M := Extended(L, wcount);
    hide Extended, Layout.At, Layout.Words, Layout.Shaped;
    forall c | c in L.Live()
      ensures c in M.Others(|L.used|)
    {
      var j :| 0 <= j < |L.used| && L.used[j] && L.At(j) == c;
      ExtendedAt(L, wcount, j);
    }
    forall c | c in M.Others(|L.used|)
      ensures c in L.Live()
    {
      var j :| 0 <= j < |M.used| && M.used[j] && j != |L.used| && M.At(j) == c;
      ExtendedAt(L, wcount, j);
    }
  }

  lemma ExtendedTags(m: seq<word>, L: Layout, wcount: nat)
    requires Tagged(m, L) && wcount % 2 == 0 && L.cuts[|L.used|] + wcount + 2 <= |m|
    ensures wcount < ALLOCATED
    ensures Tagged(SetTags(m, L.cuts[|L.used|], wcount, true), Extended(L, wcount))
    ensures SamePayloads(m, SetTags(m, L.cuts[|L.used|], wcount, true), L.Live())
  {
    var M := Extended(L, wcount);
    ExtendedShape(L, wcount);
    hide Extended, Tag;
    var m' := SetTags(m, L.cuts[|L.used|], wcount, true);
    hide SetTags;
    forall j | 0 <= j < |M.used|
      ensures BlockTagged(m', M, j)
    {
      if j < |L.used| {
        ExtendedAt(L, wcount, j);
        assert BlockTagged(m, L, j);
        TagsKept(m, m', L, j, M, j);
      }
    }
  }

  /** The new block at the end, with its tags in place. */
  lemma MallocMove(m: seq<word>, L: Layout, wcount: nat)
    requires Tagged(m, L) && L.Coalesced() && wcount % 2 == 0 && L.cuts[|L.used|] + wcount + 2 <= |m|
    ensures wcount < ALLOCATED && L.cuts[|L.used|] + wcount + 1 < |m|
    ensures var M := Extended(L, wcount);
            var c := Chunk(L.cuts[|L.used|] + 1, wcount);
            && M.Shaped() && M.Coalesced() && M.cuts[0] == L.cuts[0]
            && M.cuts[|M.used|] == L.cuts[|L.used|] + wcount + 2
            && Tagged(SetTags(m, L.cuts[|L.used|], wcount, true), M)
            && M.Live() == L.Live() + {c} && c !in L.Live()
            && SamePayloads(m, SetTags(m, L.cuts[|L.used|], wcount, true), L.Live())
  {
    ExtendedShape(L, wcount);
    ExtendedTags(m, L, wcount);
    ExtendedOthers(L, wcount);
    OneOfLive(Extended(L, wcount), |L.used|);
    hide Extended, Tagged, Layout.Live, Layout.Others, SetTags, Layout.At, SamePayloads;
  }

  // ----- what the tiling means for the owners of blocks -----

  /** Live payloads are 8-byte aligned, and lie between start and tail. */
  lemma LiveAligned(L: Layout, c: Chunk)
    requires L.Shaped() && c in L.Live()
    ensures c.ptr % 2 == 0 && L.cuts[0] < c.ptr && c.ptr + c.words < L.cuts[|L.used|]
  {
    var i :| 0 <= i < |L.used| && L.At(i) == c;
    assert L.At(i).ptr == L.cuts[i] + 1;
    assert L.cuts[0] <= L.cuts[i] && L.cuts[i + 1] <= L.cuts[|L.used|];
  }

  /** Live payloads are disjoint, with room for the tags between them. */
  lemma LiveDisjoint(L: Layout, c: Chunk, d: Chunk)
    requires L.Shaped() && c in L.Live() && d in L.Live() && c != d
    ensures c.ptr + c.words + 2 <= d.ptr || d.ptr + d.words + 2 <= c.ptr
  {
    var i :| 0 <= i < |L.used| && L.At(i) == c;
    var j :| 0 <= j < |L.used| && L.At(j) == d;
    assert L.At(i).ptr == L.cuts[i] + 1 && L.At(j).ptr == L.cuts[j] + 1;
    assert i + 1 <= j || j + 1 <= i;
  }

  /** The unused part starts right behind the highest live block. */
  lemma TailIsHighest(L: Layout)
    requires L.Shaped() && L.Coalesced()
    ensures L.Live() == {} <==> L.cuts[|L.used|] == L.cuts[0]
    ensures forall c :: c in L.Live() ==> c.ptr + c.words < L.cuts[|L.used|]
    ensures L.Live() != {} ==> exists c :: c in L.Live() && c.ptr + c.words + 1 == L.cuts[|L.used|]
  {
    if |L.used| > 0 {
      assert L.At(|L.used| - 1) in L.Live();
    }
    forall c | c in L.Live()
      ensures c.ptr + c.words < L.cuts[|L.used|]
    {
      var i :| 0 <= i < |L.used| && L.At(i) == c;
    }
  }

  // ----- one step of coalescing -----

  lemma HeadWord(m: seq<word>, L: Layout, i: nat)
    requires Tagged(m, L) && i < |L.used|
    ensures L.cuts[i] + L.Words(i) + 1 < |m| && L.Words(i) < ALLOCATED && L.At(i).ptr == L.cuts[i] + 1
    ensures L.cuts[i] > 0 && BlockWcount(m[L.cuts[i]]) == L.Words(i)
  {
    assert BlockTagged(m, L, i);
  }

  /** What the word behind block i tells about the next block. */
  lemma NextBlock(m: seq<word>, L: Layout, i: nat)
    requires Tagged(m, L) && i < |L.used|
    ensures L.cuts[i] + L.Words(i) + 2 == L.cuts[i + 1]
    ensures L.cuts[i + 1] == L.cuts[|L.used|] <==> i + 1 == |L.used|
    ensures i + 1 < |L.used| ==>
              && L.cuts[i + 1] < |m| && IsAllocated(m[L.cuts[i + 1]]) == L.used[i + 1]
              && BlockWcount(m[L.cuts[i + 1]]) == L.Words(i + 1)
  {
    if i + 1 < |L.used| {
      assert BlockTagged(m, L, i + 1);
      TagReads(L.used[i + 1], L.Words(i + 1));
    }
  }

  /** What the word before block i tells about the previous block. */
  lemma PreviousBlock(m: seq<word>, L: Layout, i: nat)
    requires Tagged(m, L) && i < |L.used|
    ensures L.cuts[i] == L.cuts[0] <==> i == 0
    ensures i > 0 ==>
              && 0 < L.cuts[i] <= |m| && IsAllocated(m[L.cuts[i] - 1]) == L.used[i - 1]
              && BlockWcount(m[L.cuts[i] - 1]) == L.Words(i - 1)
              && L.cuts[i] - (L.Words(i - 1) + 2) == L.cuts[i - 1] >= 0
  {
    if i > 0 {
      assert BlockTagged(m, L, i - 1);
      TagReads(L.used[i - 1], L.Words(i - 1));
    }
  }

  /** Blocks i and i + 1, of which `gone` is free and `keep` is being freed, become one. */
  lemma MergeMove(m: seq<word>, L: Layout, i: nat, keep: nat, gone: nat, others: set<Chunk>, was: seq<word>)
    requires Tagged(m, L) && L.Coalesced() && i + 1 < |L.used| && i <= keep <= i + 1 && keep + gone == i + i + 1
    requires L.used[keep] && !L.used[gone] && L.Others(keep) == others && SamePayloads(was, m, others)
    ensures L.Merged(i).Shaped() && |L.Merged(i).used| == |L.used| - 1 && L.Merged(i).used[i]
    ensures var M := L.Merged(i);
            var w := L.Words(i) + L.Words(i + 1) + 2;
            && L.cuts[i] + w + 1 < |m| && w < ALLOCATED
            && Tagged(SetTags(m, L.cuts[i], w, true), M) && M.Coalesced()
            && M.cuts[0] == L.cuts[0] && M.cuts[|M.used|] == L.cuts[|L.used|]
            && M.cuts[i] == L.cuts[i] && M.Words(i) == w
            && M.Others(i) == others && SamePayloads(was, SetTags(m, L.cuts[i], w, true), others)
            && (i + 1 < |M.used| ==> M.used[i + 1] == L.used[i + 2])
  {
    MergeShape(L, i);
    MergeTags(m, L, i);
    MergeCoalesced(L, i);
    MergeOthers(L, i, keep, gone);
    TagsOutsideOthers(m, L, keep, i, i + 2, true);
    hide Tagged, SetTags, SamePayloads, Layout.Others, Layout.Coalesced;
    SameTrans(was, m, SetTags(m, L.cuts[i], L.Words(i) + L.Words(i + 1) + 2, true), others);
    if i + 2 < |L.used| {
      MergedAt(L, i, i + 1);
    }
  }

  lemma SameSelf(m: seq<word>, chunks: set<Chunk>)
    ensures SamePayloads(m, m, chunks)
  {
  }

  lemma SameTrans(m: seq<word>, m': seq<word>, m'': seq<word>, chunks: set<Chunk>)
    requires SamePayloads(m, m', chunks) && SamePayloads(m', m'', chunks)
    ensures SamePayloads(m, m'', chunks)
  {
  }

  /** The coalesced block i is given back, and the tail retracted if it was the last. */
  lemma FreeMove(m: seq<word>, L: Layout, i: nat, others: set<Chunk>, was: seq<word>)
    requires Tagged(m, L) && L.Coalesced() && i < |L.used| && L.used[i]
    requires (i == 0 || L.used[i - 1]) && (i + 1 == |L.used| || L.used[i + 1])
    requires L.Others(i) == others && SamePayloads(was, m, others)
    ensures L.cuts[i] + L.Words(i) + 2 == L.cuts[i + 1] <= |m| && L.Words(i) < ALLOCATED
    ensures L.cuts[i + 1] == L.cuts[|L.used|] <==> i + 1 == |L.used|
    ensures L.cuts[0] <= L.cuts[i] <= L.cuts[|L.used|]
    ensures var M := Freed(L, i);
            && M.Shaped() && M.cuts[0] == L.cuts[0]
            && M.cuts[|M.used|] == (if i + 1 == |L.used| then L.cuts[i] else L.cuts[|L.used|])
            && Tagged(SetTags(m, L.cuts[i], L.Words(i), false), M) && M.Coalesced() && M.Live() == others
            && SamePayloads(was, SetTags(m, L.cuts[i], L.Words(i), false), others)
  {
    FreedShape(L, i);
    FreedTags(m, L, i);
    FreedCoalesced(L, i);
    FreedLive(L, i);
    TagsOutsideOthers(m, L, i, i, i + 1, false);
    SameTrans(was, m, SetTags(m, L.cuts[i], L.Words(i), false), others);
    hide Freed, Tagged, SetTags, SamePayloads, Layout.Live, Layout.Others, Layout.Coalesced;
  }

  lemma SameSubset(m: seq<word>, m': seq<word>, chunks: set<Chunk>, some: set<Chunk>)
    requires SamePayloads(m, m', chunks) && some <= chunks
    ensures SamePayloads(m, m', some)
  {
  }

  lemma SameChunk(m: seq<word>, m': seq<word>, chunks: set<Chunk>, c: Chunk, n: nat)
    requires SamePayloads(m, m', chunks) && c in chunks && n <= c.words && c.ptr + c.words <= |m|
    ensures m'[c.ptr..c.ptr + n] == m[c.ptr..c.ptr + n]
  {
  }

  /** One more word of a copy. */
  lemma CopiedOne(m: seq<word>, p: nat, m': seq<word>, q: nat, n: nat)
    requires p + n < |m| && q + n < |m'| && m'[q..q + n] == m[p..p + n]
    ensures m'[q + n := m[p + n]][q..q + n + 1] == m[p..p + n + 1]
  {
    assert m'[q + n := m[p + n]][q..q + n + 1] == m'[q..q + n] + [m[p + n]];
    assert m[p..p + n + 1] == m[p..p + n] + [m[p + n]];
  }

  /** Where a live chunk lies, and what its head word says. */
  lemma LiveInside(m: seq<word>, L: Layout, c: Chunk)
    requires Tagged(m, L) && c in L.Live()
    ensures 0 < c.ptr && c.ptr + c.words + 1 <= |m|
    ensures IsAllocated(m[c.ptr - 1]) && BlockWcount(m[c.ptr - 1]) == c.words && m[c.ptr - 1] == 0x8000_0000 + c.words
  {
    var i :| 0 <= i < |L.used| && L.used[i] && L.At(i) == c;
    HeadWord(m, L, i);
    assert BlockTagged(m, L, i);
  }

  /** A write to the payload of c leaves all tags and all other payloads alone. */
  lemma StoreMove(m: seq<word>, L: Layout, c: Chunk, address: nat, value: word)
    requires Tagged(m, L) && c in L.Live() && c.ptr <= address < c.ptr + c.words
    ensures address < |m| && Tagged(m[address := value], L)
    ensures SamePayloads(m, m[address := value], L.Live() - {c})
  {
    LiveInside(m, L, c);
    var i :| 0 <= i < |L.used| && L.used[i] && L.At(i) == c;
    assert L.At(i).ptr == L.cuts[i] + 1;
    var m' := m[address := value];
    forall j | 0 <= j < |L.used|
      ensures BlockTagged(m', L, j)
    {
      PayloadApart(L, i, address, j);
      PayloadApart(L, i, address, j + 1);
      assert BlockTagged(m, L, j);
      TagsKept(m, m', L, j, L, j);
    }
    forall d, k | d in L.Live() - {c} && d.ptr <= k < d.ptr + d.words && k < |m|
      ensures m'[k] == m[k]
    {
      LiveDisjoint(L, c, d);
    }
  }

  /** Rounding an address up to the first one that is 4 modulo 8. */
  lemma RegionStart(address: nat)
    ensures var up := (address + 3) / 4 * 4;
            var ps := if up % 8 == 0 then up + 4 else up;
            address <= ps < address + 8 && ps == ps / 4 * 4 && ps / 4 % 2 == 1
  {
    var k := (address + 3) / 4;
    if k * 4 % 8 == 0 {
      assert k % 2 == 0;
    } else {
      assert k % 2 == 1;
    }
  }

  // ----- the heap -----

  /** Rounding up to 8 bytes. */
  function RoundUp(size: nat): nat {
    (size + 7) / 8 * 8
  }

  /** The words of a size that is rounded up to 8 bytes. */
  lemma RoundedUp(size: nat)
    ensures var w := RoundUp(size) / 4;
            size <= 4 * w < size + 8 && w % 2 == 0 && RoundUp(size) == 4 * w
  {
    var q := (size + 7) / 8;
    assert q * 8 / 4 == 2 * q;
  }

  /** An even number of words is determined by the size that it is rounded up from. */
  lemma SameWords(size: nat, v: nat, w: nat)
    requires size <= 4 * v < size + 8 && v % 2 == 0 && size <= 4 * w < size + 8 && w % 2 == 0
    ensures v == w
  {
  }

  class Heap {
    const mem: array<word>
    const start: nat
    const end: nat
    var tail: nat
    ghost var layout: Layout

    ghost predicate Valid()
      reads this, mem
    {
      && layout.Shaped() && Tagged(mem[..], layout) && layout.Coalesced()
      && layout.cuts[0] == start && layout.cuts[|layout.used|] == tail
      && end <= mem.Length && (tail == start || tail <= end)
    }

    ghost function Live(): set<Chunk>
      requires layout.Shaped()
      reads this
    {
      layout.Live()
    }

    /** A region of memory, given by its byte address and its size in bytes. */
    constructor (mem: array<word>, address: nat, size: nat)
      requires address + size <= 4 * mem.Length <= 4 * MAX_WORDS
      ensures Valid() && this.mem == mem && Live() == {} && tail == start
      ensures address <= 4 * start < address + 8 && address + size < 4 * end + 4 <= address + size + 4
    {
      RegionStart(address);
      var ps, pe := address, address + size;
      ps := (ps + 3) / 4 * 4;
      pe := pe / 4 * 4;
      if ps % 8 == 0 {
        ps := ps + 4;
      }
      this.mem := mem;
      start, end, tail := ps / 4, pe / 4, ps / 4;
      layout := Layout([ps / 4], []);
    }

    method SetHeadTail(head: nat, wcount: nat)
      requires head + wcount + 1 < mem.Length && wcount < ALLOCATED
      modifies mem
      ensures mem[..] == SetTags(old(mem[..]), head, wcount, true)
    {
      mem[head], mem[head + wcount + 1] := Tag(true, wcount), Tag(true, wcount);
    }

    method UnsetHeadTail(head: nat, wcount: nat)
      requires head + wcount + 1 < mem.Length && wcount < ALLOCATED
      modifies mem
      ensures mem[..] == SetTags(old(mem[..]), head, wcount, false)
    {
      mem[head], mem[head + wcount + 1] := Tag(false, wcount), Tag(false, wcount);
    }

    /** The block has the least even number w of words that holds size bytes. */
    method Malloc(size: nat) returns (p: nat, ghost w: nat)
      requires Valid()
      modifies this`tail, this`layout, mem
      ensures Valid() && size <= 4 * w < size + 8 && w % 2 == 0
      ensures p == NULL <==> old(tail) + w + 2 > end
      ensures p == NULL ==> Live() == old(Live()) && mem[..] == old(mem[..]) && tail == old(tail)
      ensures p != NULL ==> Chunk(p, w) !in old(Live()) && Live() == old(Live()) + {Chunk(p, w)}
                            && p == old(tail) + 1 && tail == old(tail) + w + 2
      ensures SamePayloads(old(mem[..]), mem[..], old(Live()))
    {
      var wcount := RoundUp(size) / 4;
      RoundedUp(size);
      hide RoundUp;
      w := wcount;
      SameSelf(mem[..], Live());
      if tail + wcount + 2 > end {
        return NULL, w;
      }
      MallocMove(mem[..], layout, wcount);
      hide Extended, Tagged, Layout.Live, Layout.Others, SetTags, Layout.At, SamePayloads;
      ghost var L := layout;
      var ptr := tail;
      SetHeadTail(ptr, wcount);
      tail := tail + wcount + 2;
      layout := Extended(L, wcount);
      return ptr + 1, w;
    }

    /** The block that a live chunk is the payload of. */
    ghost method BlockOf(c: Chunk) returns (i: nat)
      requires Valid() && c in Live()
      ensures i < |layout.used| && layout.used[i] && layout.At(i) == c
    {
      i :| 0 <= i < |layout.used| && layout.used[i] && layout.At(i) == c;
    }

    /** The heap while block i is being coalesced: everything holds, with block i still allocated. */
    ghost predicate Coalescing(i: nat, blk: nat, wcount: nat, others: set<Chunk>, m: seq<word>)
      reads this, mem
    {
      && Valid() && i < |layout.used| && layout.used[i]
      && layout.cuts[i] == blk && layout.Words(i) == wcount
      && layout.Others(i) == others && SamePayloads(m, mem[..], others)
    }

    /** Merge the free blocks behind block i into it. */
    method MergeFollowing(blk: nat, wcount0: nat, ghost i: nat, ghost others: set<Chunk>, ghost m: seq<word>)
      returns (wcount: nat)
      requires Coalescing(i, blk, wcount0, others, m)
      modifies this`layout, mem
      ensures Coalescing(i, blk, wcount, others, m)
      ensures i + 1 == |layout.used| || layout.used[i + 1]
    {
      hide Tagged, Layout.Merged, Layout.Others, Layout.At, SetTags, Layout.Coalesced, Layout.Shaped, Layout.Words;
      hide SamePayloads, IsAllocated, BlockWcount;
      wcount := wcount0;
      while true
        invariant Coalescing(i, blk, wcount, others, m)
        decreases |layout.used|
      {
        var nblk := blk + wcount + 2;
        NextBlock(mem[..], layout, i);
        if nblk == tail || IsAllocated(mem[nblk]) {
          break;
        }
        var nwcount := BlockWcount(mem[nblk]);
        MergeMove(mem[..], layout, i, i, i + 1, others, m);
        wcount := wcount + nwcount + 2;
        SetHeadTail(blk, wcount);
        layout := layout.Merged(i);
      }
    }

    /** Merge block i into the free blocks before it. */
    method MergePreceding(blk0: nat, wcount0: nat, ghost i0: nat, ghost others: set<Chunk>, ghost m: seq<word>)
      returns (blk: nat, wcount: nat, ghost i: nat)
      requires Coalescing(i0, blk0, wcount0, others, m)
      requires i0 + 1 == |layout.used| || layout.used[i0 + 1]
      modifies this`layout, mem
      ensures Coalescing(i, blk, wcount, others, m)
      ensures i + 1 == |layout.used| || layout.used[i + 1]
      ensures i == 0 || layout.used[i - 1]
    {
      hide Tagged, Layout.Merged, Layout.Others, Layout.At, SetTags, Layout.Coalesced, Layout.Shaped, Layout.Words;
      hide SamePayloads, IsAllocated, BlockWcount;
      blk, wcount, i := blk0, wcount0, i0;
      while true
        invariant Coalescing(i, blk, wcount, others, m)
        invariant i + 1 == |layout.used| || layout.used[i + 1]
        decreases |layout.used|
      {
        PreviousBlock(mem[..], layout, i);
        if blk == start || IsAllocated(mem[blk - 1]) {
          break;
        }
        var pwcount := BlockWcount(mem[blk - 1]);
        MergeMove(mem[..], layout, i - 1, i, i - 1, others, m);
        blk := blk - (pwcount + 2);
        wcount := wcount + pwcount + 2;
        SetHeadTail(blk, wcount);
        layout := layout.Merged(i - 1);
        i := i - 1;
      }
    }

    /** Free a live block, coalescing it with free neighbours on both sides. */
    method Free(p: nat, ghost c: Chunk)
      requires Valid() && c in Live() && c.ptr == p
      modifies this`tail, this`layout, mem
      ensures Valid() && Live() == old(Live()) - {c}
      ensures SamePayloads(old(mem[..]), mem[..], Live())
    {
      hide Tagged, Layout.Merged, Layout.Others, Layout.Live, SetTags, Layout.Coalesced, Layout.Shaped, Layout.Words;
      hide SamePayloads, BlockWcount, Freed;
      ghost var m := mem[..];
      ghost var i := BlockOf(c);
      ghost var others := layout.Others(i);
      OneOfLive(layout, i);
      HeadWord(m, layout, i);
      SameSelf(m, others);
      var blk: nat := p - 1;
      var wcount: nat := BlockWcount(mem[blk]);
      wcount := MergeFollowing(blk, wcount, i, others, m);
      blk, wcount, i := MergePreceding(blk, wcount, i, others, m);
      FreeMove(mem[..], layout, i, others, m);
      UnsetHeadTail(blk, wcount);
      if tail == blk + wcount + 2 {
        tail := blk;
      }
      layout := Freed(layout, i);
    }

    /** The owner of a live block writes a word of its payload. */
    method Store(ghost c: Chunk, address: nat, value: word)
      requires Valid() && c in Live() && c.ptr <= address < c.ptr + c.words
      modifies mem
      ensures Valid() && address < mem.Length && mem[..] == old(mem[..])[address := value]
      ensures SamePayloads(old(mem[..]), mem[..], Live() - {c})
    {
      hide Tagged, Layout.Live, Layout.Coalesced, Layout.Words, SamePayloads;
      StoreMove(mem[..], layout, c, address, value);
      mem[address] := value;
    }

    method Calloc(nmemb: nat, size: nat) returns (p: nat, ghost w: nat)
      requires Valid()
      modifies this`tail, this`layout, mem
      ensures Valid() && nmemb * size <= 4 * w < nmemb * size + 8 && w % 2 == 0
      ensures p == NULL <==> old(tail) + w + 2 > end
      ensures p == NULL ==> Live() == old(Live()) && mem[..] == old(mem[..]) && tail == old(tail)
      ensures p != NULL ==> Chunk(p, w) !in old(Live()) && Live() == old(Live()) + {Chunk(p, w)}
                            && p + w <= mem.Length && forall k :: p <= k < p + w ==> mem[k] == 0
      ensures SamePayloads(old(mem[..]), mem[..], old(Live()))
    {
      hide *;
      p, w := ZeroedBlock(nmemb * size);
    }

    method ZeroedBlock(total: nat) returns (p: nat, ghost w: nat)
      requires Valid()
      modifies this`tail, this`layout, mem
      ensures Valid() && total <= 4 * w < total + 8 && w % 2 == 0
      ensures p == NULL <==> old(tail) + w + 2 > end
      ensures p == NULL ==> Live() == old(Live()) && mem[..] == old(mem[..]) && tail == old(tail)
      ensures p != NULL ==> Chunk(p, w) !in old(Live()) && Live() == old(Live()) + {Chunk(p, w)}
                            && p + w <= mem.Length && forall k :: p <= k < p + w ==> mem[k] == 0
      ensures SamePayloads(old(mem[..]), mem[..], old(Live()))
    {
      hide Tagged, Layout.Live, Layout.Coalesced, Layout.Words, SamePayloads, Layout.Shaped;
      var bytes := RoundUp(total);
      RoundedUp(total);
      hide RoundUp;
      p, w := Malloc(bytes);
      SameWords(bytes, bytes / 4, w);
      if p != NULL {
        ClearWords(p, bytes / 4, old(Live()), old(mem[..]));
      }
    }

    /** The loop that clears a new block. */
    method ClearWords(p: nat, nwords: nat, ghost before: set<Chunk>, ghost m: seq<word>)
      requires Valid() && Live() == before + {Chunk(p, nwords)} && Chunk(p, nwords) !in before
      requires SamePayloads(m, mem[..], before)
      modifies mem
      ensures Valid() && SamePayloads(m, mem[..], before) && p + nwords <= mem.Length
      ensures forall k :: p <= k < p + nwords ==> mem[k] == 0
    {
      hide Tagged, Layout.Live, Layout.Coalesced, Layout.Words, SamePayloads, Layout.Shaped;
      ghost var c, L := Chunk(p, nwords), layout;
      assert Live() - {c} == before;
      LiveInside(mem[..], layout, c);
      var n := 0;
      while n < nwords
        invariant n <= nwords && Valid() && layout == L && p + nwords <= mem.Length
        invariant forall k :: p <= k < p + n ==> mem[k] == 0
        invariant SamePayloads(m, mem[..], before)
      {
        ghost var m' := mem[..];
        Store(c, p + n, 0);
        SameTrans(m, m', mem[..], before);
        assert forall k :: p <= k < p + n ==> mem[..][k] == m'[k] == mem[k];
        n := n + 1;
      }
    }

    /** The copy loop of realloc, from the block at p to the new block at q. */
    method CopyWords(p: nat, nwords: nat, owcount: nat, q0: nat, ghost c: Chunk, ghost before: set<Chunk>,
                     ghost m: seq<word>)
      returns (q: nat)
      requires Valid() && Live() == before + {Chunk(q0, nwords)} && Chunk(q0, nwords) !in before
      requires c in before && c == Chunk(p, owcount)
      requires SamePayloads(m, mem[..], before) && p + owcount <= |m|
      modifies mem
      ensures q == q0 && Valid()
      ensures SamePayloads(m, mem[..], before) && q + nwords <= mem.Length
      ensures var n := Min(owcount, nwords); mem[q..q + n] == m[p..p + n]
    {
      hide Tagged, Layout.Live, Layout.Coalesced, Layout.Words, Layout.Shaped;
      q := q0;
      ghost var d, L := Chunk(q0, nwords), layout;
      assert Live() - {d} == before;
      LiveInside(mem[..], layout, d);
      LiveDisjoint(layout, c, d);
      var n := 0;
      while n < nwords && n < owcount
        invariant n <= nwords && n <= owcount && Valid() && layout == L && q + nwords <= mem.Length
        invariant SamePayloads(m, mem[..], before)
        invariant mem[q..q + n] == m[p..p + n]
      {
        ghost var m' := mem[..];
        assert mem[..][p + n] == m[p + n] && mem[..][q..q + n] == mem[q..q + n];
        ghost var v := mem[p + n];
        Store(d, q + n, mem[p + n]);
        SameTrans(m, m', mem[..], before);
        CopiedOne(m, p, m', q, n);
        assert mem[..] == m'[q + n := v] && mem[q..q + n + 1] == mem[..][q..q + n + 1];
        n := n + 1;
      }
    }

    /** Realloc of a live block to a size other than 0, up to freeing the old block. */
    method MoveBlock(p: nat, size: nat, ghost c: Chunk) returns (q: nat, ghost w: nat)
      requires Valid() && c in Live() && c.ptr == p && p != NULL
      modifies this`tail, this`layout, mem
      ensures Valid() && size <= 4 * w < size + 8 && w % 2 == 0
      ensures q == NULL <==> old(tail) + w + 2 > end
      ensures q == NULL ==> Live() == old(Live()) && mem[..] == old(mem[..])
      ensures q != NULL ==>
                && Chunk(q, w) !in old(Live()) && Live() == old(Live()) + {Chunk(q, w)}
                && q + w <= mem.Length && p + c.words <= mem.Length
                && var n := Min(c.words, w); mem[q..q + n] == old(mem[p..p + n])
      ensures SamePayloads(old(mem[..]), mem[..], old(Live()))
    {
      hide Tagged, Layout.Live, Layout.Coalesced, Layout.Words, SamePayloads, Layout.Shaped, BlockWcount;
      ghost var m, before := mem[..], Live();
      LiveInside(m, layout, c);
      var owcount := BlockWcount(mem[p - 1]);
      var asize := RoundUp(size);
      RoundedUp(size);
      hide RoundUp;
      q, w := Malloc(asize);
      SameWords(asize, asize / 4, w);
      if q == NULL {
        return NULL, w;
      }
      q := CopyWords(p, asize / 4, owcount, q, c, before, m);
    }

    /** The end of realloc: the old block is freed, and the new one keeps its words. */
    method FreeOld(p: nat, q: nat, ghost c: Chunk, ghost w: nat, ghost n: nat, ghost before: set<Chunk>,
                   ghost m: seq<word>)
      requires Valid() && c in before && c.ptr == p && SamePayloads(m, mem[..], before - {c})
      requires Live() == before + {Chunk(q, w)} && Chunk(q, w) !in before && n <= w && q + w <= mem.Length
      requires p + n <= |m| && mem[q..q + n] == m[p..p + n]
      modifies this`tail, this`layout, mem
      ensures Valid() && SamePayloads(m, mem[..], before - {c})
      ensures Live() == before - {c} + {Chunk(q, w)} && mem[q..q + n] == m[p..p + n]
    {
      hide Tagged, Layout.Live, Layout.Coalesced, Layout.Words, SamePayloads, Layout.Shaped;
      ghost var m' := mem[..];
      Free(p, c);
      SameChunk(m', mem[..], Live(), Chunk(q, w), n);
      assert mem[..][q..q + n] == mem[q..q + n] && m'[q..q + n] == old(mem[q..q + n]);
      SameSubset(m', mem[..], Live(), before - {c});
      SameTrans(m, m', mem[..], before - {c});
    }

    /** Realloc of a live block to a size other than 0. */
    method Replace(p: nat, size: nat, ghost c: Chunk) returns (q: nat, ghost w: nat)
      requires Valid() && c in Live() && c.ptr == p && p != NULL
      modifies this`tail, this`layout, mem
      ensures Valid() && size <= 4 * w < size + 8 && w % 2 == 0
      ensures q == NULL <==> old(tail) + w + 2 > end
      ensures q == NULL ==> Live() == old(Live()) && mem[..] == old(mem[..])
      ensures q != NULL ==>
                && Chunk(q, w) !in old(Live()) && Live() == old(Live()) - {c} + {Chunk(q, w)}
                && q + w <= mem.Length && p + c.words <= mem.Length
                && var n := Min(c.words, w); mem[q..q + n] == old(mem[p..p + n])
      ensures SamePayloads(old(mem[..]), mem[..], old(Live()) - {c})
    {
      hide Tagged, Layout.Live, Layout.Coalesced, Layout.Words, SamePayloads, Layout.Shaped;
      ghost var m, before := mem[..], Live();
      q, w := MoveBlock(p, size, c);
      SameSubset(m, mem[..], before, before - {c});
      if q != NULL {
        FreeOld(p, q, c, w, Min(c.words, w), before, m);
      }
    }

    /**
      Resize a block.  The chunk c is the one that p points to; a pointer to a block whose head
      says that it is free is refused.
    */
    method Realloc(p: nat, size: nat, ghost c: Chunk) returns (q: nat, ghost w: nat)
      requires Valid()
      requires p != NULL ==> || (c in Live() && c.ptr == p)
                             || (size != 0 && p <= mem.Length && !IsAllocated(mem[p - 1]))
      modifies this`tail, this`layout, mem
      ensures Valid()
      // it fails exactly if there is no room, or nothing is asked for, or the head says free
      ensures size != 0 && (p == NULL || (c in old(Live()) && c.ptr == p)) ==>
                size <= 4 * w < size + 8 && w % 2 == 0 && (q == NULL <==> old(tail) + w + 2 > end)
      ensures size == 0 || (p != NULL && !old(IsAllocated(mem[p - 1]))) ==> q == NULL
      // nothing changes when no block is returned, unless a block was to be freed
      ensures q == NULL && (p == NULL || size != 0) ==> Live() == old(Live()) && mem[..] == old(mem[..])
      // without a block to resize, a block is allocated
      ensures p == NULL && q != NULL ==>
                && size <= 4 * w < size + 8 && w % 2 == 0
                && Chunk(q, w) !in old(Live()) && Live() == old(Live()) + {Chunk(q, w)}
                && SamePayloads(old(mem[..]), mem[..], old(Live()))
      // size 0 frees the block
      ensures p != NULL && size == 0 ==> q == NULL && Live() == old(Live()) - {c}
      // otherwise the block is replaced by one that starts with the same words: they hold the first
      // bytes, as many as the old block has and the new one asks for
      ensures p != NULL && q != NULL ==>
                && size <= 4 * w < size + 8 && w % 2 == 0
                && Chunk(q, w) !in old(Live()) && Live() == old(Live()) - {c} + {Chunk(q, w)}
                && q + w <= mem.Length && p + c.words <= mem.Length
                && var n := if c.words < w then c.words else w;
                   mem[q..q + n] == old(mem[p..p + n]) && (4 * n >= 4 * c.words || 4 * n >= size)
      // and no other live block changes
      ensures p != NULL ==> SamePayloads(old(mem[..]), mem[..], old(Live()) - {c})
    {
      hide Tagged, Layout.Live, Layout.Coalesced, Layout.Words, SamePayloads, Layout.Shaped, IsAllocated;
      ghost var m, before := mem[..], Live();
      SameSelf(m, before - {c});
      if p == NULL {
        if size == 0 {
          return NULL, 0;
        }
        q, w := Malloc(size);
        return;
      }
      q, w := NULL, 0;
      if size != 0 {
        var blk := p - 1;
        if c in Live() && c.ptr == p {
          LiveInside(m, layout, c);
        }
        if !IsAllocated(mem[blk]) {
          return;
        }
        q, w := Replace(p, size, c);
      } else {
        Free(p, c);
        SameSubset(m, mem[..], Live(), before - {c});
      }
    }
  }

  /** Freeing all live blocks, in any order, gives the whole heap back. */
  method FreeAll(h: Heap, order: seq<Chunk>)
    requires h.Valid() && (set c | c in order) == h.Live()
    requires forall i, j :: 0 <= i < j < |order| ==> order[i] != order[j]
    modifies h`tail, h`layout, h.mem
    ensures h.Valid() && h.Live() == {} && h.tail == h.start
  {
    hide Tagged, Layout.Live, Layout.Coalesced, Layout.Words, Layout.Shaped, SamePayloads;
    for n := 0 to |order|
      invariant h.Valid() && h.Live() == set c | c in order[n..]
    {
      assert order[n] in order[n..];
      h.Free(order[n].ptr, order[n]);
      assert order[n..] == [order[n]] + order[n + 1..];
    }
    TailIsHighest(h.layout);
  }
}
