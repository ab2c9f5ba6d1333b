/** The bookkeeping the HDF5 output writer does around each variable it writes:
    the index of sparse fields, the rank and extents of each dataset, and the
    table recording on which blocks each sparse field is allocated. */
module PHDF5Layout {
  import opened Errors

  /** The topology flag of an output variable (`vinfo.where`). */
  datatype Location = Cell | Face | Edge | Node | None

  /** What the writer knows about one output variable: its label, whether it is
      sparse, its location, its tensor rank (how many of the three component
      extents `nx6`, `nx5`, `nx4` are used) and its six extents. */
  datatype VarInfo = VarInfo(
    name: string, isSparse: bool, location: Location, tensorRank: nat,
    nx6: nat, nx5: nat, nx4: nat, nx3: nat, nx2: nat, nx1: nat)

  // ---------------------------------------------------------------------------
  // The sparse-field index

  /** The labels of the sparse variables, in the order of the variable list. */
  function SparseLabels(vars: seq<VarInfo>): seq<string>
  {
    if vars == [] then []
    else SparseLabels(vars[..|vars| - 1])
         + (if vars[|vars| - 1].isSparse then [vars[|vars| - 1].name] else [])
  }

  /** `names` is indexed by `idx`: every name appears under the position of its
      first occurrence, and nothing else is in `idx`. */
  ghost predicate IndexOf(names: seq<string>, idx: map<string, nat>)
  {
    && (forall k :: 0 <= k < |names| ==> names[k] in idx)
    && (forall l :: l in idx ==>
          idx[l] < |names| && names[idx[l]] == l
          && forall k :: 0 <= k < idx[l] ==> names[k] != l)
  }

  /** The list of sparse labels and the map from each label to its position,
      built in one pass over the variables. The map keeps the first position
      of a label, as a map insertion does not replace an existing key. */
  method SparseIndex(vars: seq<VarInfo>) returns (names: seq<string>, idx: map<string, nat>)
    ensures names == SparseLabels(vars)
    ensures IndexOf(names, idx)
  {
    names := [];
    idx := map[];
    for i := 0 to |vars|
      invariant names == SparseLabels(vars[..i])
      invariant IndexOf(names, idx)
    {
      assert vars[..i + 1][..i] == vars[..i];
      var v := vars[i];
      if v.isSparse {
        if v.name !in idx {
          idx := idx[v.name := |names|];
        }
        names := names + [v.name];
      }
    }
    assert vars[..|vars|] == vars;
  }

  /** The sparse labels are exactly the labels of the sparse variables, each
      variable contributing its label at a position no later than its own. */
  lemma {:induction false} SparseLabelsMembers(vars: seq<VarInfo>)
    ensures |SparseLabels(vars)| <= |vars|
    ensures forall k :: 0 <= k < |vars| && vars[k].isSparse ==> vars[k].name in SparseLabels(vars)
    ensures forall l :: l in SparseLabels(vars) ==>
              exists k :: 0 <= k < |vars| && vars[k].isSparse && vars[k].name == l
  {
    if vars != [] {
      var init := vars[..|vars| - 1];
      SparseLabelsMembers(init);
      forall l | l in SparseLabels(vars)
        ensures exists k :: 0 <= k < |vars| && vars[k].isSparse && vars[k].name == l
      {
        if l in SparseLabels(init) {
          var k :| 0 <= k < |init| && init[k].isSparse && init[k].name == l;
          assert vars[k] == init[k];
        } else {
          assert vars[|vars| - 1].isSparse && vars[|vars| - 1].name == l;
        }
      }
      forall k | 0 <= k < |vars| && vars[k].isSparse
        ensures vars[k].name in SparseLabels(vars)
      {
        if k < |vars| - 1 {
          assert init[k] == vars[k];
        }
      }
    }
  }

  /** Looking up the position of a sparse variable's label never fails, and
      gives a column of the allocation table. */
  lemma SparseLookupDefined(vars: seq<VarInfo>, names: seq<string>, idx: map<string, nat>,
                            k: nat)
    requires names == SparseLabels(vars) && IndexOf(names, idx)
    requires k < |vars| && vars[k].isSparse
    ensures vars[k].name in idx && idx[vars[k].name] < |names|
    ensures names[idx[vars[k].name]] == vars[k].name
  {
    SparseLabelsMembers(vars);
  }

  /** With distinct labels, every sparse label is indexed by its own position. */
  lemma IndexOfDistinct(names: seq<string>, idx: map<string, nat>)
    requires IndexOf(names, idx)
    requires forall j, k :: 0 <= j < k < |names| ==> names[j] != names[k]
    ensures forall k :: 0 <= k < |names| ==> idx[names[k]] == k
  {
  }

  // ---------------------------------------------------------------------------
  // The dataset rank and extents

  /** The rank, the extents written by this process (`local_count`), the extents
      of the whole dataset (`global_count`) and the chunk extents; only the first
      `ndim` of the seven slots are handed to HDF5. */
  datatype Layout = Layout(ndim: nat, localCount: seq<nat>, globalCount: seq<nat>,
                           chunk: seq<nat>)

  /** The variable's six extents, outermost first (`alldims`). */
  function AllDims(v: VarInfo): (d: seq<nat>)
    ensures |d| == 6
  {
    [v.nx6, v.nx5, v.nx4, v.nx3, v.nx2, v.nx1]
  }

  function Ones(n: nat): seq<nat>
  {
    seq(n, _ => 1)
  }

  function Min(a: int, b: int): int { if a < b then a else b }

  /** The shape of a cell-centred dataset: blocks, then the used tensor
      components, then the three spatial extents of the output region. */
  function CellShape(v: VarInfo, blocks: nat, nx3: nat, nx2: nat, nx1: nat): seq<nat>
    requires v.tensorRank <= 3
  {
    [blocks] + AllDims(v)[3 - v.tensorRank..3] + [nx3, nx2, nx1]
  }

  /** The shape of a dataset without location: blocks, then the innermost
      `tensorRank` extents of the variable. */
  function NoneShape(v: VarInfo, blocks: nat): seq<nat>
    requires v.tensorRank <= 6
  {
    [blocks] + AllDims(v)[6 - v.tensorRank..]
  }

  /** Whether the dataset is written compressed, which needs chunking. */
  predicate Compressed(compressionLevel: int) { compressionLevel > 0 }

  /** The seven count slots before the rank is chosen: blocks, the variable's
      component extents, the output region's spatial extents. */
  method InitialCounts(v: VarInfo, blocks: nat, nx3: nat, nx2: nat, nx1: nat)
    returns (count: array<nat>)
    ensures fresh(count) && count.Length == 7
    ensures count[..] == [blocks, v.nx6, v.nx5, v.nx4, nx3, nx2, nx1]
  {
    count := new nat[7];
    count[0], count[1], count[2], count[3] := blocks, v.nx6, v.nx5, v.nx4;
    count[4], count[5], count[6] := nx3, nx2, nx1;
  }

  /** Fills count slots `1 .. n` with `n` consecutive extents of `src` starting
      at `from`; the other slots keep their values. */
  method CopyExtents(count: array<nat>, src: seq<nat>, from: nat, n: nat)
    requires count.Length == 7 && n < 7 && from + n <= |src|
    modifies count
    ensures forall k :: 1 <= k < 1 + n ==> count[k] == src[from + k - 1]
    ensures forall k :: 0 <= k < 7 && !(1 <= k < 1 + n) ==> count[k] == old(count[k])
  {
    for i := 0 to n
      invariant forall k :: 1 <= k < 1 + i ==> count[k] == src[from + k - 1]
      invariant forall k :: 0 <= k < 7 && !(1 <= k < 1 + i) ==> count[k] == old(count[k])
    {
      count[1 + i] := src[from + i];
    }
  }

  /** Puts the three spatial extents right after the used tensor components. */
  method PlaceSpatial(count: array<nat>, tr: nat, nx3: nat, nx2: nat, nx1: nat)
    requires count.Length == 7 && tr <= 3
    modifies count
    ensures count[tr + 1] == nx3 && count[tr + 2] == nx2 && count[tr + 3] == nx1
    ensures forall k :: 0 <= k < tr + 1 ==> count[k] == old(count[k])
  {
    count[tr + 1] := nx3;
    count[tr + 2] := nx2;
    count[tr + 3] := nx1;
  }

  /** Slot by slot, what makes a count array the shape of a cell-centred dataset. */
  lemma CellShapeSlots(v: VarInfo, blocks: nat, nx3: nat, nx2: nat, nx1: nat, c: seq<nat>)
    requires v.tensorRank <= 3 && |c| == 7
    requires c[0] == blocks
    requires forall k :: 1 <= k < v.tensorRank + 1 ==> c[k] == AllDims(v)[3 - v.tensorRank + k - 1]
    requires c[v.tensorRank + 1] == nx3 && c[v.tensorRank + 2] == nx2 && c[v.tensorRank + 3] == nx1
    ensures c[..v.tensorRank + 4] == CellShape(v, blocks, nx3, nx2, nx1)
  {
    var tr := v.tensorRank;
    assert c[..tr + 4] == [c[0]] + c[1..tr + 1] + c[tr + 1..tr + 4];
    forall k | 1 <= k < tr + 1
      ensures c[k] == AllDims(v)[3 - tr..3][k - 1]
    {
    }
    assert c[1..tr + 1] == AllDims(v)[3 - tr..3];
    assert c[tr + 1..tr + 4] == [nx3, nx2, nx1];
  }

  /** The count slots of a cell-centred variable: the used tensor components
      shifted next to the block count, then the spatial extents. */
  method CellCounts(v: VarInfo, blocks: nat, nx3: nat, nx2: nat, nx1: nat)
    returns (count: array<nat>)
    requires v.tensorRank <= 3
    ensures fresh(count) && count.Length == 7
    ensures count[..v.tensorRank + 4] == CellShape(v, blocks, nx3, nx2, nx1)
  {
    count := InitialCounts(v, blocks, nx3, nx2, nx1);
    var alldims := AllDims(v);
    var tr := v.tensorRank;
    CopyExtents(count, alldims, 3 - tr, tr);
    PlaceSpatial(count, tr, nx3, nx2, nx1);
    CellShapeSlots(v, blocks, nx3, nx2, nx1, count[..]);
  }

  /** The chunk extents of a compressed dataset: slots `lo .. hi` span the
      count slots of the same index, every slot before them is one. */
  method SpanChunk(count: array<nat>, lo: nat, hi: nat) returns (chunk: array<nat>)
    requires count.Length == 7 && lo <= hi <= 7
    ensures fresh(chunk) && chunk.Length == 7
    ensures chunk[..hi] == Ones(lo) + count[lo..hi]
  {
    chunk := new nat[7](_ => 1);
    for i := lo to hi
      invariant forall k :: 0 <= k < lo ==> chunk[k] == 1
      invariant forall k :: lo <= k < i ==> chunk[k] == count[k]
    {
      chunk[i] := count[i];
    }
    assert chunk[..hi] == Ones(lo) + count[lo..hi];
  }

  /** The last three slots of a cell-centred shape are the spatial extents. */
  lemma CellShapeSpatial(v: VarInfo, blocks: nat, nx3: nat, nx2: nat, nx1: nat, count: seq<nat>)
    requires v.tensorRank <= 3 && |count| == 7
    requires count[..v.tensorRank + 4] == CellShape(v, blocks, nx3, nx2, nx1)
    ensures count[v.tensorRank + 1..v.tensorRank + 4] == [nx3, nx2, nx1]
  {
    var tr := v.tensorRank;
    assert count[tr + 1] == count[..tr + 4][tr + 1] == nx3;
    assert count[tr + 2] == count[..tr + 4][tr + 2] == nx2;
    assert count[tr + 3] == count[..tr + 4][tr + 3] == nx1;
  }

  /** The extents of a cell-centred variable: rank `tensorRank + 4`; chunks span
      the three spatial extents when compressed. */
  method CellLayout(v: VarInfo, blocksLocal: nat, blocksGlobal: nat,
                    nx3: nat, nx2: nat, nx1: nat, compressionLevel: int)
    returns (l: Layout)
    requires v.tensorRank <= 3
    ensures l.ndim == v.tensorRank + 4
    ensures |l.localCount| == |l.globalCount| == |l.chunk| == 7
    ensures l.localCount[..l.ndim] == CellShape(v, blocksLocal, nx3, nx2, nx1)
    ensures l.globalCount[..l.ndim] == CellShape(v, blocksGlobal, nx3, nx2, nx1)
    ensures l.chunk[..l.ndim] == if Compressed(compressionLevel)
                                 then Ones(l.ndim - 3) + [nx3, nx2, nx1]
                                 else Ones(l.ndim)
  {
    var localCount := CellCounts(v, blocksLocal, nx3, nx2, nx1);
    var globalCount := CellCounts(v, blocksGlobal, nx3, nx2, nx1);
    var ndim := 3 + v.tensorRank + 1;
    var chunk;
    if Compressed(compressionLevel) {
      chunk := SpanChunk(localCount, ndim - 3, ndim);
      CellShapeSpatial(v, blocksLocal, nx3, nx2, nx1, localCount[..]);
      assert localCount[ndim - 3..ndim] == localCount[..][ndim - 3..ndim];
    } else {
      chunk := new nat[7](_ => 1);
      assert chunk[..ndim] == Ones(ndim);
    }
    l := Layout(ndim, localCount[..], globalCount[..], chunk[..]);
  }

  /** The position in `alldims` the chunk slot `i` of a rank-`ndim` dataset
      without location is taken from: the extent that also fills count slot `i`. */
  function NoneChunkSource(ndim: nat, i: int): int { 6 - ndim + i }

  /** The count slots of a variable without location: its innermost
      `tensorRank` extents next to the block count. */
  method NoneCounts(v: VarInfo, blocks: nat, nx3: nat, nx2: nat, nx1: nat)
    returns (count: array<nat>)
    requires v.tensorRank <= 6
    ensures fresh(count) && count.Length == 7
    ensures count[..v.tensorRank + 1] == NoneShape(v, blocks)
  {
    count := InitialCounts(v, blocks, nx3, nx2, nx1);
    var tr := v.tensorRank;
    CopyExtents(count, AllDims(v), 6 - tr, tr);
    assert count[..tr + 1] == NoneShape(v, blocks);
  }

  /** The chunk extents of a compressed dataset without location: slots
      `lo .. ndim` are read from `alldims`, every slot before them is one. */
  method DimsChunk(alldims: seq<nat>, ndim: nat, lo: nat) returns (chunk: array<nat>)
    requires |alldims| == 6 && lo <= ndim <= 7 && ndim <= lo + 6
    ensures fresh(chunk) && chunk.Length == 7
    ensures chunk[..ndim] == Ones(lo) + alldims[6 - ndim + lo..6]
  {
    chunk := new nat[7](_ => 1);
    for i := lo to ndim
      invariant forall k :: 0 <= k < lo ==> chunk[k] == 1
      invariant forall k :: lo <= k < i ==> chunk[k] == alldims[NoneChunkSource(ndim, k)]
    {
      chunk[i] := alldims[NoneChunkSource(ndim, i)];
    }
    assert chunk[..ndim] == Ones(lo) + alldims[6 - ndim + lo..6];
  }

  /** The count slots after the block count of a variable without location are
      the innermost extents of the variable. */
  lemma NoneShapeInner(v: VarInfo, blocks: nat, count: seq<nat>)
    requires v.tensorRank <= 6 && |count| == 7
    requires count[..v.tensorRank + 1] == NoneShape(v, blocks)
    ensures count[1..v.tensorRank + 1] == AllDims(v)[6 - v.tensorRank..6]
  {
    var tr := v.tensorRank;
    forall k | 1 <= k < tr + 1
      ensures count[k] == AllDims(v)[6 - tr + k - 1]
    {
      assert count[k] == count[..tr + 1][k];
    }
  }

  /** The chunk read from the innermost (up to three) extents of a variable
      without location spans the count slots those extents fill. */
  lemma NoneChunkInner(v: VarInfo, blocks: nat, count: seq<nat>, chunk: seq<nat>)
    requires v.tensorRank <= 6 && |count| == 7 && |chunk| == 7
    requires count[..v.tensorRank + 1] == NoneShape(v, blocks)
    requires var n := Min(v.tensorRank, 3);
      chunk[..v.tensorRank + 1] == Ones(v.tensorRank + 1 - n) + AllDims(v)[6 - n..6]
    ensures var ndim, n := v.tensorRank + 1, Min(v.tensorRank, 3);
      && chunk[..ndim] == Ones(ndim - n) + count[ndim - n..ndim]
      && chunk[ndim - n..ndim] == AllDims(v)[6 - n..]
  {
    var ndim, n := v.tensorRank + 1, Min(v.tensorRank, 3);
    NoneShapeInner(v, blocks, count);
    assert count[ndim - n..ndim] == count[1..ndim][ndim - 1 - n..];
    assert chunk[ndim - n..ndim] == chunk[..ndim][ndim - n..];
  }

  /** The extents of a variable without location: rank `tensorRank + 1`; chunks
      span the innermost (up to three) extents when compressed. */
  method NoneLayout(v: VarInfo, blocksLocal: nat, blocksGlobal: nat,
                    nx3: nat, nx2: nat, nx1: nat, compressionLevel: int)
    returns (l: Layout)
    requires v.tensorRank <= 6
    ensures l.ndim == v.tensorRank + 1
    ensures |l.localCount| == |l.globalCount| == |l.chunk| == 7
    ensures l.localCount[..l.ndim] == NoneShape(v, blocksLocal)
    ensures l.globalCount[..l.ndim] == NoneShape(v, blocksGlobal)
    ensures var n := Min(v.tensorRank, 3);
      l.chunk[..l.ndim] == if Compressed(compressionLevel)
                           then Ones(l.ndim - n) + l.localCount[l.ndim - n..l.ndim]
                           else Ones(l.ndim)
    ensures Compressed(compressionLevel) ==>
      l.chunk[l.ndim - Min(v.tensorRank, 3)..l.ndim] == AllDims(v)[6 - Min(v.tensorRank, 3)..]
  {
    var localCount := NoneCounts(v, blocksLocal, nx3, nx2, nx1);
    var globalCount := NoneCounts(v, blocksGlobal, nx3, nx2, nx1);
    var ndim := v.tensorRank + 1;
    var nchunk := Min(v.tensorRank, 3);
    var chunk;
    if Compressed(compressionLevel) {
      chunk := DimsChunk(AllDims(v), ndim, ndim - nchunk);
      NoneChunkInner(v, blocksLocal, localCount[..], chunk[..]);
    } else {
      chunk := new nat[7](_ => 1);
      assert chunk[..ndim] == Ones(ndim);
    }
    l := Layout(ndim, localCount[..], globalCount[..], chunk[..]);
  }

  /** The rank choice: cell-centred and location-less variables are written,
      any other location is refused. */
  method DatasetLayout(v: VarInfo, blocksLocal: nat, blocksGlobal: nat,
                       nx3: nat, nx2: nat, nx1: nat, compressionLevel: int)
    returns (r: Result<Layout>)
    requires v.tensorRank <= 6 && (v.location == Cell ==> v.tensorRank <= 3)
    ensures r.Ok? <==> v.location == Cell || v.location == None
    ensures r.Err? ==> r.error == UnsupportedLocation
    ensures r.Ok? ==> |r.value.localCount| == |r.value.globalCount| == |r.value.chunk| == 7
    ensures r.Ok? && v.location == Cell ==>
      r.value.ndim == v.tensorRank + 4
      && r.value.localCount[..r.value.ndim] == CellShape(v, blocksLocal, nx3, nx2, nx1)
      && r.value.globalCount[..r.value.ndim] == CellShape(v, blocksGlobal, nx3, nx2, nx1)
    ensures r.Ok? && v.location == None ==>
      r.value.ndim == v.tensorRank + 1
      && r.value.localCount[..r.value.ndim] == NoneShape(v, blocksLocal)
      && r.value.globalCount[..r.value.ndim] == NoneShape(v, blocksGlobal)
  {
    if v.location == Cell {
      var l := CellLayout(v, blocksLocal, blocksGlobal, nx3, nx2, nx1, compressionLevel);
      r := Ok(l);
    } else if v.location == None {
      var l := NoneLayout(v, blocksLocal, blocksGlobal, nx3, nx2, nx1, compressionLevel);
      r := Ok(l);
    } else {
      r := Err(UnsupportedLocation);
    }
  }

  /** The chunk loop for location-less variables as written reads `alldims` at
      `6 - nchunk + i`. */
  function AsWrittenNoneChunkSource(tensorRank: nat, i: int): int
  {
    6 - Min(tensorRank, 3) + i
  }

  /** For every tensor rank of at least one, the last chunk slot the loop fills
      (`i == ndim - 1`) reads past the six entries of `alldims`. */
  lemma AsWrittenNoneChunkOutOfRange(tensorRank: nat)
    requires tensorRank >= 1
    ensures var ndim := tensorRank + 1;
      ndim - Min(tensorRank, 3) <= ndim - 1 < ndim
      && AsWrittenNoneChunkSource(tensorRank, ndim - 1) >= 6
  {
  }

  /** The corrected chunk loop reads only inside `alldims`, and from the same
      entry that fills the count slot it chunks. */
  lemma NoneChunkSourceInRange(v: VarInfo, blocks: nat, i: int)
    requires v.tensorRank <= 6
    requires v.tensorRank + 1 - Min(v.tensorRank, 3) <= i < v.tensorRank + 1
    ensures 0 <= NoneChunkSource(v.tensorRank + 1, i) < 6
    ensures AllDims(v)[NoneChunkSource(v.tensorRank + 1, i)] == NoneShape(v, blocks)[i]
  {
  }

  // ---------------------------------------------------------------------------
  // The sparse allocation table

  /** The slot of (block, sparse field) in the flattened block-major table. */
  function AllocationIndex(block: nat, numSparse: nat, sparseIdx: nat): nat
  {
    block * numSparse + sparseIdx
  }

  /** Every (block, field) pair of the table has a slot inside it. */
  lemma AllocationIndexInRange(block: nat, sparseIdx: nat, numBlocks: nat, numSparse: nat)
    requires block < numBlocks && sparseIdx < numSparse
    ensures AllocationIndex(block, numSparse, sparseIdx) < numBlocks * numSparse
  {
    calc {
      AllocationIndex(block, numSparse, sparseIdx);
    <  (block + 1) * numSparse;
    <= { MulMono(block + 1, numBlocks, numSparse); }
      numBlocks * numSparse;
    }
  }

  lemma MulMono(a: nat, b: nat, c: nat)
    requires a <= b
    ensures a * c <= b * c
  {
    assert b * c == a * c + (b - a) * c;
  }

  /** The slot determines the pair: block and field are read back by division
      and remainder, so distinct pairs never share a slot. */
  lemma AllocationIndexDecode(block: nat, numSparse: nat, sparseIdx: nat)
    requires sparseIdx < numSparse
    ensures AllocationIndex(block, numSparse, sparseIdx) / numSparse == block
    ensures AllocationIndex(block, numSparse, sparseIdx) % numSparse == sparseIdx
  {
    var k := AllocationIndex(block, numSparse, sparseIdx);
    DivModUnique(k, numSparse, block, sparseIdx);
  }

  lemma MulAtLeast(x: int, d: int)
    requires x >= 1 && d > 0
    ensures x * d >= d
  {
    assert x * d == (x - 1) * d + d;
  }

  /** Quotient and remainder are the only such pair. */
  lemma DivModUnique(k: int, d: int, q: int, r: int)
    requires d > 0 && 0 <= r < d && k == q * d + r
    ensures k / d == q && k % d == r
  {
    var q', r' := k / d, k % d;
    assert k == q' * d + r';
    if q' > q {
      assert (q' - q) * d == r - r';
      MulAtLeast(q' - q, d);
    } else if q' < q {
      assert (q - q') * d == r' - r;
      MulAtLeast(q - q', d);
    }
  }

  /** A variable as a block holds it: its label and whether its data is allocated. */
  datatype BlockVar = BlockVar(name: string, isAllocated: bool)

  /** The block holds an allocated variable labelled `name`. */
  predicate HoldsAllocated(blockVars: seq<BlockVar>, name: string)
  {
    exists k :: 0 <= k < |blockVars| && blockVars[k].isAllocated && blockVars[k].name == name
  }

  /** The search over a block's variables for an allocated one labelled `name`,
      stopping at the first. */
  method AllocatedOn(blockVars: seq<BlockVar>, name: string) returns (isAllocated: bool)
    ensures isAllocated <==> HoldsAllocated(blockVars, name)
  {
    isAllocated := false;
    for k := 0 to |blockVars|
      invariant forall j :: 0 <= j < k ==> !(blockVars[j].isAllocated && blockVars[j].name == name)
    {
      if blockVars[k].isAllocated && blockVars[k].name == name {
        isAllocated := true;
        return;
      }
    }
  }

  /** For one sparse field, the writer visits every local block in order and
      records in the field's column whether the block holds the field allocated;
      every other slot of the table is left alone. */
  method RecordSparseColumn(sparseAllocated: array<bool>, numSparse: nat, sparseIdx: nat,
                            blocks: seq<seq<BlockVar>>, name: string)
    requires sparseAllocated.Length == |blocks| * numSparse
    requires sparseIdx < numSparse
    modifies sparseAllocated
    ensures forall b :: 0 <= b < |blocks| ==>
              AllocationIndex(b, numSparse, sparseIdx) < sparseAllocated.Length
              && (sparseAllocated[AllocationIndex(b, numSparse, sparseIdx)]
                  <==> HoldsAllocated(blocks[b], name))
    ensures forall k :: 0 <= k < sparseAllocated.Length && k % numSparse != sparseIdx ==>
              sparseAllocated[k] == old(sparseAllocated[k])
  {
    for b := 0 to |blocks|
      invariant forall c :: 0 <= c < b ==>
                  AllocationIndex(c, numSparse, sparseIdx) < sparseAllocated.Length
                  && (sparseAllocated[AllocationIndex(c, numSparse, sparseIdx)]
                      <==> HoldsAllocated(blocks[c], name))
      invariant forall k :: 0 <= k < sparseAllocated.Length && k % numSparse != sparseIdx ==>
                  sparseAllocated[k] == old(sparseAllocated[k])
    {
      var isAllocated := AllocatedOn(blocks[b], name);
      var slot := AllocationIndex(b, numSparse, sparseIdx);
      AllocationIndexInRange(b, sparseIdx, |blocks|, numSparse);
      AllocationIndexDecode(b, numSparse, sparseIdx);
      forall c | 0 <= c < b
        ensures AllocationIndex(c, numSparse, sparseIdx) != slot
      {
        AllocationIndexDecode(c, numSparse, sparseIdx);
      }
      sparseAllocated[slot] := isAllocated;
    }
  }
}
