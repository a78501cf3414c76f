# Elemental distributed matrices: index arithmetic, metadata and kernels

Elemental stores dense matrices over an r x c grid of p = r*c processes.
Each dimension of a matrix gets a distribution:

- `MC`: over the r process rows.
- `MR`: over the c process columns.
- `VC`, `VR`: over all p processes, in column-major or row-major rank order.
- `*`: replicated.
- `o`: on a single root.

Global index `i` of a dimension with alignment `a` and stride `s` belongs to the rank `(i + a) mod s`. A process whose rank has shift `(rank - a) mod s` holds the indices `shift, shift + s, shift + 2s, ...` in its local matrix. So each process holds `Length(n, shift, s)` of them.

This project models, in Dafny:

- **Index arithmetic** (module `Indexing`): `Shift`, the two `Length` forms, `MaxLength` and the owner/local/global maps. C++ truncating `/` and `%` are modelled explicitly as `CDiv` and `CMod`.
- **Grid ranks** (module `Grids`): the VC and VR linearisations, and the conversions between them.
- **`AbstractDistMatrix` metadata** (module `DistMatrices`):
  - a value `Meta` with one state-change function per operation;
  - a class `DistMatrix` whose methods change its fields exactly as those functions say.
  - Covered: shifts, `Empty`/`EmptyData`, `Resize`, the `Align*` family, `AlignAndResize`, `FreeAlignments`, `SetRoot`, `SetGrid`, `Attach`, `MakeConsistent`, `ShallowSwap`, the move constructor, the move assignment and the assertion helpers.
- **Communication as a whole-grid simulation.** The local matrices of all processes form a sequence indexed by rank. Broadcast, AllReduce, SendRecv and Scatter become functions over that sequence. `Distribute(L, A)` is the element-cyclic layout `L` of a global matrix `A`. The end-to-end lemmas state that the operations act on `Distribute(L, A)` as the global operation acts on `A`. Covered:
  - single-entry `Get`/`Set`/`Update` (module `DistEntries`);
  - `Get`/`Set`/`UpdateSubmatrix` (module `DistSubmatrices`);
  - `SumOver` and the diagonal transforms (module `DistLocalOps`).
- **Redistributions:**
  - the `[* ,MC]` class of the older API (module `StarMCMatrices`): alignment, views, `ResizeTo`, `Get`/`Set`, the trapezoid kernels, `SetToIdentity`, and assignment from `[* ,* ]`, `[* ,MC]`, `[MR,MC]` (both branches: the optional SendRecv over the process column, the AllGather over the process row and the unpack), `[MD,* ]`, `[* ,MD]`;
  - the `[MC,* ]` constructors and alignment rules (module `McStarMatrices`);
  - `[VR,* ]` (module `VRStarMatrices`): its strides, `AlignWith`, and assignment from `[VC,* ]`, `[VR,* ]` and `[o ,o ]`, including the partner, root and package arithmetic of each.
- **Local and distributed kernels:**
  - `MakeTriangular` (module `Triangular`);
  - `SetDiagonal` (module `Diagonals`);
  - `MakeIdentity`/`Identity` (module `Identities`);
  - `Diagonal` (module `DiagonalMatrices`);
  - `Hankel` (module `HankelMatrices`);
  - `Hanowa` (module `HanowaMatrices`);
  - `MaxNorm`, `HermitianMaxNorm`, `SymmetricMaxNorm` (module `MaxNorms`).
- **Pseudospectrum power iteration** (module `Pseudospectra`): the bookkeeping of the loop, as `Deflate`, `RestoreOrdering`, `FindConverged`, `CapEstimates`, the preimage and the iteration counters. The numerical solves are one abstract function.
- **Global environment state** (module `GlobalState`): the `Initialize`/`Finalize` counter, the block-size stack, the seed, `GetArgs`, `DefaultGrid` and the window minimum/maximum trackers.

How the model is set up:

- The element type is `int`. The norm estimates in the power iteration are `real`.
- Loop kernels that write buffers in place are methods over `array`/`array2`. Each is proved against a function of the old contents.
- Errors that the source raises through `LogicError`/`RuntimeError` are modelled as `Outcome.Fail(msg)` / `Result.Failure(msg)`, with the source's message. Messages the source formats from values are kept as their fixed text.
- Debug-only checks (the code under `#ifndef RELEASE`) are modelled as the debug build runs them:
  - a member that returns an `Outcome` or a `Result` fails with the check's message;
  - a member that returns nothing takes the check as a precondition. The `[* ,MC]` `AlignWith` requires a free row alignment, the `[* ,MC]` view methods also a matrix that stores no data, and the `[MC,* ]` `AlignWith` a free column alignment;
  - a release build skips these checks and goes on with the operation, so each `Fail` that stands for a debug check (for example in `VRStarMatrices.AlignWith` and `StarMC.ResizeTo`) describes the debug build only.
- The source's two API generations are each modelled against their own text:
  - `src/core/DistMatrix/Base_Star_MC.cpp` uses `_rowAlignment` and `LocalLength`;
  - `abstract.cpp` uses `rowAlign_` and `Length`.

## Model

| member | source | states |
|---|---|---|
| Indexing.CDiv | src/core/dist_matrix/abstract.cpp:651-653 | C++ truncating division: Euclidean division for a non-negative dividend, rounded toward zero for a negative one |
| Indexing.CMod | src/core/dist_matrix/abstract.cpp:651-653 | C++ remainder: sign follows the dividend, magnitude below the divisor, and `a == CDiv(a,b)*b + CMod(a,b)` |
| Indexing.CModZeroIff | src/core/dist_matrix/abstract.cpp:651-653 | the C++ test `a % b == 0` agrees with the Euclidean one for every sign of `a` |
| Indexing.Shift | include/elemental/core/indexing/decl.hpp:31-32 | a shift lies in [0, p) |
| Indexing.ShiftOwnsRank | include/elemental/core/indexing/decl.hpp:31-32 | shift + firstRank is congruent to the rank modulo p: the shift is the residue class the rank owns |
| Indexing.CShiftForm | src/core/DistMatrix/Base_Star_MC.cpp:1725 | the C++ form `(rank + p - firstRank) % p` equals Shift for in-range ranks |
| Indexing.LengthIndex | include/elemental/core/indexing/decl.hpp:22-23 | local index k exists on a process of shift s exactly when its global index s + k*p is below n |
| Indexing.LengthCountsOwnedIndices | include/elemental/core/indexing/decl.hpp:22-23 | Length(n, s, p) is the number of indices below n congruent to s modulo p |
| Indexing.LengthExact | include/elemental/core/indexing/decl.hpp:22-23 | Length is the least local index whose global index reaches n |
| Indexing.LengthStep | include/elemental/core/indexing/decl.hpp:22-23 | growing a dimension by index m adds one local entry, and only on the owner of m |
| Indexing.LengthMonotone | include/elemental/core/indexing/decl.hpp:22-23 | Length is monotone in n |
| Indexing.LengthFrom | include/elemental/core/indexing/decl.hpp:25-26 | the four-argument Length is the two-argument one at the rank's shift |
| Indexing.MaxLength | include/elemental/core/indexing/decl.hpp:28-29 | MaxLength(n, p) is the local length of shift 0, that is ceil(n/p) |
| Indexing.LengthAtMostMaxLength | include/elemental/core/indexing/decl.hpp:28-29 | no process holds more than MaxLength entries of a dimension |
| Indexing.IndexOwner | src/core/dist_matrix/abstract.cpp:612-614 | the owner `(i + align) % stride` of a non-negative index is a rank in [0, stride) |
| Indexing.LocalIffOwner | src/core/dist_matrix/abstract.cpp:651-653 | a process whose shift comes from its rank and the alignment holds index i exactly when it owns i |
| Indexing.LocalOfGlobal | src/core/dist_matrix/abstract.cpp:627-636 | LocalRow(shift + k*stride) == k: local to global and back is the identity |
| Indexing.GlobalOfLocal | src/core/dist_matrix/abstract.cpp:627-636 | a local global index is recovered from its local index |
| Indexing.ViewOffset | src/core/DistMatrix/Base_Star_MC.cpp:300-332 | the parent's local index Length(j, sA, p) denotes the first index of a view at offset j held by this process |
| Indexing.ViewShift | src/core/DistMatrix/Base_Star_MC.cpp:300-332 | under the view alignment (align + j) % p a rank's shift is the parent's moved back by j |
| Indexing.ViewSplit | src/core/DistMatrix/Base_Star_MC.cpp:300-332 | the parent's local indices below i0 + h split into those before the view and the view's own |
| Indexing.ViewIndex | src/core/DistMatrix/Base_Star_MC.cpp:300-332 | view local index k is parent local index Length(i0, s, p) + k, and both denote the same global index |
| Grids.Grid.VCRank | include/elemental/core/grid/decl.hpp:37 | the column-major rank MCRank + MRRank*r lies in [0, p) |
| Grids.Grid.VRRank | include/elemental/core/grid/decl.hpp:38 | the row-major rank MRRank + MCRank*c lies in [0, p) |
| Grids.VCToVRSameProcess | src/core/dist_matrix/vr_star.cpp:221 | the VC-to-VR conversion maps a process's VC rank to its own VR rank, and the VR-to-VC conversion back |
| Grids.VCToVRBijection | src/core/DistMatrix/Base_Star_MC.cpp:1361 | the two rank conversions are mutually inverse bijections of [0, r*c) |
| DistEntries.RankSplit | src/core/dist_matrix/abstract.cpp:622-624 | a distribution rank splits into a column rank and a row rank |
| DistEntries.OwnerIsProcess | src/core/dist_matrix/abstract.cpp:622-624 | the owner of an entry is a process of the mesh |
| DistEntries.HoldsIffOwner | src/core/dist_matrix/abstract.cpp:612-663 | process q holds entry (i, j) exactly when q is its owner |
| DistEntries.LocalRowInRange | src/core/dist_matrix/abstract.cpp:627-636 | a local row of q maps back to its global row, and lies in local storage iff the global row is below the height |
| DistEntries.LocalColInRange | src/core/dist_matrix/abstract.cpp:639-648 | the same for columns |
| DistEntries.GlobalInRange | src/core/dist_matrix/abstract.cpp:627-648 | every local entry of q is a global entry inside the matrix that q holds, at that local index |
| DistEntries.RowMatch | src/core/dist_matrix/abstract.cpp:627-636 | a local row is global row i exactly when i is local there with that local index |
| DistEntries.ColMatch | src/core/dist_matrix/abstract.cpp:639-648 | the same for columns |
| DistEntries.TargetRow | include/elemental/blas-like/level1/SetDiagonal.hpp:65-73 | the kernels' test `i < height && i % colStride == colShift` finds exactly the local row holding global row i, at `(i - colShift)/colStride` |
| DistEntries.DistributeHoldsEntry | src/core/dist_matrix/abstract.cpp:612-663 | every global entry appears in the distributed matrix on its owner at its local indices |
| DistEntries.GetDistributed | src/core/dist_matrix/abstract.cpp:712-734 | Get of a distributed A returns A(i, j) on every process |
| DistEntries.WriteOnProcessAt | src/core/dist_matrix/abstract.cpp:792-806 | after a single-entry write, the owner's written entry is the written global entry and every other local entry is unchanged |
| DistEntries.WriteAllDistributed | src/core/dist_matrix/abstract.cpp:792-857 | writing one entry on its owner distributes the global matrix with that entry written and nothing else |
| DistEntries.SetDistributed | src/core/dist_matrix/abstract.cpp:792-806 | Set on a distributed A gives A with (i, j) set, distributed |
| DistEntries.UpdateDistributed | src/core/dist_matrix/abstract.cpp:843-857 | Update on a distributed A gives A with value added at (i, j), distributed |
| DistEntries.Get | src/core/dist_matrix/abstract.cpp:712-734 | one value per process; its value is A(i, j) on every process of a distributed A by GetDistributed, and on every process of the grid after the cross broadcast by GetEveryProcess |
| DistEntries.WriteOnProcess | src/core/dist_matrix/abstract.cpp:796-805 | the owner's local entry at ((i - colShift)/colStride, (j - rowShift)/rowStride) is written and nothing else changes, by WriteOnProcessAt; the local shape is kept |
| DistEntries.WriteAll | src/core/dist_matrix/abstract.cpp:792-857 | every process's local write, keeping each shape; together they distribute the written global matrix, by WriteAllDistributed |
| DistEntries.Set | src/core/dist_matrix/abstract.cpp:792-806 | Set on every process, keeping the shapes; its effect is A with (i, j) replaced, distributed, by SetDistributed |
| DistEntries.Update | src/core/dist_matrix/abstract.cpp:843-857 | Update on every process, keeping the shapes; its effect is A with value added at (i, j), distributed, by UpdateDistributed |
| DistEntries.GlobalMap | src/core/dist_matrix/abstract.cpp:991-1032 | every entry of the result is F of its indices and the old entry |
| DistEntries.LocalMap | src/core/dist_matrix/abstract.cpp:991-1032 | every local entry of the result is F of its global indices and the old entry |
| DistEntries.LocalMapDistributed | src/core/dist_matrix/abstract.cpp:991-1032 | rewriting every local entry from its global indices rewrites the distributed matrix |
| DistEntries.ViewLayout | src/core/DistMatrix/Base_Star_MC.cpp:300-332 | a view keeps the mesh, takes the requested size, and its layout is valid |
| DistEntries.ViewRows | src/core/DistMatrix/Base_Star_MC.cpp:300-332 | a view's local rows are a contiguous run of the parent's, each one global offset i0 further down, and covering exactly the parent rows inside the view |
| DistEntries.ViewCols | src/core/DistMatrix/Base_Star_MC.cpp:311-325 | the same for columns |
| DistEntries.GetImagPartAsWritten | src/core/dist_matrix/abstract.cpp:762-789 | GetImagPart as written: one value per process; its value is the real part, by PartsDistributed, wrong whenever re != im, by GetImagPartAsWrittenIsWrong |
| DistEntries.GetImagPart | src/core/dist_matrix/abstract.cpp:762-789 | GetImagPart as intended: one value per process; its value is the imaginary part of A(i, j), by PartsDistributed and PartsEveryProcess |
| DistEntries.GetRealPart | src/core/dist_matrix/abstract.cpp:737-759 | GetRealPart: one value per process; its value is the real part of A(i, j), by PartsDistributed and PartsEveryProcess |
| DistEntries.PartsDistributed | src/core/dist_matrix/abstract.cpp:737-789 | on a distributed A every process reads the real and imaginary parts of A(i, j), and the as-written imaginary part is the real part |
| DistEntries.GetImagPartAsWrittenIsWrong | src/core/dist_matrix/abstract.cpp:780 | whenever an entry's real and imaginary parts differ, every process gets a wrong imaginary part from GetImagPart as written |
| DistEntries.CrossBroadcast | src/core/dist_matrix/abstract.cpp:732 | the broadcast over each cross communicator leaves every process with the value its cross-rank-root member held |
| DistEntries.GetEveryProcess | src/core/dist_matrix/abstract.cpp:712-734 | after the cross broadcast every process of the viewing grid, whatever it held, returns A(i, j) |
| DistEntries.PartsEveryProcess | src/core/dist_matrix/abstract.cpp:736-788 | after their cross broadcasts every process returns the real part and the intended imaginary part of A(i, j) |
| DistEntries.LayoutOf | src/core/dist_matrix/abstract.cpp:612-624 | the layout of a settled matrix has its sizes, alignments and strides |
| DistEntries.MetaIsLayoutAtRank | src/core/dist_matrix/abstract.cpp:612-663 | on a participating process the metadata's owner, shifts, locality tests, local indices and local extents are the layout's at its distribution rank |
| DistMatrices.Meta.PartialColStride | src/core/dist_matrix/abstract.cpp:686-703 | partial stride times partial union stride is the full column stride |
| DistMatrices.Meta.PartialRowStride | src/core/dist_matrix/abstract.cpp:686-703 | the same for rows |
| DistMatrices.Meta.LocalRow | src/core/dist_matrix/abstract.cpp:627-636 | LocalRow succeeds exactly for a row this process holds |
| DistMatrices.Meta.LocalCol | src/core/dist_matrix/abstract.cpp:639-648 | LocalCol succeeds exactly for a column this process holds |
| DistMatrices.Meta.RowOwner | src/core/dist_matrix/abstract.cpp:612-614 | the process row `(i + colAlign) % colStride` lies in [0, colStride) for i + colAlign >= 0 |
| DistMatrices.Meta.ColOwner | src/core/dist_matrix/abstract.cpp:617-619 | the process column `(j + rowAlign) % rowStride` lies in [0, rowStride) for j + rowAlign >= 0 |
| DistMatrices.Meta.Owner | src/core/dist_matrix/abstract.cpp:622-624 | the owner RowOwner(i) + ColOwner(j)*colStride is a rank of the distribution communicator, [0, colStride*rowStride) |
| DistMatrices.Meta.IsLocalRow | src/core/dist_matrix/abstract.cpp:651-653 | the test `(i - colShift) % colStride == 0` on a participating process; once settled it holds exactly when RowOwner(i) is this process's column rank |
| DistMatrices.Meta.IsLocalCol | src/core/dist_matrix/abstract.cpp:656-658 | the column counterpart: exactly when ColOwner(j) is this process's row rank |
| DistMatrices.Meta.IsLocal | src/core/dist_matrix/abstract.cpp:661-663 | both tests; once settled it holds exactly on the participating process whose distribution rank is Owner(i, j) |
| DistMatrices.Meta.WithShifts | src/core/dist_matrix/abstract.cpp:1701-1714 | the state after SetShifts: both shifts from rank and alignment on a participating process, else 0; DistMatrix.SetShifts performs it |
| DistMatrices.Meta.WithColShift | src/core/dist_matrix/abstract.cpp:1717-1724 | the state after SetColShift; DistMatrix.SetColShift performs it |
| DistMatrices.Meta.WithRowShift | src/core/dist_matrix/abstract.cpp:1727-1734 | the state after SetRowShift; DistMatrix.SetRowShift performs it |
| DistMatrices.Meta.EmptiedAsWritten | src/core/dist_matrix/abstract.cpp:75-86 | the state Empty leaves as written, shifts untouched; stale by EmptyAsWrittenStaleShift |
| DistMatrices.Meta.Emptied | src/core/dist_matrix/abstract.cpp:75-86 | the corrected Empty state, a valid free 0 x 0 owner aligned at 0, by EmptiedValid; DistMatrix.Empty performs it |
| DistMatrices.Meta.DataEmptied | src/core/dist_matrix/abstract.cpp:89-96 | the state after EmptyData: a 0 x 0 owner with alignments and constraints kept; DistMatrix.EmptyData performs it |
| DistMatrices.Meta.WithGrid | src/core/dist_matrix/abstract.cpp:99-108 | the state after SetGrid; valid, and unchanged on the same grid, by WithGridValid |
| DistMatrices.Meta.Resized | src/core/dist_matrix/abstract.cpp:111-124 | the state after Resize; valid at the new size, by ResizedValid |
| DistMatrices.Meta.ResizeFails | src/core/dist_matrix/abstract.cpp:114-117 | Resize is refused exactly on a locked view; DistMatrix.Resize returns that failure |
| DistMatrices.Meta.Aligned | src/core/dist_matrix/abstract.cpp:206-221 | the state after Align; valid, both dimensions constrained, emptied exactly on a change, by AlignedValid |
| DistMatrices.Meta.AlignFails | src/core/dist_matrix/abstract.cpp:209-213 | Align is refused exactly on a view whose alignment would change; DistMatrix.Align returns that failure |
| DistMatrices.Meta.ColsAligned | src/core/dist_matrix/abstract.cpp:224-237 | the state after AlignCols; valid with the row side untouched, by ColsAlignedValid |
| DistMatrices.Meta.AlignColsFails | src/core/dist_matrix/abstract.cpp:227-231 | AlignCols is refused exactly on a view whose column alignment would change |
| DistMatrices.Meta.RowsAligned | src/core/dist_matrix/abstract.cpp:240-253 | the state after AlignRows; valid with the column side untouched, by RowsAlignedValid |
| DistMatrices.Meta.AlignRowsFails | src/core/dist_matrix/abstract.cpp:243-247 | AlignRows is refused exactly on a view whose row alignment would change |
| DistMatrices.Meta.AlignmentsFreed | src/core/dist_matrix/abstract.cpp:256-266 | the state after FreeAlignments; valid, by AlignmentsFreedValid; a view refuses, as DistMatrix.FreeAlignments states |
| DistMatrices.Meta.WithRoot | src/core/dist_matrix/abstract.cpp:269-280 | the state after SetRoot; valid, and unchanged on the same root, by WithRootValid |
| DistMatrices.Meta.SetRootFails | src/core/dist_matrix/abstract.cpp:272-276 | SetRoot is refused exactly for a root outside [0, CrossSize) |
| DistMatrices.Meta.AlignWithFails | src/core/dist_matrix/abstract.cpp:286-290 | AlignWith is refused exactly when an alignment is nonzero; DistMatrix.AlignWith returns that failure |
| DistMatrices.Meta.AlignColsWithFails | src/core/dist_matrix/abstract.cpp:298-302 | AlignColsWith is refused exactly when the column alignment is nonzero |
| DistMatrices.Meta.AlignRowsWithFails | src/core/dist_matrix/abstract.cpp:310-314 | AlignRowsWith is refused exactly when the row alignment is nonzero |
| DistMatrices.Meta.Adopted | src/core/dist_matrix/abstract.cpp:170-178 | the state a non-participant reaches from the broadcast, before its Resize; valid with exactly the broadcast metadata, by AdoptedValid |
| DistMatrices.Meta.ColsRealigned | src/core/dist_matrix/abstract.cpp:324-330 | an owner takes the column alignment when forced or unconstrained; settled, by RealignedSettled |
| DistMatrices.Meta.RowsRealigned | src/core/dist_matrix/abstract.cpp:331-335 | the row counterpart; settled, by RealignedSettled |
| DistMatrices.Meta.AlignedAndResized | src/core/dist_matrix/abstract.cpp:320-340 | the state after AlignAndResize; valid with the requested alignments where forced or free, by AlignedAndResizedValid |
| DistMatrices.Meta.AlignAndResizeFails | src/core/dist_matrix/abstract.cpp:337-339 | AlignAndResize fails exactly for a forced alignment a view cannot take, or a locked view at the Resize |
| DistMatrices.Meta.ColsAlignedAndResized | src/core/dist_matrix/abstract.cpp:344-356 | the state after AlignColsAndResize; valid, by ColsAlignedAndResizedValid |
| DistMatrices.Meta.AlignColsAndResizeFails | src/core/dist_matrix/abstract.cpp:353-355 | AlignColsAndResize fails exactly for a forced column alignment a view cannot take, or a locked view |
| DistMatrices.Meta.RowsAlignedAndResized | src/core/dist_matrix/abstract.cpp:360-372 | the state after AlignRowsAndResize; valid, by RowsAlignedAndResizedValid |
| DistMatrices.Meta.AlignRowsAndResizeFails | src/core/dist_matrix/abstract.cpp:369-371 | AlignRowsAndResize fails exactly for a forced row alignment a view cannot take, or a locked view |
| DistMatrices.Meta.Attached | src/core/dist_matrix/abstract.cpp:379-450 | the state after Attach or LockedAttach; a valid constrained view with the Length extents, by AttachedValid |
| DistMatrices.Initial | src/core/dist_matrix/abstract.cpp:20-29 | a new matrix is a valid, unviewed 0 x 0 owner |
| DistMatrices.OwnerInRange | src/core/dist_matrix/abstract.cpp:612-624 | Owner(i, j) lies in [0, ColStride*RowStride) |
| DistMatrices.LocalIffOwned | src/core/dist_matrix/abstract.cpp:651-658 | IsLocalRow(i) iff RowOwner(i) is the column rank, and likewise for columns |
| DistMatrices.EntryLocalIffOwner | src/core/dist_matrix/abstract.cpp:661-663 | IsLocal(i, j) iff Owner(i, j) is the distribution rank |
| DistMatrices.LocalOfGlobalIndex | src/core/dist_matrix/abstract.cpp:627-648 | LocalRow(colShift + k*colStride) == k and LocalCol(rowShift + k*rowStride) == k |
| DistMatrices.GlobalOfLocalRow | src/core/dist_matrix/abstract.cpp:1701-1714 | a local row maps back to its global row, and lies inside local storage iff i < height |
| DistMatrices.GlobalOfLocalCol | src/core/dist_matrix/abstract.cpp:1701-1714 | the same for columns |
| DistMatrices.EmptiedValid | src/core/dist_matrix/abstract.cpp:75-86 | Empty followed by SetShifts yields a valid, unconstrained, unviewed 0 x 0 matrix aligned at 0 |
| DistMatrices.ResizedValid | src/core/dist_matrix/abstract.cpp:111-124 | Resize turns a settled matrix into a valid one of the requested size |
| DistMatrices.AlignedValid | src/core/dist_matrix/abstract.cpp:206-221 | Align keeps the invariant, constrains both dimensions and empties exactly when an alignment changes |
| DistMatrices.ColsAlignedValid | src/core/dist_matrix/abstract.cpp:224-237 | AlignCols keeps the invariant and leaves the row alignment and constraint alone |
| DistMatrices.RowsAlignedValid | src/core/dist_matrix/abstract.cpp:240-253 | AlignRows keeps the invariant and leaves the column alignment and constraint alone |
| DistMatrices.AlignmentsFreedValid | src/core/dist_matrix/abstract.cpp:256-266 | FreeAlignments keeps the invariant |
| DistMatrices.WithGridValid | src/core/dist_matrix/abstract.cpp:99-108 | SetGrid keeps the invariant and changes nothing when the grid is the same |
| DistMatrices.WithRootValid | src/core/dist_matrix/abstract.cpp:269-280 | SetRoot keeps the invariant and changes nothing when the root is the same |
| DistMatrices.AdoptedValid | src/core/dist_matrix/abstract.cpp:143-200 | a non-participating process that adopts a broadcast describing a settled matrix becomes valid after Resize and carries exactly the broadcast metadata, unless it is a locked view |
| DistMatrices.CheckConsistent | src/core/dist_matrix/abstract.cpp:143-200 | a participating process's checks pass exactly when its own metadata is the broadcast |
| DistMatrices.RealignedSettled | src/core/dist_matrix/abstract.cpp:320-340 | realigning one dimension before the resize keeps a matrix settled |
| DistMatrices.AlignedAndResizedValid | src/core/dist_matrix/abstract.cpp:320-340 | AlignAndResize keeps the invariant; an owner gets the requested alignment in every forced or unconstrained dimension, and a view keeps its alignments |
| DistMatrices.ColsAlignedAndResizedValid | src/core/dist_matrix/abstract.cpp:344-356 | the same for AlignColsAndResize |
| DistMatrices.RowsAlignedAndResizedValid | src/core/dist_matrix/abstract.cpp:360-372 | the same for AlignRowsAndResize |
| DistMatrices.AttachedValid | src/core/dist_matrix/abstract.cpp:379-450 | Attach yields a constrained view whose local storage has the Length extents |
| DistMatrices.EmptyAsWrittenStaleShift | src/core/dist_matrix/abstract.cpp:75-86 | Empty as written leaves the shifts out of step with the reset alignment; after the next Resize the process owns the row whose index is its column rank without holding it |
| DistMatrices.EmptiedResizedHoldsOwnedRows | src/core/dist_matrix/abstract.cpp:75-86 | with the shifts recomputed, the owner of a row always holds it after a Resize |
| DistMatrices.AssertValidEntry | src/core/dist_matrix/abstract.cpp:1632-1639 | passes exactly for (i, j) in [0, height) x [0, width) |
| DistMatrices.ValidSubmatrixEntries | src/core/dist_matrix/abstract.cpp:1643-1654 | a non-empty submatrix passes iff its first and last entries are valid, and then every entry inside it is valid |
| DistMatrices.AssertValidSubmatrix | src/core/dist_matrix/abstract.cpp:1643-1652 | passes exactly for non-negative offsets and sizes whose block fits; negative offsets and negative sizes fail with the source's messages |
| DistMatrices.ConformingBlocksJoinLocally | src/core/dist_matrix/abstract.cpp:1741-1763 | conforming side-by-side blocks have equal local heights and column shifts; stacked blocks equal local widths and row shifts |
| DistMatrices.AssertConforming1x2 | src/core/dist_matrix/abstract.cpp:1741-1750 | passes exactly on equal heights and column alignments; unequal heights fail with "1x2 not conformant" |
| DistMatrices.AssertConforming2x1 | src/core/dist_matrix/abstract.cpp:1754-1763 | passes exactly on equal widths and row alignments; unequal widths fail with "2x1 is not conformant" |
| DistMatrices.AssertConforming2x2 | src/core/dist_matrix/abstract.cpp:1767-1782 | passes exactly when each block row shares height and column alignment and each block column width and row alignment; Conforming2x2Decomposes splits it |
| DistMatrices.Conforming2x2Decomposes | src/core/dist_matrix/abstract.cpp:1767-1782 | the 2x2 check is the 1x2 check on both block rows and the 2x1 check on both block columns |
| DistMatrices.DistMatrix.constructor | src/core/dist_matrix/abstract.cpp:20-29 | a new matrix is in the Initial state and valid |
| DistMatrices.DistMatrix.Moved | src/core/dist_matrix/abstract.cpp:31-43 | the move constructor takes A's metadata and leaves A with no local data |
| DistMatrices.DistMatrix.SetShifts | src/core/dist_matrix/abstract.cpp:1701-1714 | the new state is the old one with both shifts recomputed |
| DistMatrices.DistMatrix.SetColShift | src/core/dist_matrix/abstract.cpp:1717-1724 | the new state is the old one with the column shift recomputed |
| DistMatrices.DistMatrix.SetRowShift | src/core/dist_matrix/abstract.cpp:1727-1734 | the new state is the old one with the row shift recomputed |
| DistMatrices.DistMatrix.Empty | src/core/dist_matrix/abstract.cpp:75-86 | Empty with the shifts recomputed: the Emptied state, valid |
| DistMatrices.DistMatrix.EmptyAsWritten | src/core/dist_matrix/abstract.cpp:75-86 | Empty exactly as written: the shifts keep the old alignment's values |
| DistMatrices.DistMatrix.EmptyData | src/core/dist_matrix/abstract.cpp:89-96 | the new state is the old one as an owner of a 0 x 0 matrix with no local data; alignments and constraints are kept |
| DistMatrices.DistMatrix.SetGrid | src/core/dist_matrix/abstract.cpp:99-108 | the new state is WithGrid(g), and valid |
| DistMatrices.DistMatrix.Resize | src/core/dist_matrix/abstract.cpp:111-124 | fails exactly on a locked view and then changes nothing; otherwise the new state is the resized one, valid |
| DistMatrices.DistMatrix.Align | src/core/dist_matrix/abstract.cpp:206-221 | fails exactly on a view whose alignment would change, and then changes nothing; otherwise the new state is the aligned one; always valid |
| DistMatrices.DistMatrix.AlignCols | src/core/dist_matrix/abstract.cpp:224-237 | the same for AlignCols |
| DistMatrices.DistMatrix.AlignRows | src/core/dist_matrix/abstract.cpp:240-253 | the same for AlignRows |
| DistMatrices.DistMatrix.FreeAlignments | src/core/dist_matrix/abstract.cpp:256-266 | fails exactly on a view; otherwise both constraints are freed; always valid |
| DistMatrices.DistMatrix.SetRoot | src/core/dist_matrix/abstract.cpp:269-280 | fails exactly on a root outside [0, CrossSize), changing nothing; otherwise the root is set, keeping validity |
| DistMatrices.DistMatrix.AlignWith | src/core/dist_matrix/abstract.cpp:283-292 | fails exactly when an alignment is nonzero; otherwise adopts the grid; always valid |
| DistMatrices.DistMatrix.AlignColsWith | src/core/dist_matrix/abstract.cpp:295-304 | the same for the column alignment |
| DistMatrices.DistMatrix.AlignRowsWith | src/core/dist_matrix/abstract.cpp:307-316 | the same for the row alignment |
| DistMatrices.DistMatrix.AlignAndResize | src/core/dist_matrix/abstract.cpp:320-340 | fails exactly on a locked view or a forced alignment change of a view, and then changes nothing; otherwise the new state is AlignedAndResized; always valid |
| DistMatrices.DistMatrix.AlignColsAndResize | src/core/dist_matrix/abstract.cpp:344-356 | the same for the columns alone |
| DistMatrices.DistMatrix.AlignRowsAndResize | src/core/dist_matrix/abstract.cpp:360-372 | the same for the rows alone |
| DistMatrices.DistMatrix.Attach | src/core/dist_matrix/abstract.cpp:379-450 | the new state is the attached view, valid |
| DistMatrices.DistMatrix.MakeConsistent | src/core/dist_matrix/abstract.cpp:143-200 | a participating process only checks and changes nothing; any other process adopts the broadcast, failing exactly on a bad root or a locked view; on success the state is valid and matches the broadcast |
| DistMatrices.DistMatrix.TakeConsistency | src/core/dist_matrix/abstract.cpp:173-178 | view type, constraints and alignments are taken from the broadcast, the shifts recomputed, and nothing else changes |
| DistMatrices.DistMatrix.SetState | src/core/dist_matrix/abstract.cpp:1679-1695 | one side of ShallowSwap: every piece of metadata is replaced by m |
| DistMatrices.DistMatrix.MoveAssign | src/core/dist_matrix/abstract.cpp:55-72 | the move assignment: this matrix takes A's whole state, and A keeps its metadata but receives this matrix's old local matrix |
| DistMatrices.DistMatrix.ShallowSwap | src/core/dist_matrix/abstract.cpp:1679-1695 | the two matrices exchange their whole metadata |
| DistSubmatrices.FillOwnedEntries | src/core/dist_matrix/abstract.cpp:1052-1070 | a fresh m x n buffer holding, for each requested entry, the owner's value if this process holds it and 0 otherwise |
| DistSubmatrices.ContributionDistributed | src/core/dist_matrix/abstract.cpp:1052-1070 | on a distributed A exactly the owner contributes each requested entry |
| DistSubmatrices.SumOneHot | src/core/dist_matrix/abstract.cpp:1071-1074 | a sum whose terms are all 0 except the owner's is the owner's term |
| DistSubmatrices.GetSubmatrix | src/core/dist_matrix/abstract.cpp:1042-1077 | the AllReduce of every process's filled buffer, |rowInd| x |colInd|; its value is A's submatrix by GetSubmatrixDistributed |
| DistSubmatrices.GetSubmatrixDistributed | src/core/dist_matrix/abstract.cpp:1042-1077 | GetSubmatrix of a distributed A is the submatrix of A: ASub(a, b) == A(rowInd[a], colInd[b]) |
| DistSubmatrices.GetSubmatrixEveryProcess | src/core/dist_matrix/abstract.cpp:1050-1077 | with the other cross groups holding their zeroed buffers, after the cross broadcast every process holds A's submatrix |
| DistSubmatrices.LastIndex | src/core/dist_matrix/abstract.cpp:1194-1222 | the last position before k holding x, or -1 |
| DistSubmatrices.SetSubmatrixOnProcess | src/core/dist_matrix/abstract.cpp:1194-1222 | the local matrix becomes SetStage of its old contents: every requested entry held here is overwritten from ASub |
| DistSubmatrices.SetColumnOnProcess | src/core/dist_matrix/abstract.cpp:1204-1219 | one pass of the outer loop: the local matrix moves from stage jSub to stage jSub + 1 of SetStage |
| DistSubmatrices.SetColumnEntries | src/core/dist_matrix/abstract.cpp:1209-1218 | the inner loop over iSub on the local column holding colInd[jSub]: each held row gets ASub at its last requested position, other entries keep stage jSub |
| DistSubmatrices.SetSubmatrixDistributed | src/core/dist_matrix/abstract.cpp:1194-1222 | SetSubmatrix on every process of a distributed A distributes the updated global matrix |
| DistSubmatrices.SetThenGetSubmatrix | src/core/dist_matrix/abstract.cpp:1042-1222 | with no repeated indices, reading back what SetSubmatrix wrote returns ASub |
| DistSubmatrices.SetSubmatrixLeavesOthers | src/core/dist_matrix/abstract.cpp:1194-1222 | entries outside the named rows or columns keep their values |
| DistSubmatrices.UpdateSubmatrixOnProcess | src/core/dist_matrix/abstract.cpp:1292-1321 | every requested entry held here gains alpha ASub(a, b) |
| DistSubmatrices.UpdateSubmatrixDistributed | src/core/dist_matrix/abstract.cpp:1292-1321 | UpdateSubmatrix on every process of a distributed A distributes the updated global matrix |
| DistSubmatrices.UpdateSubmatrixDistinct | src/core/dist_matrix/abstract.cpp:1292-1321 | with no repeated indices, entry (rowInd[a], colInd[b]) grows by exactly alpha ASub(a, b) |
| DistLocalOps.ReducedMatrix | src/core/dist_matrix/abstract.cpp:1567-1602 | the reduced buffer holds the sum of the packed local matrix and the other members' |
| DistLocalOps.SumOver | src/core/dist_matrix/abstract.cpp:1567-1602 | a non-participating process changes nothing; a participating one ends with the sum over the communicator in its block, padding untouched |
| DistLocalOps.SumOverAgrees | src/core/dist_matrix/abstract.cpp:1567-1602 | every member ends with the same matrix, the sum over the whole communicator |
| DistLocalOps.MapLocalDiagonal | src/core/dist_matrix/abstract.cpp:991-1032 | f applied to exactly the local entries on the global diagonal |
| DistLocalOps.DiagonalOfColumn | src/core/dist_matrix/abstract.cpp:991-1010 | local column jLoc meets the global diagonal exactly when j < min(height, width) and row j is local, at j's local row |
| DistLocalOps.TransformDiagonal | src/core/dist_matrix/abstract.cpp:991-1032 | the MakeDiagonalReal/ConjugateDiagonal loop leaves MapLocalDiagonal of the old contents (the offset is ignored) |
| DistLocalOps.MapDiagonalDistributed | src/core/dist_matrix/abstract.cpp:991-1032 | transforming every process's local diagonal transforms the global diagonal |
| DistLocalOps.MapDiagonalCompose | src/core/dist_matrix/abstract.cpp:1013-1032 | two diagonal transforms are one by their composition |
| Locals.CopyColumns | src/core/dist_matrix/vr_star.cpp:229-236 | the h x w block of src is copied into dst and dst's padding is untouched |
| Locals.MemZero | include/elemental/blas-like/level1/MakeTriangular.hpp:25-42 | exactly the n slots from off become 0 |
| Locals.BufferWrite | include/elemental/blas-like/level1/MakeTriangular.hpp:25-42 | writing offset i0 + j0*ld changes entry (i0, j0) of the held block and nothing else |
| Locals.ZeroColumnRows | include/elemental/blas-like/level1/MakeTriangular.hpp:25-42 | rows lo..hi-1 of column jc become 0, every other entry and the padding unchanged |
| Locals.ZeroBlock | include/elemental/matrices/Diagonal.hpp:23 | the h x w block at (i0, j0) becomes 0, nothing else changes |
| Triangular.MakeTriangularLocal | include/elemental/blas-like/level1/MakeTriangular.hpp:17-43 | LOWER zeroes exactly i < j and UPPER exactly i > j; padding untouched |
| Triangular.RowsBefore | include/elemental/blas-like/level1/MakeTriangular.hpp:70-72 | local row iLoc lies above global row n exactly when iLoc < Length(n, colShift, colStride) |
| Triangular.TriangleColumn | include/elemental/blas-like/level1/MakeTriangular.hpp:61-91 | one local column: the Length-bounded run of local rows is zeroed, as the triangle says |
| Triangular.MakeTriangularDist | include/elemental/blas-like/level1/MakeTriangular.hpp:47-92 | the distributed loop zeroes exactly the local entries whose global indices are outside the triangle; padding untouched |
| Triangular.MakeTriangularDistributed | include/elemental/blas-like/level1/MakeTriangular.hpp:15-92 | distributed MakeTriangular of a distributed A is A's triangle, distributed |
| Triangular.MakeTriangularIdempotent | include/elemental/blas-like/level1/MakeTriangular.hpp:15-92 | zeroing a triangle twice changes nothing more |
| Triangular.LowerAfterUpperIsDiagonal | include/elemental/blas-like/level1/MakeTriangular.hpp:15-92 | LOWER after UPPER keeps only the diagonal |
| Diagonals.SetDiagonal | include/elemental/blas-like/level1/SetDiagonal.hpp:17-25 | the result is SetDiagonalOf the old contents at offset 0 |
| Diagonals.SetDiagonalOffset | include/elemental/blas-like/level1/SetDiagonal.hpp:29-52 | the result is SetDiagonalOf the old contents at that offset and side |
| Diagonals.SetDiagonalDistLoop | include/elemental/blas-like/level1/SetDiagonal.hpp:89-114 | the distributed loop writes alpha at exactly the local entries on the offset diagonal |
| Diagonals.SetDiagonalDist | include/elemental/blas-like/level1/SetDiagonal.hpp:56-74 | the distributed form without offset writes exactly the local entries on the main diagonal |
| Diagonals.SetDiagonalOffsetDist | include/elemental/blas-like/level1/SetDiagonal.hpp:80-115 | the distributed offset form writes exactly the local entries on the offset diagonal |
| Diagonals.SetDiagonalDistributed | include/elemental/blas-like/level1/SetDiagonal.hpp:89-114 | the distributed forms write exactly the global entries the local forms write |
| Diagonals.SetDiagonalEntries | include/elemental/blas-like/level1/SetDiagonal.hpp:17-25 | without offset exactly (j, j), j < min(height, width), become alpha |
| Diagonals.RightIsShiftedLeft | include/elemental/blas-like/level1/SetDiagonal.hpp:34-51 | a RIGHT diagonal of offset k is the LEFT one of offset k - (height - width) |
| Identities.MakeIdentity | include/elemental/matrices/Identity.hpp:19-27 | the matrix becomes the identity of its size |
| Identities.MakeIdentityDist | include/elemental/matrices/Identity.hpp:31-52 | 1 exactly at the local entries whose global row and column agree, 0 elsewhere |
| Identities.Identity | include/elemental/matrices/Identity.hpp:56-61 | a fresh m x n matrix holding the identity |
| Identities.IdentityDist | include/elemental/matrices/Identity.hpp:76-81 | the layout takes the size m x n and the fresh local matrix is this process's part of the identity |
| Identities.IdentityDistributed | include/elemental/matrices/Identity.hpp:17-52 | whatever a local matrix held, MakeIdentity leaves this process's part of the identity |
| Identities.IdentityIsUnitDiagonal | include/elemental/matrices/Identity.hpp:19-27 | the identity is the zero matrix with its main diagonal set to 1 |
| DiagonalMatrices.DiagonalInto | include/elemental/matrices/Diagonal.hpp:19-27 | the |d| x |d| block is zeroed and d is written on its diagonal; nothing else changes |
| DiagonalMatrices.Diagonal | include/elemental/matrices/Diagonal.hpp:19-27 | a fresh |d| x |d| matrix holding Diagonal(d) |
| DiagonalMatrices.DiagonalTest | include/elemental/matrices/Diagonal.hpp:53-61 | the test `(j - colShift + colStride) % colStride == 0` means j % colStride == colShift |
| DiagonalMatrices.ViewDiagonalColumn | include/elemental/matrices/Diagonal.hpp:53-61 | a view's local column is the parent's at the view offset, and meets the view's diagonal exactly at the target row |
| DiagonalMatrices.DiagonalIntoDist | include/elemental/matrices/Diagonal.hpp:42-62 | the distributed form writes exactly the local entries of the diagonal block, zero elsewhere in it |
| DiagonalMatrices.DiagonalDist | include/elemental/matrices/Diagonal.hpp:42-62 | the layout becomes |d| x |d| and the fresh local matrix is this process's part of Diagonal(d) |
| DiagonalMatrices.DiagonalDistributed | include/elemental/matrices/Diagonal.hpp:40-62 | whatever a local matrix held, Diagonal leaves this process's part of Diagonal(d) |
| DiagonalMatrices.DiagonalOfEntries | include/elemental/matrices/Diagonal.hpp:23-26 | D(j, j) == d[j] and every off-diagonal entry is 0 |
| DiagonalMatrices.DiagonalOfOnesIsIdentity | include/elemental/matrices/Diagonal.hpp:19-27 | the diagonal matrix of ones is the identity |
| HankelMatrices.Hankel | include/elemental/matrices/Hankel.hpp:17-28 | fails exactly when a has the wrong size, leaving A alone; otherwise a fresh m x n Hankel matrix of a |
| HankelMatrices.HankelDist | include/elemental/matrices/Hankel.hpp:43-66 | the same error; otherwise the layout becomes m x n and the local matrix is this process's part of the Hankel matrix |
| HankelMatrices.HankelFill | include/elemental/matrices/Hankel.hpp:51-65 | local (iLoc, jLoc) gets a at the sum of its global indices |
| HankelMatrices.HankelOf | include/elemental/matrices/Hankel.hpp:25-27 | the m x n matrix with a[i + j] at (i, j); constant along anti-diagonals by HankelAntiDiagonal, determining a by ReadHankelOf |
| HankelMatrices.HankelAntiDiagonal | include/elemental/matrices/Hankel.hpp:25-27 | entries are constant along anti-diagonals |
| HankelMatrices.ReadHankelOf | include/elemental/matrices/Hankel.hpp:25-27 | reading down the first column and along the last row recovers a: the matrix determines a |
| HanowaMatrices.Refill | include/elemental/matrices/Hanowa.hpp:28-41 | the vector d is filled with the values of f |
| HanowaMatrices.HanowaEntry | include/elemental/matrices/Hanowa.hpp:28-43 | the four Diagonal calls leave every entry equal to the Hanowa entry |
| HanowaMatrices.HanowaOf | include/elemental/matrices/Hanowa.hpp:25-43 | the n x n Hanowa matrix; the four Diagonal calls build it by HanowaEntry and HanowaBlocks, and it is mu on the diagonal and skew off it by HanowaSkew |
| HanowaMatrices.HanowaBlocks | include/elemental/matrices/Hanowa.hpp:28-43 | four Diagonal calls on the blocks give the Hanowa matrix |
| HanowaMatrices.Hanowa | include/elemental/matrices/Hanowa.hpp:19-44 | fails exactly for odd n, leaving A alone; otherwise a fresh n x n Hanowa matrix |
| HanowaMatrices.HanowaDist | include/elemental/matrices/Hanowa.hpp:59-84 | the same error; otherwise the layout becomes n x n and the local matrix is this process's part of the Hanowa matrix |
| HanowaMatrices.HanowaDistributed | include/elemental/matrices/Hanowa.hpp:57-84 | four distributed Diagonal calls give this process's part of the Hanowa matrix |
| HanowaMatrices.HanowaSkew | include/elemental/matrices/Hanowa.hpp:28-43 | the diagonal is mu and off it the matrix is skew-symmetric |
| MaxNorms.MaxNorm | include/elemental/lapack-like/props/Norm/Max.hpp:17-33 | the result bounds every absolute entry and is attained (0 for an empty matrix) |
| MaxNorms.MaxNormAttained | include/elemental/lapack-like/props/Norm/Max.hpp:21-32 | the norm of an empty matrix is 0 and of a non-empty one the absolute value of an entry |
| MaxNorms.IsMaxAbsUnique | include/elemental/lapack-like/props/Norm/Max.hpp:21-32 | the max norm is determined by the matrix and the scanned entries |
| MaxNorms.HermitianMaxNorm | include/elemental/lapack-like/props/Norm/Max.hpp:37-70 | fails exactly for a non-square matrix; otherwise the max norm over i <= j (UPPER) or i >= j (LOWER) |
| MaxNorms.SymmetricMaxNorm | include/elemental/lapack-like/props/Norm/Max.hpp:74-78 | the same as HermitianMaxNorm |
| MaxNorms.AllReduceMaxBounds | include/elemental/lapack-like/props/Norm/Max.hpp:100 | the reduced maximum bounds every value and is one of them or 0 |
| MaxNorms.AllReduceMax | include/elemental/lapack-like/props/Norm/Max.hpp:100 | AllReduce(MAX) over the per-process values is non-negative and bounds every one of them; it is one of them or 0 by AllReduceMaxBounds |
| MaxNorms.LocalMaxBounds | include/elemental/lapack-like/props/Norm/Max.hpp:86-103 | a scanned global entry is bounded by its owner's local value |
| MaxNorms.LocalMaxAttained | include/elemental/lapack-like/props/Norm/Max.hpp:86-103 | a nonzero local value is the absolute value of a scanned global entry |
| MaxNorms.MaxNormDistributed | include/elemental/lapack-like/props/Norm/Max.hpp:82-104 | the maximum of the local maxima is the global max norm |
| MaxNorms.MaxNormLocalPart | include/elemental/lapack-like/props/Norm/Max.hpp:82-104 | the local value is the max norm of the local matrix |
| MaxNorms.MaxNormEveryProcess | include/elemental/lapack-like/props/Norm/Max.hpp:88-103 | with the other cross groups holding norm = 0, after the cross broadcast every process, participating or not, returns the global max norm |
| MaxNorms.HermitianMaxNormLocalPart | include/elemental/lapack-like/props/Norm/Max.hpp:108-151 | fails exactly for a non-square matrix; otherwise the local max over local entries whose global indices are in the triangle |
| MaxNorms.SymmetricMaxNormLocalPart | include/elemental/lapack-like/props/Norm/Max.hpp:155-159 | the same as the distributed HermitianMaxNorm |
| Pseudospectra.SwapIsPermutation | include/elemental/lapack-like/props/Pseudospectrum/Power.hpp:239-243 | exchanging two positions of a permutation gives a permutation |
| Pseudospectra.SwapPermuted | include/elemental/lapack-like/props/Pseudospectrum/Power.hpp:239-243 | swapping a rearranged vector is rearranging by the swapped order |
| Pseudospectra.ComposeIsPermutation | include/elemental/lapack-like/props/Pseudospectrum/Power.hpp:232-246 | composed permutations are a permutation |
| Pseudospectra.RowSwap | include/elemental/lapack-like/props/Pseudospectrum/Power.hpp:239-242 | the vector with positions i and j exchanged |
| Pseudospectra.ColumnSwap | include/elemental/lapack-like/props/Pseudospectrum/Power.hpp:243 | the matrix with columns i and j exchanged |
| Pseudospectra.SwapAll | include/elemental/lapack-like/props/Pseudospectrum/Power.hpp:239-243 | the same exchange on all five objects keeps them rearranged by one common order |
| Pseudospectra.Deflate | include/elemental/lapack-like/props/Pseudospectrum/Power.hpp:216-251 | one permutation P of the active range rearranges shifts, preimage, estimates, counts and columns of X together; the converged items end up exactly in the last ZeroNorm positions of the active range |
| Pseudospectra.DeflateConvergedStep | include/elemental/lapack-like/props/Pseudospectrum/Power.hpp:232-246 | a converged item is exchanged with swapTo, which moves down |
| Pseudospectra.DeflateUnconvergedStep | include/elemental/lapack-like/props/Pseudospectrum/Power.hpp:232-246 | an unconverged item stays where it is |
| Pseudospectra.DeflateDone | include/elemental/lapack-like/props/Pseudospectrum/Power.hpp:232-246 | at the end the converged items fill exactly the tail of the active range |
| Pseudospectra.ScatteredDistinct | include/elemental/lapack-like/props/Pseudospectrum/Power.hpp:305-320 | with distinct targets each slot P[j] ends up holding vals[j] and others are untouched |
| Pseudospectra.RestoreUndoesPermutation | include/elemental/lapack-like/props/Pseudospectrum/Power.hpp:305-320 | scattering a vector rearranged by a permutation back through it restores the vector |
| Pseudospectra.RestoreOrdering | include/elemental/lapack-like/props/Pseudospectrum/Power.hpp:305-320 | out[preimage[j]] := in[j] for both arrays, reading from copies |
| Pseudospectra.Cap | include/elemental/lapack-like/props/Pseudospectrum/Power.hpp:119-131 | never above the cap, unchanged below it, the cap otherwise |
| Pseudospectra.CapIdempotent | include/elemental/lapack-like/props/Pseudospectrum/Power.hpp:119-131 | capping twice is capping once |
| Pseudospectra.CapEstimates | include/elemental/lapack-like/props/Pseudospectrum/Power.hpp:119-131 | the active estimates are capped and the rest untouched |
| Pseudospectra.FindConverged | include/elemental/lapack-like/props/Pseudospectrum/Power.hpp:140-171 | flag 1 exactly where the convergence test holds; the count of every unconverged active shift grows by one, others unchanged |
| Pseudospectra.Converged | include/elemental/lapack-like/props/Pseudospectrum/Power.hpp:159-163 | the convergence test: the estimate reached the cap, or it is nonzero and its relative change is at most maxDiff; FindConverged flags exactly these shifts |
| Pseudospectra.ConvergedAccounting | include/elemental/lapack-like/props/Pseudospectrum/Power.hpp:155-169 | the counts grow in total by the number of unconverged shifts |
| Pseudospectra.InitPreimage | include/elemental/lapack-like/props/Pseudospectrum/Power.hpp:360-367 | the preimage is 0, 1, ..., numShifts-1 |
| Pseudospectra.InitPreimageDist | include/elemental/lapack-like/props/Pseudospectrum/Power.hpp:556-568 | each local entry is this process's part of 0, 1, ..., height-1 |
| Pseudospectra.PreimageDistributed | include/elemental/lapack-like/props/Pseudospectrum/Power.hpp:556-568 | local entry jLoc of the distributed preimage is its global index |
| Pseudospectra.ZeroNormFull | include/elemental/lapack-like/props/Pseudospectrum/Power.hpp:399 | all flags set exactly when the count of nonzeros is full |
| Pseudospectra.EstimateNorms | include/elemental/lapack-like/props/Pseudospectrum/Power.hpp:389-394 | each active estimate is the norm of its original shift at this iteration, others untouched |
| Pseudospectra.EstimateStep | include/elemental/lapack-like/props/Pseudospectrum/Power.hpp:381-398 | active estimates become capped norms; counts grow exactly for the unconverged |
| Pseudospectra.DeflateStep | include/elemental/lapack-like/props/Pseudospectrum/Power.hpp:417-420 | after Deflate the order and iterations of the estimates follow its permutation, counts stay in [1, numIts + 2], and only counts of at most numIts + 1 are left outside the shorter active range |
| Pseudospectra.FinishStep | include/elemental/lapack-like/props/Pseudospectrum/Power.hpp:399-423 | numIts advances, numDone never shrinks with deflation, stop iff maxIts is reached or all are done, and the loop invariant holds again |
| Pseudospectra.PowerStep | include/elemental/lapack-like/props/Pseudospectrum/Power.hpp:381-423 | one pass: the same promises as FinishStep from an estimate step |
| Pseudospectra.PowerIterations | include/elemental/lapack-like/props/Pseudospectrum/Power.hpp:342-433 | stops at maxIts or when all are done; fails with the source's message exactly when not all converged; on success counts lie in [1, numIts] and every estimate is that of its own original shift |
| Pseudospectra.RestoreResults | include/elemental/lapack-like/props/Pseudospectrum/Power.hpp:428-431 | in the original order, counts in [1, numIts] and every estimate that of its own shift |
| Pseudospectra.RestoredEstimates | include/elemental/lapack-like/props/Pseudospectrum/Power.hpp:305-320 | undoing the deflation order puts the estimate of original shift i into slot i |
| Pseudospectra.StepCounts | include/elemental/lapack-like/props/Pseudospectrum/Power.hpp:155-169 | after FindConverged all counts lie in [1, numIts + 2] and converged ones are at most numIts + 1 |
| Pseudospectra.DeflatedCounts | include/elemental/lapack-like/props/Pseudospectrum/Power.hpp:232-246 | after Deflate only counts of at most numIts + 1 are left outside the shorter active range |
| Pseudospectra.DeflatedOrder | include/elemental/lapack-like/props/Pseudospectrum/Power.hpp:232-246 | Deflate rearranges preimage and shifts the same way, so the order follows |
| Pseudospectra.AllDoneCounts | include/elemental/lapack-like/props/Pseudospectrum/Power.hpp:399-423 | when all are done no count exceeds numIts + 1 |
| GlobalState.Seed | src/core/global.cpp:314-320 | the seed `(21 << 16) | (rank & 0xFFFF)` is 21*65536 plus the rank modulo 65536; two ranks share it exactly when they agree modulo 65536, by SeedsDistinct |
| GlobalState.SeedsDistinct | src/core/global.cpp:314-320 | two ranks share a seed exactly when they agree modulo 65536 |
| GlobalState.InitializeNested | src/core/global.cpp:225-234 | a repeated Initialize only increments the counter, and a Finalize undoes it |
| GlobalState.FirstInitialize | src/core/global.cpp:228-321 | the first successful Initialize leaves exactly [128] on the block-size stack |
| GlobalState.FinalizeOutcome | src/core/global.cpp:323-381 | Finalize fails exactly when the counter is not positive and then changes nothing; otherwise decrements it and clears the stack, grid and arguments only at zero |
| GlobalState.InitializedTimes | src/core/global.cpp:228-321 | k Initialize calls from the start give counter k and stack [128] |
| GlobalState.FinalizedTimes | src/core/global.cpp:323-381 | j Finalize calls after k Initialize calls leave counter k - j |
| GlobalState.Env.Initialize | src/core/global.cpp:228-321 | fails exactly on a first call after MPI was finalised; the counter becomes numInits + 1, or 1 on a first call, and the arguments object exists |
| GlobalState.Env.Finalize | src/core/global.cpp:323-381 | fails exactly when the counter is not positive and then changes nothing; otherwise the counter drops by one and stays initialised exactly when it was above 1 |
| GlobalState.Environment.Initialize | src/core/global.cpp:228-321 | the outcome and new state are the Env.Initialize step |
| GlobalState.Environment.Finalize | src/core/global.cpp:323-381 | the outcome and new state are the Env.Finalize step |
| GlobalState.Environment.Initialized | src/core/global.cpp:225-226 | true exactly when the counter is positive |
| GlobalState.Environment.GetArgs | src/core/global.cpp:383-388 | fails with the source's message exactly when no arguments object exists |
| GlobalState.Environment.DefaultGrid | src/core/global.cpp:402-412 | fails exactly when there is no default grid |
| GlobalState.Environment.Blocksize | src/core/global.cpp:390-391 | the top of the stack |
| GlobalState.Environment.SetBlocksize | src/core/global.cpp:393-394 | only the top of the stack is replaced |
| GlobalState.Environment.PushBlocksizeStack | src/core/global.cpp:396-397 | one entry is added on top |
| GlobalState.Environment.PopBlocksizeStack | src/core/global.cpp:399-400 | the top entry is removed |
| GlobalState.PushPop | src/core/global.cpp:390-400 | Push then Pop restores the stack, and Blocksize returns the value pushed or set |
| GlobalState.BoundsOf | src/core/global.cpp:156-222 | the running minimum and maximum bound every value seen and are among them |
| GlobalState.WindowBound.Get | src/core/global.cpp:156-186 | 0 before the first update, then the minimum or maximum of every value seen |
| GlobalState.WindowBound.Update | src/core/global.cpp:188-222 | the value is recorded in the history |
| StarMCMatrices.StarMCIndices | src/core/DistMatrix/Base_Star_MC.cpp:563-587 | in [* ,MC] every row is held at its own index and the columns of residue Shift(q, ra, r) |
| StarMCMatrices.StarMC.LocalExtents | src/core/DistMatrix/Base_Star_MC.cpp:543-559 | the local extents are those of the layout for this process's MC rank |
| StarMCMatrices.StarMC.AlignRows | src/core/DistMatrix/Base_Star_MC.cpp:120-141 | fails exactly for an alignment outside [0, r), changing nothing; otherwise the shift follows the MC rank, the row is constrained and the matrix is 0 x 0 |
| StarMCMatrices.StarMC.AlignWith | src/core/DistMatrix/Base_Star_MC.cpp:145-249 | requires a free row alignment (AssertFreeRowAlignment); the alignment and shift come from A's MC dimension, the matrix is constrained and 0 x 0 |
| StarMCMatrices.StarMC.View | src/core/DistMatrix/Base_Star_MC.cpp:253-296 | requires a free row alignment and no stored data (AssertFreeRowAlignment, AssertNotStoringData); the view takes A's sizes, alignment, shift and local matrix |
| StarMCMatrices.StarMC.ViewBlock | src/core/DistMatrix/Base_Star_MC.cpp:300-368 | requires a free row alignment, no stored data and a block inside A; alignment (A's + j) mod r, shift from it, local columns a contiguous run of A's from Length(j, A's shift, r), each one denoting A's column j further on |
| StarMCMatrices.StarMC.View1x2 | src/core/DistMatrix/Base_Star_MC.cpp:372-419 | requires a free row alignment, no stored data and equal heights; the widths and local widths add, and the combination is valid when AR's alignment continues AL's |
| StarMCMatrices.StarMC.View2x1 | src/core/DistMatrix/Base_Star_MC.cpp:423-475 | requires a free row alignment, no stored data and conforming blocks; the heights and local heights add, with AT's alignment |
| StarMCMatrices.StarMC.View2x2 | src/core/DistMatrix/Base_Star_MC.cpp:479-539 | requires a free row alignment, no stored data and conforming blocks; the four blocks combine with ATL's alignment |
| StarMCMatrices.StarMC.ResizeTo | src/core/DistMatrix/Base_Star_MC.cpp:543-559 | fails on a locked view first, then on negative sizes, changing nothing; otherwise local storage height x Length(width, shift, r), and a matrix that is not a view then stores data when that is not empty |
| StarMCMatrices.ViewBlockColumns | src/core/DistMatrix/Base_Star_MC.cpp:311-325 | the view layout is ViewLayout with parent offset Length(j, parent's shift, r) |
| StarMCMatrices.SideBySide | src/core/DistMatrix/Base_Star_MC.cpp:372-419 | the local widths of two adjoining blocks add up to that of their union |
| StarMCMatrices.EntryFormulas | src/core/DistMatrix/Base_Star_MC.cpp:563-609 | owner row (j + align) mod r and local column (j - shift)/r are the layout's owner and local index |
| StarMCMatrices.Get | src/core/DistMatrix/Base_Star_MC.cpp:563-587 | every process obtains A(i, j) |
| StarMCMatrices.SetOnProcess | src/core/DistMatrix/Base_Star_MC.cpp:591-609 | only the owner writes, at its local index of (i, j) |
| StarMCMatrices.Trapezoid | src/core/DistMatrix/Base_Star_MC.cpp:617-744 | each local entry is kept, scaled or zeroed as its global indices lie inside or outside the trapezoid |
| StarMCMatrices.ScaleKeepsSameEntries | src/core/DistMatrix/Base_Star_MC.cpp:617-744 | ScaleTrapezoidal scales exactly the entries MakeTrapezoidal keeps |
| StarMCMatrices.TrapezoidScaleCommute | src/core/DistMatrix/Base_Star_MC.cpp:617-744 | trapezoiding the scaled matrix is scaling the trapezoid |
| StarMCMatrices.TrapezoidalIdempotent | src/core/DistMatrix/Base_Star_MC.cpp:617-678 | MakeTrapezoidal is idempotent |
| StarMCMatrices.TrapezoidDistributed | src/core/DistMatrix/Base_Star_MC.cpp:617-744 | on a distributed matrix the kernel leaves this process's part of the trapezoid |
| StarMCMatrices.RowsInColumn | src/core/DistMatrix/Base_Star_MC.cpp:635-672 | rows lo..hi-1 of one local column are zeroed or scaled and nothing else changes |
| StarMCMatrices.TouchedRows | src/core/DistMatrix/Base_Star_MC.cpp:638-662 | the kernels' row bounds from lastZeroRow/firstZeroRow: a row of the column lies in them exactly when it is outside (zeroing) or inside (scaling) the trapezoid |
| StarMCMatrices.SetToIdentity | src/core/DistMatrix/Base_Star_MC.cpp:747-772 | the local matrix is this process's part of the identity: 1 exactly at (j, jLoc) with j = shift + jLoc*r < height |
| StarMCMatrices.FromStarStar | src/core/DistMatrix/Base_Star_MC.cpp:2079-2120 | local column jLoc is column shift + jLoc*r of A, so the result is this process's part of A |
| StarMCMatrices.CopyCyclicColumns | src/core/DistMatrix/Base_Star_MC.cpp:2101-2113 | local column jl becomes column shift + jl*stride of A, which lies inside A |
| StarMCMatrices.CopyColumn | src/core/DistMatrix/Base_Star_MC.cpp:2101-2113 | one local column becomes column jA of A and the other columns are unchanged |
| StarMCMatrices.CopiedColumns | src/core/DistMatrix/Base_Star_MC.cpp:2101-2113 | column-wise copies from the owned columns make the distributed part |
| StarMCMatrices.SendRank | src/core/DistMatrix/Base_Star_MC.cpp:1725 | the process row an unaligned copy sends to is in [0, r); it is the inverse rotation of RecvRank, by Rotations |
| StarMCMatrices.RecvRank | src/core/DistMatrix/Base_Star_MC.cpp:1726 | the process row it receives from is in [0, r); its shift matches the target shift, by Rotations and RealignedDistributed |
| StarMCMatrices.Rotations | src/core/DistMatrix/Base_Star_MC.cpp:1709-1726 | send and receive ranks are inverse rotations of [0, r), the partner's shift under A's alignment is my new shift, and equal alignments give the identity |
| StarMCMatrices.Realigned | src/core/DistMatrix/Base_Star_MC.cpp:1688-1792 | MC rank q ends with the local of its receive partner, one local per rank; its effect is A distributed at the new alignment, by RealignedDistributed |
| StarMCMatrices.RealignedDistributed | src/core/DistMatrix/Base_Star_MC.cpp:1688-1792 | realigning a distributed A gives A distributed with the new alignment |
| StarMCMatrices.UnpackCoversRowsOnce | src/core/DistMatrix/Base_Star_MC.cpp:1552-1570 | the aligned [* ,MC] = [MR,MC] unpack writes every row exactly once over the k < c process columns |
| StarMCMatrices.ProcessRowMember | src/core/DistMatrix/Base_Star_MC.cpp:1548-1559 | the member of MR rank k of a process row is a process of the [MR,MC] layout holding the rows of Shift(k, colAlignOfA, c) and that row's columns |
| StarMCMatrices.ProcessRowMembers | src/core/DistMatrix/Base_Star_MC.cpp:1548-1559 | the same for every k < c |
| StarMCMatrices.GatheredOverMR | src/core/DistMatrix/Base_Star_MC.cpp:1510-1634 | every gathered portion k has the local height of MR rank k under A's column alignment and the local width of the target row alignment |
| StarMCMatrices.AlignedGatherOwnRow | src/core/DistMatrix/Base_Star_MC.cpp:1510-1550 | with equal row alignments no SendRecv happens: MC rank m gathers its own process row's local matrices |
| StarMCMatrices.UnpackTarget | src/core/DistMatrix/Base_Star_MC.cpp:1552-1570 | local row i of portion k fills a row below the height whose portion and local row are k and i again |
| StarMCMatrices.PortionRow | src/core/DistMatrix/Base_Star_MC.cpp:1552-1570 | each target row is a row of the portion that holds it, of the local width |
| StarMCMatrices.UnpackRows | src/core/DistMatrix/Base_Star_MC.cpp:1552-1570 | the unpacked result is height x localWidth; its entries are every write of the unpack loop, by UnpackRowsWrites, each row written once, by UnpackCoversRowsOnce |
| StarMCMatrices.UnpackWrite | src/core/DistMatrix/Base_Star_MC.cpp:1566-1568 | one SetLocalEntry(colShift + i*c, j, data[i + j*localHeight]) of the loop is an entry of the result |
| StarMCMatrices.UnpackRowsWrites | src/core/DistMatrix/Base_Star_MC.cpp:1552-1570 | every write of the unpack loop lands inside the result and is what the result holds there |
| StarMCMatrices.FromMRMC | src/core/DistMatrix/Base_Star_MC.cpp:1466-1661 | the whole-grid [* ,MC] = [MR,MC], one local matrix per MC rank; its effect is A distributed [* ,MC], by FromMRMCDistributed |
| StarMCMatrices.FromMRMCRead | src/core/DistMatrix/Base_Star_MC.cpp:1552-1570 | entry (row, j) on MC rank m is entry (row / c, j) of the local matrix gathered from MR rank (row % c + colAlignOfA) % c of the SendRecv partner row |
| StarMCMatrices.FromMRMCSource | src/core/DistMatrix/Base_Star_MC.cpp:1550-1565 | that local matrix holds row `row` at local row row / c and the columns of m's target shift |
| StarMCMatrices.DistributeAt | src/core/DistMatrix/Base_Star_MC.cpp:1533-1546 | a packed local entry of the distributed A is A at that process's global indices |
| StarMCMatrices.FromMRMCEntry | src/core/DistMatrix/Base_Star_MC.cpp:1466-1661 | entry (row, j) on MC rank m is A(row, rowShift + j*r) |
| StarMCMatrices.FromMRMCDistributed | src/core/DistMatrix/Base_Star_MC.cpp:1466-1661 | aligned or not, [* ,MC] = [MR,MC] turns A distributed [MR,MC] into A distributed [* ,MC] under the target row alignment |
| StarMCMatrices.AssignFrom | src/core/DistMatrix/Base_Star_MC.cpp:1430-1464 | assignment fails exactly from [MD,* ] and [* ,MD] |
| McStarMatrices.AlignmentFrom | include/elemental/dist_matrix/mc_star.hpp:544-594 | the alignment taken lies in [0, r) |
| McStarMatrices.McStar.LocalExtents | include/elemental/dist_matrix/mc_star.hpp:356-424 | the local extents are those of the layout for this process's MC rank |
| McStarMatrices.McStar.Empty | include/elemental/dist_matrix/mc_star.hpp:348-355 | an empty matrix aligned at 0 whose shift is the MC rank in the grid and 0 outside |
| McStarMatrices.McStar.Sized | include/elemental/dist_matrix/mc_star.hpp:356-366 | aligned at 0, local height the MC rank's Length in the grid |
| McStarMatrices.McStar.Aligned | include/elemental/dist_matrix/mc_star.hpp:367-376 | shift Shift(MCRank, align, r) in the grid, 0 outside |
| McStarMatrices.McStar.SizedAligned | include/elemental/dist_matrix/mc_star.hpp:376-424 | shift Shift(MCRank, align, r) and local height its Length in the grid |
| McStarMatrices.McStar.AlignWith | include/elemental/dist_matrix/mc_star.hpp:445-594 | distributions without MC or VC change nothing; otherwise it requires a free column alignment (AssertFreeColAlignment), and the alignment becomes AlignmentFrom, constrained, size 0 x 0, local storage cleared only in the grid |
| McStarMatrices.McStar.AlignRowsWith | include/elemental/dist_matrix/mc_star.hpp:191-192 | changes nothing |
| McStarMatrices.McStar.CopyFrom | include/elemental/dist_matrix/mc_star.hpp:425-441 | fails exactly when copying from itself; otherwise takes A's size, alignment and shift |
| McStarMatrices.VCOwnerInMCRow | include/elemental/dist_matrix/mc_star.hpp:544-594 | the VC owner of row i lies in the process row owning i under alignment a mod r |
| McStarMatrices.AlignedRowsAgree | include/elemental/dist_matrix/mc_star.hpp:544-594 | aligned with an MC source the rows land where A holds them; with a VC source on the process row of their VC owner |
| McStarMatrices.ComplexOnly | include/elemental/dist_matrix/mc_star.hpp:646-748 | fails with the source's message exactly on a real element type |
| VRStarMatrices.PartialColStride | src/core/dist_matrix/vr_star.cpp:493-499 | partial stride times partial union stride is the VR stride p |
| VRStarMatrices.VRRankSplit | src/core/dist_matrix/vr_star.cpp:487-499 | a VR rank splits into its MR rank and MC rank |
| VRStarMatrices.VROwnerInMRColumn | src/core/dist_matrix/vr_star.cpp:455-465 | the VR owner of row i lies in the process column owning i under alignment a mod c |
| VRStarMatrices.AlignmentFor | src/core/dist_matrix/vr_star.cpp:455-465 | an alignment exists iff a dimension is MR or VR, taken from the column one first |
| VRStarMatrices.AlignWith | src/core/dist_matrix/vr_star.cpp:453-470 | moves to the grid of data and aligns the columns as AlignmentFor says, or fails when the alignment makes no sense; that failure is the debug build's check (455-465), and a release build moves to the grid and keeps the alignment instead |
| VRStarMatrices.SendRankRM | src/core/dist_matrix/vr_star.cpp:213-221 | the VR rank this process sends to is in [0, p) and needs exactly the rows this process holds, by VCToVRExchange |
| VRStarMatrices.RecvRankCM | src/core/dist_matrix/vr_star.cpp:213-221 | the VC rank it receives from is in [0, p) and holds the rows of this process's target shift, by VCToVRExchange and FromVCStarDistributed |
| VRStarMatrices.RetargetShift | src/core/dist_matrix/vr_star.cpp:213-221 | moving a rank by (p + target - its shift) lands on the rank of that shift |
| VRStarMatrices.ShiftInjective | src/core/dist_matrix/vr_star.cpp:213-221 | two ranks with the same shift are the same |
| VRStarMatrices.VCToVRExchange | src/core/dist_matrix/vr_star.cpp:213-221 | the VR rank I send to has as VR shift my VC shift of A, and the VC rank I receive from sends to me |
| VRStarMatrices.AssignFromVC | src/core/dist_matrix/vr_star.cpp:185-255 | resizes to A; a non-participating process stops there; a participating one exchanges with the partners the arithmetic gives |
| VRStarMatrices.AssignFromVR | src/core/dist_matrix/vr_star.cpp:267-340 | adopts A's alignment unless constrained and resizes; copies when alignments agree, else rotates with partners |
| VRStarMatrices.RootVRSameProcess | src/core/dist_matrix/vr_star.cpp:381-383 | the converted root is in [0, p) and names the process whose VC rank is the root |
| VRStarMatrices.RootVR | src/core/dist_matrix/vr_star.cpp:381-383 | for a root in [0, p) the converted root is a rank of [0, p) that the VR-to-VC conversion maps back to the root |
| VRStarMatrices.AssignFromCirc | src/core/dist_matrix/vr_star.cpp:365-441 | resizes to A; the VR root packs and scatters, every other participating process receives |
| VRStarMatrices.LocalIsResidue | src/core/dist_matrix/vr_star.cpp:429-438 | a vector-layout local matrix is the residue class of its shift |
| VRStarMatrices.FromVCStarDistributed | src/core/dist_matrix/vr_star.cpp:185-255 | redistributing [VC,* ] to [VR,* ] gives the same matrix distributed as [VR,* ] |
| VRStarMatrices.FromVRStarDistributed | src/core/dist_matrix/vr_star.cpp:267-340 | rotating a [VR,* ] matrix gives it distributed with the new alignment |
| VRStarMatrices.AlignedCopyIsRotation | src/core/dist_matrix/vr_star.cpp:281-284 | with equal alignments the rotation is the identity, matching the local copy |
| VRStarMatrices.FromVCStar | src/core/dist_matrix/vr_star.cpp:185-255 | VR rank q ends with the [VC,* ] local of its receive partner, one local per rank; its effect is A distributed as [VR,* ], by FromVCStarDistributed |
| VRStarMatrices.FromVRStar | src/core/dist_matrix/vr_star.cpp:267-340 | rank q ends with the local of its rotation partner; its effect is A distributed at the new alignment, by FromVRStarDistributed |
| VRStarMatrices.Pack | src/core/dist_matrix/vr_star.cpp:229-236 | the local block is copied unchanged into a dense buffer |
| VRStarMatrices.Unpack | src/core/dist_matrix/vr_star.cpp:244-252 | the dense block is copied unchanged into the local buffer, padding untouched |
| VRStarMatrices.PackageOf | src/core/dist_matrix/vr_star.cpp:403 | the package index is a rank in [0, p); packages and shifts correspond one to one, by PackageBijection |
| VRStarMatrices.PackageBijection | src/core/dist_matrix/vr_star.cpp:403 | package q goes to the process whose shift is s, one to one |
| VRStarMatrices.PackagesDisjoint | src/core/dist_matrix/vr_star.cpp:387-413 | offsets of distinct packages never meet |
| VRStarMatrices.PackPackage | src/core/dist_matrix/vr_star.cpp:400-413 | one package holds the residue rows column-major; nothing outside it changes |
| VRStarMatrices.PackColumn | src/core/dist_matrix/vr_star.cpp:406-411 | column j of one package is packed: the packed prefix grows by Length(m, s, p) entries and nothing outside that run changes |
| VRStarMatrices.PackCirc | src/core/dist_matrix/vr_star.cpp:387-413 | every package q holds the rows of the shift that process q owns |
| VRStarMatrices.ScatteredPackage | src/core/dist_matrix/vr_star.cpp:415-438 | the package handed to VR rank q, unpacked, is q's [VR,* ] local matrix of A |

## Left out

- MPI transport is not modelled as messages. Broadcast, AllReduce, SendRecv, Scatter, AllGather and Barrier are functions over the sequence of all processes' local matrices. Those functions carry no concurrency, no blocking and no communicator objects.
- The whole-grid sequences hold one local matrix per rank of the distribution communicator, that is, the root's cross group only. The closing `Broadcast(…, Root(), CrossComm())` of `Get`, `GetRealPart`, `GetImagPart`, `GetSubmatrix` and `MaxNorm` is modelled separately, by `DistEntries.CrossBroadcast` and the `…EveryProcess` lemmas, over a grid of cross rank by distribution rank. Processes outside the grid (`InGrid()` false) are not modelled.
- The alignment step of `[* ,MC] = [MR,MC]` (`src/core/DistMatrix/Base_Star_MC.cpp`:1498-1508: an unconstrained matrix that is not a view takes A's row alignment, then `ResizeTo`) is not a member of its own. `StarMCMatrices.FromMRMC` takes the row alignment that step leaves as a parameter.
- The `Grid` implementation is declaration-only (`include/elemental/core/grid/decl.hpp`). Its rank layout is taken as the definitions `VC = MCRank + MRRank*r` and `VR = MRRank + MCRank*c`.
- `SetGrid` compares grid pointers; the model compares grid values.
- Floating-point numerics are not modelled:
  - `MultiShiftTrsm`, `FixColumns` and `ColumnNorms` in the power iteration are one abstract function `norms` of the iteration and the original shift;
  - the NaN branch of `CapEstimates` is not modelled;
  - the convergence test is stated over `real`.
- The complex element type is not modelled. `T` is `int`; only the `GetImagPart` discrepancy is modelled, on a small complex record.
  - The complex accessors (`SetRealPart`, `MakeReal`, `Conjugate` and their local forms) are not modelled.
  - `MakeDiagonalReal` and `ConjugateDiagonal` are one loop over an arbitrary entry transform `f`.
- The debug call stack is left out.
- Debug-only assertions are modelled as the debug build runs them. In members that return nothing they are preconditions; in members that return an outcome they are failures. What a release build does instead is not modelled.
- The OpenMP pragmas and the `RELEASE` `memcpy` branches are left out; they perform the same writes as the loops modelled.
- The `Print` methods, `PrintVersion`, `PrintConfig`, the Qt parts of `src/core/global.cpp`, the MPI initialisation calls inside `Initialize`, the MPI type and operator teardown and `mpi::Finalize` inside `Finalize` (`src/core/global.cpp`:340-363), and the warning `Finalize` prints to standard error when MPI was finalized first (330-334) are left out. Whether MPI is initialised or finalised is a parameter.
- The per-routine blocksize setters of `src/core/global.cpp` (418-562) are left out. They only store a value.
- `SetToRandom*` and `SumOverRow` in `src/core/DistMatrix/Base_Star_MC.cpp` are left out: they are randomness and an MPI reduction.
- Some `[* ,MC]` redistributions of `src/core/DistMatrix/Base_Star_MC.cpp` are left out: from `[VC,* ]`, `[MC,MR]`, `[MC,* ]`, `[* ,MR]`, `[MR,* ]`, `[* ,VC]`, `[VR,* ]` and `[* ,VR]`, Their shape repeats the modelled ones (partner rotation, pack, exchange, unpack), over other communicators.
- StarMCMatrices.StarMC.AlignRows: the debug check that the alignment is not already constrained is not modelled.
- StarMCMatrices.StarMC.View: the unlocked `View` checks the grid only when the matrix is already a view (`src/core/DistMatrix/Base_Star_MC.cpp`:260-261). The model requires the same grid in every case, because a `StarMC` keeps its grid for its whole life.
- StarMCMatrices.StarMC.ResizeTo: the old base class's `AssertNotLockedView` is not part of this model. Its failure carries the message of `AbstractDistMatrix::AssertNotLocked` (`src/core/dist_matrix/abstract.cpp`:1618-1621). Whether the local matrix owns memory is one flag, `storing`, and not a memory size.
- DistMatrices.AssertValidEntry: the source's message also names the indices and the matrix size (`src/core/dist_matrix/abstract.cpp`:1636-1638). The model keeps only its fixed text, "Entry is out of bounds of the matrix".
- GlobalState.Env.Initialize: with OpenMP, a call after MPI was already initialised without `THREAD_MULTIPLE` support throws "MPI initialized with inadequate thread support for Elemental" (`src/core/global.cpp`:262-270). The thread level is not modelled, so neither is this error.
- The leading-dimension and buffer constructor forms of `[MC,* ]` share the shift and extents of `McStarMatrices.McStar.SizedAligned`. They are otherwise not modelled.
- In `src/core/dist_matrix/vr_star.cpp`, several parts are left out because they only delegate or only return a communicator:
  - the `operator=` overloads that go through an intermediate distribution (258-265, 342-353, 355-362);
  - the move assignment (443-449);
  - the communicator queries (477-490).
- `mpi::Pad` is left out: the package size of the `[o ,o ]` scatter is any size of at least `MaxLength(m, p) * n`.
- `auxMemory` is an ordinary fresh buffer.
- The distributed `FindConverged`, `Deflate` and `RestoreOrdering` of the power iteration (`Power.hpp`:173-214, 253-303, 322-340) are left out. They gather replicated copies, run the same loops as the sequential ones modelled, and write the copies back.
- `HessenbergPower` and the distributed `TriangularPower`/`HessenbergPower` drivers are left out.
- The loop bookkeeping they share with `TriangularPower` is what `Pseudospectra.PowerIterations` models.
- GlobalState.WindowBound.Update: the history of values is recorded; the running minimum/maximum is stated by `WindowBound.Get` over that history.

## Findings

| source | as written | input that shows it | evidently intended | confidence | as-written member | corrected member |
|---|---|---|---|---|---|---|
| src/core/dist_matrix/abstract.cpp:75-86 | `Empty` resets both alignments to 0 but does not recompute the shifts | a matrix with column alignment 1 on a grid with 2 process rows, emptied and resized to 2 x 1: the process of column rank 1 keeps shift 0, so it owns row 1 under the reset alignment but does not hold it | recompute the shifts after resetting the alignments | not executed | DistMatrices.EmptyAsWrittenStaleShift | DistMatrices.EmptiedResizedHoldsOwnedRows |
| src/core/dist_matrix/abstract.cpp:780 | `GetImagPart` reads `GetLocalRealPart` of the owner's entry | an entry 1 + 2i: every process receives 1 as its imaginary part | read `GetLocalImagPart` | not executed | DistEntries.GetImagPartAsWrittenIsWrong | DistEntries.PartsDistributed |
