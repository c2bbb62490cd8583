# Spatial-hash neighbour index of the particle simulation

`Particle.cs` is a 2D smoothed-particle fluid simulation. To find neighbours quickly it
keeps a spatial-hash index of the particles:

- Every particle falls into a grid cell (`calcCellCoord`). The cells are one smoothing radius
  wide, except row 0 and column 0: truncation toward zero makes those two radii wide.
- The cell's integer coordinates hash to a 32-bit value (`calcCellHash`).
- The hash is reduced modulo the particle count to a bucket key (`getKeyFromHash`).
- Every frame `updateSpatialLookup` rebuilds two arrays:
  - `spatialLookup` holds one `(particle, hash, key)` entry per particle, sorted by key;
  - `startIndices` holds, for each key, the position where that key's run of entries
    begins, or `int.MaxValue` when no entry has that key.
- `calculateDensity` and `calculatePressureForce` scan the nine cells around a particle
  (the `cellOffsets` table). For each cell they:
  - jump to the run start of the cell's key;
  - walk forward until the key changes;
  - skip entries of another hash (a different cell sharing the bucket);
  - in the pressure scan, also skip the particle itself.

This project models that index and proves what the simulation relies on:

- The hash is the exact value reduced modulo 2^32, whatever the 32-bit overflows.
- Keys are valid slots of the start table, and never equal the sentinel.
- After a rebuild the lookup is a key-sorted permutation of the particles' entries.
- Every start slot holds its key's first position, or the sentinel.
- One cell's scan returns exactly the particles whose cell has that hash.
- The nine offsets are the full 3x3 block and give nine different hashes. So a
  neighbourhood scan finds every particle of the 3x3 block of cells exactly once.
- The pressure scan never pairs a particle with itself.

Modules, one per file:

- `CellHashing` (hashing.dfy): C# `int`/`uint` as the subset types `I32`/`U32`; the
  unchecked wrap-around and the `(uint)` cast written out; the cell hash; the bucket
  key; the offset table; `int2` addition; `calcCellCoord` over the reals.
- `Lookup` (lookup.dfy): the entries as values; run starts; what a scan of one cell or
  of a neighbourhood finds; the counting lemmas.
- `Sorting` (sort.dfy): the in-place sort by key.
- `Index` (index.dfy): the class `SpatialIndex` holding the two arrays. It has the
  rebuild and the scans as methods over them.
- `Wrappers` (wrappers.dfy): an `Option` type.

## Model

| member | source | states |
|---|---|---|
| CellHashing.WrapI32 | Particle.cs:150 | unchecked `int` arithmetic: the result is an `int` congruent to the exact value modulo 2^32, and equal to it when the exact value fits |
| CellHashing.ToU32 | Particle.cs:150 | the `(uint)` cast keeps non-negative values and adds 2^32 to negative ones |
| CellHashing.CellHash | Particle.cs:148-151 | the cell hash computed with wrapping 32-bit multiplications and addition, then cast to `uint`, equals `(x*12289 + y*24593) mod 2^32` |
| CellHashing.KeyFromHash | Particle.cs:152-155 | for any positive particle count the key is below the count (a valid `startIndices` slot), is never `int.MaxValue`, and is the hash itself when the hash is below the count |
| CellHashing.OffsetsDistinct | Particle.cs:33-44 | every offset lies in {-1,0,1}x{-1,0,1} and no two table entries are equal |
| CellHashing.OffsetsCoverNeighbourhood | Particle.cs:33-44 | every offset of {-1,0,1}x{-1,0,1} is in the table |
| CellHashing.AddCell | Particle.cs:67 | `int2` addition is exact whenever the sum fits in `int` |
| CellHashing.AddCellHash | Particle.cs:67-68 | the hash of a wrapped `int2` sum equals the raw hash of the exact sum modulo 2^32 |
| CellHashing.ShiftedHash | Particle.cs:67-68 | the hash of the cell at any offset from the centre, computed with wrapping `int2` addition, equals `((x+dx)*12289 + (y+dy)*24593) mod 2^32` over the exact coordinates |
| CellHashing.NeighbourHash | Particle.cs:67-68 | the hash of the cell at offset i from the centre, computed with wrapping `int2` addition, equals the raw hash of the exact shifted coordinates modulo 2^32 |
| CellHashing.NeighbourHashes | Particle.cs:65-68 | the neighbourhood scan visits nine hashes, one per offset in table order; the i-th is `((x+dx_i)*12289 + (y+dy_i)*24593) mod 2^32` for the centre (x,y) and the i-th offset (dx_i,dy_i) |
| CellHashing.NeighbourHashesDistinct | Particle.cs:65-68 | for any centre cell, two different offsets give cells with different hashes |
| CellHashing.NeighbourHashListDistinct | Particle.cs:65-68 | no hash occurs twice among the nine hashes a neighbourhood scan visits |
| CellHashing.AdjacentCellInNeighbourhood | Particle.cs:65-68 | a cell at most one step from the centre on each axis has one of the nine hashes scanned |
| CellHashing.TruncateTowardZero | Particle.cs:146 | the `(int)` cast of a real drops the fraction toward zero: floor for non-negative values, ceiling for negative ones |
| CellHashing.CellCoord | Particle.cs:144-147 | the cell coordinate exists exactly when the radius is non-zero and both truncated quotients fit in `int` |
| CellHashing.OriginCellIsDoubleWidth | Particle.cs:144-147 | every point strictly within one radius of both axes falls in cell (0,0), so the cells around the origin are twice as wide |
| Lookup.EntryFor | Particle.cs:159-162 | the entry written for particle i carries index i, the hash `(x*12289 + y*24593) mod 2^32` of its cell, and a key below the particle count |
| Lookup.Entries | Particle.cs:158-164 | the fill loop produces one entry per particle; entry i carries index i and the hash of particle i's cell |
| Lookup.RunStart | Particle.cs:168-175 | the run start of key k is the sentinel exactly when no entry carries k; otherwise it is an in-range position holding k with no earlier position holding k |
| Lookup.RunStartExtend | Particle.cs:169-174 | in a key-sorted lookup, entry i becomes key k's start exactly when it carries k and is the first entry or follows another key; `int.MaxValue` stands before entry 0 |
| Lookup.MatchesPermutation | Particle.cs:166 | permuting the entries does not change the multiset of particles a scan accepts, so the unstable sort changes only the visiting order |
| Lookup.MatchesInParticleOrder | Particle.cs:158-164 | in the unsorted entries, particle x is accepted once if it is among the first m, has hash h and is not skipped, and otherwise not at all |
| Lookup.EachParticleOnce | Particle.cs:158-166 | a permutation of the particles' entries has one entry per particle, with that particle's own hash and key, and holds every particle's entry |
| Lookup.PermutedEntriesKeyed | Particle.cs:160-166 | after the sort every key still derives from its entry's hash and is below the particle count |
| Lookup.ScanFindsCellOnce | Particle.cs:70-73 | in a rebuilt lookup, a scan for hash h accepts particle x exactly once if x's cell has hash h and x is not skipped, and never otherwise |
| Lookup.AbsentKeyNoMatches | Particle.cs:70 | when no entry carries the cell's key, no entry has the cell's hash, so the sentinel start misses nothing |
| Lookup.RunHoldsMatches | Particle.cs:70-73 | in a key-sorted lookup, all entries of hash h lie in the run of h's key, so scanning only that run finds all of them |
| Lookup.NoMatchesPastRun | Particle.cs:72 | past the end of a key's run, no entry has a hash of that key, so breaking at the first other key loses nothing |
| Lookup.ScansCount | Particle.cs:65-73 | scanning several distinct hashes finds a particle once if its hash is among them and not at all otherwise |
| Lookup.QueryFindsNeighbourhood | Particle.cs:65-73 | in a rebuilt lookup, the nine scans find each non-skipped particle whose cell hash is one of the nine neighbourhood hashes exactly once, and nothing else |
| Lookup.QueryFindsAdjacent | Particle.cs:100-110 | in a rebuilt lookup, every particle of the 3x3 block of cells around the centre is found exactly once, unless it is the skipped particle |
| Sorting.Swap | Particle.cs:166 | two slots exchange their entries; every other slot and the multiset of entries are unchanged |
| Sorting.MinKeyFrom | Particle.cs:166 | returns a position in a[lo..] whose key is no greater than any key there |
| Sorting.SortByKey | Particle.cs:166 | afterwards the entries are in non-decreasing key order and are a permutation of the entries before |
| Index.SpatialIndex.constructor | Particle.cs:123-131 | both arrays have one zeroed slot per particle, for a particle count in (0, `int.MaxValue`] |
| Index.SpatialIndex.FillEntries | Particle.cs:158-164 | slot i holds particle i's entry, with its hash and key, and every start slot holds `int.MaxValue` |
| Index.SpatialIndex.RecordRunStarts | Particle.cs:168-175 | on a key-sorted lookup whose keys are in range, every start slot ends up holding its key's run start, and the sentinel for absent keys |
| Index.SpatialIndex.UpdateSpatialLookup | Particle.cs:156-176 | the lookup becomes a key-sorted permutation of the particles' entries, with keys that derive from their hashes, and every start slot holds its key's run start |
| Index.SpatialIndex.ScanRun | Particle.cs:70-73 | the inner loop returns the accepted entries from the start up to the stop position; every entry it passed carries the cell's key, and it stops at the first entry of another key or at the end, so the break is taken exactly there; the skipped particle is never returned |
| Index.SpatialIndex.ScanCell | Particle.cs:67-73 | on a consistent lookup, one cell's scan returns exactly the particles of the entries with the cell's hash, in lookup order; the skipped particle is never returned |
| Index.SpatialIndex.DensityScan | Particle.cs:61-80 | on a consistent lookup, the density scan visits exactly the particles found by scanning the nine neighbourhood hashes in table order |
| Index.SpatialIndex.PressureScan | Particle.cs:97-122 | as DensityScan but skipping the queried particle, which never appears in the result |

## Left out

- Smoothing kernels, density sums, pressure conversion, shared pressure and force
  accumulation are not modelled. They are single-precision floating point. The scans
  return the particles they visit instead of the float sums over them.
- Velocity and position integration, `resolveCollisions`, `Update`'s frame timing, the
  random direction and the line rendering are not modelled. They are floating point,
  engine I/O or random sources.
- The particle layout computed in `Start` is not modelled. It is float positions only.
  Its array allocation is modelled by the constructor.
- Index.SpatialIndex.constructor: requires a particle count in (0, `int.MaxValue`].
  `Start` divides by `(int)Mathf.Sqrt(numParticles)`, so a count of 0 throws there.
  A negative count throws at array allocation.
- `Parallel.For` is modelled as sequential loops. Every iteration writes its own slot:
  the fill loop slot i, the start-index loop only the first position of each run. So
  the order of iterations does not change the result.
- Sorting.SortByKey: is a selection sort, not .NET's introspective sort. Only the
  result is modelled: sorted by key and a permutation. Nothing is promised about the
  order of equal keys. The multiset of particles each scan finds is proved independent
  of it (Lookup.MatchesPermutation); the order they are visited in is not, and the
  density and pressure sums add their float terms in that order.
- CellHashing.CellCoord: models `calcCellCoord` over the reals, not single-precision
  floats. The cast's undefined results are modelled as no cell: a non-finite quotient,
  or a quotient outside `int`. The rebuild and the scans take each particle's cell
  directly, so float rounding of the division is not captured.
- Index.SpatialIndex.ScanCell, DensityScan and PressureScan: state their result only
  for a consistent lookup. That is the state a rebuild leaves, and the source calls
  the scans only after rebuilding. On other array contents they promise only that the
  skipped particle is not returned.
- Index.SpatialIndex.ScanRun: the loop body adds an accepted entry in one branch,
  where the source skips non-accepted entries with `continue`; the visited entries and
  the result are the same.
