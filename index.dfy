/** The spatial index as the particle simulation holds it: two arrays allocated once for
    the particle count and rebuilt in place every frame, and the neighbour scans of
    calculateDensity and calculatePressureForce that read them.

    The rebuild's parallel loops write one distinct slot per iteration, so they are
    modelled as sequential loops. Particle positions enter as cell coordinates: the
    float division that produces them is CellHashing.CellCoord. */
module Index {
  import opened Wrappers
  import opened CellHashing
  import opened Lookup
  import opened Sorting

  class SpatialIndex {
    /** `numParticles`, fixed when the arrays are allocated. */
    const numParticles: int
    /** `spatialLookup`: one entry per particle, sorted by key after a rebuild. */
    const spatialLookup: array<Entry>
    /** `startIndices`: for each key, where its run of entries begins. */
    const startIndices: array<U32>

    ghost predicate Valid() {
      0 < numParticles <= IntMax
      && spatialLookup.Length == numParticles
      && startIndices.Length == numParticles
    }

    /** The allocation in Start: both arrays have one zeroed slot per particle. */
    constructor (n: int)
      requires 0 < n <= IntMax
      ensures Valid() && numParticles == n
      ensures fresh(spatialLookup) && fresh(startIndices)
      ensures forall p :: 0 <= p < n ==> spatialLookup[p] == Entry(0, 0, 0) && startIndices[p] == 0
    {
      numParticles := n;
      spatialLookup := new Entry[n](_ => Entry(0, 0, 0));
      startIndices := new U32[n](_ => 0);
    }

    /** updateSpatialLookup, given the cell of every particle: fill one entry per particle
        and reset every start slot, sort the entries by key, then record where each key's
        run begins. Afterwards the lookup is a sorted permutation of the particles' entries
        and every start slot holds its key's run start, or `int.MaxValue` for a key no
        particle has. */
    method UpdateSpatialLookup(cells: seq<Cell>)
      requires Valid() && |cells| == numParticles
      modifies spatialLookup, startIndices
      ensures Indexed(spatialLookup[..], startIndices[..], cells)
    {
      FillEntries(cells);
      SortByKey(spatialLookup);
      PermutedEntriesKeyed(spatialLookup[..], cells);
      RecordRunStarts();
    }

    /** The first parallel loop of updateSpatialLookup: particle i's entry goes to slot i,
        and every start slot is reset to `int.MaxValue`. */
    method FillEntries(cells: seq<Cell>)
      requires Valid() && |cells| == numParticles
      modifies spatialLookup, startIndices
      ensures spatialLookup[..] == Entries(cells)
      ensures forall k :: 0 <= k < numParticles ==> startIndices[k] == NoStart
    {
      var n := numParticles;
      for i := 0 to n
        invariant forall p :: 0 <= p < i ==> spatialLookup[p] == EntryFor(cells, p)
        invariant forall p :: 0 <= p < i ==> startIndices[p] == NoStart
      {
        var cellHash := CellHash(cells[i]);
        var cellKey := KeyFromHash(cellHash, n);
        spatialLookup[i] := Entry(i, cellHash, cellKey);
        startIndices[i] := NoStart;
      }
    }

    /** The second parallel loop of updateSpatialLookup, over the sorted lookup: an entry
        whose key differs from its predecessor's (`int.MaxValue` before entry 0) records
        its position as that key's start. Every key's slot ends up holding its run start;
        a key no entry carries keeps the reset value. */
    method RecordRunStarts()
      requires Valid() && SortedByKey(spatialLookup[..])
      requires forall p :: 0 <= p < numParticles ==> spatialLookup[p].key < numParticles
      requires forall k :: 0 <= k < numParticles ==> startIndices[k] == NoStart
      modifies startIndices
      ensures forall k :: 0 <= k < numParticles ==> startIndices[k] == RunStart(spatialLookup[..], k)
    {
      var n := numParticles;
      ghost var sorted := spatialLookup[..];
      for i := 0 to n
        invariant forall k :: 0 <= k < n ==> startIndices[k] == RunStart(sorted[..i], k)
      {
        var key := spatialLookup[i].key;
        var keyPrev := if i == 0 then NoStart else spatialLookup[i - 1].key;
        if key != keyPrev {
          startIndices[key] := i;
        }
        forall k | 0 <= k < n
          ensures startIndices[k] == RunStart(sorted[..i + 1], k)
        {
          RunStartExtend(sorted, i, k);
        }
      }
      assert sorted[..n] == sorted;
    }

    /** One cell of both scans: hash the cell, take its key's run start from the start
        table and scan the run. On a consistent lookup it returns exactly the accepted
        entries' particles, in lookup order. */
    method ScanCell(cell: Cell, skip: Option<int>) returns (visited: seq<U32>)
      requires Valid()
      ensures skip.Some? ==> skip.value !in visited
      ensures Consistent(spatialLookup[..], startIndices[..], numParticles)
              ==> visited == Matches(spatialLookup[..], CellHash(cell), skip)
    {
      var n := numParticles;
      var cellHash := CellHash(cell);
      var cellKey := KeyFromHash(cellHash, n);
      var start := startIndices[cellKey];
      var stop := start;
      visited := [];
      if start < n {
        visited, stop := ScanRun(start, cellHash, cellKey, skip);
      }
      if Consistent(spatialLookup[..], startIndices[..], n) {
        ghost var s := spatialLookup[..];
        HashFixesKey(s, startIndices[..], n, cellHash);
        assert start == RunStart(s, cellKey);
        if start >= n {
          AbsentKeyNoMatches(s, cellHash, cellKey, skip);
        } else {
          RunHoldsMatches(s, cellHash, cellKey, start, stop, skip);
        }
      }
    }

    /** The inner loop of both scans, entered at a run start below the particle count:
        stop at the end of the lookup or at the first entry of another key, skip entries
        of another hash and, in the pressure scan, the queried particle itself. It returns
        the accepted entries' particles and the position where it stopped. */
    method ScanRun(start: U32, cellHash: U32, cellKey: U32, skip: Option<int>)
      returns (visited: seq<U32>, stop: int)
      requires Valid() && start < numParticles
      ensures skip.Some? ==> skip.value !in visited
      ensures start <= stop <= numParticles
      ensures visited == Matches(spatialLookup[start..stop], cellHash, skip)
      ensures AllKeyed(spatialLookup[start..stop], cellKey)
      ensures stop < numParticles ==> spatialLookup[stop].key != cellKey
    {
      var n := numParticles;
      var currIndex: int := start;
      visited := [];
      while currIndex < n
        invariant start <= currIndex <= n
        invariant visited == Matches(spatialLookup[start..currIndex], cellHash, skip)
        invariant AllKeyed(spatialLookup[start..currIndex], cellKey)
        invariant skip.Some? ==> skip.value !in visited
      {
        var entry := spatialLookup[currIndex];
        if entry.key != cellKey {
          break;
        }
        ghost var run := spatialLookup[start..currIndex];
        assert spatialLookup[start..currIndex + 1] == run + [entry];
        MatchesSnoc(run, entry, cellHash, skip);
        AllKeyedSnoc(run, entry, cellKey);
        if Accepted(entry, cellHash, skip) {
          visited := visited + [entry.index];
        }
        currIndex := currIndex + 1;
      }
      stop := currIndex;
    }

    /** The neighbour scan of calculateDensity around the cell of a position: the nine
        offset cells in table order, every particle in them (the kernel sum over them is
        not modelled). */
    method DensityScan(centre: Cell) returns (found: seq<U32>)
      requires Valid()
      ensures Consistent(spatialLookup[..], startIndices[..], numParticles)
              ==> found == NeighbourhoodMatches(spatialLookup[..], centre, None)
    {
      found := [];
      for i := 0 to 9
        invariant Consistent(spatialLookup[..], startIndices[..], numParticles)
                  ==> found == ScansOf(spatialLookup[..], NeighbourHashes(centre)[..i], None)
      {
        var visited := ScanCell(AddCell(centre, CellOffsets[i]), None);
        NeighbourHashAt(centre, i);
        ScansStep(spatialLookup[..], NeighbourHashes(centre), i, None);
        found := found + visited;
      }
      assert NeighbourHashes(centre)[..|CellOffsets|] == NeighbourHashes(centre);
    }

    /** The neighbour scan of calculatePressureForce for one particle: as DensityScan, but
        the particle never pairs with itself. */
    method PressureScan(particleIndex: int, centre: Cell) returns (found: seq<U32>)
      requires Valid()
      ensures particleIndex !in found
      ensures Consistent(spatialLookup[..], startIndices[..], numParticles)
              ==> found == NeighbourhoodMatches(spatialLookup[..], centre, Some(particleIndex))
    {
      found := [];
      for i := 0 to 9
        invariant particleIndex !in found
        invariant Consistent(spatialLookup[..], startIndices[..], numParticles)
                  ==> found == ScansOf(spatialLookup[..], NeighbourHashes(centre)[..i], Some(particleIndex))
      {
        var visited := ScanCell(AddCell(centre, CellOffsets[i]), Some(particleIndex));
        NeighbourHashAt(centre, i);
        ScansStep(spatialLookup[..], NeighbourHashes(centre), i, Some(particleIndex));
        found := found + visited;
      }
      assert NeighbourHashes(centre)[..|CellOffsets|] == NeighbourHashes(centre);
    }
  }
}
