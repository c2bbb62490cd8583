/** The contents of the spatial lookup as values: the entries the rebuild writes, the
    start of each key's run, and the particles a scan of one cell or of a 3x3
    neighbourhood finds. The arrays that hold them are in module Index. */
module Lookup {
  import opened Wrappers
  import opened CellHashing

  /** One `uint3` entry of `spatialLookup`: x is the particle index, y its cell hash,
      z the bucket key of that hash. */
  datatype Entry = Entry(index: U32, hash: U32, key: U32)

  /** The value `startIndices` keeps for a key no entry carries: `int.MaxValue`. It is at
      least the particle count, so a scan starting there visits nothing. */
  const NoStart: int := IntMax

  /** The entry the fill loop of updateSpatialLookup writes for particle i. */
  function EntryFor(cells: seq<Cell>, i: int): (e: Entry)
    requires 0 <= i < |cells| <= IntMax
    ensures e.index == i && e.key < |cells|
    ensures e.hash == RawHash(cells[i].x, cells[i].y) % 0x1_0000_0000
  {
    var h := CellHash(cells[i]);
    Entry(i, h, KeyFromHash(h, |cells|))
  }

  /** The entries of all particles, in particle order, before sorting. */
  function Entries(cells: seq<Cell>): (es: seq<Entry>)
    requires 0 < |cells| <= IntMax
    ensures |es| == |cells|
    ensures forall i :: 0 <= i < |es| ==> es[i].index == i && es[i].hash == CellHash(cells[i])
  {
    seq(|cells|, i requires 0 <= i < |cells| => EntryFor(cells, i))
  }

  /** Every entry of s carries key k: s lies inside k's run. */
  ghost predicate AllKeyed(s: seq<Entry>, k: int) {
    forall q :: 0 <= q < |s| ==> s[q].key == k
  }

  lemma AllKeyedSnoc(s: seq<Entry>, e: Entry, k: int)
    requires AllKeyed(s, k) && e.key == k
    ensures AllKeyed(s + [e], k)
  {
  }

  ghost predicate SortedByKey(s: seq<Entry>) {
    forall p, q :: 0 <= p < q < |s| ==> s[p].key <= s[q].key
  }

  /** Every entry carries the bucket key of its own hash. */
  ghost predicate KeysMatchHashes(s: seq<Entry>, n: int)
    requires 0 < n <= IntMax
  {
    forall p :: 0 <= p < |s| ==> s[p].key == KeyFromHash(s[p].hash, n)
  }

  /** The position where key k's run begins: the first entry carrying k, or NoStart when
      no entry does. */
  function RunStart(s: seq<Entry>, k: int): (p: int)
    requires |s| <= IntMax
    ensures p == NoStart <==> forall q :: 0 <= q < |s| ==> s[q].key != k
    ensures p != NoStart ==> 0 <= p < |s| && s[p].key == k
    ensures p != NoStart ==> forall q :: 0 <= q < p ==> s[q].key != k
  {
    if |s| == 0 then NoStart
    else if s[0].key == k then 0
    else
      var r := RunStart(s[1..], k);
      if r == NoStart then NoStart else r + 1
  }

  /** What a scan relies on: the entries are sorted by key, each key derives from the
      entry's hash, and every slot of the start table holds its key's run start. */
  ghost predicate Consistent(s: seq<Entry>, starts: seq<U32>, n: int) {
    0 < n <= IntMax && |s| == n && |starts| == n
    && SortedByKey(s) && KeysMatchHashes(s, n)
    && forall k :: 0 <= k < n ==> starts[k] == RunStart(s, k)
  }

  /** The state updateSpatialLookup leaves for the particles in the given cells: a
      consistent lookup whose entries are a permutation of the particles' entries. */
  ghost predicate Indexed(s: seq<Entry>, starts: seq<U32>, cells: seq<Cell>) {
    0 < |cells| <= IntMax && Consistent(s, starts, |cells|)
    && multiset(s) == multiset(Entries(cells))
  }

  // ---------------------------------------------------------------------------
  // Start indices

  /** Extending a sorted prefix by one entry: the entry starts its key's run exactly when
      it is the first entry or its predecessor has another key, which is the test of the
      start-index loop (with `int.MaxValue`, never a key, standing in before entry 0). */
  lemma RunStartExtend(s: seq<Entry>, i: int, k: int)
    requires SortedByKey(s) && 0 <= i < |s| <= IntMax
    ensures RunStart(s[..i + 1], k)
            == if k == s[i].key && (i == 0 || s[i - 1].key != k) then i else RunStart(s[..i], k)
  {
    var pre, ext := s[..i], s[..i + 1];
    assert forall q :: 0 <= q < i ==> ext[q] == pre[q];
    var r := RunStart(pre, k);
    if k == s[i].key && (i == 0 || s[i - 1].key != k) {
      forall q | 0 <= q < i ensures ext[q].key != k {
        assert s[q].key <= s[i - 1].key <= s[i].key;
      }
      RunStartIs(ext, k, i);
    } else if r != NoStart {
      RunStartIs(ext, k, r);
    } else if s[i].key != k {
      assert forall q :: 0 <= q < i + 1 ==> ext[q].key != k;
    }
  }

  /** The run start is the one position that holds the key with no earlier one that does. */
  lemma RunStartIs(s: seq<Entry>, k: int, p: int)
    requires |s| <= IntMax && 0 <= p < |s| && s[p].key == k
    requires forall q :: 0 <= q < p ==> s[q].key != k
    ensures RunStart(s, k) == p
  {
  }

  // ---------------------------------------------------------------------------
  // What a scan finds

  /** An entry the scan of the cell with hash h accepts: the hash matches and, in the
      pressure scan, the entry is not the queried particle itself. */
  predicate Accepted(e: Entry, h: int, skip: Option<int>) {
    e.hash == h && skip != Some(e.index)
  }

  /** The particle indices of the accepted entries of s, in order. */
  function Matches(s: seq<Entry>, h: int, skip: Option<int>): seq<U32> {
    if s == [] then []
    else
      var last := s[|s| - 1];
      Matches(s[..|s| - 1], h, skip) + (if Accepted(last, h, skip) then [last.index] else [])
  }

  /** One more entry adds its particle exactly when the scan accepts it. */
  lemma MatchesSnoc(t: seq<Entry>, e: Entry, h: int, skip: Option<int>)
    ensures Matches(t + [e], h, skip) == Matches(t, h, skip) + (if Accepted(e, h, skip) then [e.index] else [])
  {
    assert (t + [e])[..|t|] == t;
  }

  lemma {:induction false} MatchesAppend(t: seq<Entry>, u: seq<Entry>, h: int, skip: Option<int>)
    ensures Matches(t + u, h, skip) == Matches(t, h, skip) + Matches(u, h, skip)
    decreases |u|
  {
    if u != [] {
      var u' := u[..|u| - 1];
      assert (t + u)[..|t + u| - 1] == t + u';
      MatchesAppend(t, u', h, skip);
    } else {
      assert t + u == t;
    }
  }

  lemma {:induction false} MatchesNone(t: seq<Entry>, h: int, skip: Option<int>)
    requires forall q :: 0 <= q < |t| ==> t[q].hash != h
    ensures Matches(t, h, skip) == []
  {
    if t != [] {
      MatchesNone(t[..|t| - 1], h, skip);
    }
  }

  /** The multiset of accepted particles depends only on the multiset of entries: an
      unstable sort changes the order a scan visits particles in, not what it visits. */
  lemma {:induction false} MatchesPermutation(s: seq<Entry>, t: seq<Entry>, h: int, skip: Option<int>)
    requires multiset(s) == multiset(t)
    ensures multiset(Matches(s, h, skip)) == multiset(Matches(t, h, skip))
    decreases |s|
  {
    if s == [] {
      assert |t| == |multiset(t)| == 0;
    } else {
      var j := FindLast(s, t);
      var s', t' := s[..|s| - 1], t[..j] + t[j + 1..];
      MatchesPermutation(s', t', h, skip);
      MatchesRemoveAt(s, |s| - 1, h, skip);
      MatchesRemoveAt(t, j, h, skip);
      assert s' == s[..|s| - 1] + s[|s|..];
    }
  }

  /** Where the last entry of s sits in its permutation t, and what is left of both. */
  lemma FindLast(s: seq<Entry>, t: seq<Entry>) returns (j: int)
    requires multiset(s) == multiset(t) && s != []
    ensures 0 <= j < |t| && t[j] == s[|s| - 1]
    ensures multiset(s[..|s| - 1]) == multiset(t[..j] + t[j + 1..])
  {
    var e := s[|s| - 1];
    assert e in multiset(t) by {
      assert e in s;
    }
    j :| 0 <= j < |t| && t[j] == e;
    RemoveAt(s, |s| - 1);
    RemoveAt(t, j);
    assert s[|s|..] == [];
    assert s[..|s| - 1] + s[|s|..] == s[..|s| - 1];
  }

  /** Taking entry j out of t takes its contribution out of the accepted particles. */
  lemma MatchesRemoveAt(t: seq<Entry>, j: int, h: int, skip: Option<int>)
    requires 0 <= j < |t|
    ensures multiset(Matches(t, h, skip))
            == multiset(Matches(t[..j] + t[j + 1..], h, skip)) + multiset(Matches([t[j]], h, skip))
  {
    var t1, t2 := t[..j], t[j + 1..];
    assert t == t1 + [t[j]] + t2;
    MatchesAppend(t1, t2, h, skip);
    MatchesAppend(t1 + [t[j]], t2, h, skip);
    MatchesAppend(t1, [t[j]], h, skip);
  }

  lemma RemoveAt(t: seq<Entry>, j: int)
    requires 0 <= j < |t|
    ensures multiset(t[..j] + t[j + 1..]) == multiset(t) - multiset{t[j]}
  {
    assert t == t[..j] + [t[j]] + t[j + 1..];
  }

  /** Among the first m entries of a lookup in particle order, the accepted ones are the
      particles with hash h, each once. */
  lemma {:induction false} MatchesInParticleOrder(es: seq<Entry>, m: int, h: int, skip: Option<int>, x: int)
    requires 0 <= m <= |es|
    requires forall i :: 0 <= i < |es| ==> es[i].index == i
    ensures multiset(Matches(es[..m], h, skip))[x]
            == if 0 <= x < m && es[x].hash == h && skip != Some(x) then 1 else 0
  {
    if m > 0 {
      var pre := es[..m];
      assert pre[..m - 1] == es[..m - 1];
      var tail := if Accepted(es[m - 1], h, skip) then [m - 1] else [];
      assert Matches(pre, h, skip) == Matches(es[..m - 1], h, skip) + tail;
      MatchesInParticleOrder(es, m - 1, h, skip, x);
      assert multiset(Matches(pre, h, skip))[x]
             == multiset(Matches(es[..m - 1], h, skip))[x] + multiset(tail)[x];
    }
  }

  /** Entries that are a permutation of the particles' entries hold each particle exactly
      once, with that particle's own hash and key. */
  lemma EachParticleOnce(s: seq<Entry>, cells: seq<Cell>)
    requires 0 < |cells| <= IntMax && multiset(s) == multiset(Entries(cells))
    ensures |s| == |cells|
    ensures forall p :: 0 <= p < |s| ==> s[p].index < |cells| && s[p] == EntryFor(cells, s[p].index)
    ensures forall p, q :: 0 <= p < q < |s| ==> s[p].index != s[q].index
    ensures forall i :: 0 <= i < |cells| ==> EntryFor(cells, i) in s
  {
    var es := Entries(cells);
    assert |s| == |multiset(s)| == |multiset(es)| == |cells|;
    forall p | 0 <= p < |s|
      ensures s[p].index < |cells| && s[p] == EntryFor(cells, s[p].index)
    {
      assert s[p] in multiset(es);
    }
    forall p, q | 0 <= p < q < |s|
      ensures s[p].index != s[q].index
    {
      if s[p].index == s[q].index {
        TwiceCounted(s, p, q);
        DistinctCountedOnce(es, s[p]);
        assert false;
      }
    }
    forall i | 0 <= i < |cells|
      ensures EntryFor(cells, i) in s
    {
      assert es[i] in multiset(es);
    }
  }

  /** The sort leaves keys that still derive from their hashes, each below the particle
      count, so every key names a slot of the start table. */
  lemma PermutedEntriesKeyed(s: seq<Entry>, cells: seq<Cell>)
    requires 0 < |cells| <= IntMax && multiset(s) == multiset(Entries(cells))
    ensures |s| == |cells| && KeysMatchHashes(s, |cells|)
    ensures forall p :: 0 <= p < |s| ==> s[p].key < |cells|
  {
    EachParticleOnce(s, cells);
  }

  lemma TwiceCounted(s: seq<Entry>, p: int, q: int)
    requires 0 <= p < q < |s| && s[p] == s[q]
    ensures multiset(s)[s[p]] >= 2
  {
    assert s == s[..p] + [s[p]] + s[p + 1..q] + [s[q]] + s[q + 1..];
  }

  lemma {:induction false} DistinctCountedOnce(es: seq<Entry>, e: Entry)
    requires forall i, j :: 0 <= i < j < |es| ==> es[i].index != es[j].index
    ensures multiset(es)[e] <= 1
  {
    if es != [] {
      var es' := es[..|es| - 1];
      assert es == es' + [es[|es| - 1]];
      DistinctCountedOnce(es', e);
      if e == es[|es| - 1] {
        assert e !in es';
      }
    }
  }

  /** In a built lookup, the accepted entries are exactly the particles whose cell hash is
      h (less the skipped one), each once, wherever the sort put them. */
  lemma ScanFindsCellOnce(s: seq<Entry>, starts: seq<U32>, cells: seq<Cell>, h: int, skip: Option<int>, x: int)
    requires Indexed(s, starts, cells)
    ensures multiset(Matches(s, h, skip))[x]
            == if 0 <= x < |cells| && CellHash(cells[x]) == h && skip != Some(x) then 1 else 0
  {
    var es := Entries(cells);
    MatchesPermutation(s, es, h, skip);
    MatchesInParticleOrder(es, |es|, h, skip, x);
    assert es[..|es|] == es;
  }

  /** In a consistent lookup an entry with hash h carries the key of h. */
  lemma HashFixesKey(s: seq<Entry>, starts: seq<U32>, n: int, h: U32)
    requires Consistent(s, starts, n)
    ensures forall q :: 0 <= q < |s| && s[q].hash == h ==> s[q].key == KeyFromHash(h, n)
  {
  }

  /** A key no entry carries: no entry has a hash with that key either. */
  lemma AbsentKeyNoMatches(s: seq<Entry>, h: int, k: int, skip: Option<int>)
    requires forall q :: 0 <= q < |s| && s[q].hash == h ==> s[q].key == k
    requires forall q :: 0 <= q < |s| ==> s[q].key != k
    ensures Matches(s, h, skip) == []
  {
    MatchesNone(s, h, skip);
  }

  /** A present key whose run is s[lo..hi] in sorted s: every entry with a hash of that
      key lies in the run, so scanning the run finds all of them. */
  lemma RunHoldsMatches(s: seq<Entry>, h: int, k: int, lo: int, hi: int, skip: Option<int>)
    requires SortedByKey(s)
    requires forall q :: 0 <= q < |s| && s[q].hash == h ==> s[q].key == k
    requires 0 <= lo < |s| && lo <= hi <= |s| && s[lo].key == k
    requires forall q :: 0 <= q < lo ==> s[q].key != k
    requires hi < |s| ==> s[hi].key != k
    ensures Matches(s, h, skip) == Matches(s[lo..hi], h, skip)
  {
    var before, run, after := s[..lo], s[lo..hi], s[hi..];
    MatchesNone(before, h, skip);
    NoMatchesPastRun(s, h, k, lo, hi, skip);
    assert s == before + run + after;
    MatchesAppend(before, run, h, skip);
    MatchesAppend(before + run, after, h, skip);
  }

  /** Past the end of key k's run, sorted entries carry larger keys, so none has hash h. */
  lemma NoMatchesPastRun(s: seq<Entry>, h: int, k: int, lo: int, hi: int, skip: Option<int>)
    requires SortedByKey(s)
    requires forall q :: 0 <= q < |s| && s[q].hash == h ==> s[q].key == k
    requires 0 <= lo < |s| && lo <= hi <= |s| && s[lo].key == k
    requires hi < |s| ==> s[hi].key != k
    ensures Matches(s[hi..], h, skip) == []
  {
    var after := s[hi..];
    forall q | 0 <= q < |after| ensures after[q].hash != h {
      assert s[lo].key <= s[hi].key <= s[hi + q].key;
    }
    MatchesNone(after, h, skip);
  }

  // ---------------------------------------------------------------------------
  // Neighbourhood queries

  /** The particles found by scanning the cells with hashes hs one after the other, in
      scan order. */
  function ScansOf(s: seq<Entry>, hs: seq<U32>, skip: Option<int>): seq<U32> {
    if hs == [] then []
    else ScansOf(s, hs[..|hs| - 1], skip) + Matches(s, hs[|hs| - 1], skip)
  }

  /** Scanning one more hash appends that hash's matches. */
  lemma ScansStep(s: seq<Entry>, hs: seq<U32>, i: int, skip: Option<int>)
    requires 0 <= i < |hs|
    ensures ScansOf(s, hs[..i + 1], skip) == ScansOf(s, hs[..i], skip) + Matches(s, hs[i], skip)
  {
    assert hs[..i + 1][..i] == hs[..i];
  }

  /** The particles found by the scans of the nine neighbourhood cells, in scan order. */
  function NeighbourhoodMatches(s: seq<Entry>, centre: Cell, skip: Option<int>): seq<U32> {
    ScansOf(s, NeighbourHashes(centre), skip)
  }

  /** Scanning several distinct hashes, a particle that every single-cell scan finds once
      when the hash is hx, and never otherwise, is found once if hx is among them and not
      at all otherwise. */
  lemma {:induction false} ScansCount(s: seq<Entry>, hs: seq<U32>, skip: Option<int>,
                                      x: int, present: bool, hx: int)
    requires forall i, j :: 0 <= i < j < |hs| ==> hs[i] != hs[j]
    requires forall h :: multiset(Matches(s, h, skip))[x] == if present && h == hx then 1 else 0
    ensures multiset(ScansOf(s, hs, skip))[x] == if present && hx in hs then 1 else 0
  {
    if hs != [] {
      var init, last := hs[..|hs| - 1], hs[|hs| - 1];
      assert hs == init + [last];
      ScansCount(s, init, skip, x, present, hx);
      assert multiset(ScansOf(s, hs, skip))
             == multiset(ScansOf(s, init, skip)) + multiset(Matches(s, last, skip));
      assert last == hx ==> hx !in init;
    }
  }

  /** A full query finds each particle whose cell hash is among the nine neighbourhood
      hashes exactly once, apart from the skipped particle, and nothing else. */
  lemma QueryFindsNeighbourhood(s: seq<Entry>, starts: seq<U32>, cells: seq<Cell>,
                                centre: Cell, skip: Option<int>, x: int)
    requires Indexed(s, starts, cells)
    ensures multiset(NeighbourhoodMatches(s, centre, skip))[x]
            == if 0 <= x < |cells| && skip != Some(x) && CellHash(cells[x]) in NeighbourHashes(centre)
               then 1 else 0
  {
    var present := 0 <= x < |cells| && skip != Some(x);
    var hx := if 0 <= x < |cells| then CellHash(cells[x]) else 0;
    forall h ensures multiset(Matches(s, h, skip))[x] == if present && h == hx then 1 else 0 {
      ScanFindsCellOnce(s, starts, cells, h, skip, x);
    }
    NeighbourHashListDistinct(centre);
    ScansCount(s, NeighbourHashes(centre), skip, x, present, hx);
  }

  /** In particular a query finds every particle of the 3x3 block of cells around the
      centre, once, unless it is the skipped particle. */
  lemma QueryFindsAdjacent(s: seq<Entry>, starts: seq<U32>, cells: seq<Cell>,
                           centre: Cell, skip: Option<int>, x: int)
    requires Indexed(s, starts, cells) && 0 <= x < |cells|
    requires -1 <= cells[x].x - centre.x <= 1 && -1 <= cells[x].y - centre.y <= 1
    ensures multiset(NeighbourhoodMatches(s, centre, skip))[x]
            == if skip == Some(x) then 0 else 1
  {
    AdjacentCellInNeighbourhood(centre, cells[x]);
    QueryFindsNeighbourhood(s, starts, cells, centre, skip, x);
  }
}
