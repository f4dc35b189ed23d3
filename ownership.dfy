/**
 * The two loops of the ownership script: handing out disjoint sets of
 * "public_domain" rows to a fixed list of owners, and hashing every row's
 * pixel bytes in fixed-size chunks.
 *
 * The random draws are parameters: `draws[k]` is the image count drawn for
 * owner `k`, and `choice(pool, n)` is the sample `np.random.choice` takes
 * without replacement. SHA-256 is a parameter `sha` from bytes to a 32-byte
 * digest; `hexdigest()` is its lowercase hex text.
 */
module Ownership {
  import opened Wrappers
  import opened Hex

  const PublicDomain: string := "public_domain"
  const Owners: seq<string> := ["alice", "bob", "chelsea"]
  const MinImages: nat := 2
  const MaxImages: nat := 3
  const ChunkSize: nat := 1000

  /** A row's pixel array as `tobytes()` lays it out. */
  type Pixels = seq<Byte>

  function Elems(s: seq<nat>): set<nat> {
    set x | x in s
  }

  predicate Distinct(s: seq<nat>) {
    forall i, j :: 0 <= i < j < |s| ==> s[i] != s[j]
  }

  /** `n` distinct members of `pool`, as a draw without replacement yields them. */
  predicate IsSample(sample: seq<nat>, pool: set<nat>, n: nat) {
    |sample| == n && Distinct(sample) && Elems(sample) <= pool
  }

  /** The row indices `0 .. n-1`. */
  function AllRows(n: nat): (rows: set<nat>)
    ensures forall r: nat :: r in rows <==> r < n
  {
    if n == 0 then {} else AllRows(n - 1) + {n - 1}
  }

  /** Every row handed out by the given selections. */
  function Covered(selections: seq<seq<nat>>): set<nat> {
    if selections == [] then {}
    else Covered(selections[..|selections| - 1]) + Elems(selections[|selections| - 1])
  }

  /** No row is in two selections. */
  predicate PairwiseDisjoint(selections: seq<seq<nat>>) {
    forall k, l :: 0 <= k < l < |selections| ==> Elems(selections[k]) !! Elems(selections[l])
  }

  /** The owner column after the selections: the later assignment of a row wins, unselected rows stay public. */
  function OwnerOf(selections: seq<seq<nat>>, r: nat): (o: string)
    requires |selections| <= |Owners|
    ensures o == PublicDomain <==> r !in Covered(selections)
    ensures o != PublicDomain ==> exists j :: 0 <= j < |selections| && r in selections[j] && o == Owners[j]
  {
    if selections == [] then PublicDomain
    else if r in selections[|selections| - 1] then Owners[|selections| - 1]
    else OwnerOf(selections[..|selections| - 1], r)
  }

  /** `df.loc[selected, "owner"] = who`: the selected rows take the new value, the others keep theirs. */
  function Overwrite(column: seq<string>, selected: seq<nat>, who: string): seq<string>
  {
    seq(|column|, i requires 0 <= i < |column| => if i in selected then who else column[i])
  }

  lemma OwnerOfAppend(selections: seq<seq<nat>>, selected: seq<nat>)
    requires |selections| < |Owners|
    ensures forall r: nat ::
      OwnerOf(selections + [selected], r) == if r in selected then Owners[|selections|] else OwnerOf(selections, r)
  {
  }

  lemma {:induction false} CoveredHoldsEachSelection(selections: seq<seq<nat>>, k: nat)
    requires k < |selections|
    ensures Elems(selections[k]) <= Covered(selections)
  {
    var n := |selections| - 1;
    if k < n {
      CoveredHoldsEachSelection(selections[..n], k);
    }
  }

  /** With disjoint selections, a row in selection `k` belongs to owner `k`. */
  lemma {:induction false} OwnerOfSelected(selections: seq<seq<nat>>, k: nat, r: nat)
    requires |selections| <= |Owners| && PairwiseDisjoint(selections)
    requires k < |selections| && r in selections[k]
    ensures OwnerOf(selections, r) == Owners[k]
  {
    var n := |selections| - 1;
    if k < n {
      assert r in Elems(selections[k]);
      assert r !in selections[n];
      OwnerOfSelected(selections[..n], k, r);
    }
  }

  lemma {:induction false} DistinctElemsCard(s: seq<nat>)
    requires Distinct(s)
    ensures |Elems(s)| == |s|
  {
    if s != [] {
      var n := |s| - 1;
      DistinctElemsCard(s[..n]);
      assert Elems(s) == Elems(s[..n]) + {s[n]};
      assert s[n] !in Elems(s[..n]);
    }
  }

  lemma SubsetOfSameSize(a: set<nat>, b: set<nat>)
    requires a <= b && |a| == |b|
    ensures a == b
  {
    assert |b - a| == |b| - |a|;
  }

  /**
   * What the assignment loop keeps true of the selections made so far for
   * `n` rows: each is a non-empty draw of distinct rows of at most
   * `MaxImages`, smaller than its drawn count only when it emptied the pool,
   * and no row is handed out twice.
   */
  ghost predicate Progress(n: nat, draws: seq<nat>, selections: seq<seq<nat>>) {
    && |selections| <= |draws|
    && (forall j :: 0 <= j < |selections| ==> 0 < |selections[j]| <= MaxImages && Distinct(selections[j]))
    && (forall j :: 0 <= j < |selections| ==> |selections[j]| <= draws[j])
    && (forall j :: 0 <= j < |selections| ==> ClippedOnlyWhenExhausted(n, draws, selections, j))
    && PairwiseDisjoint(selections)
    && Covered(selections) <= AllRows(n)
  }

  /** Selection `j` got fewer rows than drawn only if it took the last public rows. */
  ghost predicate ClippedOnlyWhenExhausted(n: nat, draws: seq<nat>, selections: seq<seq<nat>>, j: nat)
    requires j < |selections| && j < |draws|
  {
    |selections[j]| == draws[j] || Covered(selections[..j + 1]) == AllRows(n)
  }

  /** One iteration that draws a non-empty, clipped sample from the pool keeps `Progress`. */
  lemma AssignStep(n: nat, draws: seq<nat>, selections: seq<seq<nat>>, pool: set<nat>, count: nat, selected: seq<nat>)
    requires Progress(n, draws, selections) && |selections| < |draws|
    requires pool == AllRows(n) - Covered(selections)
    requires draws[|selections|] <= MaxImages
    requires 0 < count == Min(draws[|selections|], |pool|)
    requires IsSample(selected, pool, count)
    ensures Progress(n, draws, selections + [selected])
    ensures AllRows(n) - Covered(selections + [selected]) == pool - Elems(selected)
  {
    var next := selections + [selected];
    CoveredAppend(selections, selected);
    StepKeepsClipping(n, draws, selections, pool, count, selected);
    StepKeepsDisjoint(selections, pool, n, selected);
    assert forall j :: 0 <= j < |selections| ==> next[j] == selections[j];
    assert forall j :: 0 <= j < |next| ==> 0 < |next[j]| <= MaxImages && Distinct(next[j]);
    assert forall j :: 0 <= j < |next| ==> |next[j]| <= draws[j];
  }

  lemma CoveredAppend(selections: seq<seq<nat>>, selected: seq<nat>)
    ensures Covered(selections + [selected]) == Covered(selections) + Elems(selected)
  {
  }

  lemma StepKeepsClipping(n: nat, draws: seq<nat>, selections: seq<seq<nat>>, pool: set<nat>, count: nat, selected: seq<nat>)
    requires |selections| < |draws|
    requires forall j :: 0 <= j < |selections| ==> ClippedOnlyWhenExhausted(n, draws, selections, j)
    requires Covered(selections) <= AllRows(n)
    requires pool == AllRows(n) - Covered(selections)
    requires count == Min(draws[|selections|], |pool|)
    requires IsSample(selected, pool, count)
    ensures forall j :: 0 <= j < |selections| + 1 ==> ClippedOnlyWhenExhausted(n, draws, selections + [selected], j)
  {
    var k := |selections|;
    var next := selections + [selected];
    LastDrawClipped(n, draws, selections, pool, count, selected);
    forall j | 0 <= j < k ensures ClippedOnlyWhenExhausted(n, draws, next, j) {
      ClippingCarriesOver(n, draws, selections, selected, j);
    }
  }

  lemma ClippingCarriesOver(n: nat, draws: seq<nat>, selections: seq<seq<nat>>, selected: seq<nat>, j: nat)
    requires j < |selections| < |draws|
    requires ClippedOnlyWhenExhausted(n, draws, selections, j)
    ensures ClippedOnlyWhenExhausted(n, draws, selections + [selected], j)
  {
    var next := selections + [selected];
    assert next[..j + 1] == selections[..j + 1];
    assert next[j] == selections[j];
  }

  lemma LastDrawClipped(n: nat, draws: seq<nat>, selections: seq<seq<nat>>, pool: set<nat>, count: nat, selected: seq<nat>)
    requires |selections| < |draws|
    requires pool == AllRows(n) - Covered(selections)
    requires count == Min(draws[|selections|], |pool|)
    requires IsSample(selected, pool, count)
    requires Covered(selections) <= AllRows(n)
    ensures ClippedOnlyWhenExhausted(n, draws, selections + [selected], |selections|)
  {
    var k := |selections|;
    var next := selections + [selected];
    assert next[..k + 1] == next;
    assert next[..k] == selections;
    if count < draws[k] {
      DistinctElemsCard(selected);
      SubsetOfSameSize(Elems(selected), pool);
      CoveredAppend(selections, selected);
    }
  }

  lemma StepKeepsDisjoint(selections: seq<seq<nat>>, pool: set<nat>, n: nat, selected: seq<nat>)
    requires PairwiseDisjoint(selections)
    requires pool == AllRows(n) - Covered(selections)
    requires Elems(selected) <= pool
    ensures PairwiseDisjoint(selections + [selected])
  {
    var next := selections + [selected];
    var k := |selections|;
    forall j, l | 0 <= j < l < |next| ensures Elems(next[j]) !! Elems(next[l]) {
      if l == k {
        CoveredHoldsEachSelection(selections, j);
      } else {
        assert next[j] == selections[j] && next[l] == selections[l];
      }
    }
  }

  /**
   * The rows of a data frame with the three metadata columns the script adds;
   * `pixelValues` is never written.
   */
  class MetadataFrame {
    const pixelValues: seq<Pixels>
    var owner: seq<string>
    var isRevoked: seq<bool>
    var contentHash: seq<string>

    ghost predicate Valid()
      reads this
    {
      |owner| == |pixelValues| && |isRevoked| == |pixelValues| && |contentHash| == |pixelValues|
    }

    /** The metadata columns as first initialised: public domain, not revoked, no hash. */
    constructor (pixelValues: seq<Pixels>)
      ensures Valid() && this.pixelValues == pixelValues
      ensures forall r :: 0 <= r < |pixelValues| ==> owner[r] == PublicDomain && !isRevoked[r] && contentHash[r] == ""
    {
      this.pixelValues := pixelValues;
      owner := seq(|pixelValues|, _ => PublicDomain);
      isRevoked := seq(|pixelValues|, _ => false);
      contentHash := seq(|pixelValues|, _ => "");
    }

    /**
     * The owner-assignment loop. Each owner draws an image count, clipped to
     * the rows still public; an empty pool ends the loop. The chosen rows
     * take that owner and leave the pool. Returns the selection made for
     * each owner that was served.
     */
    method AssignOwners(draws: seq<nat>, choice: (set<nat>, nat) -> seq<nat>) returns (selections: seq<seq<nat>>)
      requires Valid() && forall r :: 0 <= r < |owner| ==> owner[r] == PublicDomain
      requires |draws| == |Owners| && forall k :: 0 <= k < |draws| ==> MinImages <= draws[k] <= MaxImages
      requires forall pool: set<nat>, n: nat :: n <= |pool| ==> IsSample(choice(pool, n), pool, n)
      modifies this
      ensures Valid() && isRevoked == old(isRevoked) && contentHash == old(contentHash)
      ensures |selections| <= |Owners|
      ensures Progress(|pixelValues|, draws, selections)
      ensures |selections| < |Owners| ==> Covered(selections) == AllRows(|pixelValues|)
      ensures forall r :: 0 <= r < |owner| ==> owner[r] == OwnerOf(selections, r)
    {
      var pool := AllRows(|owner|);
      var column := owner;
      selections := [];
      var k := 0;
      while k < |Owners|
        invariant 0 <= k <= |Owners| && |selections| == k
        invariant |column| == |pixelValues| && unchanged(this)
        invariant Progress(|pixelValues|, draws, selections)
        invariant pool == AllRows(|pixelValues|) - Covered(selections)
        invariant forall r :: 0 <= r < |column| ==> column[r] == OwnerOf(selections, r)
      {
        var n := Min(draws[k], |pool|);
        if n == 0 {
          assert pool == {};
          break;
        }
        var selected := choice(pool, n);
        AssignStep(|pixelValues|, draws, selections, pool, n, selected);
        OwnerOfAppend(selections, selected);
        column := Overwrite(column, selected, Owners[k]);
        pool := pool - Elems(selected);
        selections := selections + [selected];
        k := k + 1;
      }
      owner := column;
    }

    /** The chunked hashing loop and the column assignment after it. */
    method ComputeContentHashes(sha: Pixels -> Bytes32)
      requires Valid()
      modifies this
      ensures Valid() && owner == old(owner) && isRevoked == old(isRevoked)
      ensures forall r :: 0 <= r < |contentHash| ==> contentHash[r] == ToHex(sha(pixelValues[r]))
    {
      var hashValues;
      ghost var chunks;
      hashValues, chunks := HashInChunks(pixelValues, sha, ChunkSize);
      contentHash := hashValues;
    }
  }

  /** `compute_hash_chunk`: one hex digest per row, in order. */
  function ComputeHashChunk(sha: Pixels -> Bytes32, chunk: seq<Pixels>): (r: seq<string>)
    ensures |r| == |chunk|
    ensures forall i :: 0 <= i < |chunk| ==>
      && |r[i]| == 64
      && (forall j :: 0 <= j < 64 ==> IsLowerHexDigit(r[i][j]))
      && FromHex(r[i]) == Some(sha(chunk[i]))
  {
    assert forall i :: 0 <= i < |chunk| ==> FromHex(ToHex(sha(chunk[i]))) == Some(sha(chunk[i])) by {
      forall i | 0 <= i < |chunk| {
        FromHexToHex(sha(chunk[i]));
      }
    }
    seq(|chunk|, i requires 0 <= i < |chunk| => ToHex(sha(chunk[i])))
  }

  function Min(a: nat, b: nat): nat {
    if a < b then a else b
  }

  /**
   * The `(chunk_start, chunk_end)` pairs of the hashing loop from `start` on:
   * one per step of `range(start, total, size)`, so as many as the ceiling
   * of `(total - start) / size`.
   */
  function Chunks(total: nat, size: nat, start: nat): (c: seq<(nat, nat)>)
    requires size > 0
    ensures start < total ==> (|c| - 1) * size < total - start <= |c| * size
    ensures start >= total ==> c == []
    decreases total - start
  {
    if start >= total then []
    else
      var rest := Chunks(total, size, start + size);
      assert (|rest| + 1) * size == |rest| * size + size;
      [(start, Min(start + size, total))] + rest
  }

  /**
   * The chunks are non-empty, hold at most `size` rows, follow one another
   * without gap or overlap, and run from `start` to `total`.
   */
  lemma {:induction false} ChunksTile(total: nat, size: nat, start: nat)
    requires size > 0
    ensures var c := Chunks(total, size, start);
      && (|c| == 0 <==> start >= total)
      && (forall k :: 0 <= k < |c| ==> c[k].0 < c[k].1 <= c[k].0 + size)
      && (forall k :: 0 <= k < |c| - 1 ==> c[k].1 == c[k + 1].0)
      && (|c| > 0 ==> c[0].0 == start && c[|c| - 1].1 == total)
    decreases total - start
  {
    if start < total {
      ChunksTile(total, size, start + size);
      var c := Chunks(total, size, start);
      var rest := Chunks(total, size, start + size);
      assert forall k :: 1 <= k < |c| ==> c[k] == rest[k - 1];
    }
  }

  predicate InChunk(c: seq<(nat, nat)>, k: nat, r: nat) {
    k < |c| && c[k].0 <= r < c[k].1
  }

  /** Every row lies in exactly one chunk. */
  lemma RowInOneChunk(total: nat, size: nat, r: nat)
    requires size > 0 && r < total
    ensures exists k :: InChunk(Chunks(total, size, 0), k, r)
    ensures forall k, l :: InChunk(Chunks(total, size, 0), k, r) && InChunk(Chunks(total, size, 0), l, r) ==> k == l
  {
    var c := Chunks(total, size, 0);
    ChunksTile(total, size, 0);
    var k := ChunkIndex(c, r);
    assert InChunk(c, k, r);
    forall k1, l | InChunk(c, k1, r) && InChunk(c, l, r) ensures k1 == l {
      if k1 < l { ChunkEndsOrdered(c, k1, l); }
      if l < k1 { ChunkEndsOrdered(c, l, k1); }
    }
  }

  /** The chunk holding row `r`, found by walking the tiling. */
  lemma {:induction false} ChunkIndexExists(c: seq<(nat, nat)>, r: nat, k: nat)
    requires forall j :: 0 <= j < |c| - 1 ==> c[j].1 == c[j + 1].0
    requires k < |c| && c[k].0 <= r < c[|c| - 1].1
    ensures exists j :: k <= j < |c| && c[j].0 <= r < c[j].1
    decreases |c| - k
  {
    if r >= c[k].1 {
      ChunkIndexExists(c, r, k + 1);
    }
  }

  lemma ChunkIndex(c: seq<(nat, nat)>, r: nat) returns (k: nat)
    requires forall j :: 0 <= j < |c| - 1 ==> c[j].1 == c[j + 1].0
    requires |c| > 0 && c[0].0 <= r < c[|c| - 1].1
    ensures k < |c| && c[k].0 <= r < c[k].1
  {
    ChunkIndexExists(c, r, 0);
    k :| 0 <= k < |c| && c[k].0 <= r < c[k].1;
  }

  lemma {:induction false} ChunkEndsOrdered(c: seq<(nat, nat)>, l: nat, k: nat)
    requires forall j :: 0 <= j < |c| - 1 ==> c[j].1 == c[j + 1].0
    requires forall j :: 0 <= j < |c| ==> c[j].0 < c[j].1
    requires l < k < |c|
    ensures c[l].1 <= c[k].0
    decreases k - l
  {
    if l + 1 < k {
      ChunkEndsOrdered(c, l + 1, k);
    }
  }

  /**
   * The hashing loop: walks the rows chunk by chunk and extends the list with
   * each chunk's digests, so that entry `i` is the digest of row `i`.
   */
  method HashInChunks(rows: seq<Pixels>, sha: Pixels -> Bytes32, chunkSize: nat)
    returns (hashValues: seq<string>, ghost visited: seq<(nat, nat)>)
    requires chunkSize > 0
    ensures |hashValues| == |rows|
    ensures forall i :: 0 <= i < |rows| ==> hashValues[i] == ToHex(sha(rows[i]))
    ensures visited == Chunks(|rows|, chunkSize, 0)
  {
    var total := |rows|;
    hashValues := [];
    visited := [];
    var start := 0;
    while start < total
      invariant |hashValues| == Min(start, total)
      invariant forall i :: 0 <= i < |hashValues| ==> hashValues[i] == ToHex(sha(rows[i]))
      invariant visited + Chunks(total, chunkSize, start) == Chunks(total, chunkSize, 0)
      decreases total - start
    {
      var end := Min(start + chunkSize, total);
      ChunksStep(total, chunkSize, start, visited);
      var chunk := rows[start..end];
      ExtendWithChunk(rows, sha, hashValues, start, end);
      hashValues := hashValues + ComputeHashChunk(sha, chunk);
      visited := visited + [(start, end)];
      start := start + chunkSize;
    }
  }

  lemma ChunksStep(total: nat, size: nat, start: nat, visited: seq<(nat, nat)>)
    requires size > 0 && start < total
    ensures visited + Chunks(total, size, start) ==
      (visited + [(start, Min(start + size, total))]) + Chunks(total, size, start + size)
  {
  }

  /** Extending the digests of rows `0 .. start-1` with one chunk gives the digests of rows `0 .. end-1`. */
  lemma ExtendWithChunk(rows: seq<Pixels>, sha: Pixels -> Bytes32, hashValues: seq<string>, start: nat, end: nat)
    requires start <= end <= |rows| && |hashValues| == start
    requires forall i :: 0 <= i < start ==> hashValues[i] == ToHex(sha(rows[i]))
    ensures var next := hashValues + ComputeHashChunk(sha, rows[start..end]);
      |next| == end && forall i :: 0 <= i < end ==> next[i] == ToHex(sha(rows[i]))
  {
    var hashes := ComputeHashChunk(sha, rows[start..end]);
    forall k | 0 <= k < end - start
      ensures hashes[k] == ToHex(sha(rows[start + k]))
    {
      LowerHexIsPrinted(hashes[k]);
    }
  }
}
