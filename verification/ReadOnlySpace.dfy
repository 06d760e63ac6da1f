/** Freed space in the read-only part of the file: an ordered map of intervals (SlabAlloc's m_free_read_only). */
module ReadOnlySpace {
  import opened Options

  /** Byte n lies in one of the chunks. */
  ghost predicate Covers(chunks: map<nat, nat>, n: nat) {
    exists k :: k in chunks && k <= n < k + chunks[k]
  }

  /** The chunks are not empty, and any two have a gap between them. */
  ghost predicate Gapped(chunks: map<nat, nat>) {
    && (forall k :: k in chunks ==> chunks[k] > 0)
    && (forall k, l :: k in chunks && l in chunks && k < l ==> k + chunks[k] < l)
  }

  lemma GapBefore(c: map<nat, nat>, k: nat)
    requires Gapped(c) && k in c && k > 0
    ensures !Covers(c, k - 1)
  {
  }

  lemma GapAfter(c: map<nat, nat>, k: nat)
    requires Gapped(c) && k in c
    ensures !Covers(c, k + c[k])
  {
  }

  /** Maps that cover the same bytes agree on every chunk of the first. */
  lemma SameChunk(c: map<nat, nat>, d: map<nat, nat>, k: nat)
    requires Gapped(c) && Gapped(d) && (forall n: nat :: Covers(c, n) <==> Covers(d, n)) && k in c
    ensures k in d && d[k] == c[k]
  {
    assert Covers(c, k);
    var l :| l in d && l <= k < l + d[l];
    if l < k {
      assert Covers(d, k - 1);
      GapBefore(c, k);
      assert false;
    }
    GapAfter(c, k);
    GapAfter(d, k);
  }

  /** There is one way to write a set of bytes as chunks with gaps. */
  lemma Canonical(c: map<nat, nat>, d: map<nat, nat>)
    requires Gapped(c) && Gapped(d) && forall n: nat :: Covers(c, n) <==> Covers(d, n)
    ensures c == d
  {
    forall k | k in c ensures k in d && d[k] == c[k] {
      SameChunk(c, d, k);
    }
    forall k | k in d ensures k in c {
      SameChunk(d, c, k);
    }
  }

  lemma SomeOf(keys: set<nat>)
    requires keys != {}
    ensures exists k :: k in keys
  {
    assert !(forall k :: k !in keys) by {
      assert (forall k :: k !in keys) ==> keys == {};
    }
  }

  /** The first key not below x. */
  method FirstAtLeast(chunks: map<nat, nat>, x: nat) returns (r: Option<nat>)
    ensures r.None? ==> forall k :: k in chunks ==> k < x
    ensures r.Some? ==> r.value in chunks && r.value >= x && forall k :: k in chunks && k >= x ==> k >= r.value
  {
    var keys: set<nat> := chunks.Keys;
    r := None;
    while keys != {}
      invariant forall k :: k in keys ==> k in chunks
      invariant r.None? ==> forall k :: k in chunks && k !in keys ==> k < x
      invariant r.Some? ==> r.value in chunks && r.value >= x
      invariant r.Some? ==> forall k :: k in chunks && k !in keys && k >= x ==> k >= r.value
      decreases keys
    {
      SomeOf(keys);
      var k :| k in keys;
      if k >= x && (r.None? || k < r.value) {
        r := Some(k);
      }
      keys := keys - {k};
    }
  }

  /** The last key below x. */
  method LastBelow(chunks: map<nat, nat>, x: nat) returns (r: Option<nat>)
    ensures r.None? ==> forall k :: k in chunks ==> k >= x
    ensures r.Some? ==> r.value in chunks && r.value < x && forall k :: k in chunks && k < x ==> k <= r.value
  {
    var keys: set<nat> := chunks.Keys;
    r := None;
    while keys != {}
      invariant forall k :: k in keys ==> k in chunks
      invariant r.None? ==> forall k :: k in chunks && k !in keys ==> k >= x
      invariant r.Some? ==> r.value in chunks && r.value < x
      invariant r.Some? ==> forall k :: k in chunks && k !in keys && k < x ==> k <= r.value
      decreases keys
    {
      SomeOf(keys);
      var k :| k in keys;
      if k < x && (r.None? || k > r.value) {
        r := Some(k);
      }
      keys := keys - {k};
    }
  }

  /** A range of bytes. */
  datatype Range = Range(ref: nat, size: nat)

  ghost predicate In(r: Range, n: nat) {
    r.ref <= n < r.ref + r.size
  }

  // ---- The three edits: drop the next chunk, lengthen the previous one, add one ----

  /** The chunk at ref + size is given up to be part of a longer one. */
  lemma DropNext(chunks: map<nat, nat>, ref: nat, size: nat)
    requires Gapped(chunks) && ref + size in chunks
    ensures Gapped(chunks - {ref + size})
    ensures forall n: nat :: Covers(chunks, n) <==>
              Covers(chunks - {ref + size}, n) || In(Range(ref + size, chunks[ref + size]), n)
  {
    var next := ref + size;
    var c := chunks - {next};
    forall n: nat ensures Covers(chunks, n) <==> Covers(c, n) || In(Range(next, chunks[next]), n) {
      if Covers(chunks, n) {
        var k :| k in chunks && k <= n < k + chunks[k];
        assert k != next ==> k in c && c[k] == chunks[k];
      }
      if Covers(c, n) {
        var k :| k in c && k <= n < k + c[k];
        assert k in chunks && chunks[k] == c[k];
      }
    }
  }

  /** Setting a chunk that reaches neither of its neighbours. */
  lemma PutChunk(chunks: map<nat, nat>, k: nat, size: nat)
    requires Gapped(chunks) && size > 0
    requires forall l :: l in chunks && l < k ==> l + chunks[l] < k
    requires forall l :: l in chunks && l > k ==> k + size < l
    requires k in chunks ==> size >= chunks[k]
    ensures Gapped(chunks[k := size])
    ensures forall n: nat :: Covers(chunks[k := size], n) <==> Covers(chunks, n) || In(Range(k, size), n)
  {
    var c := chunks[k := size];
    forall n: nat ensures Covers(c, n) <==> Covers(chunks, n) || In(Range(k, size), n) {
      if Covers(chunks, n) {
        var l :| l in chunks && l <= n < l + chunks[l];
        assert l in c && l <= n < l + c[l];
      }
      if In(Range(k, size), n) {
        assert k in c && k <= n < k + c[k];
      }
      if Covers(c, n) && !In(Range(k, size), n) {
        var l :| l in c && l <= n < l + c[l];
        assert l in chunks && chunks[l] == c[l];
      }
    }
  }

  class ReadOnlyFree {
    var chunks: map<nat, nat>

    constructor ()
      ensures chunks == map[]
    {
      chunks := map[];
    }

    /** Join the chunk that starts where the range ends, if there is one. */
    method JoinNext(ref: nat, size0: nat) returns (size: nat)
      requires Gapped(chunks) && size0 > 0 && forall n: nat :: In(Range(ref, size0), n) ==> !Covers(chunks, n)
      modifies this
      ensures Gapped(chunks) && size >= size0 && ref + size !in chunks
      ensures forall n: nat :: In(Range(ref, size), n) ==> !Covers(chunks, n)
      ensures forall n: nat :: Covers(chunks, n) || In(Range(ref, size), n) <==>
                old(Covers(chunks, n)) || In(Range(ref, size0), n)
      ensures forall k :: k in chunks && k >= ref ==> ref + size < k
    {
      size := size0;
      var next := FirstAtLeast(chunks, ref);
      NotInside(chunks, ref, size0);
      if next.Some? {
        assert ref + size <= next.value;
        if ref + size == next.value {
          DropNext(chunks, ref, size);
          ghost var was := chunks;
          size := size + chunks[next.value];
          chunks := chunks - {next.value};
          ghost var gap := was[next.value];
          assert forall n: nat :: In(Range(ref, size), n) <==>
                   In(Range(ref, size0), n) || In(Range(next.value, gap), n);
        }
      }
    }

    /**
     * Free a range none of whose bytes is free. The release assertions of the original hold: no chunk starts inside
     * the range and none reaches into it.
     */
    method Free(ref: nat, size0: nat)
      requires Gapped(chunks) && ref > 0 && ref % 8 == 0 && size0 > 0
      requires forall n: nat :: In(Range(ref, size0), n) ==> !Covers(chunks, n)
      modifies this
      ensures Gapped(chunks)
      ensures forall n: nat :: Covers(chunks, n) <==> old(Covers(chunks, n)) || In(Range(ref, size0), n)
    {
      var size := JoinNext(ref, size0);
      var prev := LastBelow(chunks, ref);
      NotInside(chunks, ref, size);
      if prev.Some? {
        var p: nat := prev.value;
        assert p + chunks[p] <= ref;
        if p + chunks[p] == ref {
          PutChunk(chunks, p, chunks[p] + size);
          SameBytes(chunks, p, ref, size);
          chunks := chunks[p := chunks[p] + size];
          return;
        }
      }
      PutChunk(chunks, ref, size);
      chunks := chunks[ref := size];
    }
  }

  /** A chunk starts at or behind the end of an uncovered range, or ends at or before its start. */
  lemma NotInside(chunks: map<nat, nat>, ref: nat, size: nat)
    requires Gapped(chunks) && size > 0 && forall n: nat :: In(Range(ref, size), n) ==> !Covers(chunks, n)
    ensures forall k :: k in chunks ==> ref + size <= k || k + chunks[k] <= ref
  {
    forall k | k in chunks ensures ref + size <= k || k + chunks[k] <= ref {
      if k < ref + size && ref < k + chunks[k] {
        var n := if k < ref then ref else k;
        assert Covers(chunks, n);
        assert In(Range(ref, size), n);
      }
    }
  }

  lemma SameBytes(chunks: map<nat, nat>, p: nat, ref: nat, size: nat)
    requires p in chunks && p + chunks[p] == ref
    ensures forall n: nat :: Covers(chunks, n) || In(Range(p, chunks[p] + size), n) <==>
              Covers(chunks, n) || In(Range(ref, size), n)
  {
    forall n: nat ensures In(Range(p, chunks[p] + size), n) ==> Covers(chunks, n) || In(Range(ref, size), n) {
    }
  }

  // ---- Any number of frees, in any order ----

  ghost predicate InSome(rs: seq<Range>, n: nat) {
    exists i :: 0 <= i < |rs| && In(rs[i], n)
  }

  /** What the file format promises of freed nodes: aligned, not empty, and no two share a byte. */
  ghost predicate Frees(rs: seq<Range>) {
    && (forall i :: 0 <= i < |rs| ==> rs[i].ref > 0 && rs[i].ref % 8 == 0 && rs[i].size > 0)
    && (forall i, j, n: nat :: 0 <= i < j < |rs| && In(rs[i], n) ==> !In(rs[j], n))
  }

  lemma InSomeMore(rs: seq<Range>, k: nat, n: nat)
    requires k < |rs|
    ensures InSome(rs[..k + 1], n) <==> InSome(rs[..k], n) || In(rs[k], n)
  {
    if InSome(rs[..k], n) {
      var i :| 0 <= i < k && In(rs[..k][i], n);
      assert In(rs[..k + 1][i], n);
    }
    if In(rs[k], n) {
      assert In(rs[..k + 1][k], n);
    }
    if InSome(rs[..k + 1], n) && !In(rs[k], n) {
      var i :| 0 <= i < k + 1 && In(rs[..k + 1][i], n);
      assert In(rs[..k][i], n);
    }
  }

  /** After a run of frees the map holds exactly the freed bytes. */
  method FreeRun(rs: seq<Range>) returns (s: ReadOnlyFree)
    requires Frees(rs)
    ensures fresh(s) && Gapped(s.chunks)
    ensures forall n: nat :: Covers(s.chunks, n) <==> InSome(rs, n)
  {
    s := new ReadOnlyFree();
    for k := 0 to |rs|
      invariant Gapped(s.chunks) && fresh(s)
      invariant forall n: nat :: Covers(s.chunks, n) <==> InSome(rs[..k], n)
    {
      forall n: nat | In(rs[k], n) ensures !InSome(rs[..k], n) {
      }
      forall n: nat ensures InSome(rs[..k + 1], n) <==> InSome(rs[..k], n) || In(rs[k], n) {
        InSomeMore(rs, k, n);
      }
      s.Free(rs[k].ref, rs[k].size);
    }
    assert rs[..|rs|] == rs;
  }

  /** Two runs that free the same bytes leave the same map, whatever the order and however the bytes are cut up. */
  method AnyOrder(rs: seq<Range>, ts: seq<Range>) returns (s: ReadOnlyFree, t: ReadOnlyFree)
    requires Frees(rs) && Frees(ts) && forall n: nat :: InSome(rs, n) <==> InSome(ts, n)
    ensures s.chunks == t.chunks
  {
    s := FreeRun(rs);
    t := FreeRun(ts);
    Canonical(s.chunks, t.chunks);
  }
}
