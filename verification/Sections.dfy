/** Placing an array in a free chunk of the file so that it does not cross a section end. */
module Sections {
  import opened SlabSets

  function UpperBoundary(pos: nat): nat {
    (1 + pos / SECTION) * SECTION
  }

  /** A request placed at p lies in the chunk, and its first and its last byte in the same section. */
  ghost predicate Holds(start: nat, chunk: nat, request: nat, p: nat) {
    && start <= p && p + request <= start + chunk
    && (request > 0 ==> p / SECTION == (p + request - 1) / SECTION)
  }

  lemma InOneSection(p: nat, request: nat)
    ensures (request > 0 ==> p / SECTION == (p + request - 1) / SECTION) <==> p + request <= UpperBoundary(p)
  {
  }

  lemma BoundaryOk(pos: nat)
    ensures pos < UpperBoundary(pos) && UpperBoundary(pos) % SECTION == 0
    ensures forall q: nat :: pos <= q < UpperBoundary(pos) ==> UpperBoundary(q) == UpperBoundary(pos)
  {
    forall q: nat | pos <= q < UpperBoundary(pos) ensures UpperBoundary(q) == UpperBoundary(pos) {
      assert q / SECTION == pos / SECTION;
    }
  }

  /** The first place for the request. 0 says that there is none, or that it is 0 itself. */
  method FindSectionInRange(start: nat, chunk: nat, request: nat) returns (p: nat)
    ensures p == 0 <==> Holds(start, chunk, request, 0) || forall q: nat :: !Holds(start, chunk, request, q)
    ensures start > 0 ==> (p == 0 <==> forall q: nat :: !Holds(start, chunk, request, q))
    ensures p > 0 ==> Holds(start, chunk, request, p) && forall q: nat :: Holds(start, chunk, request, q) ==> p <= q
  {
    var end := start + chunk;
    var pos := start;
    while pos + request <= end
      invariant pos >= start
      invariant forall q: nat :: Holds(start, chunk, request, q) ==> q >= pos
      decreases end - pos
    {
      var boundary := UpperBoundary(pos);
      BoundaryOk(pos);
      InOneSection(pos, request);
      if pos + request <= boundary {
        assert Holds(start, chunk, request, pos);
        return pos;
      }
      forall q: nat | Holds(start, chunk, request, q) ensures q >= boundary {
        InOneSection(q, request);
        assert q < boundary ==> UpperBoundary(q) == boundary;
      }
      pos := boundary;
    }
    p := 0;
  }
}
