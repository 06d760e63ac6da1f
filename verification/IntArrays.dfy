/** Array: a list of integers stored at the smallest width that holds them all, widened in place when that grows. */
module IntArrays {
  import opened Bits
  import opened BitMemory

  lemma {:induction false} PosWidth(w: nat, w': nat, i: nat)
    requires w <= w'
    ensures Pos(w, i) <= Pos(w', i)
  {
    if i > 0 {
      PosWidth(w, w', i - 1);
    }
  }

  lemma FitsMono(w: nat, w': nat, v: int)
    requires IsWidth(w) && IsWidth(w') && w <= w' && Fits(w, v)
    ensures Fits(w', v)
  {
    Widths(w);
    Widths(w');
  }

  /** A store changes its own bits only. */
  lemma PutFrame(bits: seq<bool>, pos: nat, s: seq<bool>)
    requires pos + |s| <= |bits|
    ensures Moved(bits, Put(bits, pos, s), 0, pos, 0) && Moved(bits, Put(bits, pos, s), pos + |s|, |bits|, 0)
    ensures Slice(Put(bits, pos, s), pos, |s|) == s
  {
  }

  lemma {:induction false} RunKept(bits: seq<bool>, bits': seq<bool>, w: nat, from: nat, end: nat)
    requires from <= end && Pos(w, end) <= |bits| && |bits| <= |bits'|
    requires Moved(bits, bits', Pos(w, from), Pos(w, end), 0)
    ensures Run(bits', w, from, end) == Run(bits, w, from, end)
  {
    RunMoved(bits, bits', w, from, end, 0);
  }

  lemma {:induction false} StoreBelow(bits: seq<bool>, w0: nat, w: nat, m: nat, i: nat, s: seq<bool>)
    requires w0 <= w && m <= i && Pos(w, i) + |s| <= |bits|
    ensures Pos(w0, m) <= Pos(w, i) && Run(Put(bits, Pos(w, i), s), w0, 0, m) == Run(bits, w0, 0, m)
  {
    PosMono(w, m, i);
    PosWidth(w0, w, m);
    PutFrame(bits, Pos(w, i), s);
    RunKept(bits, Put(bits, Pos(w, i), s), w0, 0, m);
  }

  lemma {:induction false} StoreAbove(bits: seq<bool>, w: nat, i: nat, n: nat, s: seq<bool>)
    requires i < n && Pos(w, n) <= |bits| && |s| == w
    ensures Pos(w, i) + w == Pos(w, i + 1) <= |bits|
    ensures Run(Put(bits, Pos(w, i), s), w, i + 1, n) == Run(bits, w, i + 1, n)
  {
    PosMono(w, i + 1, n);
    PutFrame(bits, Pos(w, i), s);
    RunKept(bits, Put(bits, Pos(w, i), s), w, i + 1, n);
  }

  lemma {:induction false} StoreHere(bits: seq<bool>, w: nat, i: nat, s: seq<bool>)
    requires Pos(w, i + 1) <= |bits| && |s| == w
    ensures Pos(w, i) + w == Pos(w, i + 1) && Run(Put(bits, Pos(w, i), s), w, i, i + 1) == [Decode(s)]
  {
    PutFrame(bits, Pos(w, i), s);
    assert Run(Put(bits, Pos(w, i), s), w, i, i) == [];
  }

  /** Writing element i at width w keeps what lies below at a width not above w, and what lies above at width w. */
  lemma {:induction false} StoreKeeps(bits: seq<bool>, w0: nat, w: nat, m: nat, i: nat, n: nat, v: int)
    requires Holds(w, v) && w0 <= w && m <= i < n && Pos(w, n) <= |bits|
    ensures Pos(w, i) + w == Pos(w, i + 1) <= |bits| && Pos(w0, m) <= |bits|
    ensures var bits' := Put(bits, Pos(w, i), Encode(w, v));
            && Run(bits', w0, 0, m) == Run(bits, w0, 0, m)
            && Run(bits', w, i, n) == [v] + Run(bits, w, i + 1, n)
  {
    StoreAbove(bits, w, i, n, Encode(w, v));
    StoreBelow(bits, w0, w, m, i, Encode(w, v));
    StoreHere(bits, w, i, Encode(w, v));
    RunSplit(Put(bits, Pos(w, i), Encode(w, v)), w, i, i + 1, n);
  }

  /** What a field holds can be held by a wider one. */
  lemma {:induction false} Recode(s: seq<bool>, w: nat)
    requires IsWidth(|s|) && IsWidth(w) && |s| <= w
    ensures Fits(w, Decode(s)) && Holds(w, Decode(s))
  {
    DecodeFits(s);
    FitsMono(|s|, w, Decode(s));
    DecodeEncode(w, Decode(s));
  }

  /** Reading element i at one width and writing it as element j, not below it, at another that is not smaller. */
  lemma {:induction false} RewriteStep(bits: seq<bool>, w0: nat, w: nat, i: nat, j: nat, n: nat, read: seq<int>,
                                       rest: seq<int>)
    requires w0 <= w && i <= j < n && Pos(w, n) <= |bits| && Pos(w0, i + 1) <= |bits|
    requires Run(bits, w0, 0, i + 1) == read && Run(bits, w, j + 1, n) == rest
    requires Holds(w, Get(bits, w0, i))
    ensures Pos(w, j) + w <= |bits| && |read| == i + 1 && Get(bits, w0, i) == read[i]
    ensures var bits' := Put(bits, Pos(w, j), Encode(w, read[i]));
            Run(bits', w0, 0, i) == read[..i] && Run(bits', w, j, n) == [read[i]] + rest
  {
    RunAt(bits, w0, 0, i + 1, i);
    RunSize(bits, w0, 0, i);
    StoreKeeps(bits, w0, w, i, j, n, read[i]);
    assert read[..i] == Run(bits, w0, 0, i);
  }

  lemma {:induction false} StoreRun(bits: seq<bool>, w: nat, i: nat, n: nat, v: int)
    requires Holds(w, v) && i < n && Pos(w, n) <= |bits|
    ensures Pos(w, i) + w <= |bits| && |Run(bits, w, 0, n)| == n
    ensures Run(Put(bits, Pos(w, i), Encode(w, v)), w, 0, n) == Run(bits, w, 0, n)[i := v]
  {
    PosMono(w, i, n);
    StoreKeeps(bits, w, w, i, i, n, v);
    var bits' := Put(bits, Pos(w, i), Encode(w, v));
    RunSize(bits, w, 0, n);
    RunSplit(bits, w, 0, i, n);
    RunSplit(bits, w, i, i + 1, n);
    RunSplit(bits', w, 0, i, n);
    RunSize(bits, w, 0, i);
    RunSize(bits, w, i, i + 1);
    ReplaceAt(Run(bits, w, 0, i), Run(bits, w, i, i + 1), Run(bits, w, i + 1, n), v);
  }

  lemma ReplaceAt(a: seq<int>, x: seq<int>, b: seq<int>, v: int)
    requires |x| == 1
    ensures (a + (x + b))[|a| := v] == a + ([v] + b)
  {
  }

  // ---- Opening a gap ----

  function Word(bits: seq<bool>, k: nat): (s: seq<bool>)
    requires 64 * k + 64 <= |bits|
    ensures |s| == 64
  {
    Slice(bits, 64 * k, 64)
  }

  /** Memory below `edge` is as it was; from there to `end` it has moved up by w. */
  ghost predicate Shifting(was: seq<bool>, bits: seq<bool>, edge: nat, end: nat, w: nat) {
    && |bits| == |was| && w <= edge <= end <= |bits|
    && (forall b :: 0 <= b < edge ==> bits[b] == was[b])
    && (forall b :: edge <= b < end ==> bits[b] == was[b - w])
    && (forall b :: end <= b < |bits| ==> bits[b] == was[b])
  }

  /** The word that takes the top bits of the word below it. */
  lemma ShiftWord(was: seq<bool>, bits: seq<bool>, k: nat, end: nat, w: nat)
    requires 0 < w < 64 && k > 0 && 64 * k + 64 <= end && Shifting(was, bits, 64 * k + 64, end, w)
    ensures var word := Or(Shl(Word(bits, k), w), Shr(Word(bits, k - 1), 64 - w));
            Shifting(was, Put(bits, 64 * k, word), 64 * k, end, w)
  {
    var word := Or(Shl(Word(bits, k), w), Shr(Word(bits, k - 1), 64 - w));
    forall j: nat | j < 64 ensures word[j] == bits[64 * k + j - w] {
      ShiftedBit(bits, k, w, j);
    }
    ShiftedInto(was, bits, k, end, w, word);
  }

  /** Bit j of the word that is stored. */
  lemma ShiftedBit(bits: seq<bool>, k: nat, w: nat, j: nat)
    requires 0 < w < 64 && k > 0 && 64 * k + 64 <= |bits| && j < 64
    ensures Or(Shl(Word(bits, k), w), Shr(Word(bits, k - 1), 64 - w))[j] == bits[64 * k + j - w]
  {
    if j < w {
      assert Word(bits, k - 1)[j + 64 - w] == bits[64 * (k - 1) + (j + 64 - w)];
    } else {
      assert Word(bits, k)[j - w] == bits[64 * k + (j - w)];
    }
  }

  lemma ShiftedInto(was: seq<bool>, bits: seq<bool>, k: nat, end: nat, w: nat, word: seq<bool>)
    requires 0 < w < 64 && k > 0 && 64 * k + 64 <= end && Shifting(was, bits, 64 * k + 64, end, w)
    requires |word| == 64 && forall j: nat :: j < 64 ==> word[j] == bits[64 * k + j - w]
    ensures Shifting(was, Put(bits, 64 * k, word), 64 * k, end, w)
  {
    var bits' := Put(bits, 64 * k, word);
    forall b | 64 * k <= b < 64 * k + 64 ensures bits'[b] == was[b - w] {
      assert bits'[b] == word[b - 64 * k];
    }
  }

  /** The bits below `off` of a word set. */
  function KeepMask(off: nat): (s: seq<bool>)
    requires off < 64
    ensures |s| == 64
  {
    if off == 0 then Not(Ones()) else Shr(Ones(), 64 - off)
  }

  function Ones(): (s: seq<bool>)
    ensures |s| == 64 && forall i :: 0 <= i < 64 ==> s[i]
  {
    seq(64, i => true)
  }

  lemma KeepMaskAt(off: nat, i: nat)
    requires off < 64 && i < 64
    ensures KeepMask(off)[i] <==> i < off
  {
  }

  /**
   * Bits pos..used are moved up by w; bits below pos are left; the words from the one of `pos` on may change otherwise.
   */
  ghost predicate GapOpened(was: seq<bool>, bits: seq<bool>, used: nat, pos: nat, w: nat) {
    && |bits| == |was|
    && Moved(was, bits, 0, pos, 0) && Moved(was, bits, pos, used, w)
  }

  /** The first word: what is below `pos` stays, the rest moves up. */
  lemma FirstWord(was: seq<bool>, bits: seq<bool>, first: nat, pos: nat, used: nat, end: nat, w: nat)
    requires 0 < w < 64 && first == pos / 64 && pos <= used && used + w <= end && 64 * first + 64 <= end
    requires Shifting(was, bits, 64 * first + 64, end, w)
    ensures var word, keep := Word(bits, first), KeepMask(pos % 64);
            GapOpened(was, Put(bits, 64 * first, Or(And(word, keep), Shl(And(word, Not(keep)), w))), used, pos, w)
  {
    var word, keep := Word(bits, first), KeepMask(pos % 64);
    var word' := Or(And(word, keep), Shl(And(word, Not(keep)), w));
    var bits' := Put(bits, 64 * first, word');
    var base := 64 * first;
    forall b | 0 <= b < pos ensures bits'[b] == was[b] {
      if b >= base {
        KeepMaskAt(pos % 64, b - base);
        assert bits'[b] == word'[b - base];
        if b - base >= w {
          KeepMaskAt(pos % 64, b - base - w);
        }
      }
    }
    forall b | pos <= b < used ensures bits'[b + w] == was[b] {
      if b + w < base + 64 {
        KeepMaskAt(pos % 64, b + w - base);
        KeepMaskAt(pos % 64, b - base);
        assert bits'[b + w] == word'[b + w - base];
      }
    }
  }

  /** open_bit_gap: word by word from the top, each taking the top bits of the one below. */
  method OpenBitGap(was: seq<bool>, used: nat, pos: nat, w: nat) returns (bits: seq<bool>)
    requires 0 < w < 64 && pos <= used && used + w <= |was| && |was| % 64 == 0
    ensures GapOpened(was, bits, used, pos, w)
    ensures forall b :: 64 * ((used + w - 1) / 64) + 64 <= b < |was| ==> bits[b] == was[b]
  {
    bits := was;
    var first := pos / 64;
    var last := (used + w - 1) / 64;
    var k := last;
    while k > first
      invariant first <= k <= last && Shifting(was, bits, 64 * k + 64, 64 * last + 64, w)
    {
      ShiftWord(was, bits, k, 64 * last + 64, w);
      bits := Put(bits, 64 * k, Or(Shl(Word(bits, k), w), Shr(Word(bits, k - 1), 64 - w)));
      k := k - 1;
    }
    FirstWord(was, bits, first, pos, used, 64 * last + 64, w);
    var word, keep := Word(bits, first), KeepMask(pos % 64);
    bits := Put(bits, 64 * first, Or(And(word, keep), Shl(And(word, Not(keep)), w)));
  }

  lemma {:induction false} GapRun(was: seq<bool>, bits: seq<bool>, w: nat, ndx: nat, n: nat)
    requires ndx <= n && Pos(w, n + 1) <= |was| && GapOpened(was, bits, Pos(w, n), Pos(w, ndx), w)
    ensures Pos(w, ndx) <= |bits| && Pos(w, n) <= |bits|
    ensures Run(bits, w, 0, ndx) == Run(was, w, 0, ndx) && Run(bits, w, ndx + 1, n + 1) == Run(was, w, ndx, n)
  {
    PosMono(w, ndx, n);
    RunKept(was, bits, w, 0, ndx);
    assert Pos(w, 1) == w by {
      assert Pos(w, 0) == 0;
    }
    RunMoved(was, bits, w, ndx, n, 1);
  }

  // ---- The array ----

  class IntArray {
    var bits: seq<bool>
    var size: nat
    var width: nat

    ghost predicate Valid()
      reads this
    {
      IsWidth(width) && |bits| % 64 == 0 && Pos(width, size) <= |bits|
    }

    ghost function Contents(): seq<int>
      requires Valid()
      reads this
    {
      Run(bits, width, 0, size)
    }

    constructor ()
      ensures Valid() && Contents() == [] && width == 0
    {
      bits, size, width := [], 0, 0;
    }

    /** Make room; memory that is added may hold anything. */
    method Alloc(newSize: nat, newWidth: nat)
      requires IsWidth(newWidth) && |bits| % 64 == 0
      modifies this
      ensures Valid() && size == newSize && width == newWidth
      ensures |old(bits)| <= |bits| && Moved(old(bits), bits, 0, |old(bits)|, 0)
    {
      PosIs(newWidth, newSize);
      var needed := (newSize * newWidth + 63) / 64 * 64;
      if |bits| < needed {
        assert |seq(needed - |bits|, _ => false)| == needed - |bits|;
        var extra: seq<bool> :| |extra| == needed - |bits|;
        bits := bits + extra;
      }
      size, width := newSize, newWidth;
    }

    method Get(i: nat) returns (v: int)
      requires Valid() && i < size
      ensures |Contents()| == size && v == Contents()[i]
    {
      PosMono(width, i, size);
      v := GetDirect(bits, width, i);
      RunAt(bits, width, 0, size, i);
    }

    /** Overwrite one element with a value that fits. */
    method Store(i: nat, v: int)
      requires Valid() && i < size && Holds(width, v)
      modifies this`bits
      ensures Valid() && |old(Contents())| == size && Contents() == old(Contents())[i := v]
    {
      StoreRun(bits, width, i, size, v);
      bits := SetDirect(bits, width, i, v);
    }

    /** Read element i at width w0 and write it as element j, not below it, at the present width. */
    method Rewrite(w0: nat, i: nat, j: nat, ghost read: seq<int>, ghost rest: seq<int>)
      requires Valid() && IsWidth(w0) && w0 <= width && i <= j < size && Pos(w0, i + 1) <= |bits|
      requires |read| == i + 1 && Run(bits, w0, 0, i + 1) == read && Run(bits, width, j + 1, size) == rest
      modifies this`bits
      ensures Valid() && |bits| == |old(bits)| && Pos(w0, i) <= |bits|
      ensures Run(bits, w0, 0, i) == read[..i] && Run(bits, width, j, size) == [read[i]] + rest
    {
      PosMono(width, j, size);
      var v := GetDirect(bits, w0, i);
      Recode(Slice(bits, Pos(w0, i), w0), width);
      RewriteStep(bits, w0, width, i, j, size, read, rest);
      bits := SetDirect(bits, width, j, v);
    }

    /**
     * Rewrite elements 0..m, stored at width w0, at the present width, from the top down. What has not been read is
     * never overwritten: it lies below the element being written.
     */
    method Expand(w0: nat, m: nat, ghost head: seq<int>, ghost tail: seq<int>)
      requires Valid() && IsWidth(w0) && w0 <= width && m <= size && Pos(w0, m) <= |bits|
      requires |head| == m && Run(bits, w0, 0, m) == head && Run(bits, width, m, size) == tail
      modifies this`bits
      ensures Valid() && Contents() == head + tail
    {
      var i: nat := m;
      while i != 0
        invariant i <= m && |bits| == |old(bits)| && Pos(w0, i) <= |bits|
        invariant Run(bits, w0, 0, i) == head[..i] && Run(bits, width, i, size) == head[i..] + tail
      {
        i := i - 1;
        Peel(head, i, tail);
        Rewrite(w0, i, i, head[..i + 1], head[i + 1..] + tail);
      }
    }

    /** Move elements ndx..n, stored at width w0, up by one, at the present width. */
    method ExpandUp(w0: nat, ndx: nat, n: nat, ghost elems: seq<int>)
      requires Valid() && IsWidth(w0) && w0 <= width && ndx <= n && size == n + 1 && Pos(w0, n) <= |bits|
      requires |elems| == n && Run(bits, w0, 0, n) == elems
      modifies this`bits
      ensures Valid() && Pos(w0, ndx) <= |bits|
      ensures Run(bits, w0, 0, ndx) == elems[..ndx] && Run(bits, width, ndx + 1, size) == elems[ndx..]
    {
      var i: nat := n;
      while i > ndx
        invariant ndx <= i <= n && |bits| == |old(bits)| && Pos(w0, i) <= |bits|
        invariant Run(bits, w0, 0, i) == elems[..i] && Run(bits, width, i + 1, size) == elems[i..]
      {
        i := i - 1;
        Peel(elems, i, []);
        Rewrite(w0, i, i + 1, elems[..i + 1], elems[i + 1..]);
      }
    }

    /** Move elements ndx..n up by one at a width of whole bytes. */
    method MoveUp(ndx: nat, n: nat)
      requires Valid() && ndx <= n && size == n + 1
      modifies this`bits
      ensures Valid() && GapOpened(old(bits), bits, Pos(width, n), Pos(width, ndx), width)
    {
      PosMono(width, ndx, n);
      PosIs(width, ndx);
      PosIs(width, n);
      var from, to := ndx * width, n * width;
      bits := Put(bits, from + width, bits[from..to]);
    }

    /** Open a place for element ndx without changing the width. */
    method OpenGap(ndx: nat, n: nat)
      requires Valid() && ndx <= n && size == n + 1
      modifies this`bits
      ensures Valid() && Pos(width, ndx) <= |bits| && Pos(width, ndx) <= |old(bits)| && Pos(width, n) <= |old(bits)|
      ensures Run(bits, width, 0, ndx) == Run(old(bits), width, 0, ndx)
      ensures Run(bits, width, ndx + 1, size) == Run(old(bits), width, ndx, n)
    {
      PosMono(width, ndx, n);
      PosIs(width, ndx);
      PosIs(width, n);
      ghost var was := bits;
      if width < 8 {
        if width != 0 && ndx != n {
          bits := OpenBitGap(bits, n * width, ndx * width, width);
        }
      } else if ndx != n {
        MoveUp(ndx, n);
      }
      if width == 0 || ndx == n {
        assert GapOpened(was, bits, Pos(width, n), Pos(width, ndx), width);
      }
      GapRun(was, bits, width, ndx, n);
    }

    /** Put the value into the place opened for it. */
    method Fill(ndx: nat, value: int, ghost head: seq<int>, ghost tail: seq<int>)
      requires Valid() && ndx < size && Holds(width, value)
      requires Pos(width, ndx) <= |bits| && Run(bits, width, 0, ndx) == head && Run(bits, width, ndx + 1, size) == tail
      modifies this`bits
      ensures Valid() && Contents() == head + [value] + tail
    {
      PosMono(width, ndx, size);
      StoreKeeps(bits, width, width, ndx, ndx, size, value);
      bits := SetDirect(bits, width, ndx, value);
      RunSplit(bits, width, 0, ndx, size);
    }

    /** The same when the elements below it still have to be rewritten. */
    method FillWider(w0: nat, ndx: nat, value: int, ghost head: seq<int>, ghost tail: seq<int>)
      requires Valid() && ndx < size && Holds(width, value) && IsWidth(w0) && w0 <= width
      requires Pos(w0, ndx) <= |bits| && |head| == ndx && Run(bits, w0, 0, ndx) == head
      requires Run(bits, width, ndx + 1, size) == tail
      modifies this`bits
      ensures Valid() && Contents() == head + [value] + tail
    {
      StoreKeeps(bits, w0, width, ndx, ndx, size, value);
      bits := SetDirect(bits, width, ndx, value);
      Expand(w0, ndx, head, [value] + tail);
      assert head + ([value] + tail) == head + [value] + tail;
    }

    method InsertSame(ndx: nat, value: int, ghost elems: seq<int>)
      requires Valid() && ndx <= size && Holds(width, value) && Contents() == elems && |elems| == size
      modifies this
      ensures Valid() && size == old(size) + 1 && width == old(width)
      ensures Contents() == elems[..ndx] + [value] + elems[ndx..]
    {
      ghost var was := bits;
      var n := size;
      Alloc(n + 1, width);
      RunKept(was, bits, width, 0, n);
      RunParts(bits, width, ndx, n, elems);
      OpenGap(ndx, n);
      Fill(ndx, value, elems[..ndx], elems[ndx..]);
    }

    method InsertWider(ndx: nat, value: int, ghost elems: seq<int>)
      requires Valid() && ndx <= size && IsInt64(value) && !Fits(width, value) && Contents() == elems && |elems| == size
      modifies this
      ensures Valid() && size == old(size) + 1 && width == BitWidth(value)
      ensures Contents() == elems[..ndx] + [value] + elems[ndx..]
    {
      ghost var was := bits;
      var w0, n := width, size;
      BitWidthLeast(value, w0);
      BitWidthLeast(value, BitWidth(value));
      DecodeEncode(BitWidth(value), value);
      Alloc(n + 1, BitWidth(value));
      RunKept(was, bits, w0, 0, n);
      ExpandUp(w0, ndx, n, elems);
      FillWider(w0, ndx, value, elems[..ndx], elems[ndx..]);
    }

    /** Insert a value before element ndx, at a larger width if it needs one. */
    method Insert(ndx: nat, value: int)
      requires Valid() && ndx <= size && IsInt64(value)
      modifies this
      ensures Valid() && size == old(size) + 1 && |old(Contents())| == old(size)
      ensures Contents() == old(Contents())[..ndx] + [value] + old(Contents())[ndx..]
      ensures width == if Fits(old(width), value) then old(width) else BitWidth(value)
    {
      RunSize(bits, width, 0, size);
      if value < LBound(width) || value > UBound(width) {
        InsertWider(ndx, value, Contents());
      } else {
        DecodeEncode(width, value);
        InsertSame(ndx, value, Contents());
      }
    }

    /** Widen to hold a value; the elements stay. */
    method EnsureMinimumWidth(value: int)
      requires Valid() && IsInt64(value)
      modifies this
      ensures Valid() && size == old(size) && Contents() == old(Contents()) && Holds(width, value)
      ensures width == if Fits(old(width), value) then old(width) else BitWidth(value)
    {
      if value < LBound(width) || value > UBound(width) {
        ghost var was, elems := bits, Contents();
        var w0 := width;
        RunSize(bits, width, 0, size);
        BitWidthLeast(value, w0);
        BitWidthLeast(value, BitWidth(value));
        DecodeEncode(BitWidth(value), value);
        Alloc(size, BitWidth(value));
        RunKept(was, bits, w0, 0, size);
        Expand(w0, size, elems, []);
      } else {
        DecodeEncode(width, value);
      }
    }

    method Set(ndx: nat, value: int)
      requires Valid() && ndx < size && IsInt64(value)
      modifies this
      ensures Valid() && size == old(size) && |old(Contents())| == size && Contents() == old(Contents())[ndx := value]
      ensures width == if Fits(old(width), value) then old(width) else BitWidth(value)
    {
      var present := Get(ndx);
      if present == value {
        ElementFits(bits, width, ndx, size);
      } else {
        EnsureMinimumWidth(value);
        Store(ndx, value);
      }
    }

    /** Drop elements from the end; an array that becomes empty goes back to width 0. */
    method Truncate(newSize: nat)
      requires Valid() && newSize <= size
      modifies this
      ensures Valid() && size == newSize && |old(Contents())| == old(size) && Contents() == old(Contents())[..newSize]
      ensures width == if newSize == 0 && old(size) > 0 then 0 else old(width)
    {
      RunSplit(bits, width, 0, newSize, size);
      RunSize(bits, width, 0, newSize);
      RunSize(bits, width, 0, size);
      PosMono(width, newSize, size);
      var was := size;
      size := newSize;
      if newSize == 0 && was > 0 {
        width := 0;
      }
    }

    /** Copy element i over element j, at the same width. */
    method CopyTo(i: nat, j: nat)
      requires Valid() && i < size && j < size
      modifies this`bits
      ensures Valid() && |old(Contents())| == size && Contents() == old(Contents())[j := old(Contents())[i]]
    {
      ElementFits(bits, width, i, size);
      var v := Get(i);
      DecodeEncode(width, v);
      Store(j, v);
    }

    /** Move the elements behind ndx down by one, one at a time. */
    method MoveDownSlow(ndx: nat)
      requires Valid() && ndx < size
      modifies this`bits
      ensures Valid() && |old(Contents())| == size && Pos(width, size - 1) <= |bits|
      ensures Run(bits, width, 0, size - 1) == old(Contents())[..ndx] + old(Contents())[ndx + 1..]
    {
      ghost var elems := Contents();
      RunSize(bits, width, 0, size);
      assert Lowered(elems, ndx, ndx + 1) == elems;
      for i := ndx + 1 to size
        invariant Valid() && Contents() == Lowered(elems, ndx, i)
      {
        LowerOne(ndx, i, elems);
      }
      LoweredAll(elems, ndx);
      RunParts(bits, width, size - 1, size, Lowered(elems, ndx, size));
    }

    method LowerOne(ndx: nat, i: nat, ghost elems: seq<int>)
      requires Valid() && ndx < i < size == |elems| && Contents() == Lowered(elems, ndx, i)
      modifies this`bits
      ensures Valid() && Contents() == Lowered(elems, ndx, i + 1)
    {
      LoweredStep(elems, ndx, i);
      CopyTo(i, i - 1);
    }

    method MoveDown(ndx: nat)
      requires Valid() && ndx < size
      modifies this`bits
      ensures Valid() && |old(Contents())| == size && Pos(width, size - 1) <= |bits|
      ensures Run(bits, width, 0, size - 1) == old(Contents())[..ndx] + old(Contents())[ndx + 1..]
    {
      PosIs(width, ndx);
      PosIs(width, size);
      PosMono(width, ndx, size);
      DownRun(bits, width, ndx, size);
      var from, end := ndx * width, size * width;
      bits := Put(bits, from, bits[from + width..end]);
    }

    /** Remove element ndx; the width stays. */
    method Erase(ndx: nat)
      requires Valid() && ndx < size
      modifies this
      ensures Valid() && size == old(size) - 1 && width == old(width) && |old(Contents())| == old(size)
      ensures Contents() == old(Contents())[..ndx] + old(Contents())[ndx + 1..]
    {
      if width < 8 {
        MoveDownSlow(ndx);
      } else {
        MoveDown(ndx);
      }
      size := size - 1;
    }

    /** The least and the greatest of elements begin..end. */
    method Extremes(begin: nat, end: nat) returns (mn: int, mx: int)
      requires Valid() && begin < end <= size
      ensures |Contents()| == size
      ensures forall k :: begin <= k < end ==> mn <= Contents()[k] <= mx
      ensures (exists k :: begin <= k < end && Contents()[k] == mn)
      ensures (exists k :: begin <= k < end && Contents()[k] == mx)
    {
      RunSize(bits, width, 0, size);
      mn, mx := INT64_MAX, INT64_MIN;
      for i := begin to end
        invariant forall k :: begin <= k < i ==> mn <= Contents()[k] <= mx
        invariant i > begin ==> exists k :: begin <= k < i && Contents()[k] == mn
        invariant i > begin ==> exists k :: begin <= k < i && Contents()[k] == mx
        invariant i == begin ==> mn == INT64_MAX && mx == INT64_MIN
      {
        ElementFits(bits, width, i, size);
        FitsMono(width, 64, Contents()[i]);
        var v := Get(i);
        if v < mn {
          mn := v;
        }
        if v > mx {
          mx := v;
        }
      }
    }

    /** Add `diff` to elements begin..end, widening as the values need it. */
    method AdjustWider(begin: nat, end: nat, diff: int, ghost elems: seq<int>)
      requires Valid() && begin <= end <= size && Contents() == elems && |elems| == size
      requires forall k :: begin <= k < end ==> IsInt64(elems[k] + diff)
      modifies this
      ensures Valid() && size == old(size) && Contents() == Raised(elems, begin, end, diff) && width >= old(width)
      ensures forall w :: w >= old(width) && Roomy(w, elems, begin, end, diff) ==> width <= w
    {
      assert Raised(elems, begin, begin, diff) == elems;
      for i := begin to end
        invariant Valid() && size == old(size) && Contents() == Raised(elems, begin, i, diff) && width >= old(width)
        invariant forall w :: w >= old(width) && Roomy(w, elems, begin, end, diff) ==> width <= w
      {
        var v := Get(i);
        RoomyAt(elems, begin, end, diff, i);
        BitWidthLeast(v + diff, width);
        RaisedStep(elems, begin, i, diff);
        Set(i, v + diff);
      }
    }

    method AddTo(i: nat, diff: int, ghost present: int)
      requires Valid() && i < size && |Contents()| == size && Contents()[i] == present
      requires LBound(width) <= present + diff <= UBound(width)
      modifies this`bits
      ensures Valid() && |old(Contents())| == size && Contents() == old(Contents())[i := present + diff]
    {
      var v := Get(i);
      DecodeEncode(width, v + diff);
      Store(i, v + diff);
    }

    /** Add `diff` to elements begin..end, all of which still fit the width. */
    method AdjustInPlace(begin: nat, end: nat, diff: int, ghost elems: seq<int>)
      requires Valid() && begin <= end <= size && Contents() == elems && |elems| == size
      requires forall k :: begin <= k < end ==> LBound(width) <= elems[k] + diff <= UBound(width)
      modifies this
      ensures Valid() && size == old(size) && width == old(width) && Contents() == Raised(elems, begin, end, diff)
    {
      assert Raised(elems, begin, begin, diff) == elems;
      for i := begin to end
        invariant Valid() && size == old(size) && width == old(width) && Contents() == Raised(elems, begin, i, diff)
      {
        RaisedStep(elems, begin, i, diff);
        AddTo(i, diff, elems[i]);
      }
    }

    /**
     * Add `diff` to elements begin..end, at the least width that holds the sums and is not below the present one. The
     * fast loop runs if the extremes still fit the width.
     */
    method Adjust(begin: nat, end: nat, diff: int)
      requires Valid() && end <= size && |Contents()| == size
      requires forall k :: begin <= k < end ==> IsInt64(Contents()[k] + diff)
      modifies this
      ensures Valid() && size == old(size) && |Contents()| == size
      ensures forall k :: 0 <= k < size ==> Contents()[k] == old(Contents())[k] + if begin <= k < end then diff else 0
      ensures width >= old(width)
      ensures forall w :: w >= old(width) && Roomy(w, old(Contents()), begin, end, diff) ==> width <= w
    {
      if diff == 0 || begin >= end {
        return;
      }
      var mn, mx := Extremes(begin, end);
      if mn + diff < LBound(width) || mx + diff > UBound(width) {
        AdjustWider(begin, end, diff, Contents());
      } else {
        AdjustInPlace(begin, end, diff, Contents());
      }
    }
  }

  /** The elements with `diff` added to those in begin..end. */
  ghost function Raised(s: seq<int>, begin: nat, end: nat, diff: int): (r: seq<int>)
    ensures |r| == |s|
    ensures forall k :: 0 <= k < |s| ==> r[k] == s[k] + if begin <= k < end then diff else 0
  {
    seq(|s|, k requires 0 <= k < |s| => s[k] + if begin <= k < end then diff else 0)
  }

  lemma RaisedStep(s: seq<int>, begin: nat, i: nat, diff: int)
    requires begin <= i < |s|
    ensures Raised(s, begin, i + 1, diff) == Raised(s, begin, i, diff)[i := s[i] + diff]
  {
  }

  /** A width that holds elements begin..end of `s` with `diff` added. */
  ghost predicate Roomy(w: nat, s: seq<int>, begin: nat, end: nat, diff: int)
    requires end <= |s|
  {
    IsWidth(w) && forall k :: begin <= k < end ==> Fits(w, s[k] + diff)
  }

  lemma RoomyAt(s: seq<int>, begin: nat, end: nat, diff: int, i: nat)
    requires begin <= i < end <= |s| && IsInt64(s[i] + diff)
    ensures forall w :: Roomy(w, s, begin, end, diff) ==> BitWidth(s[i] + diff) <= w
  {
    forall w | Roomy(w, s, begin, end, diff) ensures BitWidth(s[i] + diff) <= w {
      BitWidthLeast(s[i] + diff, w);
    }
  }

  /** The elements between ndx and i moved down by one. */
  ghost function Lowered(s: seq<int>, ndx: nat, i: nat): (r: seq<int>)
    requires ndx < i <= |s|
    ensures |r| == |s| && forall k :: 0 <= k < |s| ==> r[k] == if ndx <= k < i - 1 then s[k + 1] else s[k]
  {
    seq(|s|, k requires 0 <= k < |s| => if ndx <= k < i - 1 then s[k + 1] else s[k])
  }

  lemma LoweredStep(s: seq<int>, ndx: nat, i: nat)
    requires ndx < i < |s|
    ensures Lowered(s, ndx, i)[i - 1 := Lowered(s, ndx, i)[i]] == Lowered(s, ndx, i + 1)
  {
  }

  lemma LoweredAll(s: seq<int>, ndx: nat)
    requires ndx < |s|
    ensures Lowered(s, ndx, |s|)[..|s| - 1] == s[..ndx] + s[ndx + 1..]
  {
  }

  /** The elements behind ndx, stored where element ndx was. */
  ghost function Closed(was: seq<bool>, w: nat, ndx: nat, n: nat): seq<bool>
    requires Pos(w, ndx) + w <= Pos(w, n) <= |was|
  {
    Put(was, Pos(w, ndx), was[Pos(w, ndx) + w..Pos(w, n)])
  }

  lemma {:induction false} DownLow(was: seq<bool>, w: nat, ndx: nat, n: nat)
    requires Pos(w, ndx) + w <= Pos(w, n) <= |was|
    ensures Run(Closed(was, w, ndx, n), w, 0, ndx) == Run(was, w, 0, ndx)
  {
    PutDown(was, Pos(w, ndx), w, Pos(w, n));
    RunKept(was, Closed(was, w, ndx, n), w, 0, ndx);
  }

  lemma {:induction false} DownHigh(was: seq<bool>, w: nat, ndx: nat, n: nat)
    requires ndx < n && Pos(w, ndx) + w <= Pos(w, n) <= |was|
    ensures Pos(w, n - 1) + w == Pos(w, n) && Run(Closed(was, w, ndx, n), w, ndx, n - 1) == Run(was, w, ndx + 1, n)
  {
    var m: nat, bits := n - 1, Closed(was, w, ndx, n);
    assert Pos(w, 1) == w by {
      assert Pos(w, 0) == 0;
    }
    PosMono(w, ndx, m);
    assert Moved(bits, was, Pos(w, ndx), Pos(w, m), Pos(w, 1)) by {
      PutDown(was, Pos(w, ndx), w, Pos(w, n));
    }
    RunMoved(bits, was, w, ndx, m, 1);
  }

  lemma {:induction false} DownRun(was: seq<bool>, w: nat, ndx: nat, n: nat)
    requires ndx < n && Pos(w, ndx) + w <= Pos(w, n) <= |was|
    ensures Pos(w, n - 1) + w == Pos(w, n) && |Run(was, w, 0, n)| == n
    ensures Run(Closed(was, w, ndx, n), w, 0, n - 1) == Run(was, w, 0, n)[..ndx] + Run(was, w, 0, n)[ndx + 1..]
  {
    DownLow(was, w, ndx, n);
    DownHigh(was, w, ndx, n);
    RunParts(was, w, ndx, n, Run(was, w, 0, n));
    RunParts(was, w, ndx + 1, n, Run(was, w, 0, n));
    RunSplit(Closed(was, w, ndx, n), w, 0, ndx, n - 1);
  }

  lemma PutDown(was: seq<bool>, p: nat, w: nat, r: nat)
    requires p + w <= r <= |was|
    ensures var bits := Put(was, p, was[p + w..r]);
            Moved(was, bits, 0, p, 0) && Moved(bits, was, p, r - w, w)
  {
    var bits := Put(was, p, was[p + w..r]);
    forall k | p <= k < r - w ensures was[k + w] == bits[k] {
    }
  }

  /** What is stored at a width fits it. */
  lemma {:induction false} ElementFits(bits: seq<bool>, w: nat, i: nat, n: nat)
    requires IsWidth(w) && i < n && Pos(w, n) <= |bits|
    ensures |Run(bits, w, 0, n)| == n && Fits(w, Run(bits, w, 0, n)[i])
  {
    RunAt(bits, w, 0, n, i);
    DecodeFits(Slice(bits, Pos(w, i), w));
  }

  lemma {:induction false} RunParts(bits: seq<bool>, w: nat, ndx: nat, n: nat, elems: seq<int>)
    requires ndx <= n && Pos(w, n) <= |bits| && Run(bits, w, 0, n) == elems
    ensures Pos(w, ndx) <= |bits| && |elems| == n
    ensures Run(bits, w, 0, ndx) == elems[..ndx] && Run(bits, w, ndx, n) == elems[ndx..]
  {
    RunSplit(bits, w, 0, ndx, n);
    RunSize(bits, w, 0, ndx);
    RunSize(bits, w, 0, n);
  }

  lemma Peel(s: seq<int>, i: nat, tail: seq<int>)
    requires i < |s|
    ensures s[..i + 1][..i] == s[..i] && s[..i + 1][i] == s[i] && [s[i]] + (s[i + 1..] + tail) == s[i..] + tail
    ensures [s[i]] + s[i + 1..] == s[i..]
  {
  }
}
