/**
 * Immutable blocks of optional byte strings: cutting values into blocks, encoding a block and reading one record of it.
 */
module PackedBlocks {
  import opened Options

  type Byte = x: nat | x < 0x100

  type Value = Option<seq<Byte>>

  const TARGET_BLOCK_SIZE: nat := 256 * 1024
  const MAX_INLINE_BLOCK_SIZE: nat := 1024 * 1024
  const BLOCK_MAGIC: nat := 0x4b4c_4250
  const BLOCK_VERSION: nat := 1
  const NULL_LENGTH: nat := 0xffff_ffff
  const BLOCK_HEADER: nat := 16
  const DIRECTORY_ENTRY: nat := 8
  const MAX_RECORDS: nat := 0xffff
  /** ArrayBlob::max_binary_size, the largest value can_pack accepts, and the largest that create_block accepts. */
  const MAX_BINARY_SIZE: nat := 0xFFFFF8 - 8
  const MAX_VALUE: nat := MAX_BINARY_SIZE - (8 + 16 + 8)
  const MAX_STORED: nat := MAX_BINARY_SIZE - (16 + 8)

  function Size(v: Value): nat {
    if v.Some? then |v.value| else 0
  }

  ghost predicate AllUpTo(values: seq<Value>, n: nat) {
    forall i :: 0 <= i < |values| ==> Size(values[i]) <= n
  }

  /** A packed leaf can be made of the values. */
  ghost predicate Packable(values: seq<Value>) {
    AllUpTo(values, MAX_VALUE)
  }

  /**
   * A packed leaf that is there can take the values. The bound is eight bytes higher: only can_pack counts a node
   * header.
   */
  ghost predicate Storable(values: seq<Value>) {
    AllUpTo(values, MAX_STORED)
  }

  method CanPack(values: seq<Value>) returns (ok: bool)
    ensures ok <==> values != [] && Packable(values)
  {
    if |values| == 0 {
      return false;
    }
    for i := 0 to |values|
      invariant forall k :: 0 <= k < i ==> Size(values[k]) <= MAX_VALUE
    {
      if Size(values[i]) > MAX_VALUE {
        return false;
      }
    }
    ok := true;
  }

  // ---- Little-endian numbers ----

  function U16(v: nat): (r: seq<Byte>)
    ensures |r| == 2
  {
    [v % 0x100, v / 0x100 % 0x100]
  }

  function U32(v: nat): (r: seq<Byte>)
    ensures |r| == 4
  {
    [v % 0x100, v / 0x100 % 0x100, v / 0x1_0000 % 0x100, v / 0x100_0000 % 0x100]
  }

  function ReadU16(d: seq<Byte>, p: nat): nat
    requires p + 2 <= |d|
  {
    d[p] as nat + 0x100 * d[p + 1] as nat
  }

  function ReadU32(d: seq<Byte>, p: nat): nat
    requires p + 4 <= |d|
  {
    d[p] as nat + 0x100 * d[p + 1] as nat + 0x1_0000 * d[p + 2] as nat + 0x100_0000 * d[p + 3] as nat
  }

  lemma RoundTrip16(d: seq<Byte>, p: nat, v: nat)
    requires p + 2 <= |d| && d[p..p + 2] == U16(v) && v < 0x1_0000
    ensures ReadU16(d, p) == v
  {
    assert d[p] == d[p..p + 2][0] && d[p + 1] == d[p..p + 2][1];
  }

  lemma RoundTrip32(d: seq<Byte>, p: nat, v: nat)
    requires p + 4 <= |d| && d[p..p + 4] == U32(v) && v < 0x1_0000_0000
    ensures ReadU32(d, p) == v
  {
    var e := d[p..p + 4];
    assert d[p] == e[0] && d[p + 1] == e[1] && d[p + 2] == e[2] && d[p + 3] == e[3];
    Digits(v);
  }

  lemma Digits(v: nat)
    requires v < 0x1_0000_0000
    ensures v == v % 0x100 + 0x100 * (v / 0x100 % 0x100) + 0x1_0000 * (v / 0x1_0000 % 0x100)
                 + 0x100_0000 * (v / 0x100_0000 % 0x100)
  {
    var a, b, c := v / 0x100, v / 0x1_0000, v / 0x100_0000;
    assert v == v % 0x100 + 0x100 * a;
    assert a == a % 0x100 + 0x100 * b;
    assert b == b % 0x100 + 0x100 * c;
    assert c % 0x100 == c;
  }

  // ---- A block ----

  function Payload(values: seq<Value>): seq<Byte> {
    if values == [] then []
    else
      var n := |values| - 1;
      Payload(values[..n]) + (if values[n].Some? then values[n].value else [])
  }

  function Entry(offset: nat, v: Value): (r: seq<Byte>)
    ensures |r| == DIRECTORY_ENTRY
  {
    U32(offset) + U32(if v.None? then NULL_LENGTH else |v.value|)
  }

  function Directory(values: seq<Value>): (r: seq<Byte>)
    ensures |r| == DIRECTORY_ENTRY * |values|
  {
    if values == [] then []
    else
      var n := |values| - 1;
      Directory(values[..n]) + Entry(|Payload(values[..n])|, values[n])
  }

  function Header(values: seq<Value>): (r: seq<Byte>)
    ensures |r| == BLOCK_HEADER
  {
    U32(BLOCK_MAGIC) + U16(BLOCK_VERSION) + U16(|values|) + U32(|values| * DIRECTORY_ENTRY) + U32(|Payload(values)|)
  }

  /** The bytes of a block, without the padding. */
  function Encoded(values: seq<Value>): seq<Byte> {
    Header(values) + Directory(values) + Payload(values)
  }

  function DataSize(values: seq<Value>): nat {
    BLOCK_HEADER + |values| * DIRECTORY_ENTRY + |Payload(values)|
  }

  /** What create_block accepts. */
  predicate BlockOk(values: seq<Value>) {
    0 < |values| <= MAX_RECORDS && DataSize(values) <= MAX_BINARY_SIZE
  }

  lemma {:induction false} PayloadMono(values: seq<Value>, i: nat)
    requires i <= |values|
    ensures |Payload(values[..i])| <= |Payload(values)|
    ensures Payload(values)[..|Payload(values[..i])|] == Payload(values[..i])
    decreases |values|
  {
    if i < |values| {
      var n: nat := |values| - 1;
      assert values[..n][..i] == values[..i];
      PayloadMono(values[..n], i);
    } else {
      assert values[..i] == values;
    }
  }

  /** Record i in the payload. */
  lemma {:induction false} PayloadAt(values: seq<Value>, i: nat)
    requires i < |values|
    ensures |Payload(values[..i])| + Size(values[i]) <= |Payload(values)|
    ensures var from := |Payload(values[..i])|;
            values[i].Some? ==> Payload(values)[from..from + Size(values[i])] == values[i].value
  {
    PayloadMono(values, i + 1);
    assert values[..i + 1][..i] == values[..i];
    var from, p := |Payload(values[..i])|, Payload(values[..i + 1]);
    assert p == Payload(values)[..|p|];
    if values[i].Some? {
      assert p[from..from + Size(values[i])] == values[i].value;
    }
  }

  lemma {:induction false} DirectoryAt(values: seq<Value>, i: nat)
    requires i < |values|
    ensures Directory(values)[DIRECTORY_ENTRY * i..DIRECTORY_ENTRY * i + DIRECTORY_ENTRY]
         == Entry(|Payload(values[..i])|, values[i])
    decreases |values|
  {
    var n: nat := |values| - 1;
    if i < n {
      assert values[..n][..i] == values[..i];
      DirectoryAt(values[..n], i);
    }
  }

  /** The record has an entry in the directory, and that points into the block. */
  predicate HasRecord(block: seq<Byte>, row: nat) {
    && BLOCK_HEADER + DIRECTORY_ENTRY * row + DIRECTORY_ENTRY <= |block|
    && var entry := BLOCK_HEADER + row * DIRECTORY_ENTRY;
       var length := ReadU32(block, entry + 4);
       length == NULL_LENGTH || BLOCK_HEADER + ReadU32(block, 8) + ReadU32(block, entry) + length <= |block|
  }

  /** A record of a block: a byte string, empty or not, or null. */
  function GetFromBlock(block: seq<Byte>, row: nat): (v: Value)
    requires HasRecord(block, row)
  {
    var entry := BLOCK_HEADER + row * DIRECTORY_ENTRY;
    var from := BLOCK_HEADER + ReadU32(block, 8) + ReadU32(block, entry);
    var length := ReadU32(block, entry + 4);
    if length == NULL_LENGTH then None else Some(block[from..from + length])
  }

  lemma {:induction false} HeaderFields(values: seq<Value>, block: seq<Byte>)
    requires BlockOk(values) && block == Encoded(values)
    ensures |block| == DataSize(values) && ReadU32(block, 0) == BLOCK_MAGIC && ReadU16(block, 4) == BLOCK_VERSION
    ensures ReadU16(block, 6) == |values| && ReadU32(block, 8) == DIRECTORY_ENTRY * |values|
    ensures ReadU32(block, 12) == |Payload(values)|
  {
    var h := Header(values);
    assert block[..16] == h;
    assert block[0..4] == h[0..4] == U32(BLOCK_MAGIC);
    assert block[4..6] == h[4..6] == U16(BLOCK_VERSION);
    assert block[6..8] == h[6..8] == U16(|values|);
    assert block[8..12] == h[8..12] == U32(|values| * DIRECTORY_ENTRY);
    assert block[12..16] == h[12..16] == U32(|Payload(values)|);
    RoundTrip32(block, 0, BLOCK_MAGIC);
    RoundTrip16(block, 4, BLOCK_VERSION);
    RoundTrip16(block, 6, |values|);
    RoundTrip32(block, 8, |values| * DIRECTORY_ENTRY);
    RoundTrip32(block, 12, |Payload(values)|);
  }

  lemma EntryRead(block: seq<Byte>, at: nat, offset: nat, v: Value)
    requires at + 8 <= |block| && block[at..at + 8] == Entry(offset, v) && offset < 0x1_0000_0000
    requires Size(v) < NULL_LENGTH
    ensures ReadU32(block, at) == offset && ReadU32(block, at + 4) == if v.None? then NULL_LENGTH else |v.value|
  {
    var e := block[at..at + 8];
    assert block[at..at + 4] == e[0..4] && block[at + 4..at + 8] == e[4..8];
    RoundTrip32(block, at, offset);
    RoundTrip32(block, at + 4, if v.None? then NULL_LENGTH else |v.value|);
  }

  lemma {:induction false} EntryFields(values: seq<Value>, block: seq<Byte>, i: nat)
    requires BlockOk(values) && block == Encoded(values) && i < |values|
    ensures var at := BLOCK_HEADER + i * DIRECTORY_ENTRY;
            && |block| == DataSize(values) && at + 8 <= |block|
            && ReadU32(block, at) == |Payload(values[..i])|
            && ReadU32(block, at + 4) == if values[i].None? then NULL_LENGTH else |values[i].value|
  {
    var at := BLOCK_HEADER + i * DIRECTORY_ENTRY;
    DirectoryAt(values, i);
    PayloadAt(values, i);
    var e := Entry(|Payload(values[..i])|, values[i]);
    assert block[at..at + 8] == e;
    EntryRead(block, at, |Payload(values[..i])|, values[i]);
  }

  /** Reading a record of an encoded block gives back the value, null and empty kept apart. */
  lemma {:induction false} BlockRoundTrip(values: seq<Value>, i: nat)
    requires BlockOk(values) && i < |values|
    ensures HasRecord(Encoded(values), i) && GetFromBlock(Encoded(values), i) == values[i]
  {
    var block := Encoded(values);
    HeaderFields(values, block);
    EntryFields(values, block, i);
    PayloadAt(values, i);
    var base, from := BLOCK_HEADER + DIRECTORY_ENTRY * |values|, |Payload(values[..i])|;
    assert block[base..] == Payload(values);
    if values[i].Some? {
      assert block[base + from..base + from + |values[i].value|] == block[base..][from..from + |values[i].value|];
    }
  }

  // ---- Making a block ----

  function Write(data: seq<Byte>, p: nat, s: seq<Byte>): (r: seq<Byte>)
    requires p + |s| <= |data|
    ensures |r| == |data|
  {
    data[..p] + s + data[p + |s|..]
  }

  method PayloadSize(values: seq<Value>) returns (size: Option<nat>)
    ensures size.Some? ==> size.value == |Payload(values)|
    ensures size.None? ==> |Payload(values)| > MAX_BINARY_SIZE
  {
    var total: nat := 0;
    for i := 0 to |values|
      invariant total == |Payload(values[..i])| <= 0xffff_ffff
    {
      assert values[..i + 1][..i] == values[..i];
      PayloadMono(values, i + 1);
      if Size(values[i]) > 0xffff_ffff - total {
        return None;
      }
      total := total + Size(values[i]);
    }
    assert values[..|values|] == values;
    size := Some(total);
  }

  /** The bytes s stand at p. */
  ghost predicate Holds(data: seq<Byte>, p: nat, s: seq<Byte>) {
    p + |s| <= |data| && forall k :: 0 <= k < |s| ==> data[p + k] == s[k]
  }

  /** Header, directory and payload as far as they have been written. */
  ghost predicate Written(data: seq<Byte>, values: seq<Value>, i: nat) {
    && i <= |values| && |data| == DataSize(values)
    && Holds(data, 0, Header(values)) && Holds(data, BLOCK_HEADER, Directory(values[..i]))
    && Holds(data, Base(values), Payload(values[..i]))
  }

  /** Writing leaves what lies before and behind alone. */
  lemma WriteFrame(data: seq<Byte>, p: nat, s: seq<Byte>, q: nat, t: seq<Byte>)
    requires p + |s| <= |data| && Holds(data, q, t) && (q + |t| <= p || p + |s| <= q)
    ensures Holds(Write(data, p, s), q, t)
  {
    var r := Write(data, p, s);
    forall k | 0 <= k < |t| ensures r[q + k] == t[k] {
    }
  }

  /** Writing right behind something extends it. */
  lemma WriteMore(data: seq<Byte>, q: nat, t: seq<Byte>, s: seq<Byte>)
    requires Holds(data, q, t) && q + |t| + |s| <= |data|
    ensures Holds(Write(data, q + |t|, s), q, t + s)
  {
    var r := Write(data, q + |t|, s);
    forall k | 0 <= k < |t + s| ensures r[q + k] == (t + s)[k] {
    }
  }

  function Bytes(v: Value): seq<Byte> {
    if v.Some? then v.value else []
  }

  /** Where the payload starts. */
  function Base(values: seq<Value>): nat {
    BLOCK_HEADER + DIRECTORY_ENTRY * |values|
  }

  lemma {:induction false} Snoc(values: seq<Value>, i: nat)
    requires i < |values|
    ensures Payload(values[..i + 1]) == Payload(values[..i]) + Bytes(values[i])
    ensures Directory(values[..i + 1]) == Directory(values[..i]) + Entry(|Payload(values[..i])|, values[i])
    ensures |Payload(values[..i])| + |Bytes(values[i])| <= |Payload(values)|
  {
    assert values[..i + 1][..i] == values[..i];
    PayloadMono(values, i + 1);
  }

  /** One more entry and the bytes it points to. */
  lemma {:induction false} WriteRecord(data: seq<Byte>, values: seq<Value>, i: nat, offset: nat)
    requires Written(data, values, i) && i < |values| && offset == |Payload(values[..i])|
    ensures BLOCK_HEADER + DIRECTORY_ENTRY * i + 8 <= |data| && Base(values) + offset + |Bytes(values[i])| <= |data|
    ensures var d := Write(data, BLOCK_HEADER + DIRECTORY_ENTRY * i, Entry(offset, values[i]));
            Written(Write(d, Base(values) + offset, Bytes(values[i])), values, i + 1)
  {
    var e, bytes := Entry(offset, values[i]), Bytes(values[i]);
    var dir, pay, at := Directory(values[..i]), Payload(values[..i]), BLOCK_HEADER + DIRECTORY_ENTRY * i;
    Snoc(values, i);
    var d := Write(data, at, e);
    WriteFrame(data, at, e, 0, Header(values));
    WriteMore(data, BLOCK_HEADER, dir, e);
    WriteFrame(data, at, e, Base(values), pay);
    WriteFrame(d, Base(values) + offset, bytes, 0, Header(values));
    WriteFrame(d, Base(values) + offset, bytes, BLOCK_HEADER, dir + e);
    WriteMore(d, Base(values), pay, bytes);
  }

  lemma {:induction false} AllWritten(data: seq<Byte>, values: seq<Value>)
    requires Written(data, values, |values|)
    ensures data == Encoded(values)
  {
    assert values[..|values|] == values;
    var h, d, p, e := Header(values), Directory(values), Payload(values), Encoded(values);
    forall k | 0 <= k < |e| ensures data[k] == e[k] {
      if k < BLOCK_HEADER {
        assert data[0 + k] == h[k];
      } else if k < Base(values) {
        assert data[BLOCK_HEADER + (k - BLOCK_HEADER)] == d[k - BLOCK_HEADER];
      } else {
        assert data[Base(values) + (k - Base(values))] == p[k - Base(values)];
      }
    }
  }

  /** Write directory and payload behind a header that is in place. */
  method FillBlock(data0: seq<Byte>, values: seq<Value>) returns (data: seq<Byte>)
    requires |data0| == DataSize(values) && Holds(data0, 0, Header(values))
    ensures data == Encoded(values)
  {
    data := data0;
    var base := BLOCK_HEADER + DIRECTORY_ENTRY * |values|;
    var offset: nat := 0;
    assert values[..0] == [];
    for i := 0 to |values|
      invariant offset == |Payload(values[..i])| && Written(data, values, i)
    {
      Snoc(values, i);
      WriteRecord(data, values, i, offset);
      var d := Write(data, BLOCK_HEADER + DIRECTORY_ENTRY * i, Entry(offset, values[i]));
      data := Write(d, base + offset, Bytes(values[i]));
      offset := offset + |Bytes(values[i])|;
    }
    AllWritten(data, values);
  }

  /** create_block: refuses no records, too many, or too many bytes; otherwise the encoded block. */
  method CreateBlock(values: seq<Value>) returns (block: Option<seq<Byte>>)
    ensures block.Some? <==> BlockOk(values)
    ensures block.Some? ==> block.value == Encoded(values)
  {
    if |values| == 0 || |values| > MAX_RECORDS {
      return None;
    }
    var size := PayloadSize(values);
    if size.None? {
      return None;
    }
    var payloadSize := size.value;
    var dataSize := BLOCK_HEADER + |values| * DIRECTORY_ENTRY + payloadSize;
    if dataSize > MAX_BINARY_SIZE {
      return None;
    }
    assert |seq(dataSize, _ => 0 as Byte)| == dataSize;
    var data: seq<Byte> :| |data| == dataSize;
    var header := U32(BLOCK_MAGIC) + U16(BLOCK_VERSION) + U16(|values|) + U32(|values| * DIRECTORY_ENTRY)
                  + U32(payloadSize);
    assert header == Header(values);
    data := Write(data, 0, header);
    data := FillBlock(data, values);
    block := Some(data);
  }

  // ---- Cutting values into blocks ----

  /** The bytes of values begin..end in a block, with their directory. */
  function Used(values: seq<Value>, begin: nat, end: nat): nat
    requires begin <= end <= |values|
    decreases end
  {
    if begin == end then BLOCK_HEADER else Used(values, begin, end - 1) + DIRECTORY_ENTRY + Size(values[end - 1])
  }

  lemma {:induction false} UsedIs(values: seq<Value>, begin: nat, end: nat)
    requires begin <= end <= |values|
    ensures DataSize(values[begin..end]) == Used(values, begin, end) >= BLOCK_HEADER + DIRECTORY_ENTRY * (end - begin)
    decreases end
  {
    if begin < end {
      UsedIs(values, begin, end - 1);
      assert values[begin..end][..end - 1 - begin] == values[begin..end - 1];
    }
  }

  /** Values that may share a block: a single one, or inline ones that fill no more than the target. */
  ghost predicate Together(values: seq<Value>, begin: nat, end: nat)
    requires begin < end <= |values|
  {
    || end == begin + 1
    || (&& Used(values, begin, end) <= TARGET_BLOCK_SIZE
        && forall i :: begin <= i < end ==> Size(values[i]) <= MAX_INLINE_BLOCK_SIZE)
  }

  /** The block from `begin` on, at least up to `end`, made as long as its values may share a block. */
  ghost function EndOf(values: seq<Value>, begin: nat, end: nat): (r: nat)
    requires begin < end <= |values|
    ensures end <= r <= |values|
    decreases |values| - end
  {
    if end < |values| && Together(values, begin, end + 1) then EndOf(values, begin, end + 1) else end
  }

  lemma {:induction false} Widest(values: seq<Value>, begin: nat, from: nat, end: nat)
    requires begin < from <= end <= |values| && Together(values, begin, end)
    requires end < |values| ==> !Together(values, begin, end + 1)
    ensures EndOf(values, begin, from) == end
    decreases end - from
  {
    if from < end {
      UsedMono(values, begin, from + 1, end);
      Widest(values, begin, from + 1, end);
    }
  }

  lemma {:induction false} UsedMono(values: seq<Value>, begin: nat, i: nat, j: nat)
    requires begin <= i <= j <= |values|
    ensures Used(values, begin, i) <= Used(values, begin, j)
    decreases j
  {
    if i < j {
      UsedMono(values, begin, i, j - 1);
    }
  }

  /** The values from `begin` on, cut into the longest blocks. */
  ghost function Parts(values: seq<Value>, begin: nat): seq<seq<Value>>
    requires begin <= |values|
    decreases |values| - begin
  {
    if begin == |values| then [] else
      var end := EndOf(values, begin, begin + 1);
      [values[begin..end]] + Parts(values, end)
  }

  /**
   * block_end: where the block that starts at `begin` ends. It holds at least one value, and one that create_block
   * accepts if the values can be stored; it takes as many values as may share a block, and no more.
   */
  method BlockEnd(values: seq<Value>, begin: nat) returns (end: nat)
    requires begin < |values|
    ensures begin < end <= |values|
    ensures Storable(values) ==> BlockOk(values[begin..end])
    ensures end < |values| ==> Size(values[begin]) > MAX_INLINE_BLOCK_SIZE || Size(values[end]) > MAX_INLINE_BLOCK_SIZE
                               || Used(values, begin, end) + DIRECTORY_ENTRY + Size(values[end]) > TARGET_BLOCK_SIZE
    ensures Together(values, begin, end) && (end < |values| ==> !Together(values, begin, end + 1))
    ensures end == EndOf(values, begin, begin + 1)
  {
    var used := BLOCK_HEADER;
    end := begin;
    while end < |values|
      invariant begin <= end <= |values| && used == Used(values, begin, end)
      invariant end > begin && used > TARGET_BLOCK_SIZE ==>
                  end == begin + 1 && used <= BLOCK_HEADER + DIRECTORY_ENTRY + MAX_INLINE_BLOCK_SIZE
      invariant forall i :: begin <= i < end ==> Size(values[i]) <= MAX_INLINE_BLOCK_SIZE
    {
      var valueSize := Size(values[end]);
      var need := DIRECTORY_ENTRY + valueSize;
      var standalone := valueSize > MAX_INLINE_BLOCK_SIZE;
      if end != begin && (standalone || used + need > TARGET_BLOCK_SIZE) {
        break;
      }
      if end == begin && standalone {
        UsedIs(values, begin, begin + 1);
        Widest(values, begin, begin + 1, begin + 1);
        return begin + 1;
      }
      used := used + need;
      end := end + 1;
    }
    UsedIs(values, begin, end);
    Widest(values, begin, begin + 1, end);
  }
}
