/** The on-disk MBR record (main.go:16-30) and its `binary.Write`/`binary.Read`
    little-endian encoding: fields in struct order, no padding, 176 bytes. */
module Layout {
  import opened Bytes
  import opened Int64

  const NAME_LEN := 16
  const DATE_LEN := 20
  const SLOTS := 4
  /** 1 + 1 + 1 + 8 + 8 + 16 */
  const PARTITION_SIZE := 35
  /** 8 + 20 + 8 + 4 * 35 */
  const MBR_SIZE := 176

  type NameField = s: seq<byte> | |s| == NAME_LEN witness Zeros(NAME_LEN)
  type DateField = s: seq<byte> | |s| == DATE_LEN witness Zeros(DATE_LEN)

  /** Go's `Partition`: status 0 means the slot is free. */
  datatype Partition = Partition(
    status: byte,
    kind: byte,
    fit: byte,
    start: int64,
    size: int64,
    name: NameField)

  const FreeSlot: Partition := Partition(0, 0, 0, 0, 0, Zeros(NAME_LEN))

  type Table = t: seq<Partition> | |t| == SLOTS witness [FreeSlot, FreeSlot, FreeSlot, FreeSlot]

  /** Go's `MBR`: `tamano` is the disk size in bytes, `date` the creation timestamp. */
  datatype Mbr = Mbr(
    tamano: int64,
    date: DateField,
    signature: int64,
    partitions: Table)

  function EncodePartition(p: Partition): (r: seq<byte>)
    ensures |r| == PARTITION_SIZE
  {
    [p.status, p.kind, p.fit] + EncodeInt64(p.start) + EncodeInt64(p.size) + p.name
  }

  function DecodePartition(s: seq<byte>): Partition
    requires |s| == PARTITION_SIZE
  {
    Partition(s[0], s[1], s[2], DecodeInt64(s[3..11]), DecodeInt64(s[11..19]), s[19..35])
  }

  function EncodeTable(t: seq<Partition>): (r: seq<byte>)
    ensures |r| == PARTITION_SIZE * |t|
  {
    if t == [] then [] else EncodePartition(t[0]) + EncodeTable(t[1..])
  }

  function EncodeMbr(m: Mbr): (r: seq<byte>)
    ensures |r| == MBR_SIZE
  {
    EncodeInt64(m.tamano) + m.date + EncodeInt64(m.signature) + EncodeTable(m.partitions)
  }

  function DecodeTable(s: seq<byte>): (t: seq<Partition>)
    requires |s| % PARTITION_SIZE == 0
    ensures |t| == |s| / PARTITION_SIZE
    decreases |s|
  {
    if s == [] then [] else [DecodePartition(s[..PARTITION_SIZE])] + DecodeTable(s[PARTITION_SIZE..])
  }

  function DecodeMbr(s: seq<byte>): Mbr
    requires |s| == MBR_SIZE
  {
    Mbr(DecodeInt64(s[0..8]), s[8..28], DecodeInt64(s[28..36]), DecodeTable(s[36..]))
  }

  /** Entry `k` of the table occupies bytes [35k, 35k + 35) of the table's encoding. */
  lemma {:induction false} EncodeTableAt(t: seq<Partition>, k: nat)
    requires k < |t|
    ensures EncodeTable(t)[PARTITION_SIZE * k .. PARTITION_SIZE * (k + 1)] == EncodePartition(t[k])
  {
    if k > 0 {
      EncodeTableAt(t[1..], k - 1);
      assert EncodeTable(t) == EncodePartition(t[0]) + EncodeTable(t[1..]);
    }
  }

  /** The byte layout of the record: size at [0,8), date at [8,28), signature at [28,36),
      slot k at [36 + 35k, 71 + 35k); little-endian integers; slot fields in struct order. */
  lemma MbrLayout(m: Mbr, k: nat)
    requires k < SLOTS
    ensures var s := EncodeMbr(m);
      && s[0..8] == EncodeInt64(m.tamano)
      && s[8..28] == m.date
      && s[28..36] == EncodeInt64(m.signature)
      && s[36 + PARTITION_SIZE * k .. 36 + PARTITION_SIZE * (k + 1)] == EncodePartition(m.partitions[k])
      && var e := EncodePartition(m.partitions[k]);
         e[0] == m.partitions[k].status && e[1] == m.partitions[k].kind && e[2] == m.partitions[k].fit
         && e[3..11] == EncodeInt64(m.partitions[k].start)
         && e[11..19] == EncodeInt64(m.partitions[k].size)
         && e[19..35] == m.partitions[k].name
  {
    var s := EncodeMbr(m);
    var tb := EncodeTable(m.partitions);
    assert s == EncodeInt64(m.tamano) + m.date + EncodeInt64(m.signature) + tb;
    assert s[36..] == tb;
    EncodeTableAt(m.partitions, k);
    assert s[36 + PARTITION_SIZE * k .. 36 + PARTITION_SIZE * (k + 1)]
        == tb[PARTITION_SIZE * k .. PARTITION_SIZE * (k + 1)];
  }

  lemma PartitionRoundTrip(p: Partition)
    ensures DecodePartition(EncodePartition(p)) == p
  {
    var head, st, sz := [p.status, p.kind, p.fit], EncodeInt64(p.start), EncodeInt64(p.size);
    var s := EncodePartition(p);
    assert s == head + st + sz + p.name;
    assert s[3..11] == st && s[11..19] == sz && s[19..35] == p.name by {
      ConcatSlices(head, st, sz, p.name);
    }
    Int64RoundTrip(p.start);
    Int64RoundTrip(p.size);
  }

  lemma ConcatSlices<T>(a: seq<T>, b: seq<T>, c: seq<T>, d: seq<T>)
    ensures var s := a + b + c + d;
      && s[..|a|] == a
      && s[|a|..|a| + |b|] == b
      && s[|a| + |b|..|a| + |b| + |c|] == c
      && s[|a| + |b| + |c|..] == d
  {
    var s := a + b + c + d;
    assert s[..|a|] == a;
    assert s[|a|..|a| + |b|] == b;
    assert s[|a| + |b|..|a| + |b| + |c|] == c;
    assert s[|a| + |b| + |c|..] == d;
  }

  lemma PartitionBytesRoundTrip(s: seq<byte>)
    requires |s| == PARTITION_SIZE
    ensures EncodePartition(DecodePartition(s)) == s
  {
    Int64BytesRoundTrip(s[3..11]);
    Int64BytesRoundTrip(s[11..19]);
    assert s == s[..3] + s[3..11] + s[11..19] + s[19..35];
  }

  lemma {:induction false} TableRoundTrip(t: seq<Partition>)
    ensures DecodeTable(EncodeTable(t)) == t
  {
    if t != [] {
      var e := EncodeTable(t);
      assert e[..PARTITION_SIZE] == EncodePartition(t[0]);
      assert e[PARTITION_SIZE..] == EncodeTable(t[1..]);
      PartitionRoundTrip(t[0]);
      TableRoundTrip(t[1..]);
    }
  }

  lemma {:induction false} TableBytesRoundTrip(s: seq<byte>)
    requires |s| % PARTITION_SIZE == 0
    ensures EncodeTable(DecodeTable(s)) == s
    decreases |s|
  {
    if s != [] {
      var t := DecodeTable(s);
      assert t[0] == DecodePartition(s[..PARTITION_SIZE]);
      assert t[1..] == DecodeTable(s[PARTITION_SIZE..]);
      PartitionBytesRoundTrip(s[..PARTITION_SIZE]);
      TableBytesRoundTrip(s[PARTITION_SIZE..]);
      assert s == s[..PARTITION_SIZE] + s[PARTITION_SIZE..];
    }
  }

  /** Decoding the encoding of a record gives the record back, every field included. */
  lemma MbrRoundTrip(m: Mbr)
    ensures DecodeMbr(EncodeMbr(m)) == m
  {
    var a, d, b, c := EncodeInt64(m.tamano), m.date, EncodeInt64(m.signature), EncodeTable(m.partitions);
    var s := EncodeMbr(m);
    assert s == a + d + b + c;
    assert s[0..8] == a && s[8..28] == d && s[28..36] == b && s[36..] == c by {
      ConcatSlices(a, d, b, c);
    }
    Int64RoundTrip(m.tamano);
    Int64RoundTrip(m.signature);
    TableRoundTrip(m.partitions);
  }

  /** Every 176-byte block is the encoding of the record it decodes to: reading and
      writing back never changes a byte. */
  lemma MbrBytesRoundTrip(s: seq<byte>)
    requires |s| == MBR_SIZE
    ensures EncodeMbr(DecodeMbr(s)) == s
  {
    Int64BytesRoundTrip(s[0..8]);
    Int64BytesRoundTrip(s[28..36]);
    TableBytesRoundTrip(s[36..]);
    assert s == s[0..8] + s[8..28] + s[28..36] + s[36..];
  }
}
