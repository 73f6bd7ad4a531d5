/** The disk image file "disk.dsk" (main.go:153-186, 256-290): a 0x00 sentinel byte, the
    176-byte MBR at offset 1, then unused bytes up to the disk size. The file is an
    in-memory byte array; file.Write at an offset and file.Truncate are its two mutators. */
module Image {
  import opened Bytes
  import opened Int64
  import opened Outcomes
  import opened Layout

  const MBR_OFFSET := 1
  /** The first byte after the record: 1 + 176. */
  const MBR_END := 177
  const DISK_SIGNATURE := 123456789

  /** `img` grown with zero bytes to at least `n` bytes (a write past the end of a file
      leaves a zero-filled hole). */
  function Extended(img: seq<byte>, n: nat): (r: seq<byte>)
    ensures |r| == if n <= |img| then |img| else n
    ensures r[..|img|] == img
    ensures forall j :: |img| <= j < |r| ==> r[j] == 0
  {
    if n <= |img| then img else img + Zeros(n - |img|)
  }

  /** The file after writing `bs` at offset `off`. */
  function WrittenAt(img: seq<byte>, off: nat, bs: seq<byte>): (r: seq<byte>)
    ensures |r| == if off + |bs| <= |img| then |img| else off + |bs|
    ensures r[off .. off + |bs|] == bs
    ensures forall j :: 0 <= j < |r| && !(off <= j < off + |bs|) ==>
              r[j] == if j < |img| then img[j] else 0
  {
    var e := Extended(img, off + |bs|);
    e[..off] + bs + e[off + |bs|..]
  }

  /** The file after `file.Truncate(n)` with `n >= 0`: cut to `n` bytes or zero-extended to them. */
  function Truncated(img: seq<byte>, n: nat): (r: seq<byte>)
    ensures |r| == n
    ensures forall j :: 0 <= j < n ==> r[j] == if j < |img| then img[j] else 0
  {
    if n <= |img| then img[..n] else img + Zeros(n - |img|)
  }

  /** `readMBR`: skip the sentinel, then decode 176 bytes; a shorter file is an error. */
  function ReadImage(img: seq<byte>): Result<Mbr>
  {
    if |img| < MBR_END then Err(ShortImage) else Ok(DecodeMbr(img[MBR_OFFSET..MBR_END]))
  }

  /** `writeMBR`: the record's encoding written over bytes [1, 177). */
  function MbrWritten(img: seq<byte>, m: Mbr): seq<byte>
  {
    WrittenAt(img, MBR_OFFSET, EncodeMbr(m))
  }

  /** The record `createDiskWithSize` writes: the size, the timestamp copied into the
      20-byte field, the fixed signature and four free slots. */
  function InitialMbr(size: int64, timestamp: seq<byte>): Mbr
  {
    Mbr(size, CopyPadded(timestamp, DATE_LEN), DISK_SIGNATURE, [FreeSlot, FreeSlot, FreeSlot, FreeSlot])
  }

  /** The file `createDiskWithSize` leaves: sentinel and record written to an empty file,
      then truncated to `size`; a negative size makes the truncation fail and the file
      keeps its 177 bytes. */
  function CreatedImage(size: int64, timestamp: seq<byte>): seq<byte>
  {
    var written := WrittenAt(WrittenAt([], 0, [0]), MBR_OFFSET, EncodeMbr(InitialMbr(size, timestamp)));
    if size < 0 then written else Truncated(written, size)
  }

  class DiskImage {
    var data: array<byte>

    ghost function Bytes(): seq<byte>
      reads this, data
    {
      data[..]
    }

    /** A disk file with the given contents. */
    constructor (contents: seq<byte>)
      ensures Bytes() == contents
    {
      data := new byte[|contents|](i requires 0 <= i < |contents| => contents[i]);
    }

    /** `file.Write(bs)` at position `off`; the file grows when the write ends past its end. */
    method WriteAt(off: nat, bs: seq<byte>)
      modifies this, data
      ensures data == old(data) || fresh(data)
      ensures Bytes() == WrittenAt(old(Bytes()), off, bs)
    {
      ghost var before := data[..];
      var n := off + |bs|;
      if data.Length < n {
        var old_data := data;
        data := new byte[n](j requires 0 <= j < n reads old_data =>
                              if j < old_data.Length then old_data[j] else 0);
      }
      var i := 0;
      while i < |bs|
        invariant 0 <= i <= |bs| && n <= data.Length
        invariant data.Length == if n <= |before| then |before| else n
        invariant forall j :: 0 <= j < data.Length ==>
                    data[j] == if off <= j < off + i then bs[j - off]
                               else if j < |before| then before[j] else 0
        modifies data
      {
        data[off + i] := bs[i];
        i := i + 1;
      }
      assert data[..] == WrittenAt(before, off, bs);
    }

    /** `file.Truncate(n)`: fails on a negative length and leaves the file as it was. */
    method Truncate(n: int64) returns (err: Option<Error>)
      modifies this
      ensures data == old(data) || fresh(data)
      ensures err == if n < 0 then Some(NegativeLength) else None
      ensures Bytes() == if n < 0 then old(Bytes()) else Truncated(old(Bytes()), n)
    {
      if n < 0 {
        return Some(NegativeLength);
      }
      var old_data := data;
      data := new byte[n](j requires 0 <= j < n reads old_data =>
                            if j < old_data.Length then old_data[j] else 0);
      err := None;
    }

    /** `createDiskWithSize`: a new file holding the sentinel and the initial record,
        then resized to `size` bytes. */
    method CreateDiskWithSize(size: int64, timestamp: seq<byte>) returns (err: Option<Error>)
      modifies this
      ensures fresh(data)
      ensures err == if size < 0 then Some(NegativeLength) else None
      ensures Bytes() == CreatedImage(size, timestamp)
    {
      var mbr := InitialMbr(size, timestamp);
      data := new byte[0];
      WriteAt(0, [0]);
      WriteAt(MBR_OFFSET, EncodeMbr(mbr));
      err := Truncate(size);
    }

    /** `readMBR` */
    method ReadMbr() returns (r: Result<Mbr>)
      ensures r == ReadImage(Bytes())
    {
      if data.Length < MBR_END {
        return Err(ShortImage);
      }
      r := Ok(DecodeMbr(data[MBR_OFFSET..MBR_END]));
    }

    /** `writeMBR` */
    method WriteMbr(m: Mbr)
      modifies this, data
      ensures data == old(data) || fresh(data)
      ensures Bytes() == MbrWritten(old(Bytes()), m)
    {
      WriteAt(MBR_OFFSET, EncodeMbr(m));
    }
  }

  /** Reading after writing a record gives that record back. */
  lemma ReadAfterWrite(img: seq<byte>, m: Mbr)
    ensures ReadImage(MbrWritten(img, m)) == Ok(m)
  {
    MbrRoundTrip(m);
  }

  /** Writing a record touches bytes [1, 177) only: the sentinel and everything after the
      record keep their values, and the file only grows when it was shorter than 177 bytes. */
  lemma WriteFrame(img: seq<byte>, m: Mbr)
    ensures var w := MbrWritten(img, m);
      && |w| == (if |img| < MBR_END then MBR_END else |img|)
      && w[MBR_OFFSET..MBR_END] == EncodeMbr(m)
      && w[0] == (if |img| == 0 then 0 else img[0])
      && forall j :: MBR_END <= j < |img| ==> w[j] == img[j]
  {
  }

  /** Writing back the record just read leaves the file byte-for-byte unchanged. */
  lemma WriteBackWhatWasRead(img: seq<byte>, m: Mbr)
    requires ReadImage(img) == Ok(m)
    ensures MbrWritten(img, m) == img
  {
    MbrBytesRoundTrip(img[MBR_OFFSET..MBR_END]);
    var w := MbrWritten(img, m);
    assert |w| == |img|;
    forall j | 0 <= j < |img| ensures w[j] == img[j] {
      if MBR_OFFSET <= j < MBR_END {
        assert w[j] == w[MBR_OFFSET..MBR_END][j - MBR_OFFSET];
        assert img[j] == img[MBR_OFFSET..MBR_END][j - MBR_OFFSET];
      }
    }
  }

  /** A disk of at least 177 bytes, just created: sentinel 0, the requested length, zero
      bytes after the record, and a record holding the size, the fixed signature, the
      timestamp's first 20 bytes and four free slots. */
  lemma CreatedDisk(size: int64, timestamp: seq<byte>)
    requires size >= MBR_END
    ensures var img := CreatedImage(size, timestamp);
      && |img| == size
      && img[0] == 0
      && (forall j :: MBR_END <= j < size ==> img[j] == 0)
      && ReadImage(img) == Ok(InitialMbr(size, timestamp))
      && var m := ReadImage(img).value;
         && m.tamano == size
         && m.signature == DISK_SIGNATURE
         && m.date == CopyPadded(timestamp, DATE_LEN)
         && forall k :: 0 <= k < SLOTS ==> m.partitions[k].status == 0
  {
    var m := InitialMbr(size, timestamp);
    var written := WrittenAt(WrittenAt([], 0, [0]), MBR_OFFSET, EncodeMbr(m));
    assert |written| == MBR_END;
    var img := CreatedImage(size, timestamp);
    assert img[MBR_OFFSET..MBR_END] == written[MBR_OFFSET..MBR_END];
    MbrRoundTrip(m);
  }

  /** A disk created smaller than the record is cut short and no longer reads back;
      a negative size leaves the untruncated 177-byte file, which still reads back. */
  lemma CreatedSmallDisk(size: int64, timestamp: seq<byte>)
    requires size < MBR_END
    ensures var img := CreatedImage(size, timestamp);
      && (size >= 0 ==> |img| == size && ReadImage(img) == Err(ShortImage))
      && (size < 0 ==> |img| == MBR_END && ReadImage(img) == Ok(InitialMbr(size, timestamp)))
  {
    MbrRoundTrip(InitialMbr(size, timestamp));
  }
}
