/** The command handlers `mkdisk`, `fdisk` and `rep` (main.go:97-113, 227-254, 380-396)
    on a disk image, and the per-line dispatch of a script (main.go:65-75). */
module Commands {
  import opened Bytes
  import opened Int64
  import opened Outcomes
  import opened Layout
  import opened Image
  import opened Units
  import opened Allocator
  import opened Params
  import opened Report

  const FDISK_WORD: seq<byte> := Str("FDISK")
  const MKDISK_WORD: seq<byte> := Str("MKDISK")
  const REP_LINE: seq<byte> := Str("REP")

  /** A script line as the main loop sees it. */
  datatype Command = FdiskCommand(params: seq<seq<byte>>) | MkdiskCommand(params: seq<seq<byte>>) | RepCommand | Skip

  /** The dispatch of one line: an "FDISK" or "MKDISK" prefix hands the fields after the
      first one to the handler, and only the exact line "REP" asks for the report. */
  function Classify(line: seq<byte>): Command
  {
    if HasPrefix(line, FDISK_WORD) then FdiskCommand(Fields(line)[1..])
    else if HasPrefix(line, MKDISK_WORD) then MkdiskCommand(Fields(line)[1..])
    else if line == REP_LINE then RepCommand
    else Skip
  }

  // ---------------------------------------------------------------- MKDISK

  /** The size in bytes `mkdisk` asks for, or the error that stops it before the file is touched. */
  function MkdiskSize(params: seq<seq<byte>>): Result<int64>
  {
    match MkdiskParams(params)
    case Err(e) => Err(e)
    case Ok(req) => CalculateDiskSize(req.size, req.unit)
  }

  /** The disk after `mkdisk`: unchanged when the request is rejected, otherwise a new file. */
  function MkdiskImage(img: seq<byte>, params: seq<seq<byte>>, timestamp: seq<byte>): seq<byte>
  {
    match MkdiskSize(params)
    case Err(_) => img
    case Ok(n) => CreatedImage(n, timestamp)
  }

  /** The error `mkdisk` reports, if any. */
  function MkdiskError(params: seq<seq<byte>>): Option<Error>
  {
    match MkdiskSize(params)
    case Err(e) => Some(e)
    case Ok(n) => if n < 0 then Some(NegativeLength) else None
  }

  /** `mkdisk` */
  method Mkdisk(disk: DiskImage, params: seq<seq<byte>>, timestamp: seq<byte>) returns (err: Option<Error>)
    modifies disk
    ensures disk.data == old(disk.data) || fresh(disk.data)
    ensures disk.Bytes() == MkdiskImage(old(disk.Bytes()), params, timestamp)
    ensures err == MkdiskError(params)
  {
    var size, unit, e := ExtractMkdiskParams(params);
    if e.Some? {
      return e;
    }
    var sizeInBytes := CalculateDiskSize(size, unit);
    if sizeInBytes.Err? {
      return Some(sizeInBytes.error);
    }
    err := disk.CreateDiskWithSize(sizeInBytes.value, timestamp);
  }

  /** A successful MKDISK of at least 177 bytes leaves a disk of exactly that size whose
      record is the initial one: the size, the timestamp, the signature and four free slots. */
  lemma MkdiskFormatsDisk(img: seq<byte>, params: seq<seq<byte>>, timestamp: seq<byte>)
    requires MkdiskSize(params).Ok? && MkdiskSize(params).value >= MBR_END
    ensures var n := MkdiskSize(params).value;
      && MkdiskError(params) == None
      && |MkdiskImage(img, params, timestamp)| == n
      && ReadImage(MkdiskImage(img, params, timestamp)) == Ok(InitialMbr(n, timestamp))
  {
    CreatedDisk(MkdiskSize(params).value, timestamp);
  }

  /** MKDISK without a size parameter reports an error and leaves the disk as it was. */
  lemma MkdiskWithoutSize(img: seq<byte>, params: seq<seq<byte>>, timestamp: seq<byte>)
    requires forall j :: 0 <= j < |params| ==> !HasPrefix(params[j], SIZE_KEY)
    ensures MkdiskImage(img, params, timestamp) == img
    ensures MkdiskError(params).Some?
  {
    MkdiskNeedsSize(params);
  }

  // ---------------------------------------------------------------- FDISK

  /** The record `fdisk` writes back, or the error that stops it: a parameter error, an
      unreadable disk, or a refusal of `createPartition`. */
  function FdiskOutcome(img: seq<byte>, params: seq<seq<byte>>): Result<Mbr>
  {
    match FdiskParams(params)
    case Err(e) => Err(e)
    case Ok(req) =>
      match ReadImage(img)
      case Err(e) => Err(e)
      case Ok(m) => Allocation(m, req.size, req.unit, req.name)
  }

  /** The disk after `fdisk`: the updated record written back, or the disk unchanged. */
  function FdiskImage(img: seq<byte>, params: seq<seq<byte>>): seq<byte>
  {
    match FdiskOutcome(img, params)
    case Err(_) => img
    case Ok(m) => MbrWritten(img, m)
  }

  /** `fdisk` */
  method Fdisk(disk: DiskImage, params: seq<seq<byte>>) returns (err: Option<Error>)
    modifies disk, disk.data
    ensures disk.data == old(disk.data) || fresh(disk.data)
    ensures disk.Bytes() == FdiskImage(old(disk.Bytes()), params)
    ensures err == if FdiskOutcome(old(disk.Bytes()), params).Ok? then None
                   else Some(FdiskOutcome(old(disk.Bytes()), params).error)
  {
    var size, unit, letter, name, e := ExtractFdiskParams(params);
    if e.Some? {
      return e;
    }
    var read := disk.ReadMbr();
    if read.Err? {
      return Some(read.error);
    }
    var mbr := new MbrRef(read.value);
    err := CreatePartition(mbr, size, unit, letter, name);
    if err.None? {
      disk.WriteMbr(mbr.value);
    }
  }

  /** A successful FDISK keeps the disk's length, and the disk then reads back as the
      updated record. */
  lemma FdiskPersists(img: seq<byte>, params: seq<seq<byte>>)
    requires FdiskOutcome(img, params).Ok?
    ensures |FdiskImage(img, params)| == |img|
    ensures ReadImage(FdiskImage(img, params)) == FdiskOutcome(img, params)
  {
    var m := FdiskOutcome(img, params).value;
    WriteFrame(img, m);
    ReadAfterWrite(img, m);
  }

  /** FDISK on a disk too short to hold the record fails with ShortImage once its
      parameters are accepted, and changes nothing. */
  lemma FdiskNeedsFormattedDisk(img: seq<byte>, params: seq<seq<byte>>)
    requires |img| < MBR_END && FdiskParams(params).Ok?
    ensures FdiskOutcome(img, params) == Err(ShortImage)
    ensures FdiskImage(img, params) == img
  {
  }

  /** On a freshly formatted disk, the first accepted partition goes to slot 0 and starts at
      byte 1, and the disk then reads back with exactly that slot occupied. */
  lemma FirstPartitionOnNewDisk(img: seq<byte>, mkParams: seq<seq<byte>>, timestamp: seq<byte>,
                                fdParams: seq<seq<byte>>)
    requires MkdiskSize(mkParams).Ok? && MkdiskSize(mkParams).value >= MBR_END
    requires FdiskParams(fdParams).Ok?
    requires var req := FdiskParams(fdParams).value;
      && RequestBytes(req.size, req.unit).Ok?
      && RequestBytes(req.size, req.unit).value <= MkdiskSize(mkParams).value
    ensures var disk := MkdiskImage(img, mkParams, timestamp);
      var req := FdiskParams(fdParams).value;
      && FdiskOutcome(disk, fdParams).Ok?
      && var t := FdiskOutcome(disk, fdParams).value.partitions;
         && t[0] == NewEntry(0, RequestBytes(req.size, req.unit).value, req.name)
         && t[0].start == 1
         && t[1..] == [FreeSlot, FreeSlot, FreeSlot]
         && ReadImage(FdiskImage(disk, fdParams)) == FdiskOutcome(disk, fdParams)
  {
    var n := MkdiskSize(mkParams).value;
    var disk := MkdiskImage(img, mkParams, timestamp);
    MkdiskFormatsDisk(img, mkParams, timestamp);
    var req := FdiskParams(fdParams).value;
    FirstAllocation(InitialMbr(n, timestamp), req.size, req.unit, req.name);
    FdiskPersists(disk, fdParams);
  }

  /** The first request on a table of free slots takes slot 0 and starts at byte 1. */
  lemma FirstAllocation(m: Mbr, size: int64, unit: seq<byte>, name: seq<byte>)
    requires m.partitions == [FreeSlot, FreeSlot, FreeSlot, FreeSlot]
    requires RequestBytes(size, unit).Ok? && RequestBytes(size, unit).value <= m.tamano
    ensures Allocation(m, size, unit, name).Ok?
    ensures var t := Allocation(m, size, unit, name).value.partitions;
      && t[0] == NewEntry(0, RequestBytes(size, unit).value, name)
      && t[0].start == 1
      && t[1..] == [FreeSlot, FreeSlot, FreeSlot]
  {
    var bytes := RequestBytes(size, unit).value;
    assert !NameTaken(m.partitions, name);
    assert UsedSpace(m.partitions) == 0 by { UsedSpaceOfFour(m.partitions); }
    assert FirstFree(m.partitions) == 0 by { FirstFreeUnique(m.partitions, 0); }
    assert Wrap(0 + bytes) == bytes;
  }

  // ---------------------------------------------------------------- REP

  /** The report `rep` hands to the renderer, or the error reading the disk. */
  function RepOutcome(img: seq<byte>): Result<seq<byte>>
  {
    match ReadImage(img)
    case Err(e) => Err(e)
    case Ok(m) => Ok(DotCode(m))
  }

  /** `rep`, up to the point where the text is handed to the renderer. */
  method Rep(disk: DiskImage) returns (r: Result<seq<byte>>)
    ensures r == RepOutcome(disk.Bytes())
  {
    var read := disk.ReadMbr();
    if read.Err? {
      return Err(read.error);
    }
    var dot := GenerateDotCode(read.value);
    r := Ok(dot);
  }

  /** After a successful FDISK the report shows one green cell more than before. */
  lemma FdiskAddsOneCell(img: seq<byte>, params: seq<seq<byte>>)
    requires FdiskOutcome(img, params).Ok?
    ensures ReadImage(img).Ok? && RepOutcome(FdiskImage(img, params)).Ok?
    ensures |Labels(FdiskOutcome(img, params).value.partitions)| == |Labels(ReadImage(img).value.partitions)| + 1
  {
    var m := ReadImage(img).value;
    var req := FdiskParams(params).value;
    FdiskPersists(img, params);
    AllocationAccounting(m, req.size, req.unit, req.name);
    LabelsCount(m.partitions);
    LabelsCount(FdiskOutcome(img, params).value.partitions);
  }

  // ---------------------------------------------------------------- Scripts

  /** A word with a prefix free of white space starts the first field. */
  lemma {:induction false} WordPrefix(s: seq<byte>, p: seq<byte>)
    requires HasPrefix(s, p) && Params.NoSpace(p)
    ensures HasPrefix(Word(s), p)
  {
    if p != [] {
      assert s[1..][..|p| - 1] == p[1..];
      WordPrefix(s[1..], p[1..]);
    }
  }

  /** An FDISK line starts with a field carrying the keyword, and the handler is given
      exactly the fields that follow it. */
  lemma FdiskLineFields(line: seq<byte>)
    requires Classify(line).FdiskCommand?
    ensures |Fields(line)| >= 1 && HasPrefix(Fields(line)[0], FDISK_WORD)
    ensures Fields(line) == [Fields(line)[0]] + Classify(line).params
  {
    WordPrefix(line, FDISK_WORD);
  }

  /** Likewise for MKDISK, on a line that does not start with "FDISK". */
  lemma MkdiskLineFields(line: seq<byte>)
    requires Classify(line).MkdiskCommand?
    ensures !HasPrefix(line, FDISK_WORD)
    ensures |Fields(line)| >= 1 && HasPrefix(Fields(line)[0], MKDISK_WORD)
    ensures Fields(line) == [Fields(line)[0]] + Classify(line).params
  {
    WordPrefix(line, MKDISK_WORD);
  }

  /** What a run of a script leaves: the disk and the reports asked for, in order. */
  datatype Run = Run(image: seq<byte>, reports: seq<seq<byte>>)

  /** One line of the script; `timestamp` is the clock reading for that line. */
  function Step(st: Run, line: seq<byte>, timestamp: seq<byte>): Run
  {
    match Classify(line)
    case FdiskCommand(ps) => st.(image := FdiskImage(st.image, ps))
    case MkdiskCommand(ps) => st.(image := MkdiskImage(st.image, ps, timestamp))
    case RepCommand =>
      (match RepOutcome(st.image)
       case Ok(dot) => st.(reports := st.reports + [dot])
       case Err(_) => st)
    case Skip => st
  }

  /** The lines of a script run in order, the `k`-th at clock reading `stamps[k]`. */
  function Script(img: seq<byte>, lines: seq<seq<byte>>, stamps: seq<seq<byte>>): Run
    requires |stamps| == |lines|
  {
    if lines == [] then Run(img, [])
    else
      var n := |lines| - 1;
      Step(Script(img, lines[..n], stamps[..n]), lines[n], stamps[n])
  }

  /** One turn of the main loop. */
  method ExecuteLine(disk: DiskImage, line: seq<byte>, timestamp: seq<byte>, reports: seq<seq<byte>>)
    returns (reports': seq<seq<byte>>)
    modifies disk, disk.data
    ensures disk.data == old(disk.data) || fresh(disk.data)
    ensures Step(Run(old(disk.Bytes()), reports), line, timestamp) == Run(disk.Bytes(), reports')
  {
    reports' := reports;
    if HasPrefix(line, FDISK_WORD) {
      var _ := Fdisk(disk, Fields(line)[1..]);
    } else if HasPrefix(line, MKDISK_WORD) {
      var _ := Mkdisk(disk, Fields(line)[1..], timestamp);
    } else if line == REP_LINE {
      var r := Rep(disk);
      if r.Ok? {
        reports' := reports + [r.value];
      }
    }
  }

  /** The main loop over the lines of a script. */
  method RunScript(disk: DiskImage, lines: seq<seq<byte>>, stamps: seq<seq<byte>>) returns (reports: seq<seq<byte>>)
    requires |stamps| == |lines|
    modifies disk, disk.data
    ensures Script(old(disk.Bytes()), lines, stamps) == Run(disk.Bytes(), reports)
  {
    reports := [];
    var i := 0;
    while i < |lines|
      invariant 0 <= i <= |lines|
      invariant disk.data == old(disk.data) || fresh(disk.data)
      invariant Script(old(disk.Bytes()), lines[..i], stamps[..i]) == Run(disk.Bytes(), reports)
    {
      assert lines[..i + 1][..i] == lines[..i] && stamps[..i + 1][..i] == stamps[..i];
      reports := ExecuteLine(disk, lines[i], stamps[i], reports);
      i := i + 1;
    }
    assert lines[..|lines|] == lines && stamps[..|lines|] == stamps;
  }

  /** Lines the main loop does not recognise, such as "rep" or "REP " with a trailing
      space, change nothing. */
  lemma SkippedLines(st: Run, timestamp: seq<byte>)
    ensures Step(st, Str("rep"), timestamp) == st
    ensures Step(st, Str("REP "), timestamp) == st
  {
    assert Str("rep")[0] != FDISK_WORD[0] && Str("rep")[0] != MKDISK_WORD[0] && Str("rep") != REP_LINE;
    assert Str("REP ")[0] != FDISK_WORD[0] && Str("REP ")[0] != MKDISK_WORD[0] && |Str("REP ")| != |REP_LINE|;
  }
}
