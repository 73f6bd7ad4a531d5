/** The disk report: `cleanPartitionName` (main.go:413-419) and the Graphviz text of
    `generateDotCode` (main.go:347-378). */
module Report {
  import opened Bytes
  import opened Layout
  import opened Decimal
  import opened Allocator

  /** `bytes.IndexByte`: the first index of `b` in `s`, or -1. */
  function IndexByte(s: seq<byte>, b: byte): (r: int)
    ensures -1 <= r < |s|
    ensures r == -1 <==> forall i :: 0 <= i < |s| ==> s[i] != b
    ensures r >= 0 ==> s[r] == b && forall i :: 0 <= i < r ==> s[i] != b
  {
    if s == [] then -1
    else if s[0] == b then 0
    else
      var k := IndexByte(s[1..], b);
      assert forall i :: 1 <= i < |s| ==> s[i] == s[1..][i - 1];
      if k == -1 then -1 else k + 1
  }

  /** `cleanPartitionName`: the bytes before the first NUL, or the whole field. */
  function CleanPartitionName(name: seq<byte>): (r: seq<byte>)
    ensures |r| <= |name| && r == name[..|r|]
    ensures forall i :: 0 <= i < |r| ==> r[i] != 0
    ensures |r| < |name| ==> name[|r|] == 0
  {
    var n := IndexByte(name, 0);
    name[..if n == -1 then |name| else n]
  }

  /** The text shown for occupied slot `i`: its cleaned name, or "Partition<i+1>" when that is empty. */
  function Label(name: seq<byte>, i: nat): (l: seq<byte>)
    ensures l != []
  {
    var clean := CleanPartitionName(name);
    if clean == [] then Str("Partition") + FormatNat(i + 1) else clean
  }

  /** The labels of the occupied slots of `t`, in slot order. */
  function Labels(t: seq<Partition>): seq<seq<byte>>
  {
    if t == [] then []
    else
      var n := |t| - 1;
      Labels(t[..n]) + (if Occupied(t[n]) then [Label(t[n].name, n)] else [])
  }

  /** `fmt.Sprintf("    <TD BGCOLOR=\"green\">%s</TD>", text)` */
  function Cell(text: seq<byte>): seq<byte>
  {
    Str("    <TD BGCOLOR=\"green\">") + text + Str("</TD>")
  }

  function Cells(ls: seq<seq<byte>>): seq<byte>
  {
    if ls == [] then [] else Cells(ls[..|ls| - 1]) + Cell(ls[|ls| - 1])
  }

  const OPENING: seq<byte> := Str("digraph G {\n")
  const CLOSING: seq<byte> := Str("}\n")

  const HEADER: seq<byte> :=
    OPENING
    + Str("    node [shape=none];\n")
    + Str("    rankdir=\"LR\";\n")
    + Str("    struct1 [label=<<TABLE BORDER=\"0\" CELLBORDER=\"1\" CELLSPACING=\"0\">\n")
    + Str("    <TR>")
    + Str("    <TD BGCOLOR=\"yellow\">MBR</TD>")

  const FOOTER: seq<byte> := Str("</TR>\n") + Str("    </TABLE>>];\n") + CLOSING

  /** The report text: the MBR cell, then one green cell per occupied slot. */
  function DotCode(m: Mbr): seq<byte>
  {
    HEADER + Cells(Labels(m.partitions)) + FOOTER
  }

  /** `generateDotCode`: appends to a builder, one cell per occupied slot. */
  method GenerateDotCode(m: Mbr) returns (dot: seq<byte>)
    ensures dot == DotCode(m)
  {
    var builder: seq<byte> := [];
    builder := builder + OPENING;
    assert builder == OPENING;
    builder := builder + Str("    node [shape=none];\n");
    builder := builder + Str("    rankdir=\"LR\";\n");
    builder := builder + Str("    struct1 [label=<<TABLE BORDER=\"0\" CELLBORDER=\"1\" CELLSPACING=\"0\">\n");
    builder := builder + Str("    <TR>");
    builder := builder + Str("    <TD BGCOLOR=\"yellow\">MBR</TD>");
    ghost var header := builder;
    var t := m.partitions;
    var i := 0;
    while i < SLOTS
      invariant 0 <= i <= SLOTS
      invariant builder == header + Cells(Labels(t[..i]))
    {
      LabelsStep(t, i);
      if t[i].status != 0 {
        var partitionName := CleanPartitionName(t[i].name);
        if partitionName == [] {
          partitionName := Str("Partition") + FormatNat(i + 1);
        }
        assert partitionName == Label(t[i].name, i);
        CellsAppend(Labels(t[..i]), partitionName);
        AppendAssoc(header, Cells(Labels(t[..i])), Cell(partitionName));
        builder := builder + Cell(partitionName);
      } else {
        assert Labels(t[..i + 1]) == Labels(t[..i]);
      }
      i := i + 1;
    }
    assert t[..SLOTS] == t;
    builder := builder + Str("</TR>\n");
    builder := builder + Str("    </TABLE>>];\n");
    builder := builder + CLOSING;
    dot := builder;
  }

  /** Extending the table by one slot adds that slot's label when it is occupied. */
  lemma LabelsStep(t: seq<Partition>, i: nat)
    requires i < |t|
    ensures Labels(t[..i + 1]) == Labels(t[..i]) + (if Occupied(t[i]) then [Label(t[i].name, i)] else [])
  {
    assert t[..i + 1][..i] == t[..i] && t[..i + 1][i] == t[i];
  }

  lemma CellsAppend(ls: seq<seq<byte>>, l: seq<byte>)
    ensures Cells(ls + [l]) == Cells(ls) + Cell(l)
  {
    assert (ls + [l])[..|ls|] == ls;
  }

  lemma AppendAssoc(a: seq<byte>, b: seq<byte>, c: seq<byte>)
    ensures (a + b) + c == a + (b + c)
  {
  }

  lemma PrefixExtend(x: seq<byte>, y: seq<byte>, p: seq<byte>)
    requires HasPrefix(x, p)
    ensures HasPrefix(x + y, p)
  {
    assert (x + y)[..|p|] == x[..|p|];
  }

  lemma SuffixExtend(x: seq<byte>, y: seq<byte>, c: seq<byte>)
    requires |c| <= |y| && y[|y| - |c|..] == c
    ensures |c| <= |x + y| && (x + y)[|x + y| - |c|..] == c
  {
    assert (x + y)[|x + y| - |c|..] == y[|y| - |c|..];
  }

  /** The report is a Graphviz digraph: it opens with "digraph G {" and closes with "}". */
  lemma DotCodeFrame(m: Mbr)
    ensures HasPrefix(DotCode(m), Str("digraph G {\n"))
    ensures var d := DotCode(m); |d| >= 2 && d[|d| - 2..] == Str("}\n")
  {
    var body := Cells(Labels(m.partitions));
    var h0 := OPENING + Str("    node [shape=none];\n");
    var h1 := h0 + Str("    rankdir=\"LR\";\n");
    var h2 := h1 + Str("    struct1 [label=<<TABLE BORDER=\"0\" CELLBORDER=\"1\" CELLSPACING=\"0\">\n");
    var h3 := h2 + Str("    <TR>");
    assert OPENING[..|OPENING|] == OPENING;
    PrefixExtend(OPENING, Str("    node [shape=none];\n"), OPENING);
    PrefixExtend(h0, Str("    rankdir=\"LR\";\n"), OPENING);
    PrefixExtend(h1, Str("    struct1 [label=<<TABLE BORDER=\"0\" CELLBORDER=\"1\" CELLSPACING=\"0\">\n"), OPENING);
    PrefixExtend(h2, Str("    <TR>"), OPENING);
    PrefixExtend(h3, Str("    <TD BGCOLOR=\"yellow\">MBR</TD>"), OPENING);
    PrefixExtend(HEADER, body, OPENING);
    PrefixExtend(HEADER + body, FOOTER, OPENING);
    assert CLOSING[|CLOSING| - |CLOSING|..] == CLOSING;
    SuffixExtend(Str("</TR>\n") + Str("    </TABLE>>];\n"), CLOSING, CLOSING);
    SuffixExtend(HEADER + body, FOOTER, CLOSING);
  }

  /** One label per occupied slot. */
  lemma {:induction false} LabelsCount(t: seq<Partition>)
    ensures |Labels(t)| == OccupiedCount(t)
  {
    if t != [] {
      LabelsCount(t[..|t| - 1]);
    }
  }

  /** In slot order: occupied slot `i` has the label at the position that counts the
      occupied slots before it. */
  lemma {:induction false} LabelsAt(t: seq<Partition>, i: nat)
    requires i < |t| && Occupied(t[i])
    ensures OccupiedCount(t[..i]) < |Labels(t)|
    ensures Labels(t)[OccupiedCount(t[..i])] == Label(t[i].name, i)
  {
    var n := |t| - 1;
    LabelsCount(t[..n]);
    if i == n {
      assert t[..i] == t[..n];
    } else {
      assert t[..n][i] == t[i] && t[..n][..i] == t[..i];
      LabelsAt(t[..n], i);
    }
  }

  /** A table without occupied slots shows the MBR cell alone. */
  lemma EmptyTableReport(m: Mbr)
    requires OccupiedCount(m.partitions) == 0
    ensures DotCode(m) == HEADER + FOOTER
  {
    LabelsCount(m.partitions);
  }

  /** A slot whose name field is all zeros is labelled by its position. */
  lemma UnnamedSlotLabel(i: nat)
    ensures Label(Zeros(NAME_LEN), i) == Str("Partition") + FormatNat(i + 1)
  {
    assert Zeros(NAME_LEN)[0] == 0;
  }
}
