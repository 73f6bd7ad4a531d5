/** Command-line tokens: `strings.Fields`, `parseCommand` (main.go:78-95) and the
    MKDISK/FDISK parameter extractors (main.go:115-140, 188-225). */
module Params {
  import opened Bytes
  import opened Int64
  import opened Outcomes
  import opened Decimal
  import opened Units

  const SIZE_KEY: seq<byte> := Str("->size=")
  const UNIT_KEY: seq<byte> := Str("->unit=")
  const LETTER_KEY: seq<byte> := Str("->letter=")
  const NAME_KEY: seq<byte> := Str("->name=")
  const PATH_KEY: seq<byte> := Str("->path=")

  /** ASCII white space as `strings.Fields` sees it: tab, LF, VT, FF, CR and space. */
  predicate IsSpace(b: byte)
  {
    b == 32 || 9 <= b <= 13
  }

  predicate NoSpace(s: seq<byte>)
  {
    forall i :: 0 <= i < |s| ==> !IsSpace(s[i])
  }

  /** The longest prefix of `s` without white space. */
  function Word(s: seq<byte>): (w: seq<byte>)
    ensures |w| <= |s| && w == s[..|w|] && NoSpace(w)
    ensures |w| < |s| ==> IsSpace(s[|w|])
  {
    if s == [] || IsSpace(s[0]) then [] else [s[0]] + Word(s[1..])
  }

  /** `strings.Fields`: the maximal runs of non-space bytes, in order. */
  function Fields(s: seq<byte>): seq<seq<byte>>
    decreases |s|
  {
    if s == [] then []
    else if IsSpace(s[0]) then Fields(s[1..])
    else var w := Word(s); [w] + Fields(s[|w|..])
  }

  function Concat(ws: seq<seq<byte>>): seq<byte>
  {
    if ws == [] then [] else ws[0] + Concat(ws[1..])
  }

  function WithoutSpace(s: seq<byte>): seq<byte>
  {
    if s == [] then [] else (if IsSpace(s[0]) then [] else [s[0]]) + WithoutSpace(s[1..])
  }

  /** Every field is non-empty and holds no white space, and the fields together are the
      input with its white space removed. */
  lemma {:induction false} FieldsSplit(s: seq<byte>)
    ensures forall k :: 0 <= k < |Fields(s)| ==> Fields(s)[k] != [] && NoSpace(Fields(s)[k])
    ensures Concat(Fields(s)) == WithoutSpace(s)
    decreases |s|
  {
    if s != [] {
      if IsSpace(s[0]) {
        FieldsSplit(s[1..]);
      } else {
        var w := Word(s);
        FieldsSplit(s[|w|..]);
        WithoutSpaceOfWord(s, |w|);
        assert Fields(s)[1..] == Fields(s[|w|..]);
        assert forall k :: 1 <= k < |Fields(s)| ==> Fields(s)[k] == Fields(s[|w|..])[k - 1];
      }
    }
  }

  lemma {:induction false} WithoutSpaceOfWord(s: seq<byte>, n: nat)
    requires n <= |s| && NoSpace(s[..n])
    ensures WithoutSpace(s) == s[..n] + WithoutSpace(s[n..])
  {
    if n > 0 {
      assert s[1..][..n - 1] == s[1..n];
      assert NoSpace(s[1..][..n - 1]);
      WithoutSpaceOfWord(s[1..], n - 1);
      assert s[1..][n - 1..] == s[n..];
      assert s[..n] == [s[0]] + s[1..n];
    }
  }

  /** The words separated by single spaces. */
  function Join(ws: seq<seq<byte>>): seq<byte>
  {
    if ws == [] then []
    else if |ws| == 1 then ws[0]
    else ws[0] + [32] + Join(ws[1..])
  }

  /** A space-free run followed by white space or by the end is the whole first word. */
  lemma {:induction false} WordOf(w: seq<byte>, rest: seq<byte>)
    requires NoSpace(w) && (rest == [] || IsSpace(rest[0]))
    ensures Word(w + rest) == w
  {
    if w != [] {
      assert (w + rest)[1..] == w[1..] + rest;
      WordOf(w[1..], rest);
    }
  }

  /** Fields are maximal: splitting words joined by single spaces gives back exactly those
      words, so no field is ever cut inside a run of non-space bytes. */
  lemma {:induction false} FieldsJoin(ws: seq<seq<byte>>)
    requires forall k :: 0 <= k < |ws| ==> ws[k] != [] && NoSpace(ws[k])
    ensures Fields(Join(ws)) == ws
  {
    if ws != [] {
      var w := ws[0];
      var rest := if |ws| == 1 then [] else [32] + Join(ws[1..]);
      var s := Join(ws);
      assert s == w + rest;
      WordOf(w, rest);
      assert s[|w|..] == rest;
      if |ws| > 1 {
        FieldsJoin(ws[1..]);
        assert rest[1..] == Join(ws[1..]);
        assert Fields(rest) == ws[1..];
      }
      assert Fields(s) == [w] + Fields(rest);
    }
  }

  /** `parseCommand`: the first field, and the value of the first later field that starts
      with "->path=" (or nothing); fewer than two fields give two empty strings. */
  method ParseCommand(input: seq<byte>) returns (command: seq<byte>, path: seq<byte>)
    ensures var parts := Fields(input);
      && (|parts| < 2 ==> command == [] && path == [])
      && (|parts| >= 2 ==> command == parts[0])
      && (|parts| >= 2 && (forall j :: 1 <= j < |parts| ==> !HasPrefix(parts[j], PATH_KEY)) ==> path == [])
      && (|parts| >= 2 && (exists j :: 1 <= j < |parts| && HasPrefix(parts[j], PATH_KEY)) ==>
            exists j :: 1 <= j < |parts| && HasPrefix(parts[j], PATH_KEY)
                        && (forall i :: 1 <= i < j ==> !HasPrefix(parts[i], PATH_KEY))
                        && path == TrimPrefix(parts[j], PATH_KEY))
  {
    var parts := Fields(input);
    if |parts| < 2 {
      return [], [];
    }
    command := parts[0];
    path := [];
    var i := 1;
    while i < |parts|
      invariant 1 <= i <= |parts| && path == []
      invariant forall k :: 1 <= k < i ==> !HasPrefix(parts[k], PATH_KEY)
    {
      if HasPrefix(parts[i], PATH_KEY) {
        path := TrimPrefix(parts[i], PATH_KEY);
        return;
      }
      i := i + 1;
    }
  }

  /** The index of the last parameter starting with `key`, or -1. */
  function LastWith(ps: seq<seq<byte>>, key: seq<byte>): (r: int)
    ensures -1 <= r < |ps|
    ensures r >= 0 ==> HasPrefix(ps[r], key)
    ensures forall j :: r < j < |ps| ==> !HasPrefix(ps[j], key)
  {
    if ps == [] then -1
    else if HasPrefix(ps[|ps| - 1], key) then |ps| - 1
    else LastWith(ps[..|ps| - 1], key)
  }

  /** The five keys differ in their third byte, so no parameter starts with two of them. */
  lemma KeysDisjoint(p: seq<byte>)
    ensures HasPrefix(p, SIZE_KEY) ==> !HasPrefix(p, UNIT_KEY) && !HasPrefix(p, LETTER_KEY) && !HasPrefix(p, NAME_KEY)
    ensures HasPrefix(p, UNIT_KEY) ==> !HasPrefix(p, LETTER_KEY) && !HasPrefix(p, NAME_KEY)
    ensures HasPrefix(p, LETTER_KEY) ==> !HasPrefix(p, NAME_KEY)
  {
    assert SIZE_KEY[2] == 115 && UNIT_KEY[2] == 117 && LETTER_KEY[2] == 108 && NAME_KEY[2] == 110;
    assert |SIZE_KEY| == 7 && |UNIT_KEY| == 7 && |LETTER_KEY| == 9 && |NAME_KEY| == 7;
    if HasPrefix(p, SIZE_KEY) { assert p[2] == SIZE_KEY[2]; }
    if HasPrefix(p, UNIT_KEY) { assert p[2] == UNIT_KEY[2]; }
    if HasPrefix(p, LETTER_KEY) { assert p[2] == LETTER_KEY[2]; }
  }

  /** A size value as both extractors read it: an int64 greater than zero. */
  function SizeValue(param: seq<byte>): Option<int64>
  {
    match ParseInt64(TrimPrefix(param, SIZE_KEY))
    case Some(v) => if v <= 0 then None else Some(v)
    case None => None
  }

  // ---------------------------------------------------------------- MKDISK

  datatype MkdiskRequest = MkdiskRequest(size: int64, unit: seq<byte>)

  /** One turn of the MKDISK loop (main.go:120-132). */
  function MkdiskStep(st: MkdiskRequest, param: seq<byte>): Result<MkdiskRequest>
  {
    if HasPrefix(param, SIZE_KEY) then
      match SizeValue(param)
      case Some(v) => Ok(st.(size := v))
      case None => Err(InvalidSize)
    else if HasPrefix(param, UNIT_KEY) then
      var u := TrimPrefix(param, UNIT_KEY);
      if u != UNIT_K && u != UNIT_M then Err(InvalidUnit) else Ok(st.(unit := u))
    else Ok(st)
  }

  /** The loop's state after the given parameters, or the error that ended it. */
  function MkdiskScan(ps: seq<seq<byte>>): Result<MkdiskRequest>
  {
    if ps == [] then Ok(MkdiskRequest(0, UNIT_M))
    else match MkdiskScan(ps[..|ps| - 1])
      case Err(e) => Err(e)
      case Ok(st) => MkdiskStep(st, ps[|ps| - 1])
  }

  /** What `extractMKDISKParams` returns. */
  function MkdiskParams(ps: seq<seq<byte>>): Result<MkdiskRequest>
  {
    match MkdiskScan(ps)
    case Err(e) => Err(e)
    case Ok(st) => if st.size == 0 then Err(MissingSize) else Ok(st)
  }

  /** `extractMKDISKParams` */
  method ExtractMkdiskParams(params: seq<seq<byte>>) returns (size: int64, unit: seq<byte>, err: Option<Error>)
    ensures err.None? ==> MkdiskParams(params) == Ok(MkdiskRequest(size, unit))
    ensures err.Some? ==> MkdiskParams(params) == Err(err.value) && size == 0 && unit == []
  {
    size, unit := 0, UNIT_M;
    var i := 0;
    while i < |params|
      invariant 0 <= i <= |params|
      invariant MkdiskScan(params[..i]) == Ok(MkdiskRequest(size, unit))
    {
      var param := params[i];
      assert params[..i + 1][..i] == params[..i];
      if HasPrefix(param, SIZE_KEY) {
        var sizeStr := TrimPrefix(param, SIZE_KEY);
        var parsed := ParseInt64(sizeStr);
        if parsed.None? || parsed.value <= 0 {
          assert MkdiskScan(params[..i + 1]) == Err(InvalidSize);
          MkdiskScanStops(params, i + 1);
          return 0, [], Some(InvalidSize);
        }
        size := parsed.value;
      } else if HasPrefix(param, UNIT_KEY) {
        unit := TrimPrefix(param, UNIT_KEY);
        if unit != UNIT_K && unit != UNIT_M {
          assert MkdiskScan(params[..i + 1]) == Err(InvalidUnit);
          MkdiskScanStops(params, i + 1);
          return 0, [], Some(InvalidUnit);
        }
      }
      i := i + 1;
    }
    assert params[..|params|] == params;
    if size == 0 {
      return 0, [], Some(MissingSize);
    }
    err := None;
  }

  /** Once the loop has met an error, later parameters do not matter. */
  lemma {:induction false} MkdiskScanStops(ps: seq<seq<byte>>, n: nat)
    requires n <= |ps| && MkdiskScan(ps[..n]).Err?
    ensures MkdiskScan(ps) == MkdiskScan(ps[..n])
    decreases |ps| - n
  {
    if n < |ps| {
      assert ps[..n + 1][..n] == ps[..n];
      MkdiskScanStops(ps, n + 1);
    } else {
      assert ps[..n] == ps;
    }
  }

  /** The loop's state: the last size given (0 when none) and the last unit given ("M"
      when none). */
  lemma {:induction false} MkdiskScanState(ps: seq<seq<byte>>)
    requires MkdiskScan(ps).Ok?
    ensures var st, js, ju := MkdiskScan(ps).value, LastWith(ps, SIZE_KEY), LastWith(ps, UNIT_KEY);
      && (js == -1 ==> st.size == 0)
      && (js >= 0 ==> SizeValue(ps[js]) == Some(st.size))
      && (ju == -1 ==> st.unit == UNIT_M)
      && (ju >= 0 ==> st.unit == TrimPrefix(ps[ju], UNIT_KEY))
      && (st.unit == UNIT_K || st.unit == UNIT_M)
  {
    if ps != [] {
      var n := |ps| - 1;
      MkdiskScanState(ps[..n]);
      KeysDisjoint(ps[n]);
      assert forall j :: 0 <= j < n ==> ps[..n][j] == ps[j];
    }
  }

  /** A successful MKDISK parse has a positive size and the unit K or M: the last ones
      given, the unit defaulting to M. */
  lemma MkdiskParamsResult(ps: seq<seq<byte>>)
    requires MkdiskParams(ps).Ok?
    ensures var r := MkdiskParams(ps).value;
      && r.size > 0
      && (r.unit == UNIT_K || r.unit == UNIT_M)
      && LastWith(ps, SIZE_KEY) >= 0 && SizeValue(ps[LastWith(ps, SIZE_KEY)]) == Some(r.size)
      && (LastWith(ps, UNIT_KEY) == -1 ==> r.unit == UNIT_M)
      && (LastWith(ps, UNIT_KEY) >= 0 ==> r.unit == TrimPrefix(ps[LastWith(ps, UNIT_KEY)], UNIT_KEY))
  {
    MkdiskScanState(ps);
  }

  /** Without a size parameter MKDISK fails. */
  lemma MkdiskNeedsSize(ps: seq<seq<byte>>)
    requires forall j :: 0 <= j < |ps| ==> !HasPrefix(ps[j], SIZE_KEY)
    ensures MkdiskParams(ps).Err?
  {
    if MkdiskScan(ps).Ok? {
      MkdiskScanState(ps);
    }
  }

  /** A size parameter that is not a positive integer fails MKDISK, whatever follows it. */
  lemma MkdiskRejectsBadSize(ps: seq<seq<byte>>, j: nat)
    requires j < |ps| && HasPrefix(ps[j], SIZE_KEY) && SizeValue(ps[j]).None?
    ensures MkdiskParams(ps).Err?
  {
    assert ps[..j + 1][..j] == ps[..j];
    MkdiskScanStops(ps, j + 1);
  }

  /** A unit other than K and M fails MKDISK, whatever follows it. */
  lemma MkdiskRejectsBadUnit(ps: seq<seq<byte>>, j: nat)
    requires j < |ps| && HasPrefix(ps[j], UNIT_KEY)
    requires TrimPrefix(ps[j], UNIT_KEY) != UNIT_K && TrimPrefix(ps[j], UNIT_KEY) != UNIT_M
    ensures MkdiskParams(ps).Err?
  {
    KeysDisjoint(ps[j]);
    assert ps[..j + 1][..j] == ps[..j];
    MkdiskScanStops(ps, j + 1);
  }

  // ---------------------------------------------------------------- FDISK

  datatype FdiskRequest = FdiskRequest(size: int64, unit: seq<byte>, letter: seq<byte>, name: seq<byte>)

  /** One turn of the FDISK loop (main.go:193-212). */
  function FdiskStep(st: FdiskRequest, param: seq<byte>): Result<FdiskRequest>
  {
    if HasPrefix(param, SIZE_KEY) then
      match SizeValue(param)
      case Some(v) => Ok(st.(size := v))
      case None => Err(InvalidSize)
    else if HasPrefix(param, UNIT_KEY) then
      var u := TrimPrefix(param, UNIT_KEY);
      if u != UNIT_B && u != UNIT_K && u != UNIT_M then Err(InvalidUnit) else Ok(st.(unit := u))
    else if HasPrefix(param, LETTER_KEY) then Ok(st.(letter := TrimPrefix(param, LETTER_KEY)))
    else if HasPrefix(param, NAME_KEY) then Ok(st.(name := TrimPrefix(param, NAME_KEY)))
    else Ok(st)
  }

  function FdiskScan(ps: seq<seq<byte>>): Result<FdiskRequest>
  {
    if ps == [] then Ok(FdiskRequest(0, [], [], []))
    else match FdiskScan(ps[..|ps| - 1])
      case Err(e) => Err(e)
      case Ok(st) => FdiskStep(st, ps[|ps| - 1])
  }

  /** What `extractFDISKParams` returns: size, letter and name are mandatory, the unit
      defaults to K. */
  function FdiskParams(ps: seq<seq<byte>>): Result<FdiskRequest>
  {
    match FdiskScan(ps)
    case Err(e) => Err(e)
    case Ok(st) =>
      if st.size == 0 || st.letter == [] || st.name == [] then Err(MissingParameter)
      else Ok(if st.unit == [] then st.(unit := UNIT_K) else st)
  }

  /** `extractFDISKParams` */
  method ExtractFdiskParams(params: seq<seq<byte>>)
    returns (size: int64, unit: seq<byte>, letter: seq<byte>, name: seq<byte>, err: Option<Error>)
    ensures err.None? ==> FdiskParams(params) == Ok(FdiskRequest(size, unit, letter, name))
    ensures err.Some? ==> FdiskParams(params) == Err(err.value) && size == 0 && unit == letter == name == []
  {
    size, unit, letter, name := 0, [], [], [];
    var i := 0;
    while i < |params|
      invariant 0 <= i <= |params|
      invariant FdiskScan(params[..i]) == Ok(FdiskRequest(size, unit, letter, name))
    {
      var param := params[i];
      assert params[..i + 1][..i] == params[..i];
      if HasPrefix(param, SIZE_KEY) {
        var parsed := ParseInt64(TrimPrefix(param, SIZE_KEY));
        if parsed.None? || parsed.value <= 0 {
          assert FdiskScan(params[..i + 1]) == Err(InvalidSize);
          FdiskScanStops(params, i + 1);
          return 0, [], [], [], Some(InvalidSize);
        }
        size := parsed.value;
      } else if HasPrefix(param, UNIT_KEY) {
        unit := TrimPrefix(param, UNIT_KEY);
        if unit != UNIT_B && unit != UNIT_K && unit != UNIT_M {
          assert FdiskScan(params[..i + 1]) == Err(InvalidUnit);
          FdiskScanStops(params, i + 1);
          return 0, [], [], [], Some(InvalidUnit);
        }
      } else if HasPrefix(param, LETTER_KEY) {
        letter := TrimPrefix(param, LETTER_KEY);
      } else if HasPrefix(param, NAME_KEY) {
        name := TrimPrefix(param, NAME_KEY);
      }
      i := i + 1;
    }
    assert params[..|params|] == params;
    if size == 0 || letter == [] || name == [] {
      return 0, [], [], [], Some(MissingParameter);
    }
    if unit == [] {
      unit := UNIT_K;
    }
    err := None;
  }

  lemma {:induction false} FdiskScanStops(ps: seq<seq<byte>>, n: nat)
    requires n <= |ps| && FdiskScan(ps[..n]).Err?
    ensures FdiskScan(ps) == FdiskScan(ps[..n])
    decreases |ps| - n
  {
    if n < |ps| {
      assert ps[..n + 1][..n] == ps[..n];
      FdiskScanStops(ps, n + 1);
    } else {
      assert ps[..n] == ps;
    }
  }

  /** The FDISK loop's state, size and unit: the last ones given (0 and empty when none). */
  lemma {:induction false} FdiskScanSizeUnit(ps: seq<seq<byte>>)
    requires FdiskScan(ps).Ok?
    ensures var st, js, ju := FdiskScan(ps).value, LastWith(ps, SIZE_KEY), LastWith(ps, UNIT_KEY);
      && (js == -1 ==> st.size == 0)
      && (js >= 0 ==> SizeValue(ps[js]) == Some(st.size))
      && (ju == -1 ==> st.unit == [])
      && (ju >= 0 ==> st.unit == TrimPrefix(ps[ju], UNIT_KEY))
      && (ju >= 0 ==> st.unit == UNIT_B || st.unit == UNIT_K || st.unit == UNIT_M)
  {
    if ps != [] {
      var n := |ps| - 1;
      FdiskScanSizeUnit(ps[..n]);
      KeysDisjoint(ps[n]);
      assert forall j :: 0 <= j < n ==> ps[..n][j] == ps[j];
    }
  }

  /** The FDISK loop's state, letter and name: the last ones given (empty when none). */
  lemma {:induction false} FdiskScanLetterName(ps: seq<seq<byte>>)
    requires FdiskScan(ps).Ok?
    ensures var st, jl, jn := FdiskScan(ps).value, LastWith(ps, LETTER_KEY), LastWith(ps, NAME_KEY);
      && (jl == -1 ==> st.letter == [])
      && (jl >= 0 ==> st.letter == TrimPrefix(ps[jl], LETTER_KEY))
      && (jn == -1 ==> st.name == [])
      && (jn >= 0 ==> st.name == TrimPrefix(ps[jn], NAME_KEY))
  {
    if ps != [] {
      var n := |ps| - 1;
      FdiskScanLetterName(ps[..n]);
      KeysDisjoint(ps[n]);
      assert forall j :: 0 <= j < n ==> ps[..n][j] == ps[j];
    }
  }

  /** A successful FDISK parse has a positive size, a unit among B, K and M (K when none is
      given), and a non-empty letter and name: each the last one given. */
  lemma FdiskParamsResult(ps: seq<seq<byte>>)
    requires FdiskParams(ps).Ok?
    ensures var r := FdiskParams(ps).value;
      && r.size > 0
      && (r.unit == UNIT_B || r.unit == UNIT_K || r.unit == UNIT_M)
      && r.letter != [] && r.name != []
      && (LastWith(ps, UNIT_KEY) == -1 ==> r.unit == UNIT_K)
      && (LastWith(ps, UNIT_KEY) >= 0 ==> r.unit == TrimPrefix(ps[LastWith(ps, UNIT_KEY)], UNIT_KEY))
      && LastWith(ps, SIZE_KEY) >= 0 && SizeValue(ps[LastWith(ps, SIZE_KEY)]) == Some(r.size)
      && LastWith(ps, LETTER_KEY) >= 0 && r.letter == TrimPrefix(ps[LastWith(ps, LETTER_KEY)], LETTER_KEY)
      && LastWith(ps, NAME_KEY) >= 0 && r.name == TrimPrefix(ps[LastWith(ps, NAME_KEY)], NAME_KEY)
  {
    FdiskScanSizeUnit(ps);
    FdiskScanLetterName(ps);
    assert |UNIT_B| == 1 && |UNIT_K| == 1 && |UNIT_M| == 1;
  }

  /** Without a size, a letter or a name parameter FDISK fails. */
  lemma FdiskNeedsSizeLetterName(ps: seq<seq<byte>>)
    requires LastWith(ps, SIZE_KEY) == -1 || LastWith(ps, LETTER_KEY) == -1 || LastWith(ps, NAME_KEY) == -1
    ensures FdiskParams(ps).Err?
  {
    if FdiskScan(ps).Ok? {
      FdiskScanSizeUnit(ps);
      FdiskScanLetterName(ps);
    }
  }

  /** A size parameter that is not a positive integer fails FDISK, whatever follows it. */
  lemma FdiskRejectsBadSize(ps: seq<seq<byte>>, j: nat)
    requires j < |ps| && HasPrefix(ps[j], SIZE_KEY) && SizeValue(ps[j]).None?
    ensures FdiskParams(ps).Err?
  {
    assert ps[..j + 1][..j] == ps[..j];
    FdiskScanStops(ps, j + 1);
  }

  /** A unit other than B, K and M fails FDISK, whatever follows it. */
  lemma FdiskRejectsBadUnit(ps: seq<seq<byte>>, j: nat)
    requires j < |ps| && HasPrefix(ps[j], UNIT_KEY)
    requires var u := TrimPrefix(ps[j], UNIT_KEY); u != UNIT_B && u != UNIT_K && u != UNIT_M
    ensures FdiskParams(ps).Err?
  {
    KeysDisjoint(ps[j]);
    assert ps[..j + 1][..j] == ps[..j];
    FdiskScanStops(ps, j + 1);
  }
}
