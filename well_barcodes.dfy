/** `get_all_bc` of bin/split_fastq.py: for every subsample, the map from each
    of its wells' whitelist barcodes to the well's name, the union of the
    one-mismatch indexes of those barcodes, and, when reads are also split by
    well, one index per well. */
module WellBarcodes {
  import opened Text
  import opened MismatchIndex
  import opened WellRouting

  /** `f'well{j}'`: the name a well's output and index go by. */
  function WellName(j: nat): (r: string)
    ensures |r| > 4 && r[..4] == "well" && AllDigits(r[4..])
    ensures r[4..] == [] || r[4] != '0' || r[4..] == "0"
  {
    "well" + Decimal(j)
  }

  /** Distinct wells have distinct names. */
  lemma WellNameInjective(i: nat, j: nat)
    requires WellName(i) == WellName(j)
    ensures i == j
  {
    assert Decimal(i) == WellName(i)[4..];
    assert Decimal(j) == WellName(j)[4..];
    DecimalInjective(i, j);
  }

  /** `read_one_col`: the lines of the whitelist file, each stripped. */
  function ReadOneCol(lines: seq<string>): (r: seq<string>)
    ensures |r| == |lines|
    ensures forall i :: 0 <= i < |lines| ==> r[i] == Strip(lines[i])
  {
    seq(|lines|, i requires 0 <= i < |lines| => Strip(lines[i]))
  }

  /** Every entry is already stripped, as `read_one_col` leaves them. */
  predicate Stripped(bcs: seq<string>)
  {
    forall i :: 0 <= i < |bcs| ==> Strip(bcs[i]) == bcs[i]
  }

  lemma ReadOneColStripped(lines: seq<string>)
    ensures Stripped(ReadOneCol(lines))
  {
    forall i | 0 <= i < |lines| ensures Strip(ReadOneCol(lines)[i]) == ReadOneCol(lines)[i] {
      StripIdempotent(lines[i]);
    }
  }

  /** Every well is one of the whitelist's lines, numbered from 1. */
  predicate InRange(bcs: seq<string>, ws: seq<nat>)
  {
    forall i :: 0 <= i < |ws| ==> 1 <= ws[i] <= |bcs|
  }

  /** `barcodes[j-1]` for a well `j` within the whitelist. */
  function WellBarcode(bcs: seq<string>, j: nat): string
    requires 1 <= j <= |bcs|
  {
    bcs[j - 1]
  }

  /** The barcodes of the wells, in well order. */
  function BarcodesOf(bcs: seq<string>, ws: seq<nat>): (r: seq<string>)
    requires InRange(bcs, ws)
    ensures |r| == |ws|
    ensures forall i :: 0 <= i < |ws| ==> r[i] == WellBarcode(bcs, ws[i])
  {
    seq(|ws|, i requires 0 <= i < |ws| && 1 <= ws[i] <= |bcs| => WellBarcode(bcs, ws[i]))
  }

  /** A dictionary filled by `d[keys[k]] = vals[k]` for k in order, a later
      write of a key replacing an earlier one. */
  function Assign<V>(keys: seq<string>, vals: seq<V>): map<string, V>
    requires |keys| == |vals|
  {
    if |keys| == 0 then map[]
    else Assign(keys[..|keys| - 1], vals[..|vals| - 1])[keys[|keys| - 1] := vals[|vals| - 1]]
  }

  /** The wells' names, in well order. */
  function NamesOf(ws: seq<nat>): (r: seq<string>)
    ensures |r| == |ws|
    ensures forall i :: 0 <= i < |ws| ==> r[i] == WellName(ws[i])
  {
    seq(|ws|, i requires 0 <= i < |ws| => WellName(ws[i]))
  }

  /** The one-mismatch index of each well's barcode on its own, in well order. */
  function WellIndexes(bcs: seq<string>, ws: seq<nat>): (r: seq<map<string, string>>)
    requires InRange(bcs, ws)
    ensures |r| == |ws|
    ensures forall i :: 0 <= i < |ws| ==> r[i] == MismatchDict([WellBarcode(bcs, ws[i])], 1)
  {
    seq(|ws|, i requires 0 <= i < |ws| && 1 <= ws[i] <= |bcs| => MismatchDict([WellBarcode(bcs, ws[i])], 1))
  }

  /** `all_bc[i]["map"]`: each well's barcode mapped to its name. */
  function WellMapOf(bcs: seq<string>, ws: seq<nat>): map<string, string>
    requires InRange(bcs, ws)
  {
    Assign(BarcodesOf(bcs, ws), NamesOf(ws))
  }

  /** `all_bc[i]["sample"]`: the one-mismatch indexes of the wells' barcodes
      merged with `dict.update` in well order. */
  function SampleOf(bcs: seq<string>, ws: seq<nat>): map<string, string>
    requires InRange(bcs, ws)
  {
    MismatchDict(BarcodesOf(bcs, ws), 1)
  }

  /** `all_bc[i]["well"]` when reads are split by well: each well's name mapped
      to the one-mismatch index of its barcode alone. */
  function PerWellOf(bcs: seq<string>, ws: seq<nat>): map<string, map<string, string>>
    requires InRange(bcs, ws)
  {
    Assign(NamesOf(ws), WellIndexes(bcs, ws))
  }

  /** The keys of an assignment are the keys written, */
  lemma {:induction false} AssignKeys<V>(keys: seq<string>, vals: seq<V>, k: string)
    requires |keys| == |vals|
    ensures k in Assign(keys, vals) <==> k in keys
  {
    if |keys| > 0 {
      var init := keys[..|keys| - 1];
      AssignKeys(init, vals[..|vals| - 1], k);
      assert keys == init + [keys[|keys| - 1]];
    }
  }

  /** and each holds the value of its last write. */
  lemma {:induction false} AssignValue<V>(keys: seq<string>, vals: seq<V>, k: string) returns (i: nat)
    requires |keys| == |vals| && k in Assign(keys, vals)
    ensures i < |keys| && keys[i] == k && Assign(keys, vals)[k] == vals[i]
    ensures forall j :: i < j < |keys| ==> keys[j] != k
  {
    if keys[|keys| - 1] == k {
      i := |keys| - 1;
    } else {
      var init := keys[..|keys| - 1];
      i := AssignValue(init, vals[..|vals| - 1], k);
      assert forall j :: i < j < |init| ==> init[j] == keys[j];
    }
  }

  /** One more write. */
  lemma AssignStep<V>(keys: seq<string>, vals: seq<V>, k: nat)
    requires |keys| == |vals| && k < |keys|
    ensures Assign(keys[..k + 1], vals[..k + 1]) == Assign(keys[..k], vals[..k])[keys[k] := vals[k]]
  {
    assert keys[..k + 1][..k] == keys[..k];
    assert vals[..k + 1][..k] == vals[..k];
  }

  /** The three dictionaries `get_all_bc` builds for one subsample. */
  datatype BcIndex = BcIndex(wellOf: map<string, string>, sample: map<string, string>, well: map<string, map<string, string>>)

  /** The dictionaries of one subsample with wells `ws`; `well` stays empty
      unless reads are split by well. */
  function IndexOf(bcs: seq<string>, ws: seq<nat>, wellSplit: bool): BcIndex
    requires InRange(bcs, ws)
  {
    BcIndex(WellMapOf(bcs, ws), SampleOf(bcs, ws), if wellSplit then PerWellOf(bcs, ws) else map[])
  }

  predicate AllInRange(bcs: seq<string>, wellDict: map<string, seq<nat>>)
  {
    forall i :: i in wellDict ==> InRange(bcs, wellDict[i])
  }

  /** `get_all_bc(file, well_dict, well_split)` for the whitelist lines `bcs`. */
  function AllBc(bcs: seq<string>, wellDict: map<string, seq<nat>>, wellSplit: bool): (r: map<string, BcIndex>)
    requires AllInRange(bcs, wellDict)
    ensures r.Keys == wellDict.Keys
  {
    map i | i in wellDict :: IndexOf(bcs, wellDict[i], wellSplit)
  }

  // ---------------------------------------------------------------- the loops of get_all_bc

  /** One more well merged into the `sample` index. */
  lemma SampleStep(bcs: seq<string>, ws: seq<nat>, k: nat)
    requires InRange(bcs, ws) && k < |ws|
    ensures SampleOf(bcs, ws[..k + 1]) == SampleOf(bcs, ws[..k]) + MismatchDict([WellBarcode(bcs, ws[k])], 1)
  {
    assert BarcodesOf(bcs, ws[..k + 1]) == BarcodesOf(bcs, ws[..k]) + [WellBarcode(bcs, ws[k])];
    MismatchDictAppend(BarcodesOf(bcs, ws[..k]), [WellBarcode(bcs, ws[k])], 1);
  }

  /** One more well recorded in the `map` and `well` dictionaries. */
  lemma IndexStep(bcs: seq<string>, ws: seq<nat>, k: nat)
    requires InRange(bcs, ws) && k < |ws|
    ensures WellMapOf(bcs, ws[..k + 1]) == WellMapOf(bcs, ws[..k])[WellBarcode(bcs, ws[k]) := WellName(ws[k])]
    ensures PerWellOf(bcs, ws[..k + 1]) == PerWellOf(bcs, ws[..k])[WellName(ws[k]) := MismatchDict([WellBarcode(bcs, ws[k])], 1)]
  {
    var keys := BarcodesOf(bcs, ws);
    var names := NamesOf(ws);
    var indexes := WellIndexes(bcs, ws);
    assert BarcodesOf(bcs, ws[..k + 1]) == keys[..k + 1] && BarcodesOf(bcs, ws[..k]) == keys[..k];
    assert NamesOf(ws[..k + 1]) == names[..k + 1] && NamesOf(ws[..k]) == names[..k];
    assert WellIndexes(bcs, ws[..k + 1]) == indexes[..k + 1] && WellIndexes(bcs, ws[..k]) == indexes[..k];
    AssignStep(keys, names, k);
    AssignStep(names, indexes, k);
  }

  /** One pass of the inner loop of `get_all_bc`: well `ws[k]` recorded in
      the three dictionaries. */
  method AddWell(bcs: seq<string>, ws: seq<nat>, k: nat, wellSplit: bool,
                 wellOf: map<string, string>, sample: map<string, string>, well: map<string, map<string, string>>)
    returns (wellOf': map<string, string>, sample': map<string, string>, well': map<string, map<string, string>>)
    requires InRange(bcs, ws) && k < |ws|
    requires wellOf == WellMapOf(bcs, ws[..k]) && sample == SampleOf(bcs, ws[..k])
    requires well == if wellSplit then PerWellOf(bcs, ws[..k]) else map[]
    ensures wellOf' == WellMapOf(bcs, ws[..k + 1]) && sample' == SampleOf(bcs, ws[..k + 1])
    ensures well' == if wellSplit then PerWellOf(bcs, ws[..k + 1]) else map[]
  {
    var j := ws[k];
    var barcode := WellBarcode(bcs, j);
    IndexStep(bcs, ws, k);
    SampleStep(bcs, ws, k);
    wellOf' := wellOf[barcode := WellName(j)];
    var single := GetMismatchDict([barcode], 1);
    sample' := sample + single;
    well' := well;
    if wellSplit {
      var own := GetMismatchDict([barcode], 1);
      well' := well[WellName(j) := own];
    }
  }

  /** The inner loop of `get_all_bc` for one subsample, its wells in order. */
  method BuildIndex(bcs: seq<string>, ws: seq<nat>, wellSplit: bool) returns (idx: BcIndex)
    requires InRange(bcs, ws)
    ensures idx == IndexOf(bcs, ws, wellSplit)
  {
    var wellOf: map<string, string> := map[];
    var sample: map<string, string> := map[];
    var well: map<string, map<string, string>> := map[];
    for k := 0 to |ws|
      invariant wellOf == WellMapOf(bcs, ws[..k])
      invariant sample == SampleOf(bcs, ws[..k])
      invariant well == if wellSplit then PerWellOf(bcs, ws[..k]) else map[]
    {
      wellOf, sample, well := AddWell(bcs, ws, k, wellSplit, wellOf, sample, well);
    }
    assert ws[..|ws|] == ws;
    return BcIndex(wellOf, sample, well);
  }

  /** `get_all_bc`: the dictionaries of every subsample of `well_dict`. */
  method GetAllBc(bcs: seq<string>, wellDict: map<string, seq<nat>>, wellSplit: bool) returns (allBc: map<string, BcIndex>)
    requires AllInRange(bcs, wellDict)
    ensures allBc == AllBc(bcs, wellDict, wellSplit)
  {
    allBc := map[];
    var rest := wellDict.Keys;
    while rest != {}
      invariant rest <= wellDict.Keys
      invariant allBc.Keys == wellDict.Keys - rest
      invariant forall i :: i in allBc ==> allBc[i] == IndexOf(bcs, wellDict[i], wellSplit)
      decreases rest
    {
      var i :| i in rest;
      var idx := BuildIndex(bcs, wellDict[i], wellSplit);
      allBc := allBc[i := idx];
      rest := rest - {i};
    }
  }

  // ---------------------------------------------------------------- what the dictionaries hold

  /** The `map` dictionary holds exactly the wells' barcodes. */
  lemma WellMapKeys(bcs: seq<string>, ws: seq<nat>, b: string)
    requires InRange(bcs, ws)
    ensures b in WellMapOf(bcs, ws) <==> exists i :: 0 <= i < |ws| && WellBarcode(bcs, ws[i]) == b
  {
    AssignKeys(BarcodesOf(bcs, ws), NamesOf(ws), b);
  }

  /** A barcode in `map` names the last well that has it. */
  lemma WellMapValues(bcs: seq<string>, ws: seq<nat>, b: string) returns (i: nat)
    requires InRange(bcs, ws) && b in WellMapOf(bcs, ws)
    ensures i < |ws| && WellBarcode(bcs, ws[i]) == b && WellMapOf(bcs, ws)[b] == WellName(ws[i])
    ensures forall k :: i < k < |ws| ==> WellBarcode(bcs, ws[k]) != b
  {
    i := AssignValue(BarcodesOf(bcs, ws), NamesOf(ws), b);
  }

  /** With a whitelist of distinct lines, `map` sends each well's barcode back
      to that well. */
  lemma WellMapInverts(bcs: seq<string>, ws: seq<nat>, i: nat)
    requires InRange(bcs, ws) && NoDup(bcs) && i < |ws|
    ensures WellBarcode(bcs, ws[i]) in WellMapOf(bcs, ws)
    ensures WellMapOf(bcs, ws)[WellBarcode(bcs, ws[i])] == WellName(ws[i])
  {
    var b := WellBarcode(bcs, ws[i]);
    WellMapKeys(bcs, ws, b);
    var k := WellMapValues(bcs, ws, b);
    assert bcs[ws[k] - 1] == bcs[ws[i] - 1];
  }

  /** The `well` dictionary has one entry per well name, */
  lemma PerWellKeys(bcs: seq<string>, ws: seq<nat>, w: string)
    requires InRange(bcs, ws)
    ensures w in PerWellOf(bcs, ws) <==> exists i :: 0 <= i < |ws| && WellName(ws[i]) == w
  {
    AssignKeys(NamesOf(ws), WellIndexes(bcs, ws), w);
  }

  /** and each well's entry is the one-mismatch index of that well's barcode. */
  lemma PerWellEntry(bcs: seq<string>, ws: seq<nat>, i: nat)
    requires InRange(bcs, ws) && i < |ws|
    ensures WellName(ws[i]) in PerWellOf(bcs, ws)
    ensures PerWellOf(bcs, ws)[WellName(ws[i])] == MismatchDict([WellBarcode(bcs, ws[i])], 1)
  {
    var names := NamesOf(ws);
    AssignKeys(names, WellIndexes(bcs, ws), WellName(ws[i]));
    var k := AssignValue(names, WellIndexes(bcs, ws), WellName(ws[i]));
    WellNameInjective(ws[k], ws[i]);
  }

  /** A key of `sample` is a sequence within one mismatch of some well's barcode. */
  lemma SampleKeys(bcs: seq<string>, ws: seq<nat>, t: string)
    requires InRange(bcs, ws)
    ensures t in SampleOf(bcs, ws) <==> exists i :: 0 <= i < |ws| && Owns(WellBarcode(bcs, ws[i]), t, 1)
  {
    var list := BarcodesOf(bcs, ws);
    MismatchDictKeys(list, 1, t);
    if t in SampleOf(bcs, ws) {
      var j :| 0 <= j < |list| && Owns(list[j], t, 1);
      assert Owns(WellBarcode(bcs, ws[j]), t, 1);
    }
    if exists i :: 0 <= i < |ws| && Owns(WellBarcode(bcs, ws[i]), t, 1) {
      var i :| 0 <= i < |ws| && Owns(WellBarcode(bcs, ws[i]), t, 1);
      assert Owns(list[i], t, 1);
    }
  }

  /** Everything a well's own index holds is also in `sample`. */
  lemma PerWellInSample(bcs: seq<string>, ws: seq<nat>, i: nat, t: string)
    requires InRange(bcs, ws) && i < |ws|
    requires t in MismatchDict([WellBarcode(bcs, ws[i])], 1)
    ensures t in SampleOf(bcs, ws)
  {
    MismatchDictKeys([WellBarcode(bcs, ws[i])], 1, t);
    SampleKeys(bcs, ws, t);
  }

  /** What `run` relies on: a read whose barcode is in `sample` has a well that
      `map` names for the barcode `sample` gives, the `well` dictionary has an
      index for that well, the read's barcode is in it, and the well's
      whitelist barcode is at most one mismatch away from the read's. */
  lemma SampleRouting(bcs: seq<string>, ws: seq<nat>, t: string) returns (i: nat)
    requires InRange(bcs, ws) && Stripped(bcs) && t in SampleOf(bcs, ws)
    ensures i < |ws| && SampleOf(bcs, ws)[t] == WellBarcode(bcs, ws[i])
    ensures SampleOf(bcs, ws)[t] in WellMapOf(bcs, ws)
    ensures WellMapOf(bcs, ws)[SampleOf(bcs, ws)[t]] == WellName(ws[i])
    ensures Owns(WellBarcode(bcs, ws[i]), t, 1)
    ensures WellName(ws[i]) in PerWellOf(bcs, ws) && t in PerWellOf(bcs, ws)[WellName(ws[i])]
  {
    var list := BarcodesOf(bcs, ws);
    var v := SampleOf(bcs, ws)[t];
    MismatchDictValues(list, 1, t);
    var j :| 0 <= j < |list| && v == Strip(list[j]);
    assert v == WellBarcode(bcs, ws[j]);
    WellMapKeys(bcs, ws, v);
    i := WellMapValues(bcs, ws, v);
    PerWellEntry(bcs, ws, i);
    MismatchDictKeys([v], 1, t);
    assert Owns([v][0], t, 1);
  }

  // ---------------------------------------------------------------- well 0

  /** `barcodes[j-1]` as Python evaluates it for any well up to the whitelist's
      length: well 0 indexes -1, which is the whitelist's last line. */
  function PyWellBarcode(bcs: seq<string>, j: nat): (r: string)
    requires 1 <= |bcs| && j <= |bcs|
    ensures r in bcs
  {
    if j == 0 then bcs[|bcs| - 1] else bcs[j - 1]
  }

  /** Well 0, which a range such as "0-3" accepts, reads the barcode of the last
      well: two distinct wells, one barcode. */
  lemma WellZeroAliasesLast(bcs: seq<string>)
    requires |bcs| >= 1
    ensures NoDup([0, |bcs|]) && PyWellBarcode(bcs, 0) == PyWellBarcode(bcs, |bcs|)
  {
  }

  /** `map` as `get_all_bc` builds it when a well may be 0: each well's
      barcode read the Python way, `d[barcodes[j-1]] = f'well{j}'` in order. */
  function PyWellMapOf(bcs: seq<string>, ws: seq<nat>): map<string, string>
    requires |bcs| >= 1 && forall i :: 0 <= i < |ws| ==> ws[i] <= |bcs|
  {
    Assign(seq(|ws|, i requires 0 <= i < |ws| && ws[i] <= |bcs| => PyWellBarcode(bcs, ws[i])), NamesOf(ws))
  }

  /** What the aliasing does to routing: when a subsample lists well 0 after the
      last well `n`, the barcode of well `n` is filed under "well0", a name
      distinct from "well{n}"; listed the other way round, it stays with well `n`. */
  lemma WellZeroMisroutes(bcs: seq<string>)
    requires |bcs| >= 1
    ensures var n := |bcs|; var b := bcs[n - 1];
      && b in PyWellMapOf(bcs, [n, 0]) && PyWellMapOf(bcs, [n, 0])[b] == WellName(0)
      && b in PyWellMapOf(bcs, [0, n]) && PyWellMapOf(bcs, [0, n])[b] == WellName(n)
      && WellName(0) != WellName(n)
  {
    var n := |bcs|;
    if WellName(0) == WellName(n) {
      WellNameInjective(0, n);
    }
    var keys := seq(2, i requires 0 <= i < 2 => bcs[n - 1]);
    assert seq(|[n, 0]|, i requires 0 <= i < |[n, 0]| && [n, 0][i] <= |bcs| => PyWellBarcode(bcs, [n, 0][i])) == keys;
    assert seq(|[0, n]|, i requires 0 <= i < |[0, n]| && [0, n][i] <= |bcs| => PyWellBarcode(bcs, [0, n][i])) == keys;
    assert NamesOf([n, 0]) == [WellName(n), WellName(0)];
    assert NamesOf([0, n]) == [WellName(0), WellName(n)];
    assert keys[..1] == [bcs[n - 1]];
  }
}
