/** `Split_Fastq` of bin/split_fastq.py: the checks its constructor makes on the
    arguments, and the loop of `run` that sends each read pair to the output
    files of every subsample, and of every well, whose barcode index matches
    the read's barcode. */
module Demultiplex {
  import opened Results
  import opened Text
  import opened PatternDecoder
  import opened MismatchIndex
  import opened WellRouting
  import opened WellBarcodes

  // ================================================================ the constructor

  /** The arguments the constructor and `run` read. A path argument left out
      on the command line (None) is written "", which is as falsy as None. */
  datatype Args = Args(
    sample: string,
    fq1: string,
    fq2: string,
    splitToWell: bool,
    protocol: string,
    well: int,
    pattern: Option<string>,
    whitelist: string)

  /** One entry of the protocol dictionary: its decoded layout, when it has
      one, and its whitelist paths by key. */
  datatype Protocol = Protocol(patternDict: Option<PatternDict>, paths: map<string, string>)

  /** The ways the constructor stops: the `sys.exit` calls and the exceptions
      Python raises on the way to them. */
  datatype ConfigError =
    | UnbalancedInputs                 // fq1 and fq2 list different numbers of files
    | PatternMissing                   // a customized protocol without a pattern
    | BadPattern(cause: PatternError)  // `parse_pattern` rejected the pattern
    | UnknownProtocol(name: string)    // no such protocol
    | NoPatternDict(name: string)      // the protocol has no decoded layout
    | NoBarcodeField                   // the layout has no C field at all
    | BarcodeFieldCount(count: nat)    // the layout has more than one C field
    | WhitelistUnset                   // a built-in protocol that names no whitelist
    | WhitelistNotFound                // an empty whitelist
    | MultipleWhitelists               // a whitelist holding a space

  /** What the constructor leaves in the object: the input files, the span of
      the barcode in read 1, and the whitelist path. */
  datatype Config = Config(fq1s: seq<string>, fq2s: seq<string>, barcode: Span, whitelist: string)

  const Customized: string := "customized"
  const AccuraCode: string := "AccuraCode-V1"

  /** `dict.get(key, [])` on the whitelist paths; the falsy default is "". */
  function PathOf(paths: map<string, string>, key: string): string
  {
    if key in paths then paths[key] else ""
  }

  /** What `parse_pattern(pattern)` returns: the layout of the tokens found, or
      the error when there are none or one has a letter that is not allowed. */
  function PatternOf(pattern: string, allowed: string): Result<PatternDict, PatternError>
  {
    var ts := FindTokens(pattern);
    if ValidTokens(ts, allowed) then Ok(Layout(ts, |ts|)) else Err(InvalidPattern(pattern))
  }

  /** The layout and the whitelist attribute each branch of the constructor
      sets; None is the attribute a built-in protocol other than AccuraCode-V1
      never sets. */
  function Settings(args: Args, protocols: map<string, Protocol>): Result<(PatternDict, Option<string>), ConfigError>
  {
    if args.protocol == Customized then
      match args.pattern
      case None => Err(PatternMissing)
      case Some(p) =>
        match PatternOf(p, DefaultAllowed)
        case Err(e) => Err(BadPattern(e))
        case Ok(d) => Ok((d, Some(args.whitelist)))
    else if args.protocol !in protocols then Err(UnknownProtocol(args.protocol))
    else
      var entry := protocols[args.protocol];
      var wl := if args.protocol == AccuraCode then Some(PathOf(entry.paths, if args.well == 96 then "well96" else "well384")) else None;
      match entry.patternDict
      case None => Err(NoPatternDict(args.protocol))
      case Some(d) => Ok((d, wl))
  }

  /** The constructor's checks in the order it makes them. A configuration
      pairs the files one to one, reads the barcode from the layout's only C
      field, and names one non-empty whitelist. This is the specification;
      `SplitFastqInit` is the constructor's statements, proved to compute it. */
  function Configure(args: Args, protocols: map<string, Protocol>): (r: Result<Config, ConfigError>)
    ensures r.Err? && r.error == UnbalancedInputs <==> |Split(args.fq1, ',')| != |Split(args.fq2, ',')|
    ensures r.Ok? ==> Settings(args, protocols).Ok?
    ensures r.Ok? ==> var d := Settings(args, protocols).value.0;
      && d.Keys >= {'C'} && d['C'] == [r.value.barcode]
      && Settings(args, protocols).value.1 == Some(r.value.whitelist)
    ensures r.Ok? ==> r.value.fq1s == Split(args.fq1, ',') && r.value.fq2s == Split(args.fq2, ',')
    ensures r.Ok? ==> |r.value.fq1s| == |r.value.fq2s|
    ensures r.Ok? ==> r.value.whitelist != "" && ' ' !in r.value.whitelist
  {
    var fq1s := Split(args.fq1, ',');
    var fq2s := Split(args.fq2, ',');
    if |fq1s| != |fq2s| then Err(UnbalancedInputs)
    else
      match Settings(args, protocols)
      case Err(e) => Err(e)
      case Ok((d, wl)) =>
        if 'C' !in d then Err(NoBarcodeField)
        else if |d['C']| != 1 then Err(BarcodeFieldCount(|d['C']|))
        else
          match wl
          case None => Err(WhitelistUnset)
          case Some(w) =>
            if w == "" then Err(WhitelistNotFound)
            else if ' ' in w then Err(MultipleWhitelists)
            else Ok(Config(fq1s, fq2s, d['C'][0], w))
  }

  /** A letter has spans in the layout exactly when some token has it. */
  lemma LayoutHasKind(ts: seq<Token>, k: char)
    ensures k in Layout(ts, |ts|) <==> CountKind(ts, k, |ts|) > 0
  {
    SpansOfLength(ts, k, |ts|);
    if k in Layout(ts, |ts|) {
      var j :| 0 <= j < |ts| && ts[j].kind == k;
      SpansOfInOrder(ts, k, |ts|);
    } else {
      SpansOfAbsent(ts, k, |ts|);
    }
  }

  /** For a customized protocol the constructor succeeds exactly when the
      pattern is valid, has exactly one C token, and the whitelist is one
      non-empty path; the barcode is then that token's span. */
  lemma ConfigureCustomized(args: Args, protocols: map<string, Protocol>, p: string)
    requires args.protocol == Customized && args.pattern == Some(p)
    requires |Split(args.fq1, ',')| == |Split(args.fq2, ',')|
    ensures var ts := FindTokens(p);
      Configure(args, protocols).Ok? <==>
        ValidTokens(ts, DefaultAllowed) && CountKind(ts, 'C', |ts|) == 1
        && args.whitelist != "" && ' ' !in args.whitelist
    ensures var ts := FindTokens(p);
      Configure(args, protocols).Ok? ==>
        Configure(args, protocols).value.whitelist == args.whitelist
        && SpanOfKind(ts, 'C', |ts|, Configure(args, protocols).value.barcode)
  {
    var ts := FindTokens(p);
    if ValidTokens(ts, DefaultAllowed) {
      LayoutHasKind(ts, 'C');
      SpansOfLength(ts, 'C', |ts|);
      SpansOfSound(ts, 'C', |ts|);
    }
  }

  /** For AccuraCode-V1 the whitelist is the 96-well path when `--well 96`
      is given and the 384-well path otherwise. */
  lemma ConfigureAccuraCode(args: Args, protocols: map<string, Protocol>)
    requires args.protocol == AccuraCode && Configure(args, protocols).Ok?
    ensures AccuraCode in protocols
    ensures Configure(args, protocols).value.whitelist ==
      PathOf(protocols[AccuraCode].paths, if args.well == 96 then "well96" else "well384")
  {
  }

  /** A built-in protocol other than AccuraCode-V1 never sets the whitelist:
      the constructor cannot succeed for it. */
  lemma ConfigureOtherProtocol(args: Args, protocols: map<string, Protocol>)
    requires args.protocol != Customized && args.protocol != AccuraCode
    ensures Configure(args, protocols).Err?
  {
  }

  /** The constructor: split the input lists, take the layout and whitelist
      from the arguments or the protocol dictionary, and check them. It
      computes the specification `Configure`. */
  method SplitFastqInit(args: Args, protocols: map<string, Protocol>) returns (r: Result<Config, ConfigError>)
    ensures r == Configure(args, protocols)
  {
    var fq1List := Split(args.fq1, ',');
    var fq2List := Split(args.fq2, ',');
    if |fq1List| != |fq2List| {
      return Err(UnbalancedInputs);
    }
    var patternDict: PatternDict;
    var whitelistStr: Option<string>;
    if args.protocol == Customized {
      if args.pattern.None? {
        return Err(PatternMissing);
      }
      var parsed := ParsePattern(args.pattern.value, DefaultAllowed);
      PatternOfParsed(args.pattern.value, parsed);
      if parsed.Err? {
        return Err(BadPattern(parsed.error));
      }
      patternDict := parsed.value;
      whitelistStr := Some(args.whitelist);
    } else {
      if args.protocol !in protocols {
        return Err(UnknownProtocol(args.protocol));
      }
      var entry := protocols[args.protocol];
      whitelistStr := None;
      if args.protocol == AccuraCode {
        if args.well == 96 {
          whitelistStr := Some(PathOf(entry.paths, "well96"));
        } else {
          whitelistStr := Some(PathOf(entry.paths, "well384"));
        }
      }
      if entry.patternDict.None? {
        return Err(NoPatternDict(args.protocol));
      }
      patternDict := entry.patternDict.value;
    }
    assert Settings(args, protocols) == Ok((patternDict, whitelistStr));
    if 'C' !in patternDict {
      return Err(NoBarcodeField);
    }
    if |patternDict['C']| != 1 {
      return Err(BarcodeFieldCount(|patternDict['C']|));
    }
    if whitelistStr.None? {
      return Err(WhitelistUnset);
    }
    if whitelistStr.value == "" {
      return Err(WhitelistNotFound);
    }
    if ' ' in whitelistStr.value {
      return Err(MultipleWhitelists);
    }
    return Ok(Config(fq1List, fq2List, patternDict['C'][0], whitelistStr.value));
  }

  /** What `ParsePattern` promises pins its result down to `PatternOf`. */
  lemma PatternOfParsed(pattern: string, parsed: Result<PatternDict, PatternError>)
    requires parsed.Err? <==> !ValidTokens(FindTokens(pattern), DefaultAllowed)
    requires parsed.Err? ==> parsed.error == InvalidPattern(pattern)
    requires parsed.Ok? ==> parsed.value.Keys == KindsOf(FindTokens(pattern), |FindTokens(pattern)|)
    requires parsed.Ok? ==> forall k :: k in parsed.value ==>
      parsed.value[k] == SpansOf(FindTokens(pattern), k, |FindTokens(pattern)|)
    ensures parsed == PatternOf(pattern, DefaultAllowed)
  {
    if parsed.Ok? {
      var ts := FindTokens(pattern);
      assert parsed.value == Layout(ts, |ts|);
    }
  }

  // ================================================================ reads

  /** A FASTQ record as pysam yields it: name, bases, qualities. */
  datatype Record = Record(name: string, sequence: string, quality: string)

  /** The records of read 1 and read 2 that `zip` puts side by side. */
  datatype ReadPair = ReadPair(first: Record, second: Record)

  /** The text `run` writes for a record: `@name`, the bases, `+`, the qualities,
      each on its own line. */
  function FormatRecord(r: Record): string
  {
    "@" + r.name + "\n" + r.sequence + "\n+\n" + r.quality + "\n"
  }

  /** The text of records written one after another. */
  function Render(rs: seq<Record>): string
  {
    if |rs| == 0 then "" else Render(rs[..|rs| - 1]) + FormatRecord(rs[|rs| - 1])
  }

  predicate OneLine(s: string) { '\n' !in s }

  /** A record whose fields hold no line break reads back, line by line, as
      its name, bases and qualities. */
  lemma FormatRecordLines(r: Record)
    requires OneLine(r.name) && OneLine(r.sequence) && OneLine(r.quality)
    ensures Split(FormatRecord(r), '\n') == ["@" + r.name, r.sequence, "+", r.quality, ""]
  {
    var parts := ["@" + r.name, r.sequence, "+", r.quality, ""];
    assert parts[1..][1..][1..][1..] == [""];
    assert Join(parts[1..][1..][1..], '\n') == r.quality + "\n";
    assert Join(parts[1..][1..], '\n') == "+\n" + r.quality + "\n";
    assert FormatRecord(r) == Join(parts, '\n');
    SplitJoin(parts, '\n');
  }

  /** `zip(fq1, fq2)`: records paired by position, up to the end of the shorter
      stream. */
  function Zip(xs: seq<Record>, ys: seq<Record>): (ps: seq<ReadPair>)
    ensures |ps| == if |xs| <= |ys| then |xs| else |ys|
    ensures forall i :: 0 <= i < |ps| ==> ps[i] == ReadPair(xs[i], ys[i])
  {
    if |xs| == 0 || |ys| == 0 then [] else [ReadPair(xs[0], ys[0])] + Zip(xs[1..], ys[1..])
  }

  /** The pairs of all input files, file after file. */
  function PairsOf(reads1: seq<seq<Record>>, reads2: seq<seq<Record>>): seq<ReadPair>
    requires |reads1| == |reads2|
  {
    if |reads1| == 0 then []
    else PairsOf(reads1[..|reads1| - 1], reads2[..|reads2| - 1]) + Zip(reads1[|reads1| - 1], reads2[|reads2| - 1])
  }

  /** Python's `s[a:b]` for non-negative bounds: each bound is cut to the
      length, and a slice past the end is short or empty instead of an error. */
  function PySlice(s: string, a: nat, b: nat): (r: string)
    ensures a <= b <= |s| ==> r == s[a..b]
    ensures a <= |s| <= b ==> r == s[a..]
    ensures b <= a || |s| <= a ==> r == ""
  {
    var lo := if a < |s| then a else |s|;
    var hi := if b < |s| then b else |s|;
    if lo <= hi then s[lo..hi] else ""
  }

  /** `seq1[C.start:C.stop]`: the barcode of a pair, read from read 1. */
  function BarcodeOf(p: ReadPair, sp: Span): (r: string)
    ensures sp.start <= sp.stop <= |p.first.sequence| ==> r == p.first.sequence[sp.start..sp.stop]
    ensures |r| <= |p.first.sequence| && (sp.start <= sp.stop ==> |r| <= sp.stop - sp.start)
  {
    PySlice(p.first.sequence, sp.start, sp.stop)
  }

  // ================================================================ routing

  /** An output file: a subsample's own, or one of its wells'. File `f` of
      read 1 is `fh_fq1[f.sub]["sample"]` or `fh_fq1[f.sub]["well"][f.well]`. */
  datatype FileKey = SampleFile(sub: string) | WellFile(sub: string, well: string)

  /** The files `run` opens: one per subsample, and with `--split_to_well` one
      per well of each subsample, named after the well. */
  predicate IsOutput(f: FileKey, wellDict: map<string, seq<nat>>, splitToWell: bool)
  {
    match f
    case SampleFile(j) => j in wellDict
    case WellFile(j, w) => splitToWell && j in wellDict && w in NamesOf(wellDict[j])
  }

  function OutputFiles(wellDict: map<string, seq<nat>>, splitToWell: bool): (r: set<FileKey>)
    ensures forall f :: f in r <==> IsOutput(f, wellDict, splitToWell)
  {
    (set j | j in wellDict :: SampleFile(j))
    + (set j, w | j in wellDict && w in NamesOf(wellDict[j]) && splitToWell :: WellFile(j, w))
  }

  /** Whether `map[sample[barcode]]` is well `w` of the subsample. */
  predicate SendsTo(idx: BcIndex, bc: string, w: string)
  {
    bc in idx.sample && idx.sample[bc] in idx.wellOf && idx.wellOf[idx.sample[bc]] == w
  }

  /** Whether `run` writes pair `p` to file `f`: to every subsample whose
      `sample` index holds the barcode, and to that subsample's well. */
  predicate Writes(allBc: map<string, BcIndex>, splitToWell: bool, sp: Span, p: ReadPair, f: FileKey)
  {
    match f
    case SampleFile(j) => j in allBc && BarcodeOf(p, sp) in allBc[j].sample
    case WellFile(j, w) => splitToWell && j in allBc && SendsTo(allBc[j], BarcodeOf(p, sp), w)
  }

  /** The pairs written to file `f`, in the order they are read. */
  function Routed(ps: seq<ReadPair>, allBc: map<string, BcIndex>, splitToWell: bool, sp: Span, f: FileKey): seq<ReadPair>
  {
    if |ps| == 0 then []
    else
      var last := ps[|ps| - 1];
      Routed(ps[..|ps| - 1], allBc, splitToWell, sp, f) + (if Writes(allBc, splitToWell, sp, last, f) then [last] else [])
  }

  function Firsts(ps: seq<ReadPair>): (r: seq<Record>)
    ensures |r| == |ps| && forall i :: 0 <= i < |ps| ==> r[i] == ps[i].first
  {
    seq(|ps|, i requires 0 <= i < |ps| => ps[i].first)
  }

  function Seconds(ps: seq<ReadPair>): (r: seq<Record>)
    ensures |r| == |ps| && forall i :: 0 <= i < |ps| ==> r[i] == ps[i].second
  {
    seq(|ps|, i requires 0 <= i < |ps| => ps[i].second)
  }

  /** The read-1 and read-2 text of a file after the pairs `ps`. */
  function TextR1(ps: seq<ReadPair>, allBc: map<string, BcIndex>, splitToWell: bool, sp: Span, f: FileKey): string
  {
    Render(Firsts(Routed(ps, allBc, splitToWell, sp, f)))
  }

  function TextR2(ps: seq<ReadPair>, allBc: map<string, BcIndex>, splitToWell: bool, sp: Span, f: FileKey): string
  {
    Render(Seconds(Routed(ps, allBc, splitToWell, sp, f)))
  }

  /** The subsample indexes `run` routes with: those `get_all_bc` builds from
      a stripped whitelist for wells within it. */
  predicate Indexed(allBc: map<string, BcIndex>, bcs: seq<string>, wellDict: map<string, seq<nat>>, splitToWell: bool)
  {
    Stripped(bcs) && AllInRange(bcs, wellDict) && allBc == AllBc(bcs, wellDict, splitToWell)
  }

  /** What routing needs of the indexes: one per subsample, and every
      barcode in a subsample's `sample` index leads through `map` to one of
      that subsample's wells. */
  predicate Routable(allBc: map<string, BcIndex>, wellDict: map<string, seq<nat>>)
  {
    && allBc.Keys == wellDict.Keys
    && forall j, t :: j in allBc && t in allBc[j].sample ==>
         allBc[j].sample[t] in allBc[j].wellOf && allBc[j].wellOf[allBc[j].sample[t]] in NamesOf(wellDict[j])
  }

  /** The indexes `get_all_bc` builds can be routed with: `run` never looks up
      a barcode `map` lacks or a well it has no file for. */
  lemma IndexedRoutable(allBc: map<string, BcIndex>, bcs: seq<string>, wellDict: map<string, seq<nat>>, splitToWell: bool)
    requires Indexed(allBc, bcs, wellDict, splitToWell)
    ensures Routable(allBc, wellDict)
  {
    forall j, t | j in allBc && t in allBc[j].sample
      ensures allBc[j].sample[t] in allBc[j].wellOf && allBc[j].wellOf[allBc[j].sample[t]] in NamesOf(wellDict[j])
    {
      assert allBc[j] == IndexOf(bcs, wellDict[j], splitToWell);
      var i := SampleRouting(bcs, wellDict[j], t);
      assert NamesOf(wellDict[j])[i] == WellName(wellDict[j][i]);
    }
  }

  lemma RoutedStep(ps: seq<ReadPair>, k: nat, allBc: map<string, BcIndex>, splitToWell: bool, sp: Span, f: FileKey)
    requires k < |ps|
    ensures Routed(ps[..k + 1], allBc, splitToWell, sp, f) ==
      Routed(ps[..k], allBc, splitToWell, sp, f) + (if Writes(allBc, splitToWell, sp, ps[k], f) then [ps[k]] else [])
  {
    assert ps[..k + 1][..k] == ps[..k];
  }

  lemma RenderFirsts(ps: seq<ReadPair>, p: ReadPair)
    ensures Render(Firsts(ps + [p])) == Render(Firsts(ps)) + FormatRecord(p.first)
    ensures Render(Seconds(ps + [p])) == Render(Seconds(ps)) + FormatRecord(p.second)
  {
    assert Firsts(ps + [p])[..|ps|] == Firsts(ps);
    assert Seconds(ps + [p])[..|ps|] == Seconds(ps);
  }

  /** One more pair adds its record to the files it is written to and nothing
      to the others. */
  lemma TextStep(ps: seq<ReadPair>, k: nat, allBc: map<string, BcIndex>, splitToWell: bool, sp: Span, f: FileKey)
    requires k < |ps|
    ensures TextR1(ps[..k + 1], allBc, splitToWell, sp, f) ==
      TextR1(ps[..k], allBc, splitToWell, sp, f) + (if Writes(allBc, splitToWell, sp, ps[k], f) then FormatRecord(ps[k].first) else "")
    ensures TextR2(ps[..k + 1], allBc, splitToWell, sp, f) ==
      TextR2(ps[..k], allBc, splitToWell, sp, f) + (if Writes(allBc, splitToWell, sp, ps[k], f) then FormatRecord(ps[k].second) else "")
  {
    var before := Routed(ps[..k], allBc, splitToWell, sp, f);
    RoutedStep(ps, k, allBc, splitToWell, sp, f);
    if Writes(allBc, splitToWell, sp, ps[k], f) {
      RenderFirsts(before, ps[k]);
    } else {
      assert before + [] == before;
    }
  }

  // String facts the routing proofs call where the solver needs them.

  lemma AppendAssociative(a: string, b: string, c: string)
    ensures (a + b) + c == a + (b + c)
  {
  }

  lemma AppendEmpty(a: string)
    ensures a + "" == a
  {
  }

  lemma EmptyAppend(a: string)
    ensures "" + a == a
  {
  }

  /** `now` is `before` with `text` appended to exactly those files of the
      subsamples in `done` that pair `p` is written to. */
  predicate AppendedFor(now: map<FileKey, string>, before: map<FileKey, string>, text: string,
                        allBc: map<string, BcIndex>, splitToWell: bool, sp: Span, p: ReadPair, done: set<string>)
  {
    && now.Keys == before.Keys
    && forall f :: f in now ==>
         if f.sub in done && Writes(allBc, splitToWell, sp, p, f) then now[f] == before[f] + text else now[f] == before[f]
  }

  /** Writing for the subsamples `d` and then for the subsamples `e` is
      writing for both. */
  lemma AppendedCompose(a: map<FileKey, string>, b: map<FileKey, string>, c: map<FileKey, string>, text: string,
                        allBc: map<string, BcIndex>, splitToWell: bool, sp: Span, p: ReadPair, d: set<string>, e: set<string>)
    requires d !! e
    requires AppendedFor(b, a, text, allBc, splitToWell, sp, p, d)
    requires AppendedFor(c, b, text, allBc, splitToWell, sp, p, e)
    ensures AppendedFor(c, a, text, allBc, splitToWell, sp, p, d + e)
  {
    forall f | f in c
      ensures if f.sub in d + e && Writes(allBc, splitToWell, sp, p, f) then c[f] == a[f] + text else c[f] == a[f]
    {
      if f.sub in d && Writes(allBc, splitToWell, sp, p, f) {
        assert f.sub !in e;
      }
    }
  }

  /** `now` is `before` with `text` appended to the files `fs` and no other. */
  predicate AppendedFiles(now: map<FileKey, string>, before: map<FileKey, string>, text: string, fs: set<FileKey>)
  {
    && now.Keys == before.Keys
    && forall f :: f in now ==> if f in fs then now[f] == before[f] + text else now[f] == before[f]
  }

  /** Appending to `fs` and then to `gs` is appending to both. */
  lemma AppendedFilesCompose(a: map<FileKey, string>, b: map<FileKey, string>, c: map<FileKey, string>, text: string,
                             fs: set<FileKey>, gs: set<FileKey>)
    requires fs !! gs
    requires AppendedFiles(b, a, text, fs) && AppendedFiles(c, b, text, gs)
    ensures AppendedFiles(c, a, text, fs + gs)
  {
  }

  /** The files one subsample's step of the loop writes a pair to. */
  function SubsampleTargets(allBc: map<string, BcIndex>, splitToWell: bool, bc: string, j: string): set<FileKey>
    requires j in allBc
    requires bc in allBc[j].sample ==> allBc[j].sample[bc] in allBc[j].wellOf
  {
    if bc !in allBc[j].sample then {}
    else if !splitToWell then {SampleFile(j)}
    else {SampleFile(j), WellFile(j, allBc[j].wellOf[allBc[j].sample[bc]])}
  }

  /** Those are exactly the files of subsample `j` that `Writes` selects. */
  lemma SubsampleTargetsWrites(allBc: map<string, BcIndex>, splitToWell: bool, sp: Span, p: ReadPair, j: string, f: FileKey)
    requires j in allBc
    requires BarcodeOf(p, sp) in allBc[j].sample ==> allBc[j].sample[BarcodeOf(p, sp)] in allBc[j].wellOf
    ensures f in SubsampleTargets(allBc, splitToWell, BarcodeOf(p, sp), j) <==> f.sub == j && Writes(allBc, splitToWell, sp, p, f)
  {
  }

  /** Appending to the files `Writes` selects among the subsamples `done`. */
  lemma AppendedFilesFor(now: map<FileKey, string>, before: map<FileKey, string>, text: string, fs: set<FileKey>,
                         allBc: map<string, BcIndex>, splitToWell: bool, sp: Span, p: ReadPair, done: set<string>)
    requires AppendedFiles(now, before, text, fs)
    requires forall f :: f in fs <==> f.sub in done && Writes(allBc, splitToWell, sp, p, f)
    ensures AppendedFor(now, before, text, allBc, splitToWell, sp, p, done)
  {
  }

  /** The open output files of `run`, `fh_fq1` and `fh_fq2`, as the text
      written to each so far. */
  class Outputs {
    var r1: map<FileKey, string>
    var r2: map<FileKey, string>

    /** Opening the output files: each starts empty. */
    constructor (wellDict: map<string, seq<nat>>, splitToWell: bool)
      ensures r1 == map f | f in OutputFiles(wellDict, splitToWell) :: ""
      ensures r2 == r1
    {
      r1 := map f | f in OutputFiles(wellDict, splitToWell) :: "";
      r2 := r1;
    }

    /** Writing one pair for subsample `j`: to its own files when its
        `sample` index holds the barcode, and then, with `--split_to_well`,
        to the files of the well `map` names. */
    method WriteSubsample(j: string, tempBc: string, p: ReadPair, sp: Span, ghost wellDict: map<string, seq<nat>>,
                          allBc: map<string, BcIndex>, splitToWell: bool)
      requires Routable(allBc, wellDict) && j in allBc && tempBc == BarcodeOf(p, sp)
      requires forall f :: f in r1 <==> IsOutput(f, wellDict, splitToWell)
      requires r2.Keys == r1.Keys
      modifies this
      ensures AppendedFor(r1, old(r1), FormatRecord(p.first), allBc, splitToWell, sp, p, {j})
      ensures AppendedFor(r2, old(r2), FormatRecord(p.second), allBc, splitToWell, sp, p, {j})
    {
      ghost var targets := SubsampleTargets(allBc, splitToWell, tempBc, j);
      if tempBc in allBc[j].sample {
        Append(SampleFile(j), p);
        if splitToWell {
          ghost var mid1, mid2 := r1, r2;
          var seqBc := allBc[j].sample[tempBc];
          var wellNum := allBc[j].wellOf[seqBc];
          assert IsOutput(WellFile(j, wellNum), wellDict, splitToWell);
          Append(WellFile(j, wellNum), p);
          AppendedFilesCompose(old(r1), mid1, r1, FormatRecord(p.first), {SampleFile(j)}, {WellFile(j, wellNum)});
          AppendedFilesCompose(old(r2), mid2, r2, FormatRecord(p.second), {SampleFile(j)}, {WellFile(j, wellNum)});
        }
      }
      assert AppendedFiles(r1, old(r1), FormatRecord(p.first), targets);
      assert AppendedFiles(r2, old(r2), FormatRecord(p.second), targets);
      forall f ensures f in targets <==> f.sub in {j} && Writes(allBc, splitToWell, sp, p, f) {
        SubsampleTargetsWrites(allBc, splitToWell, sp, p, j, f);
      }
      AppendedFilesFor(r1, old(r1), FormatRecord(p.first), targets, allBc, splitToWell, sp, p, {j});
      AppendedFilesFor(r2, old(r2), FormatRecord(p.second), targets, allBc, splitToWell, sp, p, {j});
    }

    /** `write` on the two handles of file `f`. */
    method Append(f: FileKey, p: ReadPair)
      requires f in r1 && f in r2
      modifies this
      ensures AppendedFiles(r1, old(r1), FormatRecord(p.first), {f})
      ensures AppendedFiles(r2, old(r2), FormatRecord(p.second), {f})
    {
      r1 := r1[f := r1[f] + FormatRecord(p.first)];
      r2 := r2[f := r2[f] + FormatRecord(p.second)];
    }

    /** The body of the loop over pairs: the pair goes to every subsample
        whose `sample` index holds its barcode, there is no `break`, and with
        `--split_to_well` also to the file of the well `map` names. */
    method RoutePair(p: ReadPair, sp: Span, ghost wellDict: map<string, seq<nat>>,
                     allBc: map<string, BcIndex>, splitToWell: bool)
      requires Routable(allBc, wellDict)
      requires forall f :: f in r1 <==> IsOutput(f, wellDict, splitToWell)
      requires r2.Keys == r1.Keys
      modifies this
      ensures r1.Keys == old(r1.Keys) && r2.Keys == old(r2.Keys)
      ensures forall f :: f in r1 ==>
        if Writes(allBc, splitToWell, sp, p, f) then r1[f] == old(r1[f]) + FormatRecord(p.first) else r1[f] == old(r1[f])
      ensures forall f :: f in r2 ==>
        if Writes(allBc, splitToWell, sp, p, f) then r2[f] == old(r2[f]) + FormatRecord(p.second) else r2[f] == old(r2[f])
    {
      var tempBc := PySlice(p.first.sequence, sp.start, sp.stop);
      var rest := allBc.Keys;
      while rest != {}
        invariant rest <= allBc.Keys
        invariant r1.Keys == old(r1.Keys) && r2.Keys == old(r2.Keys)
        invariant AppendedFor(r1, old(r1), FormatRecord(p.first), allBc, splitToWell, sp, p, allBc.Keys - rest)
        invariant AppendedFor(r2, old(r2), FormatRecord(p.second), allBc, splitToWell, sp, p, allBc.Keys - rest)
        decreases rest
      {
        var j :| j in rest;
        ghost var mid1, mid2 := r1, r2;
        WriteSubsample(j, tempBc, p, sp, wellDict, allBc, splitToWell);
        AppendedCompose(old(r1), mid1, r1, FormatRecord(p.first), allBc, splitToWell, sp, p, allBc.Keys - rest, {j});
        AppendedCompose(old(r2), mid2, r2, FormatRecord(p.second), allBc, splitToWell, sp, p, allBc.Keys - rest, {j});
        assert allBc.Keys - rest + {j} == allBc.Keys - (rest - {j});
        rest := rest - {j};
      }
      forall f | f in r1 && Writes(allBc, splitToWell, sp, p, f)
        ensures f.sub in allBc.Keys - rest
      {
      }
    }

    /** The loop over the pairs of one pair of input files. */
    method Route(ps: seq<ReadPair>, sp: Span, ghost wellDict: map<string, seq<nat>>,
                 allBc: map<string, BcIndex>, splitToWell: bool)
      requires Routable(allBc, wellDict)
      requires forall f :: f in r1 <==> IsOutput(f, wellDict, splitToWell)
      requires r2.Keys == r1.Keys
      modifies this
      ensures r1.Keys == old(r1.Keys) && r2.Keys == old(r2.Keys)
      ensures forall f :: f in r1 ==> r1[f] == old(r1[f]) + TextR1(ps, allBc, splitToWell, sp, f)
      ensures forall f :: f in r2 ==> r2[f] == old(r2[f]) + TextR2(ps, allBc, splitToWell, sp, f)
    {
      for k := 0 to |ps|
        invariant r1.Keys == old(r1.Keys) && r2.Keys == old(r2.Keys)
        invariant forall f :: f in r1 ==> r1[f] == old(r1[f]) + TextR1(ps[..k], allBc, splitToWell, sp, f)
        invariant forall f :: f in r2 ==> r2[f] == old(r2[f]) + TextR2(ps[..k], allBc, splitToWell, sp, f)
      {
        RoutePair(ps[k], sp, wellDict, allBc, splitToWell);
        forall f | f in r1
          ensures r1[f] == old(r1[f]) + TextR1(ps[..k + 1], allBc, splitToWell, sp, f)
          ensures r2[f] == old(r2[f]) + TextR2(ps[..k + 1], allBc, splitToWell, sp, f)
        {
          TextStep(ps, k, allBc, splitToWell, sp, f);
          if Writes(allBc, splitToWell, sp, ps[k], f) {
            AppendAssociative(old(r1[f]), TextR1(ps[..k], allBc, splitToWell, sp, f), FormatRecord(ps[k].first));
            AppendAssociative(old(r2[f]), TextR2(ps[..k], allBc, splitToWell, sp, f), FormatRecord(ps[k].second));
          } else {
            AppendEmpty(TextR1(ps[..k], allBc, splitToWell, sp, f));
            AppendEmpty(TextR2(ps[..k], allBc, splitToWell, sp, f));
          }
        }
      }
      assert ps[..|ps|] == ps;
    }

    /** The loop over the input files: each pair of files is zipped and its
        pairs routed. */
    method RouteFiles(reads1: seq<seq<Record>>, reads2: seq<seq<Record>>, sp: Span, ghost wellDict: map<string, seq<nat>>,
                      allBc: map<string, BcIndex>, splitToWell: bool)
      requires |reads1| == |reads2|
      requires Routable(allBc, wellDict)
      requires forall f :: f in r1 <==> IsOutput(f, wellDict, splitToWell)
      requires r2.Keys == r1.Keys
      modifies this
      ensures r1.Keys == old(r1.Keys) && r2.Keys == old(r2.Keys)
      ensures forall f :: f in r1 ==> r1[f] == old(r1[f]) + TextR1(PairsOf(reads1, reads2), allBc, splitToWell, sp, f)
      ensures forall f :: f in r2 ==> r2[f] == old(r2[f]) + TextR2(PairsOf(reads1, reads2), allBc, splitToWell, sp, f)
    {
      for i := 0 to |reads1|
        invariant r1.Keys == old(r1.Keys) && r2.Keys == old(r2.Keys)
        invariant forall f :: f in r1 ==> r1[f] == old(r1[f]) + TextR1(PairsOf(reads1[..i], reads2[..i]), allBc, splitToWell, sp, f)
        invariant forall f :: f in r2 ==> r2[f] == old(r2[f]) + TextR2(PairsOf(reads1[..i], reads2[..i]), allBc, splitToWell, sp, f)
      {
        var ps := Zip(reads1[i], reads2[i]);
        ghost var done := PairsOf(reads1[..i], reads2[..i]);
        Route(ps, sp, wellDict, allBc, splitToWell);
        PairsOfStep(reads1, reads2, i);
        forall f | f in r1
          ensures r1[f] == old(r1[f]) + TextR1(PairsOf(reads1[..i + 1], reads2[..i + 1]), allBc, splitToWell, sp, f)
          ensures r2[f] == old(r2[f]) + TextR2(PairsOf(reads1[..i + 1], reads2[..i + 1]), allBc, splitToWell, sp, f)
        {
          TextAppend(done, ps, allBc, splitToWell, sp, f);
          AppendAssociative(old(r1[f]), TextR1(done, allBc, splitToWell, sp, f), TextR1(ps, allBc, splitToWell, sp, f));
          AppendAssociative(old(r2[f]), TextR2(done, allBc, splitToWell, sp, f), TextR2(ps, allBc, splitToWell, sp, f));
        }
      }
      assert reads1[..|reads1|] == reads1 && reads2[..|reads2|] == reads2;
    }
  }

  // ================================================================ what routing promises

  /** A pair is in a file's list exactly when it was read and is written there. */
  lemma {:induction false} RoutedMember(ps: seq<ReadPair>, allBc: map<string, BcIndex>, splitToWell: bool, sp: Span, f: FileKey, p: ReadPair)
    ensures p in Routed(ps, allBc, splitToWell, sp, f) <==> p in ps && Writes(allBc, splitToWell, sp, p, f)
  {
    if |ps| > 0 {
      var init := ps[..|ps| - 1];
      RoutedMember(init, allBc, splitToWell, sp, f, p);
      assert ps == init + [ps[|ps| - 1]];
    }
  }

  /** Reading the pairs of one stream after another's routes each stream's
      pairs in turn. */
  lemma {:induction false} RoutedAppend(xs: seq<ReadPair>, ys: seq<ReadPair>, allBc: map<string, BcIndex>, splitToWell: bool, sp: Span, f: FileKey)
    ensures Routed(xs + ys, allBc, splitToWell, sp, f) == Routed(xs, allBc, splitToWell, sp, f) + Routed(ys, allBc, splitToWell, sp, f)
  {
    if |ys| == 0 {
      assert xs + ys == xs;
    } else {
      var init := ys[..|ys| - 1];
      RoutedAppend(xs, init, allBc, splitToWell, sp, f);
      assert (xs + ys)[..|xs + ys| - 1] == xs + init;
      assert (xs + ys)[|xs + ys| - 1] == ys[|ys| - 1];
    }
  }

  lemma {:induction false} RenderAppend(xs: seq<Record>, ys: seq<Record>)
    ensures Render(xs + ys) == Render(xs) + Render(ys)
  {
    if |ys| == 0 {
      assert xs + ys == xs;
    } else {
      var init := ys[..|ys| - 1];
      var last := FormatRecord(ys[|ys| - 1]);
      RenderAppend(xs, init);
      assert (xs + ys)[..|xs + ys| - 1] == xs + init;
      assert (xs + ys)[|xs + ys| - 1] == ys[|ys| - 1];
      assert Render(xs + ys) == Render(xs) + Render(init) + last;
      AppendAssociative(Render(xs), Render(init), last);
    }
  }

  /** The text a file gets from two streams is the text of the first followed
      by that of the second. */
  lemma TextAppend(xs: seq<ReadPair>, ys: seq<ReadPair>, allBc: map<string, BcIndex>, splitToWell: bool, sp: Span, f: FileKey)
    ensures TextR1(xs + ys, allBc, splitToWell, sp, f) == TextR1(xs, allBc, splitToWell, sp, f) + TextR1(ys, allBc, splitToWell, sp, f)
    ensures TextR2(xs + ys, allBc, splitToWell, sp, f) == TextR2(xs, allBc, splitToWell, sp, f) + TextR2(ys, allBc, splitToWell, sp, f)
  {
    var a := Routed(xs, allBc, splitToWell, sp, f);
    var b := Routed(ys, allBc, splitToWell, sp, f);
    RoutedAppend(xs, ys, allBc, splitToWell, sp, f);
    assert Firsts(a + b) == Firsts(a) + Firsts(b);
    assert Seconds(a + b) == Seconds(a) + Seconds(b);
    RenderAppend(Firsts(a), Firsts(b));
    RenderAppend(Seconds(a), Seconds(b));
  }

  /** A pair goes to subsample `j` exactly when its barcode is at most one
      mismatch from the whitelist barcode of one of `j`'s wells: every such
      subsample gets it, not only the first. */
  lemma WritesSubsample(allBc: map<string, BcIndex>, bcs: seq<string>, wellDict: map<string, seq<nat>>,
                        splitToWell: bool, sp: Span, p: ReadPair, j: string)
    requires Indexed(allBc, bcs, wellDict, splitToWell)
    ensures Writes(allBc, splitToWell, sp, p, SampleFile(j)) <==>
      j in wellDict && exists i :: 0 <= i < |wellDict[j]| && Owns(WellBarcode(bcs, wellDict[j][i]), BarcodeOf(p, sp), 1)
  {
    if j in wellDict {
      assert allBc[j] == IndexOf(bcs, wellDict[j], splitToWell);
      SampleKeys(bcs, wellDict[j], BarcodeOf(p, sp));
    }
  }

  /** With `--split_to_well`, a pair written to a subsample is also written to
      one of its well files, an open one, for a well whose barcode is at most
      one mismatch from the pair's. */
  lemma WritesOneWell(allBc: map<string, BcIndex>, bcs: seq<string>, wellDict: map<string, seq<nat>>,
                      sp: Span, p: ReadPair, j: string) returns (i: nat)
    requires Indexed(allBc, bcs, wellDict, true)
    requires Writes(allBc, true, sp, p, SampleFile(j))
    ensures j in wellDict && i < |wellDict[j]|
    ensures Owns(WellBarcode(bcs, wellDict[j][i]), BarcodeOf(p, sp), 1)
    ensures Writes(allBc, true, sp, p, WellFile(j, WellName(wellDict[j][i])))
    ensures IsOutput(WellFile(j, WellName(wellDict[j][i])), wellDict, true)
  {
    var ws := wellDict[j];
    assert allBc[j] == IndexOf(bcs, ws, true);
    i := SampleRouting(bcs, ws, BarcodeOf(p, sp));
    assert NamesOf(ws)[i] == WellName(ws[i]);
  }

  /** A pair goes to at most one well file of a subsample. */
  lemma WellFileUnique(allBc: map<string, BcIndex>, splitToWell: bool, sp: Span, p: ReadPair, j: string, v: string, w: string)
    requires Writes(allBc, splitToWell, sp, p, WellFile(j, v)) && Writes(allBc, splitToWell, sp, p, WellFile(j, w))
    ensures v == w
  {
  }

  /** A pair is written to a well file only with `--split_to_well` and only
      along with its subsample's file. */
  lemma WellFileNeedsSubsample(allBc: map<string, BcIndex>, splitToWell: bool, sp: Span, p: ReadPair, j: string, w: string)
    requires Writes(allBc, splitToWell, sp, p, WellFile(j, w))
    ensures splitToWell && Writes(allBc, splitToWell, sp, p, SampleFile(j))
  {
  }

  /** A pair whose barcode no subsample's index holds is written nowhere. */
  lemma UnmatchedNowhere(ps: seq<ReadPair>, allBc: map<string, BcIndex>, splitToWell: bool, sp: Span, p: ReadPair, f: FileKey)
    requires forall j :: j in allBc ==> BarcodeOf(p, sp) !in allBc[j].sample
    ensures Routed(ps + [p], allBc, splitToWell, sp, f) == Routed(ps, allBc, splitToWell, sp, f)
  {
    assert (ps + [p])[..|ps|] == ps;
    assert Routed(ps, allBc, splitToWell, sp, f) + [] == Routed(ps, allBc, splitToWell, sp, f);
  }

  // ================================================================ run

  /** What `run` stops with: a constructor check, `splitInf_to_dict`, or a
      well that is not a line of the whitelist. */
  datatype RunError = ConfigFailed(config: ConfigError) | SplitFailed(split: SplitError) | WellOutOfRange

  /** The wells of each row, in order. */
  function WellLists(d: seq<Assignment>): (r: seq<seq<nat>>)
    ensures |r| == |d| && forall i :: 0 <= i < |d| ==> r[i] == d[i].wells
  {
    seq(|d|, i requires 0 <= i < |d| => d[i].wells)
  }

  /** `split_dict`: each subsample's wells, a later row of the same subsample
      replacing an earlier one. */
  function WellDictOf(d: seq<Assignment>): map<string, seq<nat>>
  {
    Assign(Names(d), WellLists(d))
  }

  /** Every well of the split numbers a line of a whitelist of `n` lines. */
  predicate WellsWithin(d: seq<Assignment>, n: nat)
  {
    forall i :: 0 <= i < |Flatten(d)| ==> 1 <= Flatten(d)[i] <= n
  }

  /** The split wells are the wells of the dictionary: checking the flat list
      of all wells checks every subsample's list. */
  lemma WellsWithinInRange(d: seq<Assignment>, bcs: seq<string>)
    requires WellsWithin(d, |bcs|)
    ensures AllInRange(bcs, WellDictOf(d))
  {
    forall j | j in WellDictOf(d)
      ensures InRange(bcs, WellDictOf(d)[j])
    {
      var k := AssignValue(Names(d), WellLists(d), j);
      forall x | 0 <= x < |d[k].wells| ensures 1 <= d[k].wells[x] <= |bcs| {
        FlattenMember(d, k, d[k].wells[x]);
      }
    }
  }

  /** What `run` works from once every check has passed. */
  datatype Plan = Plan(config: Config, wellDict: map<string, seq<nat>>, bcs: seq<string>)

  /** The constructor's checks, then `splitInf_to_dict`, then the whitelist
      read with `read_one_col` and every well checked against it. */
  function PlanOf(args: Args, protocols: map<string, Protocol>, table: Table, whitelistLines: seq<string>): (r: Result<Plan, RunError>)
    requires Rectangular(table)
    ensures r.Ok? ==> Configure(args, protocols) == Ok(r.value.config) && SplitInf(table, args.sample).Ok?
    ensures r.Ok? ==> Stripped(r.value.bcs) && AllInRange(r.value.bcs, r.value.wellDict)
  {
    match Configure(args, protocols)
    case Err(e) => Err(ConfigFailed(e))
    case Ok(cfg) =>
      match SplitInf(table, args.sample)
      case Err(e) => Err(SplitFailed(e))
      case Ok(d) =>
        var bcs := ReadOneCol(whitelistLines);
        if !WellsWithin(d, |bcs|) then Err(WellOutOfRange)
        else
          ReadOneColStripped(whitelistLines);
          WellsWithinInRange(d, bcs);
          Ok(Plan(cfg, WellDictOf(d), bcs))
  }

  /** Well 0, which a split such as "0-3" lets through, is rejected rather
      than read as the whitelist's last line. */
  lemma WellZeroRejected(args: Args, protocols: map<string, Protocol>, table: Table, whitelistLines: seq<string>)
    requires Rectangular(table) && Configure(args, protocols).Ok? && SplitInf(table, args.sample).Ok?
    requires 0 in Flatten(SplitInf(table, args.sample).value)
    ensures PlanOf(args, protocols, table, whitelistLines) == Err(WellOutOfRange)
  {
  }

  /** The read files of both lists, by position. */
  predicate HasInputs(files: map<string, seq<Record>>, paths: seq<string>)
  {
    forall i :: 0 <= i < |paths| ==> paths[i] in files
  }

  function Streams(files: map<string, seq<Record>>, paths: seq<string>): (r: seq<seq<Record>>)
    requires HasInputs(files, paths)
    ensures |r| == |paths| && forall i :: 0 <= i < |paths| ==> r[i] == files[paths[i]]
  {
    seq(|paths|, i requires 0 <= i < |paths| && paths[i] in files => files[paths[i]])
  }

  /** Every pair `run` reads: file after file, each file pair zipped. */
  function AllPairs(cfg: Config, files: map<string, seq<Record>>): seq<ReadPair>
    requires |cfg.fq1s| == |cfg.fq2s| && HasInputs(files, cfg.fq1s) && HasInputs(files, cfg.fq2s)
  {
    PairsOf(Streams(files, cfg.fq1s), Streams(files, cfg.fq2s))
  }

  /** One more file pair. */
  lemma PairsOfStep(reads1: seq<seq<Record>>, reads2: seq<seq<Record>>, i: nat)
    requires |reads1| == |reads2| && i < |reads1|
    ensures PairsOf(reads1[..i + 1], reads2[..i + 1]) == PairsOf(reads1[..i], reads2[..i]) + Zip(reads1[i], reads2[i])
  {
    assert reads1[..i + 1][..i] == reads1[..i];
    assert reads2[..i + 1][..i] == reads2[..i];
  }

  /** `run` once a plan is settled: build the barcode index, open every
      output file empty, then route every pair of every file pair. Each
      output file ends up holding exactly the records of the pairs routed to
      it, in the order read. */
  method RunPlan(plan: Plan, splitToWell: bool, files: map<string, seq<Record>>) returns (out: Outputs)
    requires Stripped(plan.bcs) && AllInRange(plan.bcs, plan.wellDict)
    requires |plan.config.fq1s| == |plan.config.fq2s|
    requires HasInputs(files, plan.config.fq1s) && HasInputs(files, plan.config.fq2s)
    ensures
      var allBc := AllBc(plan.bcs, plan.wellDict, splitToWell);
      var pairs := AllPairs(plan.config, files);
      && fresh(out)
      && out.r1.Keys == OutputFiles(plan.wellDict, splitToWell)
      && out.r2.Keys == out.r1.Keys
      && (forall f :: f in out.r1 ==> out.r1[f] == TextR1(pairs, allBc, splitToWell, plan.config.barcode, f))
      && (forall f :: f in out.r2 ==> out.r2[f] == TextR2(pairs, allBc, splitToWell, plan.config.barcode, f))
  {
    var allBc := GetAllBc(plan.bcs, plan.wellDict, splitToWell);
    IndexedRoutable(allBc, plan.bcs, plan.wellDict, splitToWell);
    out := new Outputs(plan.wellDict, splitToWell);
    var reads1 := Streams(files, plan.config.fq1s);
    var reads2 := Streams(files, plan.config.fq2s);
    out.RouteFiles(reads1, reads2, plan.config.barcode, plan.wellDict, allBc, splitToWell);
    ghost var pairs := PairsOf(reads1, reads2);
    forall f | f in out.r1
      ensures out.r1[f] == TextR1(pairs, allBc, splitToWell, plan.config.barcode, f)
      ensures out.r2[f] == TextR2(pairs, allBc, splitToWell, plan.config.barcode, f)
    {
      EmptyAppend(TextR1(pairs, allBc, splitToWell, plan.config.barcode, f));
      EmptyAppend(TextR2(pairs, allBc, splitToWell, plan.config.barcode, f));
    }
  }

  /** `Split_Fastq(args).run()`, with the split table, the whitelist's lines
      and the read files given as values: it fails exactly where `PlanOf`
      does, with the same error, and otherwise yields the outputs of
      `RunPlan` on that plan. */
  method SplitFastq(args: Args, protocols: map<string, Protocol>, table: Table, whitelistLines: seq<string>,
                    files: map<string, seq<Record>>) returns (r: Result<Outputs, RunError>)
    requires Rectangular(table)
    requires HasInputs(files, Split(args.fq1, ',')) && HasInputs(files, Split(args.fq2, ','))
    ensures r.Err? <==> PlanOf(args, protocols, table, whitelistLines).Err?
    ensures r.Err? ==> r.error == PlanOf(args, protocols, table, whitelistLines).error
    ensures r.Ok? ==>
      var plan := PlanOf(args, protocols, table, whitelistLines).value;
      var allBc := AllBc(plan.bcs, plan.wellDict, args.splitToWell);
      var pairs := AllPairs(plan.config, files);
      && fresh(r.value)
      && r.value.r1.Keys == OutputFiles(plan.wellDict, args.splitToWell)
      && r.value.r2.Keys == r.value.r1.Keys
      && (forall f :: f in r.value.r1 ==> r.value.r1[f] == TextR1(pairs, allBc, args.splitToWell, plan.config.barcode, f))
      && (forall f :: f in r.value.r2 ==> r.value.r2[f] == TextR2(pairs, allBc, args.splitToWell, plan.config.barcode, f))
  {
    var init := SplitFastqInit(args, protocols);
    if init.Err? {
      return Err(ConfigFailed(init.error));
    }
    var cfg := init.value;
    var split := SplitInfToDict(table, args.sample);
    if split.Err? {
      return Err(SplitFailed(split.error));
    }
    var d := split.value;
    var bcs := ReadOneCol(whitelistLines);
    if !WellsWithin(d, |bcs|) {
      return Err(WellOutOfRange);
    }
    var plan := Plan(cfg, WellDictOf(d), bcs);
    assert PlanOf(args, protocols, table, whitelistLines) == Ok(plan);
    var out := RunPlan(plan, args.splitToWell, files);
    return Ok(out);
  }
}
