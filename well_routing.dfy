/** The well/subsample router of bin/split_fastq.py: `splitInf_to_dict` reads the
    assignment table (raw sample, well specification, subsample) and expands each
    subsample's well specification into well numbers. */
module WellRouting {
  import opened Results
  import opened Text
  import opened MismatchIndex

  /** The reasons `splitInf_to_dict` stops: its `sys.exit` calls, and the
      `KeyError` and `ValueError` it lets escape. */
  datatype SplitError =
    | WrongHeader
    | MissingColumn(column: string)
    | UnknownSample(sample: string)
    | DuplicateSubsample
    | TooManyDashes(token: string)
    | InvalidNumber(text: string)
    | DuplicateWell

  predicate NoDup<T(==)>(xs: seq<T>)
  {
    forall i, j :: 0 <= i < j < |xs| ==> xs[i] != xs[j]
  }

  function ValueSet<T(!new)>(xs: seq<T>): (r: set<T>)
    ensures forall x :: x in r <==> x in xs
  {
    set i | 0 <= i < |xs| :: xs[i]
  }

  lemma {:induction false} ValueSetSize<T(!new)>(xs: seq<T>)
    ensures |ValueSet(xs)| <= |xs|
    ensures |ValueSet(xs)| == |xs| <==> NoDup(xs)
  {
    if |xs| > 0 {
      var ys := xs[..|xs| - 1];
      var x := xs[|xs| - 1];
      ValueSetSize(ys);
      assert xs == ys + [x];
      assert ValueSet(xs) == ValueSet(ys) + {x};
      if x in ys {
        assert ValueSet(xs) == ValueSet(ys);
        var i :| 0 <= i < |ys| && ys[i] == x;
        assert xs[i] == xs[|xs| - 1];
      } else {
        assert NoDup(xs) <==> NoDup(ys);
      }
    }
  }

  /** A list has no repeated element exactly when every element occurs at most
      once in its multiset, which is what `collections.Counter` counts. */
  lemma {:induction false} NoDupCounts<T>(xs: seq<T>)
    ensures NoDup(xs) <==> forall x :: multiset(xs)[x] <= 1
  {
    if |xs| > 0 {
      var ys := xs[..|xs| - 1];
      var x := xs[|xs| - 1];
      NoDupCounts(ys);
      assert xs == ys + [x];
      assert multiset(xs) == multiset(ys) + multiset{x};
      if x in ys {
        var i :| 0 <= i < |ys| && ys[i] == x;
        assert xs[i] == xs[|xs| - 1];
        assert multiset(xs)[x] >= 2;
      } else {
        assert multiset(ys)[x] == 0;
        assert NoDup(xs) <==> NoDup(ys);
        if forall y :: multiset(xs)[y] <= 1 {
          forall y ensures multiset(ys)[y] <= 1 {
            assert multiset(ys)[y] <= multiset(xs)[y];
          }
        }
        if NoDup(xs) {
          forall y ensures multiset(xs)[y] <= 1 {
            if y != x {
              assert multiset(xs)[y] == multiset(ys)[y];
            }
          }
        }
      }
    }
  }

  // ---------------------------------------------------------------- well specifications

  /** `range(a, b + 1)`: the wells `a, a + 1, ..., b`, none when `a > b`. */
  function WellRange(a: nat, b: nat): (r: seq<nat>)
    ensures |r| == if a <= b then b - a + 1 else 0
    ensures forall i :: 0 <= i < |r| ==> r[i] == a + i
    decreases b + 1 - a
  {
    if a > b then [] else [a] + WellRange(a + 1, b)
  }

  /** The wells one comma-separated token of the `well` column stands for: a
      token with a dash is a range `a-b`, fatal when it has more than one dash;
      any other token is one number. `int()` failing on a piece is the
      `ValueError` that escapes. This is the specification of one token;
      `ExpandWellToken` is the loop body that computes it. */
  function ExpandToken(tok: string): Result<seq<nat>, SplitError>
  {
    if '-' in tok then
      var temp := Split(tok, '-');
      if |temp| > 2 then Err(TooManyDashes(tok))
      else
        SplitCount(tok, '-');
        match ParseInt(temp[0])
        case None => Err(InvalidNumber(temp[0]))
        case Some(a) =>
          match ParseInt(temp[1])
          case None => Err(InvalidNumber(temp[1]))
          case Some(b) => Ok(WellRange(a, b))
    else
      match ParseInt(tok)
      case None => Err(InvalidNumber(tok))
      case Some(n) => Ok([n])
  }

  /** Token results taken in order and their wells concatenated; the first
      failing token decides the error. */
  function Collect(rs: seq<Result<seq<nat>, SplitError>>): Result<seq<nat>, SplitError>
  {
    if |rs| == 0 then Ok([])
    else
      match Collect(rs[..|rs| - 1])
      case Err(e) => Err(e)
      case Ok(xs) =>
        match rs[|rs| - 1]
        case Err(e) => Err(e)
        case Ok(ys) => Ok(xs + ys)
  }

  /** The expansion of each token, in order. */
  function TokenResults(toks: seq<string>): (rs: seq<Result<seq<nat>, SplitError>>)
    ensures |rs| == |toks|
    ensures forall i :: 0 <= i < |toks| ==> rs[i] == ExpandToken(toks[i])
  {
    seq(|toks|, i requires 0 <= i < |toks| => ExpandToken(toks[i]))
  }

  /** `splitInf_to_dict`'s wells for one `well` cell such as `1-9,10,11`: the
      comma-separated tokens expanded in order. This is the specification;
      `ExpandWells` is the loop that computes it. */
  function ExpandSpec(spec: string): Result<seq<nat>, SplitError>
  {
    Collect(TokenResults(Split(spec, ',')))
  }

  /** Once a prefix of the results fails, the whole list fails the same way. */
  lemma {:induction false} CollectErr(rs: seq<Result<seq<nat>, SplitError>>, k: nat)
    requires k <= |rs| && Collect(rs[..k]).Err?
    ensures Collect(rs) == Collect(rs[..k])
    decreases |rs| - k
  {
    if k < |rs| {
      assert rs[..|rs| - 1][..k] == rs[..k];
      CollectErr(rs[..|rs| - 1], k);
    } else {
      assert rs[..k] == rs;
    }
  }

  /** Collecting one more result: its error, or its wells after the others. */
  lemma CollectSnoc(rs: seq<Result<seq<nat>, SplitError>>, k: nat)
    requires k < |rs| && Collect(rs[..k]).Ok?
    ensures Collect(rs[..k + 1]) == if rs[k].Err? then Err(rs[k].error) else Ok(Collect(rs[..k]).value + rs[k].value)
  {
    assert rs[..k + 1][..k] == rs[..k];
  }

  /** Collecting a concatenation concatenates the wells of its two parts. */
  lemma {:induction false} CollectAppend(rs: seq<Result<seq<nat>, SplitError>>, ss: seq<Result<seq<nat>, SplitError>>)
    requires Collect(rs).Ok? && Collect(ss).Ok?
    ensures Collect(rs + ss) == Ok(Collect(rs).value + Collect(ss).value)
  {
    if |ss| == 0 {
      assert rs + ss == rs;
      assert Collect(rs).value + Collect(ss).value == Collect(rs).value;
    } else {
      var ss' := ss[..|ss| - 1];
      assert (rs + ss)[..|rs + ss| - 1] == rs + ss';
      assert (rs + ss)[|rs + ss| - 1] == ss[|ss| - 1];
      assert Collect(ss) == Ok(Collect(ss').value + ss[|ss| - 1].value);
      CollectAppend(rs, ss');
      assert Collect(rs + ss) == Ok(Collect(rs + ss').value + ss[|ss| - 1].value);
      assert Collect(rs).value + Collect(ss').value + ss[|ss| - 1].value
          == Collect(rs).value + (Collect(ss').value + ss[|ss| - 1].value);
    }
  }

  /** The range loop of `splitInf_to_dict`: `a, a + 1, ..., b` appended one
      at a time. */
  method AppendRange(a: nat, b: nat) returns (wellList: seq<nat>)
    ensures wellList == WellRange(a, b)
  {
    wellList := [];
    if a <= b {
      for x := a to b + 1
        invariant wellList == WellRange(a, b)[..x - a]
      {
        wellList := wellList + [x];
      }
      assert WellRange(a, b)[..b + 1 - a] == WellRange(a, b);
    }
  }

  /** The body of the token loop of `splitInf_to_dict`: a range token appends
      its wells one at a time, a single number appends itself. It computes the
      specification `ExpandToken`. */
  method ExpandWellToken(i: string) returns (r: Result<seq<nat>, SplitError>)
    ensures r == ExpandToken(i)
  {
    if '-' in i {
      var temp := Split(i, '-');
      if |temp| > 2 {
        return Err(TooManyDashes(i));
      }
      SplitCount(i, '-');
      var a := ParseInt(temp[0]);
      if a.None? {
        return Err(InvalidNumber(temp[0]));
      }
      var b := ParseInt(temp[1]);
      if b.None? {
        return Err(InvalidNumber(temp[1]));
      }
      var wellList := AppendRange(a.value, b.value);
      return Ok(wellList);
    } else {
      var n := ParseInt(i);
      if n.None? {
        return Err(InvalidNumber(i));
      }
      return Ok([n.value]);
    }
  }

  /** The token loop of `splitInf_to_dict` for one `well` cell: split at commas,
      then append each token's wells to `well_list` in order. */
  method ExpandWells(spec: string) returns (r: Result<seq<nat>, SplitError>)
    ensures r == ExpandSpec(spec)
  {
    var wells := Split(spec, ',');
    ghost var rs := TokenResults(wells);
    assert ExpandSpec(spec) == Collect(rs);
    var wellList: seq<nat> := [];
    for k := 0 to |wells|
      invariant Collect(rs[..k]) == Ok(wellList)
    {
      var t := ExpandWellToken(wells[k]);
      CollectSnoc(rs, k);
      if t.Err? {
        CollectErr(rs, k + 1);
        return Err(t.error);
      }
      wellList := wellList + t.value;
    }
    assert rs[..|wells|] == rs;
    return Ok(wellList);
  }

  // ---------------------------------------------------------------- tokens and numerals

  /** A numeral holds no dash. */
  lemma NoDashInDecimal(n: nat)
    ensures '-' !in Decimal(n)
  {
  }

  /** A single numeral token stands for its own well. */
  lemma ExpandNumeral(n: nat)
    ensures ExpandToken(Decimal(n)) == Ok([n])
  {
    NoDashInDecimal(n);
    ParseIntDecimal(n);
  }

  /** A token with one dash at `i` and numbers on both sides stands for the
      range between them. */
  lemma ExpandRangeAt(tok: string, i: nat, a: nat, b: nat)
    requires i < |tok| && tok[i] == '-'
    requires '-' !in tok[..i] && '-' !in tok[i + 1..]
    requires ParseInt(tok[..i]) == Some(a) && ParseInt(tok[i + 1..]) == Some(b)
    ensures ExpandToken(tok) == Ok(WellRange(a, b))
  {
    SplitAt(tok, i, '-');
    SplitNoSeparator(tok[i + 1..], '-');
  }

  /** The token `a-b`, numerals on both sides, stands for the wells `a..b`. */
  lemma ExpandRangeToken(a: nat, b: nat)
    ensures ExpandToken(Decimal(a) + "-" + Decimal(b)) == Ok(WellRange(a, b))
  {
    var da, db := Decimal(a), Decimal(b);
    var tok := da + "-" + db;
    assert tok[..|da|] == da && tok[|da| + 1..] == db;
    NoDashInDecimal(a);
    NoDashInDecimal(b);
    ParseIntDecimal(a);
    ParseIntDecimal(b);
    ExpandRangeAt(tok, |da|, a, b);
  }

  /** A token made of digits stands for the well it denotes. */
  lemma ExpandDigitToken(tok: string)
    requires |tok| > 0 && AllDigits(tok)
    ensures ExpandToken(tok) == Ok([DigitsValue(tok)])
  {
    ParseIntDigits(tok);
  }

  /** A token with two dashes or more is rejected. */
  lemma ExpandTooManyDashes(tok: string)
    requires multiset(tok)['-'] >= 2
    ensures ExpandToken(tok) == Err(TooManyDashes(tok))
  {
    SplitCount(tok, '-');
  }

  /** A comma-separated list of tokens, none holding a comma, is expanded token
      by token. */
  lemma ExpandSpecJoin(toks: seq<string>)
    requires |toks| >= 1
    requires forall i :: 0 <= i < |toks| ==> ',' !in toks[i]
    ensures ExpandSpec(Join(toks, ',')) == Collect(TokenResults(toks))
  {
    SplitJoin(toks, ',');
  }

  /** A single result, collected. */
  lemma CollectOne(r: Result<seq<nat>, SplitError>)
    ensures Collect([r]) == r
  {
    assert [r][..0] == [];
    if r.Ok? {
      assert [] + r.value == r.value;
    }
  }

  /** A cell whose first comma is at `i`, preceded by a well-formed token,
      expands to that token's wells followed by the wells of the rest. */
  lemma ExpandSpecCons(s: string, i: nat)
    requires i < |s| && s[i] == ',' && ',' !in s[..i]
    requires ExpandToken(s[..i]).Ok? && ExpandSpec(s[i + 1..]).Ok?
    ensures ExpandSpec(s) == Ok(ExpandToken(s[..i]).value + ExpandSpec(s[i + 1..]).value)
  {
    TokenResultsSplitAt(s, i);
    var r := ExpandToken(s[..i]);
    var rs := TokenResults(Split(s[i + 1..], ','));
    CollectOne(r);
    CollectAppend([r], rs);
  }

  lemma TokenResultsAppend(xs: seq<string>, ys: seq<string>)
    ensures TokenResults(xs + ys) == TokenResults(xs) + TokenResults(ys)
  {
  }

  /** The token results of a cell whose first comma is at `i`. */
  lemma TokenResultsSplitAt(s: string, i: nat)
    requires i < |s| && s[i] == ',' && ',' !in s[..i]
    ensures TokenResults(Split(s, ',')) == [ExpandToken(s[..i])] + TokenResults(Split(s[i + 1..], ','))
  {
    SplitAt(s, i, ',');
    TokenResultsAppend([s[..i]], Split(s[i + 1..], ','));
    assert TokenResults([s[..i]]) == [ExpandToken(s[..i])];
  }

  /** A cell without a comma is a single token. */
  lemma ExpandSpecSingle(x: string)
    requires ',' !in x
    ensures ExpandSpec(x) == ExpandToken(x)
  {
    SplitNoSeparator(x, ',');
    assert TokenResults([x]) == [ExpandToken(x)];
    CollectOne(ExpandToken(x));
  }

  /** Wells come out in the order of their tokens: the expansion of a list of
      well-formed tokens is the concatenation of their expansions. */
  lemma {:induction false} CollectOk(rs: seq<Result<seq<nat>, SplitError>>)
    ensures Collect(rs).Ok? <==> forall i :: 0 <= i < |rs| ==> rs[i].Ok?
  {
    if |rs| > 0 {
      var init := rs[..|rs| - 1];
      CollectOk(init);
      assert forall i :: 0 <= i < |init| ==> init[i] == rs[i];
    }
  }

  // ---------------------------------------------------------------- the assignment table

  /** The table `pd.read_csv` gives: its header and its rows of cells. */
  datatype Table = Table(columns: seq<string>, rows: seq<seq<string>>)

  /** Every row has one cell per column. */
  predicate Rectangular(t: Table)
  {
    forall r :: 0 <= r < |t.rows| ==> |t.rows[r]| == |t.columns|
  }

  /** The only header `splitInf_to_dict` accepts, joined with `_`. */
  const Header: string := "raw_sample_well_sub_sample"

  const StandardColumns: seq<string> := ["raw_sample", "well", "sub_sample"]

  /** `df[name]`: the position of the first column called `name`, or the
      `KeyError` pandas raises (None). */
  function ColumnIndex(columns: seq<string>, name: string): (r: Option<nat>)
    ensures r.None? <==> name !in columns
    ensures r.Some? ==> r.value < |columns| && columns[r.value] == name && name !in columns[..r.value]
  {
    if |columns| == 0 then None
    else if columns[0] == name then Some(0)
    else match ColumnIndex(columns[1..], name)
      case None => None
      case Some(i) =>
        assert columns[1..][..i] == columns[1..i + 1];
        Some(i + 1)
  }

  predicate HasColumn(rows: seq<seq<string>>, c: nat)
  {
    forall r :: 0 <= r < |rows| ==> c < |rows[r]|
  }

  /** `df[df[column] == sample]`: the rows whose cell in column `c` is `sample`,
      in table order (`SampleRowsIndices` states that they are all of them,
      each once and in order). */
  function SampleRows(rows: seq<seq<string>>, c: nat, sample: string): (r: seq<seq<string>>)
    requires HasColumn(rows, c)
    ensures HasColumn(r, c)
    ensures |r| <= |rows|
    ensures forall i :: 0 <= i < |r| ==> r[i] in rows && r[i][c] == sample
    ensures r == [] <==> forall i :: 0 <= i < |rows| ==> rows[i][c] != sample
  {
    SelectBelow(rows, c, sample, |rows|)
  }

  /** The rows below position `n` whose cell in column `c` is `sample`, in
      table order. */
  function SelectBelow(rows: seq<seq<string>>, c: nat, sample: string, n: nat): (r: seq<seq<string>>)
    requires HasColumn(rows, c) && n <= |rows|
    ensures HasColumn(r, c)
    ensures |r| <= n
    ensures forall i :: 0 <= i < |r| ==> r[i] in rows && r[i][c] == sample
    ensures r == [] <==> forall i :: 0 <= i < n ==> rows[i][c] != sample
  {
    if n == 0 then []
    else SelectBelow(rows, c, sample, n - 1) + (if rows[n - 1][c] == sample then [rows[n - 1]] else [])
  }

  /** The positions below `n` of the rows holding `sample` in column `c`,
      increasing: an index-based reading of the same filter. */
  function MatchesBelow(rows: seq<seq<string>>, c: nat, sample: string, n: nat): (m: seq<nat>)
    requires HasColumn(rows, c) && n <= |rows|
    ensures forall k :: 0 <= k < |m| ==> m[k] < n && rows[m[k]][c] == sample
    ensures forall k, l :: 0 <= k < l < |m| ==> m[k] < m[l]
  {
    if n == 0 then []
    else MatchesBelow(rows, c, sample, n - 1) + (if rows[n - 1][c] == sample then [n - 1] else [])
  }

  /** Every matching position below `n` is listed. */
  lemma {:induction false} MatchesBelowComplete(rows: seq<seq<string>>, c: nat, sample: string, n: nat, i: nat)
    requires HasColumn(rows, c) && i < n <= |rows| && rows[i][c] == sample
    ensures i in MatchesBelow(rows, c, sample, n)
  {
    if i < n - 1 {
      MatchesBelowComplete(rows, c, sample, n - 1, i);
    }
  }

  lemma {:induction false} SelectBelowMatches(rows: seq<seq<string>>, c: nat, sample: string, n: nat)
    requires HasColumn(rows, c) && n <= |rows|
    ensures var m := MatchesBelow(rows, c, sample, n); var r := SelectBelow(rows, c, sample, n);
      |r| == |m| && forall k :: 0 <= k < |m| ==> r[k] == rows[m[k]]
  {
    if n > 0 {
      SelectBelowMatches(rows, c, sample, n - 1);
      var m0, r0 := MatchesBelow(rows, c, sample, n - 1), SelectBelow(rows, c, sample, n - 1);
      var m, r := MatchesBelow(rows, c, sample, n), SelectBelow(rows, c, sample, n);
      if rows[n - 1][c] == sample {
        assert m == m0 + [n - 1] && r == r0 + [rows[n - 1]];
        forall k | 0 <= k < |m| ensures r[k] == rows[m[k]] {
          if k < |m0| {
            assert m[k] == m0[k] && r[k] == r0[k];
          } else {
            assert k == |m0| && m[k] == n - 1 && r[k] == rows[n - 1];
          }
        }
      } else {
        assert m == m0 && r == r0;
      }
    }
  }

  /** The selected rows are exactly the rows holding `sample` in column `c`,
      each once, in table order: `idx` lists their positions in the table,
      increasing, and a row is listed exactly when its cell is `sample`. */
  lemma SampleRowsIndices(rows: seq<seq<string>>, c: nat, sample: string) returns (idx: seq<nat>)
    requires HasColumn(rows, c)
    ensures |idx| == |SampleRows(rows, c, sample)|
    ensures forall k :: 0 <= k < |idx| ==> idx[k] < |rows| && SampleRows(rows, c, sample)[k] == rows[idx[k]]
    ensures forall k, l :: 0 <= k < l < |idx| ==> idx[k] < idx[l]
    ensures forall i :: 0 <= i < |rows| ==> (rows[i][c] == sample <==> i in idx)
  {
    idx := MatchesBelow(rows, c, sample, |rows|);
    SelectBelowMatches(rows, c, sample, |rows|);
    forall i | 0 <= i < |rows| && rows[i][c] == sample ensures i in idx {
      MatchesBelowComplete(rows, c, sample, |rows|, i);
    }
  }

  /** `df[column]`: the cells of column `c`, in row order. */
  function Column(rows: seq<seq<string>>, c: nat): (r: seq<string>)
    requires HasColumn(rows, c)
    ensures |r| == |rows|
    ensures forall i :: 0 <= i < |rows| ==> r[i] == rows[i][c]
  {
    seq(|rows|, i requires 0 <= i < |rows| && c < |rows[i]| => rows[i][c])
  }

  /** One entry of `split_dict`: a subsample and its wells in order. */
  datatype Assignment = Assignment(subsample: string, wells: seq<nat>)

  /** One row of the loop: its subsample and its expanded `well` cell. */
  function RowResult(row: seq<string>, sc: nat, wc: nat): Result<Assignment, SplitError>
    requires sc < |row| && wc < |row|
  {
    match ExpandSpec(row[wc])
    case Err(e) => Err(e)
    case Ok(ws) => Ok(Assignment(row[sc], ws))
  }

  /** The result of each row, in order. */
  function RowResults(rows: seq<seq<string>>, sc: nat, wc: nat): (rs: seq<Result<Assignment, SplitError>>)
    requires HasColumn(rows, sc) && HasColumn(rows, wc)
    ensures |rs| == |rows|
    ensures forall r :: 0 <= r < |rows| ==> rs[r] == RowResult(rows[r], sc, wc)
  {
    seq(|rows|, r requires 0 <= r < |rows| && sc < |rows[r]| && wc < |rows[r]| => RowResult(rows[r], sc, wc))
  }

  /** Results taken in order; the first error stops everything. */
  function Sequence<T>(rs: seq<Result<T, SplitError>>): Result<seq<T>, SplitError>
  {
    if |rs| == 0 then Ok([])
    else
      match Sequence(rs[..|rs| - 1])
      case Err(e) => Err(e)
      case Ok(d) =>
        match rs[|rs| - 1]
        case Err(e) => Err(e)
        case Ok(a) => Ok(d + [a])
  }

  /** The row loop of `splitInf_to_dict`: rows in order, the first row whose
      `well` cell is rejected stops everything. */
  function ExpandRows(rows: seq<seq<string>>, sc: nat, wc: nat): Result<seq<Assignment>, SplitError>
    requires HasColumn(rows, sc) && HasColumn(rows, wc)
  {
    Sequence(RowResults(rows, sc, wc))
  }

  /** `list(chain.from_iterable(split_dict.values()))`. */
  function Flatten(d: seq<Assignment>): seq<nat>
  {
    if |d| == 0 then [] else Flatten(d[..|d| - 1]) + d[|d| - 1].wells
  }

  /** The subsample names, in order. */
  function Names(d: seq<Assignment>): (r: seq<string>)
    ensures |r| == |d|
    ensures forall i :: 0 <= i < |d| ==> r[i] == d[i].subsample
  {
    seq(|d|, i requires 0 <= i < |d| => d[i].subsample)
  }

  /** What `splitInf_to_dict(file, sample)` returns for the table of `file`, its
      checks taken in the order the code makes them. This is the specification;
      `SplitInfToDict` is the code's loops, proved to compute it. */
  function SplitInf(t: Table, sample: string): Result<seq<Assignment>, SplitError>
    requires Rectangular(t)
  {
    if Join(t.columns, '_') != Header then Err(WrongHeader)
    else
      match ColumnIndex(t.columns, "raw_sample")
      case None => Err(MissingColumn("raw_sample"))
      case Some(rc) =>
        var rows := SampleRows(t.rows, rc, sample);
        if rows == [] then Err(UnknownSample(sample))
        else
          match ColumnIndex(t.columns, "sub_sample")
          case None => Err(MissingColumn("sub_sample"))
          case Some(sc) =>
            if |ValueSet(Column(rows, sc))| != |rows| then Err(DuplicateSubsample)
            else
              match ColumnIndex(t.columns, "well")
              case None => Err(MissingColumn("well"))
              case Some(wc) =>
                match ExpandRows(rows, sc, wc)
                case Err(e) => Err(e)
                case Ok(d) => if NoDup(Flatten(d)) then Ok(d) else Err(DuplicateWell)
  }

  // ---------------------------------------------------------------- properties of the row loop

  /** Once a prefix of the results fails, the whole sequence fails the same way. */
  lemma {:induction false} SequenceErr<T>(rs: seq<Result<T, SplitError>>, k: nat)
    requires k <= |rs| && Sequence(rs[..k]).Err?
    ensures Sequence(rs) == Sequence(rs[..k])
    decreases |rs| - k
  {
    if k < |rs| {
      assert rs[..|rs| - 1][..k] == rs[..k];
      SequenceErr(rs[..|rs| - 1], k);
    } else {
      assert rs[..k] == rs;
    }
  }

  /** A sequence of results succeeds exactly when each one does, and then it
      holds their values in order. */
  lemma {:induction false} SequenceOk<T>(rs: seq<Result<T, SplitError>>)
    ensures Sequence(rs).Ok? <==> forall i :: 0 <= i < |rs| ==> rs[i].Ok?
    ensures Sequence(rs).Ok? ==>
      |Sequence(rs).value| == |rs| && forall i :: 0 <= i < |rs| ==> Sequence(rs).value[i] == rs[i].value
  {
    if |rs| > 0 {
      var init := rs[..|rs| - 1];
      SequenceOk(init);
      assert forall i :: 0 <= i < |init| ==> init[i] == rs[i];
    }
  }

  /** A failing sequence reports the error of its first failing result. */
  lemma {:induction false} SequenceFirstError<T>(rs: seq<Result<T, SplitError>>) returns (r: nat)
    requires Sequence(rs).Err?
    ensures r < |rs| && rs[r] == Err(Sequence(rs).error)
    ensures forall q :: 0 <= q < r ==> rs[q].Ok?
  {
    var init := rs[..|rs| - 1];
    assert forall i :: 0 <= i < |init| ==> init[i] == rs[i];
    if Sequence(init).Err? {
      r := SequenceFirstError(init);
    } else {
      SequenceOk(init);
      r := |rs| - 1;
    }
  }

  /** The loop succeeds exactly when every row's `well` cell expands, and then
      it yields one entry per row, in row order, holding the row's subsample
      and the expansion of its `well` cell. */
  lemma ExpandRowsOk(rows: seq<seq<string>>, sc: nat, wc: nat)
    requires HasColumn(rows, sc) && HasColumn(rows, wc)
    ensures ExpandRows(rows, sc, wc).Ok? <==> forall r :: 0 <= r < |rows| ==> ExpandSpec(rows[r][wc]).Ok?
    ensures ExpandRows(rows, sc, wc).Ok? ==>
      var d := ExpandRows(rows, sc, wc).value;
      && |d| == |rows|
      && forall r :: 0 <= r < |rows| ==> d[r] == Assignment(rows[r][sc], ExpandSpec(rows[r][wc]).value)
  {
    var rs := RowResults(rows, sc, wc);
    SequenceOk(rs);
    assert forall r :: 0 <= r < |rows| ==> (rs[r].Ok? <==> ExpandSpec(rows[r][wc]).Ok?);
  }

  /** A failing loop reports the error of the first row whose `well` cell is
      rejected, and that error is one of the errors of a well token. */
  lemma ExpandRowsFirstError(rows: seq<seq<string>>, sc: nat, wc: nat) returns (r: nat)
    requires HasColumn(rows, sc) && HasColumn(rows, wc)
    requires ExpandRows(rows, sc, wc).Err?
    ensures r < |rows| && ExpandSpec(rows[r][wc]) == Err(ExpandRows(rows, sc, wc).error)
    ensures forall q :: 0 <= q < r ==> ExpandSpec(rows[q][wc]).Ok?
    ensures ExpandRows(rows, sc, wc).error.TooManyDashes? || ExpandRows(rows, sc, wc).error.InvalidNumber?
  {
    var rs := RowResults(rows, sc, wc);
    r := SequenceFirstError(rs);
    assert forall q :: 0 <= q < r ==> (rs[q].Ok? <==> ExpandSpec(rows[q][wc]).Ok?);
    ExpandErrKind(rows[r][wc]);
  }

  /** A list without repeats splits into two lists without repeats and with no
      element in common. */
  lemma NoDupAppend(xs: seq<nat>, ys: seq<nat>)
    requires NoDup(xs + ys)
    ensures NoDup(xs) && NoDup(ys)
    ensures forall w :: w in xs ==> w !in ys
  {
    forall a, b | 0 <= a < b < |ys| ensures ys[a] != ys[b] {
      assert (xs + ys)[|xs| + a] == ys[a] && (xs + ys)[|xs| + b] == ys[b];
    }
    forall a, b | 0 <= a < |xs| && 0 <= b < |ys| ensures xs[a] != ys[b] {
      assert (xs + ys)[a] == xs[a] && (xs + ys)[|xs| + b] == ys[b];
    }
    forall a, b | 0 <= a < b < |xs| ensures xs[a] != xs[b] {
      assert (xs + ys)[a] == xs[a] && (xs + ys)[b] == xs[b];
    }
  }

  /** Well `w` of entry `i` sits in the concatenated well list. */
  lemma {:induction false} FlattenMember(d: seq<Assignment>, i: nat, w: nat)
    requires i < |d| && w in d[i].wells
    ensures w in Flatten(d)
  {
    if i < |d| - 1 {
      FlattenMember(d[..|d| - 1], i, w);
    }
  }

  /** A concatenated list without repeats has no repeat inside one entry and no
      well shared by two entries. */
  lemma {:induction false} FlattenNoDup(d: seq<Assignment>, i: nat, j: nat, w: nat)
    requires NoDup(Flatten(d))
    requires i < |d| && w in d[i].wells
    requires j < |d| && w in d[j].wells
    ensures i == j
  {
    var init := d[..|d| - 1];
    NoDupAppend(Flatten(init), d[|d| - 1].wells);
    if i < |d| - 1 && j < |d| - 1 {
      FlattenNoDup(init, i, j, w);
    } else if i < |d| - 1 {
      FlattenMember(init, i, w);
    } else if j < |d| - 1 {
      FlattenMember(init, j, w);
    }
  }

  /** Within one entry no well repeats either. */
  lemma {:induction false} FlattenNoDupWithin(d: seq<Assignment>, i: nat)
    requires NoDup(Flatten(d)) && i < |d|
    ensures NoDup(d[i].wells)
  {
    var init := d[..|d| - 1];
    NoDupAppend(Flatten(init), d[|d| - 1].wells);
    if i < |d| - 1 {
      FlattenNoDupWithin(init, i);
    }
  }

  // ---------------------------------------------------------------- splitInf_to_dict

  /** The duplicate-well check of `splitInf_to_dict`: every count of the
      `Counter` of the well list is examined, and a count above one fails. */
  method CheckDuplicates(wellsList: seq<nat>) returns (ok: bool)
    ensures ok <==> NoDup(wellsList)
  {
    var counts := multiset(wellsList);
    var rest := set w | w in counts;
    while rest != {}
      invariant rest <= set w | w in counts
      invariant forall w :: w in counts && w !in rest ==> counts[w] <= 1
      decreases rest
    {
      var w :| w in rest;
      if counts[w] > 1 {
        NoDupCounts(wellsList);
        return false;
      }
      rest := rest - {w};
    }
    NoDupCounts(wellsList);
    return true;
  }

  /** The row loop of `splitInf_to_dict`: each row's `well` cell expanded and
      stored under its subsample, in row order. */
  method ExpandAll(rows: seq<seq<string>>, sc: nat, wc: nat) returns (r: Result<seq<Assignment>, SplitError>)
    requires HasColumn(rows, sc) && HasColumn(rows, wc)
    ensures r == ExpandRows(rows, sc, wc)
  {
    ghost var rs := RowResults(rows, sc, wc);
    var splitDict: seq<Assignment> := [];
    for k := 0 to |rows|
      invariant Sequence(rs[..k]) == Ok(splitDict)
    {
      var row := rows[k];
      var wellList := ExpandWells(row[wc]);
      assert rs[..k + 1][..k] == rs[..k];
      if wellList.Err? {
        SequenceErr(rs, k + 1);
        return Err(wellList.error);
      }
      splitDict := splitDict + [Assignment(row[sc], wellList.value)];
    }
    assert rs[..|rows|] == rs;
    return Ok(splitDict);
  }

  /** `splitInf_to_dict(file, sample)` on the table read from `file`, with its
      loops; it computes the specification `SplitInf`. */
  method SplitInfToDict(t: Table, sample: string) returns (r: Result<seq<Assignment>, SplitError>)
    requires Rectangular(t)
    ensures r == SplitInf(t, sample)
  {
    if Join(t.columns, '_') != Header {
      return Err(WrongHeader);
    }
    var rc := ColumnIndex(t.columns, "raw_sample");
    if rc.None? {
      return Err(MissingColumn("raw_sample"));
    }
    var rows := SampleRows(t.rows, rc.value, sample);
    if rows == [] {
      return Err(UnknownSample(sample));
    }
    var sc := ColumnIndex(t.columns, "sub_sample");
    if sc.None? {
      return Err(MissingColumn("sub_sample"));
    }
    if |ValueSet(Column(rows, sc.value))| != |rows| {
      return Err(DuplicateSubsample);
    }
    var wc := ColumnIndex(t.columns, "well");
    if wc.None? {
      return Err(MissingColumn("well"));
    }
    var splitDict := ExpandAll(rows, sc.value, wc.value);
    if splitDict.Err? {
      return splitDict;
    }
    var ok := CheckDuplicates(Flatten(splitDict.value));
    if !ok {
      return Err(DuplicateWell);
    }
    return splitDict;
  }

  // ---------------------------------------------------------------- what splitInf_to_dict promises

  /** What a successful result is made of: the expansion of the rows of
      `sample`, whose subsample cells are distinct, with no well listed twice. */
  lemma SplitInfOkParts(t: Table, sample: string)
    requires Rectangular(t) && SplitInf(t, sample).Ok?
    ensures Join(t.columns, '_') == Header
    ensures "raw_sample" in t.columns && "sub_sample" in t.columns && "well" in t.columns
    ensures var rows := SampleRows(t.rows, ColumnIndex(t.columns, "raw_sample").value, sample);
      var sc, wc := ColumnIndex(t.columns, "sub_sample").value, ColumnIndex(t.columns, "well").value;
      && rows != []
      && ExpandRows(rows, sc, wc) == SplitInf(t, sample)
      && |ValueSet(Column(rows, sc))| == |rows|
      && NoDup(Flatten(SplitInf(t, sample).value))
  {
  }

  /** A successful result has the expected header and, for the rows of
      `sample`, one entry per row in table order: the row's subsample with the
      expansion of its `well` cell. Subsample names are distinct, and no well
      occurs twice, neither within an entry nor across entries. */
  lemma SplitInfOk(t: Table, sample: string)
    requires Rectangular(t) && SplitInf(t, sample).Ok?
    ensures Join(t.columns, '_') == Header
    ensures "raw_sample" in t.columns && "sub_sample" in t.columns && "well" in t.columns
    ensures var d := SplitInf(t, sample).value;
      var rows := SampleRows(t.rows, ColumnIndex(t.columns, "raw_sample").value, sample);
      var sc, wc := ColumnIndex(t.columns, "sub_sample").value, ColumnIndex(t.columns, "well").value;
      && |rows| >= 1
      && AssignmentOf(d, rows, sc, wc)
  {
    SplitInfOkParts(t, sample);
    var rows := SampleRows(t.rows, ColumnIndex(t.columns, "raw_sample").value, sample);
    var sc, wc := ColumnIndex(t.columns, "sub_sample").value, ColumnIndex(t.columns, "well").value;
    ValueSetSize(Column(rows, sc));
    AssignmentOk(rows, sc, wc);
  }

  /** `d` is the assignment of `rows`: one entry per row in row order, holding
      the row's subsample and the expansion of its `well` cell; subsample names
      are distinct, and no well occurs twice, neither within an entry nor
      across entries. */
  predicate AssignmentOf(d: seq<Assignment>, rows: seq<seq<string>>, sc: nat, wc: nat)
    requires HasColumn(rows, sc) && HasColumn(rows, wc)
  {
    && |d| == |rows|
    && (forall i :: 0 <= i < |d| ==> d[i].subsample == rows[i][sc] && ExpandSpec(rows[i][wc]) == Ok(d[i].wells))
    && NoDup(Names(d))
    && NoDup(Flatten(d))
    && (forall i, j, w :: 0 <= i < |d| && 0 <= j < |d| && w in d[i].wells && w in d[j].wells ==> i == j)
    && (forall i :: 0 <= i < |d| ==> NoDup(d[i].wells))
  }

  /** The rows' expansion, when their subsample cells are distinct and no well
      is listed twice, is their assignment. */
  lemma AssignmentOk(rows: seq<seq<string>>, sc: nat, wc: nat)
    requires HasColumn(rows, sc) && HasColumn(rows, wc)
    requires ExpandRows(rows, sc, wc).Ok? && NoDup(Column(rows, sc))
    requires NoDup(Flatten(ExpandRows(rows, sc, wc).value))
    ensures AssignmentOf(ExpandRows(rows, sc, wc).value, rows, sc, wc)
  {
    var d := ExpandRows(rows, sc, wc).value;
    ExpandRowsOk(rows, sc, wc);
    assert Names(d) == Column(rows, sc);
    forall i, j, w | 0 <= i < |d| && 0 <= j < |d| && w in d[i].wells && w in d[j].wells ensures i == j {
      FlattenNoDup(d, i, j, w);
    }
    forall i | 0 <= i < |d| ensures NoDup(d[i].wells) {
      FlattenNoDupWithin(d, i);
    }
  }

  /** The standard header passes the header check and names its three columns
      in order. */
  lemma StandardColumnsFound()
    ensures Join(StandardColumns, '_') == Header
    ensures ColumnIndex(StandardColumns, "raw_sample") == Some(0)
    ensures ColumnIndex(StandardColumns, "well") == Some(1)
    ensures ColumnIndex(StandardColumns, "sub_sample") == Some(2)
  {
    assert Join(StandardColumns[2..], '_') == "sub_sample";
    assert Join(StandardColumns[1..], '_') == "well_sub_sample";
  }

  /** For a table with the header `raw_sample, well, sub_sample`, each check
      fails exactly when the code says: no row of `sample`; a subsample named
      twice among its rows. Past those checks the result is the expansion of
      the rows, rejected when a well is listed twice. */
  lemma SplitInfStandard(t: Table, sample: string)
    requires Rectangular(t) && t.columns == StandardColumns
    ensures var rows := SampleRows(t.rows, 0, sample);
      && (SplitInf(t, sample) == Err(UnknownSample(sample)) <==> rows == [])
      && (SplitInf(t, sample) == Err(DuplicateSubsample) <==> rows != [] && !NoDup(Column(rows, 2)))
      && (rows != [] && NoDup(Column(rows, 2)) ==>
            SplitInf(t, sample) ==
              match ExpandRows(rows, 2, 1)
              case Err(e) => Err(e)
              case Ok(d) => if NoDup(Flatten(d)) then Ok(d) else Err(DuplicateWell))
  {
    StandardColumnsFound();
    var rows := SampleRows(t.rows, 0, sample);
    if rows != [] {
      ValueSetSize(Column(rows, 2));
      if ExpandRows(rows, 2, 1).Err? {
        var q := ExpandRowsFirstError(rows, 2, 1);
      }
    }
  }

  /** Expanding a `well` cell never reports the errors of the other checks. */
  lemma ExpandErrKind(spec: string)
    requires ExpandSpec(spec).Err?
    ensures ExpandSpec(spec).error.TooManyDashes? || ExpandSpec(spec).error.InvalidNumber?
  {
    CollectErrKind(TokenResults(Split(spec, ',')));
  }

  lemma {:induction false} CollectErrKind(rs: seq<Result<seq<nat>, SplitError>>)
    requires forall i :: 0 <= i < |rs| && rs[i].Err? ==> rs[i].error.TooManyDashes? || rs[i].error.InvalidNumber?
    requires Collect(rs).Err?
    ensures Collect(rs).error.TooManyDashes? || Collect(rs).error.InvalidNumber?
  {
    var init := rs[..|rs| - 1];
    if Collect(init).Err? {
      assert forall i :: 0 <= i < |init| ==> init[i] == rs[i];
      CollectErrKind(init);
    }
  }

  /** The header check alone: any other joined header is rejected first. */
  lemma SplitInfWrongHeader(t: Table, sample: string)
    requires Rectangular(t)
    ensures SplitInf(t, sample) == Err(WrongHeader) <==> Join(t.columns, '_') != Header
  {
    if Join(t.columns, '_') == Header && "raw_sample" in t.columns && "sub_sample" in t.columns && "well" in t.columns {
      var rows := SampleRows(t.rows, ColumnIndex(t.columns, "raw_sample").value, sample);
      var sc, wc := ColumnIndex(t.columns, "sub_sample").value, ColumnIndex(t.columns, "well").value;
      if rows != [] && ExpandRows(rows, sc, wc).Err? {
        var q := ExpandRowsFirstError(rows, sc, wc);
      }
    }
  }

  // ---------------------------------------------------------------- the docstring of splitInf_to_dict

  /** A token of digits, a dash at `i` and digits stands for the range between
      the two numbers. */
  lemma ExpandRangeDigits(tok: string, i: nat)
    requires 0 < i && i + 1 < |tok| && tok[i] == '-'
    requires AllDigits(tok[..i]) && AllDigits(tok[i + 1..])
    ensures ExpandToken(tok) == Ok(WellRange(DigitsValue(tok[..i]), DigitsValue(tok[i + 1..])))
  {
    ParseIntDigits(tok[..i]);
    ParseIntDigits(tok[i + 1..]);
    ExpandRangeAt(tok, i, DigitsValue(tok[..i]), DigitsValue(tok[i + 1..]));
  }

  /** The suffix of a cell from `j`, whose first comma is at `i`. */
  lemma ExpandSpecConsAt(s: string, j: nat, i: nat)
    requires j <= i < |s| && s[i] == ',' && ',' !in s[j..i]
    requires ExpandToken(s[j..i]).Ok? && ExpandSpec(s[i + 1..]).Ok?
    ensures ExpandSpec(s[j..]) == Ok(ExpandToken(s[j..i]).value + ExpandSpec(s[i + 1..]).value)
  {
    var t := s[j..];
    assert t[..i - j] == s[j..i] && t[i - j + 1..] == s[i + 1..];
    ExpandSpecCons(t, i - j);
  }

  /** The suffix of a cell from `j`, holding no comma. */
  lemma ExpandSpecSingleAt(s: string, j: nat)
    requires j <= |s| && ',' !in s[j..]
    ensures ExpandSpec(s[j..]) == ExpandToken(s[j..])
  {
    ExpandSpecSingle(s[j..]);
  }

  predicate SpecAChars(s: string)
  {
    |s| == 9 && s[0] == '1' && s[1] == '-' && s[2] == '9' && s[3] == ',' && s[4] == '1'
    && s[5] == '0' && s[6] == ',' && s[7] == '1' && s[8] == '1'
  }

  lemma SpecACharsOf(s: string)
    requires s == "1-9,10,11"
    ensures SpecAChars(s)
  {
  }

  /** The pieces of `1-9,10,11` and the numbers they denote. */
  lemma SpecAPieces(s: string)
    requires SpecAChars(s)
    ensures ',' !in s[..3] && ',' !in s[4..6] && ',' !in s[7..]
    ensures s[..3][1] == '-' && AllDigits(s[..3][..1]) && AllDigits(s[..3][2..])
    ensures DigitsValue(s[..3][..1]) == 1 && DigitsValue(s[..3][2..]) == 9
    ensures AllDigits(s[4..6]) && DigitsValue(s[4..6]) == 10
    ensures AllDigits(s[7..]) && DigitsValue(s[7..]) == 11
  {
    OneDigitValue(s[..3][..1]);
    OneDigitValue(s[..3][2..]);
    TwoDigitValue(s[4..6]);
    TwoDigitValue(s[7..]);
  }

  lemma ExpandSpecA(s: string)
    requires SpecAChars(s)
    ensures ExpandSpec(s) == Ok(WellRange(1, 9) + ([10] + [11]))
  {
    SpecAPieces(s);
    ExpandRangeDigits(s[..3], 1);
    ExpandDigitToken(s[4..6]);
    ExpandDigitToken(s[7..]);
    ExpandSpecSingleAt(s, 7);
    ExpandSpecConsAt(s, 4, 6);
    ExpandSpecCons(s, 3);
  }

  lemma WellsA()
    ensures WellRange(1, 9) + ([10] + [11]) == WellRange(1, 11)
  {
  }

  /** `1-9,10,11` stands for the wells 1 to 11, in order. */
  lemma ExpandSpecExampleA(spec: string)
    requires spec == "1-9,10,11"
    ensures ExpandSpec(spec) == Ok(WellRange(1, 11))
  {
    SpecACharsOf(spec);
    ExpandSpecA(spec);
    WellsA();
  }

  predicate SpecBChars(s: string)
  {
    |s| == 14 && s[0] == '5' && s[1] == '6' && s[2] == ',' && s[3] == '6' && s[4] == '4'
    && s[5] == ',' && s[6] == '8' && s[7] == '5' && s[8] == ',' && s[9] == '2' && s[10] == '1'
    && s[11] == ',' && s[12] == '1' && s[13] == '2'
  }

  lemma SpecBCharsOf(s: string)
    requires s == "56,64,85,21,12"
    ensures SpecBChars(s)
  {
  }

  /** The five two-digit tokens of `56,64,85,21,12`, starting at 0, 3, 6, 9, 12. */
  lemma SpecBPieces(s: string)
    requires SpecBChars(s)
    ensures s[2] == ',' && s[5] == ',' && s[8] == ',' && s[11] == ','
    ensures ',' !in s[0..2] && ',' !in s[3..5] && ',' !in s[6..8] && ',' !in s[9..11] && ',' !in s[12..]
    ensures AllDigits(s[0..2]) && AllDigits(s[3..5]) && AllDigits(s[6..8]) && AllDigits(s[9..11]) && AllDigits(s[12..])
    ensures DigitsValue(s[0..2]) == 56 && DigitsValue(s[3..5]) == 64 && DigitsValue(s[6..8]) == 85
    ensures DigitsValue(s[9..11]) == 21 && DigitsValue(s[12..]) == 12
  {
    TwoDigitValue(s[0..2]);
    TwoDigitValue(s[3..5]);
    TwoDigitValue(s[6..8]);
    TwoDigitValue(s[9..11]);
    TwoDigitValue(s[12..]);
  }

  lemma ExpandSpecB(s: string)
    requires SpecBChars(s)
    ensures ExpandSpec(s) == Ok([56] + ([64] + ([85] + ([21] + [12]))))
  {
    SpecBPieces(s);
    assert s[0..] == s;
    ExpandDigitToken(s[0..2]);
    ExpandDigitToken(s[3..5]);
    ExpandDigitToken(s[6..8]);
    ExpandDigitToken(s[9..11]);
    ExpandDigitToken(s[12..]);
    ExpandSpecSingleAt(s, 12);
    ExpandSpecConsAt(s, 9, 11);
    ExpandSpecConsAt(s, 6, 8);
    ExpandSpecConsAt(s, 3, 5);
    ExpandSpecConsAt(s, 0, 2);
  }

  lemma WellsB()
    ensures [56] + ([64] + ([85] + ([21] + [12]))) == [56, 64, 85, 21, 12]
  {
  }

  /** `56,64,85,21,12` keeps its wells in the order written, unsorted. */
  lemma ExpandSpecExampleB(spec: string)
    requires spec == "56,64,85,21,12"
    ensures ExpandSpec(spec) == Ok([56, 64, 85, 21, 12])
  {
    SpecBCharsOf(spec);
    ExpandSpecB(spec);
    WellsB();
  }

  predicate SpecCChars(s: string)
  {
    |s| == 5 && s[0] == '1' && s[1] == '-' && s[2] == '2' && s[3] == '-' && s[4] == '3'
  }

  lemma SpecCCharsOf(s: string)
    requires s == "1-2-3"
    ensures SpecCChars(s)
  {
  }

  /** `1-2-3` splits into three pieces at its dashes and holds no comma. */
  lemma SpecCPieces(s: string)
    requires SpecCChars(s)
    ensures ',' !in s && '-' in s && |Split(s, '-')| > 2
  {
    SplitAt(s, 1, '-');
    assert s[2..][1] == '-' && s[2..][..1] == s[2..3];
    SplitAt(s[2..], 1, '-');
  }

  /** `1-2-3` has more than one dash and is rejected. */
  lemma ExpandSpecExampleC(spec: string)
    requires spec == "1-2-3"
    ensures ExpandSpec(spec) == Err(TooManyDashes(spec))
  {
    SpecCCharsOf(spec);
    SpecCPieces(spec);
    ExpandSpecSingle(spec);
  }
}
