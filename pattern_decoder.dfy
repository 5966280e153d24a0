/** The read-layout decoder of bin/parse_protocol.py (`parse_pattern`): a layout
    string such as `C8L16U12` is read as `<letter><length>` tokens, and each letter
    is given the half-open ranges of read positions its tokens occupy when the
    tokens are laid end to end from position 0. */
module PatternDecoder {
  import opened Results
  import opened Text

  /** One `<letter><digits>` token of a layout string. */
  datatype Token = Token(kind: char, length: nat)

  /** Python's `slice(start, stop)`: the read positions `start <= p < stop`. */
  datatype Span = Span(start: nat, stop: nat)

  /** The decoded layout: for each letter, its spans in the order they occur. */
  type PatternDict = map<char, seq<Span>>

  /** `sys.exit(f'Invalid pattern: {pattern}')`. */
  datatype PatternError = InvalidPattern(pattern: string)

  /** The letters `parse_pattern` accepts unless told otherwise. */
  const DefaultAllowed: string := "CLUNT"

  // ---------------------------------------------------------------- tokenizer

  /** Length of the run of digits at the head of `s`. */
  function DigitRun(s: string): (n: nat)
    ensures n <= |s|
    ensures forall i :: 0 <= i < n ==> IsDigit(s[i])
    ensures n < |s| ==> !IsDigit(s[n])
  {
    if |s| > 0 && IsDigit(s[0]) then 1 + DigitRun(s[1..]) else 0
  }

  /** `re.findall(r'([A-Z])(\d+)', s)` with each match's number converted by
      `int`: scanning left to right, an upper-case letter followed by digits is a
      token (the digits taken greedily), and any other character is skipped. */
  function FindTokens(s: string): (ts: seq<Token>)
    ensures forall i :: 0 <= i < |ts| ==> IsUpper(ts[i].kind)
    decreases |s|
  {
    if |s| == 0 then []
    else if IsUpper(s[0]) && |s| > 1 && IsDigit(s[1]) then
      var n := DigitRun(s[1..]);
      [Token(s[0], DigitsValue(s[1..1 + n]))] + FindTokens(s[1 + n..])
    else FindTokens(s[1..])
  }

  /** Each token takes a letter and at least one digit, so a layout of length
      `L` gives at most `L / 2` tokens. */
  lemma {:induction false} FindTokensCount(s: string)
    ensures 2 * |FindTokens(s)| <= |s|
    decreases |s|
  {
    if |s| == 0 {
    } else if IsUpper(s[0]) && |s| > 1 && IsDigit(s[1]) {
      var n := DigitRun(s[1..]);
      FindTokensCount(s[1 + n..]);
    } else {
      FindTokensCount(s[1..]);
    }
  }

  /** The layout string that writes the tokens out, each length in decimal. */
  function Render(ts: seq<Token>): string
  {
    if |ts| == 0 then "" else [ts[0].kind] + Decimal(ts[0].length) + Render(ts[1..])
  }

  lemma {:induction false} DigitRunStops(ds: string, rest: string)
    requires AllDigits(ds)
    requires rest == [] || !IsDigit(rest[0])
    ensures DigitRun(ds + rest) == |ds|
  {
    if |ds| > 0 {
      DigitRunStops(ds[1..], rest);
      assert (ds + rest)[1..] == ds[1..] + rest;
    } else {
      assert ds + rest == rest;
    }
  }

  /** A letter followed by a run of digits, and then by anything that does not
      continue the run, is read as one token followed by the tokens of the rest. */
  lemma FindTokensCons(k: char, ds: string, rest: string)
    requires IsUpper(k) && |ds| > 0 && AllDigits(ds)
    requires rest == [] || !IsDigit(rest[0])
    ensures FindTokens([k] + ds + rest) == [Token(k, DigitsValue(ds))] + FindTokens(rest)
  {
    var s := [k] + ds + rest;
    assert s[1..] == ds + rest;
    DigitRunStops(ds, rest);
    assert s[1..1 + |ds|] == ds;
    assert s[1 + |ds|..] == rest;
  }

  /** The tokenizer reads back every layout written out by `Render`. */
  lemma {:induction false} FindTokensRender(ts: seq<Token>)
    requires forall i :: 0 <= i < |ts| ==> IsUpper(ts[i].kind)
    ensures FindTokens(Render(ts)) == ts
  {
    if |ts| > 0 {
      var rest := Render(ts[1..]);
      FindTokensRender(ts[1..]);
      assert |ts| > 1 ==> rest[0] == ts[1].kind;
      assert Render(ts) == [ts[0].kind] + Decimal(ts[0].length) + rest;
      FindTokensCons(ts[0].kind, Decimal(ts[0].length), rest);
      DecimalValue(ts[0].length);
      assert [ts[0]] + ts[1..] == ts;
    }
  }

  // ---------------------------------------------------------------- layout

  /** Where token `i` starts: the total length of the tokens before it. */
  function Offset(ts: seq<Token>, i: nat): nat
    requires i <= |ts|
  {
    if i == 0 then 0 else Offset(ts, i - 1) + ts[i - 1].length
  }

  /** Whether position `p` lies in the span. */
  predicate Holds(sp: Span, p: nat) { sp.start <= p < sp.stop }

  /** The span token `i` occupies. */
  function SpanOf(ts: seq<Token>, i: nat): Span
    requires i < |ts|
  {
    Span(Offset(ts, i), Offset(ts, i) + ts[i].length)
  }

  /** The spans of the tokens of letter `k` among the first `n`, in order. */
  function SpansOf(ts: seq<Token>, k: char, n: nat): seq<Span>
    requires n <= |ts|
  {
    if n == 0 then []
    else SpansOf(ts, k, n - 1) + (if ts[n - 1].kind == k then [SpanOf(ts, n - 1)] else [])
  }

  /** How many of the first `n` tokens have letter `k`. */
  function CountKind(ts: seq<Token>, k: char, n: nat): nat
    requires n <= |ts|
  {
    if n == 0 then 0 else CountKind(ts, k, n - 1) + (if ts[n - 1].kind == k then 1 else 0)
  }

  /** The distinct letters among the first `n` tokens. */
  function KindsOf(ts: seq<Token>, n: nat): set<char>
    requires n <= |ts|
  {
    set i | 0 <= i < n :: ts[i].kind
  }

  /** A token list `parse_pattern` accepts: not empty, every letter allowed. */
  predicate ValidTokens(ts: seq<Token>, allowed: string)
  {
    |ts| > 0 && forall i :: 0 <= i < |ts| ==> ts[i].kind in allowed
  }

  lemma {:induction false} SpansOfAbsent(ts: seq<Token>, k: char, n: nat)
    requires n <= |ts|
    requires forall j :: 0 <= j < n ==> ts[j].kind != k
    ensures SpansOf(ts, k, n) == []
  {
    if n > 0 {
      SpansOfAbsent(ts, k, n - 1);
    }
  }

  /** The decoded layout of the first `n` tokens: each letter met maps to its spans. */
  function Layout(ts: seq<Token>, n: nat): (d: PatternDict)
    requires n <= |ts|
    ensures d.Keys == KindsOf(ts, n)
    ensures forall k :: k in d ==> d[k] == SpansOf(ts, k, n)
  {
    map k | k in KindsOf(ts, n) :: SpansOf(ts, k, n)
  }

  /** One more token appends its span to its letter's list, starting the list
      if the letter is new, and leaves the other letters alone. */
  lemma LayoutStep(ts: seq<Token>, i: nat)
    requires i < |ts|
    ensures var x := ts[i].kind; var d := Layout(ts, i);
      Layout(ts, i + 1) == d[x := (if x in d then d[x] else []) + [SpanOf(ts, i)]]
  {
    var x := ts[i].kind;
    var d := Layout(ts, i);
    var e := d[x := (if x in d then d[x] else []) + [SpanOf(ts, i)]];
    assert KindsOf(ts, i + 1) == KindsOf(ts, i) + {x};
    if x !in d {
      SpansOfAbsent(ts, x, i);
    }
    forall k | k in e
      ensures e[k] == SpansOf(ts, k, i + 1)
    {
    }
    assert Layout(ts, i + 1) == e;
  }

  /** A second update of the same key overrides the first. */
  lemma UpdateTwice(m: PatternDict, x: char, a: seq<Span>, b: seq<Span>)
    ensures m[x := a][x := b] == m[x := b]
  {
  }

  /** `parse_pattern(pattern, allowed)`: fails, with no partial result, when no
      token is found or a token's letter is not allowed; otherwise its keys are
      exactly the letters found and each letter maps to the spans of its tokens. */
  method ParsePattern(pattern: string, allowed: string) returns (r: Result<PatternDict, PatternError>)
    ensures r.Err? <==> !ValidTokens(FindTokens(pattern), allowed)
    ensures r.Err? ==> r.error == InvalidPattern(pattern)
    ensures r.Ok? ==> r.value.Keys == KindsOf(FindTokens(pattern), |FindTokens(pattern)|)
    ensures r.Ok? ==> forall k :: k in r.value ==>
      r.value[k] == SpansOf(FindTokens(pattern), k, |FindTokens(pattern)|)
  {
    var tmp := FindTokens(pattern);
    if |tmp| == 0 {
      return Err(InvalidPattern(pattern));
    }
    var dict: PatternDict := map[];
    var start := 0;
    for i := 0 to |tmp|
      invariant start == Offset(tmp, i)
      invariant forall j :: 0 <= j < i ==> tmp[j].kind in allowed
      invariant dict == Layout(tmp, i)
    {
      var x := tmp[i].kind;
      if x !in allowed {
        return Err(InvalidPattern(pattern));
      }
      LayoutStep(tmp, i);
      ghost var before := dict;
      if x !in dict {
        dict := dict[x := []];
      }
      var end := start + tmp[i].length;
      assert Span(start, end) == SpanOf(tmp, i);
      dict := dict[x := dict[x] + [Span(start, end)]];
      if x !in before {
        UpdateTwice(before, x, [], [Span(start, end)]);
      }
      start := end;
    }
    return Ok(dict);
  }

  // ---------------------------------------------------------------- properties of the layout

  /** The spans are laid end to end from position 0: the first starts at 0,
      each later one starts where the one before it stops, and each is as
      long as its token's number. */
  lemma SpansContiguous(ts: seq<Token>, i: nat)
    requires i < |ts|
    ensures i == 0 ==> SpanOf(ts, i).start == 0
    ensures i > 0 ==> SpanOf(ts, i).start == SpanOf(ts, i - 1).stop
    ensures SpanOf(ts, i).stop - SpanOf(ts, i).start == ts[i].length
  {
  }

  lemma {:induction false} OffsetMonotone(ts: seq<Token>, i: nat, j: nat)
    requires i <= j <= |ts|
    ensures Offset(ts, i) <= Offset(ts, j)
  {
    if i < j {
      OffsetMonotone(ts, i, j - 1);
    }
  }

  /** Spans are laid end to end without overlap: a later token's span starts
      at or after the end of every earlier token's span. */
  lemma SpansDisjoint(ts: seq<Token>, i: nat, j: nat)
    requires i < j < |ts|
    ensures SpanOf(ts, i).stop <= SpanOf(ts, j).start
  {
    OffsetMonotone(ts, i + 1, j);
  }

  /** Every position before the end of the layout lies in exactly one token's span. */
  lemma {:induction false} LayoutCovers(ts: seq<Token>, n: nat, p: nat)
    requires n <= |ts|
    requires p < Offset(ts, n)
    ensures exists i :: 0 <= i < n && Holds(SpanOf(ts, i), p)
    ensures forall i, j :: 0 <= i < n && 0 <= j < n && Holds(SpanOf(ts, i), p) && Holds(SpanOf(ts, j), p) ==> i == j
  {
    if p < Offset(ts, n - 1) {
      LayoutCovers(ts, n - 1, p);
    } else {
      assert Holds(SpanOf(ts, n - 1), p);
    }
    forall i, j | 0 <= i < n && 0 <= j < n && Holds(SpanOf(ts, i), p) && Holds(SpanOf(ts, j), p)
      ensures i == j
    {
      if i < j {
        SpansDisjoint(ts, i, j);
      } else if j < i {
        SpansDisjoint(ts, j, i);
      }
    }
  }

  lemma {:induction false} SpansOfPrefix(ts: seq<Token>, k: char, m: nat, n: nat)
    requires m <= n <= |ts|
    ensures |SpansOf(ts, k, m)| <= |SpansOf(ts, k, n)|
    ensures SpansOf(ts, k, m) == SpansOf(ts, k, n)[..|SpansOf(ts, k, m)|]
  {
    if m < n {
      SpansOfPrefix(ts, k, m, n - 1);
    }
  }

  lemma {:induction false} SpansOfLength(ts: seq<Token>, k: char, n: nat)
    requires n <= |ts|
    ensures |SpansOf(ts, k, n)| == CountKind(ts, k, n)
  {
    if n > 0 {
      SpansOfLength(ts, k, n - 1);
    }
  }

  /** Spans of a repeated letter are appended in the order met, never merged:
      the letter's list has one span per token of that letter, and the token
      preceded by `c` tokens of the same letter holds position `c` of the list. */
  lemma SpansOfInOrder(ts: seq<Token>, k: char, n: nat)
    requires n <= |ts|
    ensures |SpansOf(ts, k, n)| == CountKind(ts, k, n)
    ensures forall j :: 0 <= j < n && ts[j].kind == k ==>
      CountKind(ts, k, j) < |SpansOf(ts, k, n)| && SpansOf(ts, k, n)[CountKind(ts, k, j)] == SpanOf(ts, j)
  {
    SpansOfLength(ts, k, n);
    forall j | 0 <= j < n && ts[j].kind == k
      ensures CountKind(ts, k, j) < |SpansOf(ts, k, n)|
      ensures SpansOf(ts, k, n)[CountKind(ts, k, j)] == SpanOf(ts, j)
    {
      SpansOfLength(ts, k, j);
      SpansOfPrefix(ts, k, j + 1, n);
      assert SpansOf(ts, k, j + 1) == SpansOf(ts, k, j) + [SpanOf(ts, j)];
    }
  }

  /** Whether `sp` is the span of one of the first `n` tokens, a token of letter `k`. */
  predicate SpanOfKind(ts: seq<Token>, k: char, n: nat, sp: Span)
    requires n <= |ts|
  {
    exists j :: 0 <= j < n && ts[j].kind == k && sp == SpanOf(ts, j)
  }

  /** Every span listed for a letter is the span of a token of that letter. */
  lemma {:induction false} SpansOfSound(ts: seq<Token>, k: char, n: nat)
    requires n <= |ts|
    ensures forall a :: 0 <= a < |SpansOf(ts, k, n)| ==> SpanOfKind(ts, k, n, SpansOf(ts, k, n)[a])
  {
    if n > 0 {
      SpansOfSound(ts, k, n - 1);
      var prev := SpansOf(ts, k, n - 1);
      var cur := SpansOf(ts, k, n);
      forall a | 0 <= a < |cur|
        ensures SpanOfKind(ts, k, n, cur[a])
      {
        if a < |prev| {
          assert cur[a] == prev[a];
          assert SpanOfKind(ts, k, n - 1, prev[a]);
          var j :| 0 <= j < n - 1 && ts[j].kind == k && prev[a] == SpanOf(ts, j);
          assert 0 <= j < n && ts[j].kind == k && cur[a] == SpanOf(ts, j);
        } else {
          assert ts[n - 1].kind == k && cur[a] == SpanOf(ts, n - 1);
        }
      }
    }
  }

  /** The spans of one letter are in increasing order and pairwise disjoint. */
  lemma {:induction false} SpansOfSorted(ts: seq<Token>, k: char, n: nat)
    requires n <= |ts|
    ensures forall a, b :: 0 <= a < b < |SpansOf(ts, k, n)| ==>
      SpansOf(ts, k, n)[a].stop <= SpansOf(ts, k, n)[b].start
  {
    if n > 0 {
      SpansOfSorted(ts, k, n - 1);
      SpansOfSound(ts, k, n - 1);
      var prev := SpansOf(ts, k, n - 1);
      var cur := SpansOf(ts, k, n);
      forall a, b | 0 <= a < b < |cur|
        ensures cur[a].stop <= cur[b].start
      {
        if b < |prev| {
          assert cur[a] == prev[a] && cur[b] == prev[b];
        } else {
          assert cur[b] == SpanOf(ts, n - 1);
          assert cur[a] == prev[a];
          assert SpanOfKind(ts, k, n - 1, prev[a]);
          var j :| 0 <= j < n - 1 && ts[j].kind == k && prev[a] == SpanOf(ts, j);
          SpansDisjoint(ts, j, n - 1);
        }
      }
    }
  }

  /** The tokens of the doctest layout `C8L16C8L16C8L1U12T18`. */
  predicate ExampleTokenList(ts: seq<Token>)
  {
    && |ts| == 8
    && ts[0] == Token('C', 8) && ts[1] == Token('L', 16) && ts[2] == Token('C', 8) && ts[3] == Token('L', 16)
    && ts[4] == Token('C', 8) && ts[5] == Token('L', 1) && ts[6] == Token('U', 12) && ts[7] == Token('T', 18)
  }

  /** Writing out a concatenation writes out each part in turn. */
  lemma {:induction false} RenderAppend(a: seq<Token>, b: seq<Token>)
    ensures Render(a + b) == Render(a) + Render(b)
  {
    if |a| > 0 {
      RenderAppend(a[1..], b);
      assert (a + b)[1..] == a[1..] + b;
    } else {
      assert a + b == b;
    }
  }

  // The doctest layout, written out in two halves.

  lemma RenderExampleFirst()
    ensures Render([Token('C', 8), Token('L', 16), Token('C', 8), Token('L', 16)]) == "C8L16C8L16"
  {
  }

  lemma RenderExampleLast()
    ensures Render([Token('C', 8), Token('L', 1), Token('U', 12), Token('T', 18)]) == "C8L1U12T18"
  {
  }

  /** The doctest tokens write out the doctest layout. */
  lemma RenderExample(ts: seq<Token>)
    requires ExampleTokenList(ts)
    ensures Render(ts) == "C8L16C8L16C8L1U12T18"
  {
    var a := [Token('C', 8), Token('L', 16), Token('C', 8), Token('L', 16)];
    var b := [Token('C', 8), Token('L', 1), Token('U', 12), Token('T', 18)];
    assert ts == a + b;
    RenderExampleFirst();
    RenderExampleLast();
    RenderAppend(a, b);
  }

  /** The tokens of the doctest layout, read back through `FindTokensRender`. */
  lemma ExampleTokens(s: string)
    requires s == "C8L16C8L16C8L1U12T18"
    ensures ExampleTokenList(FindTokens(s))
  {
    var ts := [Token('C', 8), Token('L', 16), Token('C', 8), Token('L', 16),
               Token('C', 8), Token('L', 1), Token('U', 12), Token('T', 18)];
    assert ExampleTokenList(ts);
    RenderExample(ts);
    assert forall i :: 0 <= i < |ts| ==> IsUpper(ts[i].kind);
    FindTokensRender(ts);
  }

  lemma ExampleOffsets(ts: seq<Token>)
    requires ExampleTokenList(ts)
    ensures Offset(ts, 1) == 8 && Offset(ts, 2) == 24 && Offset(ts, 3) == 32 && Offset(ts, 4) == 48
    ensures Offset(ts, 5) == 56 && Offset(ts, 6) == 57 && Offset(ts, 7) == 69
  {
    assert Offset(ts, 1) == 8;
    assert Offset(ts, 2) == 24;
    assert Offset(ts, 3) == 32;
    assert Offset(ts, 4) == 48;
    assert Offset(ts, 5) == 56;
    assert Offset(ts, 6) == 57;
  }

  lemma ExampleSpansC(ts: seq<Token>)
    requires ExampleTokenList(ts)
    ensures SpansOf(ts, 'C', |ts|) == [Span(0, 8), Span(24, 32), Span(48, 56)]
  {
    ExampleOffsets(ts);
    assert SpansOf(ts, 'C', 1) == [Span(0, 8)];
    assert SpansOf(ts, 'C', 3) == [Span(0, 8), Span(24, 32)];
    assert SpansOf(ts, 'C', 5) == [Span(0, 8), Span(24, 32), Span(48, 56)];
    assert SpansOf(ts, 'C', 7) == SpansOf(ts, 'C', 6) == SpansOf(ts, 'C', 5);
  }

  lemma ExampleSpansL(ts: seq<Token>)
    requires ExampleTokenList(ts)
    ensures SpansOf(ts, 'L', |ts|) == [Span(8, 24), Span(32, 48), Span(56, 57)]
  {
    ExampleOffsets(ts);
    assert SpansOf(ts, 'L', 1) == [];
    assert SpansOf(ts, 'L', 2) == [Span(8, 24)];
    assert SpansOf(ts, 'L', 4) == [Span(8, 24), Span(32, 48)];
    assert SpansOf(ts, 'L', 6) == [Span(8, 24), Span(32, 48), Span(56, 57)];
    assert SpansOf(ts, 'L', 7) == SpansOf(ts, 'L', 6);
  }

  lemma ExampleSpansUT(ts: seq<Token>)
    requires ExampleTokenList(ts)
    ensures SpansOf(ts, 'U', |ts|) == [Span(57, 69)]
    ensures SpansOf(ts, 'T', |ts|) == [Span(69, 87)]
  {
    ExampleOffsets(ts);
    SpansOfAbsent(ts, 'U', 6);
    SpansOfAbsent(ts, 'T', 7);
  }

  /** The layout of the doctest tokens. */
  lemma ExampleKinds(ts: seq<Token>)
    requires ExampleTokenList(ts)
    ensures ValidTokens(ts, DefaultAllowed)
    ensures KindsOf(ts, |ts|) == {'C', 'L', 'U', 'T'}
  {
    assert ts[0].kind == 'C' && ts[1].kind == 'L' && ts[6].kind == 'U' && ts[7].kind == 'T';
  }

  lemma ExampleLayout(ts: seq<Token>)
    requires ExampleTokenList(ts)
    ensures ValidTokens(ts, DefaultAllowed)
    ensures KindsOf(ts, |ts|) == {'C', 'L', 'U', 'T'}
    ensures SpansOf(ts, 'C', |ts|) == [Span(0, 8), Span(24, 32), Span(48, 56)]
    ensures SpansOf(ts, 'L', |ts|) == [Span(8, 24), Span(32, 48), Span(56, 57)]
    ensures SpansOf(ts, 'U', |ts|) == [Span(57, 69)]
    ensures SpansOf(ts, 'T', |ts|) == [Span(69, 87)]
  {
    ExampleKinds(ts);
    ExampleSpansC(ts);
    ExampleSpansL(ts);
    ExampleSpansUT(ts);
  }

  /** The doctest of `parse_pattern`: `C8L16C8L16C8L1U12T18` gives C the spans
      [0,8), [24,32), [48,56) and L the spans [8,24), [32,48), [56,57). */
  lemma ParsePatternExample(pattern: string)
    requires pattern == "C8L16C8L16C8L1U12T18"
    ensures var ts := FindTokens(pattern);
      && ValidTokens(ts, DefaultAllowed)
      && KindsOf(ts, |ts|) == {'C', 'L', 'U', 'T'}
      && SpansOf(ts, 'C', |ts|) == [Span(0, 8), Span(24, 32), Span(48, 56)]
      && SpansOf(ts, 'L', |ts|) == [Span(8, 24), Span(32, 48), Span(56, 57)]
      && SpansOf(ts, 'U', |ts|) == [Span(57, 69)]
      && SpansOf(ts, 'T', |ts|) == [Span(69, 87)]
  {
    ExampleTokens(pattern);
    ExampleLayout(FindTokens(pattern));
  }
}
