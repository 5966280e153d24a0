/** The barcode-correction index of bin/parse_protocol.py: `findall_mismatch`
    enumerates the substitution variants of a barcode (choose the positions that
    may change with `itertools.combinations`, then every choice of bases at them
    with `itertools.product`), and `get_mismatch_dict` maps every variant of every
    whitelist barcode back to that barcode, later barcodes overwriting earlier ones. */
module MismatchIndex {
  import opened Text

  /** The bases `findall_mismatch` substitutes unless told otherwise. */
  const DefaultBases: string := "ACGTN"

  // ---------------------------------------------------------------- itertools

  /** Every list of `xss` with `x` put in front, in order. */
  function ConsAll<T>(x: T, xss: seq<seq<T>>): seq<seq<T>>
  {
    if |xss| == 0 then [] else [[x] + xss[0]] + ConsAll(x, xss[1..])
  }

  /** `itertools.combinations(range(lo, len), m)` as lists, in the library's
      lexicographic order. */
  function Combinations(lo: nat, len: nat, m: nat): seq<seq<nat>>
    decreases len - lo, m
  {
    if m == 0 then [[]]
    else if lo >= len then []
    else ConsAll(lo, Combinations(lo + 1, len, m - 1)) + Combinations(lo + 1, len, m)
  }

  /** `itertools.product(*choices)` joined into strings, the first position
      varying slowest. */
  function Product(choices: seq<string>): seq<string>
  {
    if |choices| == 0 then [""] else Extend(choices[0], Product(choices[1..]))
  }

  /** Every string of `ps` with each character of `cs` put in front. */
  function Extend(cs: string, ps: seq<string>): seq<string>
  {
    if |cs| == 0 then [] else ConsAll(cs[0], ps) + Extend(cs[1..], ps)
  }

  /** Strictly increasing positions, all in `[lo, len)`. */
  predicate PositionsIn(c: seq<nat>, lo: nat, len: nat)
  {
    && (forall i :: 0 <= i < |c| ==> lo <= c[i] < len)
    && (forall i, j :: 0 <= i < j < |c| ==> c[i] < c[j])
  }

  lemma {:induction false} ConsAllMember<T>(x: T, xss: seq<seq<T>>, ys: seq<T>)
    ensures ys in ConsAll(x, xss) <==> |ys| >= 1 && ys[0] == x && ys[1..] in xss
  {
    if |xss| > 0 {
      ConsAllMember(x, xss[1..], ys);
      assert xss == [xss[0]] + xss[1..];
      if ys == [x] + xss[0] {
        assert ys[1..] == xss[0];
      }
      if |ys| >= 1 && ys[0] == x && ys[1..] == xss[0] {
        assert ys == [x] + xss[0];
      }
    }
  }

  lemma PositionsInTail(c: seq<nat>, lo: nat, len: nat)
    requires |c| >= 1 && PositionsIn(c, lo, len)
    ensures PositionsIn(c[1..], c[0] + 1, len)
  {
    forall i | 0 <= i < |c| - 1 ensures c[0] + 1 <= c[1..][i] {
      assert c[1..][i] == c[i + 1];
    }
  }

  lemma PositionsInCons(x: nat, c: seq<nat>, lo: nat, len: nat)
    requires lo <= x < len && PositionsIn(c, x + 1, len)
    ensures PositionsIn([x] + c, lo, len)
  {
    var d := [x] + c;
    forall i, j | 0 <= i < j < |d| ensures d[i] < d[j] {
      assert d[j] == c[j - 1];
      if i > 0 {
        assert d[i] == c[i - 1];
      }
    }
  }

  /** Positions that do not start at `lo` all lie above it. */
  lemma PositionsInHead(c: seq<nat>, lo: nat, len: nat)
    requires PositionsIn(c, lo, len) && (|c| == 0 || c[0] != lo)
    ensures lo !in c && PositionsIn(c, lo + 1, len)
  {
    forall i | 0 <= i < |c| ensures lo + 1 <= c[i] {
      if i > 0 {
        assert c[0] < c[i];
      }
    }
  }

  /** Positions above `lo` are positions from `lo` that leave `lo` out. */
  lemma PositionsInAbove(c: seq<nat>, lo: nat, len: nat)
    requires PositionsIn(c, lo + 1, len)
    ensures lo !in c && PositionsIn(c, lo, len)
  {
  }

  /** The combinations from `lo` are exactly the increasing lists of `m`
      positions in `[lo, len)`. */
  lemma {:induction false} CombinationsSound(lo: nat, len: nat, m: nat, c: seq<nat>)
    requires c in Combinations(lo, len, m)
    ensures |c| == m && PositionsIn(c, lo, len)
    decreases len - lo, m
  {
    if m > 0 {
      var left := Combinations(lo + 1, len, m - 1);
      if c in ConsAll(lo, left) {
        ConsAllMember(lo, left, c);
        CombinationsSound(lo + 1, len, m - 1, c[1..]);
        assert c == [lo] + c[1..];
        PositionsInCons(lo, c[1..], lo, len);
      } else {
        CombinationsSound(lo + 1, len, m, c);
      }
    }
  }

  lemma {:induction false} CombinationsComplete(lo: nat, len: nat, m: nat, c: seq<nat>)
    requires |c| == m && PositionsIn(c, lo, len)
    ensures c in Combinations(lo, len, m)
    decreases len - lo, m
  {
    if m > 0 {
      assert lo <= c[0] < len;
      var left := Combinations(lo + 1, len, m - 1);
      if c[0] == lo {
        PositionsInTail(c, lo, len);
        CombinationsComplete(lo + 1, len, m - 1, c[1..]);
        ConsAllMember(lo, left, c);
      } else {
        PositionsInHead(c, lo, len);
        CombinationsComplete(lo + 1, len, m, c);
      }
    }
  }

  lemma CombinationsMember(lo: nat, len: nat, m: nat, c: seq<nat>)
    ensures c in Combinations(lo, len, m) <==> |c| == m && PositionsIn(c, lo, len)
  {
    if c in Combinations(lo, len, m) {
      CombinationsSound(lo, len, m, c);
    }
    if |c| == m && PositionsIn(c, lo, len) {
      CombinationsComplete(lo, len, m, c);
    }
  }

  lemma {:induction false} ExtendMember(cs: string, ps: seq<string>, x: string)
    ensures x in Extend(cs, ps) <==> |x| >= 1 && x[0] in cs && x[1..] in ps
  {
    if |cs| > 0 {
      ConsAllMember(cs[0], ps, x);
      ExtendMember(cs[1..], ps, x);
      assert cs == [cs[0]] + cs[1..];
    }
  }

  /** The product holds exactly the strings with one character of each choice. */
  lemma {:induction false} ProductMember(choices: seq<string>, x: string)
    ensures x in Product(choices) <==>
      |x| == |choices| && forall i :: 0 <= i < |x| ==> x[i] in choices[i]
  {
    if |choices| > 0 {
      ExtendMember(choices[0], Product(choices[1..]), x);
      if |x| >= 1 {
        ProductMember(choices[1..], x[1..]);
        if |x| == |choices| && forall i :: 0 <= i < |x| ==> x[i] in choices[i] {
          forall i | 0 <= i < |x| - 1 ensures x[1..][i] in choices[1..][i] {
            assert x[1..][i] == x[i + 1];
          }
        }
        if x[0] in choices[0] && x[1..] in Product(choices[1..]) {
          forall i | 0 <= i < |x| ensures x[i] in choices[i] {
            if i > 0 {
              assert x[i] == x[1..][i - 1];
            }
          }
        }
      }
    }
  }

  // ---------------------------------------------------------------- findall_mismatch

  /** `seq_locs` once the positions of `c` are opened up: every base of
      `bases` at a position of `c`, the barcode's own character elsewhere. */
  function Choices(s: string, c: seq<nat>, bases: string): (r: seq<string>)
    ensures |r| == |s|
    ensures forall i :: 0 <= i < |s| ==> r[i] == if i in c then bases else [s[i]]
  {
    seq(|s|, i requires 0 <= i < |s| => if i in c then bases else [s[i]])
  }

  /** How many positions `findall_mismatch` opens up: `min(n_mismatch, len(seq))`. */
  function Budget(s: string, n: nat): (m: nat)
    ensures m <= n && m <= |s| && (m == n || m == |s|)
  {
    if n > |s| then |s| else n
  }

  /** The elements of a list, as a set. */
  function Elements(xs: seq<string>): (r: set<string>)
    ensures forall x :: x in r <==> x in xs
  {
    set x | x in xs
  }

  /** The strings added for the combinations in `combos`. */
  function Variants(s: string, combos: seq<seq<nat>>, bases: string): set<string>
  {
    if |combos| == 0 then {}
    else
      Variants(s, combos[..|combos| - 1], bases)
        + Elements(Product(Choices(s, combos[|combos| - 1], bases)))
  }

  /** The set `findall_mismatch(s, n, bases)` returns. */
  function MismatchSet(s: string, n: nat, bases: string): set<string>
  {
    Variants(s, Combinations(0, |s|, Budget(s, n)), bases)
  }

  /** Number of positions from `lo` on where `t` and `s` differ. */
  function DiffFrom(t: string, s: string, lo: nat): nat
    requires |t| == |s| && lo <= |s|
    decreases |s| - lo
  {
    if lo == |s| then 0 else (if t[lo] != s[lo] then 1 else 0) + DiffFrom(t, s, lo + 1)
  }

  /** Number of positions from `lo` on where `t` holds one of `bases`. */
  function BaseFrom(t: string, bases: string, lo: nat): nat
    requires lo <= |t|
    decreases |t| - lo
  {
    if lo == |t| then 0 else (if t[lo] in bases then 1 else 0) + BaseFrom(t, bases, lo + 1)
  }

  /** The Hamming distance of two strings of equal length. */
  function Distance(t: string, s: string): nat
    requires |t| == |s|
  {
    DiffFrom(t, s, 0)
  }

  /** At position `i`, `t` holds one of `bases` if `i` is in `c`, and agrees with `s` otherwise. */
  predicate FitsAt(t: string, s: string, c: seq<nat>, bases: string, i: nat)
    requires i < |t| == |s|
  {
    if i in c then t[i] in bases else t[i] == s[i]
  }

  /** `t` fits the opened-up positions `c` at every position from `lo` on. */
  predicate FitsFrom(t: string, s: string, c: seq<nat>, bases: string, lo: nat)
    requires |t| == |s|
  {
    forall i :: lo <= i < |s| ==> FitsAt(t, s, c, bases, i)
  }

  /** At position `i`, `t` either agrees with `s` or holds one of `bases`. */
  predicate ChangeAt(t: string, s: string, bases: string, i: nat)
    requires i < |t| == |s|
  {
    t[i] != s[i] ==> t[i] in bases
  }

  /** Every position from `lo` on where `t` differs from `s` holds one of `bases`. */
  predicate ChangesIn(t: string, s: string, bases: string, lo: nat)
    requires |t| == |s|
  {
    forall i :: lo <= i < |s| ==> ChangeAt(t, s, bases, i)
  }

  /** What `findall_mismatch(s, n, bases)` returns, without enumerating: a string
      of the same length whose changes are bases, with at most
      `min(n, len(s))` changes, and with at least that many positions holding a
      base (so that a full set of opened positions fits). */
  predicate IsMismatch(t: string, s: string, n: nat, bases: string)
  {
    && |t| == |s|
    && ChangesIn(t, s, bases, 0)
    && Distance(t, s) <= Budget(s, n) <= BaseFrom(t, bases, 0)
  }

  lemma {:induction false} DiffLeBase(t: string, s: string, bases: string, lo: nat)
    requires |t| == |s| && lo <= |s| && ChangesIn(t, s, bases, lo)
    ensures DiffFrom(t, s, lo) <= BaseFrom(t, bases, lo)
    decreases |s| - lo
  {
    if lo < |s| {
      ChangesInStep(t, s, bases, lo);
      DiffLeBase(t, s, bases, lo + 1);
    }
  }

  lemma {:induction false} BaseFromBound(t: string, bases: string, lo: nat)
    requires lo <= |t|
    ensures BaseFrom(t, bases, lo) <= |t| - lo
    decreases |t| - lo
  {
    if lo < |t| {
      BaseFromBound(t, bases, lo + 1);
    }
  }

  lemma FitsFromCons(t: string, s: string, c: seq<nat>, bases: string, lo: nat)
    requires |t| == |s| && lo < |s|
    ensures FitsFrom(t, s, [lo] + c, bases, lo) <==> t[lo] in bases && FitsFrom(t, s, c, bases, lo + 1)
  {
    forall i | lo < i < |s| ensures FitsAt(t, s, [lo] + c, bases, i) == FitsAt(t, s, c, bases, i) {
      assert i in [lo] + c <==> i in c;
    }
    assert lo in [lo] + c;
    assert FitsAt(t, s, [lo] + c, bases, lo) <==> t[lo] in bases;
  }

  lemma FitsFromSkip(t: string, s: string, c: seq<nat>, bases: string, lo: nat)
    requires |t| == |s| && lo < |s| && lo !in c
    ensures FitsFrom(t, s, c, bases, lo) <==> t[lo] == s[lo] && FitsFrom(t, s, c, bases, lo + 1)
  {
    assert FitsAt(t, s, c, bases, lo) <==> t[lo] == s[lo];
  }

  lemma ChangesInStep(t: string, s: string, bases: string, lo: nat)
    requires |t| == |s| && lo < |s|
    ensures ChangesIn(t, s, bases, lo) <==>
      (t[lo] != s[lo] ==> t[lo] in bases) && ChangesIn(t, s, bases, lo + 1)
  {
    assert ChangeAt(t, s, bases, lo) <==> (t[lo] != s[lo] ==> t[lo] in bases);
  }

  /** A string that fits `m` opened-up positions from `lo` on has at most `m`
      changes, all bases, and at least `m` bases from `lo` on. */
  lemma {:induction false} FitsCounts(t: string, s: string, c: seq<nat>, bases: string, lo: nat, m: nat)
    requires |t| == |s| && lo <= |s|
    requires |c| == m && PositionsIn(c, lo, |s|) && FitsFrom(t, s, c, bases, lo)
    ensures ChangesIn(t, s, bases, lo)
    ensures DiffFrom(t, s, lo) <= m <= BaseFrom(t, bases, lo)
    decreases |s| - lo
  {
    assert |c| == 0 || lo <= c[0] < |s|;
    if lo < |s| {
      ChangesInStep(t, s, bases, lo);
      if |c| > 0 && c[0] == lo {
        var c' := c[1..];
        assert c == [lo] + c';
        PositionsInTail(c, lo, |s|);
        FitsFromCons(t, s, c', bases, lo);
        FitsCounts(t, s, c', bases, lo + 1, m - 1);
      } else {
        PositionsInHead(c, lo, |s|);
        FitsFromSkip(t, s, c, bases, lo);
        FitsCounts(t, s, c, bases, lo + 1, m);
      }
    }
  }

  lemma {:induction false} DiffZero(t: string, s: string, lo: nat)
    requires |t| == |s| && lo <= |s|
    requires forall i :: lo <= i < |s| ==> t[i] == s[i]
    ensures DiffFrom(t, s, lo) == 0
    decreases |s| - lo
  {
    if lo < |s| {
      DiffZero(t, s, lo + 1);
    }
  }

  lemma {:induction false} DiffZeroAgrees(t: string, s: string, lo: nat)
    requires |t| == |s| && lo <= |s| && DiffFrom(t, s, lo) == 0
    ensures forall i :: lo <= i < |s| ==> t[i] == s[i]
    decreases |s| - lo
  {
    if lo < |s| {
      DiffZeroAgrees(t, s, lo + 1);
    }
  }

  /** Conversely, a string with at most `m` changes, all bases, and at least `m`
      bases from `lo` on fits some `m` opened-up positions. */
  lemma {:induction false} CountsFit(t: string, s: string, bases: string, lo: nat, m: nat)
      returns (c: seq<nat>)
    requires |t| == |s| && lo <= |s|
    requires ChangesIn(t, s, bases, lo)
    requires DiffFrom(t, s, lo) <= m <= BaseFrom(t, bases, lo)
    ensures |c| == m && PositionsIn(c, lo, |s|) && FitsFrom(t, s, c, bases, lo)
    decreases |s| - lo
  {
    if lo == |s| {
      c := [];
    } else {
      ChangesInStep(t, s, bases, lo);
      if m > 0 && (t[lo] != s[lo] || BaseFrom(t, bases, lo + 1) < m) {
        if t[lo] == s[lo] {
          DiffLeBase(t, s, bases, lo + 1);
        }
        var c' := CountsFit(t, s, bases, lo + 1, m - 1);
        c := [lo] + c';
        PositionsInCons(lo, c', lo, |s|);
        FitsFromCons(t, s, c', bases, lo);
      } else {
        c := CountsFit(t, s, bases, lo + 1, m);
        PositionsInAbove(c, lo, |s|);
        FitsFromSkip(t, s, c, bases, lo);
      }
    }
  }

  /** The product of `seq_locs` holds exactly the strings that fit its opened-up positions. */
  lemma ProductChoices(s: string, c: seq<nat>, bases: string, t: string)
    ensures t in Product(Choices(s, c, bases)) <==> |t| == |s| && FitsFrom(t, s, c, bases, 0)
  {
    var ch := Choices(s, c, bases);
    ProductMember(ch, t);
    if |t| == |s| {
      forall i | 0 <= i < |t| ensures t[i] in ch[i] <==> FitsAt(t, s, c, bases, i) {
      }
    }
  }

  /** A string is added for a list of combinations exactly when it fits one of them. */
  lemma {:induction false} VariantsMember(s: string, combos: seq<seq<nat>>, bases: string, t: string)
    ensures t in Variants(s, combos, bases) <==>
      |t| == |s| && exists k :: 0 <= k < |combos| && FitsFrom(t, s, combos[k], bases, 0)
  {
    if |combos| > 0 {
      var init := combos[..|combos| - 1];
      var c := combos[|combos| - 1];
      VariantsMember(s, init, bases, t);
      ProductChoices(s, c, bases, t);
      if |t| == |s| {
        if exists k :: 0 <= k < |combos| && FitsFrom(t, s, combos[k], bases, 0) {
          var k :| 0 <= k < |combos| && FitsFrom(t, s, combos[k], bases, 0);
          if k < |combos| - 1 {
            assert combos[k] == init[k];
          }
        }
        if exists k :: 0 <= k < |init| && FitsFrom(t, s, init[k], bases, 0) {
          var k :| 0 <= k < |init| && FitsFrom(t, s, init[k], bases, 0);
          assert combos[k] == init[k];
        }
      }
    }
  }

  /** `findall_mismatch` returns exactly the strings that open up every choice of
      `min(n, len(s))` positions to `bases`: one string for each combination of
      positions and each choice of bases there. */
  lemma MismatchSetMember(s: string, n: nat, bases: string, t: string)
    ensures t in MismatchSet(s, n, bases) <==>
      |t| == |s| && exists c :: c in Combinations(0, |s|, Budget(s, n)) && FitsFrom(t, s, c, bases, 0)
  {
    var combos := Combinations(0, |s|, Budget(s, n));
    VariantsMember(s, combos, bases, t);
    if |t| == |s| && exists c :: c in combos && FitsFrom(t, s, c, bases, 0) {
      var c :| c in combos && FitsFrom(t, s, c, bases, 0);
      var k :| 0 <= k < |combos| && combos[k] == c;
    }
  }

  /** The closed form of `findall_mismatch`: its result is exactly the strings of
      `IsMismatch`. */
  lemma MismatchSetClosedForm(s: string, n: nat, bases: string, t: string)
    ensures t in MismatchSet(s, n, bases) <==> IsMismatch(t, s, n, bases)
  {
    MismatchSetMember(s, n, bases, t);
    var m := Budget(s, n);
    if t in MismatchSet(s, n, bases) {
      var c :| c in Combinations(0, |s|, m) && FitsFrom(t, s, c, bases, 0);
      CombinationsSound(0, |s|, m, c);
      FitsCounts(t, s, c, bases, 0, m);
    }
    if IsMismatch(t, s, n, bases) {
      var c := CountsFit(t, s, bases, 0, m);
      CombinationsComplete(0, |s|, m, c);
    }
  }

  /** Every variant has the barcode's length and differs from it in at most
      `min(n, len(s))` positions, each time by one of `bases`. */
  lemma MismatchSetBounds(s: string, n: nat, bases: string, t: string)
    requires t in MismatchSet(s, n, bases)
    ensures |t| == |s| && Distance(t, s) <= n && Distance(t, s) <= |s|
    ensures forall i :: 0 <= i < |s| && t[i] != s[i] ==> t[i] in bases
  {
    MismatchSetClosedForm(s, n, bases, t);
    forall i | 0 <= i < |s| && t[i] != s[i] ensures t[i] in bases {
      assert ChangeAt(t, s, bases, i);
    }
  }

  /** A barcode written only in `bases` is its own variant. */
  lemma MismatchSetHasSelf(s: string, n: nat, bases: string)
    requires forall i :: 0 <= i < |s| ==> s[i] in bases
    ensures s in MismatchSet(s, n, bases)
  {
    DiffZero(s, s, 0);
    BaseFromAll(s, bases, 0);
    MismatchSetClosedForm(s, n, bases, s);
  }

  lemma {:induction false} BaseFromAll(t: string, bases: string, lo: nat)
    requires lo <= |t|
    requires forall i :: lo <= i < |t| ==> t[i] in bases
    ensures BaseFrom(t, bases, lo) == |t| - lo
    decreases |t| - lo
  {
    if lo < |t| {
      BaseFromAll(t, bases, lo + 1);
    }
  }

  /** The closed form for every string at once. */
  lemma MismatchSetIsMismatch(s: string, n: nat, bases: string)
    ensures forall t :: t in MismatchSet(s, n, bases) <==> IsMismatch(t, s, n, bases)
  {
    forall t ensures t in MismatchSet(s, n, bases) <==> IsMismatch(t, s, n, bases) {
      MismatchSetClosedForm(s, n, bases, t);
    }
  }

  /** Opening up one more position of `seq_locs`. */
  lemma ChoicesStep(s: string, c: seq<nat>, x: nat, bases: string)
    requires x < |s|
    ensures Choices(s, c + [x], bases) == Choices(s, c, bases)[x := bases]
  {
    var l := Choices(s, c + [x], bases);
    var r := Choices(s, c, bases)[x := bases];
    forall i | 0 <= i < |s| ensures l[i] == r[i] {
      assert i in c + [x] <==> i in c || i == x;
    }
  }

  /** `seq_locs = [[base] for base in seq]`, then `seq_locs[loc] = list(bases)`
      for each position of the combination. */
  method OpenPositions(s: string, locs: seq<nat>, bases: string) returns (seqLocs: seq<string>)
    requires forall k :: 0 <= k < |locs| ==> locs[k] < |s|
    ensures seqLocs == Choices(s, locs, bases)
  {
    seqLocs := seq(|s|, i requires 0 <= i < |s| => [s[i]]);
    assert seqLocs == Choices(s, locs[..0], bases);
    for li := 0 to |locs|
      invariant seqLocs == Choices(s, locs[..li], bases)
    {
      ChoicesStep(s, locs[..li], locs[li], bases);
      assert locs[..li + 1] == locs[..li] + [locs[li]];
      seqLocs := seqLocs[locs[li] := bases];
    }
    assert locs[..|locs|] == locs;
  }

  /** `findall_mismatch(seq, n_mismatch, bases)`: for each combination of
      `min(n, len(seq))` positions, open those positions up to `bases` and add
      every string of the product. */
  method FindAllMismatch(s: string, n: nat, bases: string) returns (seqSet: set<string>)
    ensures seqSet == MismatchSet(s, n, bases)
    ensures forall t :: t in seqSet <==> IsMismatch(t, s, n, bases)
  {
    seqSet := {};
    var m := n;
    if m > |s| {
      m := |s|;
    }
    var combos := Combinations(0, |s|, m);
    for ci := 0 to |combos|
      invariant seqSet == Variants(s, combos[..ci], bases)
    {
      var locs := combos[ci];
      CombinationsSound(0, |s|, m, locs);
      var seqLocs := OpenPositions(s, locs, bases);
      var poss := Product(seqLocs);
      var before := seqSet;
      for pi := 0 to |poss|
        invariant seqSet == before + Elements(poss[..pi])
      {
        assert Elements(poss[..pi + 1]) == Elements(poss[..pi]) + {poss[pi]};
        seqSet := seqSet + {poss[pi]};
      }
      assert poss[..|poss|] == poss;
      assert combos[..ci + 1][..ci] == combos[..ci] && combos[..ci + 1][ci] == locs;
      assert Variants(s, combos[..ci + 1], bases) == before + Elements(poss);
    }
    assert combos[..|combos|] == combos;
    MismatchSetIsMismatch(s, n, bases);
  }

  /** The one-mismatch variants of `ACG` as listed in the doctest of `findall_mismatch`. */
  const ExampleVariants: set<string> := {"TCG", "AAG", "ACC", "ATG", "ACT", "ACN", "GCG",
                                         "ANG", "ACA", "ACG", "CCG", "AGG", "NCG"}

  lemma ExampleComplete(s: string, t: string)
    requires s == "ACG" && IsMismatch(t, s, 1, DefaultBases)
    ensures t in ExampleVariants
  {
    assert t == [t[0], t[1], t[2]];
    assert ChangeAt(t, s, DefaultBases, 0) && ChangeAt(t, s, DefaultBases, 1) && ChangeAt(t, s, DefaultBases, 2);
  }

  lemma ExampleSound(s: string, t: string)
    requires s == "ACG" && t in ExampleVariants
    ensures IsMismatch(t, s, 1, DefaultBases)
  {
    forall i | 0 <= i < 3 ensures ChangeAt(t, s, DefaultBases, i) {
      assert t[i] in DefaultBases;
    }
  }

  /** The doctest of `findall_mismatch`: the one-mismatch variants of `ACG`
      over `ACGTN` are `ACG` itself and its twelve single substitutions. */
  lemma FindAllMismatchExample(s: string)
    requires s == "ACG"
    ensures MismatchSet(s, 1, DefaultBases) == ExampleVariants
  {
    MismatchSetIsMismatch(s, 1, DefaultBases);
    forall t | IsMismatch(t, s, 1, DefaultBases) ensures t in ExampleVariants {
      ExampleComplete(s, t);
    }
    forall t | t in ExampleVariants ensures IsMismatch(t, s, 1, DefaultBases) {
      ExampleSound(s, t);
    }
  }

  // ---------------------------------------------------------------- get_mismatch_dict

  /** Whitelist entry `b` owns variant `t`: `b` is not blank once stripped and
      `t` is one of the variants of the stripped entry (in closed form). */
  predicate Owns(b: string, t: string, n: nat)
  {
    Strip(b) != "" && IsMismatch(t, Strip(b), n, DefaultBases)
  }

  /** What one entry writes: each of its variants maps to the stripped entry,
      and a blank entry writes nothing. */
  function EntryIndex(b: string, n: nat): map<string, string>
  {
    if Strip(b) == "" then map[] else VariantIndex(MismatchSet(Strip(b), n, DefaultBases), Strip(b))
  }

  /** An entry writes exactly the variants it owns, each mapped to its stripped text. */
  lemma EntryIndexOwns(b: string, n: nat, t: string)
    ensures t in EntryIndex(b, n) <==> Owns(b, t, n)
    ensures t in EntryIndex(b, n) ==> EntryIndex(b, n)[t] == Strip(b)
  {
    MismatchSetClosedForm(Strip(b), n, DefaultBases, t);
  }

  /** Every string of `variants` mapped to `b`. */
  function VariantIndex(variants: set<string>, b: string): (d: map<string, string>)
    ensures d.Keys == variants
    ensures forall t :: t in d ==> d[t] == b
  {
    map t | t in variants :: b
  }

  /** The dictionaries of `ms` applied one after the other with `dict.update`,
      a later one overwriting an earlier one. */
  function Overlay(ms: seq<map<string, string>>): map<string, string>
  {
    if |ms| == 0 then map[] else Overlay(ms[..|ms| - 1]) + ms[|ms| - 1]
  }

  /** The writes of each entry of the list, in order. */
  function Indexes(list: seq<string>, n: nat): (ms: seq<map<string, string>>)
    ensures |ms| == |list|
    ensures forall j :: 0 <= j < |list| ==> ms[j] == EntryIndex(list[j], n)
  {
    seq(|list|, j requires 0 <= j < |list| => EntryIndex(list[j], n))
  }

  /** The dictionary `get_mismatch_dict(seq_list, n)` returns. */
  function MismatchDict(list: seq<string>, n: nat): map<string, string>
  {
    Overlay(Indexes(list, n))
  }

  /** Updating with two dictionaries in turn is updating with their merge. */
  lemma UpdateAssociative(a: map<string, string>, b: map<string, string>, c: map<string, string>)
    ensures (a + b) + c == a + (b + c)
  {
  }

  lemma {:induction false} OverlayAppend(ms: seq<map<string, string>>, ns: seq<map<string, string>>)
    ensures Overlay(ms + ns) == Overlay(ms) + Overlay(ns)
  {
    if |ns| == 0 {
      assert ms + ns == ms;
    } else {
      var ns' := ns[..|ns| - 1];
      var last := ns[|ns| - 1];
      OverlayAppend(ms, ns');
      assert (ms + ns)[..|ms + ns| - 1] == ms + ns';
      assert (ms + ns)[|ms + ns| - 1] == last;
      assert Overlay(ms + ns) == Overlay(ms + ns') + last;
      UpdateAssociative(Overlay(ms), Overlay(ns'), last);
    }
  }

  /** A key of the overlay is a key of some dictionary, and its value comes
      from the last dictionary holding it. */
  lemma {:induction false} OverlayLastWins(ms: seq<map<string, string>>, t: string)
    ensures t in Overlay(ms) <==> exists j :: 0 <= j < |ms| && t in ms[j]
    ensures forall j :: 0 <= j < |ms| && t in ms[j] && (forall k :: j < k < |ms| ==> t !in ms[k]) ==>
      t in Overlay(ms) && Overlay(ms)[t] == ms[j][t]
  {
    if |ms| > 0 {
      var init := ms[..|ms| - 1];
      OverlayLastWins(init, t);
      assert forall j :: 0 <= j < |init| ==> init[j] == ms[j];
    }
  }

  lemma IndexesAppend(xs: seq<string>, ys: seq<string>, n: nat)
    ensures Indexes(xs + ys, n) == Indexes(xs, n) + Indexes(ys, n)
  {
  }

  /** Entry `j` is the last entry of `list` that owns `t`. */
  predicate LastOwner(list: seq<string>, t: string, n: nat, j: nat)
  {
    j < |list| && Owns(list[j], t, n) && forall k :: j < k < |list| ==> !Owns(list[k], t, n)
  }

  /** One more entry's writes applied on top. */
  lemma MismatchDictStep(list: seq<string>, k: nat, n: nat)
    requires k < |list|
    ensures MismatchDict(list[..k + 1], n) == MismatchDict(list[..k], n) + EntryIndex(list[k], n)
  {
    assert list[..k + 1] == list[..k] + [list[k]];
    IndexesAppend(list[..k], [list[k]], n);
    OverlayAppend(Indexes(list[..k], n), Indexes([list[k]], n));
    assert Indexes([list[k]], n)[..0] == [];
  }

  /** The inner loop of `get_mismatch_dict`: every variant is written into the
      dictionary with `b` as its value, overwriting what was there. */
  method AddVariants(d: map<string, string>, variants: set<string>, b: string) returns (d': map<string, string>)
    ensures d' == d + VariantIndex(variants, b)
  {
    var rest := variants;
    d' := d;
    while rest != {}
      invariant rest <= variants
      invariant d' == d + VariantIndex(variants - rest, b)
      decreases rest
    {
      var t :| t in rest;
      d' := d'[t := b];
      rest := rest - {t};
      assert VariantIndex(variants - rest, b) == VariantIndex(variants - (rest + {t}), b)[t := b];
    }
    assert variants - {} == variants;
  }

  /** One turn of `get_mismatch_dict`'s outer loop: a blank entry is skipped;
      otherwise the variants of the stripped entry are written. */
  method AddEntry(d: map<string, string>, entry: string, n: nat) returns (d': map<string, string>)
    ensures d' == d + EntryIndex(entry, n)
  {
    var b := Strip(entry);
    if b == "" {
      assert EntryIndex(entry, n) == map[];
      return d;
    }
    var variants := FindAllMismatch(b, n, DefaultBases);
    d' := AddVariants(d, variants, b);
  }

  /** `get_mismatch_dict`: the entries are processed in order, each one adding
      its variants on top of the dictionary built so far. */
  method GetMismatchDict(seqList: seq<string>, n: nat) returns (mismatchDict: map<string, string>)
    ensures mismatchDict == MismatchDict(seqList, n)
  {
    mismatchDict := map[];
    for k := 0 to |seqList|
      invariant mismatchDict == MismatchDict(seqList[..k], n)
    {
      MismatchDictStep(seqList, k, n);
      mismatchDict := AddEntry(mismatchDict, seqList[k], n);
    }
    assert seqList[..|seqList|] == seqList;
  }

  /** Entry `j` writes `t` exactly when it owns `t`, and writes its stripped text. */
  lemma IndexesOwns(list: seq<string>, n: nat, t: string, j: nat)
    requires j < |list|
    ensures t in Indexes(list, n)[j] <==> Owns(list[j], t, n)
    ensures t in Indexes(list, n)[j] ==> Indexes(list, n)[j][t] == Strip(list[j])
  {
    EntryIndexOwns(list[j], n, t);
  }

  /** The keys are exactly the variants some entry owns. */
  lemma MismatchDictKeys(list: seq<string>, n: nat, t: string)
    ensures t in MismatchDict(list, n) <==> exists j :: 0 <= j < |list| && Owns(list[j], t, n)
  {
    var ms := Indexes(list, n);
    OverlayLastWins(ms, t);
    if t in MismatchDict(list, n) {
      var j :| 0 <= j < |ms| && t in ms[j];
      IndexesOwns(list, n, t, j);
    }
    if exists j :: 0 <= j < |list| && Owns(list[j], t, n) {
      var j :| 0 <= j < |list| && Owns(list[j], t, n);
      IndexesOwns(list, n, t, j);
    }
  }

  /** A variant maps to the stripped text of the last entry that owns it: a
      later entry overwrites an earlier one. */
  lemma MismatchDictLastWins(list: seq<string>, n: nat, t: string, j: nat)
    requires LastOwner(list, t, n, j)
    ensures t in MismatchDict(list, n) && MismatchDict(list, n)[t] == Strip(list[j])
  {
    var ms := Indexes(list, n);
    OverlayLastWins(ms, t);
    IndexesOwns(list, n, t, j);
    forall k | j < k < |ms| ensures t !in ms[k] {
      IndexesOwns(list, n, t, k);
    }
  }

  /** The last dictionary of `ms` holding `t`. */
  lemma LastHolder(ms: seq<map<string, string>>, t: string) returns (j: nat)
    requires exists i :: 0 <= i < |ms| && t in ms[i]
    ensures j < |ms| && t in ms[j] && forall k :: j < k < |ms| ==> t !in ms[k]
    decreases |ms|
  {
    if t in ms[|ms| - 1] {
      j := |ms| - 1;
    } else {
      var init := ms[..|ms| - 1];
      var i :| 0 <= i < |ms| && t in ms[i];
      assert init[i] == ms[i];
      j := LastHolder(init, t);
      assert forall k :: 0 <= k < |init| ==> init[k] == ms[k];
    }
  }

  /** Every value is a stripped, non-blank entry of the list, and its key is one
      of that entry's variants. */
  lemma MismatchDictValues(list: seq<string>, n: nat, t: string)
    requires t in MismatchDict(list, n)
    ensures exists j :: 0 <= j < |list| && MismatchDict(list, n)[t] == Strip(list[j])
    ensures MismatchDict(list, n)[t] != "" && Strip(MismatchDict(list, n)[t]) == MismatchDict(list, n)[t]
    ensures IsMismatch(t, MismatchDict(list, n)[t], n, DefaultBases)
  {
    var ms := Indexes(list, n);
    OverlayLastWins(ms, t);
    var j := LastHolder(ms, t);
    assert MismatchDict(list, n)[t] == ms[j][t];
    assert ms[j] == EntryIndex(list[j], n);
    EntryIndexOwns(list[j], n, t);
    StripIdempotent(list[j]);
  }

  /** Applying the writes of two lists one after the other is the dictionary of
      their concatenation: what `dict.update` of two such dictionaries gives. */
  lemma MismatchDictAppend(xs: seq<string>, ys: seq<string>, n: nat)
    ensures MismatchDict(xs + ys, n) == MismatchDict(xs, n) + MismatchDict(ys, n)
  {
    IndexesAppend(xs, ys, n);
    OverlayAppend(Indexes(xs, n), Indexes(ys, n));
  }

  lemma {:induction false} DiffSkip(t: string, s: string, lo: nat, i: nat)
    requires |t| == |s| && lo <= i <= |s|
    requires forall k :: lo <= k < i ==> t[k] == s[k]
    ensures DiffFrom(t, s, lo) == DiffFrom(t, s, i)
    decreases i - lo
  {
    if lo < i {
      DiffSkip(t, s, lo + 1, i);
    }
  }

  lemma {:induction false} DiffMonotone(t: string, s: string, lo: nat, i: nat)
    requires |t| == |s| && lo <= i <= |s|
    ensures DiffFrom(t, s, lo) >= DiffFrom(t, s, i)
    decreases i - lo
  {
    if lo < i {
      DiffMonotone(t, s, lo + 1, i);
    }
  }

  /** Replacing one base of a string made of bases by another base gives one
      of its variants, for any positive mismatch budget. */
  lemma OneSubstitution(s: string, i: nat, c: char, n: nat, bases: string)
    requires i < |s| && 1 <= n
    requires forall k :: 0 <= k < |s| ==> s[k] in bases
    requires c in bases && c != s[i]
    ensures IsMismatch(s[i := c], s, n, bases)
  {
    var t := s[i := c];
    assert forall k :: 0 <= k < |s| ==> ChangeAt(t, s, bases, k);
    DiffSkip(t, s, 0, i);
    DiffZero(t, s, i + 1);
    assert Distance(t, s) == 1;
    BaseFromAll(t, bases, 0);
  }

  /** Two strings that differ at two positions are not variants of each other
      within one mismatch. */
  lemma TwoSubstitutions(t: string, s: string, i: nat, j: nat, n: nat, bases: string)
    requires |t| == |s| && i < j < |s| && n < 2
    requires t[i] != s[i] && t[j] != s[j]
    ensures !IsMismatch(t, s, n, bases)
  {
    DiffMonotone(t, s, 0, i);
    DiffMonotone(t, s, i + 1, j);
    assert Distance(t, s) >= 2;
  }

  /** The doctest of `get_mismatch_dict`: for `["AACGTGAT", "AAACATCG"]` the
      variant `AACGTGAA` maps to `AACGTGAT`. */
  lemma ExampleOwner(b: string, t: string)
    requires b == "AACGTGAT" && t == "AACGTGAA"
    ensures Owns(b, t, 1)
  {
    StripFixed(b);
    assert forall k :: 0 <= k < |b| ==> b[k] in DefaultBases;
    assert t == b[7 := 'A'];
    OneSubstitution(b, 7, 'A', 1, DefaultBases);
  }

  lemma ExampleNotOwner(b: string, t: string)
    requires b == "AAACATCG" && t == "AACGTGAA"
    ensures !Owns(b, t, 1)
  {
    StripFixed(b);
    TwoSubstitutions(t, b, 2, 3, 1, DefaultBases);
  }

  lemma GetMismatchDictExample(list: seq<string>, t: string)
    requires list == ["AACGTGAT", "AAACATCG"] && t == "AACGTGAA"
    ensures t in MismatchDict(list, 1) && MismatchDict(list, 1)[t] == "AACGTGAT"
  {
    ExampleOwner(list[0], t);
    ExampleNotOwner(list[1], t);
    assert LastOwner(list, t, 1, 0);
    MismatchDictLastWins(list, 1, t, 0);
    StripFixed(list[0]);
  }
}
