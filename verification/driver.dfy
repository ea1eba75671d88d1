/** The pure helpers of main.go: reading the `order` of a problem file from
    its name (NewInput), the comparator that sorts the problem files, and
    the number of restarts the worker gives a problem of n nodes. */
module Driver {
  import opened Sequences

  // ---------------------------------------------------------------------
  // strings.TrimSuffix and strings.Split
  // ---------------------------------------------------------------------

  /** strings.TrimSuffix: s without `suffix` when s ends with it, else s. */
  function TrimSuffix(s: string, suffix: string): (r: string)
    ensures |suffix| <= |s| && s[|s| - |suffix|..] == suffix ==> r + suffix == s
    ensures !(|suffix| <= |s| && s[|s| - |suffix|..] == suffix) ==> r == s
  {
    if |suffix| <= |s| && s[|s| - |suffix|..] == suffix then s[..|s| - |suffix|] else s
  }

  /** The suffix a name built as x + suffix loses is exactly that suffix. */
  lemma TrimSuffixOfAppend(x: string, suffix: string)
    ensures TrimSuffix(x + suffix, suffix) == x
  {
    assert (x + suffix)[|x|..] == suffix;
    assert (x + suffix)[..|x|] == x;
  }

  /** The pieces joined back together with `sep` between them. */
  function Join(pieces: seq<string>, sep: char): string
    requires |pieces| >= 1
  {
    if |pieces| == 1 then pieces[0] else pieces[0] + [sep] + Join(pieces[1..], sep)
  }

  /** strings.Split with a one-character separator: the pieces between the
      occurrences of `sep`, always at least one (an empty string gives one
      empty piece). */
  function Split(s: string, sep: char): (r: seq<string>)
    ensures |r| >= 1
    ensures forall t :: 0 <= t < |r| ==> sep !in r[t]
    ensures Join(r, sep) == s
    decreases |s|
  {
    if |s| == 0 then [""]
    else if s[0] == sep then
      var rest := Split(s[1..], sep);
      assert [s[0]] + s[1..] == s;
      [""] + rest
    else
      var rest := Split(s[1..], sep);
      var r := [[s[0]] + rest[0]] + rest[1..];
      assert r[1..] == rest[1..];
      assert s == [s[0]] + s[1..];
      r
  }

  /** Splitting a joined list of pieces that do not contain the separator
      gives the pieces back. */
  lemma {:induction false} SplitJoin(pieces: seq<string>, sep: char)
    requires |pieces| >= 1 && forall t :: 0 <= t < |pieces| ==> sep !in pieces[t]
    ensures Split(Join(pieces, sep), sep) == pieces
    decreases |pieces|, |pieces[0]|
  {
    var s := Join(pieces, sep);
    if |pieces[0]| == 0 {
      if |pieces| == 1 {
        assert s == "";
      } else {
        assert s == [sep] + Join(pieces[1..], sep);
        assert s[1..] == Join(pieces[1..], sep);
        SplitJoin(pieces[1..], sep);
        assert [""] + pieces[1..] == pieces;
      }
    } else {
      var c := pieces[0][0];
      assert c != sep;
      var tail := [pieces[0][1..]] + pieces[1..];
      assert tail[1..] == pieces[1..];
      assert Join(tail, sep) == s[1..] by {
        if |pieces| == 1 {
          assert s == pieces[0];
        } else {
          assert s == pieces[0] + [sep] + Join(pieces[1..], sep);
          assert s == [c] + (pieces[0][1..] + [sep] + Join(pieces[1..], sep));
        }
      }
      assert forall t :: 0 <= t < |tail| ==> sep !in tail[t] by {
        forall t | 0 <= t < |tail|
          ensures sep !in tail[t]
        {
          if t == 0 {
            assert forall x :: x in pieces[0][1..] ==> x in pieces[0];
          } else {
            assert tail[t] == pieces[t];
          }
        }
      }
      SplitJoin(tail, sep);
      assert s[0] == c;
      assert [[c] + pieces[0][1..]] + pieces[1..] == pieces by {
        assert [c] + pieces[0][1..] == pieces[0];
      }
    }
  }

  // ---------------------------------------------------------------------
  // strconv.Atoi
  // ---------------------------------------------------------------------

  const MinInt64: int := -0x8000_0000_0000_0000
  const MaxInt64: int := 0x7FFF_FFFF_FFFF_FFFF

  predicate IsDigit(c: char) { '0' <= c <= '9' }

  predicate AllDigits(s: string)
  {
    forall t :: 0 <= t < |s| ==> IsDigit(s[t])
  }

  /** The number a string of decimal digits denotes, most significant
      digit first. */
  function DigitsValue(s: string): (r: nat)
    requires AllDigits(s)
  {
    if |s| == 0 then 0
    else DigitsValue(s[..|s| - 1]) * 10 + (s[|s| - 1] as int - '0' as int)
  }

  /** The value of a sign ("", "+" or "-") followed by digits. */
  function SignedValue(sign: string, digits: string): int
    requires AllDigits(digits)
  {
    if sign == "-" then -(DigitsValue(digits) as int) else DigitsValue(digits)
  }

  /** s is a sign followed by a nonempty run of digits. */
  predicate SignAndDigits(s: string, sign: string, digits: string)
  {
    s == sign + digits && sign in {"", "+", "-"} && |digits| >= 1 && AllDigits(digits)
  }

  /** strconv.Atoi for a 64-bit int: an optional sign, then at least one
      decimal digit and nothing else, denoting a value in the int64 range;
      None for a syntax or range error. */
  function Atoi(s: string): (r: Option<int>)
    ensures r.Some? <==> exists sign: string, digits: string ::
      SignAndDigits(s, sign, digits) && MinInt64 <= SignedValue(sign, digits) <= MaxInt64
    ensures forall sign: string, digits: string :: SignAndDigits(s, sign, digits) && r.Some? ==>
      r.value == SignedValue(sign, digits)
    ensures r.Some? ==> MinInt64 <= r.value <= MaxInt64
  {
    var signed := |s| > 0 && (s[0] == '+' || s[0] == '-');
    var sign := if signed then s[..1] else "";
    var digits := if signed then s[1..] else s;
    assert s == sign + digits;
    assert forall sign': string, digits': string ::
      SignAndDigits(s, sign', digits') ==> sign' == sign && digits' == digits by {
      forall sign': string, digits': string | SignAndDigits(s, sign', digits')
        ensures sign' == sign && digits' == digits
      {
        SignSplit(s, sign', digits');
      }
    }
    if |digits| == 0 || !AllDigits(digits) then None
    else
      assert sign in {"", "+", "-"} by {
        if signed {
          assert sign == [s[0]];
        }
      }
      assert SignAndDigits(s, sign, digits);
      var v := SignedValue(sign, digits);
      if MinInt64 <= v <= MaxInt64 then Some(v) else None
  }

  /** A string splits in only one way into a sign and a nonempty run of
      digits: the sign is its first character when that is '+' or '-'. */
  lemma SignSplit(s: string, sign: string, digits: string)
    requires SignAndDigits(s, sign, digits)
    ensures |s| > 0
    ensures s[0] == '+' || s[0] == '-' ==> sign == s[..1] && digits == s[1..]
    ensures !(s[0] == '+' || s[0] == '-') ==> sign == "" && digits == s
  {
    if sign == "" {
      assert s == digits;
      assert IsDigit(digits[0]);
    } else {
      assert |sign| == 1 && s[0] == sign[0];
      assert s[..1] == sign;
      assert s[1..] == digits;
    }
  }

  /** The decimal rendering of a natural number, without leading zeros. */
  function Decimal(v: nat): (r: string)
    ensures |r| >= 1 && AllDigits(r) && DigitsValue(r) == v
    ensures r[0] != '0' || v == 0
    decreases v
  {
    var last := ['0' + (v % 10) as char];
    if v < 10 then last
    else
      var r := Decimal(v / 10) + last;
      assert r[..|r| - 1] == Decimal(v / 10);
      r
  }

  /** Atoi reads back what Decimal writes, within the int64 range. */
  lemma AtoiDecimal(v: nat)
    requires v <= MaxInt64
    ensures Atoi(Decimal(v)) == Some(v)
  {
    var d := Decimal(v);
    assert "" + d == d;
    assert SignAndDigits(d, "", d) && SignedValue("", d) == v;
  }

  /** A minus sign in front of Decimal(v) reads back as -v, down to the
      least int64. */
  lemma AtoiNegative(v: nat)
    requires 0 < v <= -MinInt64
    ensures Atoi("-" + Decimal(v)) == Some(-(v as int))
  {
    assert SignAndDigits("-" + Decimal(v), "-", Decimal(v));
  }

  /** Just past either end of the int64 range Atoi reports an error. */
  lemma AtoiOutOfRange()
    ensures Atoi(Decimal(MaxInt64 + 1)) == None
    ensures Atoi("-" + Decimal(-MinInt64 + 1)) == None
  {
    assert SignAndDigits(Decimal(MaxInt64 + 1), "", Decimal(MaxInt64 + 1));
    assert SignAndDigits("-" + Decimal(-MinInt64 + 1), "-", Decimal(-MinInt64 + 1));
  }

  // ---------------------------------------------------------------------
  // NewInput: the order of a problem file
  // ---------------------------------------------------------------------

  /** Atoi of every field, in order; None as soon as one fails, where
      NewInput calls log.Fatal. */
  function ParseFields(fields: seq<string>): (r: Option<seq<int>>)
    ensures r.Some? <==> forall t :: 0 <= t < |fields| ==> Atoi(fields[t]).Some?
    ensures r.Some? ==> |r.value| == |fields| && forall t :: 0 <= t < |fields| ==> Atoi(fields[t]) == Some(r.value[t])
  {
    if |fields| == 0 then Some([])
    else
      var head := Atoi(fields[0]);
      var rest := ParseFields(fields[1..]);
      if head.None? then None
      else if rest.None? then
        assert exists t :: 1 <= t < |fields| && Atoi(fields[t]).None? by {
          var t' :| 0 <= t' < |fields[1..]| && Atoi(fields[1..][t']).None?;
          assert fields[t' + 1] == fields[1..][t'];
        }
        None
      else
        var r := [head.value] + rest.value;
        assert forall t :: 1 <= t < |fields| ==> fields[t] == fields[1..][t - 1];
        Some(r)
  }

  /** The order NewInput reads from a file name: drop a ".txt" suffix,
      split at '-', drop the first two fields and convert the rest. None
      when there are fewer than two fields (the slice expression panics)
      or a field is not an int64 (log.Fatal). */
  function ParseOrder(fileName: string): (r: Option<seq<int>>)
    ensures var fields := Split(TrimSuffix(fileName, ".txt"), '-');
      r.Some? <==> |fields| >= 2 && forall t :: 2 <= t < |fields| ==> Atoi(fields[t]).Some?
    ensures var fields := Split(TrimSuffix(fileName, ".txt"), '-');
      r.Some? ==> |r.value| == |fields| - 2 && forall t :: 0 <= t < |r.value| ==> Atoi(fields[t + 2]) == Some(r.value[t])
  {
    var fields := Split(TrimSuffix(fileName, ".txt"), '-');
    if |fields| < 2 then None
    else
      var r := ParseFields(fields[2..]);
      assert forall t :: 2 <= t < |fields| ==> fields[t] == fields[2..][t - 2];
      r
  }

  /** The decimal renderings of a list of naturals. */
  function Decimals(vs: seq<nat>): (r: seq<string>)
    ensures |r| == |vs| && forall t :: 0 <= t < |vs| ==> r[t] == Decimal(vs[t])
  {
    if |vs| == 0 then [] else [Decimal(vs[0])] + Decimals(vs[1..])
  }

  /** The name of a problem file: two leading fields, then the order
      values, joined by '-', with the ".txt" extension. */
  function FileName(first: string, second: string, order: seq<nat>): string
  {
    Join([first, second] + Decimals(order), '-') + ".txt"
  }

  /** Reading the order back from a file name built from it: the first two
      fields may be anything without a '-', the values anything in the
      int64 range. */
  lemma ParseOrderOfFileName(first: string, second: string, order: seq<nat>)
    requires '-' !in first && '-' !in second
    requires forall t :: 0 <= t < |order| ==> order[t] <= MaxInt64
    ensures ParseOrder(FileName(first, second, order)) == Some(order)
  {
    var pieces := FieldsOfFileName(first, second, order);
    forall t | 2 <= t < |pieces|
      ensures Atoi(pieces[t]) == Some(order[t - 2])
    {
      assert pieces[t] == Decimal(order[t - 2]);
      AtoiDecimal(order[t - 2]);
    }
    var r := ParseOrder(FileName(first, second, order));
    assert r.Some? && |r.value| == |order|;
    forall t | 0 <= t < |order|
      ensures r.value[t] == order[t]
    {
      assert Atoi(pieces[t + 2]) == Some(r.value[t]);
    }
    assert r.value == order;
  }

  /** The fields NewInput splits a built file name into are the two
      leading fields and the renderings of the values. */
  lemma FieldsOfFileName(first: string, second: string, order: seq<nat>) returns (pieces: seq<string>)
    requires '-' !in first && '-' !in second
    ensures pieces == [first, second] + Decimals(order)
    ensures Split(TrimSuffix(FileName(first, second, order), ".txt"), '-') == pieces
  {
    pieces := [first, second] + Decimals(order);
    forall t | 0 <= t < |pieces|
      ensures '-' !in pieces[t]
    {
      if t >= 2 {
        assert pieces[t] == Decimal(order[t - 2]);
        assert AllDigits(pieces[t]);
      }
    }
    TrimSuffixOfAppend(Join(pieces, '-'), ".txt");
    SplitJoin(pieces, '-');
  }

  /** A name with a single field, and so nothing for the slice [2:] to
      start at, makes NewInput panic. */
  lemma ParseOrderOneField(name: string)
    requires '-' !in name
    ensures ParseOrder(name + ".txt") == None
  {
    TrimSuffixOfAppend(name, ".txt");
    SplitJoin([name], '-');
  }

  // ---------------------------------------------------------------------
  // The comparator of sort.Slice
  // ---------------------------------------------------------------------

  /** The number of order entries the comparator looks at. */
  const OrderKeys: nat := 5

  /** The two orders agree on their first k entries, and both have them. */
  predicate SamePrefix(a: seq<int>, b: seq<int>, k: nat)
  {
    k <= |a| && k <= |b| && forall t :: 0 <= t < k ==> a[t] == b[t]
  }

  /** The comparator's loop from key k on: true at the first key where a
      is smaller, false where it is larger or when all five keys agree;
      None when the loop indexes past the end of either order (a
      run-time panic). */
  function LessFrom(a: seq<int>, b: seq<int>, k: nat): (r: Option<bool>)
    requires k <= OrderKeys
    ensures r == Some(true) ==> exists d :: k <= d < OrderKeys && d < |a| && d < |b| && a[d] < b[d]
    ensures r == Some(false) ==>
      (exists d :: k <= d < OrderKeys && d < |a| && d < |b| && a[d] > b[d]) ||
      k == OrderKeys ||
      (OrderKeys <= |a| && OrderKeys <= |b| && forall t :: k <= t < OrderKeys ==> a[t] == b[t])
    decreases OrderKeys - k
  {
    if k == OrderKeys then Some(false)
    else if k >= |a| || k >= |b| then None
    else if a[k] < b[k] then Some(true)
    else if a[k] > b[k] then Some(false)
    else LessFrom(a, b, k + 1)
  }

  /** The comparator: is the order of a smaller than that of b? It is the
      lexicographic order on the first five keys, and it panics exactly
      when one order runs out before the two differ within five keys. */
  function Less(a: seq<int>, b: seq<int>): (r: Option<bool>)
    ensures r == Some(true) <==>
      exists d :: 0 <= d < OrderKeys && SamePrefix(a, b, d) && d < |a| && d < |b| && a[d] < b[d]
    ensures r.None? <==>
      exists d :: 0 <= d < OrderKeys && SamePrefix(a, b, d) && (d == |a| || d == |b|)
  {
    LessFromIsLexicographic(a, b, 0);
    LessFrom(a, b, 0)
  }

  /** The comparator is the lexicographic order on the first five keys:
      a is smaller exactly when at the first key where the two differ a's
      entry is smaller. It panics exactly when one order runs out before
      the two differ within five keys. */
  lemma {:induction false} LessFromIsLexicographic(a: seq<int>, b: seq<int>, k: nat)
    requires k <= OrderKeys && SamePrefix(a, b, k)
    ensures LessFrom(a, b, k) == Some(true) <==>
      exists d :: k <= d < OrderKeys && SamePrefix(a, b, d) && d < |a| && d < |b| && a[d] < b[d]
    ensures LessFrom(a, b, k).None? <==>
      exists d :: k <= d < OrderKeys && SamePrefix(a, b, d) && (d == |a| || d == |b|)
    decreases OrderKeys - k
  {
    if k < OrderKeys && k < |a| && k < |b| && a[k] == b[k] {
      LessFromIsLexicographic(a, b, k + 1);
      forall d | k < d && SamePrefix(a, b, d)
        ensures SamePrefix(a, b, d)
      {
      }
    }
  }

  /** Orders of five or more entries never make the comparator panic. */
  lemma {:induction false} LessDefined(a: seq<int>, b: seq<int>, k: nat)
    requires k <= OrderKeys <= |a| && OrderKeys <= |b|
    ensures LessFrom(a, b, k).Some?
    decreases OrderKeys - k
  {
    if k < OrderKeys && a[k] == b[k] {
      LessDefined(a, b, k + 1);
    }
  }

  /** Orders equal on their first five keys compare as not smaller, in
      particular every order compared with itself (irreflexivity). */
  lemma {:induction false} LessOfEqualKeys(a: seq<int>, b: seq<int>, k: nat)
    requires k <= OrderKeys <= |a| && OrderKeys <= |b|
    requires forall t :: k <= t < OrderKeys ==> a[t] == b[t]
    ensures LessFrom(a, b, k) == Some(false)
    decreases OrderKeys - k
  {
    if k < OrderKeys {
      LessOfEqualKeys(a, b, k + 1);
    }
  }

  lemma LessIrreflexive(a: seq<int>)
    requires OrderKeys <= |a|
    ensures Less(a, a) == Some(false)
  {
    LessOfEqualKeys(a, a, 0);
  }

  /** The comparator is asymmetric: if a is smaller than b, b is not
      smaller than a. */
  lemma {:induction false} LessFromAsymmetric(a: seq<int>, b: seq<int>, k: nat)
    requires k <= OrderKeys && LessFrom(a, b, k) == Some(true)
    ensures LessFrom(b, a, k) == Some(false)
    decreases OrderKeys - k
  {
    if k < OrderKeys && a[k] == b[k] {
      LessFromAsymmetric(a, b, k + 1);
    }
  }

  lemma LessAsymmetric(a: seq<int>, b: seq<int>)
    requires Less(a, b) == Some(true)
    ensures Less(b, a) == Some(false)
  {
    LessFromAsymmetric(a, b, 0);
  }

  /** The comparator is transitive. */
  lemma {:induction false} LessFromTransitive(a: seq<int>, b: seq<int>, c: seq<int>, k: nat)
    requires k <= OrderKeys && LessFrom(a, b, k) == Some(true) && LessFrom(b, c, k) == Some(true)
    ensures LessFrom(a, c, k) == Some(true)
    decreases OrderKeys - k
  {
    if k < OrderKeys && a[k] == b[k] && b[k] == c[k] {
      LessFromTransitive(a, b, c, k + 1);
    }
  }

  lemma LessTransitive(a: seq<int>, b: seq<int>, c: seq<int>)
    requires Less(a, b) == Some(true) && Less(b, c) == Some(true)
    ensures Less(a, c) == Some(true)
  {
    LessFromTransitive(a, b, c, 0);
  }

  // ---------------------------------------------------------------------
  // The restart count of the worker
  // ---------------------------------------------------------------------

  /** The most restarts any problem gets. */
  const MaxRestarts: nat := 1000

  /** 3 * 1000^3: three restarts for a problem of 1000 nodes, scaled by the
      cube of 1000/n. */
  const Budget: nat := 3_000_000_000

  function Cube(n: nat): nat { n * n * n }

  /** The least r with r * d >= x. */
  function CeilDiv(x: nat, d: nat): (r: nat)
    requires d > 0
    ensures r * d >= x
    ensures r == 0 || (r - 1) * d < x
  {
    var r := (x + d - 1) / d;
    var m := (x + d - 1) % d;
    assert d * r + m == x + d - 1 && 0 <= m < d;
    assert r * d == d * r;
    assert (r - 1) * d == r * d - d;
    r
  }

  /** The restarts for a problem of n nodes: min(1000, ceil(3 * (1000/n)^3)),
      in exact arithmetic; for n = 0 the factor is +Inf in the float
      computation, which the minimum caps at 1000. */
  function RestartCount(n: nat): (r: nat)
    ensures 1 <= r <= MaxRestarts
  {
    if n == 0 then MaxRestarts
    else
      CubeMonotone(1, n);
      var q := CeilDiv(Budget, Cube(n));
      if q < MaxRestarts then q else MaxRestarts
  }

  /** Below the cap the restart count is the ceiling of 3 * 10^9 / n^3, and
      it reaches the cap exactly when 999 restarts would not cover that
      budget. */
  lemma RestartCountIsCeiling(n: nat)
    requires n > 0
    ensures var r := RestartCount(n);
      r < MaxRestarts ==> r * Cube(n) >= Budget && (r - 1) * Cube(n) < Budget
    ensures RestartCount(n) == MaxRestarts <==> (MaxRestarts - 1) * Cube(n) < Budget
  {
    CubeMonotone(1, n);
    var c := Cube(n);
    var q := CeilDiv(Budget, c);
    if q < MaxRestarts {
      MulMonotone(q, c, MaxRestarts - 1, c);
    } else {
      MulMonotone(MaxRestarts - 1, c, q - 1, c);
    }
  }

  lemma CubeMonotone(n: nat, m: nat)
    requires n <= m
    ensures Cube(n) <= Cube(m)
  {
    assert n * n <= m * m by { MulMonotone(n, n, m, m); }
    MulMonotone(n * n, n, m * m, m);
  }

  lemma MulMonotone(a: nat, b: nat, c: nat, d: nat)
    requires a <= c && b <= d
    ensures a * b <= c * d
  {
    assert a * b <= c * b;
    assert c * b <= c * d;
  }

  /** A larger divisor gives a ceiling quotient no larger. */
  lemma CeilDivAntitone(x: nat, d: nat, e: nat)
    requires 0 < d <= e
    ensures CeilDiv(x, e) <= CeilDiv(x, d)
  {
    var p, q := CeilDiv(x, d), CeilDiv(x, e);
    if q > p {
      MulMonotone(p, d, q - 1, e);
    }
  }

  /** Problems with more nodes get no more restarts. */
  lemma RestartCountMonotone(n: nat, m: nat)
    requires n <= m
    ensures RestartCount(m) <= RestartCount(n)
  {
    if n > 0 {
      CubeMonotone(1, n);
      CubeMonotone(n, m);
      CeilDivAntitone(Budget, Cube(n), Cube(m));
    }
  }

  /** Up to 144 nodes every problem gets the full 1000 restarts; from 145
      nodes on fewer. */
  lemma RestartCountThreshold(n: nat)
    ensures n <= 144 ==> RestartCount(n) == MaxRestarts
    ensures n >= 145 ==> RestartCount(n) < MaxRestarts
  {
    if 0 < n <= 144 {
      RestartCountIsCeiling(n);
      CubeMonotone(n, 144);
      assert Cube(144) == 2_985_984;
      MulMonotone(MaxRestarts - 1, Cube(n), MaxRestarts - 1, Cube(144));
    } else if n >= 145 {
      RestartCountIsCeiling(n);
      CubeMonotone(145, n);
      assert Cube(145) == 3_048_625;
      MulMonotone(MaxRestarts - 1, Cube(145), MaxRestarts - 1, Cube(n));
    }
  }
}
