/** The lifecycle sweep compares creation stamps as strings. When that is age. */
module Sweep {
  import opened Wall
  import opened Order

  // ---------- decimal stamps ----------

  predicate IsDigit(c: char) {
    '0' <= c <= '9'
  }

  predicate Decimal(s: string) {
    forall i | 0 <= i < |s| :: IsDigit(s[i])
  }

  /** The number a string of digits writes. */
  function Value(s: string): nat
    requires Decimal(s)
  {
    if s == "" then 0 else 10 * Value(s[..|s| - 1]) + (s[|s| - 1] - '0') as nat
  }

  lemma {:induction false} LessSnoc(a: string, x: char, b: string, y: char)
    requires |a| == |b|
    ensures Less(a + [x], b + [y]) <==> Less(a, b) || (a == b && x < y)
  {
    if a == "" {
      assert a + [x] == [x] && b + [y] == [y];
      assert !Less([], []);
    } else {
      LessSnoc(a[1..], x, b[1..], y);
      assert (a + [x])[1..] == a[1..] + [x] && (b + [y])[1..] == b[1..] + [y];
      assert a == [a[0]] + a[1..] && b == [b[0]] + b[1..];
    }
  }

  /** Between stamps of equal length, string order is numeric order and equal numbers are
      equal stamps. */
  lemma {:induction false} EqualLengthsCompareNumerically(a: string, b: string)
    requires Decimal(a) && Decimal(b) && |a| == |b|
    ensures Less(a, b) <==> Value(a) < Value(b)
    ensures Value(a) == Value(b) ==> a == b
  {
    if a != "" {
      var n := |a| - 1;
      assert a == a[..n] + [a[n]] && b == b[..n] + [b[n]];
      EqualLengthsCompareNumerically(a[..n], b[..n]);
      LessSnoc(a[..n], a[n], b[..n], b[n]);
      LessIsTotal(a[..n], b[..n]);
    }
  }

  function Power10(n: nat): nat {
    if n == 0 then 1 else 10 * Power10(n - 1)
  }

  lemma {:induction false} ValueBounds(s: string)
    requires Decimal(s)
    ensures Value(s) < Power10(|s|)
    ensures s != "" && s[0] != '0' ==> Value(s) >= Power10(|s| - 1)
  {
    if s != "" {
      ValueBounds(s[..|s| - 1]);
    }
  }

  lemma {:induction false} Power10Grows(m: nat, n: nat)
    requires m <= n
    ensures Power10(m) <= Power10(n)
  {
    if m < n {
      Power10Grows(m, n - 1);
    }
  }

  lemma {:induction false} PrefixDecides(a: string, b: string)
    requires |a| < |b|
    ensures Less(a, b) <==> !Less(b[..|a|], a)
    ensures Less(b, a) <==> Less(b[..|a|], a)
  {
    if a == "" {
      assert b[..0] == "";
    } else {
      PrefixDecides(a[1..], b[1..]);
      assert b[..|a|][1..] == b[1..][..|a| - 1];
    }
  }

  predicate Canonical(s: string) {
    Decimal(s) && s != "" && s[0] != '0'
  }

  /** For stamps without leading zeros, string order decides which is older correctly, both
      ways round, exactly when they are equally long or the shorter does not exceed the
      start of the longer. */
  lemma ComparesNumericallyIff(shorter: string, longer: string)
    requires Canonical(shorter) && Canonical(longer) && |shorter| <= |longer|
    ensures && (Less(shorter, longer) <==> Value(shorter) < Value(longer))
            && (Less(longer, shorter) <==> Value(longer) < Value(shorter))
            <==> |shorter| == |longer| || !Less(longer[..|shorter|], shorter)
  {
    hide Less, Value, Power10;
    if |shorter| == |longer| {
      EqualLengthsCompareNumerically(shorter, longer);
      EqualLengthsCompareNumerically(longer, shorter);
    } else {
      PrefixDecides(shorter, longer);
      ValueBounds(shorter);
      ValueBounds(longer);
      Power10Grows(|shorter|, |longer| - 1);
    }
  }

  // ---------- the sweep ----------

  predicate Aged(m: Memory, cutoff: string) {
    m.source == AutoCapture && m.createdAt != "" && Less(m.createdAt, cutoff)
  }

  /** What the sweep leaves. */
  function Swept(rows: Rows, cutoff: string): Rows {
    map id | id in rows && !Aged(rows[id], cutoff) :: rows[id]
  }

  /** A row whose stamp is as long as the cutoff is removed exactly when it is auto-captured,
      stamped and numerically older, and otherwise left as it was. */
  lemma SweepsByAge(rows: Rows, cutoff: string, id: MemoryId)
    requires Decimal(cutoff) && id in rows
    requires rows[id].createdAt != "" ==> Decimal(rows[id].createdAt) && |rows[id].createdAt| == |cutoff|
    ensures id !in Swept(rows, cutoff) <==>
            rows[id].source == AutoCapture && rows[id].createdAt != "" && Value(rows[id].createdAt) < Value(cutoff)
    ensures id in Swept(rows, cutoff) ==> Swept(rows, cutoff)[id] == rows[id]
  {
    if rows[id].createdAt != "" {
      EqualLengthsCompareNumerically(rows[id].createdAt, cutoff);
    }
  }

  /** A ten-digit stamp sorts before a nine-digit one. */
  lemma LengthsCanDisagree()
    ensures Less("1000000000", "999999999") && Value("1000000000") > Value("999999999")
  {
    assert "1000000000"[..9] == "100000000";
    assert Less("100000000", "999999999");
    PrefixDecides("999999999", "1000000000");
    ValueBounds("999999999");
    ValueBounds("1000000000");
  }
}
