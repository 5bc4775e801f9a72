/**
 * JavaScript's `<` on two strings: lexicographic order of their characters,
 * a proper prefix coming first. The submission handler (server.js) rejects
 * a slot when `date < today`, on the "YYYY-MM-DD" texts.
 */
module StringOrder {
  import opened Clock

  predicate LessThan(a: string, b: string)
    decreases |a|
  {
    if |b| == 0 then false
    else if |a| == 0 then true
    else if a[0] != b[0] then a[0] < b[0]
    else LessThan(a[1..], b[1..])
  }

  lemma {:induction false} LessThanIrreflexive(a: string)
    ensures !LessThan(a, a)
  {
    if |a| > 0 {
      LessThanIrreflexive(a[1..]);
    }
  }

  lemma {:induction false} LessThanTransitive(a: string, b: string, c: string)
    requires LessThan(a, b) && LessThan(b, c)
    ensures LessThan(a, c)
    decreases |a|
  {
    if |a| > 0 && a[0] == b[0] && b[0] == c[0] {
      LessThanTransitive(a[1..], b[1..], c[1..]);
    }
  }

  /** Any two different strings are ordered one way or the other, never both. */
  lemma {:induction false} LessThanTrichotomy(a: string, b: string)
    ensures a == b || LessThan(a, b) || LessThan(b, a)
    ensures !(LessThan(a, b) && LessThan(b, a))
    decreases |a|
  {
    if |a| > 0 && |b| > 0 && a[0] == b[0] {
      LessThanTrichotomy(a[1..], b[1..]);
      if a[1..] == b[1..] {
        assert a == [a[0]] + a[1..] && b == [b[0]] + b[1..];
      }
    }
  }

  /** A common prefix does not change the order. */
  lemma {:induction false} LessThanCommonPrefix(p: string, a: string, b: string)
    ensures LessThan(p + a, p + b) == LessThan(a, b)
    decreases |p|
  {
    if |p| > 0 {
      assert (p + a)[0] == p[0] == (p + b)[0];
      assert (p + a)[1..] == p[1..] + a;
      assert (p + b)[1..] == p[1..] + b;
      LessThanCommonPrefix(p[1..], a, b);
    } else {
      assert p + a == a && p + b == b;
    }
  }

  /** When the first parts have the same length and differ, they alone decide. */
  lemma {:induction false} LessThanDifferentHeads(a: string, x: string, b: string, y: string)
    requires |a| == |b| && a != b
    ensures LessThan(a + x, b + y) == LessThan(a, b)
    decreases |a|
  {
    assert |a| > 0;
    assert a == [a[0]] + a[1..] && b == [b[0]] + b[1..];
    if a[0] == b[0] {
      assert a[1..] != b[1..];
      assert (a + x)[1..] == a[1..] + x;
      assert (b + y)[1..] == b[1..] + y;
      LessThanDifferentHeads(a[1..], x, b[1..], y);
    }
  }

  predicate IsDigits(s: string)
  {
    forall i :: 0 <= i < |s| ==> IsDigit(s[i])
  }

  function Pow10(n: nat): (r: nat)
    ensures r >= 1
  {
    if n == 0 then 1 else 10 * Pow10(n - 1)
  }

  /** The number a string of decimal digits denotes. */
  function DigitsValue(s: string): (r: nat)
    requires IsDigits(s)
    ensures r < Pow10(|s|)
  {
    if |s| == 0 then 0
    else
      var rest := DigitsValue(s[1..]);
      HeadBound(DigitValue(s[0]), 10, Pow10(|s| - 1), rest, 0);
      DigitValue(s[0]) * Pow10(|s| - 1) + rest
  }

  lemma HeadBound(d: nat, e: nat, p: nat, r: nat, q: nat)
    requires d < e && r < p && q >= 0
    ensures d * p + r < e * p + q
  {
    assert (d + 1) * p <= e * p;
  }

  /** On digit strings of one length, the string order is the numeric order. */
  lemma {:induction false} DigitsOrder(a: string, b: string)
    requires IsDigits(a) && IsDigits(b) && |a| == |b|
    ensures LessThan(a, b) <==> DigitsValue(a) < DigitsValue(b)
    decreases |a|
  {
    if |a| > 0 {
      var p := Pow10(|a| - 1);
      if a[0] == b[0] {
        DigitsOrder(a[1..], b[1..]);
      } else if a[0] < b[0] {
        HeadBound(DigitValue(a[0]), DigitValue(b[0]), p, DigitsValue(a[1..]), DigitsValue(b[1..]));
      } else {
        HeadBound(DigitValue(b[0]), DigitValue(a[0]), p, DigitsValue(b[1..]), DigitsValue(a[1..]));
      }
    }
  }

  /** A date written "YYYY-MM-DD", the form `toISOString().split('T')[0]` yields. */
  predicate IsIsoDate(s: string)
  {
    |s| == 10 && s[4] == '-' && s[7] == '-'
    && IsDigits(s[..4]) && IsDigits(s[5..7]) && IsDigits(s[8..])
  }

  function Year(s: string): nat requires IsIsoDate(s) { DigitsValue(s[..4]) }
  function Month(s: string): nat requires IsIsoDate(s) { DigitsValue(s[5..7]) }
  function Day(s: string): nat requires IsIsoDate(s) { DigitsValue(s[8..]) }

  /** Calendar order of two ISO dates: by year, then month, then day. */
  predicate EarlierDate(a: string, b: string)
    requires IsIsoDate(a) && IsIsoDate(b)
  {
    Year(a) < Year(b)
    || (Year(a) == Year(b) && Month(a) < Month(b))
    || (Year(a) == Year(b) && Month(a) == Month(b) && Day(a) < Day(b))
  }

  /**
   * For well-formed ISO dates the handler's string comparison is the
   * calendar comparison: `date < today` holds exactly when `date` is an
   * earlier day.
   */
  lemma IsoDateOrder(a: string, b: string)
    requires IsIsoDate(a) && IsIsoDate(b)
    ensures LessThan(a, b) <==> EarlierDate(a, b)
  {
    var ya, yb := a[..4], b[..4];
    var ma, mb := a[5..7], b[5..7];
    var da, db := a[8..], b[8..];
    assert a == ya + (['-'] + ma + (['-'] + da));
    assert b == yb + (['-'] + mb + (['-'] + db));
    DigitsOrder(ya, yb);
    DigitsOrder(ma, mb);
    DigitsOrder(da, db);
    if ya != yb {
      LessThanDifferentHeads(ya, ['-'] + ma + (['-'] + da), yb, ['-'] + mb + (['-'] + db));
      assert DigitsValue(ya) != DigitsValue(yb) by { LessThanTrichotomy(ya, yb); DigitsOrder(yb, ya); }
    } else {
      LessThanCommonPrefix(ya + ['-'], ma + (['-'] + da), mb + (['-'] + db));
      assert a == (ya + ['-']) + (ma + (['-'] + da));
      assert b == (ya + ['-']) + (mb + (['-'] + db));
      if ma != mb {
        LessThanDifferentHeads(ma, ['-'] + da, mb, ['-'] + db);
        assert DigitsValue(ma) != DigitsValue(mb) by { LessThanTrichotomy(ma, mb); DigitsOrder(mb, ma); }
      } else {
        LessThanCommonPrefix(ma + ['-'], da, db);
        assert ma + (['-'] + da) == (ma + ['-']) + da;
        assert mb + (['-'] + db) == (ma + ['-']) + db;
      }
    }
  }
}
