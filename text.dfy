/** Strings as the dashboard uses them: Python's ordering of `str` values
    (for the sorted country list) and `%d` formatting (for chart titles). */
module Text {
  import opened Tables

  /** `a` and `b` agree on their first `k` characters, and there `a` ends
      while `b` goes on, or `a` has the smaller code point. */
  ghost predicate PrecedesAt(a: string, b: string, k: nat)
  {
    k <= |a| && k < |b| && a[..k] == b[..k] && (k == |a| || a[k] < b[k])
  }

  /** Python's `<` on `str`: lexicographic by code point, a proper prefix
      first. */
  function Less(a: string, b: string): (r: bool)
    ensures r <==> exists k: nat :: PrecedesAt(a, b, k)
  {
    if a == [] then
      assert b != [] ==> PrecedesAt(a, b, 0);
      b != []
    else if b == [] then false
    else if a[0] != b[0] then
      assert a[0] < b[0] ==> PrecedesAt(a, b, 0);
      assert forall k: nat :: PrecedesAt(a, b, k) ==> k == 0;
      a[0] < b[0]
    else
      var r := Less(a[1..], b[1..]);
      assert forall k: nat :: PrecedesAt(a[1..], b[1..], k) ==> PrecedesAt(a, b, k + 1) by {
        forall k: nat | PrecedesAt(a[1..], b[1..], k) ensures PrecedesAt(a, b, k + 1) {
          assert a[..k + 1] == [a[0]] + a[1..][..k];
          assert b[..k + 1] == [b[0]] + b[1..][..k];
        }
      }
      assert forall k: nat :: PrecedesAt(a, b, k) ==> k > 0 && PrecedesAt(a[1..], b[1..], k - 1) by {
        forall k: nat | PrecedesAt(a, b, k) ensures k > 0 && PrecedesAt(a[1..], b[1..], k - 1) {
          assert a[1..][..k - 1] == a[..k][1..];
          assert b[1..][..k - 1] == b[..k][1..];
        }
      }
      r
  }

  lemma {:induction false} LessIrreflexive(a: string)
    ensures !Less(a, a)
  {
    if a != [] {
      LessIrreflexive(a[1..]);
    }
  }

  lemma {:induction false} LessTransitive(a: string, b: string, c: string)
    requires Less(a, b) && Less(b, c)
    ensures Less(a, c)
  {
    if a != [] && a[0] == b[0] && b[0] == c[0] {
      LessTransitive(a[1..], b[1..], c[1..]);
    }
  }

  lemma {:induction false} LessTotal(a: string, b: string)
    requires a != b
    ensures Less(a, b) || Less(b, a)
  {
    if a != [] && b != [] && a[0] == b[0] {
      assert a == [a[0]] + a[1..] && b == [b[0]] + b[1..];
      LessTotal(a[1..], b[1..]);
    }
  }

  ghost predicate StrictlyIncreasing(s: seq<string>)
  {
    forall i, j :: 0 <= i < j < |s| ==> Less(s[i], s[j])
  }

  /** Adds `c` to a strictly increasing list unless it is already there. */
  function InsertName(c: string, s: seq<string>): (r: seq<string>)
    requires StrictlyIncreasing(s)
    ensures StrictlyIncreasing(r)
    ensures forall d :: d in r <==> d == c || d in s
  {
    if s == [] then [c]
    else if c == s[0] then s
    else if Less(c, s[0]) then
      assert forall j :: 0 <= j < |s| ==> Less(c, s[j]) by {
        forall j | 0 <= j < |s| ensures Less(c, s[j]) {
          if j > 0 { LessTransitive(c, s[0], s[j]); }
        }
      }
      [c] + s
    else
      var rest := InsertName(c, s[1..]);
      assert forall j :: 0 <= j < |rest| ==> Less(s[0], rest[j]) by {
        forall j | 0 <= j < |rest| ensures Less(s[0], rest[j]) {
          assert rest[j] in rest;
          if rest[j] == c {
            LessTotal(c, s[0]);
          } else {
            var k :| 0 <= k < |s[1..]| && s[1..][k] == rest[j];
            assert s[k + 1] == rest[j];
          }
        }
      }
      assert forall d :: d in s <==> d == s[0] || d in s[1..] by {
        assert s == [s[0]] + s[1..];
      }
      [s[0]] + rest
  }

  // ---------------------------------------------------------------------
  // Decimal formatting.

  predicate IsDigit(c: char)
  {
    '0' <= c <= '9'
  }

  function DigitChar(d: nat): (c: char)
    requires d < 10
    ensures IsDigit(c)
  {
    (48 + d) as char
  }

  function DigitValue(c: char): nat
    requires IsDigit(c)
  {
    c as int - 48
  }

  /** The decimal digits of `n`, without leading zeros. */
  function Decimal(n: nat): (s: string)
    ensures |s| >= 1
    ensures forall k :: 0 <= k < |s| ==> IsDigit(s[k])
    ensures s[0] == '0' <==> n == 0
    ensures n == 0 ==> s == "0"
  {
    if n < 10 then [DigitChar(n)] else Decimal(n / 10) + [DigitChar(n % 10)]
  }

  /** The number a string of decimal digits denotes. */
  function DecimalValue(s: string): nat
    requires forall k :: 0 <= k < |s| ==> IsDigit(s[k])
  {
    if s == [] then 0 else DecimalValue(s[..|s| - 1]) * 10 + DigitValue(s[|s| - 1])
  }

  lemma {:induction false} DecimalRoundTrip(n: nat)
    ensures DecimalValue(Decimal(n)) == n
  {
    if n >= 10 {
      DecimalRoundTrip(n / 10);
      var s := Decimal(n);
      assert s[..|s| - 1] == Decimal(n / 10);
    }
  }

  /** The shape of a `%d` rendering: an optional minus sign, then one or more
      digits with no leading zero, where "0" alone stands for zero and "-0"
      never occurs. */
  ghost predicate Canonical(s: string)
  {
    var d := if |s| > 0 && s[0] == '-' then 1 else 0;
    |s| > d && (forall k :: d <= k < |s| ==> IsDigit(s[k])) && (s[d] == '0' ==> s == "0")
  }

  /** Python's `"%d" % i`: a minus sign exactly for negative numbers, then
      the digits of the magnitude without leading zeros; it reads back as `i`. */
  function IntDecimal(i: int): (s: string)
    ensures |s| >= 1 && (s[0] == '-' <==> i < 0)
    ensures Canonical(s)
    ensures IntValue(s) == Some(i)
  {
    if i < 0 then
      var s := "-" + Decimal(-i);
      DecimalRoundTrip(-i);
      assert s[1..] == Decimal(-i);
      s
    else
      DecimalRoundTrip(i);
      Decimal(i)
  }

  /** The integer a `%d` rendering denotes, or `None` for other text. */
  function IntValue(s: string): (v: Option<int>)
  {
    if |s| > 1 && s[0] == '-' && forall k :: 1 <= k < |s| ==> IsDigit(s[k]) then Some(-(DecimalValue(s[1..]) as int))
    else if |s| > 0 && forall k :: 0 <= k < |s| ==> IsDigit(s[k]) then Some(DecimalValue(s) as int)
    else None
  }
}
