/** Strings as the journal orders, numbers and splits them. */
module Text {

  /** Order by code point, a proper prefix first. */
  predicate StringLess(a: string, b: string) {
    b != [] && (a == [] || a[0] < b[0] || (a[0] == b[0] && StringLess(a[1..], b[1..])))
  }

  /** Up to some place they are the same; there the first ends, or has the lesser character. */
  ghost predicate DiffersAt(a: string, b: string, k: nat) {
    k <= |a| && k < |b| && a[..k] == b[..k] && (k == |a| || a[k] < b[k])
  }

  lemma {:induction false} StringLessMeaning(a: string, b: string)
    ensures StringLess(a, b) <==> exists k: nat :: DiffersAt(a, b, k)
  {
    if b != [] && (a == [] || a[0] < b[0]) {
      assert DiffersAt(a, b, 0);
    } else if a != [] && b != [] && a[0] == b[0] {
      StringLessMeaning(a[1..], b[1..]);
      if k: nat :| DiffersAt(a[1..], b[1..], k) {
        DiffersLater(a, b, k);
      }
      if k: nat :| DiffersAt(a, b, k) {
        assert k != 0;
        assert a[1..][..k - 1] == a[..k][1..] && b[1..][..k - 1] == b[..k][1..];
        assert DiffersAt(a[1..], b[1..], k - 1);
      }
    } else if k: nat :| DiffersAt(a, b, k) {
      FirstDiffers(a, b, k);
    }
  }

  lemma DiffersLater(a: string, b: string, k: nat)
    requires a != [] && b != [] && a[0] == b[0] && DiffersAt(a[1..], b[1..], k)
    ensures DiffersAt(a, b, k + 1)
  {
    assert a[..k + 1] == [a[0]] + a[1..][..k] && b[..k + 1] == [b[0]] + b[1..][..k];
  }

  lemma FirstDiffers(a: string, b: string, k: nat)
    requires DiffersAt(a, b, k)
    ensures b != [] && (a == [] || a[0] < b[0] || a[0] == b[0])
  {
    if k > 0 {
      assert a[..k][0] == b[..k][0];
    }
  }

  lemma {:induction false} StringLessTotal(a: string, b: string)
    ensures a == b || StringLess(a, b) || StringLess(b, a)
    ensures !(StringLess(a, b) && StringLess(b, a)) && !StringLess(a, a)
  {
    if a != [] && b != [] && a[0] == b[0] {
      StringLessTotal(a[1..], b[1..]);
      assert a == [a[0]] + a[1..] && b == [b[0]] + b[1..];
    }
    if a != [] {
      StringLessTotal(a[1..], a[1..]);
    }
  }

  lemma {:induction false} StringLessTransitive(a: string, b: string, c: string)
    requires StringLess(a, b) && StringLess(b, c)
    ensures StringLess(a, c)
  {
    if a != [] && a[0] == b[0] == c[0] {
      StringLessTransitive(a[1..], b[1..], c[1..]);
    }
  }

  /** The smallest of a set of strings. */
  lemma {:induction false} SmallestExists(s: set<string>) returns (least: string)
    requires s != {}
    ensures least in s && forall x :: x in s && x != least ==> StringLess(least, x)
    decreases |s|
  {
    least :| least in s;
    var rest := s - {least};
    if rest != {} {
      var other := SmallestExists(rest);
      StringLessTotal(least, other);
      var candidate := if StringLess(other, least) then other else least;
      forall x | x in s && x != candidate ensures StringLess(candidate, x) {
        if x != least && x != other {
          StringLessTransitive'(candidate, other, x);
        }
      }
      least := candidate;
    }
  }

  lemma StringLessTransitive'(a: string, b: string, c: string)
    requires (a == b || StringLess(a, b)) && StringLess(b, c)
    ensures StringLess(a, c)
  {
    if a != b {
      StringLessTransitive(a, b, c);
    }
  }

  function Least(s: set<string>): (least: string)
    requires s != {}
    ensures least in s && forall x :: x in s && x != least ==> StringLess(least, x)
  {
    HasSmallest(s);
    var least :| least in s && forall x :: x in s && x != least ==> StringLess(least, x);
    least
  }

  lemma HasSmallest(s: set<string>)
    requires s != {}
    ensures exists least :: least in s && forall x :: x in s && x != least ==> StringLess(least, x)
    ensures forall a, b :: StringLess(a, b) ==> !StringLess(b, a)
  {
    var least := SmallestExists(s);
    forall a, b | StringLess(a, b) ensures !StringLess(b, a) {
      StringLessTotal(a, b);
    }
  }

  ghost predicate Increasing(r: seq<string>) {
    forall i, j :: 0 <= i < j < |r| ==> StringLess(r[i], r[j])
  }

  /** The strings of a set in increasing order. */
  function Sorted(s: set<string>): (r: seq<string>)
    ensures forall x :: x in r <==> x in s
    ensures |r| == |s| && Increasing(r)
    decreases |s|
  {
    if s == {} then []
    else
      var least := Least(s);
      var rest := Sorted(s - {least});
      IncreasingCons(least, rest);
      [least] + rest
  }

  lemma IncreasingCons(x: string, r: seq<string>)
    requires Increasing(r) && forall y :: y in r ==> StringLess(x, y)
    ensures Increasing([x] + r)
  {
    hide StringLess;
    assert forall i :: 0 <= i < |r| ==> r[i] in r;
  }

  // ----- Decimal numerals

  function Digit(d: nat): char
    requires d < 10
  {
    '0' + d as char
  }

  predicate IsDigit(c: char) {
    '0' <= c <= '9'
  }

  function Decimal(n: nat): (s: string)
    ensures |s| > 0 && forall c :: c in s ==> IsDigit(c)
  {
    if n < 10 then [Digit(n)] else Decimal(n / 10) + [Digit(n % 10)]
  }

  /** The number a string of digits denotes. */
  function ParseDecimal(s: string): nat
    requires forall c :: c in s ==> IsDigit(c)
  {
    if s == [] then 0
    else
      assert IsDigit(s[|s| - 1]);
      10 * ParseDecimal(s[..|s| - 1]) + (s[|s| - 1] as int - '0' as int)
  }

  function Pow10(n: nat): (p: nat) {
    if n == 0 then 1 else 10 * Pow10(n - 1)
  }

  lemma TimesTen(c: int, p: int)
    ensures c * (10 * p) == 10 * (c * p)
  {
  }

  /** The leading digit counts for its place. */
  lemma {:induction false} LeadingDigit(c: char, s: string)
    requires IsDigit(c) && forall d :: d in s ==> IsDigit(d)
    ensures ParseDecimal([c] + s) == (c as int - '0' as int) * Pow10(|s|) + ParseDecimal(s)
  {
    var n := |s|;
    if n == 0 {
      assert [c] + s == [c] && [c][..0] == [];
    } else {
      var rest := s[..n - 1];
      LeadingDigit(c, rest);
      assert ([c] + s)[..n] == [c] + rest;
      assert IsDigit(s[n - 1]);
      TimesTen(c as int - '0' as int, Pow10(n - 1));
    }
  }

  lemma {:induction false} ParseDecimalRoundTrip(n: nat)
    ensures ParseDecimal(Decimal(n)) == n
  {
    if n >= 10 {
      ParseDecimalRoundTrip(n / 10);
      var s := Decimal(n / 10);
      assert Decimal(n)[..|s|] == s;
    } else {
      assert Decimal(n)[..0] == [];
    }
  }

  lemma DecimalInjective(m: nat, n: nat)
    requires Decimal(m) == Decimal(n)
    ensures m == n
  {
    ParseDecimalRoundTrip(m);
    ParseDecimalRoundTrip(n);
  }

  // ----- White space

  /** The characters Python's str.strip() removes. */
  predicate IsSpace(c: char) {
    || '\t' <= c <= '\r'
    || '\U{1C}' <= c <= ' '
    || c == '\U{85}'
    || c == '\U{A0}'
    || c == '\U{1680}'
    || '\U{2000}' <= c <= '\U{200A}'
    || c == '\U{2028}'
    || c == '\U{2029}'
    || c == '\U{202F}'
    || c == '\U{205F}'
    || c == '\U{3000}'
  }

  function StripLeft(s: string): string {
    if s != [] && IsSpace(s[0]) then StripLeft(s[1..]) else s
  }

  function StripRight(s: string): string {
    if s != [] && IsSpace(s[|s| - 1]) then StripRight(s[..|s| - 1]) else s
  }

  function Strip(s: string): string {
    StripRight(StripLeft(s))
  }
}
