/** The object-store key scheme of both routers: `f"{user_id}/{filename}"`,
    where the user id is rendered as Python's `str` renders an integer. */
module ObjectKeys {

  predicate IsDigitChar(c: char)
  {
    '0' <= c <= '9'
  }

  function DigitChar(d: nat): (c: char)
    requires d < 10
    ensures IsDigitChar(c)
  {
    (('0' as int) + d) as char
  }

  /** The decimal numeral of a natural number, without leading zeros. */
  function NatToDecimal(n: nat): (s: string)
    ensures |s| >= 1
    ensures forall i :: 0 <= i < |s| ==> IsDigitChar(s[i])
    ensures |s| == 1 <==> n < 10
    decreases n
  {
    if n < 10 then [DigitChar(n)] else NatToDecimal(n / 10) + [DigitChar(n % 10)]
  }

  /** `str(n)` for a Python integer: a minus sign before negative numbers. */
  function IntToDecimal(n: int): (s: string)
    ensures |s| >= 1
    ensures forall i :: 0 <= i < |s| ==> s[i] != '/'
    ensures s[0] == '-' <==> n < 0
  {
    if n < 0 then "-" + NatToDecimal(-n) else NatToDecimal(n)
  }

  /** The key under which a user's file is stored. */
  function ObjectKey(userId: int, filename: string): string
  {
    IntToDecimal(userId) + "/" + filename
  }

  /** Different numbers have different numerals. */
  lemma {:induction false} NatToDecimalInjective(a: nat, b: nat)
    requires NatToDecimal(a) == NatToDecimal(b)
    ensures a == b
    decreases a
  {
    var sa, sb := NatToDecimal(a), NatToDecimal(b);
    if a >= 10 && b >= 10 {
      var pa, pb := NatToDecimal(a / 10), NatToDecimal(b / 10);
      assert sa == pa + [DigitChar(a % 10)];
      assert sb == pb + [DigitChar(b % 10)];
      assert |pa| == |pb|;
      assert sa[|pa|] == DigitChar(a % 10) && sb[|pb|] == DigitChar(b % 10);
      assert a % 10 == b % 10;
      assert pa == sa[..|pa|] == sb[..|pb|] == pb;
      NatToDecimalInjective(a / 10, b / 10);
    } else if a < 10 && b < 10 {
      assert sa[0] == DigitChar(a) && sb[0] == DigitChar(b);
    }
  }

  lemma IntToDecimalInjective(a: int, b: int)
    requires IntToDecimal(a) == IntToDecimal(b)
    ensures a == b
  {
    var sa, sb := IntToDecimal(a), IntToDecimal(b);
    if a < 0 && b < 0 {
      assert NatToDecimal(-a) == sa[1..] == sb[1..] == NatToDecimal(-b);
      NatToDecimalInjective(-a, -b);
    } else if a >= 0 && b >= 0 {
      NatToDecimalInjective(a, b);
    }
  }

  /** The position of the first '/' in a string (its length if there is none). */
  function IndexOfSlash(s: string): (i: nat)
    ensures i <= |s|
  {
    if s == [] || s[0] == '/' then 0 else 1 + IndexOfSlash(s[1..])
  }

  lemma {:induction false} IndexOfSlashAfterPrefix(p: string, r: string)
    requires forall i :: 0 <= i < |p| ==> p[i] != '/'
    ensures IndexOfSlash(p + "/" + r) == |p|
  {
    if p != [] {
      assert (p + "/" + r)[1..] == p[1..] + "/" + r;
      IndexOfSlashAfterPrefix(p[1..], r);
    }
  }

  /** Splitting at the first separator: a prefix free of '/' is recovered
      from `prefix + "/" + rest`. */
  lemma SplitAtFirstSlash(p1: string, r1: string, p2: string, r2: string)
    requires forall i :: 0 <= i < |p1| ==> p1[i] != '/'
    requires forall i :: 0 <= i < |p2| ==> p2[i] != '/'
    requires p1 + "/" + r1 == p2 + "/" + r2
    ensures p1 == p2 && r1 == r2
  {
    var k := p1 + "/" + r1;
    IndexOfSlashAfterPrefix(p1, r1);
    IndexOfSlashAfterPrefix(p2, r2);
    assert p1 == k[..|p1|] == p2;
    assert r1 == k[|p1| + 1..] == r2;
  }

  /** No two (user, file name) pairs share a key: a write or delete under one
      user's key never touches another user's object or another name. */
  lemma ObjectKeyInjective(u1: int, f1: string, u2: int, f2: string)
    requires ObjectKey(u1, f1) == ObjectKey(u2, f2)
    ensures u1 == u2 && f1 == f2
  {
    SplitAtFirstSlash(IntToDecimal(u1), f1, IntToDecimal(u2), f2);
    IntToDecimalInjective(u1, u2);
  }
}
