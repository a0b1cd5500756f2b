/** Lamport identifiers: their total order and the string keys that index them. */
module Uids {

  datatype UID = UID(clock: nat, siteId: string)

  const ROOT_UID := UID(0, "__root__")

  // ----- the order -----

  /** JavaScript's `<` on strings. */
  predicate StringLess(a: string, b: string) {
    if b == [] then false
    else if a == [] then true
    else a[0] < b[0] || (a[0] == b[0] && StringLess(a[1..], b[1..]))
  }

  /** Negative, zero or positive as `a` is below, equal to or above `b`. */
  function CompareUID(a: UID, b: UID): int {
    if a.clock != b.clock then a.clock - b.clock
    else if StringLess(a.siteId, b.siteId) then -1
    else if StringLess(b.siteId, a.siteId) then 1
    else 0
  }

  predicate Less(a: UID, b: UID) {
    CompareUID(a, b) < 0
  }

  lemma {:induction false} StringOrderTotal(a: string, b: string)
    ensures StringLess(a, b) ==> !StringLess(b, a)
    ensures !StringLess(a, b) && !StringLess(b, a) ==> a == b
    ensures StringLess(a, b) ==> a != b
  {
    if a != [] && b != [] && a[0] == b[0] {
      StringOrderTotal(a[1..], b[1..]);
      assert a == [a[0]] + a[1..] && b == [b[0]] + b[1..];
    }
  }

  lemma {:induction false} StringOrderTransitive(a: string, b: string, c: string)
    requires StringLess(a, b) && StringLess(b, c)
    ensures StringLess(a, c)
  {
    if a != [] && a[0] == b[0] == c[0] {
      StringOrderTransitive(a[1..], b[1..], c[1..]);
    }
  }

  /** `a` and `b` agree up to position `i`, where `a` has the smaller character. */
  predicate SmallerAt(a: string, b: string, i: nat) {
    i < |a| && i < |b| && a[..i] == b[..i] && a[i] < b[i]
  }

  /** From the characters: a string is below its extensions, and otherwise the first difference decides. */
  lemma {:induction false} StringLessIff(a: string, b: string)
    ensures StringLess(a, b) <==> a < b || exists i: nat :: SmallerAt(a, b, i)
  {
    if a != [] && b != [] && a[0] == b[0] {
      var x, y := a[1..], b[1..];
      StringLessIff(x, y);
      assert a == [a[0]] + x && b == [b[0]] + y;
      assert x < y <==> a < b;
      forall i: nat | SmallerAt(x, y, i)
        ensures SmallerAt(a, b, i + 1)
      {
        assert a[..i + 1] == [a[0]] + x[..i] && b[..i + 1] == [b[0]] + y[..i];
      }
      forall i: nat | SmallerAt(a, b, i)
        ensures i > 0 && SmallerAt(x, y, i - 1)
      {
        assert x[..i - 1] == a[..i][1..] && y[..i - 1] == b[..i][1..];
      }
    } else if a != [] && b != [] {
      assert a[0] < b[0] ==> SmallerAt(a, b, 0);
    }
  }

  /** The order of uids read off clocks and characters: smaller clock, then shorter, then smaller first difference. */
  lemma LessIff(u: UID, v: UID)
    ensures Less(u, v) <==>
      || u.clock < v.clock
      || (u.clock == v.clock && (u.siteId < v.siteId || exists i: nat :: SmallerAt(u.siteId, v.siteId, i)))
  {
    StringLessIff(u.siteId, v.siteId);
    StringOrderTotal(u.siteId, v.siteId);
  }

  lemma CompareIsTotal(a: UID, b: UID)
    ensures CompareUID(a, b) > 0 <==> Less(b, a)
    ensures CompareUID(a, b) == 0 <==> a == b
  {
    StringOrderTotal(a.siteId, b.siteId);
  }

  lemma LessAsymmetric(a: UID, b: UID)
    ensures Less(a, b) ==> !Less(b, a)
    ensures a != b ==> Less(a, b) || Less(b, a)
  {
    CompareIsTotal(a, b);
    CompareIsTotal(b, a);
  }

  lemma LessTransitive(a: UID, b: UID, c: UID)
    requires Less(a, b) && Less(b, c)
    ensures Less(a, c)
  {
    StringOrderTotal(a.siteId, b.siteId);
    StringOrderTotal(b.siteId, c.siteId);
    StringOrderTotal(a.siteId, c.siteId);
    if a.clock == b.clock == c.clock {
      StringOrderTransitive(a.siteId, b.siteId, c.siteId);
    }
  }

  /** compareUID is a strict total order; every proof about lists starts from here. */
  lemma TotalOrder()
    ensures forall a, b :: CompareUID(a, b) > 0 <==> Less(b, a)
    ensures forall a :: !Less(a, a)
    ensures forall a, b :: Less(a, b) ==> !Less(b, a)
    ensures forall a, b :: a != b ==> Less(a, b) || Less(b, a)
    ensures forall a, b, c :: Less(a, b) && Less(b, c) ==> Less(a, c)
  {
    forall a, b
      ensures CompareUID(a, b) > 0 <==> Less(b, a)
      ensures CompareUID(a, b) == 0 <==> a == b
    {
      CompareIsTotal(a, b);
    }
    forall a, b, c | Less(a, b) && Less(b, c)
      ensures Less(a, c)
    {
      LessTransitive(a, b, c);
    }
  }

  /** The largest uid of a finite nonempty set. */
  ghost function MaxUid(s: set<UID>): (m: UID)
    requires s != {}
    ensures m in s && forall x :: x in s && x != m ==> Less(x, m)
  {
    ExtremesExist(s);
    var m :| m in s && forall x :: x in s && x != m ==> Less(x, m);
    m
  }

  lemma {:induction false} ExtremesExist(s: set<UID>)
    requires s != {}
    ensures exists m :: m in s && forall x :: x in s && x != m ==> Less(x, m)
    ensures exists m :: m in s && forall x :: x in s && x != m ==> Less(m, x)
  {
    TotalOrder();
    var a :| a in s;
    var rest := s - {a};
    if rest == {} {
      assert s == {a};
    } else {
      ExtremesExist(rest);
      var hi :| hi in rest && forall x :: x in rest && x != hi ==> Less(x, hi);
      var lo :| lo in rest && forall x :: x in rest && x != lo ==> Less(lo, x);
      var hi' := if Less(hi, a) then a else hi;
      var lo' := if Less(a, lo) then a else lo;
      assert hi' in s && forall x :: x in s && x != hi' ==> Less(x, hi');
      assert lo' in s && forall x :: x in s && x != lo' ==> Less(lo', x);
    }
  }

  // ----- string keys -----

  const DIGITS := "0123456789"

  /** Decimal rendering of a number inside a template string. */
  function Decimal(n: nat): (s: string)
    ensures s != []
    ensures forall i :: 0 <= i < |s| ==> s[i] in DIGITS
  {
    if n < 10 then [DIGITS[n]] else Decimal(n / 10) + [DIGITS[n % 10]]
  }

  lemma {:induction false} DecimalInjective(m: nat, n: nat)
    requires Decimal(m) == Decimal(n)
    ensures m == n
  {
    var s, t := Decimal(m), Decimal(n);
    assert s[|s| - 1] == DIGITS[m % 10] && t[|t| - 1] == DIGITS[n % 10];
    assert m % 10 == n % 10;
    if m >= 10 && n >= 10 {
      assert s[..|s| - 1] == Decimal(m / 10) && t[..|t| - 1] == Decimal(n / 10);
      DecimalInjective(m / 10, n / 10);
    }
  }

  function UidKey(u: UID): string {
    Decimal(u.clock) + ":" + u.siteId
  }

  /** Two uids share an index key only when they are the same uid. */
  lemma UidKeyInjective(u: UID, v: UID)
    requires UidKey(u) == UidKey(v)
    ensures u == v
  {
    var a, b := Decimal(u.clock), Decimal(v.clock);
    var s, t := UidKey(u), UidKey(v);
    assert s[|a|] == ':' && t[|b|] == ':';
    assert forall i :: 0 <= i < |a| ==> s[i] == a[i] && a[i] != ':';
    assert forall i :: 0 <= i < |b| ==> t[i] == b[i] && b[i] != ':';
    assert |a| == |b|;
    assert a == s[..|a|] == b;
    assert u.siteId == s[|a| + 1..] == v.siteId;
    DecimalInjective(u.clock, v.clock);
  }
}
