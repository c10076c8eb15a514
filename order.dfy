/** Go's `<` on strings, and strictly ascending sequences of strings kept by sorted insertion. */
module Order {

  /**
   * `a` sorts strictly before `b`: code points compared left to right, a
   * proper prefix first. On valid UTF-8 this is the byte order Go's `<` and
   * `sort.Strings` use.
   */
  predicate Less(a: string, b: string) {
    b != [] && (a == [] || a[0] < b[0] || (a[0] == b[0] && Less(a[1..], b[1..])))
  }

  lemma {:induction false} LessIrreflexive(a: string)
    ensures !Less(a, a)
  {
    if a != [] {
      LessIrreflexive(a[1..]);
    }
  }

  lemma {:induction false} LessAsymmetric(a: string, b: string)
    requires Less(a, b)
    ensures !Less(b, a)
  {
    if a != [] && a[0] == b[0] {
      LessAsymmetric(a[1..], b[1..]);
    }
  }

  lemma {:induction false} LessTransitive(a: string, b: string, c: string)
    requires Less(a, b) && Less(b, c)
    ensures Less(a, c)
  {
    if a != [] && a[0] == b[0] && b[0] == c[0] {
      LessTransitive(a[1..], b[1..], c[1..]);
    }
  }

  lemma {:induction false} LessTotal(a: string, b: string)
    ensures a == b || Less(a, b) || Less(b, a)
  {
    if a != [] && b != [] && a[0] == b[0] {
      LessTotal(a[1..], b[1..]);
      assert a == [a[0]] + a[1..];
      assert b == [b[0]] + b[1..];
    }
  }

  /** Nothing sorts before the empty string. */
  lemma EmptyIsLeast(a: string)
    ensures !Less(a, "")
  {
  }

  predicate StrictlySorted(s: seq<string>) {
    forall i, j :: 0 <= i < j < |s| ==> Less(s[i], s[j])
  }

  lemma {:induction false} BelowAll(x: string, s: seq<string>)
    requires StrictlySorted(s) && s != [] && Less(x, s[0])
    ensures forall j :: 0 <= j < |s| ==> Less(x, s[j])
    ensures x !in s
  {
    forall j | 0 < j < |s|
      ensures Less(x, s[j])
    {
      LessTransitive(x, s[0], s[j]);
    }
    LessIrreflexive(x);
  }

  /**
   * `x` added to a strictly ascending sequence, which stays strictly
   * ascending; an `x` already present leaves the sequence as it was.
   */
  function Insert(s: seq<string>, x: string): (r: seq<string>)
    requires StrictlySorted(s)
    ensures StrictlySorted(r)
    ensures forall y :: y in r <==> y in s || y == x
    ensures x in s ==> r == s
  {
    if s == [] then [x]
    else if x == s[0] then s
    else if Less(x, s[0]) then
      BelowAll(x, s);
      [x] + s
    else
      LessTotal(x, s[0]);
      var rest := Insert(s[1..], x);
      InsertLater(s, x, rest);
      [s[0]] + rest
  }

  /** Inserting after the first element: the first element stays in front of the rest. */
  lemma InsertLater(s: seq<string>, x: string, rest: seq<string>)
    requires StrictlySorted(s) && s != [] && Less(s[0], x)
    requires StrictlySorted(rest) && (forall y :: y in rest <==> y in s[1..] || y == x)
    requires x in s[1..] ==> rest == s[1..]
    ensures StrictlySorted([s[0]] + rest)
    ensures forall y :: y in [s[0]] + rest <==> y in s || y == x
    ensures x in s ==> [s[0]] + rest == s
  {
    var r := [s[0]] + rest;
    forall y | y in rest
      ensures Less(s[0], y)
    {
      if y != x {
        var k :| 0 <= k < |s[1..]| && s[1..][k] == y;
        assert y == s[k + 1];
      }
    }
    forall i, j | 0 <= i < j < |r|
      ensures Less(r[i], r[j])
    {
      if i == 0 {
        assert r[j] in rest;
      } else {
        assert r[i] == rest[i - 1] && r[j] == rest[j - 1];
      }
    }
    assert s == [s[0]] + s[1..];
    LessIrreflexive(x);
  }

  /** Two strictly ascending sequences with the same elements are the same sequence. */
  lemma {:induction false} SortedUnique(a: seq<string>, b: seq<string>)
    requires StrictlySorted(a) && StrictlySorted(b)
    requires forall y :: y in a <==> y in b
    ensures a == b
  {
    if a != [] {
      assert a[0] in b;
    }
    if b != [] {
      assert b[0] in a;
    }
    if a != [] && b != [] {
      if a[0] != b[0] {
        assert a[0] in b;
        var j :| 0 <= j < |b| && b[j] == a[0];
        assert b[0] in a;
        var i :| 0 <= i < |a| && a[i] == b[0];
        assert Less(a[0], b[0]) && Less(b[0], a[0]);
        LessAsymmetric(a[0], b[0]);
      }
      forall y
        ensures y in a[1..] <==> y in b[1..]
      {
        HeadNotInTail(a, y);
        HeadNotInTail(b, y);
      }
      SortedUnique(a[1..], b[1..]);
      assert a == [a[0]] + a[1..];
      assert b == [b[0]] + b[1..];
    }
  }

  lemma HeadNotInTail(s: seq<string>, y: string)
    requires StrictlySorted(s) && s != []
    ensures y in s[1..] <==> y in s && y != s[0]
  {
    if y in s[1..] {
      var k :| 0 <= k < |s| - 1 && s[1..][k] == y;
      assert Less(s[0], s[k + 1]);
      LessIrreflexive(y);
    }
    if y in s && y != s[0] {
      var k :| 0 <= k < |s| && s[k] == y;
      assert s[1..][k - 1] == y;
    }
  }
}
