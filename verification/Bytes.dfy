/** Bytes, text, the few C string notions every component relies on, and lists without duplicates. */
module Bytes {

  type Byte = b: int | 0 <= b < 256

  type Text = seq<Byte>

  const NUL: Byte := 0
  const NEWLINE: Byte := 10

  function Min(a: nat, b: nat): nat {
    if a <= b then a else b
  }

  lemma ProductGrows(a: int, b: int, n: nat)
    requires a <= b
    ensures a * n <= b * n
  {
  }

  lemma Quotient(n: nat, d: nat, q: nat, r: nat)
    requires n == d * q + r && r < d
    ensures n / d == q
  {
    var other := n / d;
    assert n == d * other + n % d;
    if other < q {
      ProductGrows(other + 1, q, d);
    } else if other > q {
      ProductGrows(q + 1, other, d);
    }
  }

  lemma Nested(a: nat, b: nat, q: nat, r: nat)
    ensures a * (b * q + r) == a * b * q + a * r
  {
  }

  lemma BelowProduct(a: nat, b: nat, r: nat, r': nat)
    requires r < a && r' < b
    ensures a * r' + r < a * b
  {
    ProductGrows(r' + 1, b, a);
    assert (r' + 1) * a == r' * a + a;
  }

  lemma TwoRemainders(n: nat, a: nat, b: nat, q: nat, r: nat, q': nat, r': nat)
    requires n == a * q + r && r < a && q == b * q' + r' && r' < b
    ensures a * b > 0 && n / (a * b) == q'
  {
    var x := a * b;
    BelowProduct(a, b, r, r');
    Nested(a, b, q', r');
    Quotient(n, x, q', a * r' + r);
  }

  lemma DivideTwice(n: nat, a: nat, b: nat)
    requires a > 0 && b > 0
    ensures a * b > 0 && n / a / b == n / (a * b)
  {
    TwoRemainders(n, a, b, n / a, n % a, n / a / b, n / a % b);
  }

  function Power(base: nat, k: nat): (r: nat)
    requires base > 0
    ensures r > 0
  {
    if k == 0 then 1 else base * Power(base, k - 1)
  }

  lemma PowerZero(base: nat)
    requires base > 0
    ensures Power(base, 0) == 1
  {
  }

  lemma PowerNext(base: nat, k: nat)
    requires base > 0
    ensures Power(base, k + 1) == base * Power(base, k)
  {
  }

  lemma DivideByPower(n: nat, base: nat, k: nat)
    requires base > 0
    ensures n / base / Power(base, k) == n / Power(base, k + 1)
  {
    DivideTwice(n, base, Power(base, k));
  }

  /** The C string that starts a buffer: the bytes before the first NUL, or the whole buffer when it has none. */
  function CString(s: Text): (r: Text)
    ensures r <= s
    ensures NUL !in r
    ensures |r| < |s| ==> s[|r|] == NUL
  {
    if s == [] || s[0] == NUL then [] else
    var rest := CString(s[1..]);
    assert s == [s[0]] + s[1..];
    [s[0]] + rest
  }

  /** A NUL-free prefix that is followed by a NUL is exactly the C string of the buffer. */
  lemma {:induction false} CStringIs(s: Text, t: Text)
    requires t <= s && NUL !in t
    requires |t| < |s| ==> s[|t|] == NUL
    ensures CString(s) == t
  {
    if t != [] {
      CStringIs(s[1..], t[1..]);
    }
  }

  function Flatten<T>(parts: seq<seq<T>>): seq<T>
  {
    if parts == [] then [] else parts[0] + Flatten(parts[1..])
  }

  lemma {:induction false} FlattenAppend<T>(a: seq<seq<T>>, b: seq<seq<T>>)
    ensures Flatten(a + b) == Flatten(a) + Flatten(b)
  {
    if a == [] {
      assert a + b == b;
    } else {
      FlattenAppend(a[1..], b);
      assert (a + b)[1..] == a[1..] + b && (a + b)[0] == a[0];
      var x, y, z := a[0], Flatten(a[1..]), Flatten(b);
      assert x + (y + z) == x + y + z;
    }
  }

  lemma {:induction false} InFlatten<T>(parts: seq<seq<T>>, x: T)
    ensures x in Flatten(parts) <==> exists b :: 0 <= b < |parts| && x in parts[b]
  {
    if parts != [] {
      InFlatten(parts[1..], x);
      assert parts == [parts[0]] + parts[1..];
    }
  }

  lemma FlattenPrefix<T>(parts: seq<seq<T>>, b: nat)
    requires b < |parts|
    ensures Flatten(parts[..b + 1]) == Flatten(parts[..b]) + parts[b]
  {
    assert parts[..b + 1] == parts[..b] + [parts[b]];
    FlattenAppend(parts[..b], [parts[b]]);
    assert Flatten([parts[b]]) == parts[b];
  }

  predicate Distinct<T(==)>(s: seq<T>) {
    forall i, j :: 0 <= i < j < |s| ==> s[i] != s[j]
  }

  lemma DistinctSplit<T>(a: seq<T>, b: seq<T>)
    requires Distinct(a + b)
    ensures Distinct(a) && Distinct(b) && forall x :: x in a ==> x !in b
  {
    forall i, j | 0 <= i < j < |a| ensures a[i] != a[j] {
      assert (a + b)[i] != (a + b)[j];
    }
    forall i, j | 0 <= i < |a| && 0 <= j < |b| ensures a[i] != b[j] {
      assert (a + b)[i] != (a + b)[|a| + j];
    }
    forall i, j | 0 <= i < j < |b| ensures b[i] != b[j] {
      assert (a + b)[|a| + i] != (a + b)[|a| + j];
    }
  }

  lemma DistinctAppend<T>(a: seq<T>, b: seq<T>)
    requires Distinct(a) && Distinct(b) && forall x :: x in a ==> x !in b
    ensures Distinct(a + b)
  {
    forall i, j | 0 <= i < j < |a + b| ensures (a + b)[i] != (a + b)[j] {
      if i < |a| <= j {
        assert a[i] in a && b[j - |a|] in b;
      }
    }
  }
}
