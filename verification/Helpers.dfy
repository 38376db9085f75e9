/** What several of the models share: optional values, sequences without repetition, and remainders. */
module Helpers {

  datatype Option<T> = None | Some(value: T)

  ghost predicate Distinct<T>(s: seq<T>) {
    forall i, j :: 0 <= i < j < |s| ==> s[i] != s[j]
  }

  lemma DistinctAppend<T>(s: seq<T>, t: seq<T>)
    requires Distinct(s) && Distinct(t)
    requires forall i, j :: 0 <= i < |s| && 0 <= j < |t| ==> s[i] != t[j]
    ensures Distinct(s + t)
  {
  }

  lemma MultipleAtLeast(k: int, len: nat)
    requires k >= 1
    ensures k * len >= len
  {
  }

  lemma OneRemainder(p: int, q: int, len: nat, r: nat, s: nat)
    requires r < len && s < len && p * len + r == q * len + s
    ensures r == s
  {
    assert (p - q) * len == s - r && (q - p) * len == r - s;
    if p > q {
      MultipleAtLeast(p - q, len);
      assert false;
    } else if q > p {
      MultipleAtLeast(q - p, len);
      assert false;
    }
  }

  lemma RemainderIs(x: int, q: int, len: nat, r: nat)
    requires r < len && x == q * len + r
    ensures x % len == r
  {
    assert x == x / len * len + x % len;
    OneRemainder(x / len, q, len, x % len, r);
  }

  lemma RemainderOfSum(a: int, b: int, len: nat)
    requires len > 0
    ensures (a % len + b) % len == (a + b) % len
  {
    var q, r, rest := a / len, (a % len + b) / len, (a % len + b) % len;
    assert a == q * len + a % len;
    assert a % len + b == r * len + rest;
    assert (q + r) * len == q * len + r * len;
    RemainderIs(a + b, q + r, len, rest);
  }

  lemma RemainderOfShift(x: int, q: int, len: nat)
    requires len > 0
    ensures (q * len + x) % len == x % len
  {
    RemainderIs(q * len, q, len, 0);
    RemainderOfSum(q * len, x, len);
  }
}
