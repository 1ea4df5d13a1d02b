/**
  The string primitives the controller relies on: PHP truthiness of a request
  value, `substr($s, 0, $n)`, SQL `LIKE '%q%'`, the order of `ORDER BY name`,
  and the two date formats its validation rules accept.
 */
module Text {
  import opened Wrappers

  /** PHP truthiness of an optional request string: null, "" and "0" are false. */
  predicate Truthy(o: Option<string>)
    ensures Truthy(o) ==> o.Some? && o.value != []
    ensures o.Some? && |o.value| >= 2 ==> Truthy(o)
  {
    o.Some? && o.value != "" && o.value != "0"
  }

  /** `substr(s, 0, n)`: the first n characters, or all of s when it is shorter. */
  function Prefix(s: string, n: nat): (r: string)
    ensures r <= s
    ensures |r| == if |s| <= n then |s| else n
  {
    if |s| <= n then s else s[..n]
  }

  /** `LIKE '%q%'` read as a plain substring test. */
  predicate Contains(s: string, q: string)
    ensures Contains(s, q) ==> |q| <= |s|
    ensures q == [] ==> Contains(s, q)
    decreases |s|
  {
    q <= s || (s != [] && Contains(s[1..], q))
  }

  /** q occurs in s starting at position i. */
  predicate OccursAt(s: string, q: string, i: nat) {
    i + |q| <= |s| && s[i..i + |q|] == q
  }

  /** Every occurrence is found by the recursive test. */
  lemma {:induction false} ContainsAt(s: string, q: string, i: nat)
    requires OccursAt(s, q, i)
    ensures Contains(s, q)
    decreases i
  {
    if i == 0 {
      assert q <= s;
    } else {
      assert s[1..][i - 1..i - 1 + |q|] == s[i..i + |q|];
      ContainsAt(s[1..], q, i - 1);
    }
  }

  /** The recursive test only succeeds on an actual occurrence. */
  lemma {:induction false} ContainsWitness(s: string, q: string)
    requires Contains(s, q)
    ensures exists i: nat :: OccursAt(s, q, i)
    decreases |s|
  {
    if q <= s {
      assert s[0..|q|] == q;
      assert OccursAt(s, q, 0);
    } else {
      ContainsWitness(s[1..], q);
      var i: nat :| OccursAt(s[1..], q, i);
      assert s[i + 1..i + 1 + |q|] == s[1..][i..i + |q|];
      assert OccursAt(s, q, i + 1);
    }
  }

  /** The name order: lexicographic on characters, a prefix first. */
  predicate NameLe(a: string, b: string)
    decreases |a|
  {
    a == [] || (b != [] && (a[0] < b[0] || (a[0] == b[0] && NameLe(a[1..], b[1..]))))
  }

  lemma {:induction false} NameLeReflexive(a: string)
    ensures NameLe(a, a)
    decreases |a|
  {
    if a != [] {
      NameLeReflexive(a[1..]);
    }
  }

  lemma {:induction false} NameLeTotal(a: string, b: string)
    ensures NameLe(a, b) || NameLe(b, a)
    decreases |a|
  {
    if a != [] && b != [] && a[0] == b[0] {
      NameLeTotal(a[1..], b[1..]);
    }
  }

  lemma {:induction false} NameLeTransitive(a: string, b: string, c: string)
    requires NameLe(a, b) && NameLe(b, c)
    ensures NameLe(a, c)
    decreases |a|
  {
    if a != [] && a[0] == b[0] && b[0] == c[0] {
      NameLeTransitive(a[1..], b[1..], c[1..]);
    }
  }

  lemma {:induction false} NameLeAntisymmetric(a: string, b: string)
    requires NameLe(a, b) && NameLe(b, a)
    ensures a == b
    decreases |a|
  {
    if a != [] {
      NameLeAntisymmetric(a[1..], b[1..]);
      assert a == [a[0]] + a[1..] && b == [b[0]] + b[1..];
    }
  }

  predicate IsDigit(c: char) {
    '0' <= c <= '9'
  }

  /** Laravel's `date_format:Y`: four digits. */
  predicate IsYear(s: string) {
    |s| == 4 && forall i :: 0 <= i < 4 ==> IsDigit(s[i])
  }

  /** Laravel's `date_format:Y-m-d`: four digits, a dash, two digits, a dash, two digits. */
  predicate IsYmd(s: string) {
    && |s| == 10
    && s[4] == '-' && s[7] == '-'
    && forall i :: 0 <= i < 10 && i != 4 && i != 7 ==> IsDigit(s[i])
  }

  /** The year part of an ISO date is itself a valid year. */
  lemma YmdYear(s: string)
    requires IsYmd(s)
    ensures Prefix(s, 4) == s[..4] && IsYear(s[..4])
    ensures Truthy(Some(s))
  {
    assert s != "0" by { assert |s| == 10; }
  }
}
