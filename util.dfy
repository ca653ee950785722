/** Small helpers shared by the corosync facade and the cluster property
    export: an Option type, Python's `str.isdigit`/`int` on decimal strings,
    and the ordering that Python's `sorted` uses on option names. */
module Util {

  datatype Option<T> = None | Some(value: T)

  predicate IsDigit(c: char) {
    '0' <= c <= '9'
  }

  /** `value.isdigit()`: a non-empty string made of decimal digits only. */
  predicate IsDigits(s: string) {
    |s| > 0 && forall i :: 0 <= i < |s| ==> IsDigit(s[i])
  }

  /** `int(value)` of a string of decimal digits (leading zeros allowed). */
  function DecimalValue(s: string): (n: nat)
    requires forall i :: 0 <= i < |s| ==> IsDigit(s[i])
    ensures s == [] ==> n == 0
  {
    if s == [] then 0
    else
      assert IsDigit(s[|s| - 1]);
      DecimalValue(s[..|s| - 1]) * 10 + (s[|s| - 1] as int - '0' as int)
  }

  /** `value.isdigit() and minimum <= int(value) <= maximum` */
  predicate IsIntInRange(s: string, minimum: int, maximum: int) {
    IsDigits(s) && minimum <= DecimalValue(s) <= maximum
  }

  /** Python's ordering of `str` values: lexicographic on code points. */
  predicate StrLess(a: string, b: string) {
    if a == [] then b != []
    else if b == [] then false
    else if a[0] != b[0] then a[0] < b[0]
    else StrLess(a[1..], b[1..])
  }

  lemma {:induction false} StrLessIrreflexive(a: string)
    ensures !StrLess(a, a)
  {
    if a != [] {
      StrLessIrreflexive(a[1..]);
    }
  }

  lemma {:induction false} StrLessAsymmetric(a: string, b: string)
    requires StrLess(a, b)
    ensures !StrLess(b, a)
  {
    if a != [] && b != [] && a[0] == b[0] {
      StrLessAsymmetric(a[1..], b[1..]);
    }
  }

  lemma {:induction false} StrLessTransitive(a: string, b: string, c: string)
    requires StrLess(a, b) && StrLess(b, c)
    ensures StrLess(a, c)
  {
    if a != [] && b != [] && c != [] && a[0] == b[0] && b[0] == c[0] {
      StrLessTransitive(a[1..], b[1..], c[1..]);
    }
  }

  lemma {:induction false} StrLessTotal(a: string, b: string)
    requires a != b
    ensures StrLess(a, b) || StrLess(b, a)
  {
    if a != [] && b != [] && a[0] == b[0] {
      assert a == [a[0]] + a[1..] && b == [b[0]] + b[1..];
      StrLessTotal(a[1..], b[1..]);
    }
  }

  predicate IsLeast(m: string, s: set<string>) {
    m in s && forall x :: x in s && x != m ==> StrLess(m, x)
  }

  lemma {:induction false} LeastExists(s: set<string>)
    requires s != {}
    ensures exists m :: IsLeast(m, s)
    decreases |s|
  {
    var y :| y in s;
    if s - {y} == {} {
      assert forall x :: x in s && x != y ==> x in s - {y};
      assert IsLeast(y, s);
    } else {
      LeastExists(s - {y});
      var m :| IsLeast(m, s - {y});
      if StrLess(m, y) {
        forall x | x in s && x != m
          ensures StrLess(m, x)
        {
          if x == y {
          } else {
            assert x in s - {y};
          }
        }
        assert IsLeast(m, s);
      } else {
        StrLessTotal(m, y);
        forall x | x in s && x != y
          ensures StrLess(y, x)
        {
          if x != m {
            assert x in s - {y};
            StrLessTransitive(y, m, x);
          }
        }
        assert IsLeast(y, s);
      }
    }
  }

  lemma LeastUnique(s: set<string>)
    ensures forall m1, m2 :: IsLeast(m1, s) && IsLeast(m2, s) ==> m1 == m2
  {
    forall m1, m2 | IsLeast(m1, s) && IsLeast(m2, s)
      ensures m1 == m2
    {
      if m1 != m2 {
        StrLessAsymmetric(m1, m2);
      }
    }
  }

  predicate StrictlySorted(names: seq<string>) {
    forall i, j :: 0 <= i < j < |names| ==> StrLess(names[i], names[j])
  }

  /** `sorted(keys)`: the keys of a dictionary in ascending order. */
  function SortedKeys(s: set<string>): (names: seq<string>)
    ensures |names| == |s|
    ensures forall x :: x in names <==> x in s
    ensures StrictlySorted(names)
    decreases |s|
  {
    if s == {} then []
    else
      LeastExists(s);
      LeastUnique(s);
      var m :| IsLeast(m, s);
      var rest := SortedKeys(s - {m});
      assert forall x :: x in rest ==> x in s && x != m;
      [m] + rest
  }

  lemma SortedDistinct(names: seq<string>)
    requires StrictlySorted(names)
    ensures forall i, j :: 0 <= i < |names| && 0 <= j < |names| && i != j ==> names[i] != names[j]
  {
    forall i, j | 0 <= i < |names| && 0 <= j < |names| && i != j
      ensures names[i] != names[j]
    {
      if i < j {
        if names[i] == names[j] { StrLessIrreflexive(names[i]); }
      } else {
        if names[i] == names[j] { StrLessIrreflexive(names[i]); }
      }
    }
  }

  /** Two dictionaries with the same keys and values are equal. */
  lemma MapsEqual(d: map<string, string>, e: map<string, string>)
    requires forall k :: (k in d <==> k in e) && (k in d ==> d[k] == e[k])
    ensures d == e
  {
  }
}
