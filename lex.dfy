/**
 * The order MySQL's MAX uses on the VARCHAR `timestamp` column, taken as plain
 * lexicographic order on character codes (collation rules are not modelled).
 */
module Lex {

  /** `a` sorts before or equal to `b`: `a` is a prefix of `b`, or at the first difference `a` has the smaller character. */
  predicate Le(a: string, b: string)
    decreases |a|
  {
    if a == [] then true
    else if b == [] then false
    else if a[0] != b[0] then a[0] < b[0]
    else Le(a[1..], b[1..])
  }

  /** An independent description of the same order, by the longest common prefix. */
  ghost predicate LeByPrefix(a: string, b: string)
  {
    (|a| <= |b| && a == b[..|a|])
    || exists k :: 0 <= k < |a| && k < |b| && a[..k] == b[..k] && a[k] < b[k]
  }

  lemma {:induction false} LeAgreesWithPrefix(a: string, b: string)
    ensures Le(a, b) <==> LeByPrefix(a, b)
    decreases |a|
  {
    if a == [] {
    } else if b == [] {
    } else if a[0] != b[0] {
      if a[0] < b[0] {
        assert a[..0] == b[..0];
      } else {
        forall k | 0 <= k < |a| && k < |b| && a[..k] == b[..k]
          ensures !(a[k] < b[k])
        {
        }
      }
    } else {
      LeAgreesWithPrefix(a[1..], b[1..]);
      if Le(a[1..], b[1..]) {
        if |a[1..]| <= |b[1..]| && a[1..] == b[1..][..|a[1..]|] {
          assert a == b[..|a|];
        } else {
          var k :| 0 <= k < |a[1..]| && k < |b[1..]| && a[1..][..k] == b[1..][..k] && a[1..][k] < b[1..][k];
          assert a[..k + 1] == [a[0]] + a[1..][..k];
          assert b[..k + 1] == [b[0]] + b[1..][..k];
        }
      } else {
        forall k | 0 <= k < |a| && k < |b| && a[..k] == b[..k]
          ensures !(a[k] < b[k])
        {
          if k > 0 {
            assert a[1..][..k - 1] == a[..k][1..];
            assert b[1..][..k - 1] == b[..k][1..];
          }
        }
      }
    }
  }

  lemma {:induction false} Reflexive(a: string)
    ensures Le(a, a)
    decreases |a|
  {
    if a != [] {
      Reflexive(a[1..]);
    }
  }

  lemma {:induction false} Total(a: string, b: string)
    ensures Le(a, b) || Le(b, a)
    decreases |a|
  {
    if a != [] && b != [] && a[0] == b[0] {
      Total(a[1..], b[1..]);
    }
  }

  lemma {:induction false} Antisymmetric(a: string, b: string)
    requires Le(a, b) && Le(b, a)
    ensures a == b
    decreases |a|
  {
    if a != [] && b != [] {
      Antisymmetric(a[1..], b[1..]);
      assert a == [a[0]] + a[1..];
      assert b == [b[0]] + b[1..];
    }
  }

  lemma {:induction false} Transitive(a: string, b: string, c: string)
    requires Le(a, b) && Le(b, c)
    ensures Le(a, c)
    decreases |a|
  {
    if a != [] && b != [] && c != [] && a[0] == b[0] && b[0] == c[0] {
      Transitive(a[1..], b[1..], c[1..]);
    }
  }

  /** The larger of two strings. */
  function Max(a: string, b: string): (m: string)
    ensures m == a || m == b
    ensures Le(a, m) && Le(b, m)
  {
    Total(a, b);
    Reflexive(a);
    Reflexive(b);
    if Le(a, b) then b else a
  }
}
