/**
 * Lexicographic order on sequences of integers. This is Python's ordering
 * of tuples of integers (element by element, a proper prefix first), and,
 * applied to the code points of two strings, SQLite's default BINARY
 * collation used by `ORDER BY name`.
 */
module Lex {

  /** Python's `a < b` on two tuples of integers. */
  predicate LexLess(a: seq<int>, b: seq<int>)
  {
    if |a| == 0 then |b| > 0
    else if |b| == 0 then false
    else a[0] < b[0] || (a[0] == b[0] && LexLess(a[1..], b[1..]))
  }

  /** Python's `a <= b` on two tuples of integers. */
  predicate LexLe(a: seq<int>, b: seq<int>)
  {
    !LexLess(b, a)
  }

  /** `a` and `b` agree on their first `k` elements and differ at `k`, where `a` is smaller. */
  ghost predicate FirstDifferenceSmaller(a: seq<int>, b: seq<int>, k: int)
  {
    0 <= k < |a| && k < |b| && a[..k] == b[..k] && a[k] < b[k]
  }

  /** The tuple order is "proper prefix, or smaller at the first difference". */
  lemma {:induction false} LexLessIff(a: seq<int>, b: seq<int>)
    ensures LexLess(a, b) <==>
      (|a| < |b| && a == b[..|a|]) || (exists k :: FirstDifferenceSmaller(a, b, k))
  {
    if |a| == 0 {
      assert forall k :: !FirstDifferenceSmaller(a, b, k);
    } else if |b| == 0 {
      assert forall k :: !FirstDifferenceSmaller(a, b, k);
    } else {
      LexLessIff(a[1..], b[1..]);
      if a[0] < b[0] {
        assert FirstDifferenceSmaller(a, b, 0);
      } else if a[0] == b[0] {
        if LexLess(a[1..], b[1..]) {
          if |a[1..]| < |b[1..]| && a[1..] == b[1..][..|a[1..]|] {
            assert a == [a[0]] + a[1..];
            assert b[..|a|] == [b[0]] + b[1..][..|a[1..]|];
          } else {
            var k :| FirstDifferenceSmaller(a[1..], b[1..], k);
            assert a[..k + 1] == [a[0]] + a[1..][..k];
            assert b[..k + 1] == [b[0]] + b[1..][..k];
            assert FirstDifferenceSmaller(a, b, k + 1);
          }
        } else {
          if k :| FirstDifferenceSmaller(a, b, k) {
            assert k != 0;
            assert a[1..][..k - 1] == a[..k][1..];
            assert b[1..][..k - 1] == b[..k][1..];
            assert FirstDifferenceSmaller(a[1..], b[1..], k - 1);
            assert false;
          }
        }
      } else {
        if k :| FirstDifferenceSmaller(a, b, k) {
          assert false;
        }
      }
    }
  }

  lemma {:induction false} LexLessIrreflexive(a: seq<int>)
    ensures !LexLess(a, a)
  {
    if |a| > 0 {
      LexLessIrreflexive(a[1..]);
    }
  }

  lemma {:induction false} LexLessTransitive(a: seq<int>, b: seq<int>, c: seq<int>)
    requires LexLess(a, b) && LexLess(b, c)
    ensures LexLess(a, c)
  {
    if |a| > 0 && |b| > 0 && |c| > 0 && a[0] == b[0] && b[0] == c[0] {
      LexLessTransitive(a[1..], b[1..], c[1..]);
    }
  }

  /** Any two tuples are equal or ordered one way or the other. */
  lemma {:induction false} LexLessTrichotomy(a: seq<int>, b: seq<int>)
    ensures a == b || LexLess(a, b) || LexLess(b, a)
  {
    if |a| > 0 && |b| > 0 && a[0] == b[0] {
      LexLessTrichotomy(a[1..], b[1..]);
      if a[1..] == b[1..] {
        assert a == [a[0]] + a[1..] && b == [b[0]] + b[1..];
      }
    }
  }

  lemma LexLessAsymmetric(a: seq<int>, b: seq<int>)
    requires LexLess(a, b)
    ensures !LexLess(b, a)
  {
    if LexLess(b, a) {
      LexLessTransitive(a, b, a);
      LexLessIrreflexive(a);
    }
  }

  /** `<=` on tuples is a total order: total, transitive and antisymmetric. */
  lemma LexLeTotal(a: seq<int>, b: seq<int>)
    ensures LexLe(a, b) || LexLe(b, a)
  {
    if LexLess(a, b) {
      LexLessAsymmetric(a, b);
    }
  }

  lemma LexLeReflexive(a: seq<int>)
    ensures LexLe(a, a)
  {
    LexLessIrreflexive(a);
  }

  lemma LexLeTransitive(a: seq<int>, b: seq<int>, c: seq<int>)
    requires LexLe(a, b) && LexLe(b, c)
    ensures LexLe(a, c)
  {
    if LexLess(c, a) {
      LexLessTrichotomy(a, b);
      LexLessTrichotomy(b, c);
      if a == b {
      } else if b == c {
      } else {
        LexLessTransitive(a, b, c);
        LexLessAsymmetric(a, c);
      }
    }
  }

  lemma LexLeAntisymmetric(a: seq<int>, b: seq<int>)
    requires LexLe(a, b) && LexLe(b, a)
    ensures a == b
  {
    LexLessTrichotomy(a, b);
  }

  /** The code points of a string, in order. */
  function Codes(s: string): (r: seq<int>)
    ensures |r| == |s|
    ensures forall i :: 0 <= i < |s| ==> r[i] == s[i] as int
  {
    seq(|s|, i requires 0 <= i < |s| => s[i] as int)
  }

  /** `a <= b` for two names under SQLite's BINARY collation (code-point order). */
  predicate StrLe(a: string, b: string)
  {
    LexLe(Codes(a), Codes(b))
  }

  /** On two-element keys the order is the usual one: first component, then second. */
  lemma LexLePair(a: int, b: int, c: int, d: int)
    ensures LexLe([a, b], [c, d]) <==> a < c || (a == c && b <= d)
  {
    assert [a, b][1..] == [b] && [c, d][1..] == [d];
    assert [b][1..] == [] && [d][1..] == [];
    assert !LexLess([], []);
    assert LexLess([d], [b]) <==> d < b;
    assert LexLess([c, d], [a, b]) <==> c < a || (c == a && LexLess([d], [b]));
  }
}
