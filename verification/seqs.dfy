/** Facts about reordering sequences, used for `random.shuffle`. */
module Seqs {

  /** `f` applied to every element, in order. */
  function Image<T, U>(f: T -> U, s: seq<T>): (r: seq<U>)
    ensures |r| == |s|
    ensures forall i :: 0 <= i < |s| ==> r[i] == f(s[i])
  {
    seq(|s|, i requires 0 <= i < |s| => f(s[i]))
  }

  predicate Distinct<T(==)>(s: seq<T>) {
    forall i, j :: 0 <= i < j < |s| ==> s[i] != s[j]
  }

  lemma ImageConcat<T, U>(f: T -> U, l: seq<T>, r: seq<T>)
    ensures Image(f, l + r) == Image(f, l) + Image(f, r)
  {
  }

  lemma CancelOne<T>(x: T, a: multiset<T>, b: multiset<T>)
    requires multiset{x} + a == multiset{x} + b
    ensures a == b
  {
    assert a == multiset{x} + a - multiset{x};
    assert b == multiset{x} + b - multiset{x};
  }

  /** Reordering a sequence reorders its image. */
  lemma {:induction false} PermutedImage<T, U>(f: T -> U, a: seq<T>, b: seq<T>)
    requires multiset(a) == multiset(b)
    ensures multiset(Image(f, a)) == multiset(Image(f, b))
    decreases |a|
  {
    if |a| > 0 {
      var x, tail := a[0], a[1..];
      assert x in multiset(b);
      var k :| 0 <= k < |b| && b[k] == x;
      var l, r := b[..k], b[k + 1..];
      assert a == [x] + tail;
      assert b == l + [x] + r;
      assert multiset{x} + multiset(tail) == multiset{x} + multiset(l + r);
      CancelOne(x, multiset(tail), multiset(l + r));
      PermutedImage(f, tail, l + r);
      ImageConcat(f, [x], tail);
      ImageConcat(f, l + [x], r);
      ImageConcat(f, l, [x]);
      ImageConcat(f, l, r);
      assert Image(f, [x]) == [f(x)];
    }
  }

  /** A sequence has pairwise distinct elements exactly when no element occurs twice. */
  lemma {:induction false} DistinctIffNoRepeats<T>(s: seq<T>)
    ensures Distinct(s) <==> forall x :: multiset(s)[x] <= 1
    decreases |s|
  {
    if |s| > 0 {
      var t := s[1..];
      assert s == [s[0]] + t;
      assert forall x :: multiset(s)[x] == multiset{s[0]}[x] + multiset(t)[x];
      DistinctIffNoRepeats(t);
      if Distinct(s) {
        forall i, j | 0 <= i < j < |t| ensures t[i] != t[j] {
          assert t[i] == s[i + 1] && t[j] == s[j + 1];
        }
        forall j | 0 <= j < |t| ensures t[j] != s[0] {
          assert t[j] == s[j + 1];
        }
        assert s[0] !in t;
      }
      if forall x :: multiset(s)[x] <= 1 {
        assert multiset(s)[s[0]] == 1 + multiset(t)[s[0]];
        assert s[0] !in t;
        forall i, j | 0 <= i < j < |s| ensures s[i] != s[j] {
          if i == 0 {
            assert s[j] == t[j - 1];
          } else {
            assert s[i] == t[i - 1] && s[j] == t[j - 1];
          }
        }
      }
    }
  }

  /** Two orderings of the same elements are both distinct or both not. */
  lemma PermutedDistinct<T>(a: seq<T>, b: seq<T>)
    requires multiset(a) == multiset(b)
    ensures Distinct(a) <==> Distinct(b)
  {
    DistinctIffNoRepeats(a);
    DistinctIffNoRepeats(b);
  }
}
