/** Python's comparison of `str` values and of `(int, str)` tuples, the builtin
    `sorted` on lists of such tuples, and facts about duplicate-free sequences. */
module Ordering {

  /** A tuple `(key, id)` as the station graph builds them: `(distance, id)`
      in results, `(-distance, id)` inside the bounded heap. */
  type Entry = (int, string)

  /** No element occurs twice. */
  ghost predicate NoDup<T>(s: seq<T>)
  {
    forall i, j :: 0 <= i < j < |s| ==> s[i] != s[j]
  }

  /** Python's `a < b` on `str`: code point by code point, a proper prefix first. */
  predicate StrLess(a: string, b: string)
  {
    if |b| == 0 then false
    else if |a| == 0 then true
    else a[0] < b[0] || (a[0] == b[0] && StrLess(a[1..], b[1..]))
  }

  lemma {:induction false} StrLessIrreflexive(a: string)
    ensures !StrLess(a, a)
  {
    if |a| > 0 {
      StrLessIrreflexive(a[1..]);
    }
  }

  lemma {:induction false} StrLessTransitive(a: string, b: string, c: string)
    ensures StrLess(a, b) && StrLess(b, c) ==> StrLess(a, c)
  {
    if |a| > 0 && |b| > 0 && |c| > 0 && a[0] == b[0] && b[0] == c[0] {
      StrLessTransitive(a[1..], b[1..], c[1..]);
    }
  }

  lemma {:induction false} StrLessTotal(a: string, b: string)
    ensures a == b || StrLess(a, b) || StrLess(b, a)
  {
    if |a| > 0 && |b| > 0 && a[0] == b[0] {
      StrLessTotal(a[1..], b[1..]);
      assert a == [a[0]] + a[1..];
      assert b == [b[0]] + b[1..];
    }
  }

  /** Python's `<` on `(int, str)` tuples: by the number, then by the string. */
  predicate TupleLess(a: Entry, b: Entry)
  {
    a.0 < b.0 || (a.0 == b.0 && StrLess(a.1, b.1))
  }

  lemma TupleLessIrreflexive(a: Entry)
    ensures !TupleLess(a, a)
  {
    StrLessIrreflexive(a.1);
  }

  lemma TupleLessTransitive(a: Entry, b: Entry, c: Entry)
    ensures TupleLess(a, b) && TupleLess(b, c) ==> TupleLess(a, c)
  {
    StrLessTransitive(a.1, b.1, c.1);
  }

  lemma TupleLessTotal(a: Entry, b: Entry)
    ensures a == b || TupleLess(a, b) || TupleLess(b, a)
  {
    StrLessTotal(a.1, b.1);
  }

  lemma TupleLessAsymmetric(a: Entry, b: Entry)
    ensures TupleLess(a, b) ==> !TupleLess(b, a)
  {
    TupleLessTransitive(a, b, a);
    TupleLessIrreflexive(a);
  }

  /** `a <= b <= c` implies `a <= c`, with `x <= y` read as `!(y < x)`. */
  lemma TupleLeqTransitive(a: Entry, b: Entry, c: Entry)
    ensures !TupleLess(b, a) && !TupleLess(c, b) ==> !TupleLess(c, a)
  {
    TupleLessTotal(a, b);
    TupleLessTotal(b, c);
    TupleLessTransitive(a, b, c);
    TupleLessAsymmetric(a, c);
    TupleLessIrreflexive(a);
  }

  /** Ascending, as `sorted` leaves a list: no later element is smaller. */
  ghost predicate Sorted(s: seq<Entry>)
  {
    forall i, j :: 0 <= i < j < |s| ==> !TupleLess(s[j], s[i])
  }

  /** Strictly ascending: every element is smaller than every later one. */
  ghost predicate StrictlySorted(s: seq<Entry>)
  {
    forall i, j :: 0 <= i < j < |s| ==> TupleLess(s[i], s[j])
  }

  /** Places `x` in the sorted list `s` after every element smaller than it. */
  function Insert(x: Entry, s: seq<Entry>): (r: seq<Entry>)
    requires Sorted(s)
    ensures Sorted(r)
    ensures multiset(r) == multiset(s) + multiset{x}
  {
    if s == [] then [x]
    else if TupleLess(s[0], x) then
      var rest := Insert(x, s[1..]);
      assert s == [s[0]] + s[1..];
      InsertHeadStaysFirst(s[0], x, s[1..], rest);
      [s[0]] + rest
    else
      InsertBeforeHead(x, s);
      [x] + s
  }

  lemma InsertHeadStaysFirst(h: Entry, x: Entry, tail: seq<Entry>, rest: seq<Entry>)
    requires TupleLess(h, x)
    requires Sorted([h] + tail) && Sorted(rest)
    requires multiset(rest) == multiset(tail) + multiset{x}
    ensures Sorted([h] + rest)
  {
    forall j | 0 <= j < |rest|
      ensures !TupleLess(rest[j], h)
    {
      assert rest[j] in multiset(rest);
      if rest[j] == x {
        TupleLessAsymmetric(h, x);
      } else {
        assert rest[j] in multiset(tail);
        assert rest[j] in tail;
        var t :| 0 <= t < |tail| && tail[t] == rest[j];
        assert ([h] + tail)[0] == h && ([h] + tail)[t + 1] == rest[j];
      }
    }
  }

  lemma InsertBeforeHead(x: Entry, s: seq<Entry>)
    requires s != [] && Sorted(s) && !TupleLess(s[0], x)
    ensures Sorted([x] + s)
  {
    forall j | 0 <= j < |s|
      ensures !TupleLess(s[j], x)
    {
      TupleLeqTransitive(x, s[0], s[j]);
    }
  }

  /** Python's `sorted` on a list of tuples, as an insertion sort. */
  function Sort(s: seq<Entry>): (r: seq<Entry>)
    ensures Sorted(r)
    ensures multiset(r) == multiset(s)
  {
    if s == [] then []
    else
      assert s == [s[0]] + s[1..];
      Insert(s[0], Sort(s[1..]))
  }

  lemma {:induction false} NoDupCount<T>(s: seq<T>, v: T)
    requires NoDup(s)
    ensures multiset(s)[v] <= 1
  {
    if s != [] {
      assert s == [s[0]] + s[1..];
      NoDupCount(s[1..], v);
      if s[0] == v {
        assert v !in s[1..];
      }
    }
  }

  lemma RepeatCount<T>(s: seq<T>, i: int, j: int)
    requires 0 <= i < j < |s|
    ensures s[i] == s[j] ==> multiset(s)[s[i]] >= 2
  {
    assert s == s[..j] + s[j..];
    assert s[..j][i] == s[i];
    assert s[j..][0] == s[j];
  }

  /** A permutation of a duplicate-free sequence is duplicate-free. */
  lemma PermutationNoDup<T>(a: seq<T>, b: seq<T>)
    requires multiset(a) == multiset(b) && NoDup(a)
    ensures NoDup(b)
  {
    forall i, j | 0 <= i < j < |b|
      ensures b[i] != b[j]
    {
      NoDupCount(a, b[i]);
      RepeatCount(b, i, j);
    }
  }

  lemma SortedNoDupIsStrict(s: seq<Entry>)
    requires Sorted(s) && NoDup(s)
    ensures StrictlySorted(s)
  {
    forall i, j | 0 <= i < j < |s|
      ensures TupleLess(s[i], s[j])
    {
      TupleLessTotal(s[i], s[j]);
    }
  }

  /** A strictly sorted sequence has no more elements than a strictly sorted
      sequence holding all of them. */
  lemma {:induction false} StrictlySortedSubsetLength(s: seq<Entry>, t: seq<Entry>)
    requires StrictlySorted(s) && StrictlySorted(t)
    requires forall x :: x in s ==> x in t
    ensures |s| <= |t|
  {
    if s != [] {
      assert s[0] in s;
      var j :| 0 <= j < |t| && t[j] == s[0];
      forall y | y in s[1..]
        ensures y in t[j + 1..]
      {
        var a :| 1 <= a < |s| && s[a] == y;
        assert y in s && y in t;
        var b :| 0 <= b < |t| && t[b] == y;
        assert j < b by {
          TupleLessAsymmetric(t[b], t[j]);
          TupleLessIrreflexive(y);
        }
        assert t[j + 1..][b - j - 1] == y;
      }
      StrictlySortedSubsetLength(s[1..], t[j + 1..]);
    }
  }

  /** Two strictly sorted sequences of one length, one holding every element
      of the other, are equal. */
  lemma {:induction false} StrictlySortedSubsetEqual(s: seq<Entry>, t: seq<Entry>)
    requires StrictlySorted(s) && StrictlySorted(t) && |s| == |t|
    requires forall x :: x in s ==> x in t
    ensures s == t
  {
    if s != [] {
      assert s[0] in s;
      var j :| 0 <= j < |t| && t[j] == s[0];
      assert j == 0 by {
        if 0 < j {
          forall y | y in s
            ensures y in t[1..]
          {
            var a :| 0 <= a < |s| && s[a] == y;
            assert y in s && y in t;
            var b :| 0 <= b < |t| && t[b] == y;
            assert b != 0 by {
              TupleLessAsymmetric(s[0], y);
              TupleLessIrreflexive(y);
            }
            assert t[1..][b - 1] == y;
          }
          StrictlySortedSubsetLength(s, t[1..]);
        }
      }
      forall y | y in s[1..]
        ensures y in t[1..]
      {
        var a :| 1 <= a < |s| && s[a] == y;
        assert y in s && y in t;
        var b :| 0 <= b < |t| && t[b] == y;
        assert b != 0 by {
          TupleLessIrreflexive(y);
        }
        assert t[1..][b - 1] == y;
      }
      StrictlySortedSubsetEqual(s[1..], t[1..]);
      assert s == [s[0]] + s[1..];
      assert t == [t[0]] + t[1..];
    }
  }
}
