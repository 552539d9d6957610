/** A stable sort by a "may come before" relation `le`: the model of
    JavaScript's `Array.prototype.sort` with a comparator `cmp`, where
    `le(a, b)` is `cmp(a, b) <= 0`. The specification of
    `Array.prototype.sort` requires stability, which insertion that places a
    new element before its first equal reproduces. */
module Sorting {
  import Seqs

  /** `le` orders every pair and is transitive: what a consistent comparator gives. */
  ghost predicate IsTotalPreorder<T(!new)>(le: (T, T) -> bool) {
    && (forall a, b :: le(a, b) || le(b, a))
    && (forall a, b, c :: le(a, b) && le(b, c) ==> le(a, c))
  }

  predicate SortedBy<T>(s: seq<T>, le: (T, T) -> bool) {
    forall i, j :: 0 <= i < j < |s| ==> le(s[i], s[j])
  }

  /** Inserts `x` into `s` just before the first element it may precede. */
  function Insert<T(!new)>(x: T, s: seq<T>, le: (T, T) -> bool): (r: seq<T>)
    ensures |r| == |s| + 1
    ensures multiset(r) == multiset(s) + multiset{x}
    ensures IsTotalPreorder(le) && SortedBy(s, le) ==> SortedBy(r, le)
  {
    if |s| == 0 || le(x, s[0]) then
      [x] + s
    else
      assert s == [s[0]] + s[1..];
      var rest := Insert(x, s[1..], le);
      HeadPrecedesInsert(x, s, le, rest);
      [s[0]] + rest
  }

  /** When `x` may not precede the head of sorted `s`, the head still
      precedes every element of `s[1..]` with `x` inserted. */
  lemma HeadPrecedesInsert<T(!new)>(x: T, s: seq<T>, le: (T, T) -> bool, rest: seq<T>)
    requires |s| > 0 && !le(x, s[0])
    requires multiset(rest) == multiset(s[1..]) + multiset{x}
    ensures IsTotalPreorder(le) && SortedBy(s, le) ==> forall k :: 0 <= k < |rest| ==> le(s[0], rest[k])
  {
    if IsTotalPreorder(le) && SortedBy(s, le) {
      forall k | 0 <= k < |rest|
        ensures le(s[0], rest[k])
      {
        assert rest[k] in multiset(rest);
        if rest[k] != x {
          assert rest[k] in s[1..];
        }
      }
    }
  }

  /** The elements `le` ranks level with `c`: those a comparator calls equal to it. */
  function LevelWith<T>(le: (T, T) -> bool, c: T): T -> bool {
    y => le(c, y) && le(y, c)
  }

  /** Inserting `x` puts it ahead of every element level with it, and leaves
      the order among the elements of every other level as it was. */
  lemma {:induction false} InsertKeepsLevels<T(!new)>(x: T, s: seq<T>, le: (T, T) -> bool, c: T)
    requires IsTotalPreorder(le)
    ensures Seqs.Filter(Insert(x, s, le), LevelWith(le, c))
      == (if LevelWith(le, c)(x) then [x] else []) + Seqs.Filter(s, LevelWith(le, c))
  {
    var level := LevelWith(le, c);
    if |s| == 0 || le(x, s[0]) {
      assert ([x] + s)[1..] == s;
    } else {
      var rest := Insert(x, s[1..], le);
      InsertKeepsLevels(x, s[1..], le, c);
      assert ([s[0]] + rest)[1..] == rest;
      if level(x) {
        assert le(x, c);
      }
    }
  }

  /** Sorting `s[1..]` stably and inserting `s[0]` sorts `s` stably. */
  lemma StableStep<T(!new)>(s: seq<T>, le: (T, T) -> bool, sortedTail: seq<T>)
    requires |s| > 0
    ensures IsTotalPreorder(le)
      && (forall c :: Seqs.Filter(sortedTail, LevelWith(le, c)) == Seqs.Filter(s[1..], LevelWith(le, c)))
      ==> forall c :: Seqs.Filter(Insert(s[0], sortedTail, le), LevelWith(le, c)) == Seqs.Filter(s, LevelWith(le, c))
  {
    if IsTotalPreorder(le) && (forall c :: Seqs.Filter(sortedTail, LevelWith(le, c)) == Seqs.Filter(s[1..], LevelWith(le, c))) {
      forall c ensures Seqs.Filter(Insert(s[0], sortedTail, le), LevelWith(le, c)) == Seqs.Filter(s, LevelWith(le, c)) {
        InsertKeepsLevels(s[0], sortedTail, le, c);
      }
    }
  }

  /** `s` sorted stably by `le`: a permutation, in order, in which the
      elements of each level keep their order in `s`. */
  function SortBy<T(!new)>(s: seq<T>, le: (T, T) -> bool): (r: seq<T>)
    ensures |r| == |s|
    ensures multiset(r) == multiset(s)
    ensures IsTotalPreorder(le) ==> SortedBy(r, le)
    ensures IsTotalPreorder(le) ==> forall c :: Seqs.Filter(r, LevelWith(le, c)) == Seqs.Filter(s, LevelWith(le, c))
  {
    if |s| == 0 then []
    else
      assert s == [s[0]] + s[1..];
      var sortedTail := SortBy(s[1..], le);
      StableStep(s, le, sortedTail);
      Insert(s[0], sortedTail, le)
  }
}
