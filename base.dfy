/** Option: a value that may be absent (JavaScript's `undefined`/`null`). */
module Wrappers {

  datatype Option<+T> = None | Some(value: T)
}

/** Sequence helpers shared by the schedule engine, the store and the views. */
module Sequences {

  function Init<T>(s: seq<T>): seq<T>
    requires |s| > 0
  {
    s[..|s| - 1]
  }

  function Last<T>(s: seq<T>): T
    requires |s| > 0
  {
    s[|s| - 1]
  }

  function Max(a: int, b: int): int
  {
    if a < b then b else a
  }

  /** `Math.max(...s)` over a non-empty list. */
  function MaxOf(s: seq<nat>): (m: nat)
    requires |s| > 0
    ensures forall i :: 0 <= i < |s| ==> s[i] <= m
    ensures exists i :: 0 <= i < |s| && s[i] == m
  {
    if |s| == 1 then s[0]
    else
      var rest := MaxOf(s[1..]);
      assert forall i :: 1 <= i < |s| ==> s[i] == s[1..][i - 1];
      if s[0] < rest then rest else s[0]
  }

  /** `r` is `s` with some elements dropped and the others kept in order. */
  predicate IsSubseq<T(==)>(r: seq<T>, s: seq<T>)
  {
    if r == [] then true
    else if s == [] then false
    else if Last(r) == Last(s) then IsSubseq(Init(r), Init(s))
    else IsSubseq(r, Init(s))
  }

  /** JavaScript's `Array.prototype.filter`: the elements of `s` satisfying `p`, in order. */
  function Filter<T(==,!new)>(s: seq<T>, p: T -> bool): (r: seq<T>)
    ensures IsSubseq(r, s)
    ensures forall x :: x in r <==> x in s && p(x)
    ensures forall x :: p(x) ==> multiset(r)[x] == multiset(s)[x]
    ensures |r| <= |s|
  {
    if s == [] then []
    else
      var rest := Filter(Init(s), p);
      assert s == Init(s) + [Last(s)];
      if p(Last(s)) then
        assert Init(rest + [Last(s)]) == rest;
        rest + [Last(s)]
      else
        SubseqOfInit(rest, s);
        rest
  }

  /** A prefix one element longer is the prefix with that element appended. */
  lemma PrefixSnoc<T>(s: seq<T>, i: nat)
    requires i < |s|
    ensures s[..i + 1] == s[..i] + [s[i]]
  {
  }

  lemma {:induction false} SubseqOfInit<T>(r: seq<T>, s: seq<T>)
    requires |s| > 0 && IsSubseq(r, Init(s))
    ensures IsSubseq(r, s)
    decreases |r| + |s|
  {
    if r != [] && Last(r) == Last(s) {
      SubseqDropLast(r, Init(s));
    }
  }

  lemma {:induction false} SubseqDropLast<T>(r: seq<T>, s: seq<T>)
    requires |r| > 0 && IsSubseq(r, s)
    ensures IsSubseq(Init(r), s)
    decreases |r| + |s|
  {
    if Last(r) == Last(s) {
      SubseqOfInit(Init(r), s);
    } else {
      SubseqDropLast(r, Init(s));
      SubseqOfInit(Init(r), s);
    }
  }

  /** `s` with every occurrence of `x` removed (`filter(y => y !== x)`). */
  function Without<T(==,!new)>(s: seq<T>, x: T): (r: seq<T>)
    ensures x !in r
    ensures forall y :: y != x ==> multiset(r)[y] == multiset(s)[y]
    ensures IsSubseq(r, s)
  {
    Filter(s, y => y != x)
  }

  /** A sequence longer than the set holding all its elements repeats an element. */
  lemma {:induction false} Pigeonhole<T>(c: seq<T>, s: set<T>)
    requires forall i :: 0 <= i < |c| ==> c[i] in s
    requires |c| > |s|
    ensures exists i, j :: 0 <= i < j < |c| && c[i] == c[j]
    decreases |c|
  {
    if exists j :: 1 <= j < |c| && c[j] == c[0] {
      var j :| 1 <= j < |c| && c[j] == c[0];
      assert c[0] == c[j];
    } else {
      var rest := c[1..];
      forall i | 0 <= i < |rest|
        ensures rest[i] in s - {c[0]}
      {
        assert rest[i] == c[i + 1];
      }
      Pigeonhole(rest, s - {c[0]});
      var i, j :| 0 <= i < j < |rest| && rest[i] == rest[j];
      assert c[i + 1] == c[j + 1];
    }
  }
}
