/** The JavaScript array primitives the tree code relies on (indexOf, filter,
    splice), stated on sequences. */
module Lists {

  import opened Types

  predicate NoDup<T(==)>(s: seq<T>)
  {
    forall i, j :: 0 <= i < j < |s| ==> s[i] != s[j]
  }

  /** `Array.prototype.indexOf`: the first position of `x`, or -1. */
  function IndexOf<T(==)>(s: seq<T>, x: T): (i: int)
    ensures -1 <= i < |s|
    ensures i == -1 <==> x !in s
    ensures 0 <= i ==> s[i] == x && x !in s[..i]
  {
    if |s| == 0 then -1
    else if s[0] == x then 0
    else
      var k := IndexOf(s[1..], x);
      assert s[1..][..if k < 0 then 0 else k] == s[1..if k < 0 then 1 else k + 1];
      if k == -1 then -1 else k + 1
  }

  /** `s.filter(y => y !== x)`: every occurrence of `x` dropped, the rest in order. */
  function Without<T(==)>(s: seq<T>, x: T): (r: seq<T>)
    ensures x !in r
    ensures multiset(r) == multiset(s)[x := 0]
    ensures |r| <= |s|
  {
    if |s| == 0 then []
    else
      assert s == [s[0]] + s[1..];
      if s[0] == x then Without(s[1..], x) else [s[0]] + Without(s[1..], x)
  }

  /** On a list where `x` occurs once, at `i`, dropping `x` is removing position `i`:
      the other elements keep their relative order. */
  lemma {:induction false} WithoutAt<T>(s: seq<T>, i: nat)
    requires i < |s| && NoDup(s)
    ensures Without(s, s[i]) == s[..i] + s[i + 1..]
  {
    if i == 0 {
      WithoutAbsent(s[1..], s[0]);
    } else {
      assert NoDup(s[1..]);
      WithoutAt(s[1..], i - 1);
      assert s[1..][..i - 1] == s[1..i];
      assert s[1..][i..] == s[i + 1..];
      assert s[..i] == [s[0]] + s[1..i];
    }
  }

  lemma {:induction false} WithoutAbsent<T>(s: seq<T>, x: T)
    requires x !in s
    ensures Without(s, x) == s
  {
    if |s| > 0 {
      WithoutAbsent(s[1..], x);
    }
  }

  lemma WithoutNoDup<T>(s: seq<T>, x: T)
    requires NoDup(s)
    ensures NoDup(Without(s, x))
  {
    if x in s {
      var i :| 0 <= i < |s| && s[i] == x;
      WithoutAt(s, i);
    } else {
      WithoutAbsent(s, x);
    }
  }

  /** The position `splice(start, ...)` acts on: a negative start counts back from
      the end (floored at 0), a start past the end is the end. */
  function SpliceIndex(start: int, len: nat): (k: nat)
    ensures k <= len
    ensures 0 <= start <= len ==> k == start
    ensures start > len ==> k == len
  {
    if start < 0 then (if len + start < 0 then 0 else len + start)
    else if start > len then len
    else start
  }

  /** `s.splice(start, 0, x)` on a copy of `s`: `x` inserted at the clamped position. */
  function Insert<T>(s: seq<T>, start: int, x: T): (r: seq<T>)
    ensures |r| == |s| + 1
    ensures multiset(r) == multiset(s) + multiset{x}
    ensures r[SpliceIndex(start, |s|)] == x
    ensures r == s[..SpliceIndex(start, |s|)] + [x] + s[SpliceIndex(start, |s|)..]
  {
    var k := SpliceIndex(start, |s|);
    assert s == s[..k] + s[k..];
    s[..k] + [x] + s[k..]
  }

  /** `s.splice(i, 1)` for a valid position `i`. */
  function RemoveAt<T>(s: seq<T>, i: nat): (r: seq<T>)
    requires i < |s|
    ensures |r| == |s| - 1
    ensures multiset(r) == multiset(s) - multiset{s[i]}
  {
    assert s == s[..i] + [s[i]] + s[i + 1..];
    s[..i] + s[i + 1..]
  }

  /** Splicing out what `Insert` spliced in gives the list back. */
  lemma RemoveInserted<T>(s: seq<T>, start: int, x: T)
    ensures RemoveAt(Insert(s, start, x), SpliceIndex(start, |s|)) == s
  {
    var k := SpliceIndex(start, |s|);
    var r := Insert(s, start, x);
    assert r[..k] == s[..k];
    assert r[k + 1..] == s[k..];
  }

  /** `moved` is `s` with the element at `k` taken out and put back at `at`: same
      length and elements, that element at `at`, the rest in their old order. */
  ghost predicate ListMoved<T>(s: seq<T>, moved: seq<T>, k: nat, at: nat)
  {
    && k < |s| && at < |moved|
    && |moved| == |s|
    && multiset(moved) == multiset(s)
    && moved[at] == s[k]
    && moved[..at] + moved[at + 1..] == s[..k] + s[k + 1..]
  }

  /** Moving the element at `k` to position `start` (splice out, splice back in)
      permutes the list: same length and members, the element lands at the clamped
      position, and the other elements keep their order. */
  lemma MoveInList<T>(s: seq<T>, k: nat, start: int)
    requires k < |s|
    ensures ListMoved(s, Insert(RemoveAt(s, k), start, s[k]), k, SpliceIndex(start, |s| - 1))
  {
    var rest := RemoveAt(s, k);
    assert s[k] in multiset(s);
    assert multiset(Insert(rest, start, s[k])) == multiset(rest) + multiset{s[k]};
    RemoveInserted(rest, start, s[k]);
  }

  /** `insertBefore`-or-append: `x` goes immediately before `before` when that is in
      the list, otherwise at the end. */
  function InsertBefore<T(==)>(s: seq<T>, before: Option<T>, x: T): (r: seq<T>)
    ensures multiset(r) == multiset(s) + multiset{x}
    ensures before.Some? && before.value in s ==>
              r == s[..IndexOf(s, before.value)] + [x] + s[IndexOf(s, before.value)..]
    ensures !(before.Some? && before.value in s) ==> r == s + [x]
  {
    if before.Some? && IndexOf(s, before.value) != -1 then Insert(s, IndexOf(s, before.value), x)
    else Insert(s, |s|, x)
  }

  /** The splice-or-push step addComponent applies to its target list:
      `indexOf` the anchor, `splice` the new id in there when found, `push` it
      otherwise. */
  method SpliceBefore<T(==)>(list: seq<T>, before: Option<T>, x: T) returns (r: seq<T>)
    ensures r == InsertBefore(list, before, x)
  {
    r := list;
    if before.Some? {
      var insertIndex := IndexOf(r, before.value);
      if insertIndex != -1 {
        r := Insert(r, insertIndex, x);
      } else {
        r := r + [x];
      }
    } else {
      r := r + [x];
    }
  }
}
