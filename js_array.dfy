/**
 * The three JavaScript array operations the control applies to its binding
 * list and to the control registry: `indexOf`, `splice(start, 1)`, and the
 * guarded "remove if found" that combines them.
 */
module JsArray {

  /** `Array.prototype.indexOf`: the index of the first occurrence of `x`, or -1. */
  function IndexOf<T(==)>(s: seq<T>, x: T): (r: int)
    ensures -1 <= r < |s|
    ensures r == -1 <==> x !in s
    ensures 0 <= r ==> s[r] == x && x !in s[..r]
  {
    if |s| == 0 then -1
    else if s[0] == x then 0
    else
      var k := IndexOf(s[1..], x);
      assert k >= 0 ==> s[..k + 1] == [s[0]] + s[1..][..k];
      if k == -1 then -1 else k + 1
  }

  /**
   * The position `splice(start, 1)` works from: a negative start counts back
   * from the end and is clamped at 0, a start past the end is clamped to the length.
   */
  function SpliceStart(length: nat, start: int): (k: nat)
    ensures k <= length
    ensures 0 <= start <= length ==> k == start
    ensures start < 0 <= length + start ==> k == length + start
    ensures length + start < 0 ==> k == 0
    ensures start > length ==> k == length
  {
    if start < 0 then (if length + start < 0 then 0 else length + start)
    else if start > length then length
    else start
  }

  /** `Array.prototype.splice(start, 1)`: removes at most one element, the one at the normalised start. */
  function SpliceOne<T>(s: seq<T>, start: int): (r: seq<T>)
    ensures start >= |s| ==> r == s
    ensures s != [] && start < |s| ==> |r| == |s| - 1
    ensures 0 <= start < |s| ==> r == s[..start] + s[start + 1..]
    ensures -|s| <= start < 0 ==> r == s[..|s| + start] + s[|s| + start + 1..]
    ensures start < -|s| && s != [] ==> r == s[1..]
  {
    var k := SpliceStart(|s|, start);
    if k < |s| then s[..k] + s[k + 1..] else s
  }

  /** No element occurs twice. */
  predicate NoDuplicates<T(==)>(s: seq<T>) {
    forall i, j | 0 <= i < j < |s| :: s[i] != s[j]
  }

  /**
   * `if ((i = s.indexOf(x)) > -1) s.splice(i, 1)`: the guarded removal the
   * control applies to its binding list. What it deletes is stated by
   * `RemoveFirstDeletesFirstOccurrence`.
   */
  function RemoveFirst<T(==)>(s: seq<T>, x: T): (r: seq<T>)
    ensures x !in s ==> r == s
    ensures x in s ==> |r| == |s| - 1
  {
    var i := IndexOf(s, x);
    if i > -1 then SpliceOne(s, i) else s
  }

  /**
   * The guarded removal deletes exactly the first occurrence of `x` and keeps
   * every other element, in order.
   */
  lemma RemoveFirstDeletesFirstOccurrence<T>(s: seq<T>, x: T)
    requires x in s
    ensures exists i :: 0 <= i < |s| && s[i] == x && x !in s[..i] && RemoveFirst(s, x) == s[..i] + s[i + 1..]
    ensures multiset(RemoveFirst(s, x)) == multiset(s) - multiset{x}
  {
    var i := IndexOf(s, x);
    assert s == s[..i] + [s[i]] + s[i + 1..];
  }

  /** Removing an element keeps a duplicate-free sequence duplicate-free. */
  lemma {:induction false} RemoveFirstKeepsNoDuplicates<T>(s: seq<T>, x: T)
    requires NoDuplicates(s)
    ensures NoDuplicates(RemoveFirst(s, x))
    ensures x !in RemoveFirst(s, x)
  {
    var r := RemoveFirst(s, x);
    if x in s {
      var i := IndexOf(s, x);
      assert r == s[..i] + s[i + 1..];
      forall a, b | 0 <= a < b < |r| ensures r[a] != r[b] {
        var a' := if a < i then a else a + 1;
        var b' := if b < i then b else b + 1;
        assert r[a] == s[a'] && r[b] == s[b'] && a' < b';
      }
      forall a | 0 <= a < |r| ensures r[a] != x {
        var a' := if a < i then a else a + 1;
        assert r[a] == s[a'] && a' != i;
      }
    }
  }

  /**
   * `s.splice(s.indexOf(x), 1)` with no check of the index: when `x` is
   * absent, indexOf yields -1 and the splice drops the LAST element.
   */
  lemma UnguardedSpliceDropsLast<T>(s: seq<T>, x: T)
    requires x !in s && s != []
    ensures SpliceOne(s, IndexOf(s, x)) == s[..|s| - 1]
  {
  }

  /** When `x` is present the unguarded splice agrees with `RemoveFirst`. */
  lemma UnguardedSpliceWhenPresent<T>(s: seq<T>, x: T)
    requires x in s
    ensures SpliceOne(s, IndexOf(s, x)) == RemoveFirst(s, x)
  {
  }
}
