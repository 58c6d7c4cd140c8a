/** The three JavaScript array mutations the terminal uses on its line
    table and on its rows, as functions on sequences: `splice`, `pop` and
    assignment to an index (which extends the array, leaving holes, when the
    index is at or past the end). */
module JsArray {

  function Min(a: int, b: int): int { if a <= b then a else b }

  /** Where `splice(start, ...)` starts on an array of length `len`: a
      negative start counts from the end, and both ends are clamped. */
  function SpliceStart(len: nat, start: int): (k: nat)
    ensures k <= len
    ensures 0 <= start <= len ==> k == start
  {
    if start < 0 then (if len + start < 0 then 0 else len + start)
    else if start > len then len
    else start
  }

  /** `s.splice(start, del, ...items)`, returning the new array. */
  function Splice<T>(s: seq<T>, start: int, del: nat, items: seq<T>): (r: seq<T>)
    ensures |r| == |s| - Min(del, |s| - SpliceStart(|s|, start)) + |items|
  {
    var k := SpliceStart(|s|, start);
    var d := Min(del, |s| - k);
    s[..k] + items + s[k + d..]
  }

  /** What `splice` keeps and what it puts in: the elements before the
      start, then the new items, then what follows the deleted ones. */
  lemma SpliceParts<T>(s: seq<T>, start: int, del: nat, items: seq<T>)
    ensures var r := Splice(s, start, del, items);
      var k := SpliceStart(|s|, start);
      && r[..k] == s[..k]
      && r[k..k + |items|] == items
      && r[k + |items|..] == s[k + Min(del, |s| - k)..]
  {
    var k := SpliceStart(|s|, start);
    var d := Min(del, |s| - k);
    assert (s[..k] + items + s[k + d..])[k + |items|..] == s[k + d..];
  }

  /** `s.pop()`, returning the shortened array. */
  function Pop<T>(s: seq<T>): (r: seq<T>)
    ensures s != [] ==> r == s[..|s| - 1]
    ensures s == [] ==> r == []
  {
    if s == [] then [] else s[..|s| - 1]
  }

  /** `s[i] = v` for an index `i >= 0`: inside the array it replaces one
      element; at or past the end it extends the array, and the positions
      skipped over become holes, recorded here as `hole`. */
  function SetAt<T>(s: seq<T>, i: nat, v: T, hole: T): (r: seq<T>)
    ensures |r| == if i < |s| then |s| else i + 1
    ensures r[i] == v
  {
    if i < |s| then s[i := v] else s + seq(i - |s|, _ => hole) + [v]
  }

  /** The other positions after `SetAt`: old elements below the old length,
      holes above it. */
  lemma SetAtOthers<T>(s: seq<T>, i: nat, v: T, hole: T)
    ensures var r := SetAt(s, i, v, hole);
      forall k :: 0 <= k < |r| && k != i ==> r[k] == if k < |s| then s[k] else hole
  {
  }

  /** Inserting one element and deleting one further on is a rotation of
      the part between them: the shape `insertLines` and `scroll` use. */
  lemma InsertThenDelete<T>(s: seq<T>, i: nat, j: nat, v: T)
    requires i <= j < |s|
    ensures Splice(Splice(s, i, 0, [v]), j + 1, 1, []) == s[..i] + [v] + s[i..j] + s[j + 1..]
  {
    var t := Splice(s, i, 0, [v]);
    assert t == s[..i] + [v] + s[i..];
    var u := Splice(t, j + 1, 1, []);
    assert u == t[..j + 1] + t[j + 2..];
    assert t[..j + 1] == s[..i] + [v] + s[i..j];
    assert t[j + 2..] == s[j + 1..];
  }

  /** The mirror image, used by `deleteLines`: insert further on, then delete
      one before it. */
  lemma DeleteThenInsert<T>(s: seq<T>, i: nat, j: nat, v: T)
    requires i < j <= |s|
    ensures Splice(Splice(s, j, 0, [v]), i, 1, []) == s[..i] + s[i + 1..j] + [v] + s[j..]
  {
    var a, b := s[..j], s[j..];
    var t := Splice(s, j, 0, [v]);
    assert t == a + [v] + b;
    assert Splice(t, i, 1, []) == t[..i] + t[i + 1..];
    assert t[..i] == a[..i] == s[..i];
    assert t[i + 1..] == a[i + 1..] + [v] + b;
    assert a[i + 1..] == s[i + 1..j];
  }
  /** Overwriting an element just inserted is inserting the new one. */
  lemma InsertThenSet<T>(s: seq<T>, k: nat, v: T, w: T)
    requires k <= |s|
    ensures Splice(s, k, 0, [v])[k := w] == Splice(s, k, 0, [w])
  {
    assert Splice(s, k, 0, [v]) == s[..k] + [v] + s[k..];
    assert Splice(s, k, 0, [w]) == s[..k] + [w] + s[k..];
  }

  /** Overwriting an element before an insertion point commutes with the
      insertion. */
  lemma SetBeforeInsert<T>(s: seq<T>, i: nat, k: nat, v: T, w: T)
    requires i < k <= |s|
    ensures Splice(s, k, 0, [v])[i := w] == Splice(s[i := w], k, 0, [v])
  {
    assert Splice(s, k, 0, [v]) == s[..k] + [v] + s[k..];
    assert Splice(s[i := w], k, 0, [v]) == s[i := w][..k] + [v] + s[i := w][k..];
  }

  /** `InsertThenDelete` element by element: `v` takes place `i`, the part
      from `i` to `j` moves one place down, the rest stays. */
  lemma RotateDown<T>(s: seq<T>, i: nat, j: nat, v: T)
    requires i <= j < |s|
    ensures var u := Splice(Splice(s, i, 0, [v]), j + 1, 1, []);
      && |u| == |s| && u[i] == v
      && (forall k :: 0 <= k < |s| && (k < i || k > j) ==> u[k] == s[k])
      && (forall k :: i <= k < j ==> u[k + 1] == s[k])
  {
    InsertThenDelete(s, i, j, v);
    var u := s[..i] + [v] + s[i..j] + s[j + 1..];
    forall k | 0 <= k < |s| && k > j
      ensures u[k] == s[k]
    {
      assert u[k] == s[j + 1..][k - j - 1];
    }
    forall k | i <= k < j
      ensures u[k + 1] == s[k]
    {
      assert u[k + 1] == s[i..j][k - i];
    }
  }

  /** `DeleteThenInsert` element by element: the part from `i + 1` to `j`
      moves one place up, `v` takes place `j - 1`, the rest stays. */
  lemma RotateUp<T>(s: seq<T>, i: nat, j: nat, v: T)
    requires i < j <= |s|
    ensures var u := Splice(Splice(s, j, 0, [v]), i, 1, []);
      && |u| == |s| && u[j - 1] == v
      && (forall k :: 0 <= k < |s| && (k < i || k >= j) ==> u[k] == s[k])
      && (forall k :: i <= k < j - 1 ==> u[k] == s[k + 1])
  {
    DeleteThenInsert(s, i, j, v);
    var u := s[..i] + s[i + 1..j] + [v] + s[j..];
    forall k | 0 <= k < |s| && k >= j
      ensures u[k] == s[k]
    {
      assert u[k] == s[j..][k - j];
    }
    forall k | i <= k < j - 1
      ensures u[k] == s[k + 1]
    {
      assert u[k] == s[i + 1..j][k - i];
    }
  }
}
