/** The JavaScript built-ins the particle field relies on, with their
    ECMAScript behaviour written out: strict-equality search, one-element
    splice, three.js child removal and the Uint16 store conversion. */
module JsArrays {

  datatype Option<T> = None | Some(value: T)

  /** `s.findIndex(e => e === x)` (the same as `s.indexOf(x)`): the first
      position holding x, or -1 when x does not occur. */
  function FindIndex<T(==)>(s: seq<T>, x: T): (r: int)
    ensures -1 <= r < |s|
    ensures r == -1 <==> x !in s
    ensures r >= 0 ==> s[r] == x && x !in s[..r]
  {
    if |s| == 0 then -1
    else if s[0] == x then 0
    else
      var k := FindIndex(s[1..], x);
      assert k >= 0 ==> s[..k + 1] == [s[0]] + s[1..][..k];
      if k == -1 then -1 else k + 1
  }

  /** The position `splice` starts at: a negative start counts back from
      the end and is clamped at 0, a start past the end is clamped there. */
  function SpliceStart(len: nat, start: int): (from: nat)
    ensures from <= len
    ensures 0 <= start <= len ==> from == start
    ensures -(len as int) <= start < 0 ==> from == len + start
    ensures start < -(len as int) ==> from == 0
    ensures start > len ==> from == len
  {
    if start < 0 then (if len + start < 0 then 0 else len + start)
    else if start > len then len else start
  }

  /** The array `s.splice(start, 1)` leaves behind: the element at the
      start position goes, when there is one. */
  function SpliceOne<T>(s: seq<T>, start: int): (r: seq<T>)
    ensures |r| == if start < |s| && s != [] then |s| - 1 else |s|
  {
    var from := SpliceStart(|s|, start);
    if from < |s| then s[..from] + s[from + 1..] else s
  }

  /** Removing x through `splice(findIndex(x), 1)`, as the particle field
      detaches its hit area (the -1 of a missing x is passed on). */
  function SpliceFound<T(==)>(s: seq<T>, x: T): seq<T>
  {
    SpliceOne(s, FindIndex(s, x))
  }

  /** A missing element makes findIndex answer -1, and splice(-1, 1) then
      drops the LAST element of a non-empty array. */
  lemma SpliceMissingDropsLast<T>(s: seq<T>, x: T)
    requires x !in s
    ensures SpliceFound(s, x) == if s == [] then [] else s[..|s| - 1]
  {
  }

  /** A present element loses exactly its first occurrence (FindIndex is
      the first position holding it); everything else keeps its order. */
  lemma SpliceFoundRemovesFirst<T>(s: seq<T>, x: T)
    requires x in s
    ensures var k := FindIndex(s, x);
      0 <= k < |s| && SpliceFound(s, x) == s[..k] + s[k + 1..]
  {
    var k := FindIndex(s, x);
    assert SpliceStart(|s|, k) == k;
  }

  /** Pushing an element that was absent and then splicing it out at its
      findIndex position gives back the original array. */
  lemma PushThenSpliceRestores<T>(s: seq<T>, x: T)
    requires x !in s
    ensures SpliceFound(s + [x], x) == s
  {
    assert (s + [x])[..|s|] == s;
  }

  /** Removing x a second time, once it is gone, takes the last element
      with it. */
  lemma SecondRemovalDropsLast<T>(s: seq<T>, x: T)
    requires x !in s && s != []
    ensures SpliceFound(SpliceFound(s + [x], x), x) == s[..|s| - 1]
  {
    PushThenSpliceRestores(s, x);
    SpliceMissingDropsLast(s, x);
  }

  /** three.js `Object3D.remove(x)`: when x is a child it is spliced out at
      its indexOf position, otherwise the children stay as they are. */
  function Unparent<T(==)>(children: seq<T>, x: T): (r: seq<T>)
    ensures x !in children ==> r == children
    ensures x in children ==> |r| == |children| - 1
  {
    var k := FindIndex(children, x);
    if k == -1 then children
    else SpliceOne(children, k)
  }

  predicate Distinct<T(==)>(s: seq<T>)
  {
    forall a, b :: 0 <= a < b < |s| ==> s[a] != s[b]
  }

  /** Appending an element that is not there yet keeps a list without
      repeats; three.js `add` only ever appends a new child. */
  lemma DistinctAppend<T>(s: seq<T>, x: T)
    requires Distinct(s) && x !in s
    ensures Distinct(s + [x])
  {
    var r := s + [x];
    forall a, b | 0 <= a < b < |r|
      ensures r[a] != r[b]
    {
      if b == |s| {
        assert r[a] == s[a];
      } else {
        assert r[a] == s[a] && r[b] == s[b];
      }
    }
  }

  /** Among distinct children, removing x takes away exactly x (when it is
      there) and keeps the rest distinct. */
  lemma UnparentRemoves<T>(children: seq<T>, x: T)
    requires Distinct(children)
    ensures Distinct(Unparent(children, x))
    ensures forall y :: y in Unparent(children, x) <==> y in children && y != x
  {
    var k := FindIndex(children, x);
    if k >= 0 {
      assert SpliceStart(|children|, k) == k;
      RemoveAt(children, k);
    }
  }

  /** Dropping position k of a sequence without repeats drops exactly the
      element there. */
  lemma RemoveAt<T>(s: seq<T>, k: nat)
    requires Distinct(s) && k < |s|
    ensures Distinct(s[..k] + s[k + 1..])
    ensures forall y :: y in s[..k] + s[k + 1..] <==> y in s && y != s[k]
  {
    var r := s[..k] + s[k + 1..];
    assert forall j :: 0 <= j < |r| ==> r[j] == s[if j < k then j else j + 1];
    forall y
      ensures y in r <==> y in s && y != s[k]
    {
      if y in r {
        var j :| 0 <= j < |r| && r[j] == y;
        assert y == s[if j < k then j else j + 1];
      }
      if y in s && y != s[k] {
        var j :| 0 <= j < |s| && s[j] == y;
        if j < k {
          assert r[j] == y;
        } else {
          assert r[j - 1] == y;
        }
      }
    }
    forall a, b | 0 <= a < b < |r|
      ensures r[a] != r[b]
    {
      assert r[a] == s[if a < k then a else a + 1];
      assert r[b] == s[if b < k then b else b + 1];
    }
  }

  /** ECMAScript ToUint16 on an integer: the value modulo 2^16, which is
      what a store into a Uint16Array keeps. */
  function ToUint16(v: int): (r: int)
    ensures 0 <= r < 65536
    ensures (v - r) % 65536 == 0
    ensures 0 <= v < 65536 ==> r == v
  {
    v % 65536
  }
}
