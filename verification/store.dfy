/**
 * The keyed-array plumbing the three record services share: every record
 * carries an integer `Id`, lookups use `find`/`findIndex` (first match), new
 * ids are one more than the largest id present, and deletion is
 * `splice(index, 1)`.
 */
module Store {
  import opened Wrappers
  import Seqs

  /** No two records share an id. */
  ghost predicate UniqueIds<T>(s: seq<T>, key: T -> int) {
    forall i, j :: 0 <= i < j < |s| ==> key(s[i]) != key(s[j])
  }

  /** `findIndex(r => r.Id === id)`: the first position holding `id`, or none. */
  function FindIndex<T>(s: seq<T>, key: T -> int, id: int): (r: Option<nat>)
    ensures r.None? <==> forall i :: 0 <= i < |s| ==> key(s[i]) != id
    ensures r.Some? ==> r.value < |s| && key(s[r.value]) == id
    ensures r.Some? ==> forall i :: 0 <= i < r.value ==> key(s[i]) != id
  {
    if |s| == 0 then None
    else if key(s[0]) == id then Some(0)
    else
      match FindIndex(s[1..], key, id)
      case None => None
      case Some(k) => Some(k + 1)
  }

  /** `find(r => r.Id === id)`: the first record holding `id`, or none. */
  function Find<T>(s: seq<T>, key: T -> int, id: int): (r: Option<T>)
    ensures r.None? <==> forall i :: 0 <= i < |s| ==> key(s[i]) != id
    ensures r.Some? ==> r.value in s && key(r.value) == id
  {
    match FindIndex(s, key, id)
    case None => None
    case Some(i) => Some(s[i])
  }

  /** The first position holding `id` is the one `findIndex` reports. */
  lemma FindIndexIs<T>(s: seq<T>, key: T -> int, id: int, i: nat)
    requires i < |s| && key(s[i]) == id
    requires forall j :: 0 <= j < i ==> key(s[j]) != id
    ensures FindIndex(s, key, id) == Some(i)
  {
    assert FindIndex(s, key, id).Some?;
  }

  /** In a store without duplicate ids the first match is the only one. */
  lemma FindIndexUnique<T>(s: seq<T>, key: T -> int, i: nat)
    requires UniqueIds(s, key) && i < |s|
    ensures FindIndex(s, key, key(s[i])) == Some(i)
  {
  }

  /** The largest id present. */
  function MaxId<T>(s: seq<T>, key: T -> int): (m: int)
    requires |s| > 0
    ensures forall i :: 0 <= i < |s| ==> key(s[i]) <= m
    ensures exists i :: 0 <= i < |s| && key(s[i]) == m
  {
    if |s| == 1 then key(s[0])
    else
      var m := MaxId(s[1..], key);
      assert key(s[1..][0]) <= m;
      if key(s[0]) >= m then key(s[0]) else m
  }

  /**
   * `(s.length > 0 ? Math.max(...ids) : 0) + 1`: strictly above every id
   * present, and only one above the largest.
   */
  function NextId<T>(s: seq<T>, key: T -> int): (r: int)
    ensures |s| == 0 ==> r == 1
    ensures forall i :: 0 <= i < |s| ==> key(s[i]) < r
    ensures |s| > 0 ==> exists i :: 0 <= i < |s| && key(s[i]) == r - 1
  {
    (if |s| > 0 then MaxId(s, key) else 0) + 1
  }

  /** `splice(i, 1)`: `s` without its element at `i`, the others in order. */
  function RemoveAt<T>(s: seq<T>, i: nat): (r: seq<T>)
    requires i < |s|
    ensures |r| == |s| - 1
    ensures forall j :: 0 <= j < i ==> r[j] == s[j]
    ensures forall j :: i <= j < |r| ==> r[j] == s[j + 1]
    ensures multiset(r) + multiset{s[i]} == multiset(s)
  {
    assert s == s[..i] + [s[i]] + s[i + 1..];
    s[..i] + s[i + 1..]
  }

  /** Appending a record whose id is fresh keeps ids unique. */
  lemma AppendFreshUnique<T>(s: seq<T>, x: T, key: T -> int)
    requires UniqueIds(s, key)
    requires forall i :: 0 <= i < |s| ==> key(s[i]) < key(x)
    ensures UniqueIds(s + [x], key)
  {
  }

  /** Replacing a record by one with the same id keeps ids unique. */
  lemma ReplaceSameIdUnique<T>(s: seq<T>, i: nat, x: T, key: T -> int)
    requires UniqueIds(s, key) && i < |s| && key(x) == key(s[i])
    ensures UniqueIds(s[i := x], key)
  {
  }

  /** Removing a record keeps ids unique. */
  lemma RemoveUnique<T>(s: seq<T>, i: nat, key: T -> int)
    requires UniqueIds(s, key) && i < |s|
    ensures UniqueIds(RemoveAt(s, i), key)
  {
    var r := RemoveAt(s, i);
    forall a, b | 0 <= a < b < |r|
      ensures key(r[a]) != key(r[b])
    {
      var a' := if a < i then a else a + 1;
      var b' := if b < i then b else b + 1;
      assert r[a] == s[a'] && r[b] == s[b'];
    }
  }

  /** Removing the record at `i` keeps every record whose id differs from its id. */
  lemma RemoveAtKeepsOthers<T>(s: seq<T>, i: nat, key: T -> int)
    requires i < |s|
    ensures forall x :: x in s && key(x) != key(s[i]) ==> x in RemoveAt(s, i)
  {
    var rest := RemoveAt(s, i);
    forall x | x in s && key(x) != key(s[i])
      ensures x in rest
    {
      var k :| 0 <= k < |s| && s[k] == x;
      if k < i {
        assert rest[k] == x;
      } else {
        assert rest[k - 1] == x;
      }
    }
  }

  /** Removing one occurrence leaves the rest in their original order. */
  lemma RemoveAtSubsequence<T>(s: seq<T>, i: nat)
    requires i < |s|
    ensures Seqs.IsSubsequence(RemoveAt(s, i), s)
  {
    RemoveAtSubsequenceRec(s, i);
  }

  lemma {:induction false} RemoveAtSubsequenceRec<T>(s: seq<T>, i: nat)
    requires i < |s|
    ensures Seqs.IsSubsequence(s[..i] + s[i + 1..], s)
    decreases i
  {
    if i == 0 {
      assert s[..0] + s[1..] == s[1..];
      Seqs.SubsequenceRefl(s[1..]);
      if |s[1..]| > 0 {
        assert Seqs.IsSubsequence(s[1..], s[1..]);
      }
    } else {
      RemoveAtSubsequenceRec(s[1..], i - 1);
      var r := s[..i] + s[i + 1..];
      assert r[0] == s[0];
      assert r[1..] == s[1..][..i - 1] + s[1..][i..];
    }
  }
}
