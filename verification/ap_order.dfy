/** Kotlin's `sortedByDescending(selector)` over a list, for an integer selector: a
    stable sort that puts larger selector values first. */
module ApOrder {

  /** `s` is ordered by non-increasing `key`. */
  ghost predicate Descending<T>(s: seq<T>, key: T -> int) {
    forall i, j :: 0 <= i < j < |s| ==> key(s[i]) >= key(s[j])
  }

  /** `x` placed into `s` in front of the first element whose key is not larger, so
      that it stays ahead of elements with an equal key. */
  function InsertDescending<T>(x: T, s: seq<T>, key: T -> int): (r: seq<T>)
    ensures multiset(r) == multiset(s) + multiset{x}
  {
    if |s| == 0 || key(x) >= key(s[0]) then
      assert ([x] + s)[1..] == s;
      [x] + s
    else
      assert s == [s[0]] + s[1..];
      [s[0]] + InsertDescending(x, s[1..], key)
  }

  /** Inserting into a descending sequence keeps it descending. */
  lemma {:induction false} InsertKeepsDescending<T>(x: T, s: seq<T>, key: T -> int)
    requires Descending(s, key)
    ensures Descending(InsertDescending(x, s, key), key)
  {
    if |s| > 0 && key(x) < key(s[0]) {
      var t := InsertDescending(x, s[1..], key);
      InsertKeepsDescending(x, s[1..], key);
      HeadAboveInserted(x, s, key);
      ConsDescending(s[0], t, key);
    } else if |s| > 0 {
      ConsDescending(x, s, key);
    }
  }

  /** When `x` goes behind the head of a descending `s`, the head stays above every
      element of the rest with `x` inserted. */
  lemma HeadAboveInserted<T>(x: T, s: seq<T>, key: T -> int)
    requires Descending(s, key)
    requires |s| > 0 && key(x) < key(s[0])
    ensures forall j :: 0 <= j < |InsertDescending(x, s[1..], key)| ==>
      key(s[0]) >= key(InsertDescending(x, s[1..], key)[j])
  {
    var t := InsertDescending(x, s[1..], key);
    forall j | 0 <= j < |t| ensures key(s[0]) >= key(t[j]) {
      assert t[j] in multiset(t);
      assert t[j] in multiset(s[1..]) || t[j] == x;
      if t[j] != x {
        var m :| 0 <= m < |s[1..]| && s[1..][m] == t[j];
        assert s[m + 1] == t[j];
      }
    }
  }

  /** A head whose key bounds every key of a descending tail gives a descending
      sequence. */
  lemma ConsDescending<T>(h: T, t: seq<T>, key: T -> int)
    requires Descending(t, key)
    requires forall j :: 0 <= j < |t| ==> key(h) >= key(t[j])
    ensures Descending([h] + t, key)
  {
    var r := [h] + t;
    forall i, j | 0 <= i < j < |r| ensures key(r[i]) >= key(r[j]) {
      assert r[j] == t[j - 1];
      if i > 0 {
        assert r[i] == t[i - 1];
      }
    }
  }

  /** The stable descending sort by insertion: the result is a permutation of `s`
      ordered by non-increasing `key`. */
  function SortedByDescending<T>(s: seq<T>, key: T -> int): (r: seq<T>)
    ensures multiset(r) == multiset(s)
    ensures Descending(r, key)
  {
    if |s| == 0 then []
    else
      var t := SortedByDescending(s[1..], key);
      assert s == [s[0]] + s[1..];
      InsertKeepsDescending(s[0], t, key);
      InsertDescending(s[0], t, key)
  }
}
