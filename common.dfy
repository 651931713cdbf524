/** Small value types shared by the backend and the frontend models:
    optional values, results with an error kind, and JavaScript's
    `slice` on arrays and strings. */
module Common {

  /** Kotlin's nullable values and TypeScript's optional fields. */
  datatype Option<+T> = None | Some(value: T) {
    function GetOr(default: T): T {
      match this
      case Some(v) => v
      case None => default
    }
  }

  /** A value, or the kind of failure an exception would have signalled. */
  datatype Result<+T, +E> = Success(value: T) | Failure(error: E)

  function Min(a: int, b: int): int { if a <= b then a else b }
  function Max(a: int, b: int): int { if a <= b then b else a }

  /** The index that `Array.prototype.slice` and `String.prototype.slice`
      derive from a relative position: a negative position counts back
      from the end, and the result is clipped to `0..len`. */
  function RelativeIndex(pos: int, len: nat): (r: nat)
    ensures r <= len
    ensures 0 <= pos ==> r == Min(pos, len)
    ensures pos < 0 ==> r == Max(len + pos, 0)
  {
    if pos < 0 then (if len + pos < 0 then 0 else len + pos)
    else if pos < len then pos else len
  }

  /** JavaScript's `s.slice(start, end)`. */
  function JsSlice<T>(s: seq<T>, start: int, end: int): (r: seq<T>)
    ensures 0 <= start <= end ==> |r| == Max(0, Min(end, |s|) - start)
    ensures 0 <= start ==> forall k :: 0 <= k < |r| ==> start + k < |s| && r[k] == s[start + k]
  {
    var from := RelativeIndex(start, |s|);
    var to := RelativeIndex(end, |s|);
    if from < to then s[from..to] else []
  }

  /** The position of the first element of `s` that satisfies `p`: the
      lookup behind `find`, `findById` and a select on a key. */
  function FindIndex<T>(s: seq<T>, p: T -> bool): (r: Option<nat>)
    ensures r.Some? ==> r.value < |s| && p(s[r.value]) && forall j :: 0 <= j < r.value ==> !p(s[j])
    ensures r.None? <==> forall j :: 0 <= j < |s| ==> !p(s[j])
  {
    if s == [] then None
    else if p(s[0]) then Some(0)
    else match FindIndex(s[1..], p)
      case None => None
      case Some(k) => Some(k + 1)
  }

  /** Every element of `s` that satisfies `keep`, in their original order:
      the `filter` of arrays. */
  function Filter<T>(s: seq<T>, keep: T -> bool): (r: seq<T>)
    ensures |r| <= |s|
    ensures forall k :: 0 <= k < |r| ==> r[k] in s && keep(r[k])
    ensures forall k :: 0 <= k < |s| && keep(s[k]) ==> s[k] in r
  {
    if s == [] then []
    else if keep(s[0]) then [s[0]] + Filter(s[1..], keep)
    else Filter(s[1..], keep)
  }

  /** `Filter` keeps the relative order of what it keeps: the elements of
      `s` at increasing positions `i < j` that both survive appear in the
      result in that order. */
  lemma {:induction false} FilterPreservesOrder<T>(s: seq<T>, keep: T -> bool, i: nat, j: nat)
    requires i < j < |s| && keep(s[i]) && keep(s[j])
    ensures exists a, b :: 0 <= a < b < |Filter(s, keep)| && Filter(s, keep)[a] == s[i] && Filter(s, keep)[b] == s[j]
  {
    if i == 0 {
      assert s[j] == s[1..][j - 1];
      var b :| 0 <= b < |Filter(s[1..], keep)| && Filter(s[1..], keep)[b] == s[j] by {
        assert s[j] in Filter(s[1..], keep);
      }
      assert Filter(s, keep)[0] == s[0] && Filter(s, keep)[b + 1] == s[j];
    } else {
      FilterPreservesOrder(s[1..], keep, i - 1, j - 1);
      var a, b :| 0 <= a < b < |Filter(s[1..], keep)| && Filter(s[1..], keep)[a] == s[1..][i - 1] && Filter(s[1..], keep)[b] == s[1..][j - 1];
      if keep(s[0]) {
        assert Filter(s, keep)[a + 1] == s[i] && Filter(s, keep)[b + 1] == s[j];
      } else {
        assert Filter(s, keep)[a] == s[i] && Filter(s, keep)[b] == s[j];
      }
    }
  }

  /** What `Filter` keeps: exactly the elements of `s` that satisfy `keep`. */
  lemma {:induction false} FilterMembers<T>(s: seq<T>, keep: T -> bool)
    ensures forall x :: x in Filter(s, keep) <==> x in s && keep(x)
  {
    forall x | x in s && keep(x) ensures x in Filter(s, keep) {
      var k :| 0 <= k < |s| && s[k] == x;
    }
  }

  /** Keys that are distinct along `s` stay distinct along what `Filter`
      keeps of it. */
  lemma {:induction false} FilterKeepsDistinct<T, K>(s: seq<T>, keep: T -> bool, key: T -> K)
    requires forall i, j :: 0 <= i < j < |s| ==> key(s[i]) != key(s[j])
    ensures forall i, j :: 0 <= i < j < |Filter(s, keep)| ==> key(Filter(s, keep)[i]) != key(Filter(s, keep)[j])
  {
    if s != [] {
      var rest := Filter(s[1..], keep);
      FilterKeepsDistinct(s[1..], keep, key);
      if keep(s[0]) {
        forall j | 0 <= j < |rest| ensures key(s[0]) != key(rest[j]) {
          var m :| 0 <= m < |s[1..]| && s[1..][m] == rest[j];
          assert s[m + 1] == rest[j];
        }
        assert Filter(s, keep) == [s[0]] + rest;
      }
    }
  }

  /** A filter that keeps everything changes nothing. */
  lemma {:induction false} FilterAll<T>(s: seq<T>, keep: T -> bool)
    requires forall k :: 0 <= k < |s| ==> keep(s[k])
    ensures Filter(s, keep) == s
  {
    if s != [] {
      assert forall k :: 0 <= k < |s[1..]| ==> keep(s[1..][k]) by {
        forall k | 0 <= k < |s[1..]| ensures keep(s[1..][k]) {
          assert s[1..][k] == s[k + 1];
        }
      }
      FilterAll(s[1..], keep);
      assert keep(s[0]);
    }
  }

  /** Filtering a list with one more element at the end. */
  lemma {:induction false} FilterAppend<T>(s: seq<T>, keep: T -> bool, x: T)
    ensures Filter(s + [x], keep) == Filter(s, keep) + (if keep(x) then [x] else [])
  {
    if s == [] {
      assert [] + [x] == [x];
    } else {
      assert (s + [x])[1..] == s[1..] + [x];
      FilterAppend(s[1..], keep, x);
    }
  }

  /** JavaScript's copying `[...s].reverse()`. */
  function Reverse<T>(s: seq<T>): (r: seq<T>)
    ensures |r| == |s|
  {
    if s == [] then [] else Reverse(s[1..]) + [s[0]]
  }

  lemma {:induction false} ReverseAt<T>(s: seq<T>, k: nat)
    requires k < |s|
    ensures Reverse(s)[k] == s[|s| - 1 - k]
  {
    if k < |s| - 1 {
      ReverseAt(s[1..], k);
    }
  }

  /** Reversing twice gives back the original list. */
  lemma ReverseReverse<T>(s: seq<T>)
    ensures Reverse(Reverse(s)) == s
  {
    forall k | 0 <= k < |s|
      ensures Reverse(Reverse(s))[k] == s[k]
    {
      ReverseAt(Reverse(s), k);
      ReverseAt(s, |s| - 1 - k);
    }
  }
}
