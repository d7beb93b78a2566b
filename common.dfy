/** Small value helpers shared by the proposal model: an optional value,
    "first element satisfying a condition" (the `.first` of a filtered
    relation), counting, and order-preserving de-duplication (Ruby's `uniq`). */
module Common {

  datatype Option<+T> = None | Some(value: T)

  /** Index of the first element of `s` that satisfies `p`, if any. */
  function FirstIndex<T>(s: seq<T>, p: T -> bool): (r: Option<nat>)
    ensures r.Some? ==> r.value < |s| && p(s[r.value])
    ensures r.Some? ==> forall j :: 0 <= j < r.value ==> !p(s[j])
    ensures r.None? <==> forall j :: 0 <= j < |s| ==> !p(s[j])
  {
    if |s| == 0 then None
    else if p(s[0]) then Some(0)
    else match FirstIndex(s[1..], p)
      case None => None
      case Some(k) => Some(k + 1)
  }

  /** Number of elements of `s` that satisfy `p`. */
  function Count<T>(s: seq<T>, p: T -> bool): (n: nat)
    ensures n <= |s|
    ensures n == 0 <==> forall j :: 0 <= j < |s| ==> !p(s[j])
    ensures n == |s| <==> forall j :: 0 <= j < |s| ==> p(s[j])
  {
    if |s| == 0 then 0
    else (if p(s[0]) then 1 else 0) + Count(s[1..], p)
  }

  /** Replacing one element changes the count by at most the two elements involved. */
  lemma {:induction false} CountUpdate<T>(s: seq<T>, p: T -> bool, i: nat, x: T)
    requires i < |s|
    ensures Count(s[i := x], p) + (if p(s[i]) then 1 else 0)
         == Count(s, p) + (if p(x) then 1 else 0)
  {
    if i == 0 {
      assert s[i := x][1..] == s[1..];
    } else {
      assert s[i := x][1..] == s[1..][i - 1 := x];
      CountUpdate(s[1..], p, i - 1, x);
    }
  }

  predicate NoDuplicates<T(==)>(s: seq<T>) {
    forall i, j :: 0 <= i < j < |s| ==> s[i] != s[j]
  }

  /** Index of the first occurrence of `x` in `s`. */
  function IndexOf<T(==)>(s: seq<T>, x: T): (i: nat)
    requires x in s
    ensures i < |s| && s[i] == x && x !in s[..i]
  {
    if s[0] == x then 0 else 1 + IndexOf(s[1..], x)
  }

  /** The first occurrence of an element of a prefix lies in that prefix. */
  lemma {:induction false} IndexOfPrefix<T>(s: seq<T>, n: nat, x: T)
    requires n <= |s| && x in s[..n]
    ensures IndexOf(s, x) == IndexOf(s[..n], x)
  {
    if s[0] != x {
      assert s[1..][..n - 1] == s[..n][1..];
      IndexOfPrefix(s[1..], n - 1, x);
    }
  }

  /** Elements taken from a prefix have their first occurrence there. */
  lemma PrefixIndices<T>(s: seq<T>, n: nat, d: seq<T>)
    requires n <= |s| && forall x :: x in d ==> x in s[..n]
    ensures forall i :: 0 <= i < |d| ==> d[i] in s && IndexOf(s, d[i]) < n
    ensures forall i :: 0 <= i < |d| ==> IndexOf(s, d[i]) == IndexOf(s[..n], d[i])
  {
    forall i | 0 <= i < |d| ensures d[i] in s && IndexOf(s, d[i]) == IndexOf(s[..n], d[i]) {
      assert d[i] in s[..n];
      var k :| 0 <= k < n && s[..n][k] == d[i];
      assert s[k] == d[i];
      IndexOfPrefix(s, n, d[i]);
    }
  }

  /** An element first occurring at the end has its first occurrence there. */
  lemma IndexOfLast<T>(s: seq<T>)
    requires |s| > 0 && s[|s| - 1] !in s[..|s| - 1]
    ensures IndexOf(s, s[|s| - 1]) == |s| - 1
  {
  }

  /** Ruby's `uniq`: keeps the first occurrence of every element, in the
      order of those first occurrences. */
  function Dedup<T(==,!new)>(s: seq<T>): (r: seq<T>)
    ensures NoDuplicates(r)
    ensures forall x :: x in r <==> x in s
    ensures forall i, j :: 0 <= i < j < |r| ==> IndexOf(s, r[i]) < IndexOf(s, r[j])
    ensures |r| <= |s|
  {
    if |s| == 0 then []
    else
      var n := |s| - 1;
      var d := Dedup(s[..n]);
      PrefixIndices(s, n, d);
      if s[n] in d then d
      else
        assert s[n] !in s[..n];
        IndexOfLast(s);
        d + [s[n]]
  }

  /** ASCII white space, as Ruby's `blank?` treats it. */
  predicate IsSpace(c: char) {
    c == ' ' || c == '\t' || c == '\n' || c == '\r' || c == '\U{0B}' || c == '\U{0C}'
  }

  /** Ruby's `String#blank?`: empty or white space only. */
  predicate BlankString(s: string) {
    forall i :: 0 <= i < |s| ==> IsSpace(s[i])
  }
}
