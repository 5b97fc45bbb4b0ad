/** The list idioms the CLIs share: an order-preserving filter (a Java
    stream `filter` or a loop that appends matching records) and a search for
    the first record matching a test (`stream().filter(..).findFirst()`). */
module Seqs {

  import opened Wrappers

  /** `r` can be obtained from `s` by deleting elements, so its elements
      appear in `s` in the same relative order. */
  ghost predicate IsSubseq<T>(r: seq<T>, s: seq<T>)
    decreases |s|
  {
    || |r| == 0
    || (|s| > 0 && ((r[0] == s[0] && IsSubseq(r[1..], s[1..])) || IsSubseq(r, s[1..])))
  }

  /** `r` lists exactly the elements of `s` satisfying `p`, each as often as
      it occurs in `s`, in the order of `s`. */
  ghost predicate Selects<T(!new)>(r: seq<T>, s: seq<T>, p: T -> bool) {
    && IsSubseq(r, s)
    && (forall x :: multiset(r)[x] == (if p(x) then multiset(s)[x] else 0))
    && (forall x :: x in r <==> x in s && p(x))
  }

  function Filter<T(!new)>(s: seq<T>, p: T -> bool): (r: seq<T>)
    ensures Selects(r, s, p)
    ensures |r| <= |s|
  {
    if |s| == 0 then []
    else
      assert s == [s[0]] + s[1..];
      var rest := Filter(s[1..], p);
      if p(s[0]) then
        assert ([s[0]] + rest)[1..] == rest;
        [s[0]] + rest
      else rest
  }

  /** Filtering distributes over concatenation: the records selected from
      an earlier part of a list come before those selected from a later one. */
  lemma {:induction false} FilterAppend<T(!new)>(a: seq<T>, b: seq<T>, p: T -> bool)
    ensures Filter(a + b, p) == Filter(a, p) + Filter(b, p)
    decreases |a|
  {
    if |a| == 0 {
      assert a + b == b;
    } else {
      assert (a + b)[0] == a[0];
      assert (a + b)[1..] == a[1..] + b;
      FilterAppend(a[1..], b, p);
    }
  }

  lemma FilterSingleton<T(!new)>(x: T, p: T -> bool)
    ensures Filter([x], p) == if p(x) then [x] else []
  {
    assert [x][1..] == [];
  }

  /** A filter that every element passes returns the whole list. */
  lemma {:induction false} FilterAll<T(!new)>(s: seq<T>, p: T -> bool)
    requires forall i :: 0 <= i < |s| ==> p(s[i])
    ensures Filter(s, p) == s
    decreases |s|
  {
    if |s| > 0 {
      FilterAll(s[1..], p);
    }
  }

  /** The number of elements satisfying `p`. */
  function Count<T(!new)>(s: seq<T>, p: T -> bool): (n: nat)
    ensures n <= |s|
    ensures n == 0 <==> forall i :: 0 <= i < |s| ==> !p(s[i])
  {
    var r := Filter(s, p);
    assert r != [] ==> r[0] in r;
    |r|
  }

  /** Every element passes `p` exactly when the count is the length. */
  lemma {:induction false} CountAllIff<T(!new)>(s: seq<T>, p: T -> bool)
    ensures Count(s, p) == |s| <==> forall i :: 0 <= i < |s| ==> p(s[i])
    decreases |s|
  {
    if |s| > 0 {
      CountAllIff(s[1..], p);
      assert Count(s, p) == (if p(s[0]) then 1 else 0) + Count(s[1..], p);
      if forall i :: 0 <= i < |s| ==> p(s[i]) {
        assert forall i :: 0 <= i < |s[1..]| ==> p(s[1..][i]) by {
          forall i | 0 <= i < |s[1..]| ensures p(s[1..][i]) {
            assert s[1..][i] == s[i + 1];
          }
        }
      }
      if Count(s, p) == |s| {
        forall i | 0 <= i < |s| ensures p(s[i]) {
          if i > 0 {
            assert s[i] == s[1..][i - 1];
          }
        }
      }
    }
  }

  /** Replacing one element that fails `p` by one that passes it raises the
      count by exactly one. */
  lemma CountUpdate<T(!new)>(s: seq<T>, i: nat, x: T, p: T -> bool)
    requires i < |s| && !p(s[i]) && p(x)
    ensures Count(s[i := x], p) == Count(s, p) + 1
  {
    var a, b := s[..i], s[i + 1..];
    assert s == a + [s[i]] + b;
    assert s[i := x] == a + [x] + b;
    FilterAppend(a + [s[i]], b, p);
    FilterAppend(a, [s[i]], p);
    FilterAppend(a + [x], b, p);
    FilterAppend(a, [x], p);
  }

  /** The position of the first element satisfying `p`, or None. */
  function FirstIndex<T>(s: seq<T>, p: T -> bool): (r: Option<nat>)
    ensures r.Some? ==> r.value < |s| && p(s[r.value])
    ensures r.Some? ==> forall j :: 0 <= j < r.value ==> !p(s[j])
    ensures r.None? <==> forall j :: 0 <= j < |s| ==> !p(s[j])
    decreases |s|
  {
    if |s| == 0 then None
    else if p(s[0]) then Some(0)
    else match FirstIndex(s[1..], p)
      case None => None
      case Some(i) => Some(i + 1)
  }

  /** The input loop of the `readDouble` helpers: the entries typed at a
      prompt, None where the text does not parse. The prompt repeats until
      an entry parses to an accepted value; None here means the input ran
      out first. */
  function FirstAccepted<T>(entries: seq<Option<T>>, accept: T -> bool): (r: Option<T>)
    ensures r.Some? ==> accept(r.value)
    ensures r.None? <==> forall i :: 0 <= i < |entries| ==> !(entries[i].Some? && accept(entries[i].value))
    ensures r.Some? ==>
              exists i :: (0 <= i < |entries| && entries[i] == r &&
                           forall j :: 0 <= j < i ==> !(entries[j].Some? && accept(entries[j].value)))
  {
    match FirstIndex(entries, (e: Option<T>) => e.Some? && accept(e.value))
    case None => None
    case Some(i) => entries[i]
  }
}
