/**
 * The JavaScript array built-ins the label checks are written with
 * (Array.prototype.some, every, find and filter), each as a recursive
 * function over a sequence with a contract stating what it computes.
 * Predicates are total and side-effect free, so the order in which the
 * built-ins call them is not observable.
 */
module JsArray {
  import opened Wrappers

  /** `s.some(p)`: true iff some element satisfies `p`. */
  function SomeOf<T>(s: seq<T>, p: T -> bool): (r: bool)
    ensures r <==> exists i :: 0 <= i < |s| && p(s[i])
  {
    if |s| == 0 then false
    else p(s[0]) || SomeOf(s[1..], p)
  }

  /** `s.every(p)`: true iff every element satisfies `p`; true of the empty sequence. */
  function EveryOf<T>(s: seq<T>, p: T -> bool): (r: bool)
    ensures r <==> forall i :: 0 <= i < |s| ==> p(s[i])
  {
    if |s| == 0 then true
    else p(s[0]) && EveryOf(s[1..], p)
  }

  /** `s.find(p)`: the first element satisfying `p`, or `undefined` (None). */
  function Find<T>(s: seq<T>, p: T -> bool): (r: Option<T>)
    ensures r.None? <==> forall i :: 0 <= i < |s| ==> !p(s[i])
    ensures r.Some? ==>
      exists i :: 0 <= i < |s| && s[i] == r.value && p(s[i]) && forall j :: 0 <= j < i ==> !p(s[j])
  {
    if |s| == 0 then None
    else if p(s[0]) then Some(s[0])
    else
      Find(s[1..], p)
  }

  /** `s.filter(p)`: the elements satisfying `p`, in their original order. */
  function Filter<T>(s: seq<T>, p: T -> bool): (r: seq<T>)
    ensures |r| <= |s|
    ensures forall i :: 0 <= i < |r| ==> r[i] in s && p(r[i])
    ensures forall i :: 0 <= i < |s| && p(s[i]) ==> s[i] in r
  {
    if |s| == 0 then []
    else if p(s[0]) then [s[0]] + Filter(s[1..], p)
    else Filter(s[1..], p)
  }

  /** Exactly one position of `s` holds an element satisfying `p`. */
  ghost predicate UniqueMatch<T>(s: seq<T>, p: T -> bool)
  {
    exists i :: 0 <= i < |s| && p(s[i]) && forall j :: 0 <= j < |s| && j != i ==> !p(s[j])
  }

  /** A filter keeps nothing iff no element matches. */
  lemma FilterEmpty<T>(s: seq<T>, p: T -> bool)
    ensures |Filter(s, p)| == 0 <==> forall i :: 0 <= i < |s| ==> !p(s[i])
  {
  }

  /** How UniqueMatch on a non-empty sequence depends on its head. */
  lemma UniqueMatchHead<T>(s: seq<T>, p: T -> bool)
    requires |s| > 0 && p(s[0])
    ensures UniqueMatch(s, p) <==> forall i :: 0 <= i < |s| - 1 ==> !p(s[1..][i])
  {
    if forall i :: 0 <= i < |s| - 1 ==> !p(s[1..][i]) {
      forall j | 0 <= j < |s| && j != 0 ensures !p(s[j]) { assert s[j] == s[1..][j - 1]; }
    } else {
      var i :| 0 <= i < |s| - 1 && p(s[1..][i]);
      assert s[i + 1] == s[1..][i];
    }
  }

  lemma UniqueMatchSkip<T>(s: seq<T>, p: T -> bool)
    requires |s| > 0 && !p(s[0])
    ensures UniqueMatch(s, p) <==> UniqueMatch(s[1..], p)
  {
    var t := s[1..];
    if UniqueMatch(t, p) {
      var i :| 0 <= i < |t| && p(t[i]) && forall j :: 0 <= j < |t| && j != i ==> !p(t[j]);
      forall j | 0 <= j < |s| && j != i + 1 ensures !p(s[j]) {
        if j > 0 { assert s[j] == t[j - 1]; }
      }
      assert s[i + 1] == t[i];
    }
    if UniqueMatch(s, p) {
      var i :| 0 <= i < |s| && p(s[i]) && forall j :: 0 <= j < |s| && j != i ==> !p(s[j]);
      forall j | 0 <= j < |t| && j != i - 1 ensures !p(t[j]) {
        assert t[j] == s[j + 1];
      }
      assert t[i - 1] == s[i];
    }
  }

  /** A filter keeps exactly one element iff exactly one position matches. */
  lemma {:induction false} FilterLengthOne<T>(s: seq<T>, p: T -> bool)
    ensures |Filter(s, p)| == 1 <==> UniqueMatch(s, p)
  {
    if |s| > 0 {
      var t := s[1..];
      FilterLengthOne(t, p);
      if p(s[0]) {
        assert Filter(s, p) == [s[0]] + Filter(t, p);
        FilterEmpty(t, p);
        UniqueMatchHead(s, p);
      } else {
        assert Filter(s, p) == Filter(t, p);
        UniqueMatchSkip(s, p);
      }
    }
  }

  /** No element occurs twice. */
  ghost predicate Distinct<T>(s: seq<T>)
  {
    forall i, j :: 0 <= i < j < |s| ==> s[i] != s[j]
  }

  /** The distinct values of `s` that satisfy `p`. */
  ghost function Matching<T>(s: seq<T>, p: T -> bool): set<T>
  {
    set x | x in s && p(x)
  }

  /** On a sequence without repetitions, a filter keeps as many elements as there are distinct matching values. */
  lemma {:induction false} FilterLengthDistinct<T>(s: seq<T>, p: T -> bool)
    requires Distinct(s)
    ensures |Filter(s, p)| == |Matching(s, p)|
  {
    if |s| > 0 {
      var t := s[1..];
      assert Distinct(t) by {
        forall i, j | 0 <= i < j < |t| ensures t[i] != t[j] {
          assert t[i] == s[i + 1] && t[j] == s[j + 1];
        }
      }
      FilterLengthDistinct(t, p);
      var rest := Matching(t, p);
      assert s[0] !in t by {
        forall k | 0 <= k < |t| ensures t[k] != s[0] { assert t[k] == s[k + 1]; }
      }
      if p(s[0]) {
        assert Matching(s, p) == {s[0]} + rest;
        assert s[0] !in rest;
      } else {
        assert Matching(s, p) == rest;
      }
    }
  }
}
