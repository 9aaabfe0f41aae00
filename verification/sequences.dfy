/** Order-preserving selection from a sequence, the shape of a scraping loop
    that keeps some elements, transforms them and may stop early. */
module Sequences {
  import opened Optional

  /** `f` applied to every element, keeping the `Some` results in order. */
  function FilterMap<A, B>(f: A -> Option<B>, s: seq<A>): (r: seq<B>)
    ensures |r| <= |s|
  {
    if s == [] then []
    else FilterMap(f, s[..|s| - 1]) + (match f(s[|s| - 1]) case Some(b) => [b] case None => [])
  }

  /** The indices of the elements `FilterMap` keeps, in order. */
  function Kept<A, B>(f: A -> Option<B>, s: seq<A>): seq<nat> {
    if s == [] then []
    else Kept(f, s[..|s| - 1]) + (if f(s[|s| - 1]).Some? then [|s| - 1] else [])
  }

  /** The first `n` elements of `s` (all of them if there are fewer, none if
      `n` is not positive). */
  function Take<T>(s: seq<T>, n: int): (r: seq<T>)
    ensures |r| == if n <= 0 then 0 else if n < |s| then n else |s|
    ensures r == s[..|r|]
  {
    if n <= 0 then [] else if n < |s| then s[..n] else s
  }

  /** Extending the input by one element extends the selection by that
      element's image, if it has one. */
  lemma FilterMapSnoc<A, B>(f: A -> Option<B>, s: seq<A>, i: nat)
    requires i < |s|
    ensures f(s[i]).Some? ==> FilterMap(f, s[..i + 1]) == FilterMap(f, s[..i]) + [f(s[i]).value]
    ensures f(s[i]).None? ==> FilterMap(f, s[..i + 1]) == FilterMap(f, s[..i])
  {
    assert s[..i + 1][..i] == s[..i];
  }

  /** Selecting from a prefix gives a prefix of the selection. */
  lemma {:induction false} FilterMapPrefix<A, B>(f: A -> Option<B>, s: seq<A>, i: nat)
    requires i <= |s|
    ensures |FilterMap(f, s[..i])| <= |FilterMap(f, s)|
    ensures FilterMap(f, s[..i]) == FilterMap(f, s)[..|FilterMap(f, s[..i])|]
    decreases |s| - i
  {
    if i < |s| {
      FilterMapPrefix(f, s, i + 1);
      assert s[..i + 1][..i] == s[..i];
    } else {
      assert s[..i] == s;
    }
  }

  /** The selection is an order-preserving subsequence: result `k` is the
      image of element `Kept(f, s)[k]`, the kept indices increase, and every
      element `f` maps to `Some` is kept. */
  lemma {:induction false} FilterMapIsSubsequence<A, B>(f: A -> Option<B>, s: seq<A>)
    ensures |Kept(f, s)| == |FilterMap(f, s)|
    ensures forall k :: 0 <= k < |Kept(f, s)| ==>
              Kept(f, s)[k] < |s| && f(s[Kept(f, s)[k]]) == Some(FilterMap(f, s)[k])
    ensures forall k, l :: 0 <= k < l < |Kept(f, s)| ==> Kept(f, s)[k] < Kept(f, s)[l]
    ensures forall i :: 0 <= i < |s| && f(s[i]).Some? ==> i in Kept(f, s)
  {
    if s != [] {
      var init := s[..|s| - 1];
      FilterMapIsSubsequence(f, init);
      assert forall i :: 0 <= i < |init| ==> init[i] == s[i];
    }
  }

  /** `f(s[i])` is the first `Some` image in `s`, and it is `v`. */
  ghost predicate FirstSomeAt<A, B>(f: A -> Option<B>, s: seq<A>, i: int, v: B) {
    && 0 <= i < |s|
    && f(s[i]) == Some(v)
    && forall j :: 0 <= j < i ==> f(s[j]).None?
  }

  /** A first match in the tail is a match in the whole sequence with only
      the head possibly before it. */
  lemma FirstSomeInTail<A, B>(f: A -> Option<B>, s: seq<A>, v: B)
    requires |s| >= 1
    requires exists i :: FirstSomeAt(f, s[1..], i, v)
    ensures exists i :: 1 <= i < |s| && f(s[i]) == Some(v) && forall j :: 1 <= j < i ==> f(s[j]).None?
  {
    var i :| FirstSomeAt(f, s[1..], i, v);
    assert s[i + 1] == s[1..][i];
    forall j | 1 <= j < i + 1
      ensures f(s[j]).None?
    {
      assert s[j] == s[1..][j - 1];
    }
  }

  /** When the head has no image, a first match in the tail is the first
      match of the whole sequence. */
  lemma FirstSomePastHead<A, B>(f: A -> Option<B>, s: seq<A>, v: B)
    requires |s| >= 1 && f(s[0]).None?
    requires exists i :: FirstSomeAt(f, s[1..], i, v)
    ensures exists i :: FirstSomeAt(f, s, i, v)
  {
    FirstSomeInTail(f, s, v);
    var i :| 1 <= i < |s| && f(s[i]) == Some(v) && forall j :: 1 <= j < i ==> f(s[j]).None?;
    assert FirstSomeAt(f, s, i, v);
  }

  /** The image of the first element that has one. */
  function FirstSome<A, B>(f: A -> Option<B>, s: seq<A>): (r: Option<B>)
    ensures r.None? <==> forall i :: 0 <= i < |s| ==> f(s[i]).None?
    ensures r.Some? ==> exists i :: FirstSomeAt(f, s, i, r.value)
  {
    if s == [] then None
    else if f(s[0]).Some? then
      assert FirstSomeAt(f, s, 0, f(s[0]).value);
      f(s[0])
    else
      var r := FirstSome(f, s[1..]);
      assert forall i :: 1 <= i < |s| ==> s[i] == s[1..][i - 1];
      if r.Some? then
        FirstSomePastHead(f, s, r.value);
        r
      else r
  }

  /** `FirstSome` of everything after the head, stated in indices of the
      whole sequence. */
  lemma FirstSomeAfterHead<A, B>(f: A -> Option<B>, s: seq<A>)
    requires |s| >= 1
    ensures FirstSome(f, s[1..]).None? <==> forall i :: 1 <= i < |s| ==> f(s[i]).None?
    ensures FirstSome(f, s[1..]).Some? ==>
      exists i :: 1 <= i < |s| && f(s[i]) == FirstSome(f, s[1..]) && forall j :: 1 <= j < i ==> f(s[j]).None?
  {
    assert forall i :: 1 <= i < |s| ==> s[i] == s[1..][i - 1];
    var r := FirstSome(f, s[1..]);
    if r.Some? {
      FirstSomeInTail(f, s, r.value);
    }
  }
}
