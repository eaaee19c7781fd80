/** Order-preserving selection of the elements of a sequence that satisfy a
    predicate: the shape shared by the profiler's TCP/IP pass and the three
    application-layer filters. */
module Selection {

  /** The elements of `s` satisfying `p`, in their original order. Defined
      from the back, like a loop that appends to its output. */
  function Select<T(!new)>(p: T -> bool, s: seq<T>): (r: seq<T>)
    ensures |r| <= |s|
    ensures forall i :: 0 <= i < |r| ==> p(r[i])
    ensures forall x {:trigger x in r} :: x in r <==> x in s && p(x)
    decreases |s|
  {
    if s == [] then []
    else
      var init := s[..|s| - 1];
      var last := s[|s| - 1];
      assert s == init + [last];
      if p(last) then Select(p, init) + [last] else Select(p, init)
  }

  /** Extending the input by one element extends the selection by that
      element exactly when it satisfies `p`. */
  lemma SelectPrefixStep<T(!new)>(p: T -> bool, s: seq<T>, i: nat)
    requires i < |s|
    ensures Select(p, s[..i + 1]) == Select(p, s[..i]) + if p(s[i]) then [s[i]] else []
  {
    assert s[..i + 1][..i] == s[..i];
  }

  /** The selection is empty exactly when no element satisfies `p`. */
  lemma {:induction false} SelectEmpty<T(!new)>(p: T -> bool, s: seq<T>)
    ensures Select(p, s) == [] <==> forall i :: 0 <= i < |s| ==> !p(s[i])
  {
    if Select(p, s) != [] {
      var x := Select(p, s)[0];
      assert x in Select(p, s);
      var i :| 0 <= i < |s| && s[i] == x;
    } else {
      forall i | 0 <= i < |s| ensures !p(s[i]) {
        assert s[i] in s;
        assert s[i] !in Select(p, s);
      }
    }
  }

  /** `r` can be obtained from `s` by deleting elements, keeping the order
      of the rest. */
  ghost predicate IsSubsequence<T>(r: seq<T>, s: seq<T>)
    decreases |s|
  {
    if r == [] then true
    else if s == [] then false
    else
      (r[|r| - 1] == s[|s| - 1] && IsSubsequence(r[..|r| - 1], s[..|s| - 1]))
      || IsSubsequence(r, s[..|s| - 1])
  }

  /** `r` holds every element of `s` satisfying `p`, as often as `s` does,
      and nothing else. */
  ghost predicate SameSatisfying<T(!new)>(p: T -> bool, r: seq<T>, s: seq<T>)
  {
    forall x :: multiset(r)[x] == if p(x) then multiset(s)[x] else 0
  }

  lemma {:induction false} SelectIsSubsequence<T(!new)>(p: T -> bool, s: seq<T>)
    ensures IsSubsequence(Select(p, s), s)
    decreases |s|
  {
    if s != [] {
      var init := s[..|s| - 1];
      SelectIsSubsequence(p, init);
      var r := Select(p, s);
      if p(s[|s| - 1]) {
        assert r[..|r| - 1] == Select(p, init);
      } else {
        assert r == Select(p, init);
        if r != [] {
          assert IsSubsequence(r, init);
        }
      }
    }
  }

  lemma {:induction false} SelectCounts<T(!new)>(p: T -> bool, s: seq<T>)
    ensures SameSatisfying(p, Select(p, s), s)
    decreases |s|
  {
    if s != [] {
      var init := s[..|s| - 1];
      var last := s[|s| - 1];
      assert s == init + [last];
      SelectCounts(p, init);
    }
  }

  /** Multiplicities of a subsequence never exceed those of the sequence. */
  lemma {:induction false} SubsequenceCountsBounded<T>(r: seq<T>, s: seq<T>)
    requires IsSubsequence(r, s)
    ensures forall x :: multiset(r)[x] <= multiset(s)[x]
    decreases |s|
  {
    if r != [] {
      var init := s[..|s| - 1];
      assert s == init + [s[|s| - 1]];
      if r[|r| - 1] == s[|s| - 1] && IsSubsequence(r[..|r| - 1], init) {
        SubsequenceCountsBounded(r[..|r| - 1], init);
        assert r == r[..|r| - 1] + [r[|r| - 1]];
      } else {
        SubsequenceCountsBounded(r, init);
      }
    }
  }

  /** Uniqueness: the only subsequence of `s` that keeps every element
      satisfying `p` and nothing else is `Select(p, s)`. Together with
      SelectIsSubsequence and SelectCounts this says that `Select(p, s)` is
      exactly the in-order subsequence of the elements satisfying `p`. */
  lemma {:induction false} SelectUnique<T(!new)>(p: T -> bool, r: seq<T>, s: seq<T>)
    requires IsSubsequence(r, s)
    requires SameSatisfying(p, r, s)
    ensures r == Select(p, s)
    decreases |s|
  {
    if s == [] {
    } else {
      var init := s[..|s| - 1];
      var last := s[|s| - 1];
      assert s == init + [last];
      if p(last) {
        assert multiset(r)[last] == multiset(init)[last] + 1;
        if r != [] && r[|r| - 1] == last && IsSubsequence(r[..|r| - 1], init) {
          var rInit := r[..|r| - 1];
          assert r == rInit + [last];
          forall x ensures multiset(rInit)[x] == if p(x) then multiset(init)[x] else 0 {
            assert multiset(r)[x] == multiset(rInit)[x] + (if x == last then 1 else 0);
          }
          SelectUnique(p, rInit, init);
        } else {
          assert r != [];
          assert IsSubsequence(r, init);
          SubsequenceCountsBounded(r, init);
          assert false;
        }
      } else {
        assert multiset(r)[last] == 0;
        assert r == [] || IsSubsequence(r, init);
        forall x ensures multiset(r)[x] == if p(x) then multiset(init)[x] else 0 {
          assert multiset(s)[x] == multiset(init)[x] + (if x == last then 1 else 0);
        }
        SelectUnique(p, r, init);
      }
    }
  }
}
