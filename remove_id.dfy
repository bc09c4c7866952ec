/**
 * `removeId` (tensorrtllm.cc): the erase-remove idiom that strips the padding id 0 from the
 * generated token ids before they are decoded.
 */
module RemoveIds {
  import opened Seqs

  /** The ids of `s` other than `id`, in their original order. */
  function Without(s: seq<int>, id: int): (r: seq<int>)
    ensures id !in r
    ensures forall x :: x in r <==> x in s && x != id
    ensures |r| <= |s|
    decreases |s|
  {
    if s == [] then []
    else if s[0] == id then
      assert s == [s[0]] + s[1..];
      Without(s[1..], id)
    else
      assert s == [s[0]] + s[1..];
      [s[0]] + Without(s[1..], id)
  }

  /** Removing ids from a concatenation removes them piece by piece. */
  lemma {:induction false} WithoutAppend(a: seq<int>, b: seq<int>, id: int)
    ensures Without(a + b, id) == Without(a, id) + Without(b, id)
    decreases |a|
  {
    if a == [] {
      assert a + b == b;
    } else {
      assert (a + b)[0] == a[0];
      assert (a + b)[1..] == a[1..] + b;
      WithoutAppend(a[1..], b, id);
    }
  }

  /** Every id other than `id` is kept as often as it occurs; `id` is dropped every time. */
  lemma {:induction false} WithoutCounts(s: seq<int>, id: int)
    ensures multiset(Without(s, id)) == multiset(s)[id := 0]
    ensures |Without(s, id)| == |s| - multiset(s)[id]
    decreases |s|
  {
    if s != [] {
      WithoutCounts(s[1..], id);
      assert s == [s[0]] + s[1..];
      assert multiset(s) == multiset([s[0]]) + multiset(s[1..]);
    }
  }

  /** The kept ids keep their relative order. */
  lemma {:induction false} WithoutIsSubsequence(s: seq<int>, id: int)
    ensures IsSubsequence(Without(s, id), s)
    decreases |s|
  {
    if s != [] {
      WithoutIsSubsequence(s[1..], id);
      var w := Without(s, id);
      if s[0] == id {
        SubsequenceOfTail(w, s);
      } else {
        assert w[0] == s[0] && w[1..] == Without(s[1..], id);
      }
    }
  }

  /** Removing an id twice is the same as removing it once. */
  lemma {:induction false} WithoutIdempotent(s: seq<int>, id: int)
    ensures Without(Without(s, id), id) == Without(s, id)
    decreases |s|
  {
    if s != [] {
      WithoutIdempotent(s[1..], id);
      if s[0] != id {
        var w := Without(s, id);
        assert w[0] == s[0] && w[1..] == Without(s[1..], id);
      }
    }
  }

  /**
   * `std::remove` followed by `erase`: compacts the ids different from `id` to the front of
   * `a`, in order, and returns the length the vector is then truncated to.
   */
  method RemoveId(a: array<int>, id: int) returns (len: nat)
    modifies a
    ensures len <= a.Length
    ensures a[..len] == Without(old(a[..]), id)
  {
    ghost var s := a[..];
    len := 0;
    var i := 0;
    while i < a.Length
      invariant 0 <= len <= i <= a.Length
      invariant a[..len] == Without(s[..i], id)
      invariant forall k :: i <= k < a.Length ==> a[k] == s[k]
    {
      var x := a[i];
      ghost var kept := a[..len];
      assert s[..i + 1] == s[..i] + [x];
      WithoutAppend(s[..i], [x], id);
      if x != id {
        a[len] := x;
        assert a[..len + 1] == kept + [x];
        len := len + 1;
      }
      i := i + 1;
    }
    assert s[..a.Length] == s;
  }
}
