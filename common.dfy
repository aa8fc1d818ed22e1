/** Small shared vocabulary: optional values, results, and the two array
    operations both editors lean on (`Array.prototype.filter` and a
    first-match search such as `findIndex`). */
module Common {

  datatype Option<+T> = None | Some(value: T)

  datatype Result<+T, +E> = Ok(value: T) | Err(error: E)

  /** The elements of `s` that satisfy `p`, in their original order. */
  function Filter<T>(s: seq<T>, p: T -> bool): (r: seq<T>)
    ensures |r| <= |s|
  {
    if s == [] then []
    else Filter(s[..|s| - 1], p) + (if p(s[|s| - 1]) then [s[|s| - 1]] else [])
  }

  /** The survivors are exactly the elements that satisfy `p`. */
  lemma {:induction false} FilterMembers<T>(s: seq<T>, p: T -> bool)
    ensures forall x :: x in Filter(s, p) ==> x in s && p(x)
    ensures forall x :: x in s && p(x) ==> x in Filter(s, p)
  {
    if s != [] {
      var init, last := s[..|s| - 1], s[|s| - 1];
      FilterMembers(init, p);
      assert s == init + [last];
    }
  }

  /** Filtering distributes over concatenation: together with the singleton
      case this pins down that the survivors keep their relative order. */
  lemma {:induction false} FilterAppend<T>(a: seq<T>, b: seq<T>, p: T -> bool)
    ensures Filter(a + b, p) == Filter(a, p) + Filter(b, p)
  {
    if b == [] {
      assert a + b == a;
    } else {
      var b' := b[..|b| - 1];
      assert (a + b)[..|a + b| - 1] == a + b';
      FilterAppend(a, b', p);
    }
  }

  /** When nothing is rejected, filtering is the identity. */
  lemma {:induction false} FilterKeepsAll<T>(s: seq<T>, p: T -> bool)
    requires forall k :: 0 <= k < |s| ==> p(s[k])
    ensures Filter(s, p) == s
  {
    if s != [] {
      var init, last := s[..|s| - 1], s[|s| - 1];
      forall k | 0 <= k < |init| ensures p(init[k]) {
        assert init[k] == s[k];
      }
      FilterKeepsAll(init, p);
      assert Filter(s, p) == init + [last];
      assert init + [last] == s;
    }
  }

  /** When exactly the element at `k` is rejected, filtering removes that
      element and nothing else. */
  lemma {:induction false} FilterRejectsOne<T>(s: seq<T>, p: T -> bool, k: nat)
    requires k < |s| && !p(s[k])
    requires forall j :: 0 <= j < |s| && j != k ==> p(s[j])
    ensures Filter(s, p) == RemoveAt(s, k)
  {
    var init, last := s[..|s| - 1], s[|s| - 1];
    assert Filter(s, p) == Filter(init, p) + (if p(last) then [last] else []);
    forall j | 0 <= j < |init| && j != k ensures p(init[j]) {
      assert init[j] == s[j];
    }
    if k == |s| - 1 {
      FilterKeepsAll(init, p);
      assert RemoveAt(s, k) == init;
    } else {
      assert init[k] == s[k] && p(last);
      FilterRejectsOne(init, p, k);
      assert RemoveAt(s, k) == RemoveAt(init, k) + [last];
    }
  }

  /** `ok` holds between every element of `s` and each later one. */
  predicate Pairwise<T>(s: seq<T>, ok: (T, T) -> bool) {
    forall k, l :: 0 <= k < l < |s| ==> ok(s[k], s[l])
  }

  /** A relation that holds between every element and each later one still
      holds after filtering, since the survivors keep their order. */
  lemma {:induction false} FilterKeepsPairwise<T>(s: seq<T>, p: T -> bool, ok: (T, T) -> bool)
    requires Pairwise(s, ok)
    ensures Pairwise(Filter(s, p), ok)
  {
    if s != [] {
      var init, last := s[..|s| - 1], s[|s| - 1];
      FilterKeepsPairwise(init, p, ok);
      FilterMembers(init, p);
      var fi, r := Filter(init, p), Filter(s, p);
      if p(last) {
        assert r == fi + [last];
        forall k, l | 0 <= k < l < |r| ensures ok(r[k], r[l]) {
          if l == |fi| {
            assert r[k] == fi[k] && fi[k] in fi;
            assert fi[k] in init;
            var k' :| 0 <= k' < |init| && init[k'] == r[k];
            assert s[k'] == r[k] && s[|s| - 1] == last == r[l];
          } else {
            assert r[k] == fi[k] && r[l] == fi[l];
          }
        }
      } else {
        assert r == fi;
      }
    }
  }

  /** The index of the first element of `s` satisfying `p`, if any. */
  function FindFirst<T>(s: seq<T>, p: T -> bool): (r: Option<nat>)
    ensures r.Some? ==> r.value < |s| && p(s[r.value])
    ensures r.Some? ==> forall k :: 0 <= k < r.value ==> !p(s[k])
    ensures r.None? ==> forall k :: 0 <= k < |s| ==> !p(s[k])
  {
    if s == [] then None
    else if p(s[0]) then Some(0)
    else
      match FindFirst(s[1..], p)
      case None => None
      case Some(k) => Some(k + 1)
  }

  /** `s` with the element at `index` taken out, as `splice(index, 1)` does;
      an index past the end removes nothing. */
  function RemoveAt<T>(s: seq<T>, index: nat): (r: seq<T>)
    ensures index < |s| ==> |r| == |s| - 1
    ensures index >= |s| ==> r == s
    ensures forall k :: 0 <= k < index && k < |r| ==> r[k] == s[k]
    ensures forall k :: index <= k < |r| ==> r[k] == s[k + 1]
  {
    if index < |s| then s[..index] + s[index + 1..] else s
  }
}
