/** A model of MoreLinq's Squash operator (MoreLinq/Squash.cs).

    Squash walks a sequence once, holding one pending element: the head of
    the current run. Each later element whose key the comparer finds equal to
    the pending element's key is dropped; any other element first releases
    the pending element to the output and then becomes the pending element
    itself. When the input is exhausted the pending element is released.

    The comparer is an arbitrary two-argument predicate on keys: nothing here
    assumes it is reflexive, symmetric or transitive. It is always asked
    `comparer(key(pending), key(current))`, in that order.
 */
module Squash {

  /** A C# reference argument that may be null. */
  datatype Option<T> = None | Some(value: T)

  /** The exception thrown at call time for a null argument, with its `nameof`. */
  datatype Error = ArgumentNull(paramName: string)

  datatype Result<T> = Ok(value: T) | Err(error: Error)

  /** Natural equality on keys, the behaviour of `EqualityComparer<TKey>.Default`. */
  function Equal<K(==)>(a: K, b: K): (r: bool)
    ensures r <==> a == b
  {
    a == b
  }

  /** The identity key selector `_ => _` of the one-argument overload. */
  function Identity<T>(x: T): (r: T)
    ensures r == x
  {
    x
  }

  // ---------------------------------------------------------------------------
  // Specification of the iterator
  // ---------------------------------------------------------------------------

  /** What the iterator still yields while it holds `pending` and `rest` has not
      yet been enumerated. The pending element is always yielded first. */
  function SquashFrom<T, K>(pending: T, rest: seq<T>, key: T -> K, eq: (K, K) -> bool): (r: seq<T>)
    ensures 1 <= |r| <= 1 + |rest|
    ensures r[0] == pending
    decreases |rest|
  {
    if rest == [] then
      [pending]
    else if !eq(key(pending), key(rest[0])) then
      [pending] + SquashFrom(rest[0], rest[1..], key, eq)
    else
      SquashFrom(pending, rest[1..], key, eq)
  }

  /** The whole output of Squash on a non-empty source; the first element is
      the initial pending element. */
  function Squashed<T, K>(s: seq<T>, key: T -> K, eq: (K, K) -> bool): (r: seq<T>)
    requires |s| >= 1
    ensures 1 <= |r| <= |s|
    ensures r[0] == s[0]
  {
    SquashFrom(s[0], s[1..], key, eq)
  }

  /** No two neighbours a, b of s (a first) have eq(key(a), key(b)). */
  predicate NoAdjacentEqual<T, K>(s: seq<T>, key: T -> K, eq: (K, K) -> bool)
  {
    forall i :: 0 < i < |s| ==> !eq(key(s[i - 1]), key(s[i]))
  }

  /** r can be obtained from s by deleting elements, keeping the order
      (each element of r matched against the earliest possible one of s). */
  predicate IsSubsequence<T(==)>(r: seq<T>, s: seq<T>)
    decreases |s|
  {
    if r == [] then true
    else if s == [] then false
    else if r[0] == s[0] then IsSubsequence(r[1..], s[1..])
    else IsSubsequence(r, s[1..])
  }

  /** A subsequence of t is a subsequence of t with one more element in front. */
  lemma {:induction false} SubsequencePrepend<T>(r: seq<T>, y: T, t: seq<T>)
    requires IsSubsequence(r, t)
    ensures IsSubsequence(r, [y] + t)
    decreases |t|, 1
  {
    assert ([y] + t)[1..] == t;
    if r != [] && r[0] == y {
      SubsequenceDropHead(r, t);
    }
  }

  /** Dropping the first element of a subsequence keeps it a subsequence. */
  lemma {:induction false} SubsequenceDropHead<T>(r: seq<T>, t: seq<T>)
    requires r != [] && IsSubsequence(r, t)
    ensures IsSubsequence(r[1..], t)
    decreases |t|, 0
  {
    assert [t[0]] + t[1..] == t;
    if r[0] == t[0] {
      SubsequencePrepend(r[1..], t[0], t[1..]);
    } else {
      SubsequenceDropHead(r, t[1..]);
      SubsequencePrepend(r[1..], t[0], t[1..]);
    }
  }

  /** Index in s of the element that is pending once all of s has been
      enumerated: the head of the last run. Every later element was dropped
      because it compared equal to it. */
  function LastRunHead<T, K>(s: seq<T>, key: T -> K, eq: (K, K) -> bool): (h: nat)
    requires |s| >= 1
    ensures h < |s|
    ensures forall k :: h < k < |s| ==> eq(key(s[h]), key(s[k]))
    decreases |s|
  {
    if |s| == 1 then 0
    else
      var h := LastRunHead(s[..|s| - 1], key, eq);
      assert s[..|s| - 1][h] == s[h];
      if eq(key(s[h]), key(s[|s| - 1])) then h else |s| - 1
  }

  /** The element at LastRunHead really heads its run: unless it is the first
      element, it did not compare equal to the element pending before it, so
      it replaced that element rather than being dropped. */
  lemma {:induction false} LastRunHeadIsHead<T, K>(s: seq<T>, key: T -> K, eq: (K, K) -> bool)
    requires |s| >= 1
    ensures var h := LastRunHead(s, key, eq);
      h > 0 ==> !eq(key(s[LastRunHead(s[..h], key, eq)]), key(s[h]))
    decreases |s|
  {
    if |s| > 1 {
      var init := s[..|s| - 1];
      var h' := LastRunHead(init, key, eq);
      assert init[h'] == s[h'];
      if eq(key(s[h']), key(s[|s| - 1])) {
        LastRunHeadIsHead(init, key, eq);
        assert init[..h'] == s[..h'];
      } else {
        assert s[..|s| - 1] == init;
      }
    }
  }

  // ---------------------------------------------------------------------------
  // The iterator
  // ---------------------------------------------------------------------------

  /** The local iterator `_()`, run to completion: `source[i]` plays the
      enumerator's `Current`, `prev` the pending element, and `output` what
      has been yielded so far. */
  method Iterate<T, K>(source: seq<T>, keySelector: T -> K, comparer: (K, K) -> bool) returns (output: seq<T>)
    requires |source| >= 1
    ensures output == Squashed(source, keySelector, comparer)
  {
    var prev := source[0];
    var i := 1;
    output := [];
    while i < |source|
      invariant 1 <= i <= |source|
      invariant output + SquashFrom(prev, source[i..], keySelector, comparer) == Squashed(source, keySelector, comparer)
    {
      assert source[i..][0] == source[i] && source[i..][1..] == source[i + 1..];
      if !comparer(keySelector(prev), keySelector(source[i])) {
        output := output + [prev];
        prev := source[i];
      }
      i := i + 1;
    }
    assert source[i..] == [];
    output := output + [prev];
  }

  // ---------------------------------------------------------------------------
  // The three overloads
  // ---------------------------------------------------------------------------

  /** The comparer actually used: a null one becomes default equality. */
  function Comparer<K(==)>(equalityComparer: Option<(K, K) -> bool>): (eq: (K, K) -> bool)
    ensures equalityComparer.Some? ==> eq == equalityComparer.value
    ensures equalityComparer.None? ==> eq == Equal
  {
    match equalityComparer
    case None => Equal
    case Some(c) => c
  }

  /** Squash(source, keySelector, equalityComparer): both null checks happen at
      call time, before any element is enumerated; an empty non-null source is
      left to the caller (its outcome depends on the enumerator). */
  function SquashBy<T, K(==)>(source: Option<seq<T>>, keySelector: Option<T -> K>,
                              equalityComparer: Option<(K, K) -> bool>): (r: Result<seq<T>>)
    requires source.Some? && keySelector.Some? ==> |source.value| >= 1
    ensures source.None? ==> r == Err(ArgumentNull("source"))
    ensures source.Some? && keySelector.None? ==> r == Err(ArgumentNull("keySelector"))
    ensures r.Ok? <==> source.Some? && keySelector.Some?
    ensures r.Ok? ==> r.value == Squashed(source.value, keySelector.value, Comparer(equalityComparer))
    ensures r.Ok? ==> NoAdjacentEqual(r.value, keySelector.value, Comparer(equalityComparer))
  {
    if source.None? then Err(ArgumentNull("source"))
    else if keySelector.None? then Err(ArgumentNull("keySelector"))
    else
      var eq := Comparer(equalityComparer);
      SquashNoAdjacentEqual(source.value, keySelector.value, eq);
      Ok(Squashed(source.value, keySelector.value, eq))
  }

  /** Squash(source, keySelector): the three-argument overload with a null
      comparer, so neighbouring outputs never have equal keys. */
  function SquashByKey<T, K(==)>(source: Option<seq<T>>, keySelector: Option<T -> K>): (r: Result<seq<T>>)
    requires source.Some? && keySelector.Some? ==> |source.value| >= 1
    ensures source.None? ==> r == Err(ArgumentNull("source"))
    ensures source.Some? && keySelector.None? ==> r == Err(ArgumentNull("keySelector"))
    ensures r.Ok? <==> source.Some? && keySelector.Some?
    ensures r.Ok? ==> r.value == Squashed(source.value, keySelector.value, Equal)
    ensures r.Ok? ==> forall i :: 0 < i < |r.value| ==> keySelector.value(r.value[i - 1]) != keySelector.value(r.value[i])
  {
    SquashBy(source, keySelector, None)
  }

  /** Squash(source): identity key and default equality, so neighbouring
      outputs are never equal. */
  function SquashDefault<T(==)>(source: Option<seq<T>>): (r: Result<seq<T>>)
    requires source.Some? ==> |source.value| >= 1
    ensures source.None? ==> r == Err(ArgumentNull("source"))
    ensures r.Ok? <==> source.Some?
    ensures r.Ok? ==> r.value == Squashed(source.value, Identity, Equal)
    ensures r.Ok? ==> forall i :: 0 < i < |r.value| ==> r.value[i - 1] != r.value[i]
  {
    SquashByKey(source, Some(Identity))
  }

  // ---------------------------------------------------------------------------
  // Properties
  // ---------------------------------------------------------------------------

  /** Whatever the comparer, the output never holds neighbours a, b with
      comparer(key(a), key(b)). */
  lemma {:induction false} SquashFromNoAdjacentEqual<T, K>(pending: T, rest: seq<T>, key: T -> K, eq: (K, K) -> bool)
    ensures NoAdjacentEqual(SquashFrom(pending, rest, key, eq), key, eq)
    decreases |rest|
  {
    if rest != [] {
      if !eq(key(pending), key(rest[0])) {
        SquashFromNoAdjacentEqual(rest[0], rest[1..], key, eq);
        var tail := SquashFrom(rest[0], rest[1..], key, eq);
        var r := [pending] + tail;
        forall i | 0 < i < |r|
          ensures !eq(key(r[i - 1]), key(r[i]))
        {
          if i > 1 {
            assert r[i - 1] == tail[i - 2] && r[i] == tail[i - 1];
          }
        }
      } else {
        SquashFromNoAdjacentEqual(pending, rest[1..], key, eq);
      }
    }
  }

  lemma SquashNoAdjacentEqual<T, K>(s: seq<T>, key: T -> K, eq: (K, K) -> bool)
    requires |s| >= 1
    ensures NoAdjacentEqual(Squashed(s, key, eq), key, eq)
  {
    SquashFromNoAdjacentEqual(s[0], s[1..], key, eq);
  }

  /** Everything yielded after the pending element comes, in order, from the
      elements still to be enumerated. */
  lemma {:induction false} SquashFromSubsequence<T, K>(pending: T, rest: seq<T>, key: T -> K, eq: (K, K) -> bool)
    ensures IsSubsequence(SquashFrom(pending, rest, key, eq)[1..], rest)
    decreases |rest|
  {
    if rest != [] {
      if !eq(key(pending), key(rest[0])) {
        SquashFromSubsequence(rest[0], rest[1..], key, eq);
        var tail := SquashFrom(rest[0], rest[1..], key, eq);
        assert ([pending] + tail)[1..] == tail;
        assert tail[0] == rest[0];
      } else {
        SquashFromSubsequence(pending, rest[1..], key, eq);
        assert [rest[0]] + rest[1..] == rest;
        SubsequencePrepend(SquashFrom(pending, rest[1..], key, eq)[1..], rest[0], rest[1..]);
      }
    }
  }

  /** The output is an order-preserving subsequence of the input. */
  lemma SquashSubsequence<T, K>(s: seq<T>, key: T -> K, eq: (K, K) -> bool)
    requires |s| >= 1
    ensures IsSubsequence(Squashed(s, key, eq), s)
  {
    SquashFromSubsequence(s[0], s[1..], key, eq);
  }

  /** Nothing is dropped exactly when no two neighbours compare equal, in
      both directions. */
  lemma {:induction false} SquashFromKeepsAll<T, K>(pending: T, rest: seq<T>, key: T -> K, eq: (K, K) -> bool)
    ensures NoAdjacentEqual([pending] + rest, key, eq) ==> SquashFrom(pending, rest, key, eq) == [pending] + rest
    ensures |SquashFrom(pending, rest, key, eq)| == 1 + |rest| ==> NoAdjacentEqual([pending] + rest, key, eq)
    decreases |rest|
  {
    if rest != [] {
      var s := [pending] + rest;
      assert s[0] == pending && s[1] == rest[0];
      if !eq(key(pending), key(rest[0])) {
        SquashFromKeepsAll(rest[0], rest[1..], key, eq);
        assert [rest[0]] + rest[1..] == rest;
        assert NoAdjacentEqual(s, key, eq) ==> NoAdjacentEqual(rest, key, eq) by {
          if NoAdjacentEqual(s, key, eq) {
            forall i | 0 < i < |rest|
              ensures !eq(key(rest[i - 1]), key(rest[i]))
            {
              assert rest[i - 1] == s[i] && rest[i] == s[i + 1];
            }
          }
        }
        assert NoAdjacentEqual(rest, key, eq) ==> NoAdjacentEqual(s, key, eq) by {
          if NoAdjacentEqual(rest, key, eq) {
            forall i | 0 < i < |s|
              ensures !eq(key(s[i - 1]), key(s[i]))
            {
              if i > 1 {
                assert s[i - 1] == rest[i - 2] && s[i] == rest[i - 1];
              }
            }
          }
        }
      } else {
        assert !NoAdjacentEqual(s, key, eq);
      }
    }
  }

  /** Squash returns its input unchanged, or equivalently loses no element,
      exactly when no two neighbouring input elements compare equal. */
  lemma SquashIdentityIff<T, K>(s: seq<T>, key: T -> K, eq: (K, K) -> bool)
    requires |s| >= 1
    ensures Squashed(s, key, eq) == s <==> NoAdjacentEqual(s, key, eq)
    ensures |Squashed(s, key, eq)| == |s| <==> NoAdjacentEqual(s, key, eq)
  {
    assert [s[0]] + s[1..] == s;
    SquashFromKeepsAll(s[0], s[1..], key, eq);
  }

  /** Squashing twice with the same key and comparer is squashing once. */
  lemma SquashIdempotent<T, K>(s: seq<T>, key: T -> K, eq: (K, K) -> bool)
    requires |s| >= 1
    ensures Squashed(Squashed(s, key, eq), key, eq) == Squashed(s, key, eq)
  {
    SquashNoAdjacentEqual(s, key, eq);
    SquashIdentityIff(Squashed(s, key, eq), key, eq);
  }

  /** Enumerating one more element x: x is dropped exactly when its key
      compares equal to the key of the pending element, which is the last
      element of the output so far (the head of its run, not necessarily the
      previous input element). */
  lemma {:induction false} SquashFromAppend<T, K>(pending: T, rest: seq<T>, x: T, key: T -> K, eq: (K, K) -> bool)
    ensures var r := SquashFrom(pending, rest, key, eq);
      SquashFrom(pending, rest + [x], key, eq) == if eq(key(r[|r| - 1]), key(x)) then r else r + [x]
    decreases |rest|
  {
    var longer := rest + [x];
    if rest == [] {
      assert longer[0] == x && longer[1..] == [];
    } else {
      assert longer[0] == rest[0] && longer[1..] == rest[1..] + [x];
      if !eq(key(pending), key(rest[0])) {
        SquashFromAppend(rest[0], rest[1..], x, key, eq);
        var tail := SquashFrom(rest[0], rest[1..], key, eq);
        assert ([pending] + tail)[|tail|] == tail[|tail| - 1];
        assert [pending] + (tail + [x]) == ([pending] + tail) + [x];
      } else {
        SquashFromAppend(pending, rest[1..], x, key, eq);
      }
    }
  }

  lemma SquashAppend<T, K>(s: seq<T>, x: T, key: T -> K, eq: (K, K) -> bool)
    requires |s| >= 1
    ensures var r := Squashed(s, key, eq);
      Squashed(s + [x], key, eq) == if eq(key(r[|r| - 1]), key(x)) then r else r + [x]
  {
    assert (s + [x])[0] == s[0] && (s + [x])[1..] == s[1..] + [x];
    SquashFromAppend(s[0], s[1..], x, key, eq);
  }

  /** The output starts with the first input element and ends with the head
      of the last run, the element still pending when the input runs out. */
  lemma {:induction false} SquashFirstLast<T, K>(s: seq<T>, key: T -> K, eq: (K, K) -> bool)
    requires |s| >= 1
    ensures var r := Squashed(s, key, eq);
      |r| >= 1 && r[0] == s[0] && r[|r| - 1] == s[LastRunHead(s, key, eq)]
    decreases |s|
  {
    if |s| > 1 {
      var init := s[..|s| - 1];
      assert init + [s[|s| - 1]] == s;
      SquashFirstLast(init, key, eq);
      SquashAppend(init, s[|s| - 1], key, eq);
      assert init[LastRunHead(init, key, eq)] == s[LastRunHead(init, key, eq)];
    }
  }
}
