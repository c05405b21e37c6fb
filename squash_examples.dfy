/** Concrete runs of Squash, including one with a comparer that is not
    transitive, where comparing against the pending run head differs from
    comparing against the previous input element. */
module SquashExamples {
  import opened Squash

  /** Keys within one of each other compare equal: reflexive and symmetric,
      but not transitive. */
  function Near(a: int, b: int): bool
  {
    -1 <= a - b <= 1
  }

  /** The key of the parity example, `x => x % 2` (non-negative inputs only,
      where C#'s remainder and Dafny's agree). */
  function Parity(x: int): int
  {
    x % 2
  }

  /** ASCII case folding of one character. */
  function Lower(c: char): char
  {
    if 'A' <= c <= 'Z' then (c as int + 32) as char else c
  }

  /** Case-insensitive (ASCII) string equality. */
  function SameIgnoringCase(a: string, b: string): bool
  {
    |a| == |b| && forall i :: 0 <= i < |a| ==> Lower(a[i]) == Lower(b[i])
  }

  /** A one-element source yields itself. */
  lemma Singleton()
    ensures Squashed([5], Identity, Equal) == [5]
  {
  }

  /** Runs collapse to their first element; later repetitions separated by
      another key survive. */
  lemma Runs()
    ensures Squashed([1, 1, 2, 2, 2, 3, 1], Identity, Equal) == [1, 2, 3, 1]
  {
  }

  /** A value that reappears after a different one is kept. */
  lemma NonAdjacentRepeatKept()
    ensures Squashed([1, 2, 1], Identity, Equal) == [1, 2, 1]
  {
  }

  /** Keys 1, 0, 1 have no equal neighbours, so nothing is dropped. */
  lemma ParityKeys()
    ensures Squashed([1, 2, 3], Parity, Equal) == [1, 2, 3]
  {
  }

  /** "A" is absorbed into the run started by "a". */
  lemma CaseInsensitive()
    ensures Squashed(["a", "A", "b"], Identity, SameIgnoringCase) == ["a", "b"]
  {
    assert SameIgnoringCase("a", "A");
    assert Lower("a"[0]) != Lower("b"[0]);
  }

  /** 2 is near the pending 1 and is dropped; 3 is compared with the pending
      1, not with the dropped 2, so it starts a new run. */
  lemma ComparesWithRunHead()
    ensures Squashed([1, 2, 3], Identity, Near) == [1, 3]
  {
  }
}
