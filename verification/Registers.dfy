/**
 Runtime measurement registers over an abstract hash. SHA-384 is not injective, so its
 collision resistance is stated as injectivity over a type of digests of any size.
 */
module Registers {
  import opened Basics

  /** `sha` hashes bytes to a digest; `extend(r, e)` is the hash of `r` followed by `e`. */
  datatype Hasher<!D> = Hasher(sha: bytes -> D, extend: (D, D) -> D, zero: D)

  /** No two inputs found with the same hash, and none that hashes to zeros. */
  ghost predicate CollisionFree<D(!new)>(h: Hasher<D>) {
    && (forall x, y :: h.sha(x) == h.sha(y) ==> x == y)
    && (forall r, e, s, f :: h.extend(r, e) == h.extend(s, f) ==> r == s && e == f)
    && (forall r, e :: h.extend(r, e) != h.zero)
  }

  /** A register that was zero at boot, after these extensions. */
  function RegisterOf<D>(h: Hasher<D>, history: seq<D>): D {
    if history == [] then h.zero
    else h.extend(RegisterOf(h, history[..|history| - 1]), history[|history| - 1])
  }

  /** The value of a register tells its whole history. */
  lemma {:induction false} RegisterTellsHistory<D(!new)>(h: Hasher<D>, a: seq<D>, b: seq<D>)
    requires CollisionFree(h) && RegisterOf(h, a) == RegisterOf(h, b)
    ensures a == b
  {
    if a != [] && b != [] {
      RegisterTellsHistory(h, a[..|a| - 1], b[..|b| - 1]);
      assert a == a[..|a| - 1] + [a[|a| - 1]];
      assert b == b[..|b| - 1] + [b[|b| - 1]];
    }
  }

  lemma {:induction false} Extended<D>(h: Hasher<D>, history: seq<D>, e: D)
    ensures RegisterOf(h, history + [e]) == h.extend(RegisterOf(h, history), e)
  {
    assert (history + [e])[..|history|] == history;
  }

  /** The extension of zeros by one event. */
  lemma {:induction false} SingleExtension<D>(h: Hasher<D>, e: D)
    ensures RegisterOf(h, [e]) == h.extend(h.zero, e)
  {
    assert [e][..0] == [];
  }

  // ----- The assumption can be met -----

  /** Digests as what they are digests of. */
  datatype Term = Zero | Sha(input: bytes) | Extend(register: Term, event: Term)

  function FreeHasher(): Hasher<Term> {
    Hasher(x => Sha(x), (r, e) => Extend(r, e), Zero)
  }

  lemma {:induction false} FreeIsCollisionFree()
    ensures CollisionFree(FreeHasher())
  {
    var h := FreeHasher();
    forall x, y | h.sha(x) == h.sha(y) ensures x == y {
      assert h.sha(x) == Sha(x) && h.sha(y) == Sha(y);
    }
    forall r, e, s, f | h.extend(r, e) == h.extend(s, f) ensures r == s && e == f {
      assert h.extend(r, e) == Extend(r, e) && h.extend(s, f) == Extend(s, f);
    }
  }
}
