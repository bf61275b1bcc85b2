/** Types shared by every module of the model. */
module Basics {
  /** One octet. Bit masks of the source are written as ranges and quotients. */
  type byte = x: int | 0 <= x < 256

  type bytes = seq<byte>

  datatype Option<+T> = None | Some(value: T)

  datatype Result<+T, +E> = Ok(value: T) | Err(error: E) {
    predicate IsFailure() {
      Err?
    }

    function PropagateFailure<U>(): Result<U, E>
      requires Err?
    {
      Err(error)
    }

    function Extract(): T
      requires Ok?
    {
      value
    }
  }

  function Min(a: int, b: int): int {
    if a <= b then a else b
  }

  function Max(a: int, b: int): int {
    if a >= b then a else b
  }

  /** The bytes of an ASCII text. */
  function Ascii(s: string): bytes {
    seq(|s|, i requires 0 <= i < |s| => s[i] as int % 128)
  }

  // ----- Prefixes and slices -----

  lemma {:induction false} PrefixAppend<T>(a: seq<T>, b: seq<T>, c: seq<T>)
    requires a <= b
    ensures a <= b + c
  {
  }

  /** In a text that begins with `front + back`, `back` is where `front` ends. */
  lemma {:induction false} SliceAfter<T>(whole: seq<T>, front: seq<T>, back: seq<T>)
    requires front + back <= whole
    ensures |front| + |back| <= |whole|
    ensures whole[|front|..|front| + |back|] == back
  {
    assert whole[..|front| + |back|] == front + back;
  }

  lemma {:induction false} NestedSlice<T>(s: seq<T>, lo: nat, hi: nat, a: nat, b: nat)
    requires lo <= a <= b <= hi <= |s|
    ensures s[lo..hi][a - lo..b - lo] == s[a..b]
  {
    var t := s[lo..hi];
    var u := t[a - lo..b - lo];
    forall k | 0 <= k < b - a ensures u[k] == s[a..b][k] {
      assert u[k] == t[a - lo + k];
    }
  }

  lemma {:induction false} DropDrop<T>(s: seq<T>, i: nat, j: nat)
    requires i + j <= |s|
    ensures s[i..][j..] == s[i + j..]
  {
  }

  lemma {:induction false} SplitAt<T>(s: seq<T>, i: nat)
    requires i <= |s|
    ensures s == s[..i] + s[i..]
  {
  }

  lemma {:induction false} Associate(a: bytes, b: bytes, c: bytes)
    ensures a + b + c == a + (b + c)
  {
  }
}
