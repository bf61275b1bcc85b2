/** The operations of Python's `str` that the modelled code relies on. */
module PythonText {
  import opened Basics

  /** `str.isspace` of one character, which is also what `\s` matches. */
  predicate IsSpace(c: char) {
    var n := c as int;
    || 0x09 <= n <= 0x0D || 0x1C <= n <= 0x20 || n == 0x85 || n == 0xA0 || n == 0x1680
    || 0x2000 <= n <= 0x200A || n == 0x2028 || n == 0x2029 || n == 0x202F || n == 0x205F || n == 0x3000
  }

  /** `pattern` occurs in `text` at `at`. */
  predicate OccursAt(text: string, pattern: string, at: nat) {
    at + |pattern| <= |text| && text[at..at + |pattern|] == pattern
  }

  /** `text.find(pattern)`: the first occurrence at or after `from`. */
  function Find(text: string, pattern: string, from: nat): (r: Option<nat>)
    ensures r.Some? ==> from <= r.value && OccursAt(text, pattern, r.value)
    ensures r.Some? ==> forall k :: from <= k < r.value ==> !OccursAt(text, pattern, k)
    ensures r.None? ==> forall k :: from <= k ==> !OccursAt(text, pattern, k)
    decreases |text| - from
  {
    if from + |pattern| > |text| then None
    else if OccursAt(text, pattern, from) then Some(from)
    else Find(text, pattern, from + 1)
  }
}
