/**
 * The few operations of the C++ standard string that the checker and its
 * command line use: `substr` and `find`, with `npos` as the "not found" value.
 */
module StdString {

  /** `std::string::npos`: the largest value of a 64-bit `size_t`. */
  const NPOS: nat := 0xFFFF_FFFF_FFFF_FFFF

  /** A standard string is always shorter than `npos` (its `max_size` is below it). */
  type CppString = s: string | |s| < NPOS

  function Min(a: nat, b: nat): nat {
    if a <= b then a else b
  }

  /**
   * `s.substr(pos, count)`: at most `count` characters starting at `pos`.
   * The standard throws when `pos > size()`; no caller here does that.
   */
  function Substr(s: string, pos: nat, count: nat): string
    requires pos <= |s|
  {
    s[pos..pos + Min(count, |s| - pos)]
  }

  /** `s.find(c)`: the index of the first `c` in `s`, or `NPOS` if there is none. */
  function Find(s: CppString, c: char): (i: nat)
    ensures i == NPOS <==> c !in s
    ensures i != NPOS ==> i < |s| && s[i] == c && c !in s[..i]
  {
    FindFrom(s, c, 0)
  }

  function FindFrom(s: CppString, c: char, from: nat): (i: nat)
    requires from <= |s|
    ensures i == NPOS <==> c !in s[from..]
    ensures i != NPOS ==> from <= i < |s| && s[i] == c && c !in s[from..i]
    decreases |s| - from
  {
    if from == |s| then NPOS
    else if s[from] == c then from
    else
      assert s[from..] == [s[from]] + s[from + 1..];
      FindFrom(s, c, from + 1)
  }
}
