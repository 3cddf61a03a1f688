/**
 The parts of `std::string` the path helpers rely on: `size_t` positions with
 `npos`, `find_first_of`, `find_last_of`, the prefix constructor
 `std::string(s, 0, n)` and the read of the terminating NUL by `operator[]`.
 */
module CppString {

  /**
   `std::string::npos`, the largest `size_t`. The width is taken as 64 bits;
   a 32-bit build changes only this constant, since the path helpers rely
   only on `npos + 1 == 0` and on every length being below `npos`.
   */
  const NPOS: nat := 0xFFFF_FFFF_FFFF_FFFF

  /** A `size_t`, of the width `NPOS` fixes. */
  type SizeT = n: nat | n <= NPOS

  /** A `std::string`: its length never reaches `npos` (`max_size()` is below it). */
  type Str = s: string | |s| < NPOS

  /** `p + 1` in `size_t` arithmetic: `npos + 1` wraps around to 0. */
  function Inc(p: SizeT): (r: SizeT)
    ensures r == (p + 1) % (NPOS + 1)
  {
    if p == NPOS then 0 else p + 1
  }

  /**
   `s.find_first_of(chars, from)`: the first position at or after `from`
   holding one of `chars`, or `npos` when there is none.
   */
  function FindFirstOf(s: Str, chars: set<char>, from: SizeT): (r: SizeT)
    ensures r == NPOS || (from <= r < |s| && s[r] in chars)
    decreases |s| - from
  {
    if from >= |s| then NPOS
    else if s[from] in chars then from
    else FindFirstOf(s, chars, from + 1)
  }

  /** Nothing before the position `FindFirstOf` returns matches; nothing at all when it returns `npos`. */
  lemma {:induction false} FindFirstOfIsFirst(s: Str, chars: set<char>, from: SizeT)
    ensures var r := FindFirstOf(s, chars, from);
      forall i | from <= i < |s| && (r == NPOS || i < r) :: s[i] !in chars
    decreases |s| - from
  {
    if from < |s| && s[from] !in chars {
      FindFirstOfIsFirst(s, chars, from + 1);
    }
  }

  /** The position `FindFirstOf` returns is determined by the first match. */
  lemma FindFirstOfAt(s: Str, chars: set<char>, from: SizeT, j: nat)
    requires from <= j < |s| && s[j] in chars
    requires forall i | from <= i < j :: s[i] !in chars
    ensures FindFirstOf(s, chars, from) == j
  {
    FindFirstOfIsFirst(s, chars, from);
  }

  /** `FindFirstOf` answers `npos` exactly when no match is left. */
  lemma FindFirstOfNone(s: Str, chars: set<char>, from: SizeT)
    requires forall i | from <= i < |s| :: s[i] !in chars
    ensures FindFirstOf(s, chars, from) == NPOS
  {
    FindFirstOfIsFirst(s, chars, from);
  }

  /**
   `s.find_last_of(c)`: the last position holding `c`, or `npos` when `c`
   does not occur.
   */
  function FindLastOf(s: Str, c: char): (r: SizeT)
    ensures r == NPOS || (r < |s| && s[r] == c)
    ensures r == NPOS <==> c !in s
    ensures forall i | 0 <= i < |s| && (r == NPOS || r < i) :: s[i] != c
  {
    if |s| == 0 then NPOS
    else if s[|s| - 1] == c then |s| - 1
    else FindLastOf(s[..|s| - 1], c)
  }

  /** `std::string(s, 0, n)`: at most the first `n` characters of `s`. */
  function Head(s: Str, n: SizeT): (r: Str)
    ensures r <= s
    ensures n < |s| ==> |r| == n
    ensures n >= |s| ==> r == s
  {
    if n < |s| then s[..n] else s
  }

  /** `s[i]` on a const `std::string`: position `size()` reads the terminating NUL. */
  function CharAt(s: Str, i: nat): (c: char)
    requires i <= |s|
    ensures i < |s| ==> c == s[i]
    ensures i == |s| ==> c == '\0'
  {
    if i < |s| then s[i] else '\0'
  }
}
