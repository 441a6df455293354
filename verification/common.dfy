/** Shared vocabulary: optional results, fixed-width integer ranges and C strings. */
module Common {

  /** An optional value; `None` stands for the null `unique_ptr` or null pointer
      the library returns when there is nothing to return. */
  datatype Option<+T> = None | Some(value: T)

  const Int32Min: int := -0x8000_0000
  const Int32Max: int := 0x7fff_ffff
  const Int64Min: int := -0x8000_0000_0000_0000
  const Int64Max: int := 0x7fff_ffff_ffff_ffff

  /** The values of `std::int32_t`. */
  type Int32 = x: int | -0x8000_0000 <= x <= 0x7fff_ffff

  /** The values of `std::int64_t`. */
  type Int64 = x: int | -0x8000_0000_0000_0000 <= x <= 0x7fff_ffff_ffff_ffff

  /** `static_cast<std::int32_t>` of a 64-bit integer, taken as two's complement
      narrowing: the unique 32-bit value congruent to `x` modulo 2^32. */
  function NarrowToInt32(x: Int64): (r: Int32)
    ensures (x - r) % 0x1_0000_0000 == 0
    ensures Int32Min <= x <= Int32Max ==> r == x
  {
    (x + 0x8000_0000) % 0x1_0000_0000 - 0x8000_0000
  }

  /** The characters `c_str()` exposes to a C function: everything before the
      first NUL character. */
  function CString(s: string): (r: string)
    ensures |r| <= |s| && r == s[..|r|]
    ensures '\0' !in r
    ensures |r| < |s| ==> s[|r|] == '\0'
  {
    if |s| == 0 || s[0] == '\0' then "" else [s[0]] + CString(s[1..])
  }

  /** `NullOptionPtr(p, d)`: the text behind a C string pointer, or `d` for a null pointer. */
  function NullOptionPtr(p: Option<string>, d: string): (r: string)
    ensures p.Some? ==> r == p.value
    ensures p.None? ==> r == d
  {
    match p
    case Some(s) => s
    case None => d
  }

  /** `Swap` of `JsonObject` and `JsonArray`: the two containers exchange their
      contents; a null pointer to the other container changes nothing. */
  function Swap<T>(mine: T, other: Option<T>): (r: (T, Option<T>))
    ensures other.None? ==> r == (mine, None)
    ensures other.Some? ==> r.0 == other.value && r.1 == Some(mine)
  {
    match other
    case None => (mine, None)
    case Some(p) => (p, Some(mine))
  }

  /** Swapping twice restores both containers. */
  lemma SwapTwice<T>(mine: T, other: Option<T>)
    ensures Swap(Swap(mine, other).0, Swap(mine, other).1) == (mine, other)
  {
  }
}
