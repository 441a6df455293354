/** The parser's input cursor: a forward-only position into the text. The position
    always lies between 0 and the text length; reading at the end gives the
    sentinel character NUL. */
module InputStream {
  import opened Common

  /** The structural whitespace the parser skips: 0x09 through 0x0D, and 0x20. */
  predicate IsWhitespace(c: char) {
    '\t' <= c <= '\r' || c == ' '
  }

  /** `GetChar`: the character under the cursor, or NUL at the end. */
  function GetChar(t: string, p: nat): (c: char)
    ensures p < |t| ==> c == t[p]
    ensures p >= |t| ==> c == '\0'
  {
    if p < |t| then t[p] else '\0'
  }

  /** `NextChar`: advances one position, unless already at the end, and reads the
      character then under the cursor. */
  function NextChar(t: string, p: nat): (r: (char, nat))
    requires p <= |t|
    ensures r.1 <= |t|
    ensures p < |t| ==> r.1 == p + 1
    ensures p == |t| ==> r.1 == p
    ensures r.0 == GetChar(t, r.1)
    ensures r.0 != '\0' ==> r.1 == p + 1 && r.1 < |t|
  {
    if p < |t| then (GetChar(t, p + 1), p + 1) else ('\0', p)
  }

  /** `Next`: advances one position, and tells whether there was one to advance past. */
  function Next(t: string, p: nat): (r: (bool, nat))
    requires p <= |t|
    ensures r.0 <==> p < |t|
    ensures r.1 == if r.0 then p + 1 else p
  {
    if p == |t| then (false, p) else (true, p + 1)
  }

  /** `Trim`: skips the maximal run of whitespace starting at the cursor. */
  function Trim(t: string, p: nat): (q: nat)
    requires p <= |t|
    ensures p <= q <= |t|
    ensures forall i :: p <= i < q ==> IsWhitespace(t[i])
    ensures q < |t| ==> !IsWhitespace(t[q])
    decreases |t| - p
  {
    if p < |t| && IsWhitespace(t[p]) then Trim(t, p + 1) else p
  }

  /** `GetToken`: the first character that is not whitespace, or NUL. */
  function GetToken(t: string, p: nat): (c: char)
    requires p <= |t|
    ensures c == GetChar(t, Trim(t, p))
    ensures !IsWhitespace(c)
  {
    GetChar(t, Trim(t, p))
  }

  /** `CompareAndNext`: matches `word` character by character at the cursor and, on a
      full match, leaves the cursor just past it. A word never contains NUL, so a
      mismatch is found at the end of the text at the latest. */
  function CompareAndNext(t: string, p: nat, word: string): (r: Option<nat>)
    requires p <= |t|
    requires '\0' !in word
    ensures r.Some? <==> p + |word| <= |t| && t[p..p + |word|] == word
    ensures r.Some? ==> r.value == p + |word|
    decreases |word|
  {
    if |word| == 0 then Some(p)
    else if word[0] != GetChar(t, p) then None
    else
      var r := CompareAndNext(t, p + 1, word[1..]);
      assert r.Some? ==> t[p..p + |word|] == [t[p]] + t[p + 1..p + 1 + |word[1..]|];
      assert p + |word| <= |t| && t[p..p + |word|] == word ==> t[p + 1..p + |word|] == word[1..];
      r
  }

  /** True when the text holds `w` starting at position `p`. */
  predicate TextAt(t: string, p: nat, w: string) {
    p + |w| <= |t| && t[p..p + |w|] == w
  }

  /** Text at a position splits at every boundary of the word. */
  lemma TextAtSplit(t: string, p: nat, a: string, b: string)
    ensures TextAt(t, p, a + b) <==> TextAt(t, p, a) && TextAt(t, p + |a|, b)
  {
    if TextAt(t, p, a + b) {
      assert t[p..p + |a|] == (a + b)[..|a|];
      assert t[p + |a|..p + |a| + |b|] == (a + b)[|a|..];
    }
    if TextAt(t, p, a) && TextAt(t, p + |a|, b) {
      assert t[p..p + |a| + |b|] == t[p..p + |a|] + t[p + |a|..p + |a| + |b|];
    }
  }

  /** A one-character word is the character at that position. */
  lemma TextAtChar(t: string, p: nat, c: char)
    ensures TextAt(t, p, [c]) <==> p < |t| && t[p] == c
  {
    if p < |t| && t[p] == c {
      assert t[p..p + 1] == [c];
    }
  }

  /** Trimming twice is trimming once. */
  lemma TrimIdempotent(t: string, p: nat)
    requires p <= |t|
    ensures Trim(t, Trim(t, p)) == Trim(t, p)
  {
  }

  /** Trimming stops at the first character that is not whitespace. */
  lemma TrimStopsAt(t: string, p: nat, q: nat)
    requires p <= q <= |t|
    requires forall i :: p <= i < q ==> IsWhitespace(t[i])
    requires q < |t| && !IsWhitespace(t[q])
    ensures Trim(t, p) == q
  {
  }
}
