/** String helpers the components rely on: JavaScript's `String.prototype.trim`
    (used by the comment guard and by the search box) and the case-insensitive
    substring test behind the store's ILIKE '%term%' filter. */
module Text {

  /** The characters JavaScript's `trim` removes: WhiteSpace (TAB, VT, FF,
      ZWNBSP and every Unicode space separator) and LineTerminator
      (LF, CR, LS, PS). */
  predicate IsJsSpace(c: char)
  {
    var n := c as int;
    || n == 0x09 || n == 0x0B || n == 0x0C || n == 0x20 || n == 0xA0 || n == 0xFEFF
    || n == 0x1680 || (0x2000 <= n <= 0x200A) || n == 0x202F || n == 0x205F || n == 0x3000
    || n == 0x0A || n == 0x0D || n == 0x2028 || n == 0x2029
  }

  /** Every character of `s` is white space (vacuously true of ""). */
  predicate IsBlank(s: string)
  {
    forall i :: 0 <= i < |s| ==> IsJsSpace(s[i])
  }

  /** `s` with its leading white space removed: a suffix of `s` that does not
      start with white space, everything cut off being white space. */
  function TrimStart(s: string): (r: string)
    ensures |r| <= |s| && r == s[|s| - |r|..]
    ensures r == [] || !IsJsSpace(r[0])
    ensures forall i :: 0 <= i < |s| - |r| ==> IsJsSpace(s[i])
  {
    if |s| > 0 && IsJsSpace(s[0]) then TrimStart(s[1..]) else s
  }

  /** `s` with its trailing white space removed: a prefix of `s` that does not
      end with white space, everything cut off being white space. */
  function TrimEnd(s: string): (r: string)
    ensures |r| <= |s| && r == s[..|r|]
    ensures r == [] || !IsJsSpace(r[|r| - 1])
    ensures forall i :: |r| <= i < |s| ==> IsJsSpace(s[i])
  {
    if |s| > 0 && IsJsSpace(s[|s| - 1]) then TrimEnd(s[..|s| - 1]) else s
  }

  /** JavaScript's `s.trim()`. The result is empty exactly when `s` is blank,
      otherwise it neither starts nor ends with white space, and it is the
      infix of `s` left after cutting white space from both ends (and only
      white space). */
  function Trim(s: string): (r: string)
    ensures r == [] <==> IsBlank(s)
    ensures r != [] ==> !IsJsSpace(r[0]) && !IsJsSpace(r[|r| - 1])
    ensures exists k :: TrimmedAt(s, r, k)
  {
    var t := TrimStart(s);
    var r := TrimEnd(t);
    var k := |s| - |t|;
    assert OccursAt(s, r, k);
    TrimStartCutsBlank(s);
    TrimEndCutsBlank(t);
    assert s[k + |r|..] == t[|r|..];
    assert TrimmedAt(s, r, k);
    r
  }

  /** What `TrimStart` cuts off is white space. */
  lemma TrimStartCutsBlank(s: string)
    ensures IsBlank(s[..|s| - |TrimStart(s)|])
  {
    var cut := s[..|s| - |TrimStart(s)|];
    forall i | 0 <= i < |cut| ensures IsJsSpace(cut[i]) {
      assert cut[i] == s[i];
    }
  }

  /** What `TrimEnd` cuts off is white space. */
  lemma TrimEndCutsBlank(t: string)
    ensures IsBlank(t[|TrimEnd(t)|..])
  {
    var cut := t[|TrimEnd(t)|..];
    forall i | 0 <= i < |cut| ensures IsJsSpace(cut[i]) {
      assert cut[i] == t[|TrimEnd(t)| + i];
    }
  }

  /** `r` stands at position `k` of `s`, and everything before and after it is
      white space: `r` is what is left of `s` once both ends are cut. */
  predicate TrimmedAt(s: string, r: string, k: int)
  {
    OccursAt(s, r, k) && IsBlank(s[..k]) && IsBlank(s[k + |r|..])
  }

  /** Trimming twice is trimming once. */
  lemma {:induction false} TrimIdempotent(s: string)
    ensures Trim(Trim(s)) == Trim(s)
  {
    var r := Trim(s);
    assert TrimStart(r) == r;
    assert TrimEnd(r) == r;
  }

  /** ASCII upper-case letters become lower-case, every other character is kept. */
  function LowerChar(c: char): (d: char)
    ensures 'A' <= c <= 'Z' ==> d as int == c as int + 32
    ensures !('A' <= c <= 'Z') ==> d == c
  {
    if 'A' <= c <= 'Z' then (c as int + 32) as char else c
  }

  /** `s` folded to lower case character by character. */
  function Lower(s: string): (r: string)
    ensures |r| == |s|
    ensures forall i :: 0 <= i < |s| ==> r[i] == LowerChar(s[i])
  {
    seq(|s|, i requires 0 <= i < |s| => LowerChar(s[i]))
  }

  /** `t` occurs in `s` starting at position `k`. */
  predicate OccursAt(s: string, t: string, k: int)
  {
    0 <= k && k + |t| <= |s| && s[k..k + |t|] == t
  }

  /** Substring search: true exactly when `t` occurs somewhere in `s`. */
  function Contains(s: string, t: string): (b: bool)
    ensures b <==> exists k :: OccursAt(s, t, k)
    decreases |s|
  {
    if |t| > |s| then
      assert forall k :: !OccursAt(s, t, k);
      false
    else if s[..|t|] == t then
      assert OccursAt(s, t, 0);
      true
    else
      var rest := Contains(s[1..], t);
      assert forall k :: OccursAt(s[1..], t, k) <==> OccursAt(s, t, k + 1) by {
        forall k ensures OccursAt(s[1..], t, k) <==> OccursAt(s, t, k + 1) {
          if 0 <= k && k + |t| <= |s| - 1 {
            assert s[1..][k..k + |t|] == s[k + 1..k + 1 + |t|];
          }
        }
      }
      assert !OccursAt(s, t, 0);
      assert (exists k :: OccursAt(s, t, k)) ==> exists k :: OccursAt(s[1..], t, k) by {
        if k :| OccursAt(s, t, k) {
          assert k > 0 && OccursAt(s[1..], t, k - 1);
        }
      }
      rest
  }

  /** The store's `column ILIKE '%term%'` on a plain term (no wildcard
      characters): `term` occurs in `s` when both are folded to lower case. */
  predicate ILike(s: string, term: string)
  {
    Contains(Lower(s), Lower(term))
  }

  /** Folding the term (or the text) to lower case first does not change the
      answer: the match ignores case on both sides. */
  lemma {:induction false} ILikeIgnoresCase(s: string, term: string)
    ensures ILike(s, term) == ILike(Lower(s), Lower(term))
  {
    LowerIdempotent(s);
    LowerIdempotent(term);
  }

  lemma {:induction false} LowerIdempotent(s: string)
    ensures Lower(Lower(s)) == Lower(s)
  {
    assert forall i :: 0 <= i < |s| ==> LowerChar(LowerChar(s[i])) == LowerChar(s[i]);
  }
}
