/**
 * The JavaScript string operations the core relies on, on strings of Unicode scalar values:
 * `length` (in UTF-16 code units), `trim`, removal of `\s`, `includes`, `substring`
 * and `toLowerCase`.
 */
module JsStrings {
  import opened Seqs

  /** ECMAScript WhiteSpace and LineTerminator code points: what `trim` strips and `\s` matches. */
  predicate IsSpace(c: char) {
    var n := c as int;
    n == 0x09 || n == 0x0A || n == 0x0B || n == 0x0C || n == 0x0D || n == 0x20 || n == 0xA0
    || n == 0x1680 || (0x2000 <= n <= 0x200A) || n == 0x2028 || n == 0x2029 || n == 0x202F
    || n == 0x205F || n == 0x3000 || n == 0xFEFF
  }

  predicate NotSpace(c: char) {
    !IsSpace(c)
  }

  /** `s.length`: a code point above U+FFFF is a surrogate pair and counts twice. */
  function JsLength(s: string): (n: nat)
    ensures |s| <= n <= 2 * |s|
    ensures (forall i :: 0 <= i < |s| ==> s[i] as int <= 0xFFFF) ==> n == |s|
  {
    if s == [] then 0 else (if s[0] as int > 0xFFFF then 2 else 1) + JsLength(s[1..])
  }

  /** `length` adds up over concatenation. */
  lemma {:induction false} JsLengthAppend(a: string, b: string)
    ensures JsLength(a + b) == JsLength(a) + JsLength(b)
    decreases |a|
  {
    if a != [] {
      assert (a + b)[0] == a[0] && (a + b)[1..] == a[1..] + b;
      JsLengthAppend(a[1..], b);
    } else {
      assert a + b == b;
    }
  }

  /** One code point counts one unit, or two when it lies above U+FFFF. */
  lemma JsLengthOfChar(c: char)
    ensures JsLength([c]) == if c as int > 0xFFFF then 2 else 1
  {
    assert [c][1..] == [];
  }

  /** The first position at or after `k` that is not white space, or `|s|`. */
  function SkipSpaces(s: string, k: nat): (n: nat)
    requires k <= |s|
    ensures k <= n <= |s|
    ensures forall i :: k <= i < n ==> IsSpace(s[i])
    ensures n < |s| ==> !IsSpace(s[n])
    decreases |s| - k
  {
    if k == |s| || !IsSpace(s[k]) then k else SkipSpaces(s, k + 1)
  }

  /** The end of `s[..k]` once its trailing white space is cut off. */
  function BackSpaces(s: string, k: nat): (n: nat)
    requires k <= |s|
    ensures n <= k
    ensures forall i :: n <= i < k ==> IsSpace(s[i])
    ensures n > 0 ==> !IsSpace(s[n - 1])
  {
    if k == 0 || !IsSpace(s[k - 1]) then k else BackSpaces(s, k - 1)
  }

  /** `trim`: `s` without its leading and trailing white space. */
  function Trim(s: string): (r: string)
    ensures r == [] || (!IsSpace(r[0]) && !IsSpace(r[|r| - 1]))
    ensures r == [] <==> forall i :: 0 <= i < |s| ==> IsSpace(s[i])
    ensures forall i :: 0 <= i < |s| && NotSpace(s[i]) ==> r != []
    // what remains is the stretch between the leading and the trailing white space
    ensures r == [] || r == s[SkipSpaces(s, 0)..BackSpaces(s, |s|)]
  {
    var a := SkipSpaces(s, 0);
    var b := BackSpaces(s, |s|);
    if a < b then s[a..b] else []
  }

  /** `s.replace(/\s+/g, "")`: every white-space code point removed. */
  function RemoveSpaces(s: string): (r: string)
    ensures forall i :: 0 <= i < |r| ==> !IsSpace(r[i])
    // every other code point is kept, as often as it occurs and in its order
    ensures forall c :: multiset(r)[c] == if NotSpace(c) then multiset(s)[c] else 0
    ensures Subseq(r, s)
  {
    FilterCounts(s, NotSpace);
    FilterSubseq(s, NotSpace);
    Filter(s, NotSpace)
  }

  /** `b` occurs in `a` at offset `i`. */
  predicate OccursAt(a: string, b: string, i: int) {
    0 <= i <= |a| - |b| && a[i..i + |b|] == b
  }

  /** `a.includes(b)`, scanning `a` from the front. */
  predicate Includes(a: string, b: string)
    decreases |a|
  {
    (|b| <= |a| && a[..|b|] == b) || (|a| > 0 && Includes(a[1..], b))
  }

  /** `includes` finds exactly the offsets where `b` occurs. */
  lemma {:induction false} IncludesIff(a: string, b: string)
    ensures Includes(a, b) <==> exists i :: OccursAt(a, b, i)
    decreases |a|
  {
    if |b| <= |a| && a[..|b|] == b {
      assert OccursAt(a, b, 0);
    } else if |a| > 0 {
      IncludesIff(a[1..], b);
      if Includes(a[1..], b) {
        var i :| OccursAt(a[1..], b, i);
        assert a[1..][i..i + |b|] == a[i + 1..i + 1 + |b|];
        assert OccursAt(a, b, i + 1);
      } else {
        forall i | OccursAt(a, b, i) ensures i == 0 || OccursAt(a[1..], b, i - 1) {
          if i != 0 {
            assert a[1..][i - 1..i - 1 + |b|] == a[i..i + |b|];
          }
        }
      }
    }
  }

  /** Every string includes the empty string, and includes itself. */
  lemma IncludesEmptyAndSelf(a: string)
    ensures Includes(a, "")
    ensures Includes(a, a)
  {
    assert a[..0] == "";
    assert a[..|a|] == a;
  }

  function Clamp(k: int, n: nat): (r: nat)
    ensures r <= n
  {
    if k < 0 then 0 else if k > n then n else k
  }

  /** `s.substring(start, end)`: both ends clamped to the string, swapped when reversed. */
  function Substring(s: string, start: int, end: int): (r: string)
    ensures |r| <= |s|
    ensures start == 0 && 0 <= end ==> r == s[..Clamp(end, |s|)]
  {
    var a := Clamp(start, |s|);
    var b := Clamp(end, |s|);
    if a <= b then s[a..b] else s[b..a]
  }

  /** The capitals `toLowerCase` maps here: Basic Latin A to Z, and the Latin-1 capitals but ×. */
  predicate IsCapital(c: char) {
    ('A' <= c <= 'Z') || ('\U{C0}' <= c <= '\U{DE}' && c != '\U{D7}')
  }

  /** `toLowerCase` on one code point. */
  function LowerChar(c: char): (r: char)
    // a capital becomes its small letter, 0x20 further on; every other code point is kept
    ensures IsCapital(c) ==> r as int == c as int + 0x20
    ensures !IsCapital(c) ==> r == c
    // the result is no capital, so lowering it again keeps it
    ensures !IsCapital(r)
    // ASCII stays ASCII, and nothing else becomes ASCII
    ensures (r as int < 0x80) <==> (c as int < 0x80)
  {
    if IsCapital(c) then (c as int + 0x20) as char else c
  }

  /** `toLowerCase`, code point by code point. */
  function ToLowerCase(s: string): (r: string)
    ensures |r| == |s|
    ensures forall i :: 0 <= i < |s| && IsCapital(s[i]) ==> r[i] as int == s[i] as int + 0x20
    ensures forall i :: 0 <= i < |s| && !IsCapital(s[i]) ==> r[i] == s[i]
    ensures forall i :: 0 <= i < |r| ==> !IsCapital(r[i])
  {
    seq(|s|, i requires 0 <= i < |s| => LowerChar(s[i]))
  }

  /** Lower-casing twice is lower-casing once. */
  lemma LowerCaseIdempotent(s: string)
    ensures ToLowerCase(ToLowerCase(s)) == ToLowerCase(s)
  {
    var r := ToLowerCase(s);
    assert forall i :: 0 <= i < |r| ==> ToLowerCase(r)[i] == r[i];
  }
}
