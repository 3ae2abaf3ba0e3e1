/**
 * The Python string built-ins the cleaning code relies on: `str.strip()`,
 * the substring test `sub in s`, `s.replace(sub, '')` and `hex(n)[2:]`.
 */
module Text {

  /** Python's `str.isspace()` for one character: the characters `strip()` removes. */
  predicate IsSpace(c: char) {
    || c == ' '
    || '\t' <= c <= '\r'
    || '\U{1C}' <= c <= '\U{1F}'
    || c == '\U{85}'
    || c == '\U{A0}'
    || c == '\U{1680}'
    || '\U{2000}' <= c <= '\U{200A}'
    || c == '\U{2028}'
    || c == '\U{2029}'
    || c == '\U{202F}'
    || c == '\U{205F}'
    || c == '\U{3000}'
  }

  /** Every character of `s` from index `lo` up to `hi` is whitespace. */
  predicate SpaceBetween(s: string, lo: int, hi: int)
    requires 0 <= lo <= hi <= |s|
  {
    forall i :: lo <= i < hi ==> IsSpace(s[i])
  }

  /** Number of whitespace characters at the front of `s`. */
  function LeadingSpace(s: string): (n: nat)
    ensures n <= |s|
    ensures SpaceBetween(s, 0, n)
    ensures n < |s| ==> !IsSpace(s[n])
  {
    if s == [] || !IsSpace(s[0]) then 0
    else 1 + LeadingSpace(s[1..])
  }

  /** Number of whitespace characters at the back of `s`. */
  function TrailingSpace(s: string): (n: nat)
    ensures n <= |s|
    ensures SpaceBetween(s, |s| - n, |s|)
    ensures n < |s| ==> !IsSpace(s[|s| - 1 - n])
  {
    if s == [] || !IsSpace(s[|s| - 1]) then 0
    else 1 + TrailingSpace(s[..|s| - 1])
  }

  /** `r` sits at offset `i` of `s` with only whitespace around it. */
  predicate PaddedAt(s: string, r: string, i: int) {
    && 0 <= i <= |s| - |r|
    && s[i..i + |r|] == r
    && SpaceBetween(s, 0, i)
    && SpaceBetween(s, i + |r|, |s|)
  }

  /** Python's `s.strip()`: `s` without its leading and trailing whitespace. */
  function Strip(s: string): (r: string)
    ensures |r| <= |s|
    ensures r != [] ==> !IsSpace(r[0]) && !IsSpace(r[|r| - 1])
    ensures exists i :: PaddedAt(s, r, i)
  {
    var i := LeadingSpace(s);
    var j := i + (|s| - i - TrailingSpace(s[i..]));
    assert PaddedAt(s, s[i..j], i);
    s[i..j]
  }

  /** Stripping twice removes nothing more than stripping once. */
  lemma StripIdempotent(s: string)
    ensures Strip(Strip(s)) == Strip(s)
  {
  }

  /** `p` occurs in `s` starting at index `i`. */
  predicate OccursAt(s: string, p: string, i: int) {
    0 <= i && i + |p| <= |s| && s[i..i + |p|] == p
  }

  /** Python's substring test `p in s`, tried at every start position from the left. */
  function Contains(s: string, p: string): (b: bool)
    ensures b ==> |p| <= |s|
    decreases |s|
  {
    if |s| < |p| then false
    else if s[..|p|] == p then true
    else Contains(s[1..], p)
  }

  /** `p in s` holds exactly when `p` occurs in `s` at some position. */
  lemma {:induction false} ContainsOccurs(s: string, p: string)
    ensures Contains(s, p) <==> exists i :: OccursAt(s, p, i)
    decreases |s|
  {
    if |s| < |p| {
      assert forall i :: !OccursAt(s, p, i);
    } else if s[..|p|] == p {
      assert OccursAt(s, p, 0);
    } else {
      ContainsOccurs(s[1..], p);
      assert !OccursAt(s, p, 0);
      forall i | OccursAt(s[1..], p, i) ensures OccursAt(s, p, i + 1) {
        OccursShift(s, p, i);
      }
      forall i | OccursAt(s, p, i) ensures OccursAt(s[1..], p, i - 1) {
        OccursShift(s, p, i - 1);
      }
    }
  }

  /**
   * Python's `s.replace(p, '')`: every occurrence of `p`, found left to right
   * without overlap, is deleted.
   */
  function RemoveAll(s: string, p: string): (r: string)
    requires p != []
    ensures |r| <= |s|
    decreases |s|
  {
    if |s| < |p| then s
    else if s[..|p|] == p then RemoveAll(s[|p|..], p)
    else [s[0]] + RemoveAll(s[1..], p)
  }

  /** A string without `p` is left unchanged. */
  lemma {:induction false} RemoveAllAbsent(s: string, p: string)
    requires p != [] && !Contains(s, p)
    ensures RemoveAll(s, p) == s
    decreases |s|
  {
    if |s| >= |p| {
      assert !OccursAt(s, p, 0);
      assert s[..|p|] != p;
      assert Contains(s, p) == Contains(s[1..], p);
      RemoveAllAbsent(s[1..], p);
    }
  }

  /** A string holding `p` loses at least the length of `p`. */
  lemma {:induction false} RemoveAllShortens(s: string, p: string)
    requires p != [] && Contains(s, p)
    ensures |RemoveAll(s, p)| <= |s| - |p|
    decreases |s|
  {
    if s[..|p|] != p {
      assert !OccursAt(s, p, 0);
      assert Contains(s, p) == Contains(s[1..], p);
      RemoveAllShortens(s[1..], p);
    }
  }

  /** Dropping the first character moves every occurrence one place to the left. */
  lemma OccursShift(s: string, p: string, j: nat)
    requires |s| > 0
    ensures OccursAt(s[1..], p, j) <==> OccursAt(s, p, j + 1)
  {
    if j + |p| <= |s| - 1 {
      assert s[1..][j..j + |p|] == s[j + 1..j + 1 + |p|];
    }
  }

  /**
   * `replace` deletes the leftmost occurrence of `p` and carries on after it:
   * in `a + p + c` with no occurrence starting inside `a`, the result is `a`
   * followed by `c` with its occurrences deleted in turn. So occurrences are
   * deleted left to right, without overlap.
   */
  lemma {:induction false} RemoveLeftmost(a: string, p: string, c: string)
    requires p != []
    requires forall j :: 0 <= j < |a| ==> !OccursAt(a + p + c, p, j)
    ensures RemoveAll(a + p + c, p) == a + RemoveAll(c, p)
    decreases |a|
  {
    var s := a + p + c;
    if a == [] {
      assert s[..|p|] == p;
      assert s[|p|..] == c;
    } else {
      DropBeforeOccurrence(a, p, c);
      RemoveLeftmost(a[1..], p, c);
      assert a == [a[0]] + a[1..];
    }
  }

  /** The step of `RemoveLeftmost`: the first character of `a` is kept, and the rest of `a` is still free of `p`. */
  lemma DropBeforeOccurrence(a: string, p: string, c: string)
    requires p != [] && a != []
    requires forall j :: 0 <= j < |a| ==> !OccursAt(a + p + c, p, j)
    ensures RemoveAll(a + p + c, p) == [a[0]] + RemoveAll(a[1..] + p + c, p)
    ensures forall j :: 0 <= j < |a[1..]| ==> !OccursAt(a[1..] + p + c, p, j)
  {
    var s := a + p + c;
    assert !OccursAt(s, p, 0);
    assert s[..|p|] != p;
    assert s[1..] == a[1..] + p + c;
    forall j | 0 <= j < |a[1..]| ensures !OccursAt(a[1..] + p + c, p, j) {
      OccursShift(s, p, j);
    }
  }

  /**
   * When the only occurrence of `p` in `a + p` is the trailing one,
   * removing `p` gives back `a`.
   */
  lemma {:induction false} RemoveTrailing(a: string, p: string)
    requires p != []
    requires forall i :: OccursAt(a + p, p, i) ==> i == |a|
    ensures RemoveAll(a + p, p) == a
    decreases |a|
  {
    var s := a + p;
    if a == [] {
      assert s[..|p|] == p;
      assert s[|p|..] == [];
    } else {
      assert !OccursAt(s, p, 0);
      assert s[..|p|] != p;
      assert s[1..] == a[1..] + p;
      forall i | OccursAt(a[1..] + p, p, i) ensures i == |a[1..]| {
        assert s[i + 1..i + 1 + |p|] == s[1..][i..i + |p|];
        assert OccursAt(s, p, i + 1);
      }
      RemoveTrailing(a[1..], p);
    }
  }

  /** The lowercase hexadecimal digits, in value order. */
  const HexDigits: string := "0123456789abcdef"

  /** Python's `hex(n)[2:]`: `n` in lowercase hexadecimal without the `0x` prefix. */
  function Hex(n: nat): (h: string)
    ensures h != []
    ensures forall c :: c in h ==> c in HexDigits
    ensures n > 0 ==> h[0] != '0'
    decreases n
  {
    if n < 16 then [HexDigits[n]] else Hex(n / 16) + [HexDigits[n % 16]]
  }

  /** The value of one hexadecimal digit (0 for a character that is not one). */
  function DigitValue(c: char): nat {
    if '0' <= c <= '9' then (c - '0') as nat
    else if 'a' <= c <= 'f' then (c - 'a') as nat + 10
    else 0
  }

  /** Reads a string of hexadecimal digits back as a number. */
  function ParseHex(h: string): nat {
    if h == [] then 0 else 16 * ParseHex(h[..|h| - 1]) + DigitValue(h[|h| - 1])
  }

  /** Reading back what `Hex` wrote gives the number it started from. */
  lemma {:induction false} HexRoundTrip(n: nat)
    ensures ParseHex(Hex(n)) == n
    decreases n
  {
    if n < 16 {
      assert DigitValue(HexDigits[n]) == n;
    } else {
      HexRoundTrip(n / 16);
      var h := Hex(n);
      assert h[..|h| - 1] == Hex(n / 16);
      assert DigitValue(HexDigits[n % 16]) == n % 16;
    }
  }

  /** Distinct numbers get distinct hexadecimal renderings. */
  lemma HexInjective(a: nat, b: nat)
    ensures Hex(a) == Hex(b) ==> a == b
  {
    HexRoundTrip(a);
    HexRoundTrip(b);
  }
}
