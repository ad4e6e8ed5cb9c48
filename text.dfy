/** Character classes and string scanners used by the crawler and the extractor. */
module Text {

  /** Python's `str.isspace()`, which is also what `\s` matches in a `str` regex. */
  predicate IsSpace(c: char) {
    || '\t' <= c <= '\r'
    || '\U{1C}' <= c <= '\U{1F}'
    || c == ' ' || c == '\U{85}' || c == '\U{A0}' || c == '\U{1680}'
    || '\U{2000}' <= c <= '\U{200A}'
    || c == '\U{2028}' || c == '\U{2029}' || c == '\U{202F}' || c == '\U{205F}' || c == '\U{3000}'
  }

  /** `\d`, restricted to the ASCII digits. */
  predicate IsDigit(c: char) {
    '0' <= c <= '9'
  }

  predicate AllDigits(s: string) {
    forall k :: 0 <= k < |s| ==> IsDigit(s[k])
  }

  /** `p` occurs in `s` at offset `i`. */
  predicate StartsAt(s: string, i: nat, p: string) {
    i + |p| <= |s| && s[i..i + |p|] == p
  }

  /** ASCII lower-casing, the folding `re.IGNORECASE` applies to ASCII letters. */
  function Lower(c: char): char {
    if 'A' <= c <= 'Z' then (c as int + 32) as char else c
  }

  /** `t` begins with `p` when compared case-insensitively (`p` is lower-case). */
  predicate FoldedPrefix(t: string, p: string) {
    |p| <= |t| && forall k :: 0 <= k < |p| ==> Lower(t[k]) == p[k]
  }

  predicate StartsAtFolded(s: string, i: nat, p: string) {
    i + |p| <= |s| && FoldedPrefix(s[i..], p)
  }

  /** The character classes the scanners repeat: `\s`, `\d` and `[^<]`. */
  datatype CharClass = Space | Digit | NotLt

  predicate InClass(c: char, cls: CharClass) {
    match cls
    case Space => IsSpace(c)
    case Digit => IsDigit(c)
    case NotLt => c != '<'
  }

  /** End of the longest run of characters of class `cls` that starts at `i`:
      the greedy `c*` of a regular expression. */
  function SpanEnd(s: string, i: nat, cls: CharClass): (e: nat)
    requires i <= |s|
    ensures i <= e <= |s|
    ensures forall k :: i <= k < e ==> InClass(s[k], cls)
    ensures e == |s| || !InClass(s[e], cls)
    decreases |s| - i
  {
    if i < |s| && InClass(s[i], cls) then SpanEnd(s, i + 1, cls) else i
  }

  /** A maximal run is determined by its start: any run that cannot be extended ends where SpanEnd does. */
  lemma SpanEndUnique(s: string, i: nat, m: nat, cls: CharClass)
    requires i <= m <= |s|
    requires forall k :: i <= k < m ==> InClass(s[k], cls)
    requires m == |s| || !InClass(s[m], cls)
    ensures SpanEnd(s, i, cls) == m
  {
  }

  /** Start of the longest run of whitespace that ends at `j`. */
  function SpaceStart(s: string, j: nat): (b: nat)
    requires j <= |s|
    ensures b <= j
    ensures forall k :: b <= k < j ==> IsSpace(s[k])
    ensures b == 0 || !IsSpace(s[b - 1])
  {
    if j > 0 && IsSpace(s[j - 1]) then SpaceStart(s, j - 1) else j
  }

  /** Python's `str.strip()` with no argument. */
  function Strip(s: string): (r: string)
    ensures exists i, j :: 0 <= i <= j <= |s| && r == s[i..j]
                           && (forall k :: 0 <= k < i ==> IsSpace(s[k]))
                           && (forall k :: j <= k < |s| ==> IsSpace(s[k]))
    ensures r == [] || (!IsSpace(r[0]) && !IsSpace(r[|r| - 1]))
  {
    var i := SpanEnd(s, 0, Space);
    if i == |s| then
      assert s[i..i] == [];
      []
    else
      var j := SpaceStart(s, |s|);
      s[i..j]
  }

  function DigitChar(d: nat): char
    requires d < 10
  {
    ('0' as int + d) as char
  }

  function DigitValue(c: char): nat
    requires IsDigit(c)
  {
    c as int - '0' as int
  }

  /** Python's `str(n)` for a non-negative integer: decimal, no leading zeros. */
  function Decimal(n: nat): (r: string)
    ensures |r| >= 1 && AllDigits(r)
    ensures n > 0 ==> r[0] != '0'
    ensures n < 10 ==> |r| == 1
  {
    if n < 10 then [DigitChar(n)] else Decimal(n / 10) + [DigitChar(n % 10)]
  }

  /** The number a run of decimal digits denotes, as `int(s)` reads it (leading zeros allowed). */
  function DigitsValue(s: string): nat
    requires AllDigits(s)
  {
    if s == [] then 0 else DigitsValue(s[..|s| - 1]) * 10 + DigitValue(s[|s| - 1])
  }

  lemma {:induction false} DecimalRoundTrip(n: nat)
    ensures DigitsValue(Decimal(n)) == n
  {
    var r := Decimal(n);
    if n >= 10 {
      DecimalRoundTrip(n / 10);
      assert r[..|r| - 1] == Decimal(n / 10);
    }
  }

  /** Python's `s.replace(pat, rep)`: every non-overlapping occurrence, scanning left to right. */
  function ReplaceAll(s: string, pat: string, rep: string): string
    requires |pat| > 0
    decreases |s|
  {
    if |s| < |pat| then s
    else if s[..|pat|] == pat then rep + ReplaceAll(s[|pat|..], pat, rep)
    else [s[0]] + ReplaceAll(s[1..], pat, rep)
  }

  /** When no occurrence of `pat` starts at the head of `s`, the head is kept and scanning moves on. */
  lemma ReplaceAllStep(s: string, pat: string, rep: string)
    requires |pat| > 0 && |s| > 0 && !StartsAt(s, 0, pat)
    ensures ReplaceAll(s, pat, rep) == [s[0]] + ReplaceAll(s[1..], pat, rep)
  {
    if |s| < |pat| {
      ReplaceAllShort(s[1..], pat, rep);
      assert s == [s[0]] + s[1..];
    }
  }

  /** When no occurrence of `pat` starts inside `p`, replacing in `p + t` leaves `p` as it is. */
  lemma {:induction false} ReplaceAllSkips(p: string, t: string, pat: string, rep: string)
    requires |pat| > 0
    requires forall k :: 0 <= k < |p| ==> !StartsAt(p + t, k, pat)
    ensures ReplaceAll(p + t, pat, rep) == p + ReplaceAll(t, pat, rep)
    decreases |p|
  {
    if p != [] {
      var s := p + t;
      assert s[1..] == p[1..] + t;
      forall k | 0 <= k < |p| - 1 ensures !StartsAt(p[1..] + t, k, pat) {
        assert !StartsAt(s, k + 1, pat);
      }
      assert !StartsAt(s, 0, pat);
      ReplaceAllStep(s, pat, rep);
      ReplaceAllSkips(p[1..], t, pat, rep);
      calc {
        ReplaceAll(s, pat, rep);
        [s[0]] + ReplaceAll(p[1..] + t, pat, rep);
        [p[0]] + (p[1..] + ReplaceAll(t, pat, rep));
        { assert p == [p[0]] + p[1..]; }
        p + ReplaceAll(t, pat, rep);
      }
    } else {
      assert p + t == t;
    }
  }

  lemma ReplaceAllShort(s: string, pat: string, rep: string)
    requires 0 < |pat| && |s| < |pat|
    ensures ReplaceAll(s, pat, rep) == s
  {
  }
}
