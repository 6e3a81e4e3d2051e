/** Character-level string helpers shared by every component: Python's
    `str.strip`, prefix and substring tests, ASCII `lower` and `str(n)`. */
module Text {

  /** The characters Python's `str.isspace()` accepts. `strip()` with no
      argument and the regular-expression class `\s` both use them. */
  predicate IsSpace(c: char) {
    || '\t' <= c <= '\r'              // tab, line feed, vertical tab, form feed, carriage return
    || '\U{1C}' <= c <= ' '            // file/group/record/unit separators, space
    || c == '\U{85}' || c == '\U{A0}' || c == '\U{1680}'
    || '\U{2000}' <= c <= '\U{200A}'
    || c == '\U{2028}' || c == '\U{2029}' || c == '\U{202F}' || c == '\U{205F}' || c == '\U{3000}'
  }

  /** The two character sets the repository strips: Python's whitespace
      (`strip()`) and the CSV cleaning set of `strip(' \t"')`. */
  datatype CharSet = Whitespace | SpaceTabQuote

  predicate In(c: char, cs: CharSet) {
    match cs
    case Whitespace => IsSpace(c)
    case SpaceTabQuote => c == ' ' || c == '\t' || c == '"'
  }

  /** Every character of `s` is in `cs`. */
  predicate AllIn(s: string, cs: CharSet) {
    forall i :: 0 <= i < |s| ==> In(s[i], cs)
  }

  /** `s` neither starts nor ends with a character of `cs`. */
  predicate NoEdge(s: string, cs: CharSet) {
    s == [] || (!In(s[0], cs) && !In(s[|s| - 1], cs))
  }

  /** Python's `s.strip(chars)`: drops every leading and trailing character
      that belongs to `cs`. */
  function Strip(s: string, cs: CharSet): (r: string)
    ensures NoEdge(r, cs)
    ensures |r| <= |s|
    ensures r == [] <==> AllIn(s, cs)
    decreases |s|
  {
    if |s| > 0 && In(s[0], cs) then
      var r := Strip(s[1..], cs);
      assert AllIn(s, cs) <==> AllIn(s[1..], cs) by {
        if AllIn(s[1..], cs) {
          forall i | 0 <= i < |s| ensures In(s[i], cs) {
            if i > 0 { assert s[i] == s[1..][i - 1]; }
          }
        }
      }
      r
    else if |s| > 0 && In(s[|s| - 1], cs) then
      var r := Strip(s[..|s| - 1], cs);
      assert !AllIn(s, cs) && !AllIn(s[..|s| - 1], cs) by {
        assert !In(s[0], cs);
        assert |s| > 1 && s[..|s| - 1][0] == s[0];
      }
      r
    else
      s
  }

  /** Python's `s.strip()`. */
  function Trim(s: string): string {
    Strip(s, Whitespace)
  }

  /** `Strip` keeps exactly the window `s[i..j]` when everything before
      and after the window is in `cs` and the window has no such character
      at its edges. */
  lemma {:induction false} StripWindow(s: string, i: nat, j: nat, cs: CharSet)
    requires i <= j <= |s|
    requires forall k :: 0 <= k < i ==> In(s[k], cs)
    requires forall k :: j <= k < |s| ==> In(s[k], cs)
    requires NoEdge(s[i..j], cs)
    ensures Strip(s, cs) == s[i..j]
    decreases |s|
  {
    assert i < j ==> s[i..j][0] == s[i] && s[i..j][j - i - 1] == s[j - 1];
    if |s| > 0 && In(s[0], cs) {
      var t := s[1..];
      var i', j' := if i == 0 then 0 else i - 1, if j == 0 then 0 else j - 1;
      assert t[i'..j'] == s[i..j];
      assert forall k :: 0 <= k < i' ==> t[k] == s[k + 1];
      assert forall k :: j' <= k < |t| ==> t[k] == s[k + 1];
      StripWindow(t, i', j', cs);
    } else if |s| > 0 && In(s[|s| - 1], cs) {
      var t := s[..|s| - 1];
      assert t[i..j] == s[i..j];
      assert forall k :: 0 <= k < |t| ==> t[k] == s[k];
      StripWindow(t, i, j, cs);
    } else {
      assert s[i..j] == s;
    }
  }

  /** `Strip` is characterised independently of how it scans: whatever text
      is surrounded by characters of `cs` and has no such character at its
      own edges is what `Strip` returns. */
  lemma {:induction false} StripCharacterization(p: string, r: string, q: string, cs: CharSet)
    requires AllIn(p, cs) && AllIn(q, cs) && NoEdge(r, cs)
    ensures Strip(p + r + q, cs) == r
  {
    var s := p + r + q;
    var i, j := |p|, |p| + |r|;
    assert s[i..j] == r;
    assert forall k :: 0 <= k < i ==> s[k] == p[k];
    assert forall k :: j <= k < |s| ==> s[k] == q[k - j];
    StripWindow(s, i, j, cs);
  }

  /** Stripping twice changes nothing further. */
  lemma StripIdempotent(s: string, cs: CharSet)
    ensures Strip(Strip(s, cs), cs) == Strip(s, cs)
  {
    var r := Strip(s, cs);
    assert [] + r + [] == r;
    StripCharacterization([], r, [], cs);
  }

  /** Python's `s.startswith(p)`. */
  predicate StartsWith(s: string, p: string) {
    |p| <= |s| && s[..|p|] == p
  }

  /** `t` occurs in `s` starting at index `i`. */
  predicate OccursAt(s: string, t: string, i: nat) {
    i + |t| <= |s| && s[i..i + |t|] == t
  }

  /** Python's `t in s` for two strings. */
  function Contains(s: string, t: string): (b: bool)
    ensures b <==> exists i: nat :: OccursAt(s, t, i)
  {
    if StartsWith(s, t) then
      assert OccursAt(s, t, 0);
      true
    else if |s| == 0 then
      assert forall i: nat :: !OccursAt(s, t, i);
      false
    else
      var b := Contains(s[1..], t);
      assert b ==> exists i: nat :: OccursAt(s, t, i) by {
        if b {
          var i: nat :| OccursAt(s[1..], t, i);
          assert s[1..][i..i + |t|] == s[i + 1..i + 1 + |t|];
          assert OccursAt(s, t, i + 1);
        }
      }
      assert (exists i: nat :: OccursAt(s, t, i)) ==> b by {
        if exists i: nat :: OccursAt(s, t, i) {
          var i: nat :| OccursAt(s, t, i);
          assert i != 0;
          assert s[1..][i - 1..i - 1 + |t|] == s[i..i + |t|];
          assert OccursAt(s[1..], t, i - 1);
        }
      }
      b
  }

  /** Python's `str.lower()` on ASCII letters. */
  function LowerChar(c: char): (d: char)
    ensures 'A' <= c <= 'Z' ==> 'a' <= d <= 'z' && d as int - 'a' as int == c as int - 'A' as int
    ensures !('A' <= c <= 'Z') ==> d == c
  {
    if 'A' <= c <= 'Z' then (c as int - 'A' as int + 'a' as int) as char else c
  }

  function Lower(s: string): (r: string)
    ensures |r| == |s|
    ensures forall i :: 0 <= i < |s| ==> r[i] == LowerChar(s[i])
  {
    if s == [] then [] else [LowerChar(s[0])] + Lower(s[1..])
  }

  /** Lower-casing twice is lower-casing once. */
  lemma LowerIdempotent(s: string)
    ensures Lower(Lower(s)) == Lower(s)
  {
    var l := Lower(s);
    assert forall i :: 0 <= i < |l| ==> Lower(l)[i] == l[i];
  }

  predicate IsDigit(c: char) {
    '0' <= c <= '9'
  }

  function DigitChar(d: nat): (c: char)
    requires d < 10
    ensures IsDigit(c) && c as int - '0' as int == d
  {
    ('0' as int + d) as char
  }

  /** Python's `str(n)` for a non-negative integer: its decimal digits,
      without leading zeros. */
  function NatToString(n: nat): (r: string)
    ensures |r| >= 1
    ensures forall i :: 0 <= i < |r| ==> IsDigit(r[i])
    ensures r[0] == '0' ==> n == 0
  {
    if n < 10 then [DigitChar(n)] else NatToString(n / 10) + [DigitChar(n % 10)]
  }

  /** The number a string of decimal digits denotes. */
  function DecimalValue(s: string): nat
    requires forall i :: 0 <= i < |s| ==> IsDigit(s[i])
  {
    if s == [] then 0
    else
      assert IsDigit(s[|s| - 1]);
      10 * DecimalValue(s[..|s| - 1]) + ((s[|s| - 1] as int - '0' as int) as nat)
  }

  /** Reading back the digits `NatToString` writes gives the number again. */
  lemma {:induction false} DecimalRoundTrip(n: nat)
    ensures DecimalValue(NatToString(n)) == n
  {
    if n >= 10 {
      var s := NatToString(n);
      assert s[..|s| - 1] == NatToString(n / 10);
      DecimalRoundTrip(n / 10);
    }
  }

  /** Distinct numbers print differently. */
  lemma NatToStringInjective(m: nat, n: nat)
    requires NatToString(m) == NatToString(n)
    ensures m == n
  {
    DecimalRoundTrip(m);
    DecimalRoundTrip(n);
  }
}
