/** Recognising list items by their plain text (src/figma_copy_workflow/helpers.py:184-198):
    an unordered item starts with a bullet character; a numbered item starts
    with a marker of the pattern `^(\d+[.)]|[a-zA-Z][.)]|[ivxlcdm]+[.)]|[IVXLCDM]+[.)])\s`
    matched case-insensitively. The pattern is written out by hand here. */
module ListMarker {
  import opened Wrappers
  import opened Text

  predicate IsAsciiLetter(c: char) {
    'a' <= c <= 'z' || 'A' <= c <= 'Z'
  }

  /** `[ivxlcdm]` under `re.IGNORECASE`. */
  predicate IsRomanLetter(c: char) {
    c in "ivxlcdmIVXLCDM"
  }

  /** `[.)]`. */
  predicate IsCloser(c: char) {
    c == '.' || c == ')'
  }

  /** The repeated character classes of the pattern. */
  datatype Class = Digits | Roman

  predicate InClass(c: char, k: Class) {
    match k
    case Digits => IsDigit(c)
    case Roman => IsRomanLetter(c)
  }

  predicate AllInClass(s: string, k: Class) {
    forall i :: 0 <= i < |s| ==> InClass(s[i], k)
  }

  /** A text the pattern's group can capture: one or more digits, a single
      letter, or one or more Roman-numeral letters, then `.` or `)`. */
  predicate IsMarker(m: string) {
    && |m| >= 2
    && IsCloser(m[|m| - 1])
    && var body := m[..|m| - 1];
       || AllInClass(body, Digits)
       || (|body| == 1 && IsAsciiLetter(body[0]))
       || AllInClass(body, Roman)
  }

  /** A marker has no whitespace at either end. */
  lemma MarkerNoEdge(m: string)
    requires IsMarker(m)
    ensures NoEdge(m, Whitespace)
  {
    var body := m[..|m| - 1];
    assert m[0] == body[0];
    assert InClass(body[0], Digits) || IsAsciiLetter(body[0]) || InClass(body[0], Roman);
  }

  /** The pattern matches at the start of `t` and captures `m`: `m` is a
      marker, `t` starts with it, and a whitespace character follows. */
  predicate MatchesAt(t: string, m: string) {
    IsMarker(m) && |m| < |t| && t[..|m|] == m && IsSpace(t[|m|])
  }

  /** The length of the longest prefix of `s` in class `k` (a greedy `+`). */
  function Span(s: string, k: Class): (n: nat)
    ensures n <= |s|
    ensures AllInClass(s[..n], k)
    ensures n < |s| ==> !InClass(s[n], k)
  {
    if s == [] || !InClass(s[0], k) then 0
    else
      var n := Span(s[1..], k);
      assert s[..n + 1] == [s[0]] + s[1..][..n];
      n + 1
  }

  /** A prefix in class `k` followed by a character outside it is exactly
      the greedy span. */
  lemma SpanOfPrefix(s: string, n: nat, k: Class)
    requires n < |s| && AllInClass(s[..n], k) && !InClass(s[n], k)
    ensures Span(s, k) == n
  {
  }

  /** `re.match` of the marker pattern on `t`, alternatives tried in order:
      `Some(m)` with the captured group, or `None`. */
  function MatchMarker(t: string): (r: Option<string>) {
    var d := Span(t, Digits);
    if d > 0 then
      if d + 1 < |t| && IsCloser(t[d]) && IsSpace(t[d + 1]) then Some(t[..d + 1]) else None
    else if |t| >= 3 && IsAsciiLetter(t[0]) && IsCloser(t[1]) && IsSpace(t[2]) then
      Some(t[..2])
    else
      var n := Span(t, Roman);
      if n > 0 && n + 1 < |t| && IsCloser(t[n]) && IsSpace(t[n + 1]) then Some(t[..n + 1]) else None
  }

  /** What the matcher finds is a match of the pattern. */
  lemma MatchMarkerSound(t: string, m: string)
    requires MatchMarker(t) == Some(m)
    ensures MatchesAt(t, m)
  {
    var d := Span(t, Digits);
    if d > 0 {
      assert m[..|m| - 1] == t[..d];
    } else if |t| >= 3 && IsAsciiLetter(t[0]) && IsCloser(t[1]) && IsSpace(t[2]) {
      assert m[..|m| - 1] == [t[0]];
    } else {
      assert m[..|m| - 1] == t[..Span(t, Roman)];
    }
  }

  lemma CompleteDigits(t: string, m: string)
    requires MatchesAt(t, m) && AllInClass(m[..|m| - 1], Digits)
    ensures MatchMarker(t) == Some(m)
  {
    var b := |m| - 1;
    assert t[..b] == m[..b] && t[b] == m[b];
    SpanOfPrefix(t, b, Digits);
  }

  lemma CompleteLetter(t: string, m: string)
    requires MatchesAt(t, m) && |m| == 2 && IsAsciiLetter(m[0])
    ensures MatchMarker(t) == Some(m)
  {
    assert t[0] == m[0] && t[1] == m[1];
    assert m == t[..2];
    assert Span(t, Digits) == 0;
  }

  lemma CompleteRoman(t: string, m: string)
    requires MatchesAt(t, m) && AllInClass(m[..|m| - 1], Roman) && |m| > 2
    ensures MatchMarker(t) == Some(m)
  {
    var b := |m| - 1;
    assert t[..b] == m[..b] && t[b] == m[b];
    assert t[0] == m[0] && t[1] == m[1];
    assert InClass(m[..b][0], Roman) && InClass(m[..b][1], Roman);
    assert Span(t, Digits) == 0;
    SpanOfPrefix(t, b, Roman);
  }

  /** Every match of the pattern is found by the matcher. */
  lemma MatchMarkerComplete(t: string, m: string)
    requires MatchesAt(t, m)
    ensures MatchMarker(t) == Some(m)
  {
    var body := m[..|m| - 1];
    if AllInClass(body, Digits) {
      CompleteDigits(t, m);
    } else if |body| == 1 && IsAsciiLetter(body[0]) {
      CompleteLetter(t, m);
    } else {
      CompleteRoman(t, m);
    }
  }

  /** The matcher finds a marker exactly when the pattern matches, and the
      marker it finds is the captured one. */
  lemma MatchMarkerCorrect(t: string, m: string)
    ensures MatchMarker(t) == Some(m) <==> MatchesAt(t, m)
  {
    if MatchMarker(t) == Some(m) {
      MatchMarkerSound(t, m);
    }
    if MatchesAt(t, m) {
      MatchMarkerComplete(t, m);
    }
  }

  /** A text starts with at most one marker. */
  lemma MarkerUnique(t: string, m1: string, m2: string)
    requires MatchesAt(t, m1) && MatchesAt(t, m2)
    ensures m1 == m2
  {
    MatchMarkerCorrect(t, m1);
    MatchMarkerCorrect(t, m2);
  }

  /** `text.startswith(('•', '-', '*'))`. */
  predicate IsBulletChar(c: char) {
    c == '•' || c == '-' || c == '*'
  }

  /** What a paragraph is, read from its plain text. */
  datatype Kind = Plain | Bullet | Numbered(marker: string)

  /** The paragraph's list kind: on the trimmed plain text, a leading bullet
      character makes an unordered item; otherwise a text longer than two
      characters that the marker pattern matches makes a numbered item. */
  function Classify(text: string): Kind {
    var t := Trim(text);
    if t == [] then Plain
    else if IsBulletChar(t[0]) then Bullet
    else if |t| > 2 then
      match MatchMarker(t)
      case Some(m) => Numbered(m)
      case None => Plain
    else Plain
  }

  /** A paragraph is an unordered item exactly when its trimmed plain text
      starts with a bullet character. */
  lemma ClassifyBullet(text: string)
    ensures Classify(text) == Bullet <==> Trim(text) != [] && IsBulletChar(Trim(text)[0])
  {
  }

  /** A paragraph is a numbered item with marker `m` exactly when its
      trimmed plain text does not start with a bullet character and the
      marker pattern matches it capturing `m`; the length test of the loop
      adds nothing, as every match is longer than two characters. */
  lemma ClassifyNumbered(text: string, m: string)
    ensures Classify(text) == Numbered(m) <==>
      Trim(text) != [] && !IsBulletChar(Trim(text)[0]) && MatchesAt(Trim(text), m)
  {
    var t := Trim(text);
    MatchMarkerCorrect(t, m);
  }
}
