/** `_extract_formatted_text_from_cell` (src/figma_copy_workflow/helpers.py:161-279,
    repeated verbatim at 366-475): a table cell's text, either plain or with
    run formatting turned into Markdown emphasis and list paragraphs
    re-prefixed in Markdown form. */
module RichText {
  import opened Wrappers
  import opened Text
  import opened DocModel
  import opened ListMarker

  /** The asterisks on each side of a run's Markdown emphasis: three for bold
      italic, two for bold, one for italic, none otherwise. */
  function StarCount(r: Run): nat {
    if r.bold && r.italic then 3 else if r.bold then 2 else if r.italic then 1 else 0
  }

  predicate AllStars(s: string) {
    forall i :: 0 <= i < |s| ==> s[i] == '*'
  }

  /** A run's text in Markdown: `***t***`, `**t**`, `*t*` or `t`. */
  function Wrap(r: Run): (w: string)
    ensures |w| == |r.text| + 2 * StarCount(r)
    ensures w[StarCount(r)..|w| - StarCount(r)] == r.text
    ensures AllStars(w[..StarCount(r)]) && AllStars(w[|w| - StarCount(r)..])
  {
    if r.bold && r.italic then "***" + r.text + "***"
    else if r.bold then "**" + r.text + "**"
    else if r.italic then "*" + r.text + "*"
    else r.text
  }

  /** The rendered runs of a paragraph that have text, in order; a run with
      no text contributes nothing. */
  function Rendered(p: Paragraph): (ws: seq<string>)
    ensures |ws| <= |p|
    ensures forall i :: 0 <= i < |ws| ==> ws[i] != []
  {
    if p == [] then []
    else
      var r := p[|p| - 1];
      Rendered(p[..|p| - 1]) + (if r.text == [] then [] else [Wrap(r)])
  }

  /** Two adjacent rendered runs are set apart by a space when the first ends
      in `*` or `)` and the second starts with `*` or `[`. */
  predicate Gap(prev: string, next: string) {
    && prev != [] && next != []
    && (prev[|prev| - 1] == '*' || prev[|prev| - 1] == ')')
    && (next[0] == '*' || next[0] == '[')
  }

  /** Rendered runs put together, with one space between each adjacent pair
      that calls for one. */
  function Spaced(ws: seq<string>): string {
    if ws == [] then []
    else if |ws| == 1 then ws[0]
    else
      var n := |ws| - 1;
      Spaced(ws[..n]) + (if Gap(ws[n - 1], ws[n]) then " " else "") + ws[n]
  }

  /** Spacing a list extended by one rendered run. */
  lemma SpacedSnoc(ws: seq<string>, w: string)
    ensures ws == [] ==> Spaced(ws + [w]) == w
    ensures ws != [] ==>
      Spaced(ws + [w]) == Spaced(ws) + (if Gap(ws[|ws| - 1], w) then " " else "") + w
  {
    assert (ws + [w])[..|ws|] == ws;
  }

  /** Put-together runs end where their last run ends. */
  lemma SpacedLast(ws: seq<string>)
    requires ws != [] && ws[|ws| - 1] != []
    ensures Spaced(ws) != []
    ensures Spaced(ws)[|Spaced(ws)| - 1] == ws[|ws| - 1][|ws[|ws| - 1]| - 1]
  {
  }

  /** One more rendered run, spaced against the text so far. */
  lemma SpacedStep(ws: seq<string>, w: string)
    requires w != [] && forall j :: 0 <= j < |ws| ==> ws[j] != []
    ensures Spaced(ws + [w]) == Spaced(ws) + (if Gap(Spaced(ws), w) then " " else "") + w
  {
    SpacedSnoc(ws, w);
    if ws != [] {
      SpacedLast(ws);
    }
  }

  /** The loop over a paragraph's runs: empty runs are skipped, every other
      run is wrapped, and a space is put before it when the text so far ends
      in `*` or `)` and the wrapped run starts with `*` or `[`. */
  method RenderParagraph(p: Paragraph) returns (paraText: string)
    ensures paraText == Spaced(Rendered(p))
  {
    paraText := "";
    for i := 0 to |p|
      invariant paraText == Spaced(Rendered(p[..i]))
    {
      var runText := p[i].text;
      if runText != "" {
        runText := Wrap(p[i]);
        var gap := paraText != "" && (paraText[|paraText| - 1] == '*' || paraText[|paraText| - 1] == ')')
          && (StartsWith(runText, "*") || StartsWith(runText, "["));
        ghost var before := paraText;
        if gap {
          paraText := paraText + " ";
        }
        paraText := paraText + runText;
        assert paraText == before + (if gap then " " else "") + runText;
        RenderStep(p, i, before, gap);
      } else {
        RenderSkip(p, i);
      }
    }
    assert p[..|p|] == p;
  }

  /** A run with text adds its wrapped text, after a space when called for. */
  lemma RenderStep(p: Paragraph, i: nat, before: string, gap: bool)
    requires i < |p| && p[i].text != []
    requires before == Spaced(Rendered(p[..i]))
    requires gap == (before != [] && (before[|before| - 1] == '*' || before[|before| - 1] == ')')
      && (StartsWith(Wrap(p[i]), "*") || StartsWith(Wrap(p[i]), "[")))
    ensures Spaced(Rendered(p[..i + 1])) == before + (if gap then " " else "") + Wrap(p[i])
  {
    var w := Wrap(p[i]);
    assert Rendered(p[..i + 1]) == Rendered(p[..i]) + [w] by {
      assert p[..i + 1][..i] == p[..i];
    }
    assert gap == Gap(before, w) by {
      assert StartsWith(w, "*") <==> w[0] == '*';
      assert StartsWith(w, "[") <==> w[0] == '[';
    }
    SpacedStep(Rendered(p[..i]), w);
  }

  /** A run with no text adds nothing. */
  lemma RenderSkip(p: Paragraph, i: nat)
    requires i < |p| && p[i].text == []
    ensures Rendered(p[..i + 1]) == Rendered(p[..i])
  {
    assert p[..i + 1][..i] == p[..i];
    assert Rendered(p[..i]) + [] == Rendered(p[..i]);
  }

  /** A paragraph of unformatted runs, none starting with `*` or `[`, renders
      as its plain text. */
  lemma {:induction false} PlainRendering(p: Paragraph)
    requires forall i :: 0 <= i < |p| ==> !p[i].bold && !p[i].italic
    requires forall i :: 0 <= i < |p| ==> p[i].text == [] || (p[i].text[0] != '*' && p[i].text[0] != '[')
    ensures Spaced(Rendered(p)) == ParaText(p)
  {
    if p != [] {
      var n := |p| - 1;
      var init, r := p[..n], p[n];
      assert Spaced(Rendered(init)) == ParaText(init) by {
        assert forall i :: 0 <= i < n ==> init[i] == p[i];
        PlainRendering(init);
      }
      var ws := Rendered(init);
      if r.text == [] {
        assert Rendered(p) == ws by {
          assert Rendered(p) == ws + [];
        }
        assert ParaText(p) == ParaText(init) by {
          assert ParaText(p) == ParaText(init) + [];
        }
      } else {
        assert Rendered(p) == ws + [r.text] by {
          assert Wrap(r) == r.text;
        }
        assert ParaText(p) == ParaText(init) + r.text;
        SpacedStep(ws, r.text);
        assert !Gap(Spaced(ws), r.text);
        assert Spaced(ws) + "" + r.text == Spaced(ws) + r.text;
      }
    }
  }

  /** The paragraph's text re-prefixed as a list item: an unordered item
      becomes `- ` and the rest, with one leading bullet character removed;
      a numbered item becomes its marker, a space and the rest, with the
      marker removed when the trimmed text starts with it. */
  function Finish(k: Kind, paraText: string): string {
    match k
    case Plain => paraText
    case Bullet =>
      var clean := Trim(paraText);
      "- " + (if clean != [] && IsBulletChar(clean[0]) then Trim(clean[1..]) else clean)
    case Numbered(m) =>
      var clean := Trim(paraText);
      m + " " + (if StartsWith(clean, m) then Trim(clean[|m|..]) else clean)
  }

  /** Trimming text that has no whitespace at its edges, or that has one
      space before such a text. */
  lemma TrimClean(rest: string)
    requires NoEdge(rest, Whitespace)
    ensures Trim(rest) == rest
    ensures Trim(" " + rest) == rest
  {
    assert rest == [] + rest + [];
    StripCharacterization([], rest, [], Whitespace);
    assert " " + rest == " " + rest + [];
    StripCharacterization(" ", rest, [], Whitespace);
  }

  /** Trimming `prefix + " " + rest`, where `prefix` and `rest` have no
      whitespace at their edges and `prefix` is not empty. */
  lemma TrimPrefixed(prefix: string, rest: string)
    requires prefix != [] && NoEdge(prefix, Whitespace) && NoEdge(rest, Whitespace)
    ensures Trim(prefix + " " + rest) == if rest == [] then prefix else prefix + " " + rest
  {
    var s := prefix + " " + rest;
    if rest == [] {
      assert s == [] + prefix + " ";
      StripCharacterization([], prefix, " ", Whitespace);
    } else {
      assert s[0] == prefix[0] && s[|s| - 1] == rest[|rest| - 1];
      TrimClean(s);
    }
  }

  /** An unordered item in Markdown form, `- ` and a text with no
      whitespace at its edges, is re-prefixed to itself. */
  lemma RefinishBullet(rest: string)
    requires NoEdge(rest, Whitespace)
    ensures Finish(Bullet, "- " + rest) == "- " + rest
  {
    var s := "- " + rest;
    var clean := Trim(s);
    assert clean == (if rest == [] then "-" else s) by {
      assert s == "-" + " " + rest;
      TrimPrefixed("-", rest);
    }
    assert Trim(clean[1..]) == rest by {
      if rest == [] {
        assert clean[1..] == [];
      } else {
        assert clean[1..] == " " + rest;
        TrimClean(rest);
      }
    }
  }

  /** Re-prefixing an unordered item already in Markdown form changes
      nothing: the `- ` the extractor writes is the bullet it strips. */
  lemma FinishStableBullet(paraText: string)
    ensures Finish(Bullet, Finish(Bullet, paraText)) == Finish(Bullet, paraText)
  {
    var first := Trim(paraText);
    var rest := if first != [] && IsBulletChar(first[0]) then Trim(first[1..]) else first;
    assert Finish(Bullet, paraText) == "- " + rest && NoEdge(rest, Whitespace);
    RefinishBullet(rest);
  }

  /** A numbered item in Markdown form, its marker, a space and a text with
      no whitespace at its edges, is re-prefixed to itself. */
  lemma RefinishNumbered(m: string, rest: string)
    requires IsMarker(m) && NoEdge(rest, Whitespace)
    ensures Finish(Numbered(m), m + " " + rest) == m + " " + rest
  {
    var s := m + " " + rest;
    MarkerNoEdge(m);
    var clean := Trim(s);
    assert clean == (if rest == [] then m else s) by {
      TrimPrefixed(m, rest);
    }
    assert StartsWith(clean, m) by {
      assert clean[..|m|] == m;
    }
    assert Trim(clean[|m|..]) == rest by {
      if rest == [] {
        assert clean[|m|..] == [];
      } else {
        assert clean[|m|..] == " " + rest;
        TrimClean(rest);
      }
    }
  }

  /** Re-prefixing a numbered item already in Markdown form changes
      nothing: the marker the extractor writes is the one it strips. */
  lemma FinishStableNumbered(m: string, paraText: string)
    requires IsMarker(m)
    ensures Finish(Numbered(m), Finish(Numbered(m), paraText)) == Finish(Numbered(m), paraText)
  {
    var first := Trim(paraText);
    var rest := if StartsWith(first, m) then Trim(first[|m|..]) else first;
    assert Finish(Numbered(m), paraText) == m + " " + rest && NoEdge(rest, Whitespace);
    RefinishNumbered(m, rest);
  }

  /** What a paragraph contributes to the cell's text, if anything: its
      finished text and whether it is a numbered item. */
  datatype Piece = Piece(text: string, numbered: bool)

  /** A paragraph whose rendering is blank contributes nothing; any other is
      finished according to the kind of its plain text. */
  function ParagraphPiece(p: Paragraph): Option<Piece> {
    var t := Spaced(Rendered(p));
    if Trim(t) == [] then None
    else
      var k := Classify(ParaText(p));
      Some(Piece(Finish(k, t), k.Numbered?))
  }

  /** The contributions of a cell's paragraphs, in order. */
  function Pieces(c: Cell): seq<Piece> {
    if c == [] then []
    else
      var last := ParagraphPiece(c[|c| - 1]);
      Pieces(c[..|c| - 1]) + (if last.Some? then [last.value] else [])
  }

  /** A list item goes on a new line; anything else follows a space. */
  function Separator(pc: Piece): string {
    if StartsWith(pc.text, "- ") || pc.numbered then "\n" else " "
  }

  /** The contributions in order, each but the first after its separator. */
  function JoinPieces(ps: seq<Piece>): string {
    if ps == [] then [] else ps[0].text + JoinRest(ps[1..])
  }

  function JoinRest(ps: seq<Piece>): string {
    if ps == [] then [] else Separator(ps[0]) + ps[0].text + JoinRest(ps[1..])
  }

  /** The cell's text: trimmed plain text when formatting is not preserved,
      otherwise the trimmed join of its paragraphs' contributions. */
  function Extract(c: Cell, preserve: bool): string {
    if !preserve then Trim(CellText(c)) else Trim(JoinPieces(Pieces(c)))
  }

  /** A cell's text is always returned trimmed, with or without formatting. */
  lemma ExtractTrimmed(c: Cell, preserve: bool)
    ensures Trim(Extract(c, preserve)) == Extract(c, preserve)
  {
    if preserve {
      StripIdempotent(JoinPieces(Pieces(c)), Whitespace);
    } else {
      StripIdempotent(CellText(c), Whitespace);
    }
  }

  lemma {:induction false} JoinRestSnoc(ps: seq<Piece>, q: Piece)
    ensures JoinRest(ps + [q]) == JoinRest(ps) + Separator(q) + q.text
  {
    if ps != [] {
      assert (ps + [q])[1..] == ps[1..] + [q];
      JoinRestSnoc(ps[1..], q);
    }
  }

  /** Joining one more contribution: the first stands alone, every later one
      comes after its separator. */
  lemma JoinSnoc(ps: seq<Piece>, q: Piece)
    ensures ps == [] ==> JoinPieces(ps + [q]) == q.text
    ensures ps != [] ==> JoinPieces(ps + [q]) == JoinPieces(ps) + Separator(q) + q.text
  {
    if ps != [] {
      assert (ps + [q])[1..] == ps[1..] + [q];
      JoinRestSnoc(ps[1..], q);
    }
  }

  /** Every contribution has text. */
  lemma PieceNonEmpty(p: Paragraph)
    requires ParagraphPiece(p).Some?
    ensures ParagraphPiece(p).value.text != []
  {
    var t := Spaced(Rendered(p));
    assert t != [];
  }

  /** The list test of one paragraph, on its trimmed plain text. */
  method ClassifyParagraph(plain: string) returns (isList: bool, isNumbered: bool, marker: string)
    ensures isList <==> !Classify(plain).Plain?
    ensures isNumbered <==> Classify(plain).Numbered?
    ensures isNumbered ==> marker == Classify(plain).marker
  {
    isList := false;
    isNumbered := false;
    marker := "";
    if Trim(plain) != "" {
      var t := Trim(plain);
      if IsBulletChar(t[0]) {
        isList := true;
        marker := [t[0]];
      } else if |t| > 2 {
        var found := MatchMarker(t);
        if found.Some? {
          isList := true;
          isNumbered := true;
          marker := found.value;
        }
      }
    }
  }

  /** The re-prefixing of a list paragraph's rendered text. */
  method Reprefix(paraText: string, isList: bool, isNumbered: bool, marker: string) returns (s: string)
    ensures !isList ==> s == Finish(Plain, paraText)
    ensures isList && !isNumbered ==> s == Finish(Bullet, paraText)
    ensures isList && isNumbered ==> s == Finish(Numbered(marker), paraText)
  {
    s := paraText;
    if isList {
      var clean := Trim(paraText);
      if isNumbered {
        if StartsWith(clean, marker) {
          clean := Trim(clean[|marker|..]);
        }
        s := marker + " " + clean;
      } else {
        if clean != [] && IsBulletChar(clean[0]) {
          clean := Trim(clean[1..]);
        }
        s := "- " + clean;
      }
    }
  }

  /** The loop over a cell's paragraphs: classify the plain text, render the
      runs, re-prefix list items, and append with the separator the kind
      calls for. */
  method ExtractText(c: Cell, preserve: bool) returns (text: string)
    ensures text == Extract(c, preserve)
  {
    if !preserve {
      return Trim(CellText(c));
    }
    var formatted := "";
    for i := 0 to |c|
      invariant formatted == JoinPieces(Pieces(c[..i]))
      invariant formatted == [] <==> Pieces(c[..i]) == []
    {
      var para := c[i];
      assert c[..i + 1][..i] == c[..i];
      ghost var ps := Pieces(c[..i]);
      var isList, isNumbered, marker := ClassifyParagraph(ParaText(para));
      var paraText := RenderParagraph(para);
      if Trim(paraText) != "" {
        paraText := Reprefix(paraText, isList, isNumbered, marker);
        ghost var q := Piece(paraText, isNumbered);
        assert ParagraphPiece(para) == Some(q);
        PieceNonEmpty(para);
        JoinSnoc(ps, q);
        assert Pieces(c[..i + 1]) == ps + [q];
        if formatted != "" && !(StartsWith(paraText, "- ") || isNumbered) {
          formatted := formatted + " ";
        } else if formatted != "" && (StartsWith(paraText, "- ") || isNumbered) {
          formatted := formatted + "\n";
        }
        formatted := formatted + paraText;
      } else {
        assert Pieces(c[..i + 1]) == ps + [] == ps;
      }
    }
    assert c[..|c|] == c;
    text := Trim(formatted);
  }

  /** The paragraph `cell.text = s` makes contributes `s` itself, unless it
      is blank, when `s` is not a list item and does not start with `*` or
      `[`. */
  lemma PlainParagraphPiece(s: string)
    requires Classify(s) == Plain
    requires s == [] || (s[0] != '*' && s[0] != '[')
    ensures ParagraphPiece([Run(s, false, false)]) == if Trim(s) == [] then None else Some(Piece(s, false))
  {
    var p := [Run(s, false, false)];
    assert ParaText(p) == [] + s;
    PlainRendering(p);
  }

  /** A cell of one paragraph reads back as that paragraph's piece, trimmed. */
  lemma OneParagraphExtract(p: Paragraph)
    ensures Extract([p], true) == match ParagraphPiece(p) case None => [] case Some(q) => Trim(q.text)
  {
    var c := [p];
    assert Pieces(c) == Pieces(c[..0]) + (if ParagraphPiece(p).Some? then [ParagraphPiece(p).value] else []) by {
      assert c[|c| - 1] == p;
    }
    assert Pieces(c[..0]) == [] by {
      assert c[..0] == [];
    }
    match ParagraphPiece(p)
    case None =>
      assert JoinPieces([]) == [];
      assert Trim([]) == [];
    case Some(q) =>
      assert JoinPieces([q]) == q.text by {
        assert [q][1..] == [];
        assert JoinRest([]) == [];
      }
  }

  /** A cell written as `cell.text = s` reads back the same with and without
      formatting when `s` is not a list item and does not start with `*` or
      `[`: both give `s` trimmed. */
  lemma PlainCellAgrees(s: string)
    requires Classify(s) == Plain
    requires s == [] || (s[0] != '*' && s[0] != '[')
    ensures Extract(PlainCell(s), true) == Trim(s) == Extract(PlainCell(s), false)
  {
    var p := [Run(s, false, false)];
    assert Extract(PlainCell(s), false) == Trim(s) by {
      assert CellText(PlainCell(s)) == s;
    }
    PlainParagraphPiece(s);
    OneParagraphExtract(p);
  }

  /** A paragraph of one non-empty run renders as that run's wrapping, and
      its plain text is the run's text. */
  lemma OneRun(r: Run)
    requires r.text != []
    ensures Spaced(Rendered([r])) == Wrap(r)
    ensures ParaText([r]) == r.text
  {
    var p := [r];
    assert p[..0] == [];
    assert Rendered(p) == [] + [Wrap(r)];
    assert ParaText(p) == [] + r.text;
  }

  /** A bold run reads back as `**` Markdown emphasis. */
  lemma ExampleBold()
    ensures Extract([[Run("Hi", true, false)]], true) == "**Hi**"
  {
    var r := Run("Hi", true, false);
    BoldPiece();
    assert Trim("**Hi**") == "**Hi**" by {
      TrimClean("**Hi**");
    }
    OneParagraphExtract([r]);
  }

  /** The paragraph of one bold run `Hi` contributes `**Hi**`. */
  lemma BoldPiece()
    ensures ParagraphPiece([Run("Hi", true, false)]) == Some(Piece("**Hi**", false))
  {
    var r := Run("Hi", true, false);
    var t := Spaced(Rendered([r]));
    assert t == "**Hi**" by {
      OneRun(r);
      assert Wrap(r) == "**Hi**";
    }
    assert Trim(t) != [] by {
      TrimClean("**Hi**");
    }
    var k := Classify(ParaText([r]));
    assert k == Plain by {
      OneRun(r);
      HiIsPlain();
    }
    assert Finish(k, t) == t;
  }

  /** `Hi` is neither an unordered nor a numbered item. */
  lemma HiIsPlain()
    ensures Classify("Hi") == Plain
  {
    TrimClean("Hi");
  }

  /** Re-prefixing `**Hi**` as an unordered item drops its first asterisk. */
  lemma LiteralStarsFinish()
    ensures Finish(Bullet, "**Hi**") == "- *Hi**"
    ensures Trim("- *Hi**") == "- *Hi**"
  {
    var clean := Trim("**Hi**");
    assert clean == "**Hi**" by {
      TrimClean("**Hi**");
    }
    assert Trim(clean[1..]) == "*Hi**" by {
      assert clean[1..] == "*Hi**";
      TrimClean("*Hi**");
    }
    assert Finish(Bullet, "**Hi**") == "- " + "*Hi**";
    assert Trim("- *Hi**") == "- *Hi**" by {
      TrimClean("- *Hi**");
    }
  }

  /** Emphasis typed as literal asterisks is not emphasis: a plain cell
      reading `**Hi**` starts with a bullet character, so it reads back as
      an unordered item with that one asterisk removed. */
  lemma ExampleLiteralStars()
    ensures Extract(PlainCell("**Hi**"), true) == "- *Hi**"
  {
    var r := Run("**Hi**", false, false);
    assert Spaced(Rendered([r])) == "**Hi**" && ParaText([r]) == "**Hi**" by {
      OneRun(r);
    }
    assert Classify("**Hi**") == Bullet by {
      TrimClean("**Hi**");
      ClassifyBullet("**Hi**");
    }
    assert ParagraphPiece([r]) == Some(Piece("- *Hi**", false)) by {
      LiteralStarsFinish();
      TrimClean("**Hi**");
    }
    LiteralStarsFinish();
    OneParagraphExtract([r]);
  }
}
