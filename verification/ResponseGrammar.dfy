/** The response-file grammar the tokenizer reads: plain characters, backslash
    escapes, and groups in single or double quotes. Every file has a reading in
    this grammar, and the tokenizer returns what that reading means. */
module ResponseGrammar {
  import opened ResponseFile
  import opened Text

  /** The inside of a group: a character, or one escaped by a backslash. */
  datatype Item = Char(c: char) | Slash(c: char)

  /** A part of a token. An open group runs to the end of the file. */
  datatype Piece = Plain(c: char) | Escape(c: char) | Group(q: char, items: seq<Item>) | Open(q: char, items: seq<Item>)

  function SpellItem(x: Item): string {
    match x
    case Char(c) => [c]
    case Slash(c) => ['\\', c]
  }

  function SpellItems(items: seq<Item>): string {
    if items == [] then "" else SpellItem(items[0]) + SpellItems(items[1..])
  }

  function MeanItems(items: seq<Item>): string {
    if items == [] then "" else [items[0].c] + MeanItems(items[1..])
  }

  function Spell(p: Piece): string {
    match p
    case Plain(c) => [c]
    case Escape(c) => ['\\', c]
    case Group(q, items) => [q] + SpellItems(items) + [q]
    case Open(q, items) => [q] + SpellItems(items)
  }

  function Mean(p: Piece): string {
    if p.Plain? || p.Escape? then [p.c] else MeanItems(p.items)
  }

  function SpellAll(ps: seq<Piece>): string {
    if ps == [] then "" else Spell(ps[0]) + SpellAll(ps[1..])
  }

  function MeanAll(ps: seq<Piece>): string {
    if ps == [] then "" else Mean(ps[0]) + MeanAll(ps[1..])
  }

  /** A group in single quotes takes every other character as it is; in double
      quotes a backslash escapes a double quote and a backslash, nothing else. */
  predicate ItemFits(q: char, x: Item, next: string) {
    match x
    case Char(c) => c != q && !(q == '"' && c == '\\' && next != "" && next[0] in "\"\\")
    case Slash(c) => q == '"' && c in "\"\\"
  }

  predicate ItemsFit(q: char, items: seq<Item>, next: string) {
    items == [] || (ItemFits(q, items[0], SpellItems(items[1..]) + next) && ItemsFit(q, items[1..], next))
  }

  /** Outside groups a backslash escapes a blank, a quote and a backslash, and is a plain character before others. */
  predicate PieceFits(p: Piece, next: string) {
    match p
    case Plain(c) => c !in " \t\n\r\"'" && !(c == '\\' && next != "" && next[0] in " \t\n\r\"'\\")
    case Escape(c) => c in " \t\n\r\"'\\"
    case Group(q, items) => q in "\"'" && ItemsFit(q, items, [q] + next)
    case Open(q, items) => q in "\"'" && next == "" && ItemsFit(q, items, "")
  }

  predicate Fits(ps: seq<Piece>, next: string) {
    ps == [] || (PieceFits(ps[0], SpellAll(ps[1..]) + next) && Fits(ps[1..], next))
  }

  /** A token ends before a blank or with the file. */
  predicate Ends(rest: string) {
    rest == "" || rest[0] in " \t\n\r"
  }

  lemma SpacesAre(c: char)
    ensures IsSpace(c) <==> c in " \t\n\r"
    ensures IsQuote(c) <==> c in "\"'"
    ensures Escapable(c) <==> c in " \t\n\r\"'\\"
  {
  }

  lemma Joined(a: string, b: string, c: string)
    ensures a + b + c == a + (b + c)
  {
  }

  // ---- what a reading means is what the tokenizer returns -------------------

  lemma {:induction false} InsideReads(q: char, items: seq<Item>, next: string)
    requires ItemsFit(q, items, next) && (next == "" || next[0] == q) && q in "\"'"
    ensures LexQuoted(SpellItems(items) + next, q) == Lexed(MeanItems(items), next)
  {
    hide LexQuoted;
    if items == [] {
      assert "" + next == next;
      QuotedEnd(next, q);
    } else {
      var tail := SpellItems(items[1..]) + next;
      InsideReads(q, items[1..], next);
      Joined(SpellItem(items[0]), SpellItems(items[1..]), next);
      ItemReads(q, items[0], tail);
    }
  }

  lemma ItemReads(q: char, x: Item, tail: string)
    requires ItemFits(q, x, tail) && q in "\"'"
    ensures LexQuoted(SpellItem(x) + tail, q) == Prepend(x.c, LexQuoted(tail, q))
  {
    var s := SpellItem(x) + tail;
    match x {
      case Char(c) =>
        assert s[1..] == tail && s[0] == c;
        if tail != "" {
          assert s[1] == tail[0];
        }
      case Slash(c) =>
        assert s[0] == '\\' && s[1] == c && s[2..] == tail;
    }
  }

  lemma {:induction false} TokenReads(ps: seq<Piece>, next: string)
    requires Fits(ps, next) && Ends(next)
    ensures LexToken(SpellAll(ps) + next) == Lexed(MeanAll(ps), next)
  {
    hide LexToken, Spell, Mean, PieceFits;
    if ps == [] {
      assert "" + next == next;
      if next != "" {
        SpacesAre(next[0]);
      }
      LexEnds(next);
    } else {
      var tail := SpellAll(ps[1..]) + next;
      TokenReads(ps[1..], next);
      Joined(Spell(ps[0]), SpellAll(ps[1..]), next);
      PieceReads(ps[0], tail);
    }
  }

  /** A piece in front of a tail that reads on. */
  lemma PieceReads(p: Piece, tail: string)
    requires PieceFits(p, tail)
    ensures LexToken(Spell(p) + tail) == Lexed(Mean(p) + LexToken(tail).text, LexToken(tail).rest)
  {
    hide LexToken, LexQuoted, ItemsFit;
    match p {
      case Plain(c) => PlainReads(c, tail);
      case Escape(c) => EscapeReads(c, tail);
      case Group(q, items) =>
        GroupReads(q, items, tail);
      case Open(q, items) =>
        OpenReads(q, items);
    }
  }

  lemma PlainReads(c: char, tail: string)
    requires PieceFits(Plain(c), tail)
    ensures LexToken([c] + tail) == Prepend(c, LexToken(tail))
  {
    hide IsSpace, IsQuote, Escapable;
    var s := [c] + tail;
    SpacesAre(c);
    assert s[1..] == tail;
    if tail != "" {
      SpacesAre(tail[0]);
      assert s[1] == tail[0];
    }
  }

  lemma EscapeReads(c: char, tail: string)
    requires PieceFits(Escape(c), tail)
    ensures LexToken(['\\', c] + tail) == Prepend(c, LexToken(tail))
  {
    hide Escapable;
    SpacesAre(c);
    assert (['\\', c] + tail)[2..] == tail;
  }

  lemma QuoteOpens(s: string, inner: Lexed)
    requires s != "" && s[0] in "\"'" && inner == LexQuoted(s[1..], s[0])
    ensures var l := LexToken(if inner.rest != "" then inner.rest[1..] else inner.rest);
      LexToken(s) == Lexed(inner.text + l.text, l.rest)
  {
    hide LexQuoted;
    SpacesAre(s[0]);
  }

  lemma GroupReads(q: char, items: seq<Item>, tail: string)
    requires PieceFits(Group(q, items), tail)
    ensures LexToken([q] + SpellItems(items) + [q] + tail) == Lexed(MeanItems(items) + LexToken(tail).text, LexToken(tail).rest)
  {
    hide LexToken, LexQuoted, ItemsFit;
    var s, inside, next := [q] + SpellItems(items) + [q] + tail, SpellItems(items) + ([q] + tail), [q] + tail;
    assert s == [q] + inside;
    assert s[1..] == inside && next[1..] == tail;
    InsideReads(q, items, next);
    QuoteOpens(s, Lexed(MeanItems(items), next));
  }

  lemma OpenReads(q: char, items: seq<Item>)
    requires PieceFits(Open(q, items), "")
    ensures LexToken([q] + SpellItems(items) + "") == Lexed(MeanItems(items) + LexToken("").text, LexToken("").rest)
  {
    hide LexToken, LexQuoted, ItemsFit;
    var s := [q] + SpellItems(items) + "";
    assert s[1..] == SpellItems(items) + "";
    InsideReads(q, items, "");
    QuoteOpens(s, Lexed(MeanItems(items), ""));
  }

  // ---- every text has a reading --------------------------------------------

  lemma {:induction false} ReadingInside(s: string, q: char) returns (items: seq<Item>, next: string)
    requires q in "\"'"
    ensures s == SpellItems(items) + next && ItemsFit(q, items, next) && (next == "" || next[0] == q)
    decreases |s|
  {
    if s == "" || s[0] == q {
      items, next := [], s;
    } else {
      var x := if q == '"' && s[0] == '\\' && |s| > 1 && s[1] in "\"\\" then Slash(s[1]) else Char(s[0]);
      var tail := s[|SpellItem(x)|..];
      var more: seq<Item>;
      more, next := ReadingInside(tail, q);
      items := [x] + more;
      ItemsGrow(x, more, q, next);
      Joined(SpellItem(x), SpellItems(more), next);
      assert s == SpellItem(x) + tail;
    }
  }

  lemma ItemsGrow(x: Item, more: seq<Item>, q: char, next: string)
    requires ItemFits(q, x, SpellItems(more) + next) && ItemsFit(q, more, next)
    ensures ItemsFit(q, [x] + more, next) && SpellItems([x] + more) == SpellItem(x) + SpellItems(more)
  {
    assert ([x] + more)[1..] == more;
  }

  lemma PiecesGrow(p: Piece, more: seq<Piece>, next: string)
    requires PieceFits(p, SpellAll(more) + next) && Fits(more, next)
    ensures Fits([p] + more, next) && SpellAll([p] + more) == Spell(p) + SpellAll(more)
  {
    hide PieceFits, Spell;
    assert ([p] + more)[1..] == more;
  }

  /** The first piece of a text that does not end a token. */
  lemma FirstPiece(s: string) returns (p: Piece, tail: string)
    requires s != "" && !Ends(s)
    ensures s == Spell(p) + tail && |tail| < |s| && PieceFits(p, tail)
  {
    hide ItemsFit;
    if s[0] == '\\' && |s| > 1 && s[1] in " \t\n\r\"'\\" {
      p, tail := Escape(s[1]), s[2..];
    } else if s[0] in "\"'" {
      var q := s[0];
      var items, next := ReadingInside(s[1..], q);
      if next == "" {
        p, tail := Open(q, items), "";
        assert s == [q] + (SpellItems(items) + next);
      } else {
        p, tail := Group(q, items), next[1..];
        assert next == [q] + tail;
        assert s == [q] + (SpellItems(items) + next);
        Joined([q] + SpellItems(items), [q], tail);
      }
    } else {
      p, tail := Plain(s[0]), s[1..];
    }
  }

  lemma {:induction false} Reading(s: string) returns (ps: seq<Piece>, next: string)
    ensures s == SpellAll(ps) + next && Fits(ps, next) && Ends(next)
    decreases |s|
  {
    hide PieceFits, Spell;
    if Ends(s) {
      ps, next := [], s;
    } else {
      var p, tail := FirstPiece(s);
      var more: seq<Piece>;
      more, next := Reading(tail);
      ps := [p] + more;
      PiecesGrow(p, more, next);
      Joined(Spell(p), SpellAll(more), next);
    }
  }

  /** The tokenizer returns a token exactly when the text has a reading with that meaning. */
  lemma TokenExactly(s: string, l: Lexed)
    ensures LexToken(s) == l <==>
      exists ps :: s == SpellAll(ps) + l.rest && Fits(ps, l.rest) && Ends(l.rest) && l.text == MeanAll(ps)
  {
    hide LexToken, Fits, SpellAll, MeanAll, Ends;
    var ps, next := Reading(s);
    TokenReads(ps, next);
    forall qs | s == SpellAll(qs) + l.rest && Fits(qs, l.rest) && Ends(l.rest) && l.text == MeanAll(qs) {
      TokenReads(qs, l.rest);
    }
  }

  predicate Blank(s: string) {
    forall k :: 0 <= k < |s| ==> s[k] in " \t\n\r"
  }

  /** Blanks in front of a text are skipped. */
  lemma {:induction false} BlanksSkipped(blank: string, s: string)
    requires Blank(blank)
    ensures Tokens(blank + s) == Tokens(s)
  {
    hide LexToken;
    if blank == "" {
      assert "" + s == s;
    } else {
      SpacesAre(blank[0]);
      assert (blank + s)[1..] == blank[1..] + s;
      assert SkipSpaces(blank + s) == SkipSpaces(blank[1..] + s);
      BlanksSkipped(blank[1..], s);
    }
  }

  /** A file is blanks and tokens: each token means what its pieces mean. */
  lemma FileReads(blank: string, ps: seq<Piece>, next: string)
    requires Blank(blank) && Fits(ps, next) && Ends(next)
    ensures Tokens(blank + (SpellAll(ps) + next)) == (if ps == [] then [] else [MeanAll(ps)]) + Tokens(next)
  {
    hide LexToken, Tokens, MeanAll;
    var s := SpellAll(ps) + next;
    BlanksSkipped(blank, s);
    if ps == [] {
      assert s == next && [] + Tokens(next) == Tokens(next);
    } else {
      TokenReads(ps, next);
      PieceStarts(ps[0], SpellAll(ps[1..]) + next);
      Joined(Spell(ps[0]), SpellAll(ps[1..]), next);
      TokensStep(s, MeanAll(ps), next);
    }
  }

  lemma PieceStarts(p: Piece, tail: string)
    requires PieceFits(p, tail)
    ensures var s := Spell(p) + tail; s != "" && !IsSpace(s[0])
  {
    hide ItemsFit;
    SpacesAre((Spell(p) + tail)[0]);
  }

  /** A token is cut at its first NUL, as the C string it becomes. */
  lemma {:induction false} CutAtNul(s: string)
    ensures '\0' !in CStr(s) && CStr(s) <= s
    ensures CStr(s) == s || s[|CStr(s)|] == '\0'
  {
    if s != "" && s[0] != '\0' {
      CutAtNul(s[1..]);
      assert CStr(s) == [s[0]] + CStr(s[1..]);
      assert s == [s[0]] + s[1..];
    }
  }

  // ---- what is written -----------------------------------------------------

  /** A text that needs no quotes. */
  predicate Bare(s: string) {
    s != "" && forall k :: 0 <= k < |s| ==> s[k] !in " \t\n\r\"'\\"
  }

  /** A token is put in quotes only when it has to be. */
  lemma PrintedBare(s: string)
    ensures Printed(s) == s <==> Bare(s)
  {
    hide Escapable;
    forall k | 0 <= k < |s| ensures Escapable(s[k]) <==> s[k] in " \t\n\r\"'\\" {
      SpacesAre(s[k]);
    }
    EscapedLonger(s);
  }

  lemma {:induction false} EscapedLonger(s: string)
    ensures |Escaped(s)| >= |s|
  {
    if s != "" {
      EscapedLonger(s[1..]);
    }
  }

  /** A file of bare tokens, one space apart, none of which the wrapper replaces, is written as it was. */
  lemma PlainFileKept(toks: seq<string>)
    requires forall i :: 0 <= i < |toks| ==> Bare(toks[i]) && '\0' !in toks[i] && WrappedAs(toks[i], toks[i])
    ensures RewriteFile(Join(toks, ' ')) == Join(toks, ' ')
  {
    hide Rewritten, WrappedAs, Printed, Bare, CStr, Tokens, Join;
    forall i | 0 <= i < |toks| ensures Emitted(toks[i]) == toks[i] && Rewritten(CStr(toks[i])) == toks[i] {
      NulFreeIsWhole(toks[i]);
      TokenIsWrapped(toks[i]);
      WrappedOnce(toks[i], Rewritten(toks[i]), toks[i]);
      PrintedBare(toks[i]);
    }
    TokensOfEmitted(toks);
    assert EmittedAll(toks) == toks && Texts(toks) == toks;
  }
}
