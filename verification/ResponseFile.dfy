/** The response-file rewriter of the windows-gnu link wrapper: a tokenizer, a
    token rewrite, and a quoting printer that the tokenizer undoes. Strings are
    C character sequences; where the program stops at a NUL, so does the model. */
module ResponseFile {
  import opened Wrappers
  import opened Text

  // ---- the token rewrite ---------------------------------------------------

  const STDCXX: string := "-l:libstdc++.a"
  const WINPTHREAD: string := "-l:libwinpthread.a"

  function RewriteLib(name: string): Option<string> {
    if name == "stdc++" then Some(STDCXX)
    else if name == "pthread" || name == "winpthread" then Some(WINPTHREAD)
    else None
  }

  /** The replacement of an argument that is exactly -l<name>, if it has one. */
  function RewriteArg(arg: string): Option<string> {
    if !("-l" <= arg) || "-l:" <= arg then None else RewriteLib(arg[2..])
  }

  function OrElse(r: Option<string>, s: string): string {
    if r.Some? then r.value else s
  }

  predicate IsComma(c: char) { c == ',' }

  function RewriteMembers(members: seq<string>): (r: seq<string>)
    ensures |r| == |members|
  {
    seq(|members|, i requires 0 <= i < |members| => OrElse(RewriteArg(members[i]), members[i]))
  }

  const WL: string := "-Wl,"

  /** The whole token rewrite: an exact -l<name>, or the members of a -Wl, list. */
  function RewriteToken(tok: string): Option<string> {
    if RewriteArg(tok).Some? then RewriteArg(tok)
    else if !(WL <= tok) then None
    else
      var members := Split(tok[4..], IsComma);
      if exists i :: 0 <= i < |members| && RewriteArg(members[i]).Some?
      then Some(WL + Join(RewriteMembers(members), ','))
      else None
  }

  /** What a token becomes. */
  function Rewritten(tok: string): string {
    OrElse(RewriteToken(tok), tok)
  }

  // ---- the tokenizer -------------------------------------------------------

  predicate IsSpace(c: char) { c == ' ' || c == '\t' || c == '\n' || c == '\r' }

  predicate IsQuote(c: char) { c == '"' || c == '\'' }

  predicate Escapable(c: char) { IsQuote(c) || c == '\\' || IsSpace(c) }

  function SkipSpaces(s: string): (r: string)
    ensures |r| <= |s| && (r != "" ==> !IsSpace(r[0]))
  {
    if s != "" && IsSpace(s[0]) then SkipSpaces(s[1..]) else s
  }

  /** A token text and what follows it. */
  datatype Lexed = Lexed(text: string, rest: string)

  function Prepend(c: char, l: Lexed): Lexed {
    Lexed([c] + l.text, l.rest)
  }

  /** The inside of a quoted group, up to its closing quote or the end. */
  function LexQuoted(s: string, q: char): (l: Lexed)
    ensures |l.rest| <= |s|
  {
    if s == "" || s[0] == q then Lexed("", s)
    else if q == '"' && s[0] == '\\' && |s| > 1 && (s[1] == '"' || s[1] == '\\') then
      Prepend(s[1], LexQuoted(s[2..], q))
    else Prepend(s[0], LexQuoted(s[1..], q))
  }

  /** One token, up to a space outside quotes or the end. */
  function LexToken(s: string): (l: Lexed)
    ensures |l.rest| <= |s|
    ensures s != "" && !IsSpace(s[0]) ==> |l.rest| < |s|
    decreases |s|
  {
    if s == "" || IsSpace(s[0]) then Lexed("", s)
    else if s[0] == '\\' && |s| > 1 && Escapable(s[1]) then Prepend(s[1], LexToken(s[2..]))
    else if IsQuote(s[0]) then
      var inner := LexQuoted(s[1..], s[0]);
      var after := if inner.rest != "" then inner.rest[1..] else inner.rest;
      var l := LexToken(after);
      Lexed(inner.text + l.text, l.rest)
    else Prepend(s[0], LexToken(s[1..]))
  }

  /** The tokens of a response file. */
  function Tokens(s: string): seq<string>
    decreases |s|
  {
    var t := SkipSpaces(s);
    if t == "" then []
    else
      var l := LexToken(t);
      [l.text] + Tokens(l.rest)
  }

  // ---- the printer ---------------------------------------------------------

  /** The C string of a buffer: it stops at the first NUL. */
  function CStr(s: string): (r: string)
    ensures r <= s && forall k :: 0 <= k < |r| ==> r[k] != '\0'
    ensures (forall k :: 0 <= k < |s| ==> s[k] != '\0') ==> r == s
  {
    if s == "" || s[0] == '\0' then "" else [s[0]] + CStr(s[1..])
  }

  predicate NeedsQuote(s: string) {
    s == "" || exists k :: 0 <= k < |s| && Escapable(s[k])
  }

  function Escaped(s: string): string {
    if s == "" then ""
    else (if s[0] == '"' || s[0] == '\\' then ['\\'] else "") + [s[0]] + Escaped(s[1..])
  }

  /** A token's text on output. */
  function Printed(s: string): string {
    if NeedsQuote(s) then "\"" + Escaped(s) + "\"" else s
  }

  function Emitted(tok: string): string {
    Printed(Rewritten(CStr(tok)))
  }

  function EmittedAll(toks: seq<string>): (r: seq<string>)
    ensures |r| == |toks|
  {
    seq(|toks|, i requires 0 <= i < |toks| => Emitted(toks[i]))
  }

  /** The rewritten file. */
  function RewriteFile(s: string): string {
    Join(EmittedAll(Tokens(s)), ' ')
  }

  // ---- the tokenizer undoes the printer ------------------------------------

  predicate EndsToken(rest: string) { rest == "" || IsSpace(rest[0]) }

  lemma {:induction false} LexPlain(s: string, rest: string)
    requires (forall k :: 0 <= k < |s| ==> !Escapable(s[k])) && EndsToken(rest)
    ensures LexToken(s + rest) == Lexed(s, rest)
  {
    if s == "" {
      assert s + rest == rest;
    } else {
      assert !Escapable(s[0]);
      assert (s + rest)[1..] == s[1..] + rest;
      LexPlain(s[1..], rest);
      assert [s[0]] + s[1..] == s;
    }
  }

  lemma QuotedEscape(c: char, tail: string)
    requires c == '"' || c == '\\'
    ensures LexQuoted(['\\', c] + tail, '"') == Prepend(c, LexQuoted(tail, '"'))
  {
    assert (['\\', c] + tail)[2..] == tail;
  }

  lemma QuotedPlain(c: char, tail: string)
    requires c != '"' && c != '\\'
    ensures LexQuoted([c] + tail, '"') == Prepend(c, LexQuoted(tail, '"'))
  {
    assert ([c] + tail)[1..] == tail;
  }

  lemma {:induction false} LexEscaped(s: string, rest: string)
    ensures LexQuoted(Escaped(s) + ("\"" + rest), '"') == Lexed(s, "\"" + rest)
  {
    hide LexQuoted;
    var close := "\"" + rest;
    if s == "" {
      CloseQuote(close);
      assert Escaped(s) + close == close;
    } else {
      var tail := Escaped(s[1..]) + close;
      LexEscaped(s[1..], rest);
      assert [s[0]] + s[1..] == s;
      if s[0] == '"' || s[0] == '\\' {
        assert Escaped(s) + close == ['\\', s[0]] + tail;
        QuotedEscape(s[0], tail);
      } else {
        assert Escaped(s) + close == [s[0]] + tail;
        QuotedPlain(s[0], tail);
      }
    }
  }

  lemma CloseQuote(s: string)
    requires s != "" && s[0] == '"'
    ensures LexQuoted(s, '"') == Lexed("", s)
  {
  }

  /** A quoted group that fills a token. */
  lemma LexGroup(inner: string, text: string, rest: string)
    requires LexQuoted(inner, '"') == Lexed(text, "\"" + rest) && EndsToken(rest)
    ensures LexToken("\"" + inner) == Lexed(text, rest)
  {
    hide LexQuoted;
    var whole, close := "\"" + inner, "\"" + rest;
    assert whole[1..] == inner && close[1..] == rest;
    LexEnds(rest);
    assert text + "" == text;
    assert IsQuote(whole[0]) && !IsSpace(whole[0]) && whole[0] == '"';
  }

  lemma LexEnds(rest: string)
    requires EndsToken(rest)
    ensures LexToken(rest) == Lexed("", rest)
  {
  }

  /** Whatever a token's text, what is printed for it reads back as that text. */
  lemma PrintedReadsBack(s: string, rest: string)
    requires EndsToken(rest)
    ensures LexToken(Printed(s) + rest) == Lexed(s, rest)
    ensures Printed(s) != "" && !IsSpace(Printed(s)[0])
  {
    hide LexToken, LexQuoted, Escaped;
    if NeedsQuote(s) {
      var inner := Escaped(s) + ("\"" + rest);
      LexEscaped(s, rest);
      LexGroup(inner, s, rest);
      assert Printed(s) + rest == "\"" + inner;
    } else {
      LexPlain(s, rest);
      assert !Escapable(s[0]);
    }
  }

  function Texts(toks: seq<string>): (r: seq<string>)
    ensures |r| == |toks|
  {
    seq(|toks|, i requires 0 <= i < |toks| => Rewritten(CStr(toks[i])))
  }

  lemma TokensStep(out: string, text: string, rest: string)
    requires out != "" && !IsSpace(out[0]) && LexToken(out) == Lexed(text, rest)
    ensures Tokens(out) == [text] + Tokens(rest)
  {
    hide LexToken;
    assert SkipSpaces(out) == out;
  }

  lemma JoinedHead(parts: seq<string>)
    requires parts != []
    ensures Join(parts, ' ') == parts[0] + (if |parts| == 1 then "" else " " + Join(parts[1..], ' '))
  {
  }

  lemma {:induction false} TokensOfEmitted(toks: seq<string>)
    ensures Tokens(Join(EmittedAll(toks), ' ')) == Texts(toks)
  {
    hide LexToken, Printed, Rewritten, CStr, Join, Tokens, IsSpace;
    if toks == [] {
      NoTokens();
      assert EmittedAll(toks) == [];
    } else {
      var text, parts := Rewritten(CStr(toks[0])), EmittedAll(toks);
      assert parts[1..] == EmittedAll(toks[1..]);
      var rest := if |toks| == 1 then "" else " " + Join(parts[1..], ' ');
      JoinedHead(parts);
      SpaceEnds(rest, Join(parts[1..], ' '));
      PrintedReadsBack(text, rest);
      StartsAlike(Printed(text), rest);
      TokensStep(Printed(text) + rest, text, rest);
      TokensOfEmitted(toks[1..]);
      NoTokens();
      RestTokens(rest, Join(parts[1..], ' '), |toks| == 1);
      assert Texts(toks) == [text] + Texts(toks[1..]);
    }
  }

  lemma StartsAlike(a: string, b: string)
    requires a != ""
    ensures a + b != "" && (a + b)[0] == a[0]
  {
  }

  lemma SpaceEnds(rest: string, joined: string)
    requires rest == "" || rest == " " + joined
    ensures EndsToken(rest)
  {
  }

  lemma NoTokens()
    ensures Join([], ' ') == "" && Tokens("") == []
  {
  }

  lemma RestTokens(rest: string, joined: string, last: bool)
    requires rest == if last then "" else " " + joined
    ensures Tokens(rest) == if last then [] else Tokens(joined)
  {
    if !last {
      assert rest[1..] == joined;
      assert SkipSpaces(rest) == SkipSpaces(joined);
    }
  }

  /** Round trip: tokenizing the rewritten file gives exactly the token-wise
      rewrite of tokenizing the original, for every input. */
  lemma RewrittenFileTokens(s: string)
    ensures Tokens(RewriteFile(s)) == Texts(Tokens(s))
  {
    TokensOfEmitted(Tokens(s));
  }

  // ---- what the wrapper is for ---------------------------------------------

  /** The static library in place of a dynamic one. */
  function Static(arg: string): string {
    if arg == "-lstdc++" then "-l:libstdc++.a"
    else if arg == "-lpthread" || arg == "-lwinpthread" then "-l:libwinpthread.a"
    else arg
  }

  function StaticAll(args: seq<string>): (r: seq<string>)
    ensures |r| == |args| && forall i :: 0 <= i < |args| ==> r[i] == Static(args[i])
  {
    seq(|args|, i requires 0 <= i < |args| => Static(args[i]))
  }

  /** The members of a comma list, at least one, none with a comma in it. */
  ghost predicate Listable(members: seq<string>) {
    members != [] && forall i :: 0 <= i < |members| ==> ',' !in members[i]
  }

  /** A `-Wl,` token keeps its members, their number and their order, and has
      each of them replaced; any other token is replaced as a whole. */
  ghost predicate WrappedAs(tok: string, out: string) {
    if "-Wl," <= tok then
      exists members :: Listable(members) && tok == "-Wl," + Join(members, ',') && out == "-Wl," + Join(StaticAll(members), ',')
    else out == Static(tok)
  }

  /** The three arguments that have a replacement. */
  lemma ArgIsStatic(arg: string)
    ensures OrElse(RewriteArg(arg), arg) == Static(arg)
    ensures RewriteArg(arg).Some? <==> arg in {"-lstdc++", "-lpthread", "-lwinpthread"}
  {
    if "-l" <= arg {
      assert arg == "-l" + arg[2..];
      assert "-lstdc++" == "-l" + "stdc++" && "-lpthread" == "-l" + "pthread" && "-lwinpthread" == "-l" + "winpthread";
      TailOf(arg, "stdc++");
      TailOf(arg, "pthread");
      TailOf(arg, "winpthread");
    }
  }

  lemma TailOf(arg: string, name: string)
    requires "-l" <= arg && name != "" && name[0] != ':'
    ensures arg[2..] == name <==> arg == "-l" + name
    ensures arg == "-l" + name ==> !("-l:" <= arg)
  {
    assert arg == "-l" + arg[2..];
    if arg == "-l" + name {
      assert arg[2] == name[0];
    }
  }

  lemma MembersAreStatic(members: seq<string>)
    ensures RewriteMembers(members) == StaticAll(members)
    ensures (forall i :: 0 <= i < |members| ==> RewriteArg(members[i]).None?) ==> StaticAll(members) == members
  {
    hide RewriteArg, Static;
    forall i | 0 <= i < |members|
      ensures RewriteMembers(members)[i] == Static(members[i])
      ensures RewriteArg(members[i]).None? ==> Static(members[i]) == members[i]
    {
      ArgIsStatic(members[i]);
    }
  }

  /** Every token becomes what the wrapper promises, whatever it is. */
  lemma TokenIsWrapped(tok: string)
    ensures WrappedAs(tok, Rewritten(tok))
  {
    hide RewriteArg, Split, Join, Static, StaticAll;
    ArgIsStatic(tok);
    if WL <= tok {
      var members := Split(tok[4..], IsComma);
      assert tok == WL + tok[4..];
      ListIsNoArg(tok[4..]);
      SplitIsFree(tok[4..], IsComma);
      JoinSplit(tok[4..], ',', IsComma);
      MembersAreStatic(members);
      assert Listable(members);
      assert Rewritten(tok) == WL + Join(StaticAll(members), ',');
    } else {
      assert RewriteToken(tok) == RewriteArg(tok);
    }
  }

  /** The rewritten file has as many tokens as the original, and each of them,
      up to its first NUL, became what the wrapper promises. */
  lemma FileIsWrapped(s: string)
    ensures var before, after := Tokens(s), Tokens(RewriteFile(s));
      |after| == |before| && forall i :: 0 <= i < |before| ==> WrappedAs(CStr(before[i]), after[i])
  {
    hide WrappedAs, Rewritten, Tokens, RewriteFile, CStr;
    RewrittenFileTokens(s);
    forall i | 0 <= i < |Tokens(s)| ensures WrappedAs(CStr(Tokens(s)[i]), Tokens(RewriteFile(s))[i]) {
      TokenIsWrapped(CStr(Tokens(s)[i]));
    }
  }

  /** A token has one rewriting. */
  lemma WrappedOnce(tok: string, a: string, b: string)
    requires WrappedAs(tok, a) && WrappedAs(tok, b)
    ensures a == b
  {
    hide Static, Join;
    if "-Wl," <= tok {
      var m :| Listable(m) && tok == "-Wl," + Join(m, ',') && a == "-Wl," + Join(StaticAll(m), ',');
      var n :| Listable(n) && tok == "-Wl," + Join(n, ',') && b == "-Wl," + Join(StaticAll(n), ',');
      assert ("-Wl," + Join(m, ','))[4..] == Join(m, ',') && ("-Wl," + Join(n, ','))[4..] == Join(n, ',');
      SplitJoin(m, ',', IsComma);
      SplitJoin(n, ',', IsComma);
    }
  }

  // ---- rewriting twice -----------------------------------------------------

  predicate IsNul(c: char) { c == '\0' }

  /** What an argument is rewritten to is not rewritten again, and has no comma and no NUL. */
  lemma ArgIsFinal(arg: string)
    requires RewriteArg(arg).Some?
    ensures RewriteArg(RewriteArg(arg).value).None?
    ensures Free(RewriteArg(arg).value, IsComma) && Free(RewriteArg(arg).value, IsNul)
  {
    assert STDCXX[..3] == "-l:" && WINPTHREAD[..3] == "-l:";
  }

  lemma MembersAreFinal(members: seq<string>)
    requires AllFree(members, IsComma)
    ensures AllFree(RewriteMembers(members), IsComma)
    ensures forall i :: 0 <= i < |members| ==> RewriteArg(RewriteMembers(members)[i]).None?
    ensures AllFree(members, IsNul) ==> AllFree(RewriteMembers(members), IsNul)
  {
    hide RewriteArg;
    forall i | 0 <= i < |members|
      ensures Free(RewriteMembers(members)[i], IsComma) && RewriteArg(RewriteMembers(members)[i]).None?
      ensures Free(members[i], IsNul) ==> Free(RewriteMembers(members)[i], IsNul)
    {
      if RewriteArg(members[i]).Some? {
        ArgIsFinal(members[i]);
      }
    }
  }

  lemma ListIsFinal(members: seq<string>)
    requires members != [] && AllFree(members, IsComma)
    requires forall i :: 0 <= i < |members| ==> RewriteArg(members[i]).None?
    ensures RewriteToken(WL + Join(members, ',')).None?
  {
    hide Join, Split, RewriteArg;
    var tok := WL + Join(members, ',');
    assert tok[4..] == Join(members, ',');
    ListIsNoArg(Join(members, ','));
    SplitJoin(members, ',', IsComma);
  }

  lemma ListIsNoArg(list: string)
    ensures RewriteArg(WL + list).None?
  {
    assert (WL + list)[1] == 'W';
  }

  /** Rewriting a rewritten token changes nothing. */
  lemma RewriteIsIdempotent(tok: string)
    ensures Rewritten(Rewritten(tok)) == Rewritten(tok)
    ensures Free(tok, IsNul) ==> Free(Rewritten(tok), IsNul)
  {
    hide RewriteArg, Split, Join;
    if RewriteArg(tok).Some? {
      ArgIsFinal(tok);
      FinalIsNoList(tok);
    } else if RewriteToken(tok).Some? {
      var members := Split(tok[4..], IsComma);
      SplitIsFree(tok[4..], IsComma);
      MembersAreFinal(members);
      ListIsFinal(RewriteMembers(members));
      if Free(tok, IsNul) {
        SplitKeepsFree(tok[4..], IsComma, IsNul);
        JoinKeepsFree(RewriteMembers(members), ',', IsNul);
      }
    }
  }

  lemma FinalIsNoList(arg: string)
    requires RewriteArg(arg).Some?
    ensures !(WL <= RewriteArg(arg).value)
  {
    assert STDCXX[1] == 'l' && WINPTHREAD[1] == 'l';
  }

  /** The rewritten file is a fixed point: rewriting it again changes no byte. */
  lemma RewriteFileTwice(s: string)
    ensures RewriteFile(RewriteFile(s)) == RewriteFile(s)
  {
    hide Rewritten, Tokens, Join, Printed;
    RewrittenFileTokens(s);
    var toks := Tokens(s);
    forall i | 0 <= i < |toks| ensures Emitted(Texts(toks)[i]) == Emitted(toks[i]) {
      var t := CStr(toks[i]);
      assert Free(t, IsNul);
      RewriteIsIdempotent(t);
      NulFreeIsWhole(Rewritten(t));
    }
    assert EmittedAll(Texts(toks)) == EmittedAll(toks);
  }

  lemma NulFreeIsWhole(s: string)
    requires Free(s, IsNul)
    ensures CStr(s) == s
  {
    assert forall k :: 0 <= k < |s| ==> s[k] != '\0';
  }

  /** On a file without NULs the tokens are rewritten whole. */
  lemma NulFreeTokens(s: string)
    requires Free(s, IsNul)
    ensures forall i :: 0 <= i < |Tokens(s)| ==> CStr(Tokens(s)[i]) == Tokens(s)[i]
  {
    hide CStr;
    TokensKeepFree(s);
    forall i | 0 <= i < |Tokens(s)| ensures CStr(Tokens(s)[i]) == Tokens(s)[i] {
      NulFreeIsWhole(Tokens(s)[i]);
    }
  }

  lemma {:induction false} QuotedKeepsFree(s: string, q: char)
    requires Free(s, IsNul)
    ensures Free(LexQuoted(s, q).text, IsNul) && Free(LexQuoted(s, q).rest, IsNul)
  {
    if s == "" || s[0] == q {
    } else if q == '"' && s[0] == '\\' && |s| > 1 && (s[1] == '"' || s[1] == '\\') {
      QuotedKeepsFree(s[2..], q);
    } else {
      QuotedKeepsFree(s[1..], q);
    }
  }

  lemma {:induction false} TokenKeepsFree(s: string)
    requires Free(s, IsNul)
    ensures Free(LexToken(s).text, IsNul) && Free(LexToken(s).rest, IsNul)
    decreases |s|
  {
    hide LexQuoted;
    if s == "" || IsSpace(s[0]) {
    } else if s[0] == '\\' && |s| > 1 && Escapable(s[1]) {
      TokenKeepsFree(s[2..]);
    } else if IsQuote(s[0]) {
      QuotedKeepsFree(s[1..], s[0]);
      var inner := LexQuoted(s[1..], s[0]);
      TokenKeepsFree(if inner.rest != "" then inner.rest[1..] else inner.rest);
    } else {
      TokenKeepsFree(s[1..]);
    }
  }

  lemma {:induction false} SkipKeepsFree(s: string)
    requires Free(s, IsNul)
    ensures Free(SkipSpaces(s), IsNul)
  {
    if s != "" && IsSpace(s[0]) {
      SkipKeepsFree(s[1..]);
    }
  }

  lemma {:induction false} TokensKeepFree(s: string)
    requires Free(s, IsNul)
    ensures AllFree(Tokens(s), IsNul)
    decreases |s|
  {
    hide LexToken, SkipSpaces;
    SkipKeepsFree(s);
    var t := SkipSpaces(s);
    if t != "" {
      TokenKeepsFree(t);
      TokensKeepFree(LexToken(t).rest);
    }
  }

  // ---- the program ---------------------------------------------------------

  /** The growable character buffer. */
  class Buf {
    var data: array<char>
    var len: nat

    ghost predicate Valid()
      reads this
    {
      len < data.Length || len == data.Length == 0
    }

    function Contents(): string
      requires Valid()
      reads this, data
    {
      data[..len]
    }

    constructor ()
      ensures Valid() && Contents() == "" && fresh(data)
    {
      data := new char[0];
      len := 0;
    }

    method Putc(c: char)
      requires Valid()
      modifies this, data
      ensures Valid() && Contents() == old(Contents()) + [c]
      ensures data == old(data) || fresh(data)
    {
      ghost var before := Contents();
      if len + 1 >= data.Length {
        var cap := if data.Length != 0 then data.Length * 2 else 0x1_0000;
        var grown := new char[cap](i requires 0 <= i < cap reads this, data => if i < data.Length then data[i] else '\0');
        data := grown;
      }
      assert data[..len] == before;
      data[len] := c;
      len := len + 1;
      assert data[..len] == before + [c];
    }

    method Puts(s: string)
      requires Valid()
      modifies this, data
      ensures Valid() && Contents() == old(Contents()) + s
      ensures data == old(data) || fresh(data)
    {
      for i := 0 to |s|
        invariant Valid() && Contents() == old(Contents()) + s[..i]
        invariant data == old(data) || fresh(data)
      {
        assert s[..i + 1] == s[..i] + [s[i]];
        Putc(s[i]);
      }
      assert s[..|s|] == s;
    }
  }

  /** The printer, appending to the output buffer. */
  method EmitToken(out: Buf, tok: string)
    requires out.Valid()
    modifies out, out.data
    ensures out.Valid() && out.Contents() == old(out.Contents()) + Emitted(tok)
    ensures out.data == old(out.data) || fresh(out.data)
  {
    hide RewriteToken, CStr, Escaped;
    var c := CStr(tok);
    var rt := RewriteTokenDup(c);
    var s := OrElse(rt, c);
    if !NeedsQuote(s) {
      out.Puts(s);
      return;
    }
    ghost var before := out.Contents();
    out.Putc('"');
    EmitEscaped(out, s);
    out.Putc('"');
    assert out.Contents() == before + ("\"" + Escaped(s) + "\"");
  }

  method EmitEscaped(out: Buf, s: string)
    requires out.Valid()
    modifies out, out.data
    ensures out.Valid() && out.Contents() == old(out.Contents()) + Escaped(s)
    ensures out.data == old(out.data) || fresh(out.data)
  {
    hide Escaped;
    ghost var before := out.Contents();
    assert s[0..] == s;
    for i := 0 to |s|
      invariant out.Valid() && out.Contents() + Escaped(s[i..]) == before + Escaped(s)
      invariant out.data == old(out.data) || fresh(out.data)
    {
      EscapedStep(out.Contents(), s, i);
      if s[i] == '"' || s[i] == '\\' {
        out.Putc('\\');
      }
      out.Putc(s[i]);
    }
    assert s[|s|..] == "";
    EscapedEmpty();
    assert out.Contents() + "" == out.Contents();
  }

  /** The next character goes out, behind a backslash if it needs one. */
  lemma EscapedStep(sofar: string, s: string, i: nat)
    requires i < |s|
    ensures sofar + Escaped(s[i..]) ==
      (if s[i] == '"' || s[i] == '\\' then sofar + ['\\'] else sofar) + [s[i]] + Escaped(s[i + 1..])
  {
    assert s[i..][1..] == s[i + 1..];
  }

  lemma EscapedEmpty()
    ensures Escaped("") == ""
  {
  }

  /** The comma-list walk of the token rewrite. */
  method RewriteTokenDup(tok: string) returns (r: Option<string>)
    ensures r == RewriteToken(tok)
  {
    hide RewriteArg, Split, Sofar;
    if RewriteArg(tok).Some? {
      return RewriteArg(tok);
    }
    if !(WL <= tok) {
      return None;
    }
    ghost var members := Split(tok[4..], IsComma);
    NoMembers(members);
    var out, p, k, changed := WL, tok[4..], 0, false;
    var more := true;
    while more
      invariant k <= |members| && (more <==> k < |members|)
      invariant more ==> Split(p, IsComma) == members[k..]
      invariant changed <==> exists i :: 0 <= i < k && RewriteArg(members[i]).Some?
      invariant out == Sofar(members, k)
      decreases |members| - k
    {
      var member, rest, comma := UpToComma(p);
      assert members[k..][0] == member;
      assert comma ==> members[k..][1..] == members[k + 1..];
      NextMember(members, k);
      var mr := RewriteArg(member);
      if mr.Some? {
        changed := true;
      }
      if k > 0 {
        out := out + ",";
      }
      out := out + OrElse(mr, member);
      k := k + 1;
      p, more := rest, comma;
    }
    AllMembers(members);
    return if changed then Some(out) else None;
  }

  /** The list with its first `k` members rewritten. */
  ghost function Sofar(members: seq<string>, k: nat): string
    requires k <= |members|
  {
    WL + Join(RewriteMembers(members[..k]), ',')
  }

  lemma NoMembers(members: seq<string>)
    ensures Sofar(members, 0) == WL
  {
    assert Join(RewriteMembers(members[..0]), ',') == "";
  }

  lemma AllMembers(members: seq<string>)
    ensures Sofar(members, |members|) == WL + Join(RewriteMembers(members), ',')
  {
    assert members[..|members|] == members;
  }

  lemma NextMember(members: seq<string>, k: nat)
    requires k < |members|
    ensures Sofar(members, k + 1) ==
      (if k > 0 then Sofar(members, k) + "," else Sofar(members, k)) + OrElse(RewriteArg(members[k]), members[k])
  {
    hide RewriteArg, Join;
    var front, last := RewriteMembers(members[..k]), OrElse(RewriteArg(members[k]), members[k]);
    JoinSnoc(front, last, ',');
    assert RewriteMembers(members[..k + 1]) == front + [last];
    NoMembers(members);
  }

  /** `strchr(p, ',')`: the member before the comma, and what is behind it. */
  method UpToComma(p: string) returns (member: string, rest: string, comma: bool)
    ensures Split(p, IsComma) == [member] + (if comma then Split(rest, IsComma) else [])
  {
    var n := 0;
    while n < |p| && p[n] != ','
      invariant n <= |p| && Free(p[..n], IsComma)
    {
      n := n + 1;
    }
    member, comma := p[..n], n < |p|;
    if comma {
      rest := p[n + 1..];
      assert p == member + [','] + rest;
      SplitFront(member, ',', rest, IsComma);
    } else {
      rest := "";
      assert p == member;
      SplitWhole(member, IsComma);
    }
  }

  /** The inside of a quoted group, read into the token buffer. */
  method ReadQuoted(input: string, from: nat, q: char, tok: Buf) returns (i: nat)
    requires tok.Valid() && from <= |input|
    modifies tok, tok.data
    ensures tok.Valid() && (tok.data == old(tok.data) || fresh(tok.data))
    ensures from <= i <= |input|
    ensures var l := LexQuoted(input[from..], q);
      tok.Contents() == old(tok.Contents()) + l.text && l.rest == input[i..] && (i == |input| || input[i] == q)
  {
    hide LexQuoted;
    ghost var before, whole := tok.Contents(), LexQuoted(input[from..], q);
    i := from;
    assert before + whole.text == tok.Contents() + whole.text;
    while i < |input| && input[i] != q
      invariant from <= i <= |input|
      invariant tok.Valid() && (tok.data == old(tok.data) || fresh(tok.data))
      invariant before + whole.text == tok.Contents() + LexQuoted(input[i..], q).text
      invariant whole.rest == LexQuoted(input[i..], q).rest
      decreases |input| - i
    {
      QuotedStep(input, i, q);
      ghost var sofar := tok.Contents();
      if q == '"' && input[i] == '\\' && i + 1 < |input| && (input[i + 1] == '"' || input[i + 1] == '\\') {
        tok.Putc(input[i + 1]);
        Shift(sofar, input[i + 1], LexQuoted(input[i + 2..], q).text);
        i := i + 2;
      } else {
        tok.Putc(input[i]);
        Shift(sofar, input[i], LexQuoted(input[i + 1..], q).text);
        i := i + 1;
      }
    }
    QuotedEnd(input[i..], q);
    assert tok.Contents() + "" == tok.Contents();
  }

  lemma Shift(sofar: string, c: char, text: string)
    ensures sofar + ([c] + text) == (sofar + [c]) + text
  {
  }

  lemma QuotedEnd(s: string, q: char)
    requires s == "" || s[0] == q
    ensures LexQuoted(s, q) == Lexed("", s)
  {
  }

  lemma QuotedStep(input: string, i: nat, q: char)
    requires i < |input| && input[i] != q
    ensures LexQuoted(input[i..], q) ==
      if q == '"' && input[i] == '\\' && i + 1 < |input| && (input[i + 1] == '"' || input[i + 1] == '\\')
      then Prepend(input[i + 1], LexQuoted(input[i + 2..], q))
      else Prepend(input[i], LexQuoted(input[i + 1..], q))
  {
    var s := input[i..];
    assert s[1..] == input[i + 1..];
    if |s| > 1 {
      assert s[2..] == input[i + 2..];
    }
  }

  /** The token loop: text up to a space outside quotes. */
  method ReadToken(input: string, from: nat) returns (tok: Buf, i: nat)
    requires from < |input| && !IsSpace(input[from])
    ensures fresh(tok) && fresh(tok.data) && tok.Valid()
    ensures from < i <= |input| && LexToken(input[from..]) == Lexed(tok.Contents(), input[i..])
  {
    hide LexToken, LexQuoted, IsQuote, Escapable, IsSpace, AfterQuote;
    tok := new Buf();
    i := from;
    ghost var whole := LexToken(input[from..]);
    assert tok.Contents() + whole.text == whole.text;
    while i < |input| && !IsSpace(input[i])
      invariant from <= i <= |input| && (i == from ==> !IsSpace(input[from]))
      invariant fresh(tok) && fresh(tok.data) && tok.Valid()
      invariant whole.text == tok.Contents() + LexToken(input[i..]).text
      invariant whole.rest == LexToken(input[i..]).rest
      decreases |input| - i
    {
      ghost var sofar := tok.Contents();
      TokenStep(input, i);
      if input[i] == '\\' && i + 1 < |input| && Escapable(input[i + 1]) {
        tok.Putc(input[i + 1]);
        Shift(sofar, input[i + 1], LexToken(input[i + 2..]).text);
        i := i + 2;
      } else if IsQuote(input[i]) {
        var q, at := input[i], i + 1;
        i := ReadQuoted(input, at, q, tok);
        ghost var inner := LexQuoted(input[at..], q);
        Regroup(sofar, inner.text, LexToken(AfterQuote(inner.rest)).text);
        AfterQuoteIs(input, i);
        if i < |input| {
          i := i + 1;
        }
      } else {
        tok.Putc(input[i]);
        Shift(sofar, input[i], LexToken(input[i + 1..]).text);
        i := i + 1;
      }
    }
    LexEnds(input[i..]);
    assert tok.Contents() + "" == tok.Contents();
  }

  lemma Regroup(a: string, b: string, c: string)
    ensures a + (b + c) == (a + b) + c
  {
  }

  function AfterQuote(rest: string): string {
    if rest != "" then rest[1..] else rest
  }

  lemma AfterQuoteIs(input: string, i: nat)
    requires i <= |input|
    ensures AfterQuote(input[i..]) == input[if i < |input| then i + 1 else i..]
  {
    if i < |input| {
      assert input[i..][1..] == input[i + 1..];
    }
  }

  lemma TokenStep(input: string, i: nat)
    requires i < |input| && !IsSpace(input[i])
    ensures LexToken(input[i..]) ==
      if input[i] == '\\' && i + 1 < |input| && Escapable(input[i + 1]) then
        Prepend(input[i + 1], LexToken(input[i + 2..]))
      else if IsQuote(input[i]) then
        var inner := LexQuoted(input[i + 1..], input[i]);
        var l := LexToken(AfterQuote(inner.rest));
        Lexed(inner.text + l.text, l.rest)
      else Prepend(input[i], LexToken(input[i + 1..]))
  {
    hide LexQuoted, Escapable;
    var s := input[i..];
    assert s[1..] == input[i + 1..];
    if |s| > 1 {
      assert s[2..] == input[i + 2..];
    }
  }

  method SkipBlanks(input: string, from: nat) returns (i: nat)
    requires from <= |input|
    ensures from <= i <= |input| && SkipSpaces(input[from..]) == input[i..]
    ensures i < |input| ==> !IsSpace(input[i])
  {
    hide IsSpace;
    i := from;
    while i < |input| && IsSpace(input[i])
      invariant from <= i <= |input| && SkipSpaces(input[from..]) == SkipSpaces(input[i..])
    {
      SkipStep(input, i);
      i := i + 1;
    }
    SkipsNothing(input[i..]);
  }

  /** The text of a response file, tokenized, rewritten and printed. */
  method RewriteResponse(input: string) returns (out: Buf)
    ensures fresh(out) && fresh(out.data) && out.Valid() && out.Contents() == RewriteFile(input)
  {
    hide LexToken, SkipSpaces, Tokens, Emitted, IsSpace, Join;
    out := new Buf();
    var i: nat, first := 0, true;
    ghost var done: seq<string> := [];
    assert input[0..] == input;
    assert [] + Tokens(input) == Tokens(input);
    NoTokens();
    assert EmittedAll([]) == [];
    while i < |input|
      invariant i <= |input| && fresh(out) && fresh(out.data) && out.Valid()
      invariant first <==> done == []
      invariant done + Tokens(input[i..]) == Tokens(input)
      invariant out.Contents() == Join(EmittedAll(done), ' ')
      decreases |input| - i
    {
      var at := SkipBlanks(input, i);
      TokensUnfold(input[i..]);
      if at >= |input| {
        i := at;
        assert input[i..] == "" && Tokens("") == [];
        break;
      }
      var tok, next := ReadToken(input, at);
      ghost var text := tok.Contents();
      EmittedSnoc(done, text);
      if !first {
        out.Putc(' ');
      }
      first := false;
      EmitToken(out, tok.Contents());
      Snoc(done, text, Tokens(input[next..]));
      done := done + [text];
      i := next;
    }
    assert input[i..] == "";
    assert done + [] == done;
  }

  lemma Snoc(done: seq<string>, text: string, rest: seq<string>)
    ensures done + ([text] + rest) == (done + [text]) + rest
  {
  }

  lemma SkipStep(input: string, i: nat)
    requires i < |input| && IsSpace(input[i])
    ensures SkipSpaces(input[i..]) == SkipSpaces(input[i + 1..])
  {
    assert input[i..][1..] == input[i + 1..];
  }

  lemma SkipsNothing(s: string)
    requires s == "" || !IsSpace(s[0])
    ensures SkipSpaces(s) == s
  {
  }

  lemma TokensUnfold(s: string)
    ensures var t := SkipSpaces(s);
      Tokens(s) == if t == "" then [] else [LexToken(t).text] + Tokens(LexToken(t).rest)
  {
    hide LexToken, SkipSpaces;
  }

  lemma EmittedSnoc(toks: seq<string>, tok: string)
    ensures Join(EmittedAll(toks + [tok]), ' ') ==
      (if toks != [] then Join(EmittedAll(toks), ' ') + [' '] else "") + Emitted(tok)
  {
    hide Emitted;
    JoinSnoc(EmittedAll(toks), Emitted(tok), ' ');
    assert EmittedAll(toks + [tok]) == EmittedAll(toks) + [Emitted(tok)];
  }
}
