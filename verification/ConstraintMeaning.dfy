/** What a written constraint asks of a version: an operator, blanks and a
    version of one to four numbers, and lists of such clauses. */
module ConstraintMeaning {
  import opened Wrappers
  import opened Text
  import opened Decimal
  import opened Versions
  import opened Dispatcher
  import opened Constraints
  import opened VersionMeaning

  /** The version the clause names, segment by segment. */
  predicate Numeric(parts: seq<string>) {
    1 <= |parts| <= 4
    && forall i :: 0 <= i < |parts| ==> parts[i] != "" && forall k :: 0 <= k < |parts[i]| ==> '0' <= parts[i][k] <= '9'
  }

  /** The operators a clause can be written with; no operator is `=`. */
  predicate Written(op: string) {
    op in {">=", "<=", ">", "<", "=", "!=", "~>", ""}
  }

  /** The dispatcher's reading of an operator, by which version is below which. */
  ghost predicate Asks(op: string, version: string, v: string) {
    (op == ">=" ==> !DispatchBelow(version, v))
    && (op == "<=" ==> !DispatchBelow(v, version))
    && (op == ">" ==> DispatchBelow(v, version))
    && (op == "<" ==> DispatchBelow(version, v))
    && (op in {"=", ""} ==> !DispatchBelow(version, v) && !DispatchBelow(v, version))
    && (op == "!=" ==> DispatchBelow(version, v) || DispatchBelow(v, version))
    && (op == "~>" ==> !DispatchBelow(version, v) && DispatchBelow(version, UpperBound(v)))
  }

  /** The Unicode White_Space characters, by code point. */
  const BLANKS: set<int> := {
    9, 10, 11, 12, 13, 32, 133, 160, 5760, 8192, 8193, 8194, 8195, 8196, 8197, 8198, 8199, 8200, 8201, 8202,
    8232, 8233, 8239, 8287, 12288
  }

  predicate Blanks(s: string) {
    forall k :: 0 <= k < |s| ==> White(s[k])
  }

  lemma BlanksAre(s: string)
    ensures Blanks(s) <==> forall k :: 0 <= k < |s| ==> s[k] as int in BLANKS
  {
    forall k | 0 <= k < |s| ensures White(s[k]) <==> s[k] as int in BLANKS {
      WhiteIs(s[k]);
    }
  }

  lemma WhiteIs(c: char)
    ensures White(c) <==> c as int in BLANKS
  {
  }

  // ---- one clause ----------------------------------------------------------

  lemma {:induction false} BlanksInFront(blank: string, s: string)
    requires Blanks(blank) && s != "" && !White(s[0])
    ensures TrimStart(blank + s) == s
  {
    if blank == "" {
      assert blank + s == s;
    } else {
      assert (blank + s)[1..] == blank[1..] + s;
      BlanksInFront(blank[1..], s);
    }
  }

  lemma {:induction false} BlanksBehind(s: string, blank: string)
    requires Blanks(blank) && s != "" && !White(s[|s| - 1])
    ensures TrimEnd(s + blank) == s
    decreases |blank|
  {
    if blank == "" {
      assert s + blank == s;
    } else {
      assert (s + blank)[..|s + blank| - 1] == s + blank[..|blank| - 1];
      BlanksBehind(s, blank[..|blank| - 1]);
    }
  }

  lemma BlanksAround(before: string, s: string, behind: string)
    requires Blanks(before) && Blanks(behind) && s != "" && !White(s[0]) && !White(s[|s| - 1])
    ensures Trimmed(before + s + behind) == s
  {
    hide White, TrimStart, TrimEnd;
    assert before + s + behind == before + (s + behind);
    BlanksInFront(before, s + behind);
    BlanksBehind(s, behind);
  }

  /** The characters of a version of numbers. */
  lemma {:induction false} VersionChars(parts: seq<string>)
    requires Numeric(parts)
    ensures var v := Join(parts, '.');
      && Segments(v) == parts && IsVersion(v) && v != ""
      && forall k :: 0 <= k < |v| ==> v[k] == '.' || '0' <= v[k] <= '9'
  {
    hide Join, Split;
    assert AllFree(parts, IsDot);
    SplitJoin(parts, '.', IsDot);
    assert AllFree(parts, Stray);
    JoinKeepsFree(parts, '.', Stray);
    JoinedNotEmpty(parts);
  }

  predicate Stray(c: char) { c != '.' && !('0' <= c <= '9') }

  lemma JoinedNotEmpty(parts: seq<string>)
    requires parts != [] && parts[0] != ""
    ensures Join(parts, '.') != ""
  {
  }

  /** The operator of a clause, as it is written in front of a blank or a digit. */
  lemma OperatorRead(op: string, rest: string)
    requires Written(op) && rest != "" && (White(rest[0]) || rest[0] == '.' || '0' <= rest[0] <= '9')
    ensures Stripped(op + rest) == rest
    ensures ReadClause(op + rest) == Clause(OpOf(op), Trimmed(rest))
  {
    hide Trimmed;
    var s := op + rest;
    assert s[|op|..] == rest && s[|op|] == rest[0] && s[..|op|] == op;
    if op == "" {
      assert s == rest;
    } else if |op| == 1 {
      assert s[0] == op[0] && s[1..] == rest;
      assert !("==" <= s) by {
        assert s[1] == rest[0];
      }
    } else {
      assert s[0] == op[0] && s[1] == op[1] && s[2..] == rest;
    }
  }

  function OpOf(op: string): Op
    requires Written(op)
  {
    if op == ">=" then Ge else if op == "<=" then Le else if op == ">" then Gt else if op == "<" then Lt
    else if op == "!=" then NotEq else if op == "~>" then Pess else Eq
  }

  /** A clause with blanks anywhere around its parts. */
  function ClauseText(before: string, op: string, blank: string, v: string, behind: string): string {
    before + (op + blank + v) + behind
  }

  lemma ClauseRead(before: string, op: string, blank: string, parts: seq<string>, behind: string)
    requires Written(op) && Blanks(before) && Blanks(blank) && Blanks(behind) && Numeric(parts) && (op == "" ==> blank == "")
    ensures var v := Join(parts, '.');
      var text := ClauseText(before, op, blank, v, behind);
      && ValidClause(Trimmed(text)) && ReadClause(Trimmed(text)) == Clause(OpOf(op), v)
      && Free(text, IsComma) && Trimmed(text) != ""
  {
    hide Trimmed, Stripped, ReadClause, Join, IsVersion, White, Segments;
    var v := Join(parts, '.');
    var core := op + blank + v;
    VersionChars(parts);
    NotWhite(op, blank, v);
    BlanksAround(before, core, behind);
    BlanksAround(blank, v, "");
    assert blank + v + "" == blank + v && core == op + (blank + v);
    OperatorRead(op, blank + v);
    NoComma(before, op, blank, v, behind);
  }

  lemma NotWhite(op: string, blank: string, v: string)
    requires Written(op) && Blanks(blank) && (op == "" ==> blank == "")
    requires v != "" && forall k :: 0 <= k < |v| ==> v[k] == '.' || '0' <= v[k] <= '9'
    ensures var core := op + blank + v; core != "" && !White(core[0]) && !White(core[|core| - 1])
    ensures !White(v[0]) && !White(v[|v| - 1])
    ensures White((blank + v)[0]) || '0' <= (blank + v)[0] <= '9' || (blank + v)[0] == '.'
  {
  }

  lemma NoComma(before: string, op: string, blank: string, v: string, behind: string)
    requires Written(op) && Blanks(before) && Blanks(blank) && Blanks(behind)
    requires forall k :: 0 <= k < |v| ==> v[k] == '.' || '0' <= v[k] <= '9'
    ensures Free(ClauseText(before, op, blank, v, behind), IsComma)
  {
  }

  /** A clause admits exactly the versions its operator asks for. */
  lemma ClauseAsks(op: string, parts: seq<string>, version: string)
    requires Written(op) && Numeric(parts)
    ensures HoldsFor(Clause(OpOf(op), Join(parts, '.')), version) <==> Asks(op, version, Join(parts, '.'))
  {
    hide DispatchCmp, UpperBound, DispatchBelow, Join;
    var v := Join(parts, '.');
    DispatchCmpExactly(version, v);
    DispatchFlip(version, v);
    DispatchCmpExactly(version, UpperBound(v));
  }

  lemma DispatchFlip(a: string, b: string)
    ensures DispatchCmp(b, a) == DispatchCmp(a, b).Flip()
    ensures DispatchBelow(a, b) <==> DispatchCmp(a, b) == Less
    ensures DispatchBelow(b, a) <==> DispatchCmp(b, a) == Less
  {
    hide MixedCmp, DispatchBelow;
    MixedSwap(Segments(a), Segments(b));
    DispatchCmpExactly(a, b);
    DispatchCmpExactly(b, a);
  }

  /** One written clause, whatever blanks stand around its parts: it is valid,
      and matches exactly the versions its operator asks for. */
  lemma WrittenClause(before: string, op: string, blank: string, parts: seq<string>, behind: string, version: string)
    requires Written(op) && Blanks(before) && Blanks(blank) && Blanks(behind) && Numeric(parts) && (op == "" ==> blank == "")
    ensures var v := Join(parts, '.');
      var text := ClauseText(before, op, blank, v, behind);
      Valid(text) && (Matches(text, version) <==> Asks(op, version, v))
  {
    hide Trimmed, ReadClause, ValidClause, Join, HoldsFor, Split, Asks, ClauseText, White;
    var text := ClauseText(before, op, blank, Join(parts, '.'), behind);
    ClauseRead(before, op, blank, parts, behind);
    SplitWhole(text, IsComma);
    assert Clauses(text) == [Clause(OpOf(op), Join(parts, '.'))];
    assert Clauses(text)[0] in Clauses(text);
    ClauseAsks(op, parts, version);
  }

  // ---- the grammar, both ways ----------------------------------------------

  /** A clause as the grammar allows it. */
  ghost predicate WrittenAs(text: string, before: string, op: string, blank: string, parts: seq<string>, behind: string) {
    && Written(op) && Blanks(before) && Blanks(blank) && Blanks(behind) && Numeric(parts) && (op == "" ==> blank == "")
    && text == ClauseText(before, op, blank, Join(parts, '.'), behind)
  }

  ghost predicate IsWritten(text: string) {
    exists before, op, blank, parts, behind :: WrittenAs(text, before, op, blank, parts, behind)
  }

  lemma {:induction false} StartSplit(s: string) returns (blank: string)
    ensures Blanks(blank) && s == blank + TrimStart(s)
    ensures TrimStart(s) != "" ==> !White(TrimStart(s)[0])
  {
    hide White;
    if s != "" && White(s[0]) {
      var more := StartSplit(s[1..]);
      blank := [s[0]] + more;
      assert s == [s[0]] + s[1..];
      assert TrimStart(s) == TrimStart(s[1..]);
    } else {
      blank := "";
    }
  }

  lemma {:induction false} EndSplit(s: string) returns (blank: string)
    ensures Blanks(blank) && s == TrimEnd(s) + blank
    ensures TrimEnd(s) != "" ==> !White(TrimEnd(s)[|TrimEnd(s)| - 1])
  {
    hide White;
    if s != "" && White(s[|s| - 1]) {
      var more := EndSplit(s[..|s| - 1]);
      blank := more + [s[|s| - 1]];
      assert s == s[..|s| - 1] + [s[|s| - 1]];
      assert TrimEnd(s) == TrimEnd(s[..|s| - 1]);
    } else {
      blank := "";
    }
  }

  /** A text is its trimmed part between blanks. */
  lemma TrimSplit(s: string) returns (before: string, behind: string)
    ensures Blanks(before) && Blanks(behind) && s == before + Trimmed(s) + behind
    ensures var t := Trimmed(s); t != "" ==> !White(t[0]) && !White(t[|t| - 1])
  {
    hide White;
    before := StartSplit(s);
    behind := EndSplit(TrimStart(s));
    assert s == before + (Trimmed(s) + behind);
    if Trimmed(s) != "" {
      assert Trimmed(s)[0] == TrimStart(s)[0];
    }
  }

  lemma OperatorSplit(core: string) returns (op: string)
    ensures Written(op) && core == op + Stripped(core)
  {
    if ">=" <= core {
      op := ">=";
    } else if "<=" <= core {
      op := "<=";
    } else if "~>" <= core {
      op := "~>";
    } else if ">" <= core {
      op := ">";
    } else if "<" <= core {
      op := "<";
    } else if "!=" <= core {
      op := "!=";
    } else if "=" <= core {
      op := "=";
    } else {
      op := "";
    }
    assert core == op + core[|op|..];
  }

  lemma VersionIsNumeric(v: string)
    requires IsVersion(v)
    ensures Numeric(Segments(v)) && v == Join(Segments(v), '.')
  {
    JoinSplit(v, '.', IsDot);
  }

  lemma ValidIsWritten(text: string)
    requires ValidClause(Trimmed(text))
    ensures IsWritten(text)
  {
    hide White, Trimmed, Stripped, IsVersion, Numeric, Join, Segments;
    var before, behind := TrimSplit(text);
    var core := Trimmed(text);
    var op := OperatorSplit(core);
    var rest := Stripped(core);
    var blank, tail := TrimSplit(rest);
    var v := Trimmed(rest);
    VersionIsNumeric(v);
    VersionNotEmpty(v);
    assert core == op + (blank + v + tail);
    assert core == (op + (blank + v)) + tail;
    if tail != "" {
      EndsBlank(op + (blank + v), tail);
      assert false;
    }
    assert blank + v + tail == blank + v;
    if op == "" && blank != "" {
      StartsBlank(blank, v);
      assert false;
    }
    assert core == op + blank + v;
    assert WrittenAs(text, before, op, blank, Segments(v), behind);
  }

  lemma EndsBlank(front: string, blank: string)
    requires Blanks(blank) && blank != ""
    ensures White((front + blank)[|front + blank| - 1])
  {
    hide White;
  }

  lemma StartsBlank(blank: string, rest: string)
    requires Blanks(blank) && blank != ""
    ensures White(("" + (blank + rest))[0])
  {
    hide White;
  }

  lemma VersionNotEmpty(v: string)
    requires IsVersion(v)
    ensures v != ""
  {
    assert Segments("")[0] == "" && Segments(v)[0] != "";
  }

  ghost predicate AllWritten(clauses: seq<string>) {
    forall i :: 0 <= i < |clauses| ==> IsWritten(clauses[i])
  }

  /** A constraint is accepted exactly when every part between its commas is a written clause. */
  lemma ValidExactly(s: string)
    ensures Valid(s) <==> AllWritten(Split(s, IsComma))
  {
    hide White, Trimmed, ValidClause, IsWritten, Split;
    var clauses := Split(s, IsComma);
    if Valid(s) {
      forall i | 0 <= i < |clauses| ensures IsWritten(clauses[i]) {
        assert ValidClause(Trimmed(clauses[i]));
        WrittenExactly(clauses[i]);
      }
    }
    if AllWritten(clauses) {
      forall i | 0 <= i < |clauses| ensures ValidClause(Trimmed(clauses[i])) {
        assert IsWritten(clauses[i]);
        WrittenExactly(clauses[i]);
      }
      PartsNotBlank(s);
    }
  }

  lemma WrittenExactly(text: string)
    ensures IsWritten(text) <==> ValidClause(Trimmed(text))
  {
    hide White, Trimmed, Blanks, Numeric, Stripped, ReadClause, Join, ClauseText, ValidClause;
    if IsWritten(text) {
      var before, op, blank, parts, behind :| WrittenAs(text, before, op, blank, parts, behind);
      ClauseRead(before, op, blank, parts, behind);
    }
    if ValidClause(Trimmed(text)) {
      ValidIsWritten(text);
    }
  }

  /** A list is not blank: it is one clause, or has a comma. */
  lemma PartsNotBlank(s: string)
    requires forall i :: 0 <= i < |Split(s, IsComma)| ==> ValidClause(Trimmed(Split(s, IsComma)[i]))
    ensures Trimmed(s) != ""
  {
    hide White, Trimmed, Stripped, IsVersion;
    if k :| 0 <= k < |s| && s[k] == ',' {
      CommaStays(s, k);
    } else {
      assert Free(s, IsComma);
      SplitWhole(s, IsComma);
      assert Split(s, IsComma)[0] == s;
    }
  }

  // ---- lists ---------------------------------------------------------------

  /** A comma joins two constraints into one that asks for both. */
  lemma ListsJoin(clause: string, rest: string, version: string)
    requires ',' !in clause && Valid(clause)
    ensures Valid(rest) ==> Valid(clause + "," + rest)
    ensures Matches(clause + "," + rest, version) <==> Matches(clause, version) && Matches(rest, version)
  {
    hide Trimmed, ReadClause, ValidClause, HoldsFor, Split;
    var s := clause + "," + rest;
    SplitFront(clause, ',', rest, IsComma);
    SplitWhole(clause, IsComma);
    assert Split(s, IsComma) == Split(clause, IsComma) + Split(rest, IsComma);
    assert Clauses(s) == Clauses(clause) + Clauses(rest);
    ListNotBlank(clause, rest);
  }

  lemma ListNotBlank(clause: string, rest: string)
    requires Trimmed(clause) != ""
    ensures Trimmed(clause + "," + rest) != ""
  {
    hide White;
    CommaStays(clause + "," + rest, |clause|);
  }

  /** Trimming keeps every character that is not white. */
  lemma CommaStays(s: string, k: nat)
    requires k < |s| && s[k] == ','
    ensures Trimmed(s) != ""
  {
    hide White;
    CommaIsNotWhite();
    StartKeeps(s, k);
    var t := TrimStart(s);
    var i :| 0 <= i < |t| && t[i] == ',';
    EndKeeps(t, i);
  }

  lemma CommaIsNotWhite()
    ensures !White(',')
  {
  }

  lemma {:induction false} StartKeeps(s: string, k: nat)
    requires k < |s| && s[k] == ',' && !White(',')
    ensures ',' in TrimStart(s)
  {
    hide White;
    if White(s[0]) {
      StartKeeps(s[1..], k - 1);
      assert TrimStart(s) == TrimStart(s[1..]);
    } else {
      assert TrimStart(s)[k] == ',';
    }
  }

  lemma {:induction false} EndKeeps(s: string, k: nat)
    requires k < |s| && s[k] == ',' && !White(',')
    ensures TrimEnd(s) != ""
  {
    hide White;
    if White(s[|s| - 1]) {
      EndKeeps(s[..|s| - 1], k);
    }
  }
}
