/** The constraints of `requires:` edges: the grammar a manifest is checked
    against, the clause evaluator that reads what was checked, and when a
    version matches. */
module Constraints {
  import opened Wrappers
  import opened Text
  import opened Decimal
  import opened Versions
  import opened Dispatcher

  predicate IsComma(c: char) { c == ',' }

  /** `char::is_whitespace`. */
  predicate White(c: char) {
    || 9 <= c as int <= 13 || c as int in {0x20, 0x85, 0xA0, 0x1680, 0x2028, 0x2029, 0x202F, 0x205F, 0x3000}
    || 0x2000 <= c as int <= 0x200A
  }

  function TrimStart(s: string): string {
    if s != "" && White(s[0]) then TrimStart(s[1..]) else s
  }

  function TrimEnd(s: string): string {
    if s != "" && White(s[|s| - 1]) then TrimEnd(s[..|s| - 1]) else s
  }

  function Trimmed(s: string): string { TrimEnd(TrimStart(s)) }

  // ---- the grammar ---------------------------------------------------------

  /** The clause behind the first operator of the list that it starts with. */
  function Stripped(clause: string): string {
    if ">=" <= clause || "<=" <= clause || "~>" <= clause then clause[2..]
    else if ">" <= clause || "<" <= clause then clause[1..]
    else if "!=" <= clause then clause[2..]
    else if "=" <= clause then clause[1..]
    else clause
  }

  predicate IsVersion(v: string) {
    var parts := Segments(v);
    |parts| <= 4 && forall i :: 0 <= i < |parts| ==> parts[i] != "" && AllDigits(parts[i])
  }

  predicate ValidClause(clause: string) {
    clause != "" && IsVersion(Trimmed(Stripped(clause)))
  }

  /** What the manifest model accepts as a constraint. */
  predicate Valid(s: string) {
    && Trimmed(s) != ""
    && forall i :: 0 <= i < |Split(s, IsComma)| ==> ValidClause(Trimmed(Split(s, IsComma)[i]))
  }

  /** The check, clause by clause. */
  method CheckConstraint(s: string) returns (ok: bool)
    ensures ok == Valid(s)
  {
    hide Trimmed, ValidClause;
    if Trimmed(s) == "" {
      return false;
    }
    var clauses := Split(s, IsComma);
    for i := 0 to |clauses|
      invariant forall j :: 0 <= j < i ==> ValidClause(Trimmed(clauses[j]))
    {
      if !ValidClause(Trimmed(clauses[i])) {
        return false;
      }
    }
    return true;
  }

  // ---- the evaluator -------------------------------------------------------

  datatype Clause = Clause(op: Op, version: string)

  /** One clause of a constraint, by its operator prefix. */
  function ReadClause(part: string): Clause {
    if "~>" <= part then Clause(Pess, Trimmed(part[2..]))
    else if ">=" <= part then Clause(Ge, Trimmed(part[2..]))
    else if "<=" <= part then Clause(Le, Trimmed(part[2..]))
    else if "!=" <= part then Clause(NotEq, Trimmed(part[2..]))
    else if "=" <= part then Clause(Eq, Trimmed(if "==" <= part then part[2..] else part[1..]))
    else if ">" <= part then Clause(Gt, Trimmed(part[1..]))
    else if "<" <= part then Clause(Lt, Trimmed(part[1..]))
    else Clause(Eq, Trimmed(part))
  }

  function Clauses(s: string): (c: seq<Clause>)
    ensures |c| == |Split(s, IsComma)|
  {
    var parts := Split(s, IsComma);
    seq(|parts|, i requires 0 <= i < |parts| => ReadClause(Trimmed(parts[i])))
  }

  /** The clause loop of the evaluator. */
  method SplitClauses(s: string) returns (c: seq<Clause>)
    ensures c == Clauses(s)
  {
    hide ReadClause, Trimmed;
    c := [];
    var parts := Split(s, IsComma);
    for i := 0 to |parts|
      invariant c == Clauses(s)[..i]
    {
      c := c + [ReadClause(Trimmed(parts[i]))];
    }
  }

  predicate HoldsFor(c: Clause, version: string) {
    var ord := DispatchCmp(version, c.version);
    match c.op
    case Eq => ord == Equal
    case NotEq => ord != Equal
    case Gt => ord == Greater
    case Ge => ord != Less
    case Lt => ord == Less
    case Le => ord != Greater
    case Pess => ord != Less && DispatchCmp(version, UpperBound(c.version)) == Less
  }

  predicate Matches(s: string, version: string) {
    forall c :: c in Clauses(s) ==> HoldsFor(c, version)
  }

  method EvaluateConstraint(s: string, version: string) returns (r: bool)
    ensures r == Matches(s, version)
  {
    hide DispatchCmp, UpperBound, ReadClause, Clauses;
    var clauses := SplitClauses(s);
    for i := 0 to |clauses|
      invariant forall j :: 0 <= j < i ==> HoldsFor(clauses[j], version)
    {
      var held := EvaluateClause(clauses[i], version);
      if !held {
        return false;
      }
    }
    return true;
  }

  method EvaluateClause(c: Clause, version: string) returns (r: bool)
    ensures r == HoldsFor(c, version)
  {
    hide DispatchCmp, UpperBound;
    var ord := CompareDispatch(version, c.version);
    match c.op {
      case Eq => r := ord == Equal;
      case NotEq => r := ord != Equal;
      case Gt => r := ord == Greater;
      case Ge => r := ord != Less;
      case Lt => r := ord == Less;
      case Le => r := ord != Greater;
      case Pess =>
        var upper := PessimisticUpper(c.version);
        var below := CompareDispatch(version, upper);
        r := ord != Less && below == Less;
    }
  }

  /** The bound as the dispatcher builds it: parse, drop the last of several, bump the new last, print. */
  method PessimisticUpper(v: string) returns (s: string)
    ensures s == UpperBound(v)
  {
    hide NumberOf, DecText;
    var segs := Segments(v);
    var parts: seq<nat> := seq(|segs|, i requires 0 <= i < |segs| => NumberOf(segs[i]));
    if |parts| > 1 {
      parts := parts[..|parts| - 1];
    }
    var last := |parts| - 1;
    parts := parts[last := (parts[last] + 1) % U64];
    PrintedUpper(segs, Fixed(segs), parts);
    s := Join(Printed(parts), '.');
  }

  // ---- what was checked is what is read ------------------------------------

  /** A text that starts with `=` starts with it when it is trimmed, so it is no version. */
  lemma SignIsNoVersion(s: string)
    requires s != "" && s[0] == '='
    ensures !IsVersion(Trimmed(s))
  {
    hide Split;
    assert TrimStart(s) == s;
    var t := Trimmed(s);
    EndKeepsFirst(s);
    FirstSegmentStarts(t);
  }

  lemma {:induction false} EndKeepsFirst(s: string)
    requires s != "" && !White(s[0])
    ensures TrimEnd(s) != "" && TrimEnd(s)[0] == s[0]
  {
    if White(s[|s| - 1]) {
      EndKeepsFirst(s[..|s| - 1]);
    }
  }

  lemma FirstSegmentStarts(t: string)
    requires t != "" && t[0] == '='
    ensures Segments(t)[0] != "" && Segments(t)[0][0] == '='
  {
  }

  /** The evaluator reads exactly the version that the grammar checked: the two
      strip the same operator off every valid clause. So every clause has one
      to four decimal segments. */
  lemma ReadsWhatWasChecked(part: string)
    requires ValidClause(part)
    ensures ReadClause(part).version == Trimmed(Stripped(part)) && IsVersion(ReadClause(part).version)
  {
    hide IsVersion, Trimmed;
    if "==" <= part {
      assert "=" <= part && part[1..][0] == '=';
      SignIsNoVersion(part[1..]);
    }
  }

  lemma ClausesAreDecimal(s: string, i: nat)
    requires Valid(s) && i < |Clauses(s)|
    ensures IsVersion(Clauses(s)[i].version)
  {
    hide IsVersion, ReadClause, Stripped, Trimmed;
    ReadsWhatWasChecked(Trimmed(Split(s, IsComma)[i]));
  }

  // ---- the pessimistic clause ----------------------------------------------

  predicate AllNumbers(segs: seq<string>) {
    forall i :: 0 <= i < |segs| ==> Number(segs[i])
  }

  /** On versions of numbers the dispatcher's comparison is the scenario's. */
  lemma {:induction false} NumericAgrees(a: seq<string>, b: seq<string>)
    requires AllNumbers(a) && AllNumbers(b)
    ensures MixedCmp(a, b) == CmpSegs(a, b)
    decreases |a| + |b|
  {
    ZeroIsNumber();
    if a != [] || b != [] {
      NumericAgrees(Tail(a), Tail(b));
    }
  }

  lemma {:induction false} UpperIsNumeric(segs: seq<string>, m: nat)
    requires 0 < m <= |segs|
    ensures AllNumbers(Upper(segs, m))
  {
    hide DecText, ParseU64;
    ParsePrinted((NumberOf(segs[0]) + 1) % U64);
    ParsePrinted(NumberOf(segs[0]));
    if m > 1 {
      UpperIsNumeric(segs[1..], m - 1);
    }
  }

  /** Where version and clause are numbers, `~> v` is the scenario's requirement:
      at least v and equal to v on all segments but the last, when the last of
      those can be bumped. */
  lemma PessimisticClause(v: string, version: string)
    requires AllNumbers(Segments(v)) && AllNumbers(Segments(version))
    ensures HoldsFor(Clause(Pess, v), version) <==> Pessimistic(version, v)
    ensures Bumpable(Segments(v), Fixed(Segments(v))) ==>
      (HoldsFor(Clause(Pess, v), version) <==> VersionCmp(version, v) != Less && Agrees(version, v))
  {
    hide MixedCmp, CmpSegs, Upper, Bumpable, AgreeOn, UpperBound, Number, Segments;
    UpperSegments(v);
    UpperIsNumeric(Segments(v), Fixed(Segments(v)));
    NumericAgrees(Segments(version), Segments(v));
    NumericAgrees(Segments(version), Segments(UpperBound(v)));
    PessimisticIsPrefix(v);
  }

  // ---- constraints as manifests hold them ----------------------------------

  /** One plain clause: an operator of two characters, a blank and a number. */
  lemma PlainClause(op: string, n: string)
    requires |op| == 2 && n != "" && AllDigits(n) && Free(op, IsComma) && !White(op[0])
    ensures Split(op + " " + n, IsComma) == [op + " " + n]
    ensures Trimmed(op + " " + n) == op + " " + n && Trimmed(" " + n) == n
    ensures (op + " " + n)[2..] == " " + n && IsVersion(n)
  {
    hide Split;
    var s := op + " " + n;
    assert forall k :: 0 <= k < |n| ==> s[3 + k] == n[k];
    assert Free(s, IsComma);
    SplitWhole(s, IsComma);
    assert " " + n != "" && (" " + n)[0] == ' ' && (" " + n)[1..] == n;
    assert TrimStart(n) == n;
    SplitWhole(n, IsDot);
  }

  function AtLeast(n: string): string { ">= " + n }

  function NotAbove(n: string): string { "<= " + n }

  lemma AtLeastIs(n: string)
    requires n != "" && AllDigits(n)
    ensures Valid(AtLeast(n)) && Clauses(AtLeast(n)) == [Clause(Ge, n)]
    ensures Valid(NotAbove(n)) && Clauses(NotAbove(n)) == [Clause(Le, n)]
  {
    hide Split, Trimmed, IsVersion;
    assert AtLeast(n) == ">=" + " " + n && NotAbove(n) == "<=" + " " + n;
    PlainClause(">=", n);
    PlainClause("<=", n);
  }

  function AnyVersion(): (s: string)
    ensures Valid(s)
  {
    AtLeastIs("0");
    AtLeast("0")
  }

  /** A constraint that passed the check. */
  type Constraint = s: string | Valid(s) witness AnyVersion()

  /** `>= n` admits exactly the versions not below n. */
  lemma AtLeastMatches(n: string, version: string)
    requires n != "" && AllDigits(n)
    ensures Valid(AtLeast(n)) && Valid(NotAbove(n))
    ensures Matches(AtLeast(n), version) <==> DispatchCmp(version, n) != Less
    ensures Matches(NotAbove(n), version) <==> DispatchCmp(version, n) != Greater
  {
    hide Clauses, AtLeast, NotAbove, DispatchCmp;
    AtLeastIs(n);
    assert Clause(Ge, n) in Clauses(AtLeast(n)) && Clause(Le, n) in Clauses(NotAbove(n));
  }
}
