/** Splitting text at separators and joining it again. */
module Text {

  /** The parts between separator characters; always at least one. */
  function Split(s: string, isSep: char -> bool): (r: seq<string>)
    ensures |r| > 0
  {
    if s == "" then [""]
    else
      var r := Split(s[1..], isSep);
      if isSep(s[0]) then [""] + r else [[s[0]] + r[0]] + r[1..]
  }

  function Join(parts: seq<string>, sep: char): string {
    if parts == [] then ""
    else if |parts| == 1 then parts[0]
    else parts[0] + [sep] + Join(parts[1..], sep)
  }

  ghost predicate Free(s: string, isSep: char -> bool) {
    forall k :: 0 <= k < |s| ==> !isSep(s[k])
  }

  ghost predicate AllFree(parts: seq<string>, isSep: char -> bool) {
    forall i :: 0 <= i < |parts| ==> Free(parts[i], isSep)
  }

  /** No part contains a separator. */
  lemma {:induction false} SplitIsFree(s: string, isSep: char -> bool)
    ensures AllFree(Split(s, isSep), isSep)
  {
    if s != "" {
      SplitIsFree(s[1..], isSep);
    }
  }

  /** A separator-free text in front of a separator is the first part. */
  lemma {:induction false} SplitFront(a: string, sep: char, rest: string, isSep: char -> bool)
    requires Free(a, isSep) && isSep(sep)
    ensures Split(a + [sep] + rest, isSep) == [a] + Split(rest, isSep)
  {
    var s := a + [sep] + rest;
    if a == "" {
      assert s[1..] == rest;
    } else {
      assert s[1..] == a[1..] + [sep] + rest;
      SplitFront(a[1..], sep, rest, isSep);
      assert [a[0]] + a[1..] == a;
    }
  }

  lemma {:induction false} SplitWhole(a: string, isSep: char -> bool)
    requires Free(a, isSep)
    ensures Split(a, isSep) == [a]
  {
    if a != "" {
      SplitWhole(a[1..], isSep);
      assert [a[0]] + a[1..] == a;
    }
  }

  /** Splitting undoes joining of separator-free parts. */
  lemma {:induction false} SplitJoin(parts: seq<string>, sep: char, isSep: char -> bool)
    requires parts != [] && AllFree(parts, isSep) && isSep(sep)
    ensures Split(Join(parts, sep), isSep) == parts
  {
    if |parts| == 1 {
      SplitWhole(parts[0], isSep);
    } else {
      SplitJoin(parts[1..], sep, isSep);
      SplitFront(parts[0], sep, Join(parts[1..], sep), isSep);
    }
  }

  /** Joining undoes splitting at a single separator. */
  lemma {:induction false} JoinSplit(s: string, sep: char, isSep: char -> bool)
    requires forall c :: isSep(c) <==> c == sep
    ensures Join(Split(s, isSep), sep) == s
  {
    if s != "" {
      JoinSplit(s[1..], sep, isSep);
      var r := Split(s[1..], isSep);
      if isSep(s[0]) {
        assert ([""] + r)[1..] == r;
      } else if |r| > 1 {
        assert ([[s[0]] + r[0]] + r[1..])[1..] == r[1..];
      }
    }
  }

  /** Splitting and joining bring in no character of their own but the separator. */
  lemma {:induction false} SplitKeepsFree(s: string, isSep: char -> bool, bad: char -> bool)
    requires Free(s, bad)
    ensures AllFree(Split(s, isSep), bad)
  {
    if s != "" {
      SplitKeepsFree(s[1..], isSep, bad);
    }
  }

  lemma {:induction false} JoinKeepsFree(parts: seq<string>, sep: char, bad: char -> bool)
    requires AllFree(parts, bad) && !bad(sep)
    ensures Free(Join(parts, sep), bad)
  {
    if |parts| > 1 {
      JoinKeepsFree(parts[1..], sep, bad);
    }
  }

  lemma {:induction false} JoinSnoc(parts: seq<string>, last: string, sep: char)
    ensures Join(parts + [last], sep) == (if parts != [] then Join(parts, sep) + [sep] else "") + last
  {
    if |parts| > 1 {
      JoinSnoc(parts[1..], last, sep);
      assert (parts + [last])[1..] == parts[1..] + [last];
    }
  }
}
