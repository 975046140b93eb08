/** The runtime reference: printed by `press`, read by three separate scanners
    of the bootstrap. */
module RuntimeRef {
  import opened Wrappers
  import opened Text

  datatype Ref = Ref(ty: string, version: string, abi: string)

  predicate IsAt(s: string, pat: string, i: nat) {
    i + |pat| <= |s| && s[i..i + |pat|] == pat
  }

  /** `str::find`: the first occurrence, or -1. */
  function Find(s: string, pat: string): (r: int)
    ensures r >= 0 ==> IsAt(s, pat, r)
    ensures forall i: nat :: i < (if r >= 0 then r else |s| + 1) ==> !IsAt(s, pat, i)
  {
    if IsAt(s, pat, 0) then 0
    else if s == "" then -1
    else
      var r := Find(s[1..], pat);
      FindShift(s, pat, r);
      if r < 0 then r else r + 1
  }

  /** What is first in the tail is first in the whole, one place later. */
  lemma FindShift(s: string, pat: string, r: int)
    requires s != "" && !IsAt(s, pat, 0) && (r >= 0 ==> IsAt(s[1..], pat, r))
    requires forall i: nat :: i < (if r >= 0 then r else |s|) ==> !IsAt(s[1..], pat, i)
    ensures r >= 0 ==> IsAt(s, pat, r + 1)
    ensures forall i: nat :: i < (if r >= 0 then r + 1 else |s| + 1) ==> !IsAt(s, pat, i)
  {
    hide IsAt;
    if r >= 0 {
      ShiftAt(s, pat, r);
    }
    forall i: nat | i < (if r >= 0 then r + 1 else |s| + 1) ensures !IsAt(s, pat, i) {
      if i > 0 {
        ShiftAt(s, pat, i - 1);
      }
    }
  }

  lemma ShiftAt(s: string, pat: string, i: nat)
    requires s != ""
    ensures IsAt(s, pat, i + 1) <==> IsAt(s[1..], pat, i)
  {
    if i + 1 + |pat| <= |s| {
      assert s[1..][i..i + |pat|] == s[i + 1..i + 1 + |pat|];
    }
  }

  lemma FindIs(s: string, pat: string, n: nat)
    requires IsAt(s, pat, n) && forall i: nat :: i < n ==> !IsAt(s, pat, i)
    ensures Find(s, pat) == n
  {
    var r := Find(s, pat);
    if r < 0 || r > n {
      assert false;
    }
  }

  predicate IsSemi(c: char) { c == ';' }

  /** Characters a component must not have: it becomes part of a path and of a URL. */
  predicate Forbidden(c: char) {
    c == '/' || c == '\\' || c == ' ' || c == '\t' || c == '\r' || c == '\n'
  }

  predicate Clean(s: string) {
    s != "" && forall k :: 0 <= k < |s| ==> !Forbidden(s[k])
  }

  const ABI_KEY: string := ";tebako="

  /** The type, version and abi of a reference. */
  function ParseRef(s: string): Option<Ref> {
    var at := Find(s, "@");
    if at <= 0 then None
    else
      var tail := s[at + 1..];
      var semi := Find(tail, ABI_KEY);
      if semi <= 0 then None
      else
        var r := Ref(s[..at], tail[..semi], Split(tail[semi + 8..], IsSemi)[0]);
        if Clean(r.ty) && Clean(r.version) && Clean(r.abi) then Some(r) else None
  }

  /** `s` is the three components and a rest that starts a further parameter. */
  ghost predicate Decomposes(s: string, r: Ref, rest: string) {
    && s == r.ty + "@" + (r.version + ABI_KEY + (r.abi + rest))
    && (rest == "" || rest[0] == ';')
    && Clean(r.ty) && Clean(r.version) && Clean(r.abi)
    && (forall k :: 0 <= k < |r.ty| ==> r.ty[k] != '@')
    && (forall i: nat :: !IsAt(r.version, ABI_KEY, i))
    && Free(r.abi, IsSemi)
  }

  lemma FindSign(ty: string, tail: string)
    requires forall k :: 0 <= k < |ty| ==> ty[k] != '@'
    ensures Find(ty + "@" + tail, "@") == |ty|
  {
    var s := ty + "@" + tail;
    forall i: nat | i < |ty| ensures !IsAt(s, "@", i) {
      assert s[i] == ty[i];
    }
    assert s[|ty|..|ty| + 1] == "@";
    FindIs(s, "@", |ty|);
  }

  /** A key that starts with its only semicolon does not reach across the end of a text in front of it. */
  lemma KeyStaysInside(before: string, key: string, after: string, i: nat)
    requires key != "" && key[0] == ';' && forall k :: 0 < k < |key| ==> key[k] != ';'
    requires i < |before| && IsAt(before + key + after, key, i)
    ensures IsAt(before, key, i)
  {
    var s := before + key + after;
    var found := s[i..i + |key|];
    if i + |key| > |before| {
      KeyStraddles(before, key, after, i);
    }
    assert found == before[i..i + |key|];
  }

  /** An occurrence over the end of the text in front would need a second semicolon in the key. */
  lemma KeyStraddles(before: string, key: string, after: string, i: nat)
    requires key != "" && key[0] == ';' && forall k :: 0 < k < |key| ==> key[k] != ';'
    requires i < |before| < i + |key|
    ensures !IsAt(before + key + after, key, i)
  {
    var s := before + key + after;
    if i + |key| <= |s| {
      assert s[i..i + |key|][|before| - i] == s[|before|] == ';';
    }
  }

  lemma FindKey(before: string, key: string, after: string)
    requires key != "" && key[0] == ';' && forall k :: 0 < k < |key| ==> key[k] != ';'
    requires forall i: nat :: !IsAt(before, key, i)
    ensures Find(before + key + after, key) == |before|
  {
    hide IsAt;
    var s := before + key + after;
    forall i: nat | i < |before| ensures !IsAt(s, key, i) {
      if IsAt(s, key, i) {
        KeyStaysInside(before, key, after, i);
      }
    }
    KeyIsThere(before, key, after);
    FindIs(s, key, |before|);
  }

  lemma KeyIsThere(before: string, key: string, after: string)
    ensures IsAt(before + key + after, key, |before|)
  {
  }

  lemma {:induction false} FirstSegment(a: string, rest: string)
    requires Free(a, IsSemi) && (rest == "" || rest[0] == ';')
    ensures Split(a + rest, IsSemi)[0] == a
  {
    hide Split;
    if rest == "" {
      assert a + rest == a;
      SplitWhole(a, IsSemi);
    } else {
      assert a + rest == a + [';'] + rest[1..];
      SplitFront(a, ';', rest[1..], IsSemi);
    }
  }

  /** The parser's answer on a decomposed reference. */
  lemma ParsesDecomposed(s: string, r: Ref, rest: string)
    requires Decomposes(s, r, rest)
    ensures ParseRef(s) == Some(r)
  {
    hide Split, Find, Clean;
    var tail := r.version + ABI_KEY + (r.abi + rest);
    FindSign(r.ty, tail);
    assert s[..|r.ty|] == r.ty && s[|r.ty| + 1..] == tail;
    FindKey(r.version, ABI_KEY, r.abi + rest);
    assert tail[..|r.version|] == r.version && tail[|r.version| + 8..] == r.abi + rest;
    FirstSegment(r.abi, rest);
    NotEmpty(r.ty);
    NotEmpty(r.version);
  }

  lemma NotEmpty(s: string)
    requires Clean(s)
    ensures |s| > 0
  {
  }

  /** What is behind the first segment starts with the separator, or is nothing. */
  lemma {:induction false} SegmentRest(s: string) returns (rest: string)
    ensures s == Split(s, IsSemi)[0] + rest && (rest == "" || rest[0] == ';')
    ensures Free(Split(s, IsSemi)[0], IsSemi)
  {
    SplitIsFree(s, IsSemi);
    if s == "" || s[0] == ';' {
      rest := s;
    } else {
      rest := SegmentRest(s[1..]);
      assert s == [s[0]] + s[1..];
    }
  }

  /** Where the parser finds the sign and the key of an accepted reference. */
  lemma AcceptedPlaces(s: string) returns (at: nat, semi: nat)
    requires ParseRef(s).Some?
    ensures at < |s| && Find(s, "@") == at && Find(s[at + 1..], ABI_KEY) == semi && semi + 8 <= |s[at + 1..]|
    ensures var r, tail := ParseRef(s).value, s[at + 1..];
      && r.ty == s[..at] && r.version == tail[..semi] && r.abi == Split(tail[semi + 8..], IsSemi)[0]
      && Clean(r.ty) && Clean(r.version) && Clean(r.abi)
  {
    hide Split, Clean;
    at, semi := Find(s, "@"), Find(s[Find(s, "@") + 1..], ABI_KEY);
  }

  /** An accepted reference decomposes into clean components. */
  lemma AcceptedDecomposes(s: string) returns (rest: string)
    requires ParseRef(s).Some?
    ensures Decomposes(s, ParseRef(s).value, rest)
  {
    hide Split, Clean, ParseRef, Free, Find;
    var at, semi := AcceptedPlaces(s);
    var tail := s[at + 1..];
    var r := ParseRef(s).value;
    rest := SegmentRest(tail[semi + 8..]);
    assert s == s[..at] + "@" + tail by {
      assert s[at..at + 1] == "@";
    }
    assert tail == tail[..semi] + ABI_KEY + tail[semi + 8..];
    Rejoined(s, r, rest, tail);
    forall k | 0 <= k < at ensures r.ty[k] != '@' {
      NotAt(s, k);
    }
    forall i: nat ensures !IsAt(r.version, ABI_KEY, i) {
      PrefixOccurrence(tail, semi, ABI_KEY, i);
    }
  }

  lemma Rejoined(s: string, r: Ref, rest: string, tail: string)
    requires s == r.ty + "@" + tail && tail == r.version + ABI_KEY + (r.abi + rest)
    ensures s == r.ty + "@" + (r.version + ABI_KEY + (r.abi + rest))
  {
  }

  lemma NotAt(s: string, k: nat)
    requires k < |s| && !IsAt(s, "@", k)
    ensures s[k] != '@'
  {
    assert s[k..k + 1] == [s[k]];
  }

  /** An occurrence in the text in front of position `n` is one in the whole text, before `n`. */
  lemma PrefixOccurrence(s: string, n: nat, key: string, i: nat)
    requires n <= |s| && key != ""
    ensures IsAt(s[..n], key, i) ==> i < n && IsAt(s, key, i)
  {
    if i + |key| <= n {
      assert s[..n][i..i + |key|] == s[i..i + |key|];
    }
  }

  /** The parser accepts exactly the references that decompose, and returns their components. */
  lemma ParserIsExact(s: string, r: Ref)
    ensures ParseRef(s) == Some(r) <==> exists rest :: Decomposes(s, r, rest)
  {
    hide ParseRef, Decomposes;
    if ParseRef(s) == Some(r) {
      var rest := AcceptedDecomposes(s);
      assert Decomposes(s, r, rest);
    }
    if rest :| Decomposes(s, r, rest) {
      ParsesDecomposed(s, r, rest);
    }
  }

  // ---- the two other scanners ----------------------------------------------

  const SHA_KEY: string := ";sha256="

  predicate LowerHex(c: char) { '0' <= c <= '9' || 'a' <= c <= 'f' }

  predicate IsDigest(h: string) {
    |h| == 64 && forall k :: 0 <= k < 64 ==> LowerHex(h[k])
  }

  /** The digest at the start of `tail`, when nothing but a further parameter follows it. */
  function DigestAt(tail: string): Option<string> {
    if |tail| < 64 || !IsDigest(tail[..64]) then None
    else if |tail| == 64 || tail[64] == ';' then Some(tail[..64])
    else None
  }

  function RefSha(s: string): Option<string> {
    var p := Find(s, SHA_KEY);
    if p < 0 then None else DigestAt(s[p + 8..])
  }

  predicate WantsImage(s: string) {
    "image" in Split(s, IsSemi)
  }

  // ---- the printer ---------------------------------------------------------

  /** `press` builds the reference by appends. */
  method Press(version: string, abi: string, image: bool, sha: Option<string>) returns (s: string)
    ensures s == PrintRef(version, abi, image, sha)
  {
    s := "ruby@" + version + ";tebako=" + abi;
    if image {
      s := s + ";image";
    }
    if sha.Some? {
      s := s + ";sha256=" + sha.value;
    }
  }

  function ShaPart(sha: Option<string>): string {
    if sha.Some? then SHA_KEY + sha.value else ""
  }

  function Front(version: string, abi: string, image: bool): string {
    "ruby@" + version + ";tebako=" + abi + (if image then ";image" else "")
  }

  function PrintRef(version: string, abi: string, image: bool, sha: Option<string>): string {
    Front(version, abi, image) + ShaPart(sha)
  }

  /** The parser recovers what was printed exactly when the components are
      clean, the version does not hold the abi key and the abi no semicolon. */
  lemma PrintedParses(version: string, abi: string, image: bool, sha: Option<string>)
    ensures ParseRef(PrintRef(version, abi, image, sha)) == Some(Ref("ruby", version, abi))
      <==> Clean(version) && Clean(abi) && (forall i: nat :: !IsAt(version, ABI_KEY, i)) && Free(abi, IsSemi)
  {
    hide ParseRef, Clean, PrintRef, IsAt, Free;
    var s, r := PrintRef(version, abi, image, sha), Ref("ruby", version, abi);
    var rest := PrintedRest(version, abi, image, sha);
    RubyIsClean();
    ParserIsExact(s, r);
    if Clean(version) && Clean(abi) && (forall i: nat :: !IsAt(version, ABI_KEY, i)) && Free(abi, IsSemi) {
      assert Decomposes(s, r, rest);
    }
  }

  lemma PrintedRest(version: string, abi: string, image: bool, sha: Option<string>) returns (rest: string)
    ensures PrintRef(version, abi, image, sha) == "ruby" + "@" + (version + ABI_KEY + (abi + rest))
    ensures rest == "" || rest[0] == ';'
  {
    rest := (if image then ";image" else "") + ShaPart(sha);
    assert "ruby@" == "ruby" + "@";
    Associate("ruby@", version, ABI_KEY, abi, if image then ";image" else "", ShaPart(sha));
  }

  lemma Associate(a: string, b: string, c: string, d: string, e: string, f: string)
    ensures a + b + c + d + e + f == a + (b + c + (d + (e + f)))
  {
  }

  lemma RubyIsClean()
    ensures Clean("ruby") && forall k :: 0 <= k < 4 ==> "ruby"[k] != '@'
  {
    var s := "ruby";
    assert s[0] == 'r' && s[1] == 'u' && s[2] == 'b' && s[3] == 'y';
  }

  // ---- what the image scanner reads of a printed reference -----------------

  /** Splitting a text with a separator in it: its front and its rest, each split. */
  lemma {:induction false} SplitAppend(a: string, rest: string)
    ensures Split(a + ";" + rest, IsSemi) == Split(a, IsSemi) + Split(rest, IsSemi)
  {
    var s := a + ";" + rest;
    if a == "" {
      assert s[1..] == rest;
    } else {
      assert s[1..] == a[1..] + ";" + rest;
      SplitAppend(a[1..], rest);
    }
  }

  /** A semicolon-free text in front goes to the first segment. */
  lemma {:induction false} SplitPrefix(a: string, b: string)
    requires Free(a, IsSemi)
    ensures Split(a + b, IsSemi) == [a + Split(b, IsSemi)[0]] + Split(b, IsSemi)[1..]
  {
    if a == "" {
      var r := Split(b, IsSemi);
      assert a + b == b && a + r[0] == r[0] && r == [r[0]] + r[1..];
    } else {
      assert (a + b)[1..] == a[1..] + b;
      SplitPrefix(a[1..], b);
      assert [a[0]] + (a[1..] + Split(b, IsSemi)[0]) == a + Split(b, IsSemi)[0];
    }
  }

  /** Behind a key that does not start the word "image", only later segments can be the word. */
  lemma ImageBehind(key: string, b: string)
    requires key != "" && key[0] != 'i' && Free(key, IsSemi)
    ensures "image" in Split(key + b, IsSemi) <==> "image" in Split(b, IsSemi)[1..]
  {
    hide Split;
    SplitPrefix(key, b);
    var first := key + Split(b, IsSemi)[0];
    assert first[0] == key[0] && "image"[0] == 'i';
  }

  /** The image flag is read back exactly when it was printed, or neither the
      version nor what stands for the digest has a segment of that name behind its first. */
  lemma PrintedImage(version: string, abi: string, image: bool, sha: Option<string>)
    requires Free(abi, IsSemi)
    ensures WantsImage(PrintRef(version, abi, image, sha)) == image <==>
      image || ("image" !in Split(version, IsSemi)[1..] && (sha.Some? ==> "image" !in Split(sha.value, IsSemi)[1..]))
  {
    hide Split;
    var head, mid, s := "ruby@" + version, "tebako=" + abi, PrintRef(version, abi, image, sha);
    ImageBehind("ruby@", version);
    ImageBehind("tebako=", abi);
    SplitWhole(abi, IsSemi);
    PrintedSplits(version, abi, image, sha);
    if sha.Some? {
      ImageBehind("sha256=", sha.value);
    }
  }

  /** A further parameter, or none. */
  lemma SplitThen(front: string, part: string, there: bool)
    ensures Split(front + (if there then ";" + part else ""), IsSemi)
      == Split(front, IsSemi) + (if there then Split(part, IsSemi) else [])
  {
    hide Split;
    if there {
      assert front + (";" + part) == front + ";" + part;
      SplitAppend(front, part);
    } else {
      assert front + "" == front && Split(front, IsSemi) + [] == Split(front, IsSemi);
    }
  }

  /** The segments of a printed reference. */
  lemma PrintedSplits(version: string, abi: string, image: bool, sha: Option<string>)
    ensures Split(PrintRef(version, abi, image, sha), IsSemi) ==
      Split("ruby@" + version, IsSemi) + Split("tebako=" + abi, IsSemi) + (if image then ["image"] else [])
      + (if sha.Some? then Split("sha256=" + sha.value, IsSemi) else [])
  {
    hide Split;
    var a, b := "ruby@" + version, "tebako=" + abi;
    var two := a + ";" + b;
    var three := two + (if image then ";" + "image" else "");
    var part := if sha.Some? then "sha256=" + sha.value else "";
    PrintedParts(version, abi, image, sha);
    SplitAppend(a, b);
    SplitThen(two, "image", image);
    SplitWhole("image", IsSemi);
    SplitThen(three, part, sha.Some?);
  }

  lemma PrintedParts(version: string, abi: string, image: bool, sha: Option<string>)
    ensures PrintRef(version, abi, image, sha) ==
      "ruby@" + version + ";" + ("tebako=" + abi) + (if image then ";" + "image" else "")
      + (if sha.Some? then ";" + ("sha256=" + sha.value) else "")
  {
    assert ";tebako=" == ";" + "tebako=" && ";image" == ";" + "image" && SHA_KEY == ";" + "sha256=";
    assert "ruby@" + version + ";tebako=" + abi == "ruby@" + version + ";" + ("tebako=" + abi);
    if sha.Some? {
      assert SHA_KEY + sha.value == ";" + ("sha256=" + sha.value);
    }
  }

  // ---- what the digest scanner reads of a printed reference ----------------

  /** A key with one leading semicolon does not reach across another semicolon. */
  lemma KeyStops(before: string, rest: string, key: string, i: nat)
    requires key != "" && key[0] == ';' && forall k :: 0 < k < |key| ==> key[k] != ';'
    requires rest != "" && rest[0] == ';' && i < |before|
    ensures IsAt(before + rest, key, i) <==> IsAt(before, key, i)
  {
    var s := before + rest;
    if i + |key| <= |before| {
      assert s[i..i + |key|] == before[i..i + |key|];
    } else if i + |key| <= |s| {
      assert s[i..i + |key|][|before| - i] == s[|before|] == ';';
    }
  }

  /** In front of the version there is no semicolon. */
  lemma KeyBehind(front: string, version: string, key: string, i: nat)
    requires key != "" && key[0] == ';' && Free(front, IsSemi)
    ensures IsAt(front + version, key, i) <==> i >= |front| && IsAt(version, key, i - |front|)
  {
    var s := front + version;
    if i + |key| <= |s| {
      if i < |front| {
        assert s[i..i + |key|][0] == front[i];
      } else {
        assert s[i..i + |key|] == version[i - |front|..i - |front| + |key|];
      }
    }
  }

  /** A version that holds the digest key is scanned as if nothing followed it. */
  lemma VersionScanned(version: string, rest: string)
    requires Find(version, SHA_KEY) >= 0 && rest != "" && rest[0] == ';'
    ensures RefSha("ruby@" + version + rest) == RefSha(version)
  {
    hide Find, IsAt;
    var head, s, p := "ruby@" + version, "ruby@" + version + rest, Find(version, SHA_KEY);
    KeyFits(version, SHA_KEY, p);
    forall i: nat | i <= 5 + p ensures IsAt(s, SHA_KEY, i) <==> i >= 5 && IsAt(version, SHA_KEY, i - 5) {
      KeyStops(head, rest, SHA_KEY, i);
      KeyBehind("ruby@", version, SHA_KEY, i);
    }
    FindIs(s, SHA_KEY, 5 + p);
    assert s[5 + p + 8..] == version[p + 8..] + rest;
    DigestStops(version[p + 8..], rest);
  }

  lemma KeyFits(s: string, key: string, i: nat)
    requires IsAt(s, key, i)
    ensures i + |key| <= |s|
  {
  }

  lemma DigestStops(tail: string, rest: string)
    requires rest != "" && rest[0] == ';'
    ensures DigestAt(tail + rest) == DigestAt(tail)
  {
    var t := tail + rest;
    if |tail| < 64 && |t| >= 64 {
      assert t[..64][|tail|] == ';';
    } else if |tail| >= 64 {
      assert t[..64] == tail[..64];
    }
  }

  /** A version without the digest key leaves the printed front without it. */
  lemma NoShaInFront(version: string, abi: string, image: bool)
    requires Find(version, SHA_KEY) < 0 && Free(abi, IsSemi)
    ensures forall i: nat :: !IsAt(Front(version, abi, image), SHA_KEY, i)
  {
    hide IsAt, Find;
    var head, mid := "ruby@" + version, ";tebako=" + abi + (if image then ";image" else "");
    assert Front(version, abi, image) == head + mid;
    KeyAbsent(version);
    forall i: nat ensures !IsAt(head + mid, SHA_KEY, i) {
      if i < |head| {
        KeyStops(head, mid, SHA_KEY, i);
        KeyBehind("ruby@", version, SHA_KEY, i);
      } else {
        InRest(head, mid, SHA_KEY, i);
        NoShaInMid(abi, image, i - |head|);
      }
    }
  }

  lemma KeyAbsent(version: string)
    requires Find(version, SHA_KEY) < 0
    ensures forall i: nat :: !IsAt(version, SHA_KEY, i)
  {
    forall i: nat ensures !IsAt(version, SHA_KEY, i) {
      if i <= |version| {
        assert !IsAt(version, SHA_KEY, i);
      }
    }
  }

  lemma InRest(head: string, mid: string, key: string, i: nat)
    requires i >= |head|
    ensures IsAt(head + mid, key, i) <==> IsAt(mid, key, i - |head|)
  {
    var s := head + mid;
    if i + |key| <= |s| {
      assert s[i..i + |key|] == mid[i - |head|..i - |head| + |key|];
    }
  }

  lemma NoShaInMid(abi: string, image: bool, i: nat)
    requires Free(abi, IsSemi)
    ensures !IsAt(";tebako=" + abi + (if image then ";image" else ""), SHA_KEY, i)
  {
    var key := ";tebako=";
    var mid := key + abi + (if image then ";image" else "");
    if i + 8 <= |mid| {
      if i == 0 {
        assert mid[1] == 't';
      } else {
        assert forall k :: 0 < k < 8 ==> key[k] != ';';
      }
      Differs(mid, SHA_KEY, i);
    }
  }

  lemma Differs(s: string, pat: string, i: nat)
    requires |pat| >= 2 && i + |pat| <= |s| && (s[i] != pat[0] || s[i + 1] != pat[1])
    ensures !IsAt(s, pat, i)
  {
    assert s[i..i + |pat|][0] == s[i] && s[i..i + |pat|][1] == s[i + 1];
  }

  /** The digest is read back exactly when the version holds no digest key and
      what was printed is a digest, or the version holds the key and reads the same. */
  lemma PrintedSha(version: string, abi: string, image: bool, sha: Option<string>)
    requires Free(abi, IsSemi)
    ensures RefSha(PrintRef(version, abi, image, sha)) == sha <==>
      if Find(version, SHA_KEY) >= 0 then RefSha(version) == sha else sha.Some? ==> IsDigest(sha.value)
  {
    hide Find, IsAt, Front;
    var f, s := Front(version, abi, image), PrintRef(version, abi, image, sha);
    if Find(version, SHA_KEY) >= 0 {
      var rest := ";tebako=" + abi + (if image then ";image" else "") + ShaPart(sha);
      FrontIs(version, abi, image, ShaPart(sha));
      VersionScanned(version, rest);
    } else {
      NoShaInFront(version, abi, image);
      if sha.Some? {
        assert s == f + SHA_KEY + sha.value;
        FindKey(f, SHA_KEY, sha.value);
        assert s[|f| + 8..] == sha.value;
        WholeDigest(sha.value);
      } else {
        assert s == f;
        NotFound(f);
      }
    }
  }

  lemma FrontIs(version: string, abi: string, image: bool, tail: string)
    ensures Front(version, abi, image) + tail ==
      "ruby@" + version + (";tebako=" + abi + (if image then ";image" else "") + tail)
  {
  }

  lemma NotFound(s: string)
    requires forall i: nat :: !IsAt(s, SHA_KEY, i)
    ensures Find(s, SHA_KEY) < 0
  {
  }

  lemma WholeDigest(h: string)
    ensures DigestAt(h) == Some(h) <==> IsDigest(h)
  {
    if |h| >= 64 && DigestAt(h).Some? {
      assert |h| == 64 ==> h[..64] == h;
    } else if |h| == 64 {
      assert h[..64] == h;
    }
  }

  // ---- round trip ----------------------------------------------------------

  /** What the printed parts must be for the three scanners to recover them. */
  ghost predicate Recoverable(version: string, abi: string, image: bool, sha: Option<string>) {
    && Clean(version) && Clean(abi) && (forall i: nat :: !IsAt(version, ABI_KEY, i)) && Free(abi, IsSemi)
    && (image || "image" !in Split(version, IsSemi)[1..])
    && (if Find(version, SHA_KEY) >= 0 then RefSha(version) == sha else sha.Some? ==> IsDigest(sha.value))
  }

  /** The three scanners recover exactly what was printed if and only if
      version and abi are clean, the version does not hold the abi key and the
      abi no semicolon, the version has no image segment of its own unless the
      flag is printed, and the digest is one, or is the one the version itself carries. */
  lemma PrintedExactly(version: string, abi: string, image: bool, sha: Option<string>)
    ensures var s := PrintRef(version, abi, image, sha);
      ParseRef(s) == Some(Ref("ruby", version, abi)) && WantsImage(s) == image && RefSha(s) == sha
      <==> Recoverable(version, abi, image, sha)
  {
    hide ParseRef, RefSha, WantsImage, Clean, IsAt, Find, PrintRef, Free, IsDigest;
    PrintedParses(version, abi, image, sha);
    if Free(abi, IsSemi) {
      PrintedImage(version, abi, image, sha);
      PrintedSha(version, abi, image, sha);
      if sha.Some? && IsDigest(sha.value) {
        DigestIsFree(sha.value);
      }
      ShaIsDigest(version);
    }
  }

  lemma DigestIsFree(h: string)
    requires IsDigest(h)
    ensures Split(h, IsSemi)[1..] == []
  {
    hide Split;
    SplitWhole(h, IsSemi);
  }

  lemma ShaIsDigest(s: string)
    ensures RefSha(s).Some? ==> IsDigest(RefSha(s).value)
  {
    hide Find;
  }

  /** Round trip: for clean components without semicolons, and a digest when
      there is one, the three scanners recover exactly what was printed. */
  lemma PrintedRoundTrips(version: string, abi: string, image: bool, sha: Option<string>)
    requires Clean(version) && Free(version, IsSemi) && Clean(abi) && Free(abi, IsSemi)
    requires sha.Some? ==> IsDigest(sha.value)
    ensures var s := PrintRef(version, abi, image, sha);
      ParseRef(s) == Some(Ref("ruby", version, abi)) && WantsImage(s) == image && RefSha(s) == sha
  {
    hide ParseRef, RefSha, WantsImage, Clean, Split, PrintRef, Find, IsAt;
    forall i: nat ensures !IsAt(version, ABI_KEY, i) && !IsAt(version, SHA_KEY, i) {
      NoKeyAt(version, ABI_KEY, i);
      NoKeyAt(version, SHA_KEY, i);
    }
    NotFound(version);
    SplitWhole(version, IsSemi);
    PrintedExactly(version, abi, image, sha);
  }

  lemma NoKeyAt(version: string, key: string, i: nat)
    requires Free(version, IsSemi) && |key| >= 2 && key[0] == ';'
    ensures !IsAt(version, key, i)
  {
    if i + |key| <= |version| {
      Differs(version, key, i);
    }
  }

  // ---- the three scanners on any text --------------------------------------

  /** A component that may become part of a path and of a URL: not empty, no
      slash, no backslash, no blank. */
  predicate Safe(s: string) {
    s != "" && forall c :: c in s ==> c !in "/\\ \t\r\n"
  }

  lemma SafeIsClean(s: string)
    ensures Safe(s) <==> Clean(s)
  {
    if Clean(s) {
      forall c | c in s ensures c !in "/\\ \t\r\n" {
        var k :| 0 <= k < |s| && s[k] == c;
        assert !Forbidden(s[k]);
      }
    }
    if Safe(s) {
      forall k | 0 <= k < |s| ensures !Forbidden(s[k]) {
        assert s[k] in s;
      }
    }
  }

  /** `s` reads `type@version;tebako=abi`, with nothing or a further parameter behind it. */
  ghost predicate ReadsAs(s: string, r: Ref, rest: string) {
    && s == r.ty + "@" + (r.version + ";tebako=" + (r.abi + rest)) && (rest == "" || rest[0] == ';')
    && Safe(r.ty) && Safe(r.version) && Safe(r.abi)
    && '@' !in r.ty && ';' !in r.abi
    && forall i: nat :: !IsAt(r.version, ";tebako=", i)
  }

  /** A reference is accepted exactly when it reads as one; in particular no
      component that is accepted leaves its directory or holds a blank. */
  lemma AcceptedReads(s: string, r: Ref)
    ensures ParseRef(s) == Some(r) <==> exists rest :: ReadsAs(s, r, rest)
  {
    hide ParseRef, Clean, Safe, IsAt;
    ParserIsExact(s, r);
    SafeIsClean(r.ty);
    SafeIsClean(r.version);
    SafeIsClean(r.abi);
    SignNowhere(r);
    forall rest ensures ReadsAs(s, r, rest) <==> Decomposes(s, r, rest) {
    }
  }

  lemma SignNowhere(r: Ref)
    ensures '@' !in r.ty <==> forall k :: 0 <= k < |r.ty| ==> r.ty[k] != '@'
    ensures ';' !in r.abi <==> Free(r.abi, IsSemi)
  {
  }

  /** A digest behind the first `;sha256=`: 64 hexadecimal digits, then nothing or a further parameter. */
  ghost predicate HasSha(s: string, before: string, h: string, rest: string) {
    && s == before + ";sha256=" + (h + rest) && (rest == "" || rest[0] == ';')
    && |h| == 64 && (forall c :: c in h ==> c in "0123456789abcdef")
    && forall i: nat :: i < |before| ==> !IsAt(s, ";sha256=", i)
  }

  lemma HexIsDigest(h: string)
    ensures IsDigest(h) <==> |h| == 64 && forall c :: c in h ==> c in "0123456789abcdef"
  {
    forall c: char ensures LowerHex(c) <==> c in "0123456789abcdef" {
      HexDigit(c);
    }
    if IsDigest(h) {
      forall c | c in h ensures c in "0123456789abcdef" {
        var k :| 0 <= k < |h| && h[k] == c;
        assert LowerHex(h[k]);
      }
    }
    if |h| == 64 && forall c :: c in h ==> c in "0123456789abcdef" {
      forall k | 0 <= k < 64 ensures LowerHex(h[k]) {
        assert h[k] in h;
      }
    }
  }

  lemma HexDigit(c: char)
    ensures LowerHex(c) <==> c in "0123456789abcdef"
  {
    var digits := "0123456789abcdef";
    if '0' <= c <= '9' {
      assert digits[c as int - 48] == c;
    } else if 'a' <= c <= 'f' {
      assert digits[c as int - 87] == c;
    }
  }

  /** The digest scanner answers exactly the digest the text has there. */
  lemma ShaExactly(s: string, h: string)
    ensures RefSha(s) == Some(h) <==> exists before, rest :: HasSha(s, before, h, rest)
  {
    hide HasSha, RefSha;
    if RefSha(s) == Some(h) {
      var before, rest := ShaFound(s, h);
    }
    forall before, rest | HasSha(s, before, h, rest) ensures RefSha(s) == Some(h) {
      ShaScanned(s, before, h, rest);
    }
  }

  lemma ShaFound(s: string, h: string) returns (before: string, rest: string)
    requires RefSha(s) == Some(h)
    ensures HasSha(s, before, h, rest)
  {
    hide Find, IsDigest;
    var p := Find(s, SHA_KEY);
    var tail := s[p + 8..];
    before, rest := s[..p], tail[64..];
    HexIsDigest(h);
    assert s == before + SHA_KEY + tail;
    assert tail == h + rest;
  }

  lemma ShaScanned(s: string, before: string, h: string, rest: string)
    requires HasSha(s, before, h, rest)
    ensures RefSha(s) == Some(h)
  {
    hide Find, IsDigest;
    var p := |before|;
    HexIsDigest(h);
    assert s[p..p + 8] == SHA_KEY && s[p + 8..] == h + rest;
    FindIs(s, SHA_KEY, p);
    assert (h + rest)[..64] == h;
  }

  /** The word `image` as a parameter of its own. */
  ghost predicate HasImage(s: string, before: string, rest: string) {
    && s == before + "image" + rest
    && (before == "" || before[|before| - 1] == ';') && (rest == "" || rest[0] == ';')
  }

  /** The image scanner answers yes exactly when the word stands between semicolons or ends. */
  lemma ImageExactly(s: string)
    ensures WantsImage(s) <==> exists before, rest :: HasImage(s, before, rest)
  {
    hide Split, HasImage;
    if WantsImage(s) {
      var k :| 0 <= k < |Split(s, IsSemi)| && Split(s, IsSemi)[k] == "image";
      var before, rest := SegmentStands(s, k);
      ImageStands(s, before, rest);
    }
    forall before, rest | HasImage(s, before, rest) ensures WantsImage(s) {
      ImageIsSegment(s, before, rest);
    }
  }

  lemma ImageStands(s: string, before: string, rest: string)
    requires s == before + "image" + rest
    requires (before == "" || before[|before| - 1] == ';') && (rest == "" || rest[0] == ';')
    ensures HasImage(s, before, rest)
  {
  }

  /** Where a segment stands in the text. */
  lemma {:induction false} SegmentStands(s: string, k: nat) returns (before: string, rest: string)
    requires k < |Split(s, IsSemi)|
    ensures s == before + Split(s, IsSemi)[k] + rest
    ensures (before == "" || before[|before| - 1] == ';') && (rest == "" || rest[0] == ';')
    decreases |s|, k
  {
    hide Split;
    var first := Split(s, IsSemi)[0];
    var tail := SegmentRest(s);
    if k == 0 {
      before, rest := "", tail;
    } else {
      SegmentsBehind(s, tail);
      var more;
      more, rest := SegmentStands(tail[1..], k - 1);
      before := first + ";" + more;
      assert tail == ";" + tail[1..];
      assert s == before + Split(s, IsSemi)[k] + rest;
    }
  }

  lemma SegmentsBehind(s: string, tail: string)
    requires s == Split(s, IsSemi)[0] + tail && (tail == "" || tail[0] == ';') && Free(Split(s, IsSemi)[0], IsSemi)
    ensures if tail == "" then |Split(s, IsSemi)| == 1
      else |tail| <= |s| && Split(s, IsSemi) == [Split(s, IsSemi)[0]] + Split(tail[1..], IsSemi)
  {
    hide Split;
    var first := Split(s, IsSemi)[0];
    if tail == "" {
      assert s == first;
      SplitWhole(s, IsSemi);
    } else {
      assert s == first + [';'] + tail[1..];
      SplitFront(first, ';', tail[1..], IsSemi);
    }
  }

  lemma ImageIsSegment(s: string, before: string, rest: string)
    requires HasImage(s, before, rest)
    ensures "image" in Split(s, IsSemi)
  {
    hide Split;
    SplitWhole("image", IsSemi);
    if rest != "" {
      assert "image" + rest == "image" + ";" + rest[1..];
      SplitAppend("image", rest[1..]);
    } else {
      assert "image" + rest == "image";
    }
    assert Split("image" + rest, IsSemi)[0] == "image";
    if before != "" {
      var front := before[..|before| - 1];
      assert s == front + ";" + ("image" + rest);
      SplitAppend(front, "image" + rest);
    } else {
      assert s == "image" + rest;
    }
  }
}
