/** The pattern matcher and the line filter of user/grep.c. Strings here stop where C's stop, so they hold no NUL. */
module Grep {

  // ---------- what a pattern means ----------

  /** One character, or any number of them; `.` stands for every character. */
  datatype Item = One(c: char) | Many(c: char)

  /** The items of a pattern and whether it ends in `$`. A `*` repeats the character before it, whatever that is. */
  datatype Pattern = Pattern(items: seq<Item>, toEnd: bool)

  function Parse(re: string): Pattern {
    if re == "" then Pattern([], false)
    else if |re| >= 2 && re[1] == '*' then
      var rest := Parse(re[2..]);
      Pattern([Many(re[0])] + rest.items, rest.toEnd)
    else if re == "$" then Pattern([], true)
    else
      var rest := Parse(re[1..]);
      Pattern([One(re[0])] + rest.items, rest.toEnd)
  }

  predicate Fits(c: char, x: char) {
    c == '.' || c == x
  }

  ghost predicate AllFit(c: char, s: string) {
    forall i :: 0 <= i < |s| ==> Fits(c, s[i])
  }

  /** The strings the items describe. */
  ghost predicate Describes(items: seq<Item>, s: string)
    decreases |items|
  {
    if items == [] then s == ""
    else match items[0]
      case One(c) => s != "" && Fits(c, s[0]) && Describes(items[1..], s[1..])
      case Many(c) => exists k :: 0 <= k <= |s| && AllFit(c, s[..k]) && Describes(items[1..], s[k..])
  }

  /** The pattern is found at the start of the text: some prefix is described, all of the text if it ends in `$`. */
  ghost predicate AtStart(p: Pattern, text: string) {
    exists n :: 0 <= n <= |text| && Describes(p.items, text[..n]) && (p.toEnd ==> n == |text|)
  }

  /** The pattern is found in the text: at its start if it begins with `^`, else anywhere. */
  ghost predicate Found(re: string, text: string) {
    if re != "" && re[0] == '^' then AtStart(Parse(re[1..]), text)
    else exists i :: 0 <= i <= |text| && AtStart(Parse(re), text[i..])
  }

  // ---------- the matcher ----------

  lemma NothingLeft(p: Pattern, text: string)
    requires p.items == []
    ensures AtStart(p, text) <==> !p.toEnd || text == ""
  {
    if !p.toEnd { assert Describes(p.items, text[..0]); }
    if p.toEnd && text == "" { assert Describes(p.items, text[..|text|]); }
  }

  lemma OneFirst(p: Pattern, text: string)
    requires p.items != [] && p.items[0].One?
    ensures AtStart(p, text) <==> text != "" && Fits(p.items[0].c, text[0]) && AtStart(Pattern(p.items[1..], p.toEnd), text[1..])
  {
    if AtStart(p, text) {
      var n :| 0 <= n <= |text| && Describes(p.items, text[..n]) && (p.toEnd ==> n == |text|);
      assert text[..n][1..] == text[1..][..n - 1];
    }
    if text != "" && Fits(p.items[0].c, text[0]) && AtStart(Pattern(p.items[1..], p.toEnd), text[1..]) {
      var n :| 0 <= n <= |text[1..]| && Describes(p.items[1..], text[1..][..n]) && (p.toEnd ==> n == |text[1..]|);
      assert text[..n + 1][1..] == text[1..][..n];
      assert Describes(p.items, text[..n + 1]);
    }
  }

  /** A repetition is found where its character, some number of times, leads to where the rest is found. */
  lemma ManyFirst(p: Pattern, text: string)
    requires p.items != [] && p.items[0].Many?
    ensures AtStart(p, text) <==>
              exists k :: 0 <= k <= |text| && AllFit(p.items[0].c, text[..k]) && AtStart(Pattern(p.items[1..], p.toEnd), text[k..])
  {
    var c, rest := p.items[0].c, Pattern(p.items[1..], p.toEnd);
    if AtStart(p, text) {
      var n :| 0 <= n <= |text| && Describes(p.items, text[..n]) && (p.toEnd ==> n == |text|);
      var k :| 0 <= k <= n && AllFit(c, text[..n][..k]) && Describes(rest.items, text[..n][k..]);
      assert text[..n][..k] == text[..k] && text[..n][k..] == text[k..][..n - k];
      assert AtStart(rest, text[k..]);
    }
    if k :| 0 <= k <= |text| && AllFit(c, text[..k]) && AtStart(rest, text[k..]) {
      var n :| 0 <= n <= |text[k..]| && Describes(rest.items, text[k..][..n]) && (rest.toEnd ==> n == |text[k..]|);
      var s := text[..k + n];
      assert s[..k] == text[..k] && s[k..] == text[k..][..n];
      assert Describes(p.items, s);
    }
  }

  /** matchhere */
  method MatchHere(re: string, text: string) returns (r: bool)
    ensures r <==> AtStart(Parse(re), text)
    decreases |re|, 1
  {
    hide AtStart;
    if re == "" {
      NothingLeft(Parse(re), text);
      return true;
    }
    if |re| > 1 && re[1] == '*' {
      ManyFirst(Parse(re), text);
      r := MatchStar(re[0], re[2..], text);
      return;
    }
    if re[0] == '$' && |re| == 1 {
      NothingLeft(Parse(re), text);
      return text == "";
    }
    OneFirst(Parse(re), text);
    if text != "" && (re[0] == '.' || re[0] == text[0]) {
      r := MatchHere(re[1..], text[1..]);
      return;
    }
    return false;
  }

  /** matchstar */
  method MatchStar(c: char, re: string, text: string) returns (r: bool)
    ensures r <==> exists k :: 0 <= k <= |text| && AllFit(c, text[..k]) && AtStart(Parse(re), text[k..])
    decreases |re|, 2
  {
    hide AtStart;
    var k := 0;
    while true
      invariant 0 <= k <= |text| && AllFit(c, text[..k]) && forall j :: 0 <= j < k ==> !AtStart(Parse(re), text[j..])
      decreases |text| - k
    {
      r := MatchHere(re, text[k..]);
      if r { return; }
      if k == |text| || !(text[k] == c || c == '.') {
        forall j | k < j <= |text| ensures !AllFit(c, text[..j]) { assert !Fits(c, text[..j][k]); }
        return;
      }
      k := k + 1;
    }
  }

  /** match */
  method Match(re: string, text: string) returns (r: bool)
    ensures r <==> Found(re, text)
  {
    hide AtStart;
    if re != "" && re[0] == '^' {
      r := MatchHere(re[1..], text);
      return;
    }
    var i := 0;
    while true
      invariant 0 <= i <= |text| && forall j :: 0 <= j < i ==> !AtStart(Parse(re), text[j..])
      decreases |text| - i
    {
      r := MatchHere(re, text[i..]);
      if r || i == |text| { return; }
      i := i + 1;
    }
  }

  // ---------- patterns and the texts they are found in ----------

  /** Characters that stand for themselves; `^` does so except at the start of a pattern and `$` except at its end. */
  ghost predicate Plain(p: string) {
    '.' !in p && '*' !in p
  }

  lemma {:induction false} PlainFirst(p: string, re: string, text: string)
    requires Plain(p) && (re == "" ==> p == "" || p[|p| - 1] != '$') && (p != "" && re != "" ==> re[0] != '*')
    ensures AtStart(Parse(p + re), text) <==> p <= text && AtStart(Parse(re), text[|p|..])
  {
    hide AtStart;
    if p == "" {
      assert p + re == re && text[0..] == text;
    } else {
      var rest := p[1..] + re;
      assert (p + re)[1..] == rest && p == [p[0]] + p[1..];
      assert rest != "" ==> rest[0] == (if |p| > 1 then p[1] else re[0]);
      OneFirst(Parse(p + re), text);
      if text != "" {
        PlainFirst(p[1..], re, text[1..]);
        assert text == [text[0]] + text[1..];
        assert p <= text <==> p[0] == text[0] && p[1..] <= text[1..];
        if p <= text { assert text[1..][|p| - 1..] == text[|p|..]; }
      }
    }
  }

  lemma EndMeans(text: string)
    ensures AtStart(Parse(""), text) && (AtStart(Parse("$"), text) <==> text == "")
  {
    NothingLeft(Parse(""), text);
    NothingLeft(Parse("$"), text);
  }

  /** A pattern of plain characters is found at the start exactly of the texts that begin with it, and with a final `$` of
      itself only. */
  lemma PlainAtStart(p: string, text: string)
    requires Plain(p)
    ensures p == "" || p[|p| - 1] != '$' ==> (AtStart(Parse(p), text) <==> p <= text)
    ensures AtStart(Parse(p + "$"), text) <==> text == p
  {
    hide AtStart;
    assert p + "" == p;
    if p == "" || p[|p| - 1] != '$' { PlainFirst(p, "", text); }
    PlainFirst(p, "$", text);
    if p <= text {
      EndMeans(text[|p|..]);
      assert text == p + text[|p|..];
    }
  }

  /** Plain characters are found wherever they are in the text; after `^` at its start, before `$` at its end, between the two if
      they are all of it. */
  lemma PlainMeans(p: string, text: string)
    requires Plain(p)
    ensures p == "" || (p[0] != '^' && p[|p| - 1] != '$') ==> (Found(p, text) <==> exists i :: 0 <= i <= |text| && p <= text[i..])
    ensures p == "" || p[|p| - 1] != '$' ==> (Found("^" + p, text) <==> p <= text)
    ensures p == "" || p[0] != '^' ==> (Found(p + "$", text) <==> |p| <= |text| && text[|text| - |p|..] == p)
    ensures Found("^" + p + "$", text) <==> text == p
  {
    hide AtStart;
    assert ("^" + p)[1..] == p && ("^" + p + "$")[1..] == p + "$";
    PlainAtStart(p, text);
    forall i | 0 <= i <= |text|
      ensures p == "" || p[|p| - 1] != '$' ==> (AtStart(Parse(p), text[i..]) <==> p <= text[i..])
      ensures AtStart(Parse(p + "$"), text[i..]) <==> text[i..] == p
    {
      PlainAtStart(p, text[i..]);
    }
  }

  /** The first so many characters are `c`, and the rest is `q`. */
  ghost predicate RunThen(c: char, n: int, q: string, t: string) {
    0 <= n <= |t| && t[n..] == q && forall i :: 0 <= i < n ==> c == '.' || t[i] == c
  }

  lemma StarAtStart(c: char, q: string, t: string)
    requires Plain(q)
    ensures AtStart(Parse([c, '*'] + (q + "$")), t) <==> RunThen(c, |t| - |q|, q, t)
  {
    hide AtStart;
    StarFirst(c, q + "$", t);
    forall k | 0 <= k <= |t| ensures AtStart(Parse(q + "$"), t[k..]) <==> t[k..] == q { PlainAtStart(q, t[k..]); }
    hide Parse, AllFit;
    var n := |t| - |q|;
    if 0 <= n {
      Fitting(c, t, n);
      assert forall k :: 0 <= k <= |t| && t[k..] == q ==> k == n;
    }
  }

  lemma StarFirst(c: char, re: string, t: string)
    ensures AtStart(Parse([c, '*'] + re), t) <==> exists k :: 0 <= k <= |t| && AllFit(c, t[..k]) && AtStart(Parse(re), t[k..])
  {
    hide AtStart, AllFit;
    var all := [c, '*'] + re;
    assert all[2..] == re;
    ManyFirst(Parse(all), t);
    assert Pattern(Parse(all).items[1..], Parse(all).toEnd) == Parse(re);
  }

  lemma Fitting(c: char, t: string, n: nat)
    requires n <= |t|
    ensures AllFit(c, t[..n]) <==> forall i :: 0 <= i < n ==> c == '.' || t[i] == c
  {
    if AllFit(c, t[..n]) {
      forall i | 0 <= i < n ensures c == '.' || t[i] == c { assert Fits(c, t[..n][i]); }
    }
  }

  /** Between plain characters, `c*` stands for any run of `c`, and `.*` for anything. */
  lemma StarMeans(p: string, c: char, q: string, text: string)
    requires Plain(p) && Plain(q) && (c == '*' ==> p == "")
    ensures Found("^" + p + [c, '*'] + q + "$", text) <==> p <= text && RunThen(c, |text| - |p| - |q|, q, text[|p|..])
  {
    hide AtStart, RunThen;
    var re := [c, '*'] + (q + "$");
    assert ("^" + p + [c, '*'] + q + "$")[1..] == p + re;
    PlainFirst(p, re, text);
    if p <= text { StarAtStart(c, q, text[|p|..]); }
  }

  /** Between plain characters, `.` stands for any one. */
  lemma DotMeans(p: string, q: string, text: string)
    requires Plain(p) && Plain(q)
    ensures Found("^" + p + "." + q + "$", text) <==> |text| == |p| + 1 + |q| && text[..|p|] == p && text[|p| + 1..] == q
  {
    hide AtStart;
    var re := "." + (q + "$");
    assert ("^" + p + "." + q + "$")[1..] == p + re;
    PlainFirst(p, re, text);
    if p <= text {
      var t := text[|p|..];
      assert re[1..] == q + "$" && text == p + t;
      OneFirst(Parse(re), t);
      if t != "" {
        PlainAtStart(q, t[1..]);
        assert t[1..] == text[|p| + 1..];
      }
    }
  }

  // ---------- the filter ----------

  const BUFSIZE := 1024

  /** The length of the first line of a text that has a newline. */
  function LineLength(s: string): (q: nat)
    ensures q <= |s| && '\n' !in s[..q] && (q < |s| ==> s[q] == '\n')
  {
    if s == "" || s[0] == '\n' then 0 else
      var q := 1 + LineLength(s[1..]);
      assert s[..q] == [s[0]] + s[1..][..q - 1];
      q
  }

  /** What grep is to print: the lines ended by a newline in which the pattern is found. */
  ghost function Printed(re: string, s: string): string
    decreases |s|
  {
    var q := LineLength(s);
    if q == |s| then "" else (if Found(re, s[..q]) then s[..q + 1] else "") + Printed(re, s[q + 1..])
  }

  /** Where strchr for a newline stops: at the newline, at a NUL, or at the end. */
  ghost function Stop(s: string): (q: nat)
    ensures q <= |s| && '\n' !in s[..q] && '\0' !in s[..q] && (q < |s| ==> s[q] == '\n' || s[q] == '\0')
  {
    if s == "" || s[0] == '\n' || s[0] == '\0' then 0
    else
      assert s == [s[0]] + s[1..];
      1 + Stop(s[1..])
  }

  lemma StopIs(s: string, q: nat)
    requires q <= |s| && '\n' !in s[..q] && '\0' !in s[..q] && (q < |s| ==> s[q] == '\n' || s[q] == '\0')
    ensures Stop(s) == q
  {
    var r := Stop(s);
  }

  /** The first line has no end, has a NUL before it, or does not fit the buffer with its newline and the closing NUL. */
  ghost predicate Stuck(s: string) {
    var q := Stop(s);
    q == |s| || s[q] == '\0' || q + 1 >= BUFSIZE
  }

  /** The lines before the first one that is stuck. */
  ghost function Kept(s: string): (r: string)
    ensures r <= s && Stuck(s[|r|..])
    decreases |s|
  {
    if Stuck(s) then ""
    else
      var q := Stop(s);
      var r := s[..q + 1] + Kept(s[q + 1..]);
      assert s == s[..q + 1] + s[q + 1..] && s[|r|..] == s[q + 1..][|r| - (q + 1)..];
      r
  }

  /** Every ended line fits the buffer, its newline and the closing NUL with it. */
  ghost predicate LinesFit(s: string)
    decreases |s|
  {
    var q := LineLength(s);
    q == |s| || (q + 1 < BUFSIZE && LinesFit(s[q + 1..]))
  }

  lemma KeptLine(line: string, rest: string)
    requires '\n' !in line && '\0' !in line && |line| + 1 < BUFSIZE
    ensures Kept(line + "\n" + rest) == line + "\n" + Kept(rest)
  {
    var s := line + "\n" + rest;
    assert s[..|line|] == line && s[|line|] == '\n';
    StopIs(s, |line|);
    assert s[..|line| + 1] == line + "\n" && s[|line| + 1..] == rest;
  }

  /** The first line that is kept is printed if the pattern is found in it. */
  lemma KeptOne(re: string, line: string, rest: string)
    requires '\n' !in line && '\0' !in line && |line| + 1 < BUFSIZE
    ensures Printed(re, Kept(line + "\n" + rest)) == (if Found(re, line) then line + "\n" else "") + Printed(re, Kept(rest))
  {
    KeptLine(line, rest);
    PrintedLine(re, line, Kept(rest));
  }

  /** If no character is a NUL and every ended line fits, no line is lost. */
  lemma {:induction false} KeptAll(re: string, s: string)
    requires '\0' !in s && LinesFit(s)
    ensures Printed(re, Kept(s)) == Printed(re, s)
    decreases |s|
  {
    var q := LineLength(s);
    StopIs(s, q);
    if q < |s| {
      var line, rest := s[..q], s[q + 1..];
      assert s == line + "\n" + rest;
      hide Printed, Kept, Found;
      KeptOne(re, line, rest);
      KeptAll(re, rest);
      PrintedLine(re, line, rest);
    } else {
      PrintedNone(re, s);
    }
  }

  /** What is to be printed is what is printed and the lines with a match from the stuck one on. */
  lemma {:induction false} KeptPart(re: string, s: string)
    ensures Printed(re, s) == Printed(re, Kept(s)) + Printed(re, s[|Kept(s)|..])
    decreases |s|
  {
    if Stuck(s) {
      PrintedNone(re, "");
      assert s[0..] == s;
    } else {
      var line, rest := Halves(s);
      KeptLine(line, rest);
      var more := rest[|Kept(rest)|..];
      assert s[|Kept(s)|..] == more;
      hide Printed, Kept, Found, Stuck;
      KeptPart(re, rest);
      PrintedLine(re, line, rest);
      KeptOne(re, line, rest);
      Regroup(if Found(re, line) then line + "\n" else "", Printed(re, Kept(rest)), Printed(re, more));
    }
  }

  lemma Halves(s: string) returns (line: string, rest: string)
    requires !Stuck(s)
    ensures s == line + "\n" + rest && '\n' !in line && '\0' !in line && |line| + 1 < BUFSIZE && |rest| < |s|
  {
    var q := Stop(s);
    line, rest := s[..q], s[q + 1..];
  }

  lemma Regroup(a: string, b: string, c: string)
    ensures (a + b) + c == a + (b + c)
  {
  }

  lemma LineLengthIs(line: string, rest: string)
    requires '\n' !in line
    ensures LineLength(line + "\n" + rest) == |line|
  {
    var s := line + "\n" + rest;
    var q := LineLength(s);
    assert s[|line|] == '\n';
  }

  lemma PrintedLine(re: string, line: string, rest: string)
    requires '\n' !in line
    ensures Printed(re, line + "\n" + rest) == (if Found(re, line) then line + "\n" else "") + Printed(re, rest)
  {
    var s := line + "\n" + rest;
    LineLengthIs(line, rest);
    assert s[..|line|] == line && s[..|line| + 1] == line + "\n" && s[|line| + 1..] == rest;
  }

  lemma PrintedNone(re: string, s: string)
    requires '\n' !in s
    ensures Printed(re, s) == ""
  {
    assert LineLength(s) == |s|;
  }

  /** read: puts some of what is left of the input in the buffer, as much as it likes of what there is and fits */
  method Read(buf: array<char>, m: int, rest: string, wish: nat) returns (n: int)
    requires buf.Length == BUFSIZE && 0 <= m < BUFSIZE
    modifies buf
    ensures 0 <= n <= |rest| && m + n < BUFSIZE && (n == 0 <==> rest == "" || m == BUFSIZE - 1)
    ensures buf[..m + n] == old(buf[..m]) + rest[..n]
  {
    var space := BUFSIZE - m - 1;
    n := if |rest| < space then |rest| else space;
    if 0 < wish < n { n := wish; }
    forall i | 0 <= i < n { buf[m + i] := rest[i]; }
  }

  /** strchr for a newline, up to a NUL; there is one at `m` */
  method Strchr(buf: array<char>, p: int, m: int) returns (q: int)
    requires 0 <= p <= m < buf.Length
    ensures p <= q <= m && '\n' !in buf[p..q] && '\0' !in buf[p..q] && (q < m ==> buf[q] == '\n' || buf[q] == '\0')
  {
    q := p;
    while q < m && buf[q] != '\n' && buf[q] != '\0'
      invariant p <= q <= m && '\n' !in buf[p..q] && '\0' !in buf[p..q]
    {
      q := q + 1;
    }
  }

  /** No line ends in the text: it has no newline, or a NUL before it. */
  ghost predicate Open(s: string) {
    Stop(s) == |s| || s[Stop(s)] == '\0'
  }

  /** One turn of the inner loop of grep: the line up to the newline at `q` */
  method TakeLine(pattern: string, buf: array<char>, p: int, q: int, m: int, ghost rest: string) returns (out: string)
    requires buf.Length == BUFSIZE && 0 <= p <= q < m < BUFSIZE && '\n' !in buf[p..q] && '\0' !in buf[p..q] && buf[q] == '\n'
    modifies buf
    ensures buf[q + 1..m] == old(buf[q + 1..m])
    ensures Printed(pattern, Kept(old(buf[p..m]) + rest)) == out + Printed(pattern, Kept(buf[q + 1..m] + rest))
  {
    hide Printed, Kept, Found;
    ghost var line, more := buf[p..q], buf[q + 1..m] + rest;
    assert buf[p..m] + rest == line + "\n" + more;
    KeptOne(pattern, line, more);
    buf[q] := '\0';
    assert buf[p..q] == line;
    var r := Match(pattern, buf[p..q]);
    out := "";
    if r {
      buf[q] := '\n';
      out := buf[p..q + 1];
      assert out == line + "\n";
    }
  }

  /** The inner loop of grep: takes the ended lines off the front of the buffer */
  method TakeLines(pattern: string, buf: array<char>, m: int, ghost rest: string) returns (p: int, out: string)
    requires buf.Length == BUFSIZE && 0 <= m < BUFSIZE
    modifies buf
    ensures 0 <= p <= m && Open(buf[p..m])
    ensures Printed(pattern, Kept(old(buf[..m]) + rest)) == out + Printed(pattern, Kept(buf[p..m] + rest))
  {
    hide Printed, Kept, Found, Open, Stop;
    p, out := 0, "";
    assert buf[p..m] == buf[..m];
    var q := Strchr(buf, p, m);
    while q < m && buf[q] == '\n'
      invariant 0 <= p <= q <= m && '\n' !in buf[p..q] && '\0' !in buf[p..q] && (q < m ==> buf[q] == '\n' || buf[q] == '\0')
      invariant Printed(pattern, Kept(old(buf[..m]) + rest)) == out + Printed(pattern, Kept(buf[p..m] + rest))
      decreases m - p
    {
      var line := TakeLine(pattern, buf, p, q, m, rest);
      out := out + line;
      p := q + 1;
      q := Strchr(buf, p, m);
    }
    assert buf[p..m][..q - p] == buf[p..q];
    IsOpen(buf[p..m], q - p);
  }

  lemma EmptyOpen()
    ensures Open("")
  {
  }

  lemma IsOpen(s: string, q: nat)
    requires q <= |s| && '\n' !in s[..q] && '\0' !in s[..q] && (q < |s| ==> s[q] == '\0')
    ensures Open(s)
  {
    StopIs(s, q);
  }

  /** memmove of the rest of the buffer to its front */
  method MoveDown(buf: array<char>, p: int, m: int)
    requires 0 <= p <= m <= buf.Length
    modifies buf
    ensures buf[..m - p] == old(buf[p..m])
  {
    forall i | 0 <= i < m - p { buf[i] := buf[p + i]; }
  }

  /** grep: however the input comes in, what is printed are the lines with a match before the first line that is stuck */
  method Filter(pattern: string, input: string, wishes: nat -> nat) returns (out: string)
    ensures out == Printed(pattern, Kept(input))
  {
    EmptyOpen();
    hide Printed, Kept, Found, Open, Stop;
    var buf := new char[BUFSIZE];
    var m, rest, turn := 0, input, 0;
    out := "";
    assert buf[..m] == "" && buf[..m] + rest == input;
    while true
      invariant 0 <= m < BUFSIZE && Open(buf[..m])
      invariant Printed(pattern, Kept(input)) == out + Printed(pattern, Kept(buf[..m] + rest))
      decreases |rest|
    {
      ghost var all := buf[..m] + rest;
      assert all[..m] == buf[..m];
      var n := Read(buf, m, rest, wishes(turn));
      turn := turn + 1;
      if n <= 0 {
        Finished(pattern, all, m, rest);
        return;
      }
      assert all == buf[..m + n] + rest[n..];
      m, rest := m + n, rest[n..];
      buf[m] := '\0';
      assert all == buf[..m] + rest;
      var p, more := TakeLines(pattern, buf, m, rest);
      out := out + more;
      MoveDown(buf, p, m);
      m := m - p;
    }
  }

  /** With an open buffer, full or with nothing left to read, no more line comes. */
  lemma Finished(re: string, all: string, m: int, rest: string)
    requires 0 <= m < BUFSIZE && |all| == m + |rest| && Open(all[..m]) && (rest == "" || m == BUFSIZE - 1)
    ensures Printed(re, Kept(all)) == ""
  {
    var q := Stop(all[..m]);
    if q < m {
      assert all[..q] == all[..m][..q];
      StopIs(all, q);
    } else {
      var r := Stop(all);
      if r < m {
        assert all[..r] == all[..m][..r];
        StopIs(all[..m], r);
      }
    }
    assert Stuck(all);
    PrintedNone(re, "");
  }

  /** Lines are lost exactly if there is one with a match after the first line that is stuck; none is if all lines fit and no
      character is a NUL. */
  lemma FilterMeans(re: string, s: string)
    ensures Printed(re, Kept(s)) == Printed(re, s) <==> Printed(re, s[|Kept(s)|..]) == ""
    ensures '\0' !in s && LinesFit(s) ==> Printed(re, Kept(s)) == Printed(re, s)
  {
    hide Printed, Kept, LinesFit;
    KeptPart(re, s);
    if '\0' !in s && LinesFit(s) { KeptAll(re, s); }
  }
}
