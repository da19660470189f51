/**
 Recognising one row of a `.su` report: what the pattern of the stack-usage gate matches,
 the parser that computes it, and which printed rows it reads back. Digits are ASCII digits.
 */
module StackUsage {
  import opened Options

  // ---- One line -------------------------------------------------------------------

  /** What the three capture groups of the pattern hold. */
  datatype Match = Match(source: string, func: string, bytes: string)

  predicate IsDigit(c: char) { '0' <= c <= '9' }

  predicate AllDigits(s: string) {
    forall k :: 0 <= k < |s| ==> IsDigit(s[k])
  }

  /** `\d+` */
  predicate Number(s: string) {
    s != [] && AllDigits(s)
  }

  predicate NoTab(s: string) {
    forall k :: 0 <= k < |s| ==> s[k] != '\t'
  }

  /** `[^\t]+` */
  predicate Field(s: string) {
    s != [] && NoTab(s)
  }

  const TAIL := "\tstatic"

  /** What follows the source path in a row. */
  function Rest(line: string, col: string, func: string, bytes: string): string {
    ":" + (line + (":" + (col + (":" + Fields(func, bytes)))))
  }

  function Fields(func: string, bytes: string): string {
    func + ("\t" + (bytes + TAIL))
  }

  /** A row as GCC writes it. */
  function Print(source: string, line: string, col: string, func: string, bytes: string): string {
    source + Rest(line, col, func, bytes)
  }

  /** The pattern matches `s` with its first group ending at `i`. */
  ghost predicate MatchesAt(s: string, i: nat, func: string, bytes: string) {
    i <= |s| && Field(func) && Number(bytes)
    && exists line, col :: IsRest(s[i..], line, col, func, bytes)
  }

  predicate IsRest(t: string, line: string, col: string, func: string, bytes: string) {
    Number(line) && Number(col) && t == Rest(line, col, func, bytes)
  }

  /** The first group is lazy: the engine takes the leftmost place from which the rest matches. */
  ghost predicate LazyMatch(s: string, m: Match) {
    && m.source <= s
    && MatchesAt(s, |m.source|, m.func, m.bytes)
    && forall i, f, b :: 0 <= i < |m.source| ==> !MatchesAt(s, i, f, b)
  }

  /** The end of the run of digits that starts at `i`. */
  function DigitsEnd(s: string, i: nat): (j: nat)
    requires i <= |s|
    ensures i <= j <= |s| && (forall k :: i <= k < j ==> IsDigit(s[k]))
    ensures j < |s| ==> !IsDigit(s[j])
    decreases |s| - i
  {
    if i < |s| && IsDigit(s[i]) then DigitsEnd(s, i + 1) else i
  }

  /** The first tab at or after `i`, or the end of the string. */
  function TabFrom(s: string, i: nat): (j: nat)
    requires i <= |s|
    ensures i <= j <= |s| && (forall k :: i <= k < j ==> s[k] != '\t')
    ensures j < |s| ==> s[j] == '\t'
    decreases |s| - i
  {
    if i < |s| && s[i] != '\t' then TabFrom(s, i + 1) else i
  }

  /** `:\d+` at `i`, followed by another colon: the position of that colon. */
  function ColonNumber(s: string, i: nat): (r: Option<nat>)
    requires i <= |s|
    ensures r.Some? ==> i + 1 < r.value < |s|
  {
    if i < |s| && s[i] == ':' then
      var j := DigitsEnd(s, i + 1);
      if j > i + 1 && j < |s| && s[j] == ':' then Some(j) else None
    else None
  }

  /** Where the other two groups lie: the function name is `s[start..tab]`, the bytes `s[tab + 1..end]`. */
  datatype Span = Span(start: nat, tab: nat, end: nat)

  /** The match of a line whose first group ends at `i`. */
  function MatchOf(s: string, i: nat, p: Span): (m: Match)
    requires i <= |s| && p.start <= p.tab < p.end <= |s|
    ensures m.source == s[..i] && |m.source| == i
  {
    Match(s[..i], s[p.start..p.tab], s[p.tab + 1..p.end])
  }

  /** A span was found, and it holds this function name and this byte count. */
  predicate Found(r: Option<Span>, s: string, func: string, bytes: string) {
    && r.Some?
    && var p := r.value;
       p.start <= p.tab < p.end <= |s| && s[p.start..p.tab] == func && s[p.tab + 1..p.end] == bytes
  }

  /** The part of the pattern after the first group, matched from `i` without backtracking. */
  function MatchRest(s: string, i: nat): (r: Option<Span>)
    requires i <= |s|
    ensures r.Some? ==> r.value.start < r.value.tab && r.value.tab + 1 < r.value.end <= |s|
  {
    var first := ColonNumber(s, i);
    if first.None? then None
    else
      var second := ColonNumber(s, first.value);
      if second.None? then None
      else MatchFields(s, second.value + 1)
  }

  predicate AtTail(s: string, e: nat)
    requires e <= |s|
  {
    s[e..] == TAIL
  }

  /** `([^\t]+)\t(\d+)\tstatic$` from `i`. */
  function MatchFields(s: string, i: nat): (r: Option<Span>)
    requires i <= |s|
    ensures r.Some? ==> r.value.start < r.value.tab && r.value.tab + 1 < r.value.end <= |s|
  {
    var t := TabFrom(s, i);
    if t == i || t == |s| then None
    else
      var e := DigitsEnd(s, t + 1);
      if e > t + 1 && AtTail(s, e) then Some(Span(i, t, e)) else None
  }

  /** The first place at or after `i` from which the rest matches, or past the end of the line if there is none. */
  function Leftmost(s: string, i: nat): (n: nat)
    requires i <= |s| + 1
    ensures i <= n <= |s| + 1 && (n <= |s| ==> MatchRest(s, n).Some?)
    ensures forall k :: i <= k < n ==> MatchRest(s, k).None?
    decreases |s| + 1 - i
  {
    if i > |s| || MatchRest(s, i).Some? then i else Leftmost(s, i + 1)
  }

  /** The line parser. */
  function Parse(s: string): Option<Match> {
    var n := Leftmost(s, 0);
    if n <= |s| then Some(MatchOf(s, n, MatchRest(s, n).value)) else None
  }

  lemma {:induction false} DigitsEndIs(s: string, i: nat, d: string, t: string)
    requires i <= |s| && s[i..] == d + t && AllDigits(d) && (t == [] || !IsDigit(t[0]))
    ensures DigitsEnd(s, i) == i + |d|
    decreases |d|
  {
    if d != [] {
      assert s[i] == d[0];
      assert s[i + 1..] == d[1..] + t;
      DigitsEndIs(s, i + 1, d[1..], t);
    } else if t != [] {
      assert s[i] == t[0];
    }
  }

  lemma {:induction false} TabFromIs(s: string, i: nat, f: string, t: string)
    requires i <= |s| && s[i..] == f + t && NoTab(f) && (t == [] || t[0] == '\t')
    ensures TabFrom(s, i) == i + |f|
    decreases |f|
  {
    if f != [] {
      assert s[i] == f[0];
      assert s[i + 1..] == f[1..] + t;
      TabFromIs(s, i + 1, f[1..], t);
    } else if t != [] {
      assert s[i] == t[0];
    }
  }

  lemma ColonNumberIs(s: string, i: nat, d: string, t: string)
    requires i <= |s| && s[i..] == ":" + (d + t) && Number(d) && t != [] && t[0] == ':'
    ensures ColonNumber(s, i) == Some(i + 1 + |d|)
    ensures i + 1 + |d| < |s| && s[i + 1 + |d|..] == t
  {
    Suffix(s, i, ":", d + t);
    Suffix(s, i + 1, d, t);
    DigitsEndIs(s, i + 1, d, t);
    assert s[i] == s[i..][0] && s[i + 1 + |d|] == s[i + 1 + |d|..][0];
  }

  lemma ColonNumberSound(s: string, i: nat)
    requires i <= |s| && ColonNumber(s, i).Some?
    ensures var j := ColonNumber(s, i).value;
            && Number(s[i + 1..j]) && s[j] == ':'
            && s[i..] == ":" + (s[i + 1..j] + s[j..])
  {
  }

  /** Where a string splits, so does each of its suffixes. */
  lemma Suffix(s: string, i: nat, a: string, b: string)
    requires i <= |s| && s[i..] == a + b
    ensures i + |a| <= |s| && s[i + |a|..] == b && s[i..i + |a|] == a
  {
    assert s[i + |a|..] == s[i..][|a|..];
    assert s[i..i + |a|] == s[i..][..|a|];
  }

  lemma MatchFieldsIs(s: string, i: nat, func: string, bytes: string)
    requires i <= |s| && s[i..] == Fields(func, bytes) && Field(func) && Number(bytes)
    ensures Found(MatchFields(s, i), s, func, bytes)
  {
    var v := bytes + TAIL;
    FieldThenTab(s, i, func, "\t" + v, v);
    var t := i + |func|;
    NumberThenTail(s, t + 1, bytes);
    MatchFieldsFrom(s, i, t, DigitsEnd(s, t + 1));
  }

  lemma FieldThenTab(s: string, i: nat, func: string, u: string, v: string)
    requires i <= |s| && s[i..] == func + u && u == "\t" + v && Field(func)
    ensures var t := i + |func|;
            i < t < |s| && TabFrom(s, i) == t && s[i..t] == func && s[t + 1..] == v
  {
    Suffix(s, i, func, u);
    TabFromIs(s, i, func, u);
    Suffix(s, i + |func|, "\t", v);
  }

  lemma MatchFieldsFrom(s: string, i: nat, t: nat, e: nat)
    requires i < t < |s| && TabFrom(s, i) == t
    requires DigitsEnd(s, t + 1) == e && e > t + 1 && s[e..] == TAIL
    ensures MatchFields(s, i) == Some(Span(i, t, e))
  {
  }

  lemma NumberThenTail(s: string, i: nat, bytes: string)
    requires i <= |s| && s[i..] == bytes + TAIL && Number(bytes)
    ensures var e := DigitsEnd(s, i);
            e == i + |bytes| && s[i..e] == bytes && s[e..] == TAIL
  {
    Suffix(s, i, bytes, TAIL);
    DigitsEndIs(s, i, bytes, TAIL);
  }

  lemma FieldsSound(s: string, i: nat, func: string, bytes: string)
    requires i <= |s| && Found(MatchFields(s, i), s, func, bytes)
    ensures Field(func) && Number(bytes) && s[i..] == Fields(func, bytes)
  {
    var t := TabFrom(s, i);
    var e := DigitsEnd(s, t + 1);
    assert s[t + 1..] == s[t + 1..e] + s[e..];
    assert s[t..] == "\t" + s[t + 1..];
    assert s[i..] == s[i..t] + s[t..];
  }

  /** Every declarative match is found by the deterministic matcher ... */
  lemma MatchRestComplete(s: string, i: nat, func: string, bytes: string)
    requires MatchesAt(s, i, func, bytes)
    ensures Found(MatchRest(s, i), s, func, bytes)
  {
    var line, col :| IsRest(s[i..], line, col, func, bytes);
    var v := ":" + Fields(func, bytes);
    RestFound(s, i, line, ":" + (col + v), col, v, func, bytes);
  }

  lemma TwoNumbers(s: string, i: nat, line: string, u: string, col: string, v: string, t: string)
    requires i <= |s| && Number(line) && Number(col)
    requires s[i..] == ":" + (line + u) && u == ":" + (col + v) && v == ":" + t
    ensures var j, k := i + 1 + |line|, i + 2 + |line| + |col|;
            && ColonNumber(s, i) == Some(j) && ColonNumber(s, j) == Some(k)
            && k < |s| && s[k + 1..] == t
  {
    hide ColonNumber;
    ColonNumberIs(s, i, line, u);
    ColonNumberIs(s, i + 1 + |line|, col, v);
    Suffix(s, i + 2 + |line| + |col|, ":", t);
  }

  lemma RestFound(s: string, i: nat, line: string, u: string, col: string, v: string, func: string, bytes: string)
    requires i <= |s| && Number(line) && Number(col) && Field(func) && Number(bytes)
    requires s[i..] == ":" + (line + u) && u == ":" + (col + v) && v == ":" + Fields(func, bytes)
    ensures Found(MatchRest(s, i), s, func, bytes)
  {
    hide *;
    TwoNumbers(s, i, line, u, col, v, Fields(func, bytes));
    MatchRestIs(s, i, i + 1 + |line|, i + 2 + |line| + |col|);
    MatchFieldsIs(s, i + 3 + |line| + |col|, func, bytes);
  }

  lemma MatchRestIs(s: string, i: nat, j: nat, k: nat)
    requires i <= |s| && ColonNumber(s, i) == Some(j) && ColonNumber(s, j) == Some(k)
    ensures MatchRest(s, i) == MatchFields(s, k + 1)
  {
    hide ColonNumber, MatchFields;
  }

  lemma MatchRestParts(s: string, i: nat)
    requires i <= |s| && MatchRest(s, i).Some?
    ensures ColonNumber(s, i).Some? && ColonNumber(s, ColonNumber(s, i).value).Some?
    ensures MatchRest(s, i) == MatchFields(s, ColonNumber(s, ColonNumber(s, i).value).value + 1)
  {
    hide ColonNumber, MatchFields;
  }

  lemma MatchesAtParts(s: string, i: nat, line: string, col: string, func: string, bytes: string)
    requires i <= |s| && Field(func) && Number(bytes) && Number(line) && Number(col) && s[i..] == Rest(line, col, func, bytes)
    ensures MatchesAt(s, i, func, bytes)
  {
    assert IsRest(s[i..], line, col, func, bytes);
  }

  /** ... and it finds nothing else. */
  lemma MatchRestSound(s: string, i: nat, func: string, bytes: string)
    requires i <= |s| && Found(MatchRest(s, i), s, func, bytes)
    ensures MatchesAt(s, i, func, bytes)
  {
    hide MatchRest, ColonNumber, MatchFields;
    MatchRestParts(s, i);
    var j := ColonNumber(s, i).value;
    PartsSound(s, i, j, ColonNumber(s, j).value, func, bytes);
  }

  lemma PartsSound(s: string, i: nat, j: nat, k: nat, func: string, bytes: string)
    requires i <= |s| && ColonNumber(s, i) == Some(j) && ColonNumber(s, j) == Some(k)
    requires Found(MatchFields(s, k + 1), s, func, bytes)
    ensures MatchesAt(s, i, func, bytes)
  {
    hide *;
    FieldsSound(s, k + 1, func, bytes);
    NumbersSound(s, i, j, k, func, bytes);
    MatchesAtParts(s, i, s[i + 1..j], s[j + 1..k], func, bytes);
  }

  lemma NumbersSound(s: string, i: nat, j: nat, k: nat, func: string, bytes: string)
    requires i <= |s| && ColonNumber(s, i) == Some(j) && ColonNumber(s, j) == Some(k)
    requires s[k + 1..] == Fields(func, bytes)
    ensures Number(s[i + 1..j]) && Number(s[j + 1..k])
    ensures s[i..] == Rest(s[i + 1..j], s[j + 1..k], func, bytes)
  {
    ColonNumberSound(s, i);
    ColonNumberSound(s, j);
    RestAssembled(s, i, j, k, func, bytes);
  }

  lemma RestAssembled(s: string, i: nat, j: nat, k: nat, func: string, bytes: string)
    requires i + 1 < j < |s| && j + 1 < k < |s| && s[k] == ':'
    requires s[i..] == ":" + (s[i + 1..j] + s[j..])
    requires s[j..] == ":" + (s[j + 1..k] + s[k..])
    requires s[k + 1..] == Fields(func, bytes)
    ensures s[i..] == Rest(s[i + 1..j], s[j + 1..k], func, bytes)
  {
    assert s[k..] == ":" + s[k + 1..];
  }

  lemma ParseFinds(s: string, n: nat)
    requires n <= |s| && MatchRest(s, n).Some?
    requires forall k :: 0 <= k < n ==> MatchRest(s, k).None?
    ensures Parse(s) == Some(MatchOf(s, n, MatchRest(s, n).value))
  {
    hide MatchRest;
    var found := Leftmost(s, 0);
    assert found <= n;
  }

  /** A successful parse took the leftmost place where the rest of the pattern matches. */
  lemma ParseLeftmost(s: string, m: Match)
    requires Parse(s) == Some(m)
    ensures |m.source| <= |s| && m.source == s[..|m.source|]
    ensures Found(MatchRest(s, |m.source|), s, m.func, m.bytes)
    ensures forall k :: 0 <= k < |m.source| ==> MatchRest(s, k).None?
  {
    hide MatchRest;
    assert |m.source| == Leftmost(s, 0);
  }

  /** The deterministic parser computes exactly the lazy match of the pattern, on every string. */
  lemma ParseIsLazyMatch(s: string, m: Match)
    ensures Parse(s) == Some(m) <==> LazyMatch(s, m)
  {
    hide Parse, MatchRest;
    if LazyMatch(s, m) {
      LazyMatchParsed(s, m);
    }
    if Parse(s) == Some(m) {
      ParseLeftmost(s, m);
      MatchRestSound(s, |m.source|, m.func, m.bytes);
      forall i, f, b | 0 <= i < |m.source|
        ensures !MatchesAt(s, i, f, b)
      {
        if MatchesAt(s, i, f, b) {
          MatchRestComplete(s, i, f, b);
        }
      }
    }
  }

  lemma LazyMatchParsed(s: string, m: Match)
    requires LazyMatch(s, m)
    ensures Parse(s) == Some(m)
  {
    hide MatchRest;
    var n := |m.source|;
    MatchRestComplete(s, n, m.func, m.bytes);
    forall k | 0 <= k < n
      ensures MatchRest(s, k).None?
    {
      if MatchRest(s, k).Some? {
        var m := MatchOf(s, k, MatchRest(s, k).value);
        MatchRestSound(s, k, m.func, m.bytes);
      }
    }
    ParseFinds(s, n);
    assert m.source == s[..n];
  }

  // ---- Print, then parse ----------------------------------------------------------

  /**
   Colon `i` of a source path would be taken for the one before the line number: a run of
   digits follows it up to the end of the path, or up to a colon with a second such run.
   A later tab in the path rescues the row, because no function name spans a tab.
   */
  predicate LooksLikePosition(source: string, i: nat)
    requires i < |source|
  {
    && source[i] == ':' && NoTab(source[i..])
    && var j := DigitsEnd(source, i + 1);
       j > i + 1 && (j == |source| || (source[j] == ':' && NumberToColon(source, j + 1)))
  }

  /** A run of digits at `i` that ends at a colon or at the end of the path. */
  predicate NumberToColon(source: string, i: nat)
    requires i <= |source|
  {
    var k := DigitsEnd(source, i);
    k > i && (k == |source| || source[k] == ':')
  }

  predicate Ambiguous(source: string) {
    exists i :: 0 <= i < |source| && LooksLikePosition(source, i)
  }

  lemma {:induction false} DigitsEndExtends(s: string, t: string, i: nat)
    requires i <= |s| && t != [] && !IsDigit(t[0])
    ensures DigitsEnd(s + t, i) == DigitsEnd(s, i)
    decreases |s| - i
  {
    if i < |s| && IsDigit(s[i]) {
      DigitsEndExtends(s, t, i + 1);
    }
  }

  lemma FieldsShift(x: string, func: string, bytes: string)
    ensures x + Fields(func, bytes) == Fields(x + func, bytes)
  {
  }

  /** A tab-free text before the function name just becomes part of it. */
  lemma LongerField(s: string, i: nat, x: string, func: string, bytes: string)
    requires i <= |s| && s[i..] == x + Fields(func, bytes) && NoTab(x) && Field(func) && Number(bytes)
    ensures Found(MatchFields(s, i), s, x + func, bytes)
  {
    FieldsShift(x, func, bytes);
    MatchFieldsIs(s, i, x + func, bytes);
  }

  /** A tab in the path stops the function name too early for the rest of the pattern. */
  lemma TabInPath(source: string, rest: string, i: nat, t: nat)
    requires i <= t < |source| && source[t] == '\t' && rest != [] && rest[0] == ':'
    ensures MatchFields(source + rest, i).None?
  {
    var s := source + rest;
    var tab := TabFrom(s, i);
    assert s[t] == '\t' && tab <= t;
    DigitsEndExtends(source, rest, tab + 1);
    var e := DigitsEnd(s, tab + 1);
    assert s[e..][|source| - e] == ':';
    assert forall k :: 0 <= k < |TAIL| ==> TAIL[k] != ':';
  }

  lemma ColonNumberExtends(source: string, rest: string, i: nat)
    requires i < |source| && rest != [] && rest[0] == ':'
    ensures var j := DigitsEnd(source, i + 1);
            ColonNumber(source + rest, i) == (if source[i] == ':' && j > i + 1 && (j == |source| || source[j] == ':') then Some(j) else None)
  {
    DigitsEndExtends(source, rest, i + 1);
  }

  /** From the colon after the path itself, one number is left before the text that becomes the function name. */
  lemma SecondAtEnd(s: string, n: nat, line: string, u: string, x: string, func: string, bytes: string)
    requires n <= |s| && Number(line) && NoTab(x) && Field(func) && Number(bytes)
    requires s[n..] == ":" + (line + u) && u == ":" + (x + Fields(func, bytes))
    ensures ColonNumber(s, n) == Some(n + 1 + |line|)
    ensures n + 1 + |line| < |s| && MatchFields(s, n + 2 + |line|).Some?
  {
    hide ColonNumber, MatchFields, Fields, NoTab, Field, Number;
    ColonNumberIs(s, n, line, u);
    Suffix(s, n + 1 + |line|, ":", x + Fields(func, bytes));
    LongerField(s, n + 2 + |line|, x, func, bytes);
  }

  lemma EarlierAtEnd(s: string, n: nat, line: string, u: string, x: string, func: string, bytes: string, i: nat)
    requires i < n <= |s| && Number(line) && NoTab(x) && Field(func) && Number(bytes)
    requires s[n..] == ":" + (line + u) && u == ":" + (x + Fields(func, bytes))
    requires ColonNumber(s, i) == Some(n)
    ensures MatchRest(s, i).Some?
  {
    hide *;
    SecondAtEnd(s, n, line, u, x, func, bytes);
    MatchRestIs(s, i, n, n + 1 + |line|);
  }

  /** A path followed by a tab-free position `:x`, the function name and the rest of the row. */
  ghost predicate PathAndPosition(s: string, source: string, x: string, func: string, bytes: string) {
    s == source + (":" + (x + Fields(func, bytes))) && NoTab(x) && Field(func) && Number(bytes)
  }

  lemma PositionInside(s: string, source: string, x: string, func: string, bytes: string, k: nat)
    requires PathAndPosition(s, source, x, func, bytes) && k <= |source|
    ensures k == |source| ==> s[k + 1..] == x + Fields(func, bytes)
    ensures k < |source| ==> s[k + 1..] == (source[k + 1..] + (":" + x)) + Fields(func, bytes)
  {
    if k == |source| {
      Suffix(s, 0, source, ":" + (x + Fields(func, bytes)));
      Suffix(s, k, ":", x + Fields(func, bytes));
    }
  }

  lemma TabAfter(s: string, source: string, rest: string, k: nat)
    requires s == source + rest && rest != [] && rest[0] == ':'
    requires k < |source| && !NoTab(source[k + 1..])
    ensures MatchFields(s, k + 1).None?
  {
    var n :| 0 <= n < |source[k + 1..]| && source[k + 1..][n] == '\t';
    TabInPath(source, rest, k + 1, k + 1 + n);
  }

  /** After two numbers inside the path, the rest matches iff no tab follows in the path. */
  lemma FieldsAfterPath(s: string, source: string, x: string, func: string, bytes: string, k: nat)
    requires PathAndPosition(s, source, x, func, bytes)
    requires k <= |source| && (k == |source| || source[k] == ':')
    ensures MatchFields(s, k + 1).Some? <==> (k == |source| || NoTab(source[k + 1..]))
  {
    if k < |source| && !NoTab(source[k + 1..]) {
      TabAfter(s, source, ":" + (x + Fields(func, bytes)), k);
    } else {
      PositionInside(s, source, x, func, bytes, k);
      LongerField(s, k + 1, if k == |source| then x else source[k + 1..] + (":" + x), func, bytes);
    }
  }

  lemma EarlierInside(s: string, source: string, x: string, func: string, bytes: string, i: nat, j: nat)
    requires PathAndPosition(s, source, x, func, bytes) && i < j < |source| && source[j] == ':'
    requires ColonNumber(s, i) == Some(j)
    ensures var k := DigitsEnd(source, j + 1);
            (MatchRest(s, i).Some? <==> NumberToColon(source, j + 1) && (k == |source| || NoTab(source[k + 1..])))
  {
    hide ColonNumber, MatchFields;
    var k := DigitsEnd(source, j + 1);
    ColonNumberExtends(source, ":" + (x + Fields(func, bytes)), j);
    if NumberToColon(source, j + 1) {
      MatchRestIs(s, i, j, k);
      FieldsAfterPath(s, source, x, func, bytes, k);
    } else {
      assert ColonNumber(s, j).None?;
    }
  }

  lemma RestRegroups(line: string, col: string, func: string, bytes: string)
    requires Number(line) && Number(col)
    ensures Rest(line, col, func, bytes) == ":" + (line + (":" + ((col + ":") + Fields(func, bytes))))
    ensures Rest(line, col, func, bytes) == ":" + ((line + (":" + (col + ":"))) + Fields(func, bytes))
    ensures NoTab(col + ":") && NoTab(line + (":" + (col + ":")))
  {
    Regroup(line, ":", col, ":", Fields(func, bytes));
  }

  lemma Regroup(a: string, b: string, c: string, d: string, e: string)
    ensures a + (b + (c + (d + e))) == a + (b + ((c + d) + e)) == (a + (b + (c + d))) + e
  {
    assert c + (d + e) == (c + d) + e;
    assert b + ((c + d) + e) == (b + (c + d)) + e;
    assert a + ((b + (c + d)) + e) == (a + (b + (c + d))) + e;
  }

  lemma EndCase(s: string, source: string, line: string, col: string, func: string, bytes: string, i: nat)
    requires s == Print(source, line, col, func, bytes) && Number(line) && Number(col) && Field(func) && Number(bytes)
    requires i < |source| && ColonNumber(s, i) == Some(|source|)
    ensures MatchRest(s, i).Some?
  {
    var x := col + ":";
    var u := ":" + (x + Fields(func, bytes));
    RestRegroups(line, col, func, bytes);
    Suffix(s, 0, source, ":" + (line + u));
    EarlierAtEnd(s, |source|, line, u, x, func, bytes, i);
  }

  lemma InsideCase(s: string, source: string, line: string, col: string, func: string, bytes: string, i: nat, j: nat)
    requires s == Print(source, line, col, func, bytes) && Number(line) && Number(col) && Field(func) && Number(bytes)
    requires i < j < |source| && source[j] == ':' && ColonNumber(s, i) == Some(j)
    ensures var k := DigitsEnd(source, j + 1);
            (MatchRest(s, i).Some? <==> NumberToColon(source, j + 1) && (k == |source| || NoTab(source[k + 1..])))
  {
    var x := line + (":" + (col + ":"));
    RestRegroups(line, col, func, bytes);
    EarlierInside(s, source, x, func, bytes, i, j);
  }

  /** A place inside the path matches exactly when it looks like a position. */
  lemma EarlierMatch(source: string, line: string, col: string, func: string, bytes: string, i: nat)
    requires Number(line) && Number(col) && Field(func) && Number(bytes) && i < |source|
    ensures MatchRest(Print(source, line, col, func, bytes), i).Some? <==> LooksLikePosition(source, i)
  {
    hide ColonNumber, MatchFields;
    var s := Print(source, line, col, func, bytes);
    ColonNumberExtends(source, Rest(line, col, func, bytes), i);
    var j := DigitsEnd(source, i + 1);
    if ColonNumber(s, i).None? {
      NotAPosition(source, i);
    } else if j == |source| {
      NumberAtEnd(source, i);
      EndCase(s, source, line, col, func, bytes, i);
    } else {
      NumberInside(source, i);
      InsideCase(s, source, line, col, func, bytes, i, j);
    }
  }

  lemma NotAPosition(source: string, i: nat)
    requires i < |source|
    requires var j := DigitsEnd(source, i + 1);
             !(source[i] == ':' && j > i + 1 && (j == |source| || source[j] == ':'))
    ensures !LooksLikePosition(source, i)
  {
  }

  lemma NumberAtEnd(source: string, i: nat)
    requires i + 1 < |source| && source[i] == ':' && DigitsEnd(source, i + 1) == |source|
    ensures LooksLikePosition(source, i)
  {
    NoTabInNumber(source, i, |source|);
    assert source[i..] == source[i..|source|];
  }

  lemma NumberInside(source: string, i: nat)
    requires i < |source| && source[i] == ':'
    requires var j := DigitsEnd(source, i + 1); i + 1 < j < |source| && source[j] == ':'
    ensures var j := DigitsEnd(source, i + 1);
            var k := DigitsEnd(source, j + 1);
            (LooksLikePosition(source, i) <==> NumberToColon(source, j + 1) && (k == |source| || NoTab(source[k + 1..])))
  {
    var j := DigitsEnd(source, i + 1);
    if NumberToColon(source, j + 1) {
      NoTabInNumber(source, i, j);
      NoTabInNumber(source, j, DigitsEnd(source, j + 1));
      TabsAfter(source, i, j, DigitsEnd(source, j + 1));
    }
  }

  lemma NoTabInNumber(source: string, i: nat, j: nat)
    requires i < j <= |source| && source[i] == ':' && j == DigitsEnd(source, i + 1)
    ensures NoTab(source[i..j])
  {
  }

  lemma TabsAfter(source: string, i: nat, j: nat, k: nat)
    requires i <= j <= k <= |source|
    requires NoTab(source[i..j]) && NoTab(source[j..k])
    requires k < |source| ==> source[k] == ':'
    ensures NoTab(source[i..]) <==> (k == |source| || NoTab(source[k + 1..]))
  {
    assert source[i..] == source[i..j] + source[j..k] + source[k..];
    if k < |source| {
      assert source[k..] == [source[k]] + source[k + 1..];
    }
  }

  /** Printing and parsing a row returns its fields exactly when no colon of the path looks like a position. */
  lemma RoundTrip(source: string, line: string, col: string, func: string, bytes: string)
    requires Number(line) && Number(col) && Field(func) && Number(bytes)
    ensures Parse(Print(source, line, col, func, bytes)) == Some(Match(source, func, bytes)) <==> !Ambiguous(source)
  {
    var s := Print(source, line, col, func, bytes);
    var n := |source|;
    assert s[n..] == Rest(line, col, func, bytes);
    MatchesAtParts(s, n, line, col, func, bytes);
    MatchRestComplete(s, n, func, bytes);
    forall i | 0 <= i < n
      ensures MatchRest(s, i).Some? <==> LooksLikePosition(source, i)
    {
      EarlierMatch(source, line, col, func, bytes, i);
    }
    if Ambiguous(source) {
      if Parse(s) == Some(Match(source, func, bytes)) {
        ParseLeftmost(s, Match(source, func, bytes));
      }
    } else {
      ParseFinds(s, n);
      assert s[..n] == source;
    }
  }

  /** In particular, paths without a colon before a digit are safe. */
  lemma PlainPathsAreSafe(source: string)
    requires forall i :: 0 <= i < |source| - 1 && source[i] == ':' ==> !IsDigit(source[i + 1])
    ensures !Ambiguous(source)
  {
    forall i | 0 <= i < |source|
      ensures !LooksLikePosition(source, i)
    {
      if source[i] == ':' && i + 1 < |source| {
        assert DigitsEnd(source, i + 1) == i + 1;
      }
    }
  }

  /** The hazard in characters: a path that ends in a colon and a digit is read back wrongly, whatever row it stands in. */
  lemma PathWithPosition(line: string, col: string, func: string, bytes: string)
    requires Number(line) && Number(col) && Field(func) && Number(bytes)
    ensures Parse(Print("a:1", line, col, func, bytes)) != Some(Match("a:1", func, bytes))
  {
    assert DigitsEnd("a:1", 2) == 3;
    assert LooksLikePosition("a:1", 1);
    RoundTrip("a:1", line, col, func, bytes);
  }
}
