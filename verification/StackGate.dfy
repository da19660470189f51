/**
 The verdict of the stack-usage gate over a list of `.su` files.
 A file is its lines without their newlines, or cannot be read and is skipped.
 */
module StackGate {
  import opened Options
  import opened StackUsage

  datatype File = Readable(lines: seq<string>) | Unreadable

  /** A project-owned static frame. */
  datatype Row = Row(source: string, func: string, bytes: nat)

  const PROJECT_MARKER := "Application/User"

  /** `src.replace("\\", "/")` */
  function Slashes(s: string): string {
    seq(|s|, i requires 0 <= i < |s| => if s[i] == '\\' then '/' else s[i])
  }

  predicate Contains(s: string, part: string) {
    exists i :: 0 <= i <= |s| && part <= s[i..]
  }

  predicate Owned(source: string) {
    Contains(Slashes(source), PROJECT_MARKER)
  }

  /** `int(...)` of a digit string. */
  function Decimal(s: string): nat
    requires AllDigits(s)
  {
    if s == [] then 0
    else 10 * Decimal(s[..|s| - 1]) + (s[|s| - 1] as int - '0' as int)
  }

  lemma ParsedBytesAreDigits(s: string)
    requires Parse(s).Some?
    ensures AllDigits(Parse(s).value.bytes)
  {
    var m := Parse(s).value;
    ParseLeftmost(s, m);
    MatchRestSound(s, |m.source|, m.func, m.bytes);
  }

  /** The row a line contributes, if any. */
  function RowOf(line: string): Option<Row> {
    var m := Parse(line);
    if m.None? || !Owned(m.value.source) then None
    else
      ParsedBytesAreDigits(line);
      Some(Row(m.value.source, m.value.func, Decimal(m.value.bytes)))
  }

  function RowsOfLines(lines: seq<string>): seq<Row> {
    if lines == [] then []
    else
      var n := |lines| - 1;
      RowsOfLines(lines[..n]) + (if RowOf(lines[n]).Some? then [RowOf(lines[n]).value] else [])
  }

  function RowsOf(files: seq<File>): seq<Row> {
    if files == [] then []
    else
      var n := |files| - 1;
      RowsOf(files[..n]) + (if files[n].Readable? then RowsOfLines(files[n].lines) else [])
  }

  /** `iter_rows`: files in order, lines in order, everything unusable skipped. */
  method IterRows(files: seq<File>) returns (rows: seq<Row>)
    ensures rows == RowsOf(files)
  {
    rows := [];
    for f := 0 to |files|
      invariant rows == RowsOf(files[..f])
    {
      assert files[..f + 1][..f] == files[..f];
      if files[f].Unreadable? {
        continue;
      }
      var lines := files[f].lines;
      for i := 0 to |lines|
        invariant rows == RowsOf(files[..f]) + RowsOfLines(lines[..i])
      {
        assert lines[..i + 1][..i] == lines[..i];
        var m := Parse(lines[i]);
        if m.None? {
          continue;
        }
        if !Owned(m.value.source) {
          continue;
        }
        ParsedBytesAreDigits(lines[i]);
        rows := rows + [Row(m.value.source, m.value.func, Decimal(m.value.bytes))];
      }
      assert lines[..|lines|] == lines;
    }
    assert files[..|files|] == files;
  }

  // ---- Sorting -----------------------------------------------------------------------

  /** Puts a row before the first one that needs no more stack. */
  function Insert(r: Row, rows: seq<Row>): seq<Row> {
    if rows == [] || r.bytes >= rows[0].bytes then [r] + rows else [rows[0]] + Insert(r, rows[1..])
  }

  /** `sorted(..., key=bytes, reverse=True)`: descending, rows with equal keys in their original order. */
  function SortedRows(rows: seq<Row>): seq<Row> {
    if rows == [] then [] else Insert(rows[0], SortedRows(rows[1..]))
  }

  ghost predicate Descending(rows: seq<Row>) {
    forall i, j :: 0 <= i < j < |rows| ==> rows[i].bytes >= rows[j].bytes
  }

  /** The rows with one key, in order. */
  function WithBytes(rows: seq<Row>, n: nat): seq<Row> {
    if rows == [] then []
    else (if rows[0].bytes == n then [rows[0]] else []) + WithBytes(rows[1..], n)
  }

  lemma {:induction false} InsertPermutes(r: Row, rows: seq<Row>)
    ensures multiset(Insert(r, rows)) == multiset(rows) + multiset{r}
  {
    if rows != [] && r.bytes < rows[0].bytes {
      InsertPermutes(r, rows[1..]);
      assert rows == [rows[0]] + rows[1..];
    }
  }

  lemma {:induction false} InsertDescends(r: Row, rows: seq<Row>)
    requires Descending(rows)
    ensures Descending(Insert(r, rows))
  {
    if rows != [] && r.bytes < rows[0].bytes {
      var tail := Insert(r, rows[1..]);
      InsertDescends(r, rows[1..]);
      InsertPermutes(r, rows[1..]);
      NoneLarger(r, rows, tail);
      hide Insert;
      forall i, j | 0 <= i < j < |tail| + 1
        ensures ([rows[0]] + tail)[i].bytes >= ([rows[0]] + tail)[j].bytes
      {
        assert tail[j - 1] in tail;
      }
    }
  }

  lemma NoneLarger(r: Row, rows: seq<Row>, tail: seq<Row>)
    requires rows != [] && Descending(rows) && r.bytes < rows[0].bytes
    requires multiset(tail) == multiset(rows[1..]) + multiset{r}
    ensures forall x :: x in tail ==> rows[0].bytes >= x.bytes
  {
    forall x | x in tail
      ensures rows[0].bytes >= x.bytes
    {
      assert x in multiset(tail);
      assert x in rows[1..] || x == r;
    }
  }

  lemma WithBytesCons(r: Row, rows: seq<Row>, n: nat)
    ensures WithBytes([r] + rows, n) == (if r.bytes == n then [r] else []) + WithBytes(rows, n)
  {
    assert ([r] + rows)[1..] == rows;
  }

  /** Rows of equal size keep their order. */
  lemma {:induction false} InsertStable(r: Row, rows: seq<Row>, n: nat)
    ensures WithBytes(Insert(r, rows), n) == (if r.bytes == n then [r] else []) + WithBytes(rows, n)
  {
    hide WithBytes;
    if rows == [] || r.bytes >= rows[0].bytes {
      WithBytesCons(r, rows, n);
    } else {
      InsertStable(r, rows[1..], n);
      WithBytesCons(rows[0], rows[1..], n);
      assert [rows[0]] + rows[1..] == rows;
      WithBytesCons(rows[0], Insert(r, rows[1..]), n);
    }
  }

  /** The sort is a stable, descending permutation. */
  lemma {:induction false} SortedRowsSorts(rows: seq<Row>, n: nat)
    ensures Descending(SortedRows(rows)) && multiset(SortedRows(rows)) == multiset(rows)
    ensures WithBytes(SortedRows(rows), n) == WithBytes(rows, n)
  {
    if rows != [] {
      SortedRowsSorts(rows[1..], n);
      InsertPermutes(rows[0], SortedRows(rows[1..]));
      InsertDescends(rows[0], SortedRows(rows[1..]));
      InsertStable(rows[0], SortedRows(rows[1..]), n);
      assert rows == [rows[0]] + rows[1..];
    }
  }

  // ---- The verdict --------------------------------------------------------------------

  /** Every line of every readable file. */
  function AllLines(files: seq<File>): set<string> {
    set f, l | f in files && f.Readable? && l in f.lines :: l
  }

  ghost predicate Measured(lines: set<string>) {
    exists l :: l in lines && RowOf(l).Some?
  }

  ghost predicate Exceeded(lines: set<string>, threshold: int) {
    exists l :: l in lines && RowOf(l).Some? && RowOf(l).value.bytes > threshold
  }

  /** No measurement fails closed; otherwise any frame above the threshold fails. */
  ghost function Verdict(lines: set<string>, threshold: int): int {
    if !Measured(lines) then 2 else if Exceeded(lines, threshold) then 1 else 0
  }

  lemma {:induction false} RowsOfLinesMembers(lines: seq<string>, r: Row)
    ensures r in RowsOfLines(lines) <==> exists l :: l in lines && RowOf(l) == Some(r)
  {
    if lines != [] {
      var n := |lines| - 1;
      RowsOfLinesMembers(lines[..n], r);
      assert lines == lines[..n] + [lines[n]];
    }
  }

  lemma {:induction false} RowsOfMembers(files: seq<File>, r: Row)
    ensures r in RowsOf(files) <==> exists l :: l in AllLines(files) && RowOf(l) == Some(r)
  {
    hide RowOf, RowsOfLines;
    if files != [] {
      var n := |files| - 1;
      RowsOfMembers(files[..n], r);
      assert files == files[..n] + [files[n]];
      if files[n].Readable? {
        RowsOfLinesMembers(files[n].lines, r);
        assert forall l :: l in AllLines(files) <==> l in AllLines(files[..n]) || l in files[n].lines;
      } else {
        assert AllLines(files) == AllLines(files[..n]);
      }
    }
  }

  /** The verdict of `main`: it depends only on which lines occur, not on their order, file or number. */
  method Gate(files: seq<File>, threshold: int) returns (exit: int)
    ensures exit == Verdict(AllLines(files), threshold)
  {
    var unsorted := IterRows(files);
    var rows := SortedRows(unsorted);
    SortedRowsSorts(unsorted, 0);
    SameRows(files, rows);
    if rows == [] {
      return 2;
    }
    var worst := rows[0].bytes;
    assert rows[0] in rows;
    if worst > threshold {
      return 1;
    }
    return 0;
  }

  lemma SameRows(files: seq<File>, rows: seq<Row>)
    requires multiset(rows) == multiset(RowsOf(files))
    ensures rows == [] <==> !Measured(AllLines(files))
    ensures forall r :: r in rows <==> exists l :: l in AllLines(files) && RowOf(l) == Some(r)
  {
    forall r
      ensures r in rows <==> exists l :: l in AllLines(files) && RowOf(l) == Some(r)
    {
      RowsOfMembers(files, r);
      assert r in rows <==> r in multiset(rows);
    }
    if rows != [] {
      assert rows[0] in rows;
    }
    if Measured(AllLines(files)) {
      var l :| l in AllLines(files) && RowOf(l).Some?;
      assert RowOf(l).value in rows;
    }
  }

  // ---- Either kind of slash -------------------------------------------------------------

  predicate IsSlash(c: char) { c == '/' || c == '\\' }

  /** The two strings differ only in the kind of their slashes. */
  predicate Alike(s: string, t: string) {
    |s| == |t| && forall k :: 0 <= k < |s| ==> s[k] == t[k] || (IsSlash(s[k]) && IsSlash(t[k]))
  }

  /** That is what the gate's slash normalisation cannot tell apart. */
  lemma AlikeMeansSameSlashes(s: string, t: string)
    ensures Alike(s, t) <==> Slashes(s) == Slashes(t)
  {
    if Slashes(s) == Slashes(t) {
      assert |Slashes(s)| == |Slashes(t)|;
      forall k | 0 <= k < |s|
        ensures s[k] == t[k] || (IsSlash(s[k]) && IsSlash(t[k]))
      {
        assert Slashes(s)[k] == Slashes(t)[k];
      }
    }
  }

  lemma {:induction false} AlikeDigitsEnd(s: string, t: string, i: nat)
    requires i <= |s| && Alike(s, t)
    ensures DigitsEnd(t, i) == DigitsEnd(s, i)
    decreases |s| - i
  {
    if i < |s| && IsDigit(s[i]) {
      AlikeDigitsEnd(s, t, i + 1);
    }
  }

  lemma {:induction false} AlikeTabFrom(s: string, t: string, i: nat)
    requires i <= |s| && Alike(s, t)
    ensures TabFrom(t, i) == TabFrom(s, i)
    decreases |s| - i
  {
    if i < |s| && s[i] != '\t' {
      AlikeTabFrom(s, t, i + 1);
    }
  }

  lemma AlikeColonNumber(s: string, t: string, i: nat)
    requires i <= |s| && Alike(s, t)
    ensures ColonNumber(t, i) == ColonNumber(s, i)
  {
    if i < |s| {
      AlikeDigitsEnd(s, t, i + 1);
    }
  }

  /** A slice without slashes is the same in both. */
  lemma AlikePlain(s: string, t: string, i: nat, j: nat)
    requires Alike(s, t) && i <= j <= |s|
    requires forall k :: i <= k < j ==> !IsSlash(s[k])
    ensures s[i..j] == t[i..j]
  {
  }

  lemma AlikeMatchFields(s: string, t: string, i: nat)
    requires i <= |s| && Alike(s, t)
    ensures MatchFields(t, i) == MatchFields(s, i)
  {
    AlikeTabFrom(s, t, i);
    var tab := TabFrom(s, i);
    if tab < |s| {
      AlikeDigitsEnd(s, t, tab + 1);
      AlikeTail(s, t, DigitsEnd(s, tab + 1));
    }
    SameFields(s, t, i);
  }

  lemma SameFields(s: string, t: string, i: nat)
    requires i <= |s| == |t| && TabFrom(t, i) == TabFrom(s, i)
    requires var tab := TabFrom(s, i);
             tab < |s| ==> (&& DigitsEnd(t, tab + 1) == DigitsEnd(s, tab + 1)
                            && (AtTail(t, DigitsEnd(t, tab + 1)) <==> AtTail(s, DigitsEnd(s, tab + 1))))
    ensures MatchFields(t, i) == MatchFields(s, i)
  {
    hide TabFrom, DigitsEnd, AtTail;
  }

  lemma AlikeTail(s: string, t: string, e: nat)
    requires e <= |s| && Alike(s, t)
    ensures AtTail(s, e) <==> AtTail(t, e)
  {
    if s[e..] == TAIL {
      AlikeKeepsTail(s, t, e);
    }
    if t[e..] == TAIL {
      AlikeKeepsTail(t, s, e);
    }
  }

  lemma AlikeKeepsTail(s: string, t: string, e: nat)
    requires e <= |s| && Alike(s, t) && s[e..] == TAIL
    ensures t[e..] == TAIL
  {
    forall k | e <= k < |s|
      ensures !IsSlash(s[k])
    {
      assert s[k] == TAIL[k - e];
    }
    AlikePlain(s, t, e, |s|);
  }

  lemma AlikeMatchRest(s: string, t: string, i: nat)
    requires i <= |s| && Alike(s, t)
    ensures MatchRest(t, i) == MatchRest(s, i)
  {
    hide MatchFields, ColonNumber;
    AlikeColonNumber(s, t, i);
    if ColonNumber(s, i).Some? {
      var j := ColonNumber(s, i).value;
      AlikeColonNumber(s, t, j);
      if ColonNumber(s, j).Some? {
        AlikeMatchFields(s, t, ColonNumber(s, j).value + 1);
      }
    }
  }

  lemma AlikeLeftmost(s: string, t: string)
    requires Alike(s, t)
    ensures Leftmost(t, 0) == Leftmost(s, 0)
  {
    hide MatchRest;
    forall k | 0 <= k <= |s|
      ensures MatchRest(t, k) == MatchRest(s, k)
    {
      AlikeMatchRest(s, t, k);
    }
  }

  lemma AlikeParse(s: string, t: string)
    requires Alike(s, t)
    ensures Parse(t).None? <==> Parse(s).None?
    ensures Parse(s).Some? ==> Alike(Parse(s).value.source, Parse(t).value.source) && Parse(t).value.bytes == Parse(s).value.bytes
  {
    hide MatchRest;
    AlikeLeftmost(s, t);
    var n := Leftmost(s, 0);
    if n <= |s| {
      AlikeMatchRest(s, t, n);
      var p := MatchRest(s, n).value;
      ParsedBytesAreDigits(s);
      assert forall k :: p.tab < k < p.end ==> s[k] == Parse(s).value.bytes[k - p.tab - 1];
      AlikePlain(s, t, p.tab + 1, p.end);
    }
  }

  lemma AlikeRow(s: string, t: string)
    requires Alike(s, t)
    ensures RowOf(s).Some? <==> RowOf(t).Some?
    ensures RowOf(s).Some? ==> RowOf(t).value.bytes == RowOf(s).value.bytes
  {
    hide Parse, Decimal;
    AlikeParse(s, t);
    if Parse(s).Some? {
      AlikeMeansSameSlashes(Parse(s).value.source, Parse(t).value.source);
    }
  }

  function Normalised(lines: set<string>): set<string> {
    set l | l in lines :: Slashes(l)
  }

  /** The gate's view of a set of lines: the same verdict for every set of lines that differs from it only in kinds of slashes. */
  lemma SlashesDoNotMatter(lines: set<string>, others: set<string>, threshold: int)
    requires Normalised(lines) == Normalised(others)
    ensures Verdict(others, threshold) == Verdict(lines, threshold)
  {
    hide RowOf;
    AlikeCovers(lines, others, threshold);
    AlikeCovers(others, lines, threshold);
  }

  lemma AlikeCovers(lines: set<string>, others: set<string>, threshold: int)
    requires Normalised(lines) == Normalised(others)
    ensures Measured(lines) ==> Measured(others)
    ensures Exceeded(lines, threshold) ==> Exceeded(others, threshold)
  {
    hide RowOf;
    if Measured(lines) {
      var l :| l in lines && RowOf(l).Some?;
      var m := Counterpart(l, lines, others);
    }
    if Exceeded(lines, threshold) {
      var l :| l in lines && RowOf(l).Some? && RowOf(l).value.bytes > threshold;
      var m := Counterpart(l, lines, others);
    }
  }

  lemma Counterpart(l: string, lines: set<string>, others: set<string>) returns (m: string)
    requires l in lines && Normalised(lines) == Normalised(others)
    ensures m in others && (RowOf(l).Some? <==> RowOf(m).Some?)
    ensures RowOf(l).Some? ==> RowOf(m).value.bytes == RowOf(l).value.bytes
  {
    assert Slashes(l) in Normalised(lines);
    assert Slashes(l) in Normalised(others);
    m :| m in others && Slashes(m) == Slashes(l);
    AlikeMeansSameSlashes(l, m);
    AlikeRow(l, m);
  }

  // ---- One row, from the characters to the exit status -----------------------------------------

  /** A number as it is written in base ten. */
  function Numeral(n: nat): (s: string)
    ensures s != [] && AllDigits(s)
  {
    if n < 10 then [DigitChar(n)] else Numeral(n / 10) + [DigitChar(n % 10)]
  }

  function DigitChar(d: nat): (c: char)
    requires d < 10
    ensures IsDigit(c) && c as int == '0' as int + d
  {
    ['0', '1', '2', '3', '4', '5', '6', '7', '8', '9'][d]
  }

  function ZeroDigits(count: nat): (s: string)
    ensures |s| == count && AllDigits(s)
  {
    seq(count, _ => '0')
  }

  /** Reading undoes writing, also behind leading zeros. */
  lemma {:induction false} DecimalOfNumeral(zeros: nat, n: nat)
    ensures AllDigits(ZeroDigits(zeros) + Numeral(n)) && Decimal(ZeroDigits(zeros) + Numeral(n)) == n
    decreases n
  {
    var s := ZeroDigits(zeros) + Numeral(n);
    if n < 10 {
      assert s[..|s| - 1] == ZeroDigits(zeros);
      DecimalOfZeros(zeros);
    } else {
      DecimalOfNumeral(zeros, n / 10);
      assert s[..|s| - 1] == ZeroDigits(zeros) + Numeral(n / 10);
    }
  }

  lemma {:induction false} DecimalOfZeros(count: nat)
    ensures Decimal(ZeroDigits(count)) == 0
  {
    if count > 0 {
      DecimalOfZeros(count - 1);
      assert ZeroDigits(count)[..count - 1] == ZeroDigits(count - 1);
    }
  }

  /** The path names a file of the project, with either kind of slash. */
  ghost predicate InProject(path: string) {
    exists pre, post :: path == pre + "Application/User" + post || path == pre + "Application\\User" + post
  }

  lemma OwnedMeans(path: string)
    ensures Owned(path) <==> InProject(path)
  {
    if Owned(path) {
      var i :| 0 <= i <= |Slashes(path)| && PROJECT_MARKER <= Slashes(path)[i..];
      MarkerFound(path, i);
    }
    if InProject(path) {
      var pre, post :| path == pre + "Application/User" + post || path == pre + "Application\\User" + post;
      MarkerKept(path, pre, post);
    }
  }

  lemma MarkerFound(path: string, i: nat)
    requires i <= |path| && PROJECT_MARKER <= Slashes(path)[i..]
    ensures InProject(path)
  {
    assert |Slashes(path)[i..]| >= 16;
    var pre, mark, post := path[..i], path[i..i + 16], path[i + 16..];
    SlashesOfSlice(path, i, i + 16);
    assert Slashes(path)[i..i + 16] == Slashes(path)[i..][..16] == PROJECT_MARKER;
    MarkerChars(mark);
    assert path == pre + mark + post;
  }

  lemma SlashesOfSlice(s: string, i: nat, j: nat)
    requires i <= j <= |s|
    ensures Slashes(s)[i..j] == Slashes(s[i..j])
  {
  }

  /** Only the slash of the marker can stand for something else. */
  lemma MarkerChars(m: string)
    requires Slashes(m) == PROJECT_MARKER
    ensures m == "Application/User" || m == "Application\\User"
  {
    assert |m| == |Slashes(m)| == 16;
    forall k | 0 <= k < 16
      ensures m[k] == PROJECT_MARKER[k] || (k == 11 && m[k] == '\\')
    {
      assert Slashes(m)[k] == PROJECT_MARKER[k];
    }
    if m[11] == '/' {
      assert m == PROJECT_MARKER;
    } else {
      assert m == PROJECT_MARKER[..11] + ['\\'] + PROJECT_MARKER[12..];
    }
  }

  lemma MarkerKept(path: string, pre: string, post: string)
    requires path == pre + "Application/User" + post || path == pre + "Application\\User" + post
    ensures Owned(path)
  {
    var i := |pre|;
    var found := Slashes(path)[i..i + 16];
    forall k | 0 <= k < 16
      ensures found[k] == PROJECT_MARKER[k]
    {
      assert found[k] == Slashes(path)[i + k];
    }
    assert found == PROJECT_MARKER;
    assert Slashes(path)[i..][..16] == found;
  }

  /** A row of a report in characters: 'path:line:col:function', tab, bytes, tab, 'static'. */
  function RowText(path: string, line: string, col: string, func: string, bytes: string): string {
    path + ":" + line + ":" + col + ":" + func + "\t" + bytes + "\tstatic"
  }

  lemma RowTextIsPrint(path: string, line: string, col: string, func: string, bytes: string)
    ensures RowText(path, line, col, func, bytes) == Print(path, line, col, func, bytes)
  {
    FieldsText(func, bytes);
    var fields := func + "\t" + bytes + "\tstatic";
    RestText(line, col, fields);
    Associate(path, ":" + line + ":" + col + ":" , fields);
    assert RowText(path, line, col, func, bytes) == path + ":" + line + ":" + col + ":" + fields;
  }

  lemma FieldsText(func: string, bytes: string)
    ensures Fields(func, bytes) == func + "\t" + bytes + "\tstatic"
  {
  }

  lemma RestText(line: string, col: string, fields: string)
    ensures ":" + (line + (":" + (col + (":" + fields)))) == ":" + line + ":" + col + ":" + fields
  {
  }

  lemma Associate(a: string, b: string, c: string)
    ensures a + (b + c) == (a + b) + c
  {
  }

  /** What the gate makes of a row whose path cannot be mistaken: the number is the one written. */
  lemma RowOfText(path: string, line: string, col: string, func: string, zeros: nat, n: nat)
    requires Number(line) && Number(col) && Field(func) && !Ambiguous(path)
    ensures RowOf(RowText(path, line, col, func, ZeroDigits(zeros) + Numeral(n)))
         == if InProject(path) then Some(Row(path, func, n)) else None
  {
    var bytes := ZeroDigits(zeros) + Numeral(n);
    DecimalOfNumeral(zeros, n);
    RowTextIsPrint(path, line, col, func, bytes);
    RoundTrip(path, line, col, func, bytes);
    OwnedMeans(path);
  }

  /** A report of one such row: exit status 1 exactly if the written number exceeds the threshold, 2 if the file is not the project's. */
  method GateOneRow(path: string, line: string, col: string, func: string, zeros: nat, n: nat, threshold: int) returns (exit: int)
    requires Number(line) && Number(col) && Field(func) && !Ambiguous(path)
    ensures exit == if !InProject(path) then 2 else if n > threshold then 1 else 0
  {
    var row := RowText(path, line, col, func, ZeroDigits(zeros) + Numeral(n));
    var files := [Readable([row])];
    exit := Gate(files, threshold);
    RowOfText(path, line, col, func, zeros, n);
    OneLine(row);
  }

  lemma OneLine(row: string)
    ensures AllLines([Readable([row])]) == {row}
  {
    var f := Readable([row]);
    assert f in [f] && row in f.lines;
  }
}
