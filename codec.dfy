/** The text form of a matrix: what `read_from_file` accepts line by line and
    what `write_to_file` and `display` produce. */
module Codec {
  import opened Wrappers
  import opened Strings
  import opened Keys
  import opened Store

  /** A matrix as the text describes it: declared dimensions and stored cells. */
  datatype MatrixValue = MatrixValue(rows: int, columns: int, cells: Cells)

  /** A header line's value: the second `=`-separated piece, stripped, read as an
      integer; the name before the `=` is not checked. A line without `=` has no value. */
  function HeaderValue(line: string): (v: Option<int>)
    ensures '=' !in line ==> v.None?
  {
    var parts := Split(line, '=');
    if |parts| < 2 then None else ParseInt(Strip(parts[1]))
  }

  /** The classification of one line after the headers: a `(row, col, value)` triple,
      or `None` for a line the reader skips. An accepted line is, once stripped, wrapped
      in parentheses around exactly three comma-separated fields. */
  function ParseEntry(line: string): (e: Option<(int, int, int)>)
    ensures e.Some? ==> var t := Strip(line);
      && |t| >= 2 && t[0] == '(' && t[|t| - 1] == ')'
      && |Split(t[1..|t| - 1], ',')| == 3
    ensures var t := Strip(line);
      |t| >= 2 && t[0] == '(' && t[|t| - 1] == ')' ==> e == ParseFields(Split(t[1..|t| - 1], ','))
  {
    var t := Strip(line);
    if t == [] || t[0] != '(' || t[|t| - 1] != ')' then None
    else ParseFields(Split(t[1..|t| - 1], ','))
  }

  /** Exactly three comma-separated fields, each read as an integer; any other count, or a
      field that is not an integer, rejects the line. */
  function ParseFields(parts: seq<string>): (e: Option<(int, int, int)>)
    ensures e.Some? <==> |parts| == 3 && ParseInt(parts[0]).Some? && ParseInt(parts[1]).Some? && ParseInt(parts[2]).Some?
    ensures e.Some? ==> e.value == (ParseInt(parts[0]).value, ParseInt(parts[1]).value, ParseInt(parts[2]).value)
  {
    if |parts| != 3 then None
    else match (ParseInt(parts[0]), ParseInt(parts[1]), ParseInt(parts[2]))
      case (Some(row), Some(column), Some(value)) => Some((row, column, value))
      case _ => None
  }

  /** One pass of the reader's loop: a well-formed line becomes a `set_element` call; any
      other line leaves the cells as they are. */
  function ApplyLine(d: Cells, line: string): (r: Cells)
    ensures ParseEntry(line).None? ==> r == d
    ensures ParseEntry(line).Some? ==> var (row, column, value) := ParseEntry(line).value;
      && At(r, (row, column)) == value && r.Keys <= d.Keys + {(row, column)}
      && forall q :: q != (row, column) ==> At(r, q) == At(d, q)
    ensures NoZeros(d) ==> NoZeros(r)
  {
    match ParseEntry(line)
    case None => d
    case Some((row, column, value)) => Put(d, (row, column), value)
  }

  /** The reader's loop over the lines after the headers, in file order. */
  function ApplyLines(d: Cells, lines: seq<string>): (r: Cells)
    ensures NoZeros(d) ==> NoZeros(r)
    decreases |lines|
  {
    if lines == [] then d else ApplyLine(ApplyLines(d, lines[..|lines| - 1]), lines[|lines| - 1])
  }

  /** The reader's loop after one more line. */
  lemma ApplyLinesStep(lines: seq<string>, i: nat)
    requires 2 <= i < |lines|
    ensures ApplyLines(map[], lines[2..i + 1]) == ApplyLine(ApplyLines(map[], lines[2..i]), lines[i])
  {
    assert lines[2..i + 1][..i - 2] == lines[2..i];
  }

  /** `file.readline()` for the i-th line: the empty string past the end of the file,
      which has no header value. */
  function ReadLine(lines: seq<string>, i: nat): (line: string)
    ensures i >= |lines| ==> HeaderValue(line).None?
  {
    if i < |lines| then lines[i] else ""
  }

  /** `read_from_file` on a file whose lines, without terminators, are `lines`. */
  function Read(lines: seq<string>): (r: Result<MatrixValue>)
    ensures r.Failure? <==> HeaderValue(ReadLine(lines, 0)).None? || HeaderValue(ReadLine(lines, 1)).None?
    ensures r.Failure? ==> r.error == FormatError
    ensures r.Success? ==> NoZeros(r.value.cells)
    ensures r.Success? ==> HeaderValue(ReadLine(lines, 0)) == Some(r.value.rows)
    ensures r.Success? ==> HeaderValue(ReadLine(lines, 1)) == Some(r.value.columns)
  {
    match HeaderValue(ReadLine(lines, 0))
    case None => Failure(FormatError)
    case Some(rows) =>
      match HeaderValue(ReadLine(lines, 1))
      case None => Failure(FormatError)
      case Some(columns) =>
        var body := if |lines| <= 2 then [] else lines[2..];
        Success(MatrixValue(rows, columns, ApplyLines(map[], body)))
  }

  /** Once both headers have been read, the cells are the entry lines applied in order. */
  lemma ReadBody(lines: seq<string>)
    requires |lines| >= 2
    ensures Read(lines).Success? ==> Read(lines).value.cells == ApplyLines(map[], lines[2..|lines|])
  {
    if |lines| == 2 {
      assert lines[2..|lines|] == [];
    } else {
      assert lines[2..] == lines[2..|lines|];
    }
  }

  /** The file's text is split into lines at "\n" before it is read. */
  function ReadText(text: string): (r: Result<MatrixValue>)
    ensures r.Failure? ==> r.error == FormatError
    ensures r.Success? ==> NoZeros(r.value.cells)
  {
    Read(Split(text, '\n'))
  }

  /** `f"rows={self.rows}"` and `f"cols={self.columns}"`: one line, with no line break. */
  function HeaderLine(name: string, n: int): (line: string)
    ensures '\n' !in name ==> '\n' !in line
  {
    IntToStringAvoids(n, '\n');
    name + "=" + IntToString(n)
  }

  /** `f"({row}, {column}, {value})"`. */
  function EntryLine(p: Pos, v: int): string {
    "(" + IntToString(p.0) + ", " + IntToString(p.1) + ", " + IntToString(v) + ")"
  }

  function EntryLines(ks: seq<Pos>, d: Cells): (lines: seq<string>)
    requires forall k :: k in ks ==> k in d
    ensures |lines| == |ks|
  {
    seq(|ks|, i requires 0 <= i < |ks| => EntryLine(ks[i], d[ks[i]]))
  }

  /** The lines `write_to_file` and `display` emit: the two headers, then one line per
      stored cell in ascending order of its key string. */
  ghost function Render(m: MatrixValue): (lines: seq<string>)
    ensures |lines| == 2 + |m.cells|
  {
    var ks := SortedKeys(m.cells.Keys);
    assert |m.cells.Keys| == |m.cells|;
    [HeaderLine("rows", m.rows), HeaderLine("cols", m.columns)] + EntryLines(ks, m.cells)
  }

  /** Each line followed by "\n", as `write_to_file` writes it: the text is empty exactly
      when there are no lines. */
  function Join(lines: seq<string>): (text: string)
    ensures lines == [] <==> text == []
    decreases |lines|
  {
    if lines == [] then "" else lines[0] + "\n" + Join(lines[1..])
  }

  ghost function RenderText(m: MatrixValue): string {
    Join(Render(m))
  }

  lemma HeaderRoundTrip(name: string, n: int)
    requires '=' !in name
    ensures HeaderValue(HeaderLine(name, n)) == Some(n)
  {
    IntToStringAvoids(n, '=');
    SplitFirst(name, '=', IntToString(n));
    SplitWithout(IntToString(n), '=');
    StripUnchanged(IntToString(n));
    IntRoundTrip(n);
  }

  /** ", " is a comma followed by a blank that stays with the next field. */
  lemma CommaBlank(r: string, c: string, w: string)
    ensures r + ", " + c + ", " + w == r + [','] + ((" " + c) + [','] + (" " + w))
  {
  }

  /** The three comma-separated fields of a rendered cell line. */
  lemma FieldsSplit(r: string, c: string, w: string)
    requires ',' !in r && ',' !in c && ',' !in w
    ensures Split(r + ", " + c + ", " + w, ',') == [r, " " + c, " " + w]
  {
    var tail := (" " + c) + [','] + (" " + w);
    CommaBlank(r, c, w);
    SplitFirst(r, ',', tail);
    SplitFirst(" " + c, ',', " " + w);
    SplitWithout(" " + w, ',');
  }

  /** A rendered cell line is its three fields between parentheses, with nothing to strip. */
  lemma EntryShape(p: Pos, v: int)
    ensures var line := EntryLine(p, v);
      && |line| >= 2 && line[0] == '(' && line[|line| - 1] == ')' && Strip(line) == line
      && line[1..|line| - 1] == IntToString(p.0) + ", " + IntToString(p.1) + ", " + IntToString(v)
  {
    var r, c, w := IntToString(p.0), IntToString(p.1), IntToString(v);
    Bracketed(r, c, w);
    Parenthesised(r + ", " + c + ", " + w);
  }

  /** The parentheses of a cell line enclose its three fields and the two separators. */
  lemma Bracketed(r: string, c: string, w: string)
    ensures "(" + r + ", " + c + ", " + w + ")" == "(" + (r + ", " + c + ", " + w) + ")"
  {
  }

  /** Text between parentheses has nothing to strip, and its interior is the text. */
  lemma Parenthesised(inner: string)
    ensures var line := "(" + inner + ")";
      Strip(line) == line && line[1..|line| - 1] == inner
  {
    var line := "(" + inner + ")";
    assert line[1..|line| - 1] == inner;
    StripUnchanged(line);
  }

  /** The three fields of a rendered cell line read back as its numbers. */
  lemma FieldsRoundTrip(x: int, y: int, z: int)
    ensures ParseFields([IntToString(x), " " + IntToString(y), " " + IntToString(z)]) == Some((x, y, z))
  {
    IntRoundTrip(x);
    IntRoundTripAfterBlank(y);
    IntRoundTripAfterBlank(z);
  }

  /** A rendered cell line reads back as the same cell. */
  lemma EntryRoundTrip(p: Pos, v: int)
    ensures ParseEntry(EntryLine(p, v)) == Some((p.0, p.1, v))
  {
    var r, c, w := IntToString(p.0), IntToString(p.1), IntToString(v);
    EntryShape(p, v);
    assert ParseEntry(EntryLine(p, v)) == ParseFields(Split(r + ", " + c + ", " + w, ','));
    IntToStringAvoids(p.0, ',');
    IntToStringAvoids(p.1, ',');
    IntToStringAvoids(v, ',');
    FieldsSplit(r, c, w);
    FieldsRoundTrip(p.0, p.1, v);
  }

  /** A rendered cell line, read, is one `set_element` call for that cell. */
  lemma ApplyEntry(d: Cells, p: Pos, v: int)
    ensures ApplyLine(d, EntryLine(p, v)) == Put(d, p, v)
  {
    EntryRoundTrip(p, v);
  }

  /** The cells the first n rendered lines describe. */
  function Listed(ks: seq<Pos>, d: Cells, n: nat): (r: Cells)
    requires forall k :: k in ks ==> k in d
    requires n <= |ks|
    ensures forall p :: p in r <==> p in ks[..n]
    ensures forall p :: p in r ==> r[p] == d[p]
  {
    map p | p in ks[..n] :: d[p]
  }

  /** Reading the first n rendered cell lines stores exactly those n cells. */
  lemma {:induction false} ApplyRendered(ks: seq<Pos>, d: Cells, n: nat)
    requires forall k :: k in ks ==> k in d
    requires NoZeros(d) && n <= |ks|
    ensures ApplyLines(map[], EntryLines(ks, d)[..n]) == Listed(ks, d, n)
  {
    var lines := EntryLines(ks, d)[..n];
    if n == 0 {
      assert lines == [];
    } else {
      var p := ks[n - 1];
      ApplyRendered(ks, d, n - 1);
      assert lines[..n - 1] == EntryLines(ks, d)[..n - 1];
      assert lines[n - 1] == EntryLine(p, d[p]);
      ApplyEntry(Listed(ks, d, n - 1), p, d[p]);
      ListedStep(ks, d, n);
    }
  }

  lemma ListedStep(ks: seq<Pos>, d: Cells, n: nat)
    requires forall k :: k in ks ==> k in d
    requires NoZeros(d) && 0 < n <= |ks|
    ensures Listed(ks, d, n) == Put(Listed(ks, d, n - 1), ks[n - 1], d[ks[n - 1]])
  {
    assert ks[..n] == ks[..n - 1] + [ks[n - 1]];
    SameValues(Listed(ks, d, n), Put(Listed(ks, d, n - 1), ks[n - 1], d[ks[n - 1]]));
  }

  /** Reading what is rendered gives back the dimensions and the stored cells. */
  lemma ReadRender(m: MatrixValue)
    requires NoZeros(m.cells)
    ensures Read(Render(m)) == Success(m)
  {
    RenderedHeaders(m);
    RenderedBody(m);
    ReadHeadersThenBody(Render(m), m.rows, m.columns);
  }

  /** The two header lines of the rendering read back as the dimensions. */
  lemma RenderedHeaders(m: MatrixValue)
    ensures |Render(m)| >= 2
    ensures HeaderValue(Render(m)[0]) == Some(m.rows) && HeaderValue(Render(m)[1]) == Some(m.columns)
  {
    HeaderRoundTrip("rows", m.rows);
    HeaderRoundTrip("cols", m.columns);
  }

  /** The cell lines of the rendering, read in order, store exactly the cells. */
  lemma RenderedBody(m: MatrixValue)
    requires NoZeros(m.cells)
    ensures ApplyLines(map[], Render(m)[2..]) == m.cells
  {
    var ks := SortedKeys(m.cells.Keys);
    var body := EntryLines(ks, m.cells);
    assert Render(m)[2..] == body[..|ks|];
    ApplyRendered(ks, m.cells, |ks|);
    ListedAll(ks, m.cells);
  }

  /** Listing every stored position lists the whole map. */
  lemma ListedAll(ks: seq<Pos>, d: Cells)
    requires forall k :: k in ks <==> k in d
    ensures Listed(ks, d, |ks|) == d
  {
    assert ks[..|ks|] == ks;
  }

  /** Two readable headers, then the body lines in order. */
  lemma ReadHeadersThenBody(lines: seq<string>, rows: int, columns: int)
    requires |lines| >= 2
    requires HeaderValue(lines[0]) == Some(rows) && HeaderValue(lines[1]) == Some(columns)
    ensures Read(lines) == Success(MatrixValue(rows, columns, ApplyLines(map[], lines[2..])))
  {
    if |lines| == 2 {
      assert lines[2..] == [];
    }
  }

  lemma {:induction false} SplitJoin(lines: seq<string>)
    requires forall i :: 0 <= i < |lines| ==> '\n' !in lines[i]
    ensures Split(Join(lines), '\n') == lines + [""]
    decreases |lines|
  {
    if lines != [] {
      SplitJoin(lines[1..]);
      assert lines[0] + "\n" + Join(lines[1..]) == lines[0] + ['\n'] + Join(lines[1..]);
      SplitFirst(lines[0], '\n', Join(lines[1..]));
      assert lines == [lines[0]] + lines[1..];
    }
  }

  /** The empty last piece after the final "\n" is a blank line the reader skips. */
  lemma ReadTrailingBlank(lines: seq<string>)
    requires |lines| >= 2
    ensures Read(lines + [""]) == Read(lines)
  {
    assert ParseEntry("") == None;
    UnreadableLineSkipped(lines, "");
  }

  /** The i-th line after the headers renders the i-th cell in key order. */
  lemma RenderedLine(m: MatrixValue, i: nat)
    requires 2 <= i < |Render(m)|
    ensures var ks := SortedKeys(m.cells.Keys);
      i - 2 < |ks| && ks[i - 2] in m.cells && Render(m)[i] == EntryLine(ks[i - 2], m.cells[ks[i - 2]])
  {
    var ks := SortedKeys(m.cells.Keys);
    assert |ks| == |m.cells|;
    CellLineAt([HeaderLine("rows", m.rows), HeaderLine("cols", m.columns)], ks, m.cells, i);
  }

  /** Line i of two headers followed by cell lines is the cell line of position i - 2. */
  lemma CellLineAt(header: seq<string>, ks: seq<Pos>, d: Cells, i: int)
    requires |header| == 2 && 2 <= i < 2 + |ks|
    requires forall k :: k in ks ==> k in d
    ensures ks[i - 2] in d && (header + EntryLines(ks, d))[i] == EntryLine(ks[i - 2], d[ks[i - 2]])
  {
    assert ks[i - 2] in ks;
  }

  /** A cell line is one line: it contains no line break. */
  lemma EntryLineNoNewline(p: Pos, v: int)
    ensures '\n' !in EntryLine(p, v)
  {
    IntToStringAvoids(p.0, '\n');
    IntToStringAvoids(p.1, '\n');
    IntToStringAvoids(v, '\n');
  }

  /** No rendered line contains a line break. */
  lemma RenderNoNewline(m: MatrixValue)
    ensures forall i :: 0 <= i < |Render(m)| ==> '\n' !in Render(m)[i]
  {
    var lines := Render(m);
    forall i | 0 <= i < |lines|
      ensures '\n' !in lines[i]
    {
      if i >= 2 {
        RenderedLine(m, i);
        var ks := SortedKeys(m.cells.Keys);
        EntryLineNoNewline(ks[i - 2], m.cells[ks[i - 2]]);
      }
    }
  }

  /** What `write_to_file` writes, `read_from_file` reads back unchanged. */
  lemma ReadTextRenderText(m: MatrixValue)
    requires NoZeros(m.cells)
    ensures ReadText(RenderText(m)) == Success(m)
  {
    var lines := Render(m);
    RenderNoNewline(m);
    SplitJoin(lines);
    ReadTrailingBlank(lines);
    ReadRender(m);
  }

  /** The cell lines of the rendering read back as stored cells, in strictly
      ascending order of their key strings. */
  lemma RenderedCellsInKeyOrder(m: MatrixValue, i: nat, j: nat)
    requires 2 <= i < j < |Render(m)|
    ensures ParseEntry(Render(m)[i]).Some? && ParseEntry(Render(m)[j]).Some?
    ensures var (r, c, v) := ParseEntry(Render(m)[i]).value; (r, c) in m.cells && m.cells[(r, c)] == v
    ensures KeyLess((ParseEntry(Render(m)[i]).value.0, ParseEntry(Render(m)[i]).value.1),
                    (ParseEntry(Render(m)[j]).value.0, ParseEntry(Render(m)[j]).value.1))
  {
    var ks := SortedKeys(m.cells.Keys);
    SortedKeysAscending(m.cells.Keys);
    RenderedLine(m, i);
    RenderedLine(m, j);
    EntryRoundTrip(ks[i - 2], m.cells[ks[i - 2]]);
    EntryRoundTrip(ks[j - 2], m.cells[ks[j - 2]]);
  }

  /** One more line after the headers is one more pass of the reader's loop. */
  lemma ReadAppend(lines: seq<string>, line: string)
    requires |lines| >= 2
    ensures Read(lines + [line]).Success? == Read(lines).Success?
    ensures Read(lines).Success? ==>
      Read(lines + [line]).value == Read(lines).value.(cells := ApplyLine(Read(lines).value.cells, line))
  {
    var body := if |lines| <= 2 then [] else lines[2..];
    assert (lines + [line])[2..] == body + [line];
    assert (body + [line])[..|body|] == body;
  }

  /** A line the reader cannot classify as a cell changes nothing. */
  lemma UnreadableLineSkipped(lines: seq<string>, line: string)
    requires |lines| >= 2 && ParseEntry(line) == None
    ensures Read(lines + [line]) == Read(lines)
  {
    ReadAppend(lines, line);
  }

  lemma AppendTwo<T>(xs: seq<T>, x: T, y: T)
    ensures xs + [x, y] == (xs + [x]) + [y]
  {
  }

  /** The value of the last of `lines` that reads as a cell at `p`, if any. */
  ghost function LastEntry(lines: seq<string>, p: Pos): Option<int>
    decreases |lines|
  {
    if lines == [] then None
    else
      var e := ParseEntry(lines[|lines| - 1]);
      if e.Some? && (e.value.0, e.value.1) == p then Some(e.value.2)
      else LastEntry(lines[..|lines| - 1], p)
  }

  /** After the loop each cell holds the value of the last line naming it, and its value
      before the loop when no line names it. */
  lemma {:induction false} ApplyLinesAt(d: Cells, lines: seq<string>, p: Pos)
    ensures At(ApplyLines(d, lines), p) == if LastEntry(lines, p).Some? then LastEntry(lines, p).value else At(d, p)
    decreases |lines|
  {
    if lines != [] {
      ApplyLinesAt(d, lines[..|lines| - 1], p);
    }
  }

  /** Duplicate positions: after a successful read every cell holds the value of the last
      line that names it, and 0 when no line does. */
  lemma LastLineWins(lines: seq<string>, p: Pos)
    requires |lines| >= 2 && Read(lines).Success?
    ensures At(Read(lines).value.cells, p) == if LastEntry(lines[2..], p).Some? then LastEntry(lines[2..], p).value else 0
  {
    ReadBody(lines);
    assert lines[2..] == lines[2..|lines|];
    ApplyLinesAt(map[], lines[2..], p);
  }

  /** A line that does not name `q` can be dropped when looking for the last line naming `q`. */
  lemma {:induction false} LastEntrySkip(s: seq<string>, x: string, rest: seq<string>, q: Pos)
    requires ParseEntry(x).None? || (ParseEntry(x).value.0, ParseEntry(x).value.1) != q
    ensures LastEntry(s + [x] + rest, q) == LastEntry(s + rest, q)
    decreases |rest|
  {
    if rest == [] {
      assert s + [x] + rest == s + [x] && s + rest == s;
      LastEntryAppend(s, x, q);
    } else {
      var init, last := rest[..|rest| - 1], rest[|rest| - 1];
      assert s + [x] + rest == (s + [x] + init) + [last];
      assert s + rest == (s + init) + [last];
      LastEntryAppend(s + [x] + init, last, q);
      LastEntryAppend(s + init, last, q);
      LastEntrySkip(s, x, init, q);
    }
  }

  /** The last line naming `q` is the final line if that one names it, and otherwise the
      last one before it. */
  lemma LastEntryAppend(lines: seq<string>, line: string, q: Pos)
    ensures var e := ParseEntry(line);
      LastEntry(lines + [line], q) == if e.Some? && (e.value.0, e.value.1) == q then Some(e.value.2) else LastEntry(lines, q)
  {
    var all := lines + [line];
    assert all[..|all| - 1] == lines && all[|all| - 1] == line;
  }

  /** A later line for the same cell hides an earlier one, whatever lies between them. */
  lemma LastEntryShadowed(s: seq<string>, first: string, mid: seq<string>, second: string, q: Pos)
    requires ParseEntry(first).Some? && ParseEntry(second).Some?
    requires ParseEntry(first).value.0 == ParseEntry(second).value.0
    requires ParseEntry(first).value.1 == ParseEntry(second).value.1
    ensures LastEntry(s + [first] + mid + [second], q) == LastEntry(s + mid + [second], q)
  {
    if q == (ParseEntry(second).value.0, ParseEntry(second).value.1) {
      LastEntryAppend(s + [first] + mid, second, q);
      LastEntryAppend(s + mid, second, q);
    } else {
      assert s + [first] + mid + [second] == s + [first] + (mid + [second]);
      assert s + mid + [second] == s + (mid + [second]);
      LastEntrySkip(s, first, mid + [second], q);
    }
  }

  /** The lines after the two headers, once more lines are appended. */
  lemma DropHeaders(lines: seq<string>, first: string, mid: seq<string>, second: string)
    requires |lines| >= 2
    ensures (lines + [first] + mid + [second])[2..] == lines[2..] + [first] + mid + [second]
    ensures (lines + mid + [second])[2..] == lines[2..] + mid + [second]
  {
  }

  /** Of two cell lines for the same position, the later wins, whatever lies between them. */
  lemma LaterLineWins(lines: seq<string>, first: string, mid: seq<string>, second: string)
    requires |lines| >= 2
    requires ParseEntry(first).Some? && ParseEntry(second).Some?
    requires ParseEntry(first).value.0 == ParseEntry(second).value.0
    requires ParseEntry(first).value.1 == ParseEntry(second).value.1
    ensures Read(lines + [first] + mid + [second]) == Read(lines + mid + [second])
  {
    var long, short := lines + [first] + mid + [second], lines + mid + [second];
    assert long[0] == short[0] == lines[0] && long[1] == short[1] == lines[1];
    if Read(long).Success? {
      var x, y := Read(long).value.cells, Read(short).value.cells;
      DropHeaders(lines, first, mid, second);
      forall q
        ensures At(x, q) == At(y, q)
      {
        LastLineWins(long, q);
        LastLineWins(short, q);
        LastEntryShadowed(lines[2..], first, mid, second, q);
      }
      SameValues(x, y);
    }
  }

  /** A cell line with value 0 removes a stored cell. */
  lemma ZeroLineDeletes(lines: seq<string>, line: string, p: Pos)
    requires |lines| >= 2 && Read(lines).Success?
    requires ParseEntry(line) == Some((p.0, p.1, 0))
    ensures Read(lines + [line]).Success?
    ensures Read(lines + [line]).value.cells == Read(lines).value.cells - {p}
  {
    ReadAppend(lines, line);
  }

  /** Fewer than two lines is a format error: `readline` gives "" for a missing header. */
  lemma MissingHeaderIsError(line: string)
    ensures Read([]) == Failure(FormatError)
    ensures Read([line]) == Failure(FormatError)
  {
  }

  /** A header line without "=" is a format error: indexing the split raises `IndexError`. */
  lemma HeaderWithoutEqualsIsError(lines: seq<string>, i: nat)
    requires i < 2 && '=' !in ReadLine(lines, i)
    ensures Read(lines) == Failure(FormatError)
  {
  }

  /** A field padded with an information separator is no integer to `int`, though
      `strip` would remove it, so the line is skipped: `(1,\x1c2,3)` sets nothing. */
  lemma InfoSeparatorFieldSkipped(a: string, b: string, c: string)
    requires ',' !in a && ',' !in b && ',' !in c
    requires b != [] && IsInfoSeparator(b[0])
    ensures ParseEntry("(" + (a + [','] + b + [','] + c) + ")").None?
  {
    var inner := a + [','] + b + [','] + c;
    Parenthesised(inner);
    assert inner == a + [','] + (b + [','] + c);
    SplitFirst(a, ',', b + [','] + c);
    SplitFirst(b, ',', c);
    SplitWithout(c, ',');
    var parts := Split(inner, ',');
    assert parts == [a, b, c];
    assert HasInfoSeparator(b);
    assert ParseFields(parts).None?;
  }

  /** A header line `name=value` whose value, up to any further "=", is not an integer is a
      format error: `int` raises `ValueError`. */
  lemma NonNumericHeaderIsError(lines: seq<string>, i: nat, name: string, value: string)
    requires i < 2 && ReadLine(lines, i) == name + "=" + value && '=' !in name
    requires ParseInt(Strip(Split(value, '=')[0])).None?
    ensures Read(lines) == Failure(FormatError)
  {
    SplitFirst(name, '=', value);
    var parts := Split(ReadLine(lines, i), '=');
    assert parts[1] == Split(value, '=')[0];
    assert HeaderValue(ReadLine(lines, i)).None?;
    if i == 0 {
      assert HeaderValue(ReadLine(lines, 0)).None?;
    } else {
      assert HeaderValue(ReadLine(lines, 1)).None?;
    }
  }
}
