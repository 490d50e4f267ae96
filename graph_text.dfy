/**
 * The two textual renderings of a matrix graph: `printGraph`, one bracketed
 * line per row with the cells separated by single spaces, and `toString`, the
 * rows as bracketed lists inside one more pair of brackets. In both, a cell
 * with no value and a cell holding 0 show as a space.
 */
module GraphText {
  import opened Wrappers
  import opened Mat
  import opened GraphAdapter

  function DigitChar(d: nat): (c: char)
    requires d < 10
    ensures '0' <= c <= '9' && c as int - '0' as int == d
  {
    "0123456789"[d]
  }

  /** The decimal digits of `n`, most significant first, without leading zeroes. */
  function NatText(n: nat): (s: string)
    ensures |s| >= 1 && forall i :: 0 <= i < |s| ==> '0' <= s[i] <= '9'
    ensures n >= 10 ==> s[0] != '0'
  {
    if n < 10 then [DigitChar(n)] else NatText(n / 10) + [DigitChar(n % 10)]
  }

  /** The number a string of decimal digits denotes. */
  function DigitsValue(s: string): nat
    requires forall i :: 0 <= i < |s| ==> '0' <= s[i] <= '9'
  {
    if s == [] then 0 else 10 * DigitsValue(s[..|s| - 1]) + (s[|s| - 1] as int - '0' as int)
  }

  /** Reading the digits back gives the number. */
  lemma {:induction false} NatTextRoundTrip(n: nat)
    ensures DigitsValue(NatText(n)) == n
  {
    if n >= 10 {
      NatTextRoundTrip(n / 10);
      var s := NatText(n);
      assert s[..|s| - 1] == NatText(n / 10);
    }
  }

  /** Java's decimal rendering of an integer: a minus sign before a negative number. */
  function IntText(v: int): (s: string)
    ensures |s| >= 1 && (s[0] == '-' <==> v < 0)
  {
    if v < 0 then "-" + NatText(-v) else NatText(v)
  }

  /** A cell as printed: a space for an empty cell or a 0, the number otherwise. */
  function CellText(c: Option<int>): (s: string)
    ensures s == " " <==> c == None || c == Some(0)
  {
    if c == None || c == Some(0) then " " else IntText(c.value)
  }

  /** The parts in order with `sep` between neighbours. */
  function Join(parts: seq<string>, sep: string): string {
    if |parts| == 0 then ""
    else if |parts| == 1 then parts[0]
    else parts[0] + sep + Join(parts[1..], sep)
  }

  function CellTexts(row: seq<Option<int>>): (r: seq<string>)
    ensures |r| == |row| && forall j :: 0 <= j < |row| ==> r[j] == CellText(row[j])
  {
    seq(|row|, j requires 0 <= j < |row| => CellText(row[j]))
  }

  /** One line of `printGraph`: `[` cells separated by single spaces `]`. */
  function PrintRow(row: seq<Option<int>>): string {
    "[" + Join(CellTexts(row), " ") + "]"
  }

  /** One row of `toString`: `[` cells separated by `, ` `]`. */
  function ListRow(row: seq<Option<int>>): string {
    "[" + Join(CellTexts(row), ", ") + "]"
  }

  function PrintRows(cells: seq<seq<Option<int>>>): (r: seq<string>)
    ensures |r| == |cells| && forall i :: 0 <= i < |cells| ==> r[i] == PrintRow(cells[i])
  {
    seq(|cells|, i requires 0 <= i < |cells| => PrintRow(cells[i]))
  }

  function ListRows(cells: seq<seq<Option<int>>>): (r: seq<string>)
    ensures |r| == |cells| && forall i :: 0 <= i < |cells| ==> r[i] == ListRow(cells[i])
  {
    seq(|cells|, i requires 0 <= i < |cells| => ListRow(cells[i]))
  }

  /** `printGraph`: the printed rows, one per line. */
  function PrintGraph(g: Graph): (r: string)
    ensures |g.matrix.cells| == 0 ==> r == ""
    ensures |g.matrix.cells| > 0 ==> LineBreaks(r) == |g.matrix.cells| - 1
    ensures |g.matrix.cells| > 0 ==> Lines(r) == PrintRows(g.matrix.cells)
  {
    var rows := PrintRows(g.matrix.cells);
    RowsWithoutBreaks(g.matrix.cells, " ");
    JoinLineBreaks(rows, "\n");
    if |rows| > 0 then
      LinesOfJoin(rows);
      Join(rows, "\n")
    else
      Join(rows, "\n")
  }

  /** `toString`: the listed rows separated by `,` and a line break, all in brackets. */
  function GraphToString(g: Graph): (r: string)
    ensures |r| >= 2 && r[0] == '[' && r[|r| - 1] == ']'
    ensures |g.matrix.cells| == 0 ==> r == "[]"
    ensures |g.matrix.cells| > 0 ==> LineBreaks(r) == |g.matrix.cells| - 1
    ensures |g.matrix.cells| > 0 ==> |Lines(r)| == |g.matrix.cells|
    ensures |g.matrix.cells| > 0 ==> forall i :: 0 <= i < |g.matrix.cells| ==>
              Lines(r)[i] == (if i == 0 then "[" else "") + ListRow(g.matrix.cells[i]) +
                             (if i == |g.matrix.cells| - 1 then "]" else ",")
  {
    RowsWithoutBreaks(g.matrix.cells, ", ");
    BracketedLines(ListRows(g.matrix.cells));
    if |g.matrix.cells| > 0 then
      ToStringLines(ListRows(g.matrix.cells));
      "[" + Join(ListRows(g.matrix.cells), ",\n") + "]"
    else
      "[" + Join(ListRows(g.matrix.cells), ",\n") + "]"
  }

  /** `s` cut at its line breaks: the text of each line, in order, without the breaks. */
  function Lines(s: string): (r: seq<string>)
    ensures |r| >= 1
  {
    if s == [] then [""]
    else
      var rest := Lines(s[1..]);
      if s[0] == '\n' then [""] + rest else [[s[0]] + rest[0]] + rest[1..]
  }

  /** A text without line breaks is one line. */
  lemma {:induction false} LinesOfOneLine(s: string)
    requires LineBreaks(s) == 0
    ensures Lines(s) == [s]
  {
    if s != [] {
      LinesOfOneLine(s[1..]);
      assert [s[0]] + s[1..] == s;
    }
  }

  /** A first line without breaks, a line break, then the rest: the first line, then the rest's lines. */
  lemma {:induction false} LinesOfFirstLine(a: string, b: string)
    requires LineBreaks(a) == 0
    ensures Lines(a + "\n" + b) == [a] + Lines(b)
  {
    var s := a + "\n" + b;
    if a == [] {
      assert s[0] == '\n' && s[1..] == b;
    } else {
      LinesOfFirstLine(a[1..], b);
      assert s[0] == a[0] && s[1..] == a[1..] + "\n" + b;
      assert [a[0]] + a[1..] == a;
    }
  }

  /** Lines without breaks, joined by line breaks, split back into those lines. */
  lemma {:induction false} LinesOfJoin(parts: seq<string>)
    requires |parts| > 0 && forall j :: 0 <= j < |parts| ==> LineBreaks(parts[j]) == 0
    ensures Lines(Join(parts, "\n")) == parts
  {
    if |parts| == 1 {
      LinesOfOneLine(parts[0]);
    } else {
      LinesOfJoin(parts[1..]);
      LinesOfFirstLine(parts[0], Join(parts[1..], "\n"));
      assert [parts[0]] + parts[1..] == parts;
    }
  }

  /** Each part followed by `,`, the last one by `]` instead. */
  function Suffixed(rows: seq<string>): (r: seq<string>)
    ensures |r| == |rows|
    ensures forall i :: 0 <= i < |rows| ==> r[i] == rows[i] + (if i == |rows| - 1 then "]" else ",")
  {
    seq(|rows|, i requires 0 <= i < |rows| => rows[i] + (if i == |rows| - 1 then "]" else ","))
  }

  /** Joining by `,` and a line break, then closing with `]`, is joining the suffixed parts by line breaks. */
  lemma {:induction false} JoinSuffixed(rows: seq<string>)
    requires |rows| > 0
    ensures Join(rows, ",\n") + "]" == Join(Suffixed(rows), "\n")
  {
    if |rows| > 1 {
      JoinSuffixed(rows[1..]);
      assert Suffixed(rows)[1..] == Suffixed(rows[1..]);
      assert Join(rows, ",\n") + "]" == (rows[0] + ",") + "\n" + (Join(rows[1..], ",\n") + "]");
    }
  }

  /** A prefix before joined parts belongs to the first part. */
  lemma PrefixFirst(x: string, parts: seq<string>, sep: string)
    requires |parts| > 0
    ensures x + Join(parts, sep) == Join([x + parts[0]] + parts[1..], sep)
  {
    var l := [x + parts[0]] + parts[1..];
    if |parts| == 1 {
      assert l == [x + parts[0]];
    } else {
      assert l[0] == x + parts[0] && l[1..] == parts[1..];
      var rest := Join(parts[1..], sep);
      assert Join(parts, sep) == parts[0] + sep + rest;
      assert Join(l, sep) == (x + parts[0]) + sep + rest;
    }
  }

  /**
   * The lines of a `toString` text: row i, preceded by `[` on the first line
   * and followed by `,`, or by `]` on the last line.
   */
  lemma ToStringLines(rows: seq<string>)
    requires |rows| > 0 && forall i :: 0 <= i < |rows| ==> LineBreaks(rows[i]) == 0
    ensures |Lines("[" + Join(rows, ",\n") + "]")| == |rows|
    ensures forall i :: 0 <= i < |rows| ==>
              Lines("[" + Join(rows, ",\n") + "]")[i] == (if i == 0 then "[" else "") + rows[i] + (if i == |rows| - 1 then "]" else ",")
  {
    var sfx := Suffixed(rows);
    JoinSuffixed(rows);
    PrefixFirst("[", sfx, "\n");
    var l := ["[" + sfx[0]] + sfx[1..];
    assert "[" + Join(rows, ",\n") + "]" == Join(l, "\n");
    NoLineBreak("[");
    NoLineBreak("]");
    NoLineBreak(",");
    forall i | 0 <= i < |rows|
      ensures LineBreaks(sfx[i]) == 0
    {
      LineBreaksAppend(rows[i], if i == |rows| - 1 then "]" else ",");
    }
    LineBreaksAppend("[", sfx[0]);
    LinesOfJoin(l);
  }

  /** The `toString` row separator holds one line break. */
  lemma SeparatorBreaks()
    ensures LineBreaks(",\n") == 1
  {
    assert ",\n"[1..] == "\n";
    assert "\n"[1..] == "";
  }

  /** Rows free of line breaks, joined by `,` and a line break inside brackets. */
  lemma BracketedLines(rows: seq<string>)
    requires forall i :: 0 <= i < |rows| ==> LineBreaks(rows[i]) == 0
    ensures |rows| == 0 ==> "[" + Join(rows, ",\n") + "]" == "[]"
    ensures |rows| > 0 ==> LineBreaks("[" + Join(rows, ",\n") + "]") == |rows| - 1
  {
    var sep := ",\n";
    var body := Join(rows, sep);
    JoinLineBreaks(rows, sep);
    if |rows| > 0 {
      SeparatorBreaks();
      assert LineBreaks(body) == |rows| - 1;
      NoLineBreak("[");
      NoLineBreak("]");
      LineBreaksAppend("[", body);
      LineBreaksAppend("[" + body, "]");
    }
  }

  /** The number of line breaks in `s`. */
  function LineBreaks(s: string): nat {
    if s == [] then 0 else (if s[0] == '\n' then 1 else 0) + LineBreaks(s[1..])
  }

  lemma {:induction false} LineBreaksAppend(a: string, b: string)
    ensures LineBreaks(a + b) == LineBreaks(a) + LineBreaks(b)
  {
    if a != [] {
      LineBreaksAppend(a[1..], b);
      assert (a + b)[1..] == a[1..] + b;
    } else {
      assert a + b == b;
    }
  }

  /** A string none of whose characters is a line break has no line breaks. */
  lemma {:induction false} NoLineBreak(s: string)
    requires forall i :: 0 <= i < |s| ==> s[i] != '\n'
    ensures LineBreaks(s) == 0
  {
    if s != [] {
      NoLineBreak(s[1..]);
    }
  }

  /** Joined parts: the separator's line breaks once between each two neighbours, plus the parts' own. */
  lemma {:induction false} JoinLineBreaks(parts: seq<string>, sep: string)
    requires forall j :: 0 <= j < |parts| ==> LineBreaks(parts[j]) == 0
    ensures |parts| == 0 ==> Join(parts, sep) == ""
    ensures |parts| > 0 ==> LineBreaks(Join(parts, sep)) == (|parts| - 1) * LineBreaks(sep)
  {
    if |parts| > 1 {
      JoinLineBreaks(parts[1..], sep);
      LineBreaksAppend(parts[0], sep);
      LineBreaksAppend(parts[0] + sep, Join(parts[1..], sep));
    }
  }

  /** A printed cell is a space, a minus sign or digits: never a line break. */
  lemma CellTextNoBreaks(c: Option<int>)
    ensures LineBreaks(CellText(c)) == 0
  {
    var s := CellText(c);
    if c != None && c != Some(0) && c.value < 0 {
      assert s == "-" + NatText(-c.value);
      assert forall i :: 1 <= i < |s| ==> s[i] == NatText(-c.value)[i - 1];
    }
    NoLineBreak(s);
  }

  /** A row `[` cells joined by `sep` `]` is free of line breaks when `sep` is. */
  lemma RowWithoutBreaks(row: seq<Option<int>>, sep: string)
    requires LineBreaks(sep) == 0
    ensures LineBreaks("[" + Join(CellTexts(row), sep) + "]") == 0
  {
    var parts := CellTexts(row);
    forall j | 0 <= j < |parts|
      ensures LineBreaks(parts[j]) == 0
    {
      CellTextNoBreaks(row[j]);
    }
    JoinLineBreaks(parts, sep);
    NoLineBreak("[");
    NoLineBreak("]");
    LineBreaksAppend("[", Join(parts, sep));
    LineBreaksAppend("[" + Join(parts, sep), "]");
  }

  /** Every row `[` cells joined by `sep` `]` of `cells` is free of line breaks when `sep` is. */
  lemma RowsWithoutBreaks(cells: seq<seq<Option<int>>>, sep: string)
    requires sep == " " || sep == ", "
    ensures forall i :: 0 <= i < |cells| ==> LineBreaks("[" + Join(CellTexts(cells[i]), sep) + "]") == 0
  {
    NoLineBreak(sep);
    forall i | 0 <= i < |cells|
      ensures LineBreaks("[" + Join(CellTexts(cells[i]), sep) + "]") == 0
    {
      RowWithoutBreaks(cells[i], sep);
    }
  }


  /** The characters at positions 0, w, 2w, ... of `s`, at most `n` of them. */
  function EveryNth(s: string, w: nat, n: nat): string {
    if n == 0 || |s| == 0 then []
    else [s[0]] + (if |s| >= w then EveryNth(s[w..], w, n - 1) else [])
  }

  /** The first character of each part. */
  function Heads(parts: seq<string>): string {
    if parts == [] then []
    else (if |parts[0]| > 0 then [parts[0][0]] else []) + Heads(parts[1..])
  }

  /**
   * Joined one-character parts, whatever follows them, are read back by
   * taking every (1 + |sep|)-th character.
   */
  lemma {:induction false} JoinSinglesRead(parts: seq<string>, sep: string, tail: string)
    requires |parts| > 0 && forall j :: 0 <= j < |parts| ==> |parts[j]| == 1
    ensures EveryNth(Join(parts, sep) + tail, 1 + |sep|, |parts|) == Heads(parts)
  {
    var s := Join(parts, sep) + tail;
    var w := 1 + |sep|;
    var rest := parts[1..];
    assert Heads(parts) == [parts[0][0]] + Heads(rest);
    if |parts| > 1 {
      JoinSinglesRead(rest, sep, tail);
      assert s == parts[0] + sep + (Join(rest, sep) + tail);
      assert s[0] == parts[0][0] && |s| >= w;
      assert s[w..] == Join(rest, sep) + tail;
      assert EveryNth(s, w, |parts|) == [s[0]] + EveryNth(s[w..], w, |parts| - 1);
    } else {
      assert s == parts[0] + tail;
      assert s[0] == parts[0][0];
      assert Heads(rest) == [];
    }
  }

  /** Joined one-character parts take one place each and |sep| places between two. */
  lemma {:induction false} JoinSinglesLength(parts: seq<string>, sep: string)
    requires |parts| > 0 && forall j :: 0 <= j < |parts| ==> |parts[j]| == 1
    ensures |Join(parts, sep)| == |parts| + (|parts| - 1) * |sep|
  {
    if |parts| > 1 {
      JoinSinglesLength(parts[1..], sep);
      assert (|parts| - 1) * |sep| == |sep| + (|parts| - 2) * |sep|;
    }
  }

  /** One-character parts joined by single spaces: a space at every odd place. */
  lemma {:induction false} SpaceSeparators(parts: seq<string>)
    requires |parts| > 0 && forall j :: 0 <= j < |parts| ==> |parts[j]| == 1
    ensures |Join(parts, " ")| == 2 * |parts| - 1
    ensures forall j :: 0 <= j < |parts| - 1 ==> Join(parts, " ")[2 * j + 1] == ' '
  {
    if |parts| > 1 {
      SpaceSeparators(parts[1..]);
      var rest := Join(parts[1..], " ");
      var s := Join(parts, " ");
      assert s == parts[0] + " " + rest;
      forall j | 1 <= j < |parts| - 1
        ensures s[2 * j + 1] == ' '
      {
        assert s[2 * j + 1] == rest[2 * (j - 1) + 1];
      }
    }
  }

  /** One-character parts joined by `, `: the comma and the space after every part but the last. */
  lemma {:induction false} CommaSeparators(parts: seq<string>)
    requires |parts| > 0 && forall j :: 0 <= j < |parts| ==> |parts[j]| == 1
    ensures |Join(parts, ", ")| == 3 * |parts| - 2
    ensures forall j :: 0 <= j < |parts| - 1 ==> Join(parts, ", ")[3 * j + 1] == ',' && Join(parts, ", ")[3 * j + 2] == ' '
  {
    if |parts| > 1 {
      CommaSeparators(parts[1..]);
      var rest := Join(parts[1..], ", ");
      var s := Join(parts, ", ");
      assert s == parts[0] + ", " + rest;
      forall j | 1 <= j < |parts| - 1
        ensures s[3 * j + 1] == ',' && s[3 * j + 2] == ' '
      {
        assert s[3 * j + 1] == rest[3 * (j - 1) + 1];
        assert s[3 * j + 2] == rest[3 * (j - 1) + 2];
      }
    }
  }

  /** A cell shown by one character: empty, or a single digit. */
  predicate NarrowCell(c: Option<int>) {
    c == None || 0 <= c.value < 10
  }

  /** The one character a narrow cell prints as. */
  function CellChar(c: Option<int>): char
    requires NarrowCell(c)
  {
    if c == None || c == Some(0) then ' ' else DigitChar(c.value)
  }

  /** The characters of a row of narrow cells. */
  function CellChars(row: seq<Option<int>>): (r: string)
    requires forall j :: 0 <= j < |row| ==> NarrowCell(row[j])
  {
    if row == [] then [] else [CellChar(row[0])] + CellChars(row[1..])
  }

  /** A narrow cell prints as its one character. */
  lemma NarrowCellText(c: Option<int>)
    requires NarrowCell(c)
    ensures CellText(c) == [CellChar(c)]
  {
    if c != None && c != Some(0) {
      assert NatText(c.value) == [DigitChar(c.value)];
    }
  }

  /** The first characters of the printed narrow cells are the cells' characters. */
  lemma {:induction false} NarrowHeads(row: seq<Option<int>>)
    requires forall j :: 0 <= j < |row| ==> NarrowCell(row[j])
    ensures forall j :: 0 <= j < |row| ==> |CellTexts(row)[j]| == 1
    ensures Heads(CellTexts(row)) == CellChars(row)
  {
    forall j | 0 <= j < |row|
      ensures CellTexts(row)[j] == [CellChar(row[j])]
    {
      NarrowCellText(row[j]);
    }
    if row != [] {
      NarrowHeads(row[1..]);
      assert CellTexts(row)[1..] == CellTexts(row[1..]);
    }
  }

  /**
   * One-character parts joined by `sep` inside brackets: the brackets at both
   * ends, and the parts read back by taking every (1 + |sep|)-th character
   * after the opening bracket.
   */
  lemma BracketedSingles(parts: seq<string>, sep: string)
    requires |parts| > 0 && forall j :: 0 <= j < |parts| ==> |parts[j]| == 1
    ensures |"[" + Join(parts, sep) + "]"| == |parts| + (|parts| - 1) * |sep| + 2
    ensures ("[" + Join(parts, sep) + "]")[0] == '['
    ensures ("[" + Join(parts, sep) + "]")[|parts| + (|parts| - 1) * |sep| + 1] == ']'
    ensures EveryNth(("[" + Join(parts, sep) + "]")[1..], 1 + |sep|, |parts|) == Heads(parts)
  {
    JoinSinglesLength(parts, sep);
    JoinSinglesRead(parts, sep, "]");
    assert ("[" + Join(parts, sep) + "]")[1..] == Join(parts, sep) + "]";
  }

  /**
   * A `printGraph` line of narrow cells: brackets at both ends and the cells
   * at every second place in between, so reading every second character
   * after the opening bracket gives the row back.
   */
  lemma PrintRowLayout(row: seq<Option<int>>)
    requires |row| > 0 && forall j :: 0 <= j < |row| ==> NarrowCell(row[j])
    ensures |PrintRow(row)| == 2 * |row| + 1
    ensures PrintRow(row)[0] == '[' && PrintRow(row)[2 * |row|] == ']'
    ensures EveryNth(PrintRow(row)[1..], 2, |row|) == CellChars(row)
    ensures forall j :: 0 <= j < |row| - 1 ==> PrintRow(row)[2 * j + 2] == ' '
  {
    NarrowHeads(row);
    BracketedSingles(CellTexts(row), " ");
    assert (|row| - 1) * |" "| == |row| - 1;
    PrintRowSeparators(row);
  }

  /** Between two cells of a `printGraph` line of narrow cells stands one space. */
  lemma PrintRowSeparators(row: seq<Option<int>>)
    requires |row| > 0 && forall j :: 0 <= j < |row| ==> NarrowCell(row[j])
    ensures |PrintRow(row)| == 2 * |row| + 1
    ensures forall j :: 0 <= j < |row| - 1 ==> PrintRow(row)[2 * j + 2] == ' '
  {
    NarrowHeads(row);
    var body := Join(CellTexts(row), " ");
    SpaceSeparators(CellTexts(row));
    assert PrintRow(row) == "[" + body + "]";
    assert forall k :: 0 <= k < |body| ==> PrintRow(row)[k + 1] == body[k];
  }

  /**
   * A `toString` row of narrow cells: brackets at both ends and the cells at
   * every third place in between, each but the last followed by `, `.
   */
  lemma ListRowLayout(row: seq<Option<int>>)
    requires |row| > 0 && forall j :: 0 <= j < |row| ==> NarrowCell(row[j])
    ensures |ListRow(row)| == 3 * |row|
    ensures ListRow(row)[0] == '[' && ListRow(row)[3 * |row| - 1] == ']'
    ensures EveryNth(ListRow(row)[1..], 3, |row|) == CellChars(row)
    ensures forall j :: 0 <= j < |row| - 1 ==> ListRow(row)[3 * j + 2..3 * j + 4] == ", "
  {
    var parts := CellTexts(row);
    NarrowHeads(row);
    BracketedSingles(parts, ", ");
    assert |", "| == 2;
    var n := |parts| + (|parts| - 1) * 2;
    assert n == 3 * |row| - 2;
    assert |"[" + Join(parts, ", ") + "]"| == 3 * |row|;
    ListRowSeparators(row);
  }

  /** Between two cells of a `toString` row of narrow cells stands `, `. */
  lemma ListRowSeparators(row: seq<Option<int>>)
    requires |row| > 0 && forall j :: 0 <= j < |row| ==> NarrowCell(row[j])
    ensures |ListRow(row)| == 3 * |row|
    ensures forall j :: 0 <= j < |row| - 1 ==> ListRow(row)[3 * j + 2..3 * j + 4] == ", "
  {
    NarrowHeads(row);
    var body := Join(CellTexts(row), ", ");
    CommaSeparators(CellTexts(row));
    assert ListRow(row) == "[" + body + "]";
    assert forall k :: 0 <= k < |body| ==> ListRow(row)[k + 1] == body[k];
    forall j | 0 <= j < |row| - 1
      ensures ListRow(row)[3 * j + 2..3 * j + 4] == ", "
    {
      assert ListRow(row)[3 * j + 2] == ',' && ListRow(row)[3 * j + 3] == ' ';
    }
  }

  /** Three parts joined: each separated from the next by `sep`. */
  lemma JoinThree(x: string, y: string, z: string, sep: string)
    ensures Join([x, y, z], sep) == x + sep + y + sep + z
  {
    assert [x, y, z][1..] == [y, z];
    assert [y, z][1..] == [z];
    assert Join([y, z], sep) == y + sep + z;
    assert x + sep + (y + sep + z) == x + sep + y + sep + z;
  }

  /** The matrix of the rendering examples: [0, 1, 0], [1, 1, 1], [0, 0, 1]. */
  const ExampleCells: Grid := [[None, Some(1), None], [Some(1), Some(1), Some(1)], [None, None, Some(1)]]

  /** The cells of the example, row by row, as printed. */
  lemma ExampleCellTexts()
    ensures CellTexts(ExampleCells[0]) == [" ", "1", " "]
    ensures CellTexts(ExampleCells[1]) == ["1", "1", "1"]
    ensures CellTexts(ExampleCells[2]) == [" ", " ", "1"]
  {
    assert CellText(Some(1)) == "1" by {
      assert NatText(1) == [DigitChar(1)];
    }
  }

  /** The example's rows as `printGraph` lines. */
  lemma ExamplePrintRows()
    ensures PrintRows(ExampleCells) == ["[  1  ]", "[1 1 1]", "[    1]"]
  {
    ExampleCellTexts();
    JoinThree(" ", "1", " ", " ");
    JoinThree("1", "1", "1", " ");
    JoinThree(" ", " ", "1", " ");
    assert PrintRow(ExampleCells[0]) == "[  1  ]";
    assert PrintRow(ExampleCells[1]) == "[1 1 1]";
    assert PrintRow(ExampleCells[2]) == "[    1]";
  }

  /** The example's rows as `toString` lists. */
  lemma ExampleListRows()
    ensures ListRows(ExampleCells) == ["[ , 1,  ]", "[1, 1, 1]", "[ ,  , 1]"]
  {
    ExampleCellTexts();
    JoinThree(" ", "1", " ", ", ");
    JoinThree("1", "1", "1", ", ");
    JoinThree(" ", " ", "1", ", ");
    assert ListRow(ExampleCells[0]) == "[ , 1,  ]";
    assert ListRow(ExampleCells[1]) == "[1, 1, 1]";
    assert ListRow(ExampleCells[2]) == "[ ,  , 1]";
  }

  /** The example of the `printGraph` documentation, line by line. */
  lemma PrintGraphExample()
    ensures PrintGraph(Graph(Matrix(Regular, ExampleCells), Index(0, 0))) ==
            "[  1  ]" + "\n" + "[1 1 1]" + "\n" + "[    1]"
  {
    ExamplePrintRows();
    JoinThree("[  1  ]", "[1 1 1]", "[    1]", "\n");
  }

  /** The example of the `toString` documentation, line by line. */
  lemma ToStringExample()
    ensures GraphToString(Graph(Matrix(Regular, ExampleCells), Index(0, 0))) ==
            "[" + "[ , 1,  ]" + ",\n" + "[1, 1, 1]" + ",\n" + "[ ,  , 1]" + "]"
  {
    ExampleListRows();
    JoinThree("[ , 1,  ]", "[1, 1, 1]", "[ ,  , 1]", ",\n");
    var inner := "[ , 1,  ]" + ",\n" + "[1, 1, 1]" + ",\n" + "[ ,  , 1]";
    assert "[" + inner + "]" == "[" + "[ , 1,  ]" + ",\n" + "[1, 1, 1]" + ",\n" + "[ ,  , 1]" + "]";
  }
}
