/**
 * The text side of CSV import: line splitting, blank-line filtering, field
 * splitting and trimming, and the four-field acceptance test.
 */
module CsvImport {
  import opened Wrappers

  /**
   * The characters `String.prototype.trim` strips: ECMAScript WhiteSpace
   * (tab, vertical tab, form feed, space, no-break space, byte order mark and
   * the space separators) and LineTerminator (LF, CR, LS, PS).
   */
  predicate IsWhitespace(c: char)
  {
    c == '\t' || c == '\n' || c == '\U{000B}' || c == '\U{000C}' || c == '\r' || c == ' '
    || c == '\U{00A0}' || c == '\U{1680}' || ('\U{2000}' <= c <= '\U{200A}')
    || c == '\U{2028}' || c == '\U{2029}' || c == '\U{202F}' || c == '\U{205F}'
    || c == '\U{3000}' || c == '\U{FEFF}'
  }

  /** `s` without its leading whitespace. */
  function TrimStart(s: string): string
  {
    if |s| > 0 && IsWhitespace(s[0]) then TrimStart(s[1..]) else s
  }

  /** `s` without its trailing whitespace. */
  function TrimEnd(s: string): string
  {
    if |s| > 0 && IsWhitespace(s[|s| - 1]) then TrimEnd(s[..|s| - 1]) else s
  }

  /** `s` without its leading and trailing whitespace, as JavaScript's `trim` strips it. */
  function Trim(s: string): string
  {
    TrimEnd(TrimStart(s))
  }

  /** `TrimStart` drops a prefix of whitespace and keeps a suffix that does not start with any. */
  lemma {:induction false} TrimStartSpec(s: string)
    ensures |TrimStart(s)| <= |s| && TrimStart(s) == s[|s| - |TrimStart(s)|..]
    ensures forall i :: 0 <= i < |s| - |TrimStart(s)| ==> IsWhitespace(s[i])
    ensures |TrimStart(s)| > 0 ==> !IsWhitespace(TrimStart(s)[0])
    decreases |s|
  {
    if |s| > 0 && IsWhitespace(s[0]) {
      TrimStartSpec(s[1..]);
      forall i | 1 <= i < |s| - |TrimStart(s)|
        ensures IsWhitespace(s[i])
      {
        assert s[i] == s[1..][i - 1];
      }
    }
  }

  /** `TrimEnd` drops a suffix of whitespace and keeps a prefix that does not end with any. */
  lemma {:induction false} TrimEndSpec(s: string)
    ensures |TrimEnd(s)| <= |s| && TrimEnd(s) == s[..|TrimEnd(s)|]
    ensures forall i :: |TrimEnd(s)| <= i < |s| ==> IsWhitespace(s[i])
    ensures |TrimEnd(s)| > 0 ==> !IsWhitespace(TrimEnd(s)[|TrimEnd(s)| - 1])
    decreases |s|
  {
    if |s| > 0 && IsWhitespace(s[|s| - 1]) {
      var front := s[..|s| - 1];
      TrimEndSpec(front);
      forall i | |TrimEnd(s)| <= i < |s| - 1
        ensures IsWhitespace(s[i])
      {
        assert s[i] == front[i];
      }
    }
  }

  /**
   * Trimming leaves nothing exactly when `s` is all whitespace; otherwise
   * what it leaves starts and ends with a non-whitespace character. Every
   * character it keeps comes from `s`.
   */
  lemma TrimSpec(s: string)
    ensures |Trim(s)| == 0 <==> forall i :: 0 <= i < |s| ==> IsWhitespace(s[i])
    ensures |Trim(s)| > 0 ==> !IsWhitespace(Trim(s)[0]) && !IsWhitespace(Trim(s)[|Trim(s)| - 1])
    ensures forall c :: c in Trim(s) ==> c in s
  {
    var t := TrimStart(s);
    TrimStartSpec(s);
    TrimEndSpec(t);
    var k := |s| - |t|;
    if |Trim(s)| > 0 {
      assert Trim(s)[0] == t[0];
    }
    forall c | c in Trim(s)
      ensures c in s
    {
      var j :| 0 <= j < |Trim(s)| && Trim(s)[j] == c;
      assert t[j] == c;
      assert s[k + j] == c;
    }
  }

  /** A string with no whitespace at either end trims to itself. */
  lemma TrimmedIsFixed(s: string)
    requires |s| == 0 || (!IsWhitespace(s[0]) && !IsWhitespace(s[|s| - 1]))
    ensures Trim(s) == s
  {
  }

  /** Trimming twice is trimming once. */
  lemma TrimIdempotent(s: string)
    ensures Trim(Trim(s)) == Trim(s)
  {
    TrimSpec(s);
    TrimmedIsFixed(Trim(s));
  }

  /** JavaScript's string split on one character: the pieces between the separators, at least one. */
  function Split(s: string, sep: char): (parts: seq<string>)
    ensures |parts| >= 1
    ensures forall i :: 0 <= i < |parts| ==> sep !in parts[i]
  {
    if |s| == 0 then [""]
    else
      var rest := Split(s[1..], sep);
      if s[0] == sep then [""] + rest else [[s[0]] + rest[0]] + rest[1..]
  }

  /** The pieces with the separator between each two. */
  function Join(parts: seq<string>, sep: char): string
    requires |parts| >= 1
  {
    if |parts| == 1 then parts[0] else parts[0] + [sep] + Join(parts[1..], sep)
  }

  /** Joining the pieces of a split gives back the text. */
  lemma {:induction false} JoinSplit(s: string, sep: char)
    ensures Join(Split(s, sep), sep) == s
  {
    if s != [] {
      var rest := Split(s[1..], sep);
      JoinSplit(s[1..], sep);
      if s[0] == sep {
        assert s == [sep] + s[1..];
      } else {
        var parts := Split(s, sep);
        assert parts[0] == [s[0]] + rest[0] && parts[1..] == rest[1..];
        if |rest| > 1 {
          assert Join(rest, sep) == rest[0] + [sep] + Join(rest[1..], sep);
        }
        assert s == [s[0]] + s[1..];
      }
    }
  }

  lemma {:induction false} SplitAfterPiece(p: string, t: string, sep: char)
    requires sep !in p
    ensures Split(p + t, sep) == [p + Split(t, sep)[0]] + Split(t, sep)[1..]
  {
    if p != [] {
      assert p[0] in p;
      assert forall c :: c in p[1..] ==> c in p;
      SplitAfterPiece(p[1..], t, sep);
      var st := Split(t, sep);
      var rest := Split(p[1..] + t, sep);
      assert rest[0] == p[1..] + st[0] && rest[1..] == st[1..];
      assert (p + t)[1..] == p[1..] + t;
      assert (p + t)[0] == p[0] != sep;
      assert Split(p + t, sep) == [[p[0]] + rest[0]] + rest[1..];
      assert [p[0]] + (p[1..] + st[0]) == p + st[0];
      assert Split(p + t, sep) == [p + st[0]] + st[1..];
    } else {
      assert p + t == t;
      var st := Split(t, sep);
      assert p + st[0] == st[0];
      assert st == [st[0]] + st[1..];
    }
  }

  /** Splitting joined pieces that do not contain the separator gives back the pieces. */
  lemma {:induction false} SplitJoin(parts: seq<string>, sep: char)
    requires |parts| >= 1
    requires forall i :: 0 <= i < |parts| ==> sep !in parts[i]
    ensures Split(Join(parts, sep), sep) == parts
  {
    if |parts| == 1 {
      SplitAfterPiece(parts[0], [], sep);
      assert parts[0] + [] == parts[0];
    } else {
      var tail := Join(parts[1..], sep);
      SplitJoin(parts[1..], sep);
      assert parts[0] + [sep] + tail == parts[0] + ([sep] + tail);
      SplitAfterPiece(parts[0], [sep] + tail, sep);
      assert ([sep] + tail)[1..] == tail;
      assert parts[0] + "" == parts[0];
    }
  }

  lemma {:induction false} NotInJoin(parts: seq<string>, sep: char, c: char)
    requires |parts| >= 1 && c != sep
    requires forall i :: 0 <= i < |parts| ==> c !in parts[i]
    ensures c !in Join(parts, sep)
  {
    if |parts| > 1 {
      NotInJoin(parts[1..], sep, c);
    }
  }

  /** A trailing separator adds one empty piece. */
  lemma {:induction false} SplitTrailingSeparator(s: string, sep: char)
    ensures Split(s + [sep], sep) == Split(s, sep) + [""]
  {
    if s == [] {
      assert Split([sep], sep) == [""] + Split([], sep);
    } else {
      SplitTrailingSeparator(s[1..], sep);
      assert (s + [sep])[1..] == s[1..] + [sep];
    }
  }

  predicate IsBlank(line: string)
  {
    |Trim(line)| == 0
  }

  /** The lines of a text, without those that are empty or all whitespace. */
  function NonBlankLines(text: string): seq<string>
  {
    KeepNonBlank(Split(text, '\n'))
  }

  function KeepNonBlank(lines: seq<string>): (r: seq<string>)
    ensures |r| <= |lines|
    ensures forall i :: 0 <= i < |r| ==> !IsBlank(r[i])
  {
    if |lines| == 0 then []
    else
      var n := |lines| - 1;
      KeepNonBlank(lines[..n]) + (if IsBlank(lines[n]) then [] else [lines[n]])
  }

  lemma {:induction false} KeepNonBlankPrepend(line: string, lines: seq<string>)
    ensures KeepNonBlank([line] + lines)
         == (if IsBlank(line) then [] else [line]) + KeepNonBlank(lines)
    decreases |lines|
  {
    var all := [line] + lines;
    if lines != [] {
      var n := |lines| - 1;
      assert all[..|all| - 1] == [line] + lines[..n];
      KeepNonBlankPrepend(line, lines[..n]);
    } else {
      assert all[..0] == [];
    }
  }

  /** The four leading fields of an accepted line. */
  datatype Row = Row(subject: string, grade: string, date: string, examType: string)

  /** Every piece trimmed, in order. */
  function TrimAll(parts: seq<string>): seq<string>
  {
    if |parts| == 0 then [] else [Trim(parts[0])] + TrimAll(parts[1..])
  }

  lemma {:induction false} TrimAllPieces(parts: seq<string>)
    ensures |TrimAll(parts)| == |parts|
    ensures forall i :: 0 <= i < |parts| ==> TrimAll(parts)[i] == Trim(parts[i])
  {
    if |parts| > 0 {
      TrimAllPieces(parts[1..]);
    }
  }

  /** The comma-separated fields of a line, each trimmed. */
  function Fields(line: string): seq<string>
  {
    TrimAll(Split(line, ','))
  }

  lemma FieldsAreTrimmed(line: string)
    ensures forall i :: 0 <= i < |Fields(line)| ==>
      Trim(Fields(line)[i]) == Fields(line)[i] && ',' !in Fields(line)[i]
  {
    var parts := Split(line, ',');
    TrimAllPieces(parts);
    forall i | 0 <= i < |parts|
      ensures Trim(Fields(line)[i]) == Fields(line)[i] && ',' !in Fields(line)[i]
    {
      TrimIdempotent(parts[i]);
      TrimSpec(parts[i]);
    }
  }

  /** A field as an accepted line yields it: non-empty, trimmed and free of commas. */
  predicate CleanField(f: string)
  {
    |f| > 0 && Trim(f) == f && ',' !in f
  }

  /**
   * The first four fields as subject, grade, date and exam type; a line with
   * fewer than four fields, or with any of the four empty, is rejected.
   */
  function ParseRow(line: string): Option<Row>
  {
    var f := Fields(line);
    if |f| >= 4 && |f[0]| > 0 && |f[1]| > 0 && |f[2]| > 0 && |f[3]| > 0 then
      Some(Row(f[0], f[1], f[2], f[3]))
    else None
  }

  /**
   * A line is accepted exactly when it has four fields none of which is
   * empty after trimming, and every field of the row it yields is clean.
   */
  lemma ParseRowAccepts(line: string)
    ensures ParseRow(line).Some? <==> (|Fields(line)| >= 4 && |Fields(line)[0]| > 0 && |Fields(line)[1]| > 0
      && |Fields(line)[2]| > 0 && |Fields(line)[3]| > 0)
    ensures ParseRow(line).Some? ==>
      var r := ParseRow(line).value;
      CleanField(r.subject) && CleanField(r.grade) && CleanField(r.date) && CleanField(r.examType)
  {
    FieldsAreTrimmed(line);
  }

  /** The rows of the accepted lines of `lines`, in line order. */
  function RowsOf(lines: seq<string>): (rows: seq<Row>)
    ensures |rows| <= |lines|
  {
    if |lines| == 0 then []
    else
      var n := |lines| - 1;
      RowsOf(lines[..n]) + (match ParseRow(lines[n]) case Some(row) => [row] case None => [])
  }

  /** Lines are accepted one at a time: the rows of a longer list extend those of its prefix. */
  lemma RowsOfAppend(lines: seq<string>, line: string)
    ensures RowsOf(lines + [line]) == RowsOf(lines) + RowsOf([line])
  {
    assert (lines + [line])[..|lines|] == lines;
    assert [line][..0] == [];
  }

  /**
   * The rows read from `lines` before index `n`, the line at index 0 (the
   * header) skipped whatever it holds.
   */
  function RowsBefore(lines: seq<string>, n: nat): seq<Row>
    requires n <= |lines|
  {
    if n <= 1 then []
    else RowsBefore(lines, n - 1) + (match ParseRow(lines[n - 1]) case Some(row) => [row] case None => [])
  }

  /** Skipping index 0 while reading is reading the lines after the first. */
  lemma {:induction false} RowsBeforeSkipsHeader(lines: seq<string>, n: nat)
    requires 1 <= n <= |lines|
    ensures RowsBefore(lines, n) == RowsOf(lines[1..n])
  {
    if n > 1 {
      RowsBeforeSkipsHeader(lines, n - 1);
      assert lines[1..n][..n - 2] == lines[1..n - 1];
      assert lines[1..n][n - 2] == lines[n - 1];
    }
  }

  /** The rows of every accepted line after the first, which is the header. */
  function RowsAfterHeader(lines: seq<string>): seq<Row>
  {
    if |lines| == 0 then [] else RowsOf(lines[1..])
  }

  /** Reading every line, the header skipped, yields the rows after the header. */
  lemma RowsBeforeAll(lines: seq<string>)
    ensures RowsBefore(lines, |lines|) == RowsAfterHeader(lines)
  {
    if |lines| > 0 {
      RowsBeforeSkipsHeader(lines, |lines|);
      assert lines[1..|lines|] == lines[1..];
    }
  }

  /** The rows a CSV text imports: every non-blank line after the first. */
  function CsvRows(text: string): seq<Row>
  {
    RowsAfterHeader(NonBlankLines(text))
  }

  /** The lines `lead`, each followed by a line break, in front of `text`. */
  function PrefixLines(lead: seq<string>, text: string): string
  {
    if lead == [] then text else lead[0] + "\n" + PrefixLines(lead[1..], text)
  }

  /** A line in front of a text splits off as a line of its own. */
  lemma SplitLeadingLine(line: string, text: string)
    requires '\n' !in line
    ensures Split(line + "\n" + text, '\n') == [line] + Split(text, '\n')
  {
    var t := "\n" + text;
    assert Split(t, '\n') == [""] + Split(text, '\n') by {
      assert t[1..] == text;
    }
    SplitAfterPiece(line, t, '\n');
    assert line + "\n" + text == line + t;
    assert line + "" == line;
  }

  /**
   * The first non-blank line is the header and never a record: whatever it
   * holds, and however many blank lines come before it, the rows are those
   * of the lines after it.
   */
  lemma {:induction false} CsvRowsAfterHeader(lead: seq<string>, header: string, body: string)
    requires forall i :: 0 <= i < |lead| ==> IsBlank(lead[i]) && '\n' !in lead[i]
    requires !IsBlank(header) && '\n' !in header
    ensures CsvRows(PrefixLines(lead, header + "\n" + body)) == RowsOf(NonBlankLines(body))
  {
    if lead == [] {
      var rest := NonBlankLines(body);
      LeadingLineKept(header, body);
      assert ([header] + rest)[1..] == rest;
    } else {
      CsvRowsAfterHeader(lead[1..], header, body);
      BlankLineDropped(lead[0], PrefixLines(lead[1..], header + "\n" + body));
    }
  }

  lemma BlankLineDropped(line: string, text: string)
    requires IsBlank(line) && '\n' !in line
    ensures NonBlankLines(line + "\n" + text) == NonBlankLines(text)
  {
    SplitLeadingLine(line, text);
    KeepNonBlankPrepend(line, Split(text, '\n'));
  }

  lemma LeadingLineKept(line: string, text: string)
    requires !IsBlank(line) && '\n' !in line
    ensures NonBlankLines(line + "\n" + text) == [line] + NonBlankLines(text)
  {
    SplitLeadingLine(line, text);
    KeepNonBlankPrepend(line, Split(text, '\n'));
  }

  /** A final line break (an empty last line) adds no row. */
  lemma CsvRowsTrailingNewline(text: string)
    ensures CsvRows(text + "\n") == CsvRows(text)
  {
    SplitTrailingSeparator(text, '\n');
    var parts := Split(text, '\n');
    assert KeepNonBlank(parts + [""]) == KeepNonBlank(parts) by {
      assert (parts + [""])[..|parts|] == parts;
      assert IsBlank("");
    }
    assert NonBlankLines(text + "\n") == NonBlankLines(text);
  }

  /** A row written out as a CSV line. */
  function FormatRow(r: Row): string
  {
    Join([r.subject, r.grade, r.date, r.examType], ',')
  }

  /** A row every field of which survives a write and a read. */
  predicate Writable(r: Row)
  {
    CleanField(r.subject) && CleanField(r.grade) && CleanField(r.date) && CleanField(r.examType)
    && '\n' !in r.subject && '\n' !in r.grade && '\n' !in r.date && '\n' !in r.examType
  }

  lemma ParseFormatRow(r: Row)
    requires Writable(r)
    ensures ParseRow(FormatRow(r)) == Some(r)
    ensures '\n' !in FormatRow(r) && !IsBlank(FormatRow(r))
  {
    var parts := [r.subject, r.grade, r.date, r.examType];
    SplitJoin(parts, ',');
    TrimAllPieces(parts);
    NotInJoin(parts, ',', '\n');
    var line := FormatRow(r);
    assert line == r.subject + [','] + Join(parts[1..], ',');
    assert line[0] == r.subject[0];
    TrimSpec(r.subject);
    assert !IsWhitespace(line[0]);
    TrimSpec(line);
  }

  /** A header, then one line per row. */
  function Serialize(header: string, rows: seq<Row>): string
  {
    Join([header] + seq(|rows|, i requires 0 <= i < |rows| => FormatRow(rows[i])), '\n')
  }

  lemma {:induction false} RowsOfFormatted(rows: seq<Row>)
    requires forall i :: 0 <= i < |rows| ==> Writable(rows[i])
    ensures RowsOf(seq(|rows|, i requires 0 <= i < |rows| => FormatRow(rows[i]))) == rows
  {
    if rows != [] {
      var n := |rows| - 1;
      assert rows == rows[..n] + [rows[n]];
      var lines := seq(|rows|, i requires 0 <= i < |rows| => FormatRow(rows[i]));
      var front := seq(n, i requires 0 <= i < n => FormatRow(rows[..n][i]));
      assert lines[..n] == front;
      RowsOfFormatted(rows[..n]);
      ParseFormatRow(rows[n]);
      assert RowsOf(lines) == RowsOf(front) + [rows[n]];
    }
  }

  lemma {:induction false} KeepNonBlankAll(lines: seq<string>)
    requires forall i :: 0 <= i < |lines| ==> !IsBlank(lines[i])
    ensures KeepNonBlank(lines) == lines
  {
    if lines != [] {
      var n := |lines| - 1;
      KeepNonBlankAll(lines[..n]);
      assert lines == lines[..n] + [lines[n]];
    }
  }

  /**
   * Reading back a written file: a header line followed by one line per
   * writable row imports exactly those rows, in order.
   */
  lemma CsvRoundTrip(header: string, rows: seq<Row>)
    requires !IsBlank(header) && '\n' !in header
    requires forall i :: 0 <= i < |rows| ==> Writable(rows[i])
    ensures CsvRows(Serialize(header, rows)) == rows
  {
    var formatted := seq(|rows|, i requires 0 <= i < |rows| => FormatRow(rows[i]));
    var lines := [header] + formatted;
    forall i | 0 <= i < |rows| ensures '\n' !in formatted[i] && !IsBlank(formatted[i]) {
      ParseFormatRow(rows[i]);
    }
    SplitJoin(lines, '\n');
    KeepNonBlankAll(lines);
    assert lines[1..] == formatted;
    RowsOfFormatted(rows);
  }
}
