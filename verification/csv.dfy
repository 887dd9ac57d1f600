/** The CSV export of the admin dashboard (AdminDashboard.js): the header,
    one line per idea, the title quoted with its quotes doubled, and a reader
    for one record in the usual CSV convention (fields separated by commas;
    a field in double quotes may hold commas, and `""` inside it stands for
    one quote). */
module Csv {
  import Text

  /** `t.replace(/"/g, '""')`. */
  function DoubleQuotes(t: string): (r: string)
    ensures |r| >= |t|
    ensures '"' !in t ==> r == t
  {
    if |t| == 0 then ""
    else (if t[0] == '"' then "\"\"" else [t[0]]) + DoubleQuotes(t[1..])
  }

  /** `"${t.replace(/"/g, '""')}"`. */
  function Quote(t: string): (r: string)
    ensures |r| >= 2 && r[0] == '"' && r[|r| - 1] == '"'
  {
    "\"" + DoubleQuotes(t) + "\""
  }

  // ---------------------------------------------------------------------
  // reading one record

  /** The rest of a quoted field after its opening quote: `""` is one quote,
      a lone `"` ends the field; an unterminated field runs to the end. */
  function ReadQuoted(s: string): (r: (string, string))
    ensures |r.1| <= |s|
  {
    if |s| == 0 then ("", "")
    else if s[0] == '"' then
      if |s| > 1 && s[1] == '"' then
        var r := ReadQuoted(s[2..]);
        ("\"" + r.0, r.1)
      else ("", s[1..])
    else
      var r := ReadQuoted(s[1..]);
      ([s[0]] + r.0, r.1)
  }

  /** The position of the first comma, or the length when there is none. */
  function FirstComma(s: string): (i: nat)
    ensures i <= |s|
  {
    if |s| == 0 || s[0] == ',' then 0 else 1 + FirstComma(s[1..])
  }

  /** It is the first one: no comma before it, and a comma at it unless the
      text has run out. */
  lemma {:induction false} FirstCommaIsFirst(s: string)
    ensures forall k :: 0 <= k < FirstComma(s) ==> s[k] != ','
    ensures FirstComma(s) == |s| || s[FirstComma(s)] == ','
  {
    if |s| > 0 && s[0] != ',' {
      FirstCommaIsFirst(s[1..]);
    }
  }

  /** An unquoted field: everything up to the next comma. */
  function ReadBare(s: string): (r: (string, string))
    ensures |r.1| <= |s|
  {
    var i := FirstComma(s);
    (s[..i], s[i..])
  }

  /** What `ReadBare` splits off has no comma, and what it leaves is empty
      or starts with the comma; the two pieces make up the input. */
  lemma ReadBareSplits(s: string)
    ensures ReadBare(s).0 + ReadBare(s).1 == s && ',' !in ReadBare(s).0
    ensures ReadBare(s).1 == "" || ReadBare(s).1[0] == ','
  {
    FirstCommaIsFirst(s);
    assert s[..FirstComma(s)] + s[FirstComma(s)..] == s;
  }

  function ReadField(s: string): (r: (string, string))
    ensures |r.1| <= |s|
  {
    if |s| > 0 && s[0] == '"' then ReadQuoted(s[1..]) else ReadBare(s)
  }

  /** The fields of one record. */
  function ReadRecord(s: string): (fields: seq<string>)
    ensures |fields| >= 1
    decreases |s|
  {
    var r := ReadField(s);
    if |r.1| > 0 && r.1[0] == ',' then [r.0] + ReadRecord(r.1[1..]) else [r.0]
  }

  /** A quoted field reads back as the text that was quoted, whatever
      follows it (provided it does not start with a quote). */
  lemma {:induction false} ReadQuotedDoubled(t: string, rest: string)
    requires rest == "" || rest[0] != '"'
    ensures ReadQuoted(DoubleQuotes(t) + "\"" + rest) == (t, rest)
  {
    if |t| > 0 {
      var tail := DoubleQuotes(t[1..]) + "\"" + rest;
      ReadQuotedDoubled(t[1..], rest);
      DoubledSplit(t, rest);
      if t[0] == '"' {
        ReadEscapedQuote(tail);
      } else {
        ReadOrdinary(t[0], tail);
      }
      HeadTail(t);
    } else {
      assert DoubleQuotes(t) + "\"" + rest == "\"" + rest;
      ReadClosingQuote(rest);
    }
  }

  /** The doubled text of `t`, closed, is its first character's part before
      the doubled, closed rest. */
  lemma DoubledSplit(t: string, rest: string)
    requires |t| > 0
    ensures DoubleQuotes(t) + "\"" + rest
         == (if t[0] == '"' then "\"\"" else [t[0]]) + (DoubleQuotes(t[1..]) + "\"" + rest)
  {
    var h := if t[0] == '"' then "\"\"" else [t[0]];
    var d := DoubleQuotes(t[1..]);
    assert DoubleQuotes(t) == h + d;
    QuoteAfter(h, d, rest);
  }

  lemma QuoteAfter(h: string, d: string, rest: string)
    ensures (h + d) + "\"" + rest == h + (d + "\"" + rest)
  {
  }

  lemma HeadTail(t: string)
    requires |t| > 0
    ensures [t[0]] + t[1..] == t
  {
  }

  /** Inside quotes, `""` is one quote. */
  lemma ReadEscapedQuote(tail: string)
    ensures ReadQuoted("\"\"" + tail) == ("\"" + ReadQuoted(tail).0, ReadQuoted(tail).1)
  {
    assert ("\"\"" + tail)[2..] == tail;
  }

  /** Inside quotes, any other character is itself. */
  lemma ReadOrdinary(c: char, tail: string)
    requires c != '"'
    ensures ReadQuoted([c] + tail) == ([c] + ReadQuoted(tail).0, ReadQuoted(tail).1)
  {
    assert ([c] + tail)[1..] == tail;
  }

  /** A lone quote closes the field. */
  lemma ReadClosingQuote(rest: string)
    requires rest == "" || rest[0] != '"'
    ensures ReadQuoted("\"" + rest) == ("", rest)
  {
    assert ("\"" + rest)[1..] == rest;
  }

  /** A field the export may write without quotes: no comma, and no quote
      in front. */
  predicate Plain(f: string)
  {
    ',' !in f && (f == "" || f[0] != '"')
  }

  /** A plain field reads back as itself. */
  lemma ReadBarePlain(t: string, rest: string)
    requires ',' !in t && (rest == "" || rest[0] == ',')
    ensures ReadBare(t + rest) == (t, rest)
  {
    FirstCommaOf(t, rest);
    assert (t + rest)[..|t|] == t && (t + rest)[|t|..] == rest;
  }

  lemma {:induction false} FirstCommaOf(t: string, rest: string)
    requires ',' !in t && (rest == "" || rest[0] == ',')
    ensures FirstComma(t + rest) == |t|
  {
    if |t| > 0 {
      assert (t + rest)[1..] == t[1..] + rest;
      assert (t + rest)[0] == t[0];
      FirstCommaOf(t[1..], rest);
    } else {
      assert t + rest == rest;
    }
  }

  /** Reading a plain field followed by a comma. */
  lemma ReadBareStep(f: string, tail: string)
    requires Plain(f)
    ensures ReadRecord(f + "," + tail) == [f] + ReadRecord(tail)
  {
    ReadBarePlain(f, "," + tail);
    assert f + "," + tail == f + ("," + tail);
    assert ("," + tail)[1..] == tail;
  }

  /** Reading a plain last field. */
  lemma ReadBareLast(f: string)
    requires Plain(f)
    ensures ReadRecord(f) == [f]
  {
    ReadBarePlain(f, "");
    assert f + "" == f;
  }

  /** Reading a quoted field followed by a comma. */
  lemma ReadQuotedStep(t: string, tail: string)
    ensures ReadRecord(Quote(t) + "," + tail) == [t] + ReadRecord(tail)
  {
    ReadQuotedDoubled(t, "," + tail);
    assert Quote(t) + "," + tail == "\"" + (DoubleQuotes(t) + "\"" + ("," + tail));
    assert ("," + tail)[1..] == tail;
  }

  /** Reading a quoted last field. */
  lemma ReadQuotedLast(t: string)
    ensures ReadRecord(Quote(t)) == [t]
  {
    ReadQuotedDoubled(t, "");
    assert Quote(t) == "\"" + (DoubleQuotes(t) + "\"" + "");
  }

  /** `Join` peels off its first part. */
  lemma JoinCons(parts: seq<string>)
    requires |parts| >= 2
    ensures Text.Join(parts, ",") == parts[0] + "," + Text.Join(parts[1..], ",")
  {
  }

  // ---------------------------------------------------------------------
  // writing

  /** The export's first line. */
  const HeaderColumns: seq<string> := ["ID", "Title", "Submitter", "Company", "Category", "Status", "Submission Date"]

  function Header(): (h: string)
    ensures ReadRecord(h) == HeaderColumns
  {
    HeaderReads();
    Text.Join(HeaderColumns, ",")
  }

  lemma HeaderReads()
    ensures ReadRecord(Text.Join(HeaderColumns, ",")) == HeaderColumns
  {
    ReadPlainLine(HeaderColumns);
  }

  /** Plain fields joined with commas read back as the same fields. */
  lemma {:induction false} ReadPlainLine(fields: seq<string>)
    requires |fields| >= 1
    requires forall k :: 0 <= k < |fields| ==> Plain(fields[k])
    ensures ReadRecord(Text.Join(fields, ",")) == fields
  {
    if |fields| == 1 {
      ReadBareLast(fields[0]);
    } else {
      JoinCons(fields);
      ReadBareStep(fields[0], Text.Join(fields[1..], ","));
      ReadPlainLine(fields[1..]);
      assert fields == [fields[0]] + fields[1..];
    }
  }

  /** The seven values of an idea's line, before any quoting; the date is
      the browser's rendering of the submission date. */
  datatype Line = Line(id: nat, title: string, submitter: string, company: string, category: string,
                       status: string, date: string)

  function Values(l: Line): (r: seq<string>)
    ensures |r| == |HeaderColumns|
  {
    [Text.NatToString(l.id), l.title, l.submitter, l.company, l.category, l.status, l.date]
  }

  /** The line as the export writes it: only the title is quoted. */
  function RowAsWritten(l: Line): string
  {
    Text.Join([Text.NatToString(l.id), Quote(l.title), l.submitter, l.company, l.category, l.status, l.date], ",")
  }

  /** The line as written reads back correctly when the values other than
      the title are plain. */
  lemma RowAsWrittenPlain(l: Line)
    requires Plain(l.submitter) && Plain(l.company) && Plain(l.category) && Plain(l.status) && Plain(l.date)
    ensures ReadRecord(RowAsWritten(l)) == Values(l)
  {
    var rest := Rest(l);
    assert ReadRecord(Text.Join(rest, ",")) == rest by {
      ReadPlainLine(rest);
    }
    RowFromRest(l, rest);
    TwoThenFive(Text.NatToString(l.id), l.title, l.submitter, l.company, l.category, l.status, l.date);
  }

  /** The first two columns of the line as written, then the rest. */
  lemma TitleThenRest(l: Line, rest: seq<string>)
    requires rest == [l.submitter, l.company, l.category, l.status, l.date]
    ensures ReadRecord(RowAsWritten(l)) == [Text.NatToString(l.id), l.title] + ReadRecord(Text.Join(rest, ","))
  {
    var id := Text.NatToString(l.id);
    TwoThenFive(id, Quote(l.title), l.submitter, l.company, l.category, l.status, l.date);
    NatStringPlain(l.id);
    PlainThenQuoted(id, l.title, rest);
    TwoThenTail(id, l.title, ReadRecord(Text.Join(rest, ",")));
  }

  lemma TwoThenFive(a: string, b: string, c: string, d: string, e: string, f: string, g: string)
    ensures [a] + ([b] + [c, d, e, f, g]) == [a, b, c, d, e, f, g]
    ensures [a, b] + [c, d, e, f, g] == [a, b, c, d, e, f, g]
  {
  }

  lemma TwoThenTail(a: string, b: string, tail: seq<string>)
    ensures [a] + ([b] + tail) == [a, b] + tail
  {
  }

  /** A plain field and a quoted one, then the rest. */
  lemma PlainThenQuoted(id: string, t: string, rest: seq<string>)
    requires Plain(id) && |rest| >= 1
    ensures ReadRecord(Text.Join([id] + ([Quote(t)] + rest), ",")) == [id] + ([t] + ReadRecord(Text.Join(rest, ",")))
  {
    PlainHead(id, [Quote(t)] + rest);
    QuotedHead(t, rest);
  }

  /** Reading a joined line whose first part is plain. */
  lemma PlainHead(f: string, rest: seq<string>)
    requires Plain(f) && |rest| >= 1
    ensures ReadRecord(Text.Join([f] + rest, ",")) == [f] + ReadRecord(Text.Join(rest, ","))
  {
    JoinCons([f] + rest);
    assert ([f] + rest)[1..] == rest;
    ReadBareStep(f, Text.Join(rest, ","));
  }

  /** Reading a joined line whose first part is quoted. */
  lemma QuotedHead(t: string, rest: seq<string>)
    requires |rest| >= 1
    ensures ReadRecord(Text.Join([Quote(t)] + rest, ",")) == [t] + ReadRecord(Text.Join(rest, ","))
  {
    JoinCons([Quote(t)] + rest);
    assert ([Quote(t)] + rest)[1..] == rest;
    ReadQuotedStep(t, Text.Join(rest, ","));
  }

  lemma NatStringPlain(n: nat)
    ensures Plain(Text.NatToString(n))
  {
    var r := Text.NatToString(n);
    assert forall k :: 0 <= k < |r| ==> r[k] != ',';
  }

  /** A part holding a comma joins like two parts. */
  lemma JoinCommaPart(a: string, b: string, parts: seq<string>)
    requires |parts| >= 1
    ensures Text.Join([a + "," + b] + parts, ",") == Text.Join([a] + ([b] + parts), ",")
  {
    var tail := Text.Join(parts, ",");
    var x := [a + "," + b] + parts;
    var y := [a] + ([b] + parts);
    var z := [b] + parts;
    assert x[1..] == parts && y[1..] == z && z[1..] == parts;
    assert Text.Join(x, ",") == (a + "," + b) + "," + tail;
    assert Text.Join(z, ",") == b + "," + tail;
    assert Text.Join(y, ",") == a + "," + (b + "," + tail);
    Associate(a, b, tail);
  }

  lemma Associate(a: string, b: string, tail: string)
    ensures (a + "," + b) + "," + tail == a + "," + (b + "," + tail)
  {
  }

  /** A plain-looking part that holds a comma reads back as two fields. */
  lemma ReadCommaPart(first: string, second: string, others: seq<string>)
    requires Plain(first) && Plain(second) && |others| >= 1
    requires forall k :: 0 <= k < |others| ==> Plain(others[k])
    ensures ReadRecord(Text.Join([first + "," + second] + others, ",")) == [first] + ([second] + others)
  {
    JoinCommaPart(first, second, others);
    PlainHead(first, [second] + others);
    PlainHead(second, others);
    ReadPlainLine(others);
  }

  /** The columns after the title. */
  function Rest(l: Line): seq<string>
  {
    [l.submitter, l.company, l.category, l.status, l.date]
  }

  /** The whole line reads as the id and the title followed by whatever the
      columns after the title read as. */
  lemma RowFromRest(l: Line, tail: seq<string>)
    requires ReadRecord(Text.Join(Rest(l), ",")) == tail
    ensures ReadRecord(RowAsWritten(l)) == [Text.NatToString(l.id), l.title] + tail
  {
    TitleThenRest(l, Rest(l));
  }

  /** The columns after the title, when the submitter holds a comma. */
  lemma RestWithComma(l: Line, first: string, second: string)
    requires l.submitter == first + "," + second && Plain(first) && Plain(second)
    requires Plain(l.company) && Plain(l.category) && Plain(l.status) && Plain(l.date)
    ensures ReadRecord(Text.Join(Rest(l), ",")) == [first, second, l.company, l.category, l.status, l.date]
  {
    var others := [l.company, l.category, l.status, l.date];
    HeadThenFour(l.submitter, l.company, l.category, l.status, l.date);
    ReadCommaPart(first, second, others);
    TwoThenFour(first, second, l.company, l.category, l.status, l.date);
  }

  lemma HeadThenFour(a: string, b: string, c: string, d: string, e: string)
    ensures [a, b, c, d, e] == [a] + [b, c, d, e]
  {
  }

  lemma TwoThenFour(a: string, b: string, c: string, d: string, e: string, f: string)
    ensures [a] + ([b] + [c, d, e, f]) == [a, b, c, d, e, f]
  {
  }

  lemma TwoThenSix(x: string, y: string, a: string, b: string, c: string, d: string, e: string, f: string)
    ensures [x, y] + [a, b, c, d, e, f] == [x, y, a, b, c, d, e, f]
  {
  }

  /** A submitter name holding a comma splits into two columns and shifts
      every later one: the line reads back as eight fields, not seven. */
  lemma CommaInNameShiftsColumns(l: Line, first: string, second: string)
    requires l.submitter == first + "," + second && Plain(first) && Plain(second)
    requires Plain(l.company) && Plain(l.category) && Plain(l.status) && Plain(l.date)
    ensures ReadRecord(RowAsWritten(l)) ==
      [Text.NatToString(l.id), l.title, first, second, l.company, l.category, l.status, l.date]
    ensures |ReadRecord(RowAsWritten(l))| == |HeaderColumns| + 1
  {
    var tail := [first, second, l.company, l.category, l.status, l.date];
    RestWithComma(l, first, second);
    RowFromRest(l, tail);
    TwoThenSix(Text.NatToString(l.id), l.title, first, second, l.company, l.category, l.status, l.date);
  }

  /** For example, "Doe, Jane". */
  lemma DoeJane(id: nat, title: string)
    ensures |ReadRecord(RowAsWritten(Line(id, title, "Doe, Jane", "c", "d", "e", "f")))| == 8
  {
    CommaInNameShiftsColumns(Line(id, title, "Doe, Jane", "c", "d", "e", "f"), "Doe", " Jane");
  }

  /** Every field quoted. */
  function QuoteAll(fields: seq<string>): (r: seq<string>)
    ensures |r| == |fields|
    ensures forall k :: 0 <= k < |r| ==> r[k] == Quote(fields[k])
  {
    if |fields| == 0 then [] else [Quote(fields[0])] + QuoteAll(fields[1..])
  }

  /** The line with every value quoted. */
  function Row(l: Line): string
  {
    Text.Join(QuoteAll(Values(l)), ",")
  }

  /** Quoting every field makes any record read back exactly. */
  lemma {:induction false} ReadQuotedLine(fields: seq<string>)
    requires |fields| >= 1
    ensures ReadRecord(Text.Join(QuoteAll(fields), ",")) == fields
  {
    var q := QuoteAll(fields);
    if |fields| == 1 {
      ReadQuotedLast(fields[0]);
    } else {
      JoinCons(q);
      assert q[1..] == QuoteAll(fields[1..]);
      ReadQuotedStep(fields[0], Text.Join(q[1..], ","));
      ReadQuotedLine(fields[1..]);
      assert fields == [fields[0]] + fields[1..];
    }
  }

  /** Every idea's line reads back as its seven values, under the header's
      seven columns, whatever commas or quotes the values hold. */
  lemma RowRoundTrip(l: Line)
    ensures ReadRecord(Row(l)) == Values(l)
    ensures |ReadRecord(Row(l))| == |ReadRecord(Header())|
  {
    ReadQuotedLine(Values(l));
  }
}
