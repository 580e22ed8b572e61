/**
 * Python's `str.join` and `str.split` on strings, and the delimited text body
 * that `AthenaResult.to_string` builds from result rows.
 */
module Text {

  /** Total length of the parts. */
  function TotalLength(parts: seq<string>): nat {
    if |parts| == 0 then 0 else |parts[0]| + TotalLength(parts[1..])
  }

  /** Number of occurrences of `c` in `s`. */
  function Occurrences(s: string, c: char): nat {
    if |s| == 0 then 0 else (if s[0] == c then 1 else 0) + Occurrences(s[1..], c)
  }

  /**
   * `sep.join(parts)`: the parts in order with `sep` between neighbours and
   * nowhere else, so one separator fewer than there are parts.
   */
  function Join(sep: string, parts: seq<string>): (r: string)
    ensures |parts| > 0 ==> |r| == TotalLength(parts) + (|parts| - 1) * |sep|
    ensures |parts| == 0 ==> |r| == 0
  {
    if |parts| == 0 then ""
    else if |parts| == 1 then parts[0]
    else parts[0] + sep + Join(sep, parts[1..])
  }

  /** `s.split(c)` for a one-character separator: one piece more than there are separators, none holding one. */
  function Split(s: string, c: char): (r: seq<string>)
    ensures |r| == Occurrences(s, c) + 1
    ensures forall i :: 0 <= i < |r| ==> c !in r[i]
  {
    if |s| == 0 then [""]
    else
      var rest := Split(s[1..], c);
      if s[0] == c then [""] + rest
      else [[s[0]] + rest[0]] + rest[1..]
  }

  /** True when no cell of any row contains character `c`. */
  predicate Avoids(rows: seq<seq<string>>, c: char) {
    forall i, j :: 0 <= i < |rows| && 0 <= j < |rows[i]| ==> c !in rows[i][j]
  }

  /** One text line per row: the row's cells joined by `delim`. */
  function Lines(rows: seq<seq<string>>, delim: string): (r: seq<string>)
    ensures |r| == |rows|
  {
    seq(|rows|, i requires 0 <= i < |rows| => Join(delim, rows[i]))
  }

  /**
   * The body `to_string` returns: the lines joined by a newline, plus one
   * trailing newline. It always ends in a newline, and no rows give exactly "\n".
   */
  function DelimitedText(rows: seq<seq<string>>, delim: string): (r: string)
    ensures |r| > 0 && r[|r| - 1] == '\n'
    ensures rows == [] ==> r == "\n"
  {
    Join("\n", Lines(rows, delim)) + "\n"
  }

  /** Reading a body back: split on newlines, drop the final (empty) piece, split each line on `delim`. */
  function ParseText(text: string, delim: char): (r: seq<seq<string>>)
    ensures |r| == |Split(text, '\n')| - 1
  {
    var lines := Split(text, '\n');
    seq(|lines| - 1, i requires 0 <= i < |lines| - 1 => Split(lines[i], delim))
  }

  /** A separator-free piece splits to itself. */
  lemma {:induction false} SplitWithout(p: string, c: char)
    requires c !in p
    ensures Split(p, c) == [p]
  {
    if |p| > 0 {
      SplitWithout(p[1..], c);
      assert [p[0]] + p[1..] == p;
    }
  }

  /** Splitting `p + [c] + rest` peels off the separator-free piece `p`. */
  lemma {:induction false} SplitAfter(p: string, c: char, rest: string)
    requires c !in p
    ensures Split(p + [c] + rest, c) == [p] + Split(rest, c)
  {
    var s := p + [c] + rest;
    if |p| == 0 {
      assert s[0] == c && s[1..] == rest;
    } else {
      assert s[0] == p[0] && s[1..] == p[1..] + [c] + rest;
      SplitAfter(p[1..], c, rest);
      assert [p[0]] + p[1..] == p;
    }
  }

  /** Splitting undoes joining when no part holds the separator. */
  lemma {:induction false} SplitJoin(parts: seq<string>, c: char)
    requires |parts| > 0
    requires forall i :: 0 <= i < |parts| ==> c !in parts[i]
    ensures Split(Join([c], parts), c) == parts
  {
    if |parts| == 1 {
      SplitWithout(parts[0], c);
    } else {
      SplitJoin(parts[1..], c);
      SplitAfter(parts[0], c, Join([c], parts[1..]));
      assert [parts[0]] + parts[1..] == parts;
    }
  }

  /** Joining with one more part appended at the end. */
  lemma {:induction false} JoinSnoc(sep: string, parts: seq<string>, x: string)
    requires |parts| > 0
    ensures Join(sep, parts + [x]) == Join(sep, parts) + sep + x
  {
    if |parts| > 1 {
      assert (parts + [x])[1..] == parts[1..] + [x];
      JoinSnoc(sep, parts[1..], x);
    }
  }

  /** A character absent from the separator and from every part is absent from the join. */
  lemma {:induction false} JoinAvoids(sep: string, parts: seq<string>, c: char)
    requires c !in sep
    requires forall i :: 0 <= i < |parts| ==> c !in parts[i]
    ensures c !in Join(sep, parts)
  {
    if |parts| > 1 {
      JoinAvoids(sep, parts[1..], c);
    }
  }

  /** The body with its final newline read as a separator before one more, empty, line. */
  lemma BodyAsLines(rows: seq<seq<string>>, delim: string)
    requires |rows| > 0
    ensures DelimitedText(rows, delim) == Join("\n", Lines(rows, delim) + [""])
  {
    JoinSnoc("\n", Lines(rows, delim), "");
  }

  /** A non-empty row survives join-then-split on a clean one-character delimiter; an empty one comes back as [""]. */
  lemma LineRoundTrip(row: seq<string>, d: char)
    requires forall j :: 0 <= j < |row| ==> d !in row[j]
    ensures Split(Join([d], row), d) == row <==> |row| > 0
  {
    if |row| > 0 {
      SplitJoin(row, d);
    } else {
      assert Split(Join([d], row), d) == [""];
    }
  }

  /**
   * The delimited body reads back to exactly the rows it came from if and only
   * if there is at least one row and every row has at least one cell, for a
   * one-character delimiter other than newline and cells holding neither.
   * With no rows the body is "\n", which reads back as [[""]]; an empty row
   * reads back as [""].
   */
  lemma {:induction false} DelimitedRoundTrip(rows: seq<seq<string>>, d: char)
    requires d != '\n'
    requires Avoids(rows, d) && Avoids(rows, '\n')
    ensures ParseText(DelimitedText(rows, [d]), d) == rows
        <==> |rows| > 0 && forall i :: 0 <= i < |rows| ==> |rows[i]| > 0
  {
    var text := DelimitedText(rows, [d]);
    if |rows| == 0 {
      assert text == "\n";
      assert Split(text, '\n') == ["", ""] by {
        assert text[0] == '\n' && text[1..] == "";
      }
      assert ParseText(text, d) == [Split("", d)];
    } else {
      var lines := Lines(rows, [d]);
      forall i | 0 <= i < |lines|
        ensures '\n' !in lines[i]
      {
        JoinAvoids([d], rows[i], '\n');
      }
      BodyAsLines(rows, [d]);
      SplitJoin(lines + [""], '\n');
      assert Split(text, '\n') == lines + [""];
      var parsed := ParseText(text, d);
      assert |parsed| == |rows|;
      forall i | 0 <= i < |rows|
        ensures parsed[i] == Split(Join([d], rows[i]), d)
        ensures parsed[i] == rows[i] <==> |rows[i]| > 0
      {
        LineRoundTrip(rows[i], d);
      }
      if parsed == rows {
        forall i | 0 <= i < |rows| ensures |rows[i]| > 0 {
          assert parsed[i] == rows[i];
        }
      }
    }
  }
}
