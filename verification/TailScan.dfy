/** Reading the last line of a log without reading the log: the backward scan by chunks of
    `_read_last_raw_row` against the forward split of `_read_raw_rows`.  The element type is
    a parameter, so the result holds of bytes and of characters alike. */
module TailScan {
  import opened CanonicalJson

  /** bytes.splitlines, and the lines of a text file opened with universal newlines: a line
      feed, a carriage return, or the pair of them ends a line. */
  function SplitLines<T(==)>(s: seq<T>, lf: T, cr: T): (lines: seq<seq<T>>)
    ensures s != [] <==> lines != []
    decreases |s|
  {
    if s == [] then []
    else if s[0] == lf then [[]] + SplitLines(s[1..], lf, cr)
    else if s[0] == cr then
      [[]] + SplitLines(if |s| > 1 && s[1] == lf then s[2..] else s[1..], lf, cr)
    else if |s| == 1 then [s]
    else Extend(s[0], SplitLines(s[1..], lf, cr))
  }

  function Extend<T>(x: T, lines: seq<seq<T>>): seq<seq<T>>
    requires lines != []
  {
    [[x] + lines[0]] + lines[1..]
  }

  /** The lines with their ends behind them. */
  ghost function Woven<T>(lines: seq<seq<T>>, ends: seq<seq<T>>): seq<T>
    requires |lines| == |ends|
  {
    if lines == [] then [] else lines[0] + ends[0] + Woven(lines[1..], ends[1..])
  }

  ghost predicate IsLine<T>(line: seq<T>, end: seq<T>, last: bool, lf: T, cr: T) {
    && lf !in line && cr !in line
    && (end == [lf] || end == [cr] || end == [cr, lf] || (last && end == [] && line != []))
  }

  /** A text cut at every end of a line; a carriage return and the line feed behind it are one end. */
  ghost predicate CutAtEnds<T>(s: seq<T>, lines: seq<seq<T>>, ends: seq<seq<T>>, lf: T, cr: T) {
    && |lines| == |ends| && Woven(lines, ends) == s
    && (forall i :: 0 <= i < |lines| ==> IsLine(lines[i], ends[i], i == |lines| - 1, lf, cr))
    && (forall i :: 0 <= i < |lines| - 1 && ends[i] == [cr] ==> lines[i + 1] != [] || ends[i + 1] != [lf])
  }

  lemma FirstOfWoven<T>(s: seq<T>, lines: seq<seq<T>>, ends: seq<seq<T>>, lf: T, cr: T)
    requires CutAtEnds(s, lines, ends, lf, cr) && lines != []
    requires lf != cr
    ensures s != [] && (s[0] == lf <==> lines[0] == [] && ends[0] == [lf])
  {
    assert IsLine(lines[0], ends[0], 0 == |lines| - 1, lf, cr);
    assert s == lines[0] + ends[0] + Woven(lines[1..], ends[1..]);
  }

  lemma EmptyLineFirst<T>(end: seq<T>, rest: seq<T>, lines: seq<seq<T>>, ends: seq<seq<T>>, lf: T, cr: T)
    requires lf != cr && CutAtEnds(rest, lines, ends, lf, cr)
    requires end == [lf] || end == [cr, lf] || (end == [cr] && (rest == [] || rest[0] != lf))
    ensures CutAtEnds(end + rest, [[]] + lines, [end] + ends, lf, cr)
  {
    var lines', ends' := [[]] + lines, [end] + ends;
    assert lines'[1..] == lines && ends'[1..] == ends;
    if lines != [] { FirstOfWoven(rest, lines, ends, lf, cr); }
    forall i | 0 <= i < |lines'| ensures IsLine(lines'[i], ends'[i], i == |lines'| - 1, lf, cr) {
      if i > 0 { assert IsLine(lines[i - 1], ends[i - 1], i - 1 == |lines| - 1, lf, cr); }
    }
    forall i | 0 <= i < |lines'| - 1 && ends'[i] == [cr] ensures lines'[i + 1] != [] || ends'[i + 1] != [lf] {
      if i > 0 { assert ends[i - 1] == [cr]; }
    }
    assert Woven(lines', ends') == [] + end + rest;
  }

  lemma LongerFirst<T>(x: T, rest: seq<T>, lines: seq<seq<T>>, ends: seq<seq<T>>, lf: T, cr: T)
    requires x != lf && x != cr && lines != [] && CutAtEnds(rest, lines, ends, lf, cr)
    ensures CutAtEnds([x] + rest, Extend(x, lines), ends, lf, cr)
  {
    var lines' := Extend(x, lines);
    assert lines'[1..] == lines[1..];
    forall i | 0 <= i < |lines'| ensures IsLine(lines'[i], ends[i], i == |lines'| - 1, lf, cr) {
      assert IsLine(lines[i], ends[i], i == |lines| - 1, lf, cr);
    }
    forall i | 0 <= i < |lines'| - 1 && ends[i] == [cr] ensures lines'[i + 1] != [] || ends[i + 1] != [lf] {
      assert lines[i + 1] != [] || ends[i + 1] != [lf];
    }
    assert [x] + lines[0] + ends[0] + Woven(lines[1..], ends[1..]) == [x] + rest;
  }

  lemma {:induction false} SplitExactly<T>(s: seq<T>, lf: T, cr: T) returns (ends: seq<seq<T>>)
    requires lf != cr
    ensures CutAtEnds(s, SplitLines(s, lf, cr), ends, lf, cr)
    decreases |s|
  {
    if s == [] {
      ends := [];
    } else if s[0] == lf || s[0] == cr {
      var end := if s[0] == cr && |s| > 1 && s[1] == lf then [cr, lf] else [s[0]];
      var rest := s[|end|..];
      assert s == end + rest;
      ends := SplitExactly(rest, lf, cr);
      EmptyLineFirst(end, rest, SplitLines(rest, lf, cr), ends, lf, cr);
      ends := [end] + ends;
    } else if |s| == 1 {
      ends := [[]];
      assert IsLine(s, [], true, lf, cr) && [s][1..] == [] && ends[1..] == [];
      assert Woven([s], ends) == s + [] + [];
    } else {
      ends := SplitExactly(s[1..], lf, cr);
      LongerFirst(s[0], s[1..], SplitLines(s[1..], lf, cr), ends, lf, cr);
      assert s == [s[0]] + s[1..];
    }
  }

  function RStrip<T(==)>(s: seq<T>, x: T): (r: seq<T>)
    ensures r <= s && (r != [] ==> r[|r| - 1] != x)
  {
    if s != [] && s[|s| - 1] == x then RStrip(s[..|s| - 1], x) else s
  }

  /** Text that may be followed by y without changing its own lines.  A line feed always
      ends a line; a carriage return does unless a line feed comes next. */
  predicate Closed<T(==)>(a: seq<T>, y: seq<T>, lf: T, cr: T) {
    a == [] || a[|a| - 1] == lf || (a[|a| - 1] == cr && (y == [] || y[0] != lf))
  }

  lemma {:induction false} SplitApart<T>(a: seq<T>, y: seq<T>, lf: T, cr: T)
    requires lf != cr && Closed(a, y, lf, cr)
    ensures SplitLines(a + y, lf, cr) == SplitLines(a, lf, cr) + SplitLines(y, lf, cr)
    decreases |a|
  {
    var s := a + y;
    if a == [] {
      assert s == y;
    } else if |a| == 1 {
      assert s[1..] == y && a[1..] == [];
    } else {
      assert s[1..] == a[1..] + y;
      SplitApart(a[1..], y, lf, cr);
      if a[0] == cr && a[1] == lf {
        SplitAfterPair(a, y, lf, cr);
      }
    }
  }

  lemma {:induction false} SplitAfterPair<T>(a: seq<T>, y: seq<T>, lf: T, cr: T)
    requires lf != cr && |a| > 1 && Closed(a, y, lf, cr) && a[0] == cr && a[1] == lf
    ensures SplitLines(a + y, lf, cr) == SplitLines(a, lf, cr) + SplitLines(y, lf, cr)
    decreases |a|, 0
  {
    var s := a + y;
    assert s[2..] == a[2..] + y;
    SplitApart(a[2..], y, lf, cr);
    PairLine(s, lf, cr);
    PairLine(a, lf, cr);
    assert [[]] + (SplitLines(a[2..], lf, cr) + SplitLines(y, lf, cr)) ==
             ([[]] + SplitLines(a[2..], lf, cr)) + SplitLines(y, lf, cr);
  }

  lemma PairLine<T>(s: seq<T>, lf: T, cr: T)
    requires lf != cr && |s| > 1 && s[0] == cr && s[1] == lf
    ensures SplitLines(s, lf, cr) == [[]] + SplitLines(s[2..], lf, cr)
  {
  }

  lemma {:induction false} SplitRow<T>(row: seq<T>, lf: T, cr: T)
    requires lf != cr && lf !in row && cr !in row
    ensures SplitLines(row + [lf], lf, cr) == [row]
  {
    var line := row + [lf];
    if row == [] {
      assert line[1..] == [];
    } else {
      assert line[1..] == row[1..] + [lf];
      SplitRow(row[1..], lf, cr);
      assert row == [row[0]] + row[1..];
    }
  }

  /** The lines of a file with one more row written at its end. */
  lemma {:induction false} SplitOneLine<T>(row: seq<T>, lf: T, cr: T)
    requires lf != cr && lf !in row && cr !in row && row != []
    ensures SplitLines(row, lf, cr) == [row]
  {
    if |row| == 1 {
      assert row[1..] == [];
    } else {
      SplitOneLine(row[1..], lf, cr);
      assert row == [row[0]] + row[1..];
    }
  }

  lemma SplitAppendRow<T>(text: seq<T>, row: seq<T>, text': seq<T>, lf: T, cr: T)
    requires lf != cr && lf !in row && cr !in row && row != []
    requires text == [] || text[|text| - 1] == lf || text[|text| - 1] == cr
    requires text' == text + (row + [lf])
    ensures SplitLines(text', lf, cr) == SplitLines(text, lf, cr) + [row]
  {
    SplitRow(row, lf, cr);
    SplitApart(text, row + [lf], lf, cr);
  }

  function Glue<T>(lines: seq<seq<T>>, row: seq<T>): seq<seq<T>>
    requires lines != []
  {
    lines[..|lines| - 1] + [lines[|lines| - 1] + row]
  }

  lemma ExtendGlue<T>(x: T, lines: seq<seq<T>>, row: seq<T>)
    requires lines != []
    ensures Extend(x, Glue(lines, row)) == Glue(Extend(x, lines), row)
  {
    if |lines| == 1 { assert [x] + (lines[0] + row) == [x] + lines[0] + row; }
  }

  lemma ConsGlue<T>(line: seq<T>, lines: seq<seq<T>>, row: seq<T>)
    requires lines != []
    ensures [line] + Glue(lines, row) == Glue([line] + lines, row)
  {
    assert ([line] + lines)[..|lines|] == [line] + lines[..|lines| - 1];
  }

  /** A row written after an unfinished line becomes part of that line. */
  lemma {:induction false} SplitUnfinished<T>(text: seq<T>, row: seq<T>, text': seq<T>, lf: T, cr: T)
    requires lf != cr && lf !in row && cr !in row
    requires text != [] && text[|text| - 1] != lf && text[|text| - 1] != cr
    requires text' == text + (row + [lf])
    ensures SplitLines(text', lf, cr) == Glue(SplitLines(text, lf, cr), row)
    decreases |text|
  {
    var t := text[1..];
    assert text'[1..] == t + (row + [lf]);
    if |text| == 1 {
      SplitRow(row, lf, cr);
      assert text'[1..] == row + [lf] && text'[0] == text[0];
      assert Glue([text], row) == [text + row] && text + row == [text[0]] + row;
    } else if text[0] == cr && text[1] == lf {
      var u := text[2..];
      assert text'[2..] == u + (row + [lf]);
      SplitUnfinished(u, row, text'[2..], lf, cr);
      ConsGlue([], SplitLines(u, lf, cr), row);
    } else {
      SplitUnfinished(t, row, text'[1..], lf, cr);
      if text[0] == lf || text[0] == cr {
        ConsGlue([], SplitLines(t, lf, cr), row);
      } else {
        ExtendGlue(text[0], SplitLines(t, lf, cr), row);
      }
    }
  }

  function Last<T>(lines: seq<T>): Option<T> {
    if lines == [] then None else Some(lines[|lines| - 1])
  }

  lemma LastAfterLineFeed<T>(s: seq<T>, a: seq<T>, y: seq<T>, lf: T, cr: T)
    requires lf != cr && a != [] && a[|a| - 1] == lf && y != [] && s == a + y
    ensures Last(SplitLines(s, lf, cr)) == Last(SplitLines(y, lf, cr))
  {
    SplitApart(a, y, lf, cr);
  }

  /** What the loop's guard establishes when it fails: a line feed with a line after it. */
  lemma CutAtLineFeed<T>(tail: seq<T>, lf: T) returns (a: seq<T>, y: seq<T>)
    requires lf in RStrip(tail, lf)
    ensures tail == a + y && a != [] && a[|a| - 1] == lf && y != []
  {
    var i :| 0 <= i < |RStrip(tail, lf)| && RStrip(tail, lf)[i] == lf;
    a, y := tail[..i + 1], tail[i + 1..];
  }

  /** The backward scan stops at a tail that decides the last line of the whole file. */
  lemma TailDecides<T>(file: seq<T>, head: seq<T>, tail: seq<T>, lf: T, cr: T)
    requires lf != cr && file == head + tail && lf in RStrip(tail, lf)
    ensures Last(SplitLines(tail, lf, cr)) == Last(SplitLines(file, lf, cr))
  {
    var a, y := CutAtLineFeed(tail, lf);
    var b := head + a;
    assert file == b + y;
    LastAfterLineFeed(tail, a, y, lf, cr);
    LastAfterLineFeed(file, b, y, lf, cr);
  }

  /** `_read_last_raw_row`: read backwards by chunks until the tail holds a whole line. */
  method ReadLastLine<T(==)>(file: seq<T>, lf: T, cr: T, chunk: nat) returns (last: Option<seq<T>>)
    requires lf != cr && chunk > 0
    ensures last == Last(SplitLines(file, lf, cr))
  {
    if file == [] { return None; }
    var position: nat := |file|;
    var tail: seq<T> := [];
    while position > 0 && lf !in RStrip(tail, lf)
      invariant position <= |file| && tail == file[position..]
    {
      var amount := if chunk < position then chunk else position;
      position := position - amount;
      tail := file[position..position + amount] + tail;
    }
    if position == 0 {
      assert tail == file;
    } else {
      assert file == file[..position] + tail;
      TailDecides(file, file[..position], tail, lf, cr);
    }
    var lines := SplitLines(tail, lf, cr);
    return Last(lines);
  }
}
