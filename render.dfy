/**
 The text renderer: one bracketed line per row, a `*` for every live cell
 and a space for every dead one, cells separated by single spaces, rows
 separated by line breaks.
 */
module Render {
  import opened Grids

  /**
   Python's `sep.join(parts)`: no pieces give the empty string and one
   piece gives itself; `JoinEnds` says how longer lists start and end.
   */
  function Join(sep: string, parts: seq<string>): (r: string)
    ensures |parts| == 0 ==> r == ""
    ensures |parts| == 1 ==> r == parts[0]
  {
    if |parts| == 0 then ""
    else if |parts| == 1 then parts[0]
    else parts[0] + sep + Join(sep, parts[1..])
  }

  /**
   Joining two or more pieces: the text starts with the first piece and
   the separator, and ends with the separator and the last piece.
   */
  lemma {:induction false} JoinEnds(sep: string, parts: seq<string>)
    requires |parts| > 1
    ensures var r, first, last := Join(sep, parts), parts[0] + sep, sep + parts[|parts| - 1];
      |first| <= |r| && |last| <= |r| && r[..|first|] == first && r[|r| - |last|..] == last
  {
    var r, rest := Join(sep, parts), Join(sep, parts[1..]);
    assert r == parts[0] + sep + rest;
    var last := sep + parts[|parts| - 1];
    if |parts| == 2 {
      assert rest == parts[1];
    } else {
      JoinEnds(sep, parts[1..]);
      assert r[|r| - |last|..] == rest[|rest| - |last|..];
    }
  }

  /** The glyph of a cell: a space for 0, an asterisk for any other value. */
  function Glyph(cell: int): (c: char)
    ensures c == '*' || c == ' '
    ensures c == '*' <==> cell != 0
  {
    if cell == 0 then ' ' else '*'
  }

  /**
   One row as text: `[`, the glyphs separated by single spaces, `]`. Odd
   positions carry the glyphs in cell order, the even positions between
   them carry the separating spaces; a row of `c >= 1` cells takes
   `2c + 1` characters, an empty row renders as `[]`.
   */
  function ShowRow(row: Row): (s: string)
    ensures |s| == if |row| == 0 then 2 else 2 * |row| + 1
    ensures s[0] == '[' && s[|s| - 1] == ']'
    ensures forall k | 1 <= k < |s| - 1 :: s[k] == if k % 2 == 1 then Glyph(row[k / 2]) else ' '
  {
    var glyphs := seq(|row|, i requires 0 <= i < |row| => [Glyph(row[i])]);
    if |row| == 0 then "[]"
    else
      JoinSingles(' ', glyphs);
      "[" + Join(" ", glyphs) + "]"
  }

  /** The glyph of cell `i` sits at position `2i + 1` of the row's line. */
  lemma {:induction false} ShowRowGlyphAt(row: Row, i: int)
    requires 0 <= i < |row|
    ensures 2 * i + 1 < |ShowRow(row)|
    ensures ShowRow(row)[2 * i + 1] == '*' <==> row[i] != 0
  {
    var s := ShowRow(row);
    var k := 2 * i + 1;
    assert 1 <= k < |s| - 1 && k % 2 == 1 && k / 2 == i;
  }

  /** Joining one-character strings interleaves them with the separator. */
  lemma {:induction false} JoinSingles(sep: char, parts: seq<string>)
    requires |parts| > 0 && forall i | 0 <= i < |parts| :: |parts[i]| == 1
    ensures |Join([sep], parts)| == 2 * |parts| - 1
    ensures forall k | 0 <= k < 2 * |parts| - 1 ::
      Join([sep], parts)[k] == if k % 2 == 0 then parts[k / 2][0] else sep
  {
    if |parts| > 1 {
      var rest := parts[1..];
      JoinSingles(sep, rest);
      var j, j' := Join([sep], parts), Join([sep], rest);
      assert j == parts[0] + [sep] + j';
      forall k | 2 <= k < 2 * |parts| - 1
        ensures j[k] == if k % 2 == 0 then parts[k / 2][0] else sep
      {
        assert j[k] == j'[k - 2];
        assert (k - 2) / 2 + 1 == k / 2;
      }
    }
  }

  /** The whole grid as text: one rendered row per line, in row order. */
  function ShowCells(cells: Grid): (s: string)
    ensures |cells| == 0 ==> s == ""
    ensures |cells| > 0 ==> Lines(s) == seq(|cells|, y requires 0 <= y < |cells| => ShowRow(cells[y]))
  {
    var lines := seq(|cells|, y requires 0 <= y < |cells| => ShowRow(cells[y]));
    if |cells| == 0 then ""
    else
      forall y | 0 <= y < |lines| ensures '\n' !in lines[y] {
        ShowRowHasNoBreak(cells[y]);
      }
      LinesOfJoin(lines);
      Join("\n", lines)
  }

  /** A rendered row never contains a line break. */
  lemma ShowRowHasNoBreak(row: Row)
    ensures '\n' !in ShowRow(row)
  {
    var s := ShowRow(row);
    forall k | 0 <= k < |s| ensures s[k] != '\n' {
    }
  }

  /** Python's `s.split("\n")`: the pieces between line breaks, at least one. */
  function Lines(s: string): (ls: seq<string>)
    ensures |ls| > 0
  {
    if |s| == 0 then [""]
    else
      var rest := Lines(s[1..]);
      if s[0] == '\n' then [""] + rest else [[s[0]] + rest[0]] + rest[1..]
  }

  /** Text without a line break only lengthens the first line. */
  lemma {:induction false} LinesOfPrefix(a: string, s: string)
    requires '\n' !in a
    ensures Lines(a + s) == [a + Lines(s)[0]] + Lines(s)[1..]
  {
    var l := Lines(s);
    if |a| == 0 {
      assert a + s == s && a + l[0] == l[0];
      assert l == [l[0]] + l[1..];
    } else {
      LinesOfPrefix(a[1..], s);
      assert (a + s)[0] == a[0] && (a + s)[1..] == a[1..] + s;
      var rest := Lines(a[1..] + s);
      assert rest[0] == a[1..] + l[0] && rest[1..] == l[1..];
      assert [a[0]] + (a[1..] + l[0]) == a + l[0];
    }
  }

  /** Splitting undoes joining, as long as no piece holds a line break. */
  lemma {:induction false} LinesOfJoin(parts: seq<string>)
    requires |parts| > 0 && forall i | 0 <= i < |parts| :: '\n' !in parts[i]
    ensures Lines(Join("\n", parts)) == parts
  {
    if |parts| == 1 {
      LinesOfPrefix(parts[0], "");
      assert parts[0] + "" == parts[0];
    } else {
      var rest := Join("\n", parts[1..]);
      LinesOfJoin(parts[1..]);
      assert Join("\n", parts) == parts[0] + ("\n" + rest);
      LinesOfPrefix(parts[0], "\n" + rest);
      assert ("\n" + rest)[1..] == rest;
      assert Lines("\n" + rest) == [""] + parts[1..];
      assert parts[0] + "" == parts[0];
    }
  }
}
