/**
 * The two encodings of a maze: the (2*depth+1) x (2*width+1) colour grid
 * ('B' wall, 'W' ground, 'R' solution) and the text picture made of
 * two-character tokens. Position (2r+1, 2c+1) is the centre of the cell
 * in row r, column c; the positions between two centres are the gaps
 * between neighbouring cells; the even/even positions and the outer frame
 * are walls, with an entrance at (0, 1) and an exit at
 * (2*depth, 2*width-1).
 */
module Encoding {
  import opened Grid
  import opened Edges

  /** Node symbols for every cell and an edge entry for every adjacent pair. */
  predicate WellFormed(depth: nat, width: nat, symbols: seq<Symbol>, edges: map<Pair, Edge>)
  {
    depth > 0 && width > 0 && |symbols| == depth * width && GridPairs(depth, width) <= edges.Keys
  }

  lemma CellInGrid(depth: nat, width: nat, r: nat, c: nat)
    requires r < depth && c < width
    ensures Name(width, r, c) < depth * width
  {
    MulMono(width, r + 1, depth);
  }

  /** The cell right of (r, c) is its east neighbour, and the two form a grid pair. */
  lemma EastKey(depth: nat, width: nat, r: nat, c: nat)
    requires r < depth && c + 1 < width
    ensures Name(width, r, c + 1) == Name(width, r, c) + 1 < depth * width
    ensures Key(Name(width, r, c), Name(width, r, c + 1)) in GridPairs(depth, width)
  {
    CellInGrid(depth, width, r, c + 1);
    NameCoords(width, r, c);
    var a := Name(width, r, c);
    assert (a, a + 1) in HorizontalPairs(width, depth * width);
  }

  /** The cell below (r, c) is its south neighbour, and the two form a grid pair. */
  lemma SouthKey(depth: nat, width: nat, r: nat, c: nat)
    requires r + 1 < depth && c < width
    ensures Name(width, r + 1, c) == Below(width, Name(width, r, c)) < depth * width
    ensures Key(Name(width, r, c), Name(width, r + 1, c)) in GridPairs(depth, width)
  {
    MulSucc(width, r);
    CellInGrid(depth, width, r + 1, c);
    CellInGrid(depth - 1, width, r, c);
    MulSucc(width, depth - 1);
    var a := Name(width, r, c);
    assert a < depth * width - width;
    assert (a, Below(width, a)) in VerticalPairs(width, depth * width - width);
  }

  /** The colour of a gap between cells a and b: the solution runs through it, ground, or wall. */
  function GapColor(symbols: seq<Symbol>, edges: map<Pair, Edge>, a: nat, b: nat): char
    requires a < |symbols| && b < |symbols| && Key(a, b) in edges
  {
    var open := edges[Key(a, b)].symbol == Blank;
    if symbols[a] == Path && symbols[b] == Path && open then 'R'
    else if open then 'W'
    else 'B'
  }

  /** mazeToColorArray: the colour at row i, column j. */
  function ColorAt(depth: nat, width: nat, symbols: seq<Symbol>, edges: map<Pair, Edge>, i: nat, j: nat): char
    requires WellFormed(depth, width, symbols, edges) && i < 2 * depth + 1 && j < 2 * width + 1
  {
    if i == 0 then (if j == 1 then 'R' else 'B')
    else if i == 2 * depth then (if j == 2 * width - 1 then 'R' else 'B')
    else if (i % 2 == 0 && j % 2 == 0) || j == 0 || j == 2 * width then 'B'
    else if i % 2 == 1 && j % 2 == 1 then
      CellInGrid(depth, width, (i - 1) / 2, (j - 1) / 2);
      if symbols[Name(width, (i - 1) / 2, (j - 1) / 2)] == Blank then 'W' else 'R'
    else if i % 2 == 1 then
      EastKey(depth, width, (i - 1) / 2, (j - 1) / 2);
      GapColor(symbols, edges, Name(width, (i - 1) / 2, (j - 1) / 2), Name(width, (i - 1) / 2, (j + 1) / 2))
    else
      SouthKey(depth, width, (i - 1) / 2, (j - 1) / 2);
      GapColor(symbols, edges, Name(width, (i - 1) / 2, (j - 1) / 2), Name(width, (i + 1) / 2, (j - 1) / 2))
  }

  /** toString: the two-character token at row i, column j. */
  function TokenAt(depth: nat, width: nat, symbols: seq<Symbol>, edges: map<Pair, Edge>, i: nat, j: nat): (t: string)
    requires WellFormed(depth, width, symbols, edges) && i < 2 * depth + 1 && j < 2 * width + 1
    ensures |t| == 2
  {
    if i == 0 then (if j == 1 then Text(Blank) else Text(Wall))
    else if i == 2 * depth then (if j == 2 * width - 1 then Text(Blank) else Text(Wall))
    else if (i % 2 == 0 && j % 2 == 0) || j == 0 || j == 2 * width then Text(Wall)
    else if i % 2 == 1 && j % 2 == 1 then
      CellInGrid(depth, width, (i - 1) / 2, (j - 1) / 2);
      Text(symbols[Name(width, (i - 1) / 2, (j - 1) / 2)])
    else if i % 2 == 1 then
      EastKey(depth, width, (i - 1) / 2, (j - 1) / 2);
      Text(edges[Key(Name(width, (i - 1) / 2, (j - 1) / 2), Name(width, (i - 1) / 2, (j + 1) / 2))].symbol)
    else
      SouthKey(depth, width, (i - 1) / 2, (j - 1) / 2);
      Text(edges[Key(Name(width, (i - 1) / 2, (j - 1) / 2), Name(width, (i + 1) / 2, (j - 1) / 2))].symbol)
  }

  /**
   * The centre of cell (r, c) shows the cell: ground when its symbol is
   * blank, solution colour otherwise; the token is the cell's symbol.
   */
  lemma CentreRule(depth: nat, width: nat, symbols: seq<Symbol>, edges: map<Pair, Edge>, r: nat, c: nat)
    requires WellFormed(depth, width, symbols, edges) && r < depth && c < width
    ensures Name(width, r, c) < |symbols|
    ensures ColorAt(depth, width, symbols, edges, 2 * r + 1, 2 * c + 1) == if symbols[Name(width, r, c)] == Blank then 'W' else 'R'
    ensures TokenAt(depth, width, symbols, edges, 2 * r + 1, 2 * c + 1) == Text(symbols[Name(width, r, c)])
  {
    CellInGrid(depth, width, r, c);
  }

  /**
   * The frame and the corners between cells are walls, except the entrance
   * at (0, 1) and the exit at (2*depth, 2*width-1), which show the solution
   * colour and blank text.
   */
  lemma BorderRule(depth: nat, width: nat, symbols: seq<Symbol>, edges: map<Pair, Edge>, i: nat, j: nat)
    requires WellFormed(depth, width, symbols, edges) && i < 2 * depth + 1 && j < 2 * width + 1
    requires i == 0 || i == 2 * depth || j == 0 || j == 2 * width || (i % 2 == 0 && j % 2 == 0)
    ensures var opening := (i == 0 && j == 1) || (i == 2 * depth && j == 2 * width - 1);
      && ColorAt(depth, width, symbols, edges, i, j) == (if opening then 'R' else 'B')
      && TokenAt(depth, width, symbols, edges, i, j) == (if opening then Text(Blank) else Text(Wall))
  {
  }

  /**
   * The gap east of cell (r, c) shows the edge to the next cell in the
   * row: solution colour when the edge is open and both cells are on the
   * solution, ground when only open, wall otherwise.
   */
  lemma EastGapRule(depth: nat, width: nat, symbols: seq<Symbol>, edges: map<Pair, Edge>, r: nat, c: nat)
    requires WellFormed(depth, width, symbols, edges) && r < depth && c + 1 < width
    ensures var a := Name(width, r, c);
      && a + 1 < |symbols| && Key(a, a + 1) in edges
      && ColorAt(depth, width, symbols, edges, 2 * r + 1, 2 * c + 2) == GapColor(symbols, edges, a, a + 1)
      && TokenAt(depth, width, symbols, edges, 2 * r + 1, 2 * c + 2) == Text(edges[Key(a, a + 1)].symbol)
  {
    EastKey(depth, width, r, c);
  }

  /** The gap south of cell (r, c) shows the edge to the cell below, by the same rule. */
  lemma SouthGapRule(depth: nat, width: nat, symbols: seq<Symbol>, edges: map<Pair, Edge>, r: nat, c: nat)
    requires WellFormed(depth, width, symbols, edges) && r + 1 < depth && c < width
    ensures var a := Name(width, r, c);
      && Below(width, a) < |symbols| && Key(a, Below(width, a)) in edges
      && ColorAt(depth, width, symbols, edges, 2 * r + 2, 2 * c + 1) == GapColor(symbols, edges, a, Below(width, a))
      && TokenAt(depth, width, symbols, edges, 2 * r + 2, 2 * c + 1) == Text(edges[Key(a, Below(width, a))].symbol)
  {
    SouthKey(depth, width, r, c);
  }

  /** Node symbols are never the wall symbol and edge symbols are blank or wall. */
  predicate Displayable(symbols: seq<Symbol>, edges: map<Pair, Edge>)
  {
    && (forall x :: 0 <= x < |symbols| ==> symbols[x] != Wall)
    && (forall p :: p in edges ==> edges[p].symbol == Blank || edges[p].symbol == Wall)
  }

  /**
   * The two encodings agree: a position is a black wall pixel exactly
   * where the text shows the wall token, and ground pixels are blank text.
   */
  lemma EncodersAgree(depth: nat, width: nat, symbols: seq<Symbol>, edges: map<Pair, Edge>, i: nat, j: nat)
    requires WellFormed(depth, width, symbols, edges) && Displayable(symbols, edges)
    requires i < 2 * depth + 1 && j < 2 * width + 1
    ensures ColorAt(depth, width, symbols, edges, i, j) == 'B' <==> TokenAt(depth, width, symbols, edges, i, j) == Text(Wall)
    ensures ColorAt(depth, width, symbols, edges, i, j) == 'W' ==> TokenAt(depth, width, symbols, edges, i, j) == Text(Blank)
  {
    var color, token := ColorAt(depth, width, symbols, edges, i, j), TokenAt(depth, width, symbols, edges, i, j);
    if i == 0 || i == 2 * depth || (i % 2 == 0 && j % 2 == 0) || j == 0 || j == 2 * width {
    } else if i % 2 == 1 && j % 2 == 1 {
      var x := Name(width, (i - 1) / 2, (j - 1) / 2);
      CellInGrid(depth, width, (i - 1) / 2, (j - 1) / 2);
      TextInjective(symbols[x], Wall);
      TextInjective(symbols[x], Blank);
    } else {
      var a := Name(width, (i - 1) / 2, (j - 1) / 2);
      var b := if i % 2 == 1 then Name(width, (i - 1) / 2, (j + 1) / 2) else Name(width, (i + 1) / 2, (j - 1) / 2);
      if i % 2 == 1 {
        EastKey(depth, width, (i - 1) / 2, (j - 1) / 2);
      } else {
        SouthKey(depth, width, (i - 1) / 2, (j - 1) / 2);
      }
      TextInjective(edges[Key(a, b)].symbol, Wall);
      TextInjective(edges[Key(a, b)].symbol, Blank);
    }
  }

  /** The token matrix of the picture: row i, column j holds TokenAt(i, j). */
  function TokenRows(depth: nat, width: nat, symbols: seq<Symbol>, edges: map<Pair, Edge>): (rows: seq<seq<string>>)
    requires WellFormed(depth, width, symbols, edges)
    ensures |rows| == 2 * depth + 1
    ensures forall i :: 0 <= i < |rows| ==> |rows[i]| == 2 * width + 1
    ensures forall i, j :: 0 <= i < |rows| && 0 <= j < |rows[i]| ==> rows[i][j] == TokenAt(depth, width, symbols, edges, i, j)
  {
    seq(2 * depth + 1, i requires 0 <= i < 2 * depth + 1 =>
      seq(2 * width + 1, j requires 0 <= j < 2 * width + 1 => TokenAt(depth, width, symbols, edges, i, j)))
  }

  /** The tokens of one row, concatenated. */
  function JoinRow(row: seq<string>): string
  {
    if row == [] then "" else JoinRow(row[..|row| - 1]) + row[|row| - 1]
  }

  /** The rows, each followed by a newline, concatenated. */
  function JoinLines(rows: seq<seq<string>>): string
  {
    if rows == [] then "" else JoinLines(rows[..|rows| - 1]) + JoinRow(rows[|rows| - 1]) + "\n"
  }

  lemma JoinRowSnoc(row: seq<string>, j: nat)
    requires j < |row|
    ensures JoinRow(row[..j + 1]) == JoinRow(row[..j]) + row[j]
  {
    assert row[..j + 1][..j] == row[..j];
  }

  lemma JoinLinesSnoc(rows: seq<seq<string>>, i: nat)
    requires i < |rows|
    ensures JoinLines(rows[..i + 1]) == JoinLines(rows[..i]) + JoinRow(rows[i]) + "\n"
  {
    assert rows[..i + 1][..i] == rows[..i];
  }

  /** Every token is two characters wide. */
  predicate Tokens2(rows: seq<seq<string>>, w: nat)
  {
    forall i :: 0 <= i < |rows| ==> |rows[i]| == w && forall j :: 0 <= j < w ==> |rows[i][j]| == 2
  }

  /** A row of two-character tokens is twice as long as it has tokens. */
  lemma {:induction false} RowLength(row: seq<string>)
    requires forall t :: 0 <= t < |row| ==> |row[t]| == 2
    ensures |JoinRow(row)| == 2 * |row|
  {
    if row != [] {
      RowLength(row[..|row| - 1]);
    }
  }

  /** Token t of a row sits at characters 2t and 2t+1. */
  lemma {:induction false} RowLayout(row: seq<string>)
    requires forall t :: 0 <= t < |row| ==> |row[t]| == 2
    ensures |JoinRow(row)| == 2 * |row|
    ensures forall t :: 0 <= t < |row| ==> JoinRow(row)[2 * t .. 2 * t + 2] == row[t]
  {
    if row != [] {
      var init := row[..|row| - 1];
      RowLayout(init);
      var s := JoinRow(row);
      forall t | 0 <= t < |row|
        ensures s[2 * t .. 2 * t + 2] == row[t]
      {
        if t < |row| - 1 {
          assert s[2 * t .. 2 * t + 2] == JoinRow(init)[2 * t .. 2 * t + 2];
        }
      }
    }
  }

  /** The length of one line of the picture: w tokens and a newline. */
  function LineLength(w: nat): nat
  {
    2 * w + 1
  }

  /** Where line i of the picture starts: i lines of length L before it. */
  function LineStart(L: nat, i: nat): nat
  {
    if i == 0 then 0 else LineStart(L, i - 1) + L
  }

  /** Line i starts after i whole lines. */
  lemma {:induction false} LineStartProduct(L: nat, i: nat)
    ensures LineStart(L, i) == i * L
  {
    if i > 0 {
      LineStartProduct(L, i - 1);
      MulSucc(L, i - 1);
    }
  }

  lemma {:induction false} LinesLength(rows: seq<seq<string>>, w: nat)
    requires Tokens2(rows, w)
    ensures |JoinLines(rows)| == LineStart(LineLength(w), |rows|)
  {
    if rows != [] {
      var init := rows[..|rows| - 1];
      assert Tokens2(init, w);
      LinesLength(init, w);
      RowLayout(rows[|rows| - 1]);
    }
  }

  /** The picture of the first k rows is a prefix of the whole picture. */
  lemma {:induction false} LinesPrefix(rows: seq<seq<string>>, k: nat)
    requires k <= |rows|
    ensures JoinLines(rows[..k]) <= JoinLines(rows)
    decreases |rows|
  {
    if k < |rows| {
      var init := rows[..|rows| - 1];
      LinesPrefix(init, k);
      assert init[..k] == rows[..k];
      var a, b, c := JoinLines(rows[..k]), JoinLines(init), JoinLines(rows);
      assert c == b + JoinRow(rows[|rows| - 1]) + "\n";
      assert c[..|b|] == b;
      assert c[..|a|] == b[..|a|];
    } else {
      assert rows[..k] == rows;
    }
  }

  /** A line that follows a prefix p inside s sits at position |p| of s. */
  lemma LineAt(s: string, p: string, row: string)
    requires p + row + "\n" <= s
    ensures |p| + |row| + 1 <= |s| && s[|p| .. |p| + |row| + 1] == row + "\n"
  {
    assert s[|p| .. |p| + |row| + 1] == (p + row + "\n")[|p| ..];
  }

  /** The first k lines of the picture take k full line lengths. */
  lemma PrefixLength(rows: seq<seq<string>>, w: nat, k: nat)
    requires Tokens2(rows, w) && k <= |rows|
    ensures |JoinLines(rows[..k])| == LineStart(LineLength(w), k)
  {
    assert Tokens2(rows[..k], w);
    LinesLength(rows[..k], w);
  }

  /** Line i of the picture is row i's tokens followed by a newline. */
  lemma LineSlice(rows: seq<seq<string>>, w: nat, i: nat)
    requires Tokens2(rows, w) && i < |rows|
    ensures LineStart(LineLength(w), i) + LineLength(w) <= |JoinLines(rows)|
    ensures JoinLines(rows)[LineStart(LineLength(w), i) .. LineStart(LineLength(w), i) + LineLength(w)] == JoinRow(rows[i]) + "\n"
  {
    PrefixLength(rows, w, i);
    RowLength(rows[i]);
    LineOf(rows, i);
  }

  /** Line i of the picture follows the lines before it. */
  lemma LineOf(rows: seq<seq<string>>, i: nat)
    requires i < |rows|
    ensures var p, row := JoinLines(rows[..i]), JoinRow(rows[i]);
      && |p| + |row| + 1 <= |JoinLines(rows)|
      && JoinLines(rows)[|p| .. |p| + |row| + 1] == row + "\n"
  {
    JoinLinesSnoc(rows, i);
    LinesPrefix(rows, i + 1);
    LineAt(JoinLines(rows), JoinLines(rows[..i]), JoinRow(rows[i]));
  }

  /** A slice of a slice is a slice of the whole. */
  lemma SliceOfSlice(s: string, x: nat, L: nat, a: nat, b: nat)
    requires x + L <= |s| && a <= b <= L
    ensures s[x + a .. x + b] == s[x .. x + L][a .. b]
  {
    var u, v := s[x + a .. x + b], s[x .. x + L][a .. b];
    assert |u| == |v|;
    forall k | 0 <= k < |u|
      ensures u[k] == v[k]
    {
      assert u[k] == s[x + a + k] && v[k] == s[x .. x + L][a + k];
    }
  }

  /** A slice inside the first part of a concatenation is a slice of that part. */
  lemma SliceLeft(a: string, b: string, x: nat, y: nat)
    requires x <= y <= |a|
    ensures (a + b)[x .. y] == a[x .. y]
  {
  }

  /** Line i of the picture holds the token of column t at characters 2t and 2t+1. */
  lemma TokenInLine(rows: seq<seq<string>>, w: nat, i: nat, t: nat)
    requires Tokens2(rows, w) && i < |rows| && t < w
    ensures LineStart(LineLength(w), i) + LineLength(w) <= |JoinLines(rows)|
    ensures JoinLines(rows)[LineStart(LineLength(w), i) + 2 * t .. LineStart(LineLength(w), i) + 2 * t + 2] == rows[i][t]
  {
    LineSlice(rows, w, i);
    TokenInText(JoinLines(rows), LineStart(LineLength(w), i), rows[i], t);
  }

  /** Where the tokens of a row are followed by a newline inside s, token t sits 2t characters in. */
  lemma TokenInText(s: string, x: nat, row: seq<string>, t: nat)
    requires forall u :: 0 <= u < |row| ==> |row[u]| == 2
    requires x + |JoinRow(row)| + 1 <= |s| && s[x .. x + |JoinRow(row)| + 1] == JoinRow(row) + "\n"
    requires t < |row|
    ensures |JoinRow(row)| == 2 * |row| && s[x + 2 * t .. x + 2 * t + 2] == row[t]
  {
    RowLayout(row);
    SliceToken(s, x, JoinRow(row), row[t], 2 * t);
  }

  /** A token at offset a of a line that starts at x sits at offset x + a of the whole text. */
  lemma SliceToken(s: string, x: nat, text: string, token: string, a: nat)
    requires x + |text| + 1 <= |s| && s[x .. x + |text| + 1] == text + "\n"
    requires a + 2 <= |text| && text[a .. a + 2] == token
    ensures s[x + a .. x + a + 2] == token
  {
    SliceOfSlice(s, x, |text| + 1, a, a + 2);
    SliceLeft(text, "\n", a, a + 2);
  }

  /** Line i of the picture ends with a newline after its w tokens. */
  lemma NewlineEndsLine(rows: seq<seq<string>>, w: nat, i: nat)
    requires Tokens2(rows, w) && i < |rows|
    ensures LineStart(LineLength(w), i) + LineLength(w) <= |JoinLines(rows)|
    ensures JoinLines(rows)[LineStart(LineLength(w), i) + 2 * w] == '\n'
  {
    var L, x, s := LineLength(w), LineStart(LineLength(w), i), JoinLines(rows);
    LineSlice(rows, w, i);
    RowLength(rows[i]);
    assert s[x + 2 * w] == s[x .. x + L][2 * w];
  }

  /**
   * The toString picture: every line has the same length, line i starts
   * at i times that length, and the token at row i, column j of the maze
   * sits at characters 2j and 2j+1 of line i, the line ending in a newline.
   */
  lemma PictureToken(depth: nat, width: nat, symbols: seq<Symbol>, edges: map<Pair, Edge>, i: nat, j: nat)
    requires WellFormed(depth, width, symbols, edges) && i < 2 * depth + 1 && j < 2 * width + 1
    ensures var picture, x := JoinLines(TokenRows(depth, width, symbols, edges)), LineStart(LineLength(2 * width + 1), i);
      && x == i * LineLength(2 * width + 1)
      && |picture| == LineStart(LineLength(2 * width + 1), 2 * depth + 1) == (2 * depth + 1) * LineLength(2 * width + 1)
      && x + LineLength(2 * width + 1) <= |picture|
      && picture[x + 2 * j .. x + 2 * j + 2] == TokenAt(depth, width, symbols, edges, i, j)
      && picture[x + 2 * (2 * width + 1)] == '\n'
  {
    var rows := TokenRows(depth, width, symbols, edges);
    TokenRowsShape(depth, width, symbols, edges);
    LinesLength(rows, 2 * width + 1);
    TokenInLine(rows, 2 * width + 1, i, j);
    assert rows[i][j] == TokenAt(depth, width, symbols, edges, i, j);
    NewlineEndsLine(rows, 2 * width + 1, i);
    LineStartProduct(LineLength(2 * width + 1), i);
    LineStartProduct(LineLength(2 * width + 1), 2 * depth + 1);
  }

  /** Every row of the token matrix holds 2*width+1 two-character tokens. */
  lemma TokenRowsShape(depth: nat, width: nat, symbols: seq<Symbol>, edges: map<Pair, Edge>)
    requires WellFormed(depth, width, symbols, edges)
    ensures Tokens2(TokenRows(depth, width, symbols, edges), 2 * width + 1)
  {
    var rows := TokenRows(depth, width, symbols, edges);
    forall i, j | 0 <= i < |rows| && 0 <= j < 2 * width + 1
      ensures |rows[i][j]| == 2
    {
      assert rows[i][j] == TokenAt(depth, width, symbols, edges, i, j);
    }
  }
}
