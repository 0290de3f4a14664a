/**
  The paginated crawl of the sales listing and the shaping of its HTML rows
  into one table (src/scraped_data.py).

  Fetching a page and parsing its markup are left to the caller: a page is
  given as what the parser finds in it, either no results table at all or the
  table's rows, each row being the list of its `td` cells.
*/
module Scraper {
  import opened Wrappers

  /** One `td` cell as the parser sees it: its stripped text, and the
      stripped text of the link inside it when there is one. */
  datatype Cell = Cell(text: string, link: Option<string>)

  /** The `td` cells of one `tr` of the results table (none for a header row). */
  type HtmlRow = seq<Cell>

  /** A fetched page: None when it has no results table, else the table's rows. */
  type Page = Option<seq<HtmlRow>>

  /** The labels a page table may carry, in order. */
  const ExpectedColumns: seq<string> :=
    ["Pos", "Game", "Publisher", "VGChartz Score",
     "Critic Score", "User Score", "Total Shipped", "Total Sales",
     "NA Sales", "PAL Sales", "Japan Sales", "Other Sales",
     "Release Date", "Last Update"]

  /** The number of expected labels: no page table is wider. */
  const ColumnLimit: nat := 14

  /** The crawl starts at this page ... */
  const FirstPage: nat := 1
  /** ... and never requests this page or any later one. */
  const PageLimit: nat := 200

  function Min(a: int, b: int): int { if a <= b then a else b }
  function Max(a: int, b: int): int { if a <= b then b else a }

  // ---------------------------------------------------------------------------
  // Cells of one row
  // ---------------------------------------------------------------------------

  /** The box-art column (1) and the series column (3) are dropped. */
  predicate IsSkippedPosition(i: int) { i == 1 || i == 3 }

  /** The number of skipped positions below n, that is |{1, 3} ∩ [0, n)|. */
  function SkippedBelow(n: nat): nat {
    (if n > 1 then 1 else 0) + (if n > 3 then 1 else 0)
  }

  /** The position in the HTML row of the j-th cell that is kept. */
  function SourcePosition(j: nat): nat {
    if j < 1 then j else if j < 2 then j + 1 else j + 2
  }

  function Texts(cells: seq<Cell>): (r: seq<string>)
    ensures |r| == |cells|
    ensures forall i | 0 <= i < |cells| :: r[i] == cells[i].text
  {
    seq(|cells|, i requires 0 <= i < |cells| => cells[i].text)
  }

  function Clip(i: nat, n: nat): nat { if i < n then i else n }

  /** The cleaned row: the text of every cell except those at the skipped
      positions, in their order in the HTML row. */
  function KeptCells(cells: seq<Cell>): seq<string>
  {
    var n := |cells|;
    Texts(cells[..Clip(1, n)]) + Texts(cells[Clip(2, n)..Clip(3, n)]) + Texts(cells[Clip(4, n)..])
  }

  /** A cleaned row has one cell fewer for each skipped position the row
      reaches; its j-th cell is the text of the HTML cell at SourcePosition(j),
      which is never a skipped position and grows with j; and every cell
      that is not skipped shows up in it. */
  lemma KeptCellsAt(cells: seq<Cell>)
    ensures |KeptCells(cells)| == |cells| - SkippedBelow(|cells|)
    ensures forall j | 0 <= j < |KeptCells(cells)| ::
              SourcePosition(j) < |cells| && !IsSkippedPosition(SourcePosition(j)) &&
              KeptCells(cells)[j] == cells[SourcePosition(j)].text
    ensures forall j, k | 0 <= j < k :: SourcePosition(j) < SourcePosition(k)
    ensures forall i | 0 <= i < |cells| && !IsSkippedPosition(i) ::
              i - SkippedBelow(i) < |KeptCells(cells)| &&
              KeptCells(cells)[i - SkippedBelow(i)] == cells[i].text
  {
    var n := |cells|;
    var r := KeptCells(cells);
    var a, b, c := Texts(cells[..Clip(1, n)]), Texts(cells[Clip(2, n)..Clip(3, n)]), Texts(cells[Clip(4, n)..]);
    assert r == a + b + c;
    forall j | 0 <= j < |r|
      ensures SourcePosition(j) < n && r[j] == cells[SourcePosition(j)].text
    {
      if j < |a| {
        assert r[j] == a[j];
      } else if j < |a| + |b| {
        assert r[j] == b[j - |a|];
      } else {
        assert r[j] == c[j - |a| - |b|];
      }
    }
    forall i | 0 <= i < n && !IsSkippedPosition(i)
      ensures i - SkippedBelow(i) < |r| && r[i - SkippedBelow(i)] == cells[i].text
    {
      assert SourcePosition(i - SkippedBelow(i)) == i;
    }
  }

  /** Appending one more HTML cell appends its text to the cleaned row,
      unless its position is skipped. */
  lemma KeptCellsSnoc(cells: seq<Cell>, i: nat)
    requires i < |cells|
    ensures KeptCells(cells[..i + 1]) ==
            KeptCells(cells[..i]) + (if IsSkippedPosition(i) then [] else [cells[i].text])
  {
    var before, after := cells[..i], cells[..i + 1];
    KeptCellsAt(before);
    KeptCellsAt(after);
    var lhs := KeptCells(after);
    var rhs := KeptCells(before) + (if IsSkippedPosition(i) then [] else [cells[i].text]);
    assert |lhs| == |rhs|;
    forall j | 0 <= j < |lhs| ensures lhs[j] == rhs[j] {
      if j < |KeptCells(before)| {
        assert lhs[j] == after[SourcePosition(j)].text;
      } else {
        assert SourcePosition(j) == i;
      }
    }
  }

  /** The game-link branch of the row loop never runs, because position 1 is
      skipped before it is reached: a cleaned row depends on the cells' texts
      alone, never on their links, so every cleaned cell is the text of a
      kept cell and no placeholder for a missing link is ever produced. */
  lemma KeptCellsIgnoreLinks(cells: seq<Cell>, other: seq<Cell>)
    requires |other| == |cells|
    requires forall i | 0 <= i < |cells| :: other[i].text == cells[i].text
    ensures KeptCells(other) == KeptCells(cells)
    ensures forall s | s in KeptCells(cells) ::
              exists i | 0 <= i < |cells| :: !IsSkippedPosition(i) && cells[i].text == s
  {
    KeptCellsAt(cells);
    KeptCellsAt(other);
    forall s | s in KeptCells(cells)
      ensures exists i | 0 <= i < |cells| :: !IsSkippedPosition(i) && cells[i].text == s
    {
      var j :| 0 <= j < |KeptCells(cells)| && KeptCells(cells)[j] == s;
      assert !IsSkippedPosition(SourcePosition(j)) && cells[SourcePosition(j)].text == s;
    }
  }

  /** The inner loop over the cells of one row. */
  method CleanRow(cells: seq<Cell>) returns (row: seq<string>)
    ensures row == KeptCells(cells)
  {
    row := [];
    for i := 0 to |cells|
      invariant row == KeptCells(cells[..i])
    {
      KeptCellsSnoc(cells, i);
      var cell := cells[i];
      if IsSkippedPosition(i) {
        continue;
      }
      if i == 1 {
        // The game-link branch: unreachable, as position 1 was skipped above.
        match cell.link
        case Some(name) => row := row + [name];
        case None => row := row + [""];
      } else {
        row := row + [cell.text];
      }
    }
    assert cells[..|cells|] == cells;
  }

  // ---------------------------------------------------------------------------
  // Rows of one page
  // ---------------------------------------------------------------------------

  /** The cleaned rows of a page: rows without `td` cells are left out, every
      other row is cleaned, in table order. */
  function CleanedRows(rows: seq<HtmlRow>): seq<seq<string>>
  {
    if rows == [] then []
    else
      var last := rows[|rows| - 1];
      CleanedRows(rows[..|rows| - 1]) + (if |last| == 0 then [] else [KeptCells(last)])
  }

  /** The number of rows of a table that have at least one `td` cell. */
  function DataRowCount(rows: seq<HtmlRow>): nat
  {
    if rows == [] then 0 else (if |rows[0]| > 0 then 1 else 0) + DataRowCount(rows[1..])
  }

  /** Cleaning distributes over splitting the table, so row order is kept. */
  lemma {:induction false} CleanedRowsAppend(a: seq<HtmlRow>, b: seq<HtmlRow>)
    ensures CleanedRows(a + b) == CleanedRows(a) + CleanedRows(b)
    decreases |b|
  {
    if b == [] {
      assert a + b == a;
    } else {
      var b' := b[..|b| - 1];
      assert (a + b)[..|a + b| - 1] == a + b';
      CleanedRowsAppend(a, b');
    }
  }

  /** A page yields exactly one cleaned row per row that has a `td` cell; in
      particular a table made only of header rows yields none. */
  lemma {:induction false} CleanedRowsCount(rows: seq<HtmlRow>)
    ensures |CleanedRows(rows)| == DataRowCount(rows)
    ensures CleanedRows(rows) == [] <==> forall i | 0 <= i < |rows| :: |rows[i]| == 0
  {
    if rows != [] {
      CleanedRowsCount(rows[1..]);
      CleanedRowsAppend([rows[0]], rows[1..]);
      assert [rows[0]] + rows[1..] == rows;
      assert CleanedRows([rows[0]]) == (if |rows[0]| == 0 then [] else [KeptCells(rows[0])]) by {
        assert [rows[0]][..0] == [];
      }
      if forall i | 0 <= i < |rows[1..]| :: |rows[1..][i]| == 0 {
        assert forall i | 1 <= i < |rows| :: |rows[i]| == |rows[1..][i - 1]|;
      }
    }
  }

  /** The loop over the rows of one page table. */
  method CleanPage(rows: seq<HtmlRow>) returns (cleaned: seq<seq<string>>)
    ensures cleaned == CleanedRows(rows)
  {
    cleaned := [];
    for i := 0 to |rows|
      invariant cleaned == CleanedRows(rows[..i])
    {
      assert rows[..i + 1][..i] == rows[..i];
      var cells := rows[i];
      if |cells| == 0 {
        continue;
      }
      var row := CleanRow(cells);
      cleaned := cleaned + [row];
    }
    assert rows[..|rows|] == rows;
  }

  // ---------------------------------------------------------------------------
  // Page tables and their concatenation
  // ---------------------------------------------------------------------------

  /** A data frame of text cells: its column labels, in order, and its rows;
      a missing cell is None. */
  datatype Frame = Frame(labels: seq<string>, rows: seq<seq<Option<string>>>)
  {
    /** The number of columns. */
    const width: nat := |labels|
  }

  /** `pd.DataFrame()`: no columns and no rows. */
  const EmptyFrame: Frame := Frame([], [])

  /** The frame is labelled with the leading expected labels, at most all
      fourteen of them, and every row has one cell per column. */
  ghost predicate Labelled(f: Frame) {
    && f.width <= ColumnLimit
    && f.labels == ExpectedColumns[..f.width]
    && forall j | 0 <= j < |f.rows| :: |f.rows[j]| == f.width
  }

  /** No expected label occurs twice. */
  lemma ExpectedColumnsDistinct()
    ensures forall i, j | 0 <= i < j < ColumnLimit :: ExpectedColumns[i] != ExpectedColumns[j]
  {
  }

  /** The length of the longest row, 0 for no rows. */
  function LongestRow(rows: seq<seq<string>>): nat
  {
    if rows == [] then 0 else Max(|rows[0]|, LongestRow(rows[1..]))
  }

  /** LongestRow is the length of a longest row. */
  lemma {:induction false} LongestRowIsMax(rows: seq<seq<string>>)
    ensures forall j | 0 <= j < |rows| :: |rows[j]| <= LongestRow(rows)
    ensures rows == [] ==> LongestRow(rows) == 0
    ensures rows != [] ==> exists j | 0 <= j < |rows| :: |rows[j]| == LongestRow(rows)
  {
    if rows != [] {
      var rest := rows[1..];
      LongestRowIsMax(rest);
      assert forall j | 1 <= j < |rows| :: rows[j] == rest[j - 1];
      if |rows[0]| < LongestRow(rows) {
        var k :| 0 <= k < |rest| && |rest[k]| == LongestRow(rest);
        assert rows[k + 1] == rest[k];
      }
    }
  }

  /** A row as one of w columns: its first w cells, then missing cells. */
  function PadRow(row: seq<string>, w: nat): (r: seq<Option<string>>)
    ensures |r| == w
  {
    seq(w, c requires 0 <= c < w => if c < |row| then Some(row[c]) else None)
  }

  /** The frame built from a page's cleaned rows, cut to the expected number of
      columns and labelled with the leading expected labels. */
  function PageFrame(cleaned: seq<seq<string>>): (f: Frame)
    ensures Labelled(f)
    ensures |f.rows| == |cleaned|
  {
    var w := Min(LongestRow(cleaned), ColumnLimit);
    Frame(ExpectedColumns[..w], seq(|cleaned|, j requires 0 <= j < |cleaned| => PadRow(cleaned[j], w)))
  }

  /** A page table is as wide as its longest row up to fourteen columns,
      carries the first that many expected labels, and holds each row's first
      cells up to that width, with missing cells after a shorter row's end. */
  lemma PageFrameShape(cleaned: seq<seq<string>>)
    ensures var f := PageFrame(cleaned);
      && (forall j | 0 <= j < |cleaned| :: Min(|cleaned[j]|, ColumnLimit) <= f.width)
      && (cleaned == [] ==> f.width == 0)
      && (cleaned != [] ==> exists j | 0 <= j < |cleaned| :: Min(|cleaned[j]|, ColumnLimit) == f.width)
      && forall j, c | 0 <= j < |cleaned| && 0 <= c < f.width ::
           f.rows[j][c] == if c < |cleaned[j]| then Some(cleaned[j][c]) else None
  {
    LongestRowIsMax(cleaned);
    if cleaned != [] {
      var k :| 0 <= k < |cleaned| && |cleaned[k]| == LongestRow(cleaned);
      assert Min(|cleaned[k]|, ColumnLimit) == PageFrame(cleaned).width;
    }
  }

  /** A row brought to w cells by adding missing cells after its end. */
  function Pad(row: seq<Option<string>>, w: nat): seq<Option<string>>
  {
    row + seq(w - Min(|row|, w), _ => None)
  }

  /** A padded row has at least w cells: its own, then missing ones. */
  lemma PadAt(row: seq<Option<string>>, w: nat, c: nat)
    requires c < w
    ensures |Pad(row, w)| == Max(|row|, w)
    ensures Pad(row, w)[c] == if c < |row| then row[c] else None
  {
  }

  /** Padding to v and then to a larger w is padding to w. */
  lemma PadTwice(row: seq<Option<string>>, v: nat, w: nat)
    requires v <= w
    ensures Pad(Pad(row, v), w) == Pad(row, w)
  {
    if |row| < v {
      assert Pad(Pad(row, v), w) == row + (seq(v - |row|, _ => None) + seq(w - v, _ => None));
    }
  }

  /** The position of the first occurrence of a label in a list of labels,
      or the list's length when the label does not occur. */
  function Find(labels: seq<string>, x: string): (k: nat)
    ensures k <= |labels|
    ensures k < |labels| ==> labels[k] == x
  {
    if labels == [] then 0 else if labels[0] == x then 0 else 1 + Find(labels[1..], x)
  }

  /** No label before the position Find returns is the one sought. */
  lemma {:induction false} FindFirst(labels: seq<string>, x: string, i: nat)
    requires i < Find(labels, x)
    ensures labels[i] != x
  {
    if i > 0 {
      FindFirst(labels[1..], x, i - 1);
    }
  }

  /** The labels of `b` that `a` lacks, in their order in `b`. */
  function NewLabels(a: seq<string>, b: seq<string>): seq<string>
  {
    if b == [] then [] else (if Find(a, b[0]) < |a| then [] else [b[0]]) + NewLabels(a, b[1..])
  }

  /** A row of a frame labelled `from`, realigned to the labels `to`: under
      each label, the row's cell with that label, or a missing cell when the
      row has none. */
  function Align(row: seq<Option<string>>, from: seq<string>, to: seq<string>): (r: seq<Option<string>>)
    ensures |r| == |to|
  {
    seq(|to|, c requires 0 <= c < |to| =>
      var k := Find(from, to[c]);
      if k < |from| && k < |row| then row[k] else None)
  }

  /** `pd.concat([a, b], ignore_index=True)`: the columns are those of `a`
      followed by those of `b` that `a` lacks; the rows are those of `a`,
      then those of `b`, each realigned to the new columns by label. */
  function Concat(a: Frame, b: Frame): (f: Frame)
    ensures |f.rows| == |a.rows| + |b.rows|
  {
    var labels := a.labels + NewLabels(a.labels, b.labels);
    Frame(labels,
          seq(|a.rows|, j requires 0 <= j < |a.rows| => Align(a.rows[j], a.labels, labels)) +
          seq(|b.rows|, j requires 0 <= j < |b.rows| => Align(b.rows[j], b.labels, labels)))
  }

  /** A run of labels of which the first k occur in `a` and the rest do not
      contributes exactly the rest. */
  lemma {:induction false} NewLabelsSplit(a: seq<string>, b: seq<string>, k: nat)
    requires k <= |b|
    requires forall i | 0 <= i < k :: Find(a, b[i]) < |a|
    requires forall i | k <= i < |b| :: Find(a, b[i]) == |a|
    ensures NewLabels(a, b) == b[k..]
  {
    if b != [] {
      if k > 0 {
        NewLabelsSplit(a, b[1..], k - 1);
      } else {
        NewLabelsSplit(a, b[1..], 0);
        assert b == [b[0]] + b[1..];
      }
    }
  }

  /** Within the leading v expected labels, the c-th expected label is found
      at position c; beyond them it is not found. */
  lemma PrefixIndex(v: nat, c: nat)
    requires v <= ColumnLimit && c < ColumnLimit
    ensures Find(ExpectedColumns[..v], ExpectedColumns[c]) == if c < v then c else v
  {
    ExpectedColumnsDistinct();
    var prefix := ExpectedColumns[..v];
    var k := Find(prefix, ExpectedColumns[c]);
    if c < v && c < k {
      FindFirst(prefix, ExpectedColumns[c], c);
    }
    if k < v {
      assert prefix[k] == ExpectedColumns[k];
    }
  }

  /** The union of two lists of leading expected labels is the longer list. */
  lemma UnionOfPrefixes(v: nat, w: nat)
    requires v <= ColumnLimit && w <= ColumnLimit
    ensures ExpectedColumns[..v] + NewLabels(ExpectedColumns[..v], ExpectedColumns[..w]) ==
            ExpectedColumns[..Max(v, w)]
  {
    var a, b := ExpectedColumns[..v], ExpectedColumns[..w];
    var k := Min(v, w);
    forall i | 0 <= i < |b| ensures Find(a, b[i]) == if i < k then i else |a| {
      PrefixIndex(v, i);
    }
    NewLabelsSplit(a, b, k);
    assert a + b[k..] == ExpectedColumns[..Max(v, w)];
  }

  /** Realigning a row of the leading v expected labels to the leading w,
      for w at least v, keeps its cells and adds missing ones. */
  lemma AlignPrefix(row: seq<Option<string>>, v: nat, w: nat)
    requires |row| == v <= w <= ColumnLimit
    ensures Align(row, ExpectedColumns[..v], ExpectedColumns[..w]) == Pad(row, w)
  {
    var r := Align(row, ExpectedColumns[..v], ExpectedColumns[..w]);
    forall c | 0 <= c < w ensures r[c] == Pad(row, w)[c] {
      PrefixIndex(v, c);
    }
  }

  /** Concatenating two labelled frames gives a labelled frame, as wide as
      the wider of the two. */
  lemma ConcatLabelled(a: Frame, b: Frame)
    requires Labelled(a) && Labelled(b)
    ensures Labelled(Concat(a, b))
    ensures Concat(a, b).width == Max(a.width, b.width)
  {
    UnionOfPrefixes(a.width, b.width);
  }

  /** Rows brought to w columns by adding missing cells after their end. */
  function Widen(rows: seq<seq<Option<string>>>, w: nat): (r: seq<seq<Option<string>>>)
    ensures |r| == |rows|
  {
    seq(|rows|, j requires 0 <= j < |rows| => Pad(rows[j], w))
  }

  /** Concatenation by position: the longer of the two label lists, and the
      rows of both frames, each widened with missing cells. */
  function ConcatByPosition(a: Frame, b: Frame): (f: Frame)
    ensures |f.rows| == |a.rows| + |b.rows|
  {
    var w := Max(a.width, b.width);
    Frame(if b.width <= a.width then a.labels else b.labels, Widen(a.rows, w) + Widen(b.rows, w))
  }

  /** For labelled frames, aligning by label is aligning by position: the
      union of the two label lists is the longer one, and every cell keeps
      its column index, with missing cells beyond its own frame's width. */
  lemma ConcatAlignsByPosition(a: Frame, b: Frame)
    requires Labelled(a) && Labelled(b)
    ensures Concat(a, b) == ConcatByPosition(a, b)
  {
    var w := Max(a.width, b.width);
    var f, g := Concat(a, b), ConcatByPosition(a, b);
    UnionOfPrefixes(a.width, b.width);
    forall i | 0 <= i < |f.rows| ensures f.rows[i] == g.rows[i] {
      if i < |a.rows| {
        AlignPrefix(a.rows[i], a.width, w);
        assert g.rows[i] == Pad(a.rows[i], w);
      } else {
        AlignPrefix(b.rows[i - |a.rows|], b.width, w);
        assert g.rows[i] == Pad(b.rows[i - |a.rows|], w);
      }
    }
  }

  /** The first n frames concatenated in order onto the empty frame. */
  function ConcatFirst(frames: seq<Frame>, n: nat): Frame
    requires n <= |frames|
  {
    if n == 0 then EmptyFrame
    else Concat(ConcatFirst(frames, n - 1), frames[n - 1])
  }

  /** The concatenation depends only on the frames it takes. */
  lemma {:induction false} ConcatFirstPrefix(a: seq<Frame>, b: seq<Frame>, n: nat)
    requires n <= |a| && n <= |b|
    requires forall p | 0 <= p < n :: a[p] == b[p]
    ensures ConcatFirst(a, n) == ConcatFirst(b, n)
  {
    if n > 0 {
      ConcatFirstPrefix(a, b, n - 1);
      assert a[n - 1] == b[n - 1];
    }
  }

  /** Concatenating labelled frames gives a labelled frame. */
  lemma {:induction false} ConcatFirstLabelled(frames: seq<Frame>, n: nat)
    requires n <= |frames|
    requires forall p | 0 <= p < n :: Labelled(frames[p])
    ensures Labelled(ConcatFirst(frames, n))
  {
    if n > 0 {
      ConcatFirstLabelled(frames, n - 1);
      ConcatLabelled(ConcatFirst(frames, n - 1), frames[n - 1]);
    }
  }

  /** The first n frames concatenated by position. */
  function PositionalFirst(frames: seq<Frame>, n: nat): Frame
    requires n <= |frames|
  {
    if n == 0 then EmptyFrame
    else ConcatByPosition(PositionalFirst(frames, n - 1), frames[n - 1])
  }

  /** Concatenating labelled frames one after another by label is doing so
      by position. */
  lemma {:induction false} ConcatFirstAlignsByPosition(frames: seq<Frame>, n: nat)
    requires n <= |frames|
    requires forall p | 0 <= p < n :: Labelled(frames[p])
    ensures ConcatFirst(frames, n) == PositionalFirst(frames, n)
  {
    if n > 0 {
      ConcatFirstAlignsByPosition(frames, n - 1);
      ConcatFirstLabelled(frames, n - 1);
      ConcatAlignsByPosition(ConcatFirst(frames, n - 1), frames[n - 1]);
    }
  }

  /** The number of rows of the frames before the p-th. */
  function RowsBefore(frames: seq<Frame>, p: nat): nat
    requires p <= |frames|
  {
    if p == 0 then 0 else RowsBefore(frames, p - 1) + |frames[p - 1].rows|
  }

  /** The concatenation has the rows of all the frames it takes. */
  lemma {:induction false} PositionalFirstRows(frames: seq<Frame>, n: nat)
    requires n <= |frames|
    ensures |PositionalFirst(frames, n).rows| == RowsBefore(frames, n)
  {
    if n > 0 {
      PositionalFirstRows(frames, n - 1);
    }
  }

  /** The concatenation is as wide as the widest frame it takes. */
  lemma {:induction false} PositionalFirstWidth(frames: seq<Frame>, n: nat)
    requires n <= |frames|
    ensures forall p | 0 <= p < n :: frames[p].width <= PositionalFirst(frames, n).width
    ensures n == 0 ==> PositionalFirst(frames, n).width == 0
    ensures n > 0 ==> exists p | 0 <= p < n :: frames[p].width == PositionalFirst(frames, n).width
  {
    if n > 0 {
      PositionalFirstWidth(frames, n - 1);
      if frames[n - 1].width < PositionalFirst(frames, n).width {
        var p :| 0 <= p < n - 1 && frames[p].width == PositionalFirst(frames, n - 1).width;
      }
    }
  }

  /** Row j of the p-th frame is row RowsBefore(frames, p) + j of the
      concatenation, widened to the concatenation's width. */
  lemma {:induction false} PositionalFirstRow(frames: seq<Frame>, n: nat, p: nat, j: nat)
    requires n <= |frames|
    requires p < n && j < |frames[p].rows|
    ensures RowsBefore(frames, p) + j < |PositionalFirst(frames, n).rows|
    ensures PositionalFirst(frames, n).rows[RowsBefore(frames, p) + j] ==
              Pad(frames[p].rows[j], PositionalFirst(frames, n).width)
    decreases n
  {
    var prev := PositionalFirst(frames, n - 1);
    PositionalFirstRows(frames, n - 1);
    if p < n - 1 {
      PositionalFirstRow(frames, n - 1, p, j);
      PadTwice(frames[p].rows[j], prev.width, PositionalFirst(frames, n).width);
    }
  }

  /** The page tables of the given pages, in page order. */
  function PageFrames(tables: seq<seq<HtmlRow>>): (frames: seq<Frame>)
    ensures |frames| == |tables|
  {
    seq(|tables|, p requires 0 <= p < |tables| => PageFrame(CleanedRows(tables[p])))
  }

  lemma PageFramesLabelled(tables: seq<seq<HtmlRow>>)
    ensures forall p | 0 <= p < |tables| :: Labelled(PageFrames(tables)[p])
  {
    var frames := PageFrames(tables);
    forall p | 0 <= p < |frames| ensures Labelled(frames[p]) {
      assert frames[p] == PageFrame(CleanedRows(tables[p]));
    }
  }

  /** The table accumulated over the given pages: their page tables
      concatenated in page order. */
  function Aggregate(tables: seq<seq<HtmlRow>>): Frame
  {
    ConcatFirst(PageFrames(tables), |tables|)
  }

  /** The accumulated table has at most fourteen columns, labelled with the
      leading expected labels, and every row has one cell per column. */
  lemma AggregateLabelled(tables: seq<seq<HtmlRow>>)
    ensures Labelled(Aggregate(tables))
  {
    PageFramesLabelled(tables);
    ConcatFirstLabelled(PageFrames(tables), |tables|);
  }

  /** One more page appends its page table to the accumulated one. */
  lemma AggregateSnoc(tables: seq<seq<HtmlRow>>, table: seq<HtmlRow>)
    ensures Aggregate(tables + [table]) == Concat(Aggregate(tables), PageFrame(CleanedRows(table)))
  {
    var frames := PageFrames(tables + [table]);
    forall p | 0 <= p < |tables| ensures frames[p] == PageFrames(tables)[p] {
      assert (tables + [table])[p] == tables[p];
    }
    ConcatFirstPrefix(frames, PageFrames(tables), |tables|);
    assert frames[|tables|] == PageFrame(CleanedRows(table));
  }

  /** A page whose table has only header rows (no `td` cells) leaves the
      accumulated table exactly as it was. */
  lemma HeaderOnlyPageAddsNothing(tables: seq<seq<HtmlRow>>, table: seq<HtmlRow>)
    requires forall i | 0 <= i < |table| :: |table[i]| == 0
    ensures Aggregate(tables + [table]) == Aggregate(tables)
  {
    AggregateSnoc(tables, table);
    CleanedRowsCount(table);
    AggregateLabelled(tables);
    var prev := Aggregate(tables);
    var page := PageFrame(CleanedRows(table));
    assert page == EmptyFrame;
    ConcatAlignsByPosition(prev, page);
    forall j | 0 <= j < |prev.rows| ensures Widen(prev.rows, prev.width)[j] == prev.rows[j] {
      assert prev.rows[j] + [] == prev.rows[j];
    }
    assert Widen(prev.rows, prev.width) == prev.rows;
  }

  /** The cell in column c of the j-th row of a page table, and the fact that
      the table is at least as wide as that row, up to fourteen columns. */
  lemma PageCell(cleaned: seq<seq<string>>, j: nat, c: nat)
    requires j < |cleaned|
    ensures Min(|cleaned[j]|, ColumnLimit) <= PageFrame(cleaned).width
    ensures c < PageFrame(cleaned).width ==>
      PageFrame(cleaned).rows[j][c] == if c < |cleaned[j]| then Some(cleaned[j][c]) else None
  {
    LongestRowIsMax(cleaned);
  }

  /** The number of data rows on the pages before the p-th. */
  function DataRowsBefore(tables: seq<seq<HtmlRow>>, p: nat): nat
    requires p <= |tables|
  {
    if p == 0 then 0 else DataRowsBefore(tables, p - 1) + DataRowCount(tables[p - 1])
  }

  /** A page table has one row per row of the page that has `td` cells. */
  lemma PageRowCount(table: seq<HtmlRow>)
    ensures |PageFrame(CleanedRows(table)).rows| == DataRowCount(table)
  {
    CleanedRowsCount(table);
  }

  /** The pages before the p-th contribute one row per data row they have. */
  lemma {:induction false} DataRowsBeforePages(tables: seq<seq<HtmlRow>>, p: nat)
    requires p <= |tables|
    ensures DataRowsBefore(tables, p) == RowsBefore(PageFrames(tables), p)
  {
    if p > 0 {
      DataRowsBeforePages(tables, p - 1);
      PageRowCount(tables[p - 1]);
      assert PageFrames(tables)[p - 1] == PageFrame(CleanedRows(tables[p - 1]));
    }
  }

  /** The page tables are labelled, so their concatenation by label is their
      concatenation by position. */
  lemma AggregateByPosition(tables: seq<seq<HtmlRow>>)
    ensures Aggregate(tables) == PositionalFirst(PageFrames(tables), |tables|)
  {
    PageFramesLabelled(tables);
    ConcatFirstAlignsByPosition(PageFrames(tables), |tables|);
  }

  /** The accumulated table has one row per data row of every page. */
  lemma AggregateRowCount(tables: seq<seq<HtmlRow>>)
    ensures |Aggregate(tables).rows| == DataRowsBefore(tables, |tables|)
  {
    AggregateByPosition(tables);
    PositionalFirstRows(PageFrames(tables), |tables|);
    DataRowsBeforePages(tables, |tables|);
  }

  /** The accumulated table is as wide as the widest page table, so its
      labels are the first that many expected labels. */
  lemma AggregateWidth(tables: seq<seq<HtmlRow>>)
    ensures forall p | 0 <= p < |tables| :: PageFrame(CleanedRows(tables[p])).width <= Aggregate(tables).width
    ensures tables == [] ==> Aggregate(tables).width == 0
    ensures tables != [] ==> exists p | 0 <= p < |tables| ::
              PageFrame(CleanedRows(tables[p])).width == Aggregate(tables).width
  {
    var frames := PageFrames(tables);
    AggregateByPosition(tables);
    PositionalFirstWidth(frames, |tables|);
    forall p | 0 <= p < |tables|
      ensures PageFrame(CleanedRows(tables[p])).width <= Aggregate(tables).width
    {
      assert frames[p] == PageFrame(CleanedRows(tables[p]));
    }
    if tables != [] {
      var p :| 0 <= p < |frames| && frames[p].width == Aggregate(tables).width;
      assert frames[p] == PageFrame(CleanedRows(tables[p]));
    }
  }

  /** Where a row ends up: the j-th data row of page p is row
      DataRowsBefore(tables, p) + j of the accumulated table, and its cell in
      column c is the row's c-th cleaned cell when c is below both the row's
      length and fourteen, and missing otherwise. */
  lemma AggregateCell(tables: seq<seq<HtmlRow>>, p: nat, j: nat, c: nat)
    requires p < |tables|
    requires j < |CleanedRows(tables[p])|
    requires c < Aggregate(tables).width
    ensures DataRowsBefore(tables, p) + j < |Aggregate(tables).rows|
    ensures var row := CleanedRows(tables[p])[j];
      Aggregate(tables).rows[DataRowsBefore(tables, p) + j][c] ==
        if c < Min(|row|, ColumnLimit) then Some(row[c]) else None
  {
    var frames := PageFrames(tables);
    var page := PageFrame(CleanedRows(tables[p]));
    assert frames[p] == page;
    AggregateByPosition(tables);
    PositionalFirstRow(frames, |tables|, p, j);
    DataRowsBeforePages(tables, p);
    PadAt(page.rows[j], Aggregate(tables).width, c);
    PageCell(CleanedRows(tables[p]), j, c);
  }

  // ---------------------------------------------------------------------------
  // The crawl
  // ---------------------------------------------------------------------------

  /** The tables of the pages from `page` on, stopping before the first page
      without a results table or at the page limit. */
  function Crawled(fetch: nat -> Page, page: nat): seq<seq<HtmlRow>>
    decreases PageLimit - page
  {
    if page >= PageLimit then []
    else match fetch(page)
      case None => []
      case Some(table) => [table] + Crawled(fetch, page + 1)
  }

  /** The crawled tables are those of pages page, page + 1, … in order, each
      of which had a table, and the first page after them either had none or
      is past the last page requested. */
  lemma {:induction false} CrawledPages(fetch: nat -> Page, page: nat)
    requires page <= PageLimit
    ensures var tables := Crawled(fetch, page);
      && page + |tables| <= PageLimit
      && (forall i | 0 <= i < |tables| :: fetch(page + i) == Some(tables[i]))
      && (page + |tables| == PageLimit || fetch(page + |tables|).None?)
    decreases PageLimit - page
  {
    if page < PageLimit && fetch(page).Some? {
      CrawledPages(fetch, page + 1);
      var tables := Crawled(fetch, page);
      forall i | 0 <= i < |tables| ensures fetch(page + i) == Some(tables[i]) {
        if i > 0 {
          assert tables[i] == Crawled(fetch, page + 1)[i - 1];
        }
      }
    }
  }

  /** The page loop. `fetch` stands for requesting a page and locating its
      results table; `requested` lists the pages it was called on. Pages are
      requested one after another from page 1, at most 199 of them; every
      page requested before the last had a table; and the loop stops either
      at the first page without a table or after page 199. The result is the
      concatenation, in page order, of the tables of the pages crawled. */
  method Crawl(fetch: nat -> Page) returns (all: Frame, requested: seq<nat>)
    ensures 1 <= |requested| <= PageLimit - FirstPage
    ensures forall i | 0 <= i < |requested| :: requested[i] == FirstPage + i
    ensures forall i | 0 <= i < |requested| - 1 :: fetch(requested[i]).Some?
    ensures fetch(requested[|requested| - 1]).None? || |requested| == PageLimit - FirstPage
    ensures all == Aggregate(Crawled(fetch, FirstPage))
  {
    all := EmptyFrame;
    requested := [];
    ghost var tables: seq<seq<HtmlRow>> := [];
    var page: nat := FirstPage;
    while page < PageLimit
      invariant FirstPage <= page <= PageLimit
      invariant |requested| == page - FirstPage == |tables|
      invariant forall i | 0 <= i < |requested| :: requested[i] == FirstPage + i
      invariant forall i {:trigger requested[i]} | 0 <= i < |tables| :: fetch(requested[i]) == Some(tables[i])
      invariant all == Aggregate(tables)
    {
      requested := requested + [page];
      var table := fetch(page);
      if table.None? {
        break;
      }
      all := AppendPage(all, table.value, tables);
      tables := tables + [table.value];
      page := page + 1;
    }
    forall i | 0 <= i < |tables| ensures fetch(FirstPage + i) == Some(tables[i]) {
      assert requested[i] == FirstPage + i;
    }
    CrawledUnique(fetch, FirstPage, tables);
  }

  /** The body of the page loop for a page that has a table: clean its rows,
      build its page table and append that to the accumulated table. */
  method AppendPage(all: Frame, table: seq<HtmlRow>, ghost tables: seq<seq<HtmlRow>>) returns (next: Frame)
    requires all == Aggregate(tables)
    ensures next == Aggregate(tables + [table])
  {
    var cleaned := CleanPage(table);
    next := Concat(all, PageFrame(cleaned));
    AggregateSnoc(tables, table);
  }

  /** Conversely, the tables of consecutive pages from `page` on, each of
      which had a table, followed by a page without one or by the page
      limit, are exactly what the crawl collects from `page`. */
  lemma {:induction false} CrawledUnique(fetch: nat -> Page, page: nat, tables: seq<seq<HtmlRow>>)
    requires page + |tables| <= PageLimit
    requires forall i | 0 <= i < |tables| :: fetch(page + i) == Some(tables[i])
    requires page + |tables| == PageLimit || fetch(page + |tables|).None?
    ensures Crawled(fetch, page) == tables
    decreases |tables|
  {
    if tables != [] {
      var rest := tables[1..];
      forall i | 0 <= i < |rest| ensures fetch(page + 1 + i) == Some(rest[i]) {
        assert fetch(page + (i + 1)) == Some(tables[i + 1]);
      }
      CrawledUnique(fetch, page + 1, rest);
      assert fetch(page + 0) == Some(tables[0]);
    }
  }
}
