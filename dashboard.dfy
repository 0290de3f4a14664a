/**
  The record filters of the sales dashboard (src/dashboard.py): the rows
  load_data keeps, the rows the sidebar selection shows, and the two
  distinct-count tiles. Widgets and charts are left out; the selected year
  range and publisher are parameters.
*/
module Dashboard {
  import opened Wrappers

  /** A row of the cleaned CSV file as read: the game and publisher (None
      where the file has no value), the release_year cell as read, and the
      other columns, which the filters carry along unread. */
  datatype CsvRow = CsvRow(game: Option<string>, publisher: Option<string>, releaseYear: string, rest: seq<string>)

  /** A row of the loaded data: release_year is now an integer. */
  datatype GameRow = GameRow(game: Option<string>, publisher: Option<string>, releaseYear: int, rest: seq<string>)

  /** The publisher choice that stands for no publisher filter. */
  const AllPublishers: string := "All"

  // ---------------------------------------------------------------------------
  // load_data
  // ---------------------------------------------------------------------------

  /** What load_data makes of one row. `toYear` stands for numeric coercion
      followed by the cast to int: None when the cell is not a number, else
      the number truncated to an integer. */
  function LoadRow(r: CsvRow, toYear: string -> Option<int>): Option<GameRow> {
    match toYear(r.releaseYear)
    case None => None
    case Some(y) => if y > 0 then Some(GameRow(r.game, r.publisher, y, r.rest)) else None
  }

  /** The rows load_data returns: every row has a positive release year. */
  function LoadData(raw: seq<CsvRow>, toYear: string -> Option<int>): (data: seq<GameRow>)
    ensures |data| <= |raw|
    ensures forall i | 0 <= i < |data| :: data[i].releaseYear > 0
  {
    if raw == [] then []
    else
      (match LoadRow(raw[0], toYear) case None => [] case Some(g) => [g]) + LoadData(raw[1..], toYear)
  }

  /** Row r of the file becomes g: its release_year coerces to g's year,
      which is positive, and every other column is carried over unchanged. */
  ghost predicate LoadsTo(r: CsvRow, toYear: string -> Option<int>, g: GameRow) {
    && toYear(r.releaseYear) == Some(g.releaseYear) && g.releaseYear > 0
    && g == GameRow(r.game, r.publisher, g.releaseYear, r.rest)
  }

  /** load_data keeps exactly the rows whose release_year is a number whose
      integer part is positive, with that integer as their year and every
      other column unchanged. */
  lemma {:induction false} LoadDataMembers(raw: seq<CsvRow>, toYear: string -> Option<int>, g: GameRow)
    ensures g in LoadData(raw, toYear) <==> exists i | 0 <= i < |raw| :: LoadsTo(raw[i], toYear, g)
  {
    if raw != [] {
      LoadDataMembers(raw[1..], toYear, g);
      if exists i | 0 <= i < |raw| :: LoadsTo(raw[i], toYear, g) {
        var i :| 0 <= i < |raw| && LoadsTo(raw[i], toYear, g);
        if i > 0 {
          assert raw[1..][i - 1] == raw[i];
        }
      }
      if exists i | 0 <= i < |raw[1..]| :: LoadsTo(raw[1..][i], toYear, g) {
        var i :| 0 <= i < |raw[1..]| && LoadsTo(raw[1..][i], toYear, g);
        assert raw[i + 1] == raw[1..][i];
      }
    }
  }

  /** load_data keeps the surviving rows in their original relative order:
      loading a file in two parts gives the two results one after the other. */
  lemma {:induction false} LoadDataAppend(a: seq<CsvRow>, b: seq<CsvRow>, toYear: string -> Option<int>)
    ensures LoadData(a + b, toYear) == LoadData(a, toYear) + LoadData(b, toYear)
  {
    if a != [] {
      assert (a + b)[1..] == a[1..] + b;
      LoadDataAppend(a[1..], b, toYear);
    } else {
      assert a + b == b;
    }
  }

  // ---------------------------------------------------------------------------
  // The sidebar selection
  // ---------------------------------------------------------------------------

  /** A boolean-mask selection `rows[mask]`: the rows the mask keeps, in order. */
  function Where(rows: seq<GameRow>, keep: GameRow -> bool): (r: seq<GameRow>)
    ensures |r| <= |rows|
    ensures forall i | 0 <= i < |r| :: keep(r[i])
  {
    if rows == [] then []
    else (if keep(rows[0]) then [rows[0]] else []) + Where(rows[1..], keep)
  }

  /** a is b with some rows removed and none added, altered or reordered. */
  ghost predicate IsSubsequence(a: seq<GameRow>, b: seq<GameRow>)
    decreases |b|
  {
    a == [] ||
    (b != [] && ((a[0] == b[0] && IsSubsequence(a[1..], b[1..])) || IsSubsequence(a, b[1..])))
  }

  lemma {:induction false} SubsequenceTransitive(a: seq<GameRow>, b: seq<GameRow>, c: seq<GameRow>)
    requires IsSubsequence(a, b) && IsSubsequence(b, c)
    ensures IsSubsequence(a, c)
    decreases |a| + |b| + |c|
  {
    if a != [] {
      if IsSubsequence(b, c[1..]) {
        SubsequenceTransitive(a, b, c[1..]);
      } else if a[0] == b[0] && IsSubsequence(a[1..], b[1..]) {
        SubsequenceTransitive(a[1..], b[1..], c[1..]);
      } else {
        SubsequenceTransitive(a, b[1..], c[1..]);
      }
    }
  }

  /** A selection never adds or alters rows, and it keeps a row exactly when
      the mask accepts it. */
  lemma {:induction false} WhereSpec(rows: seq<GameRow>, keep: GameRow -> bool)
    ensures IsSubsequence(Where(rows, keep), rows)
    ensures forall g :: g in Where(rows, keep) <==> g in rows && keep(g)
  {
    if rows != [] {
      WhereSpec(rows[1..], keep);
      assert rows == [rows[0]] + rows[1..];
      var rest := Where(rows[1..], keep);
      if keep(rows[0]) {
        assert Where(rows, keep) == [rows[0]] + rest;
        assert Where(rows, keep)[1..] == rest;
      } else {
        assert Where(rows, keep) == rest;
        if rest != [] {
          assert IsSubsequence(rest, rows[1..]);
        }
      }
    }
  }

  /** A selection keeps every copy of an accepted row: it occurs in the
      selection as often as in the input, and a refused row not at all. */
  lemma {:induction false} WhereCounts(rows: seq<GameRow>, keep: GameRow -> bool)
    ensures forall g :: multiset(Where(rows, keep))[g] == if keep(g) then multiset(rows)[g] else 0
  {
    if rows != [] {
      WhereCounts(rows[1..], keep);
      assert rows == [rows[0]] + rows[1..];
      assert multiset(rows) == multiset([rows[0]]) + multiset(rows[1..]);
    }
  }

  /** Selecting from a table in two parts gives the two selections one after
      the other, so the selected rows keep their order. */
  lemma {:induction false} WhereAppend(a: seq<GameRow>, b: seq<GameRow>, keep: GameRow -> bool)
    ensures Where(a + b, keep) == Where(a, keep) + Where(b, keep)
  {
    if a != [] {
      assert (a + b)[1..] == a[1..] + b;
      WhereAppend(a[1..], b, keep);
    } else {
      assert a + b == b;
    }
  }

  /** `filtered_data`: the rows released from startYear to endYear, both
      included, then, unless the choice is All, those of the chosen
      publisher. */
  function Select(data: seq<GameRow>, startYear: int, endYear: int, publisher: string): seq<GameRow>
  {
    var inRange := Where(data, YearMask(startYear, endYear));
    if publisher != AllPublishers then Where(inRange, PublisherMask(publisher)) else inRange
  }

  /** The year-range mask: released from startYear to endYear, both included. */
  function YearMask(startYear: int, endYear: int): GameRow -> bool {
    (g: GameRow) => startYear <= g.releaseYear <= endYear
  }

  /** The publisher mask: the publisher column equals the chosen name. */
  function PublisherMask(publisher: string): GameRow -> bool {
    (g: GameRow) => g.publisher == Some(publisher)
  }

  /** Every shown row was released within the chosen years, inclusive at both
      ends, and is of the chosen publisher unless that is All; every row of
      the data meeting these is shown; and the shown rows are the data with
      some rows removed, none added, altered or reordered. */
  lemma SelectSpec(data: seq<GameRow>, startYear: int, endYear: int, publisher: string)
    ensures var shown := Select(data, startYear, endYear, publisher);
      && (forall i | 0 <= i < |shown| :: startYear <= shown[i].releaseYear <= endYear)
      && (publisher != AllPublishers ==> forall i | 0 <= i < |shown| :: shown[i].publisher == Some(publisher))
      && (forall g :: g in shown <==>
            g in data && startYear <= g.releaseYear <= endYear &&
            (publisher == AllPublishers || g.publisher == Some(publisher)))
      && IsSubsequence(shown, data)
  {
    var inYears := YearMask(startYear, endYear);
    var ofPublisher := PublisherMask(publisher);
    var inRange := Where(data, inYears);
    WhereSpec(data, inYears);
    if publisher != AllPublishers {
      WhereSpec(inRange, ofPublisher);
      SubsequenceTransitive(Where(inRange, ofPublisher), inRange, data);
      forall i | 0 <= i < |Where(inRange, ofPublisher)|
        ensures startYear <= Where(inRange, ofPublisher)[i].releaseYear <= endYear
      {
        assert Where(inRange, ofPublisher)[i] in inRange;
      }
    }
  }

  /** The selection drops no copy of a row it shows: a row meeting the year
      range and the publisher choice is shown as many times as it occurs in
      the data, any other row not at all. */
  lemma SelectCounts(data: seq<GameRow>, startYear: int, endYear: int, publisher: string)
    ensures var shown := Select(data, startYear, endYear, publisher);
      forall g :: multiset(shown)[g] ==
        if startYear <= g.releaseYear <= endYear && (publisher == AllPublishers || g.publisher == Some(publisher))
        then multiset(data)[g] else 0
  {
    var inYears := YearMask(startYear, endYear);
    var ofPublisher := PublisherMask(publisher);
    var inRange := Where(data, inYears);
    WhereCounts(data, inYears);
    if publisher != AllPublishers {
      WhereCounts(inRange, ofPublisher);
    }
  }

  // ---------------------------------------------------------------------------
  // The Total Games and Total Publishers tiles
  // ---------------------------------------------------------------------------

  /** The distinct non-missing values of a column. */
  function Distinct(values: seq<Option<string>>): set<string> {
    set i | 0 <= i < |values| && values[i].Some? :: values[i].value
  }

  /** The column's nunique(): the number of distinct values, missing ones
      not counted. It is at most the number of rows, and 0 exactly when every
      value is missing. */
  function NUnique(values: seq<Option<string>>): (n: nat)
    ensures n <= |values|
    ensures n == 0 <==> forall i | 0 <= i < |values| :: values[i].None?
  {
    DistinctBound(values);
    |Distinct(values)|
  }

  lemma {:induction false} DistinctBound(values: seq<Option<string>>)
    ensures |Distinct(values)| <= |values|
    ensures Distinct(values) == {} <==> forall i | 0 <= i < |values| :: values[i].None?
  {
    if values != [] {
      var rest := values[1..];
      DistinctBound(rest);
      var head := if values[0].Some? then {values[0].value} else {};
      assert Distinct(values) == head + Distinct(rest) by {
        forall s | s in Distinct(values) ensures s in head + Distinct(rest) {
          var i :| 0 <= i < |values| && values[i].Some? && values[i].value == s;
          if i > 0 {
            assert rest[i - 1] == values[i];
          }
        }
        forall s | s in Distinct(rest) ensures s in Distinct(values) {
          var i :| 0 <= i < |rest| && rest[i].Some? && rest[i].value == s;
          assert values[i + 1] == rest[i];
        }
      }
    }
  }

  function GameColumn(rows: seq<GameRow>): seq<Option<string>> {
    seq(|rows|, i requires 0 <= i < |rows| => rows[i].game)
  }

  function PublisherColumn(rows: seq<GameRow>): seq<Option<string>> {
    seq(|rows|, i requires 0 <= i < |rows| => rows[i].publisher)
  }

  /** The Total Games tile. */
  function TotalGames(shown: seq<GameRow>): nat {
    NUnique(GameColumn(shown))
  }

  /** The Total Publishers tile. */
  function TotalPublishers(shown: seq<GameRow>): nat {
    NUnique(PublisherColumn(shown))
  }

  /** The tiles count the distinct game titles and publishers among the
      shown rows, and never exceed the number of shown rows. */
  lemma TilesCountDistinct(shown: seq<GameRow>)
    ensures TotalGames(shown) == |set g | g in shown && g.game.Some? :: g.game.value|
    ensures TotalPublishers(shown) == |set g | g in shown && g.publisher.Some? :: g.publisher.value|
    ensures TotalGames(shown) <= |shown| && TotalPublishers(shown) <= |shown|
  {
    var games := set g | g in shown && g.game.Some? :: g.game.value;
    assert Distinct(GameColumn(shown)) == games by {
      forall s | s in games ensures s in Distinct(GameColumn(shown)) {
        var g :| g in shown && g.game.Some? && g.game.value == s;
        var i :| 0 <= i < |shown| && shown[i] == g;
        assert GameColumn(shown)[i] == g.game;
      }
    }
    var publishers := set g | g in shown && g.publisher.Some? :: g.publisher.value;
    assert Distinct(PublisherColumn(shown)) == publishers by {
      forall s | s in publishers ensures s in Distinct(PublisherColumn(shown)) {
        var g :| g in shown && g.publisher.Some? && g.publisher.value == s;
        var i :| 0 <= i < |shown| && shown[i] == g;
        assert PublisherColumn(shown)[i] == g.publisher;
      }
    }
  }

  /** With one publisher chosen, the Total Publishers tile shows 1 when any
      row is shown and 0 otherwise. */
  lemma OnePublisherTile(data: seq<GameRow>, startYear: int, endYear: int, publisher: string)
    requires publisher != AllPublishers
    ensures TotalPublishers(Select(data, startYear, endYear, publisher)) ==
              if Select(data, startYear, endYear, publisher) == [] then 0 else 1
  {
    var shown := Select(data, startYear, endYear, publisher);
    SelectSpec(data, startYear, endYear, publisher);
    var column := PublisherColumn(shown);
    if shown != [] {
      assert column[0] == Some(publisher);
      assert Distinct(column) == {publisher};
    }
  }
}
