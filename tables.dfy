/** The statistic and move tables shown for an entry, as structured cells
    rather than HTML markup. */
module Tables {
  import opened Records

  /** A table cell: some text, a number, or a number shown with a '%' sign. */
  datatype Cell = Text(s: string) | Number(n: int) | Percent(n: int)

  /** The cell shown where a move has no power or no healing. */
  const NotApplicable: Cell := Text("N/A")
  /** The cell shown where a move has no accuracy value. */
  const NoAccuracy: Cell := Text("\U{2014}")

  /** A titled table: a header row and data rows. */
  datatype Table = Table(title: string, header: seq<string>, rows: seq<seq<Cell>>)

  const StatsHeader: seq<string> := ["HP", "ATK", "DEF", "SPA", "SPD", "SPE"]
  const MoveHeader: seq<string> := ["Move", "Power (DMG)", "Accuracy (ACC)", "Heal (HP)"]

  /** The display row of one move: power shows when positive, accuracy
      unless it is zero, healing as a percentage when positive. */
  function MoveRow(m: Move): (row: seq<Cell>)
  {
    [ Text(m.name),
      if m.power > 0 then Number(m.power) else NotApplicable,
      if m.accuracy != 0 then Number(m.accuracy) else NoAccuracy,
      if m.heal > 0 then Percent(m.heal) else NotApplicable ]
  }

  /** The value a reader takes from a numeric cell; a placeholder reads as 0. */
  function CellValue(c: Cell): int
  {
    match c
    case Number(n) => n
    case Percent(n) => n
    case Text(_) => 0
  }

  /** Reads a move back out of a display row. */
  function ReadMove(row: seq<Cell>): (m: Option<Move>)
    ensures m.Some? <==> |row| == 4 && row[0].Text?
  {
    if |row| == 4 && row[0].Text? then
      Some(Move(row[0].s, CellValue(row[1]), CellValue(row[2]), CellValue(row[3])))
    else None
  }

  /** What the display keeps of a move: a non-positive power or healing
      value is indistinguishable from zero. */
  function Shown(m: Move): Move
  {
    Move(m.name, if m.power > 0 then m.power else 0, m.accuracy,
         if m.heal > 0 then m.heal else 0)
  }

  /** Reading a row back gives the move, up to the non-positive power and
      healing values that all show as 'N/A'. */
  lemma MoveRowReadBack(m: Move)
    ensures ReadMove(MoveRow(m)) == Some(Shown(m))
    ensures m.power >= 0 && m.heal >= 0 ==> ReadMove(MoveRow(m)) == Some(m)
  {
  }

  /** The cell rules, each as an if-and-only-if on the move's value. */
  lemma MoveRowCells(m: Move)
    ensures |MoveRow(m)| == |MoveHeader|
    ensures MoveRow(m)[0] == Text(m.name)
    ensures MoveRow(m)[1] == NotApplicable <==> m.power <= 0
    ensures MoveRow(m)[1] != NotApplicable ==> MoveRow(m)[1] == Number(m.power)
    ensures MoveRow(m)[2] == NoAccuracy <==> m.accuracy == 0
    ensures MoveRow(m)[2] != NoAccuracy ==> MoveRow(m)[2] == Number(m.accuracy)
    ensures MoveRow(m)[3] == NotApplicable <==> m.heal <= 0
    ensures MoveRow(m)[3] != NotApplicable ==> MoveRow(m)[3] == Percent(m.heal)
  {
  }

  /** The two display examples: a move with no values, and a damaging move
      with no healing. */
  lemma MoveRowExamples(x: string)
    ensures MoveRow(Move(x, 0, 0, 0)) == [Text(x), NotApplicable, NoAccuracy, NotApplicable]
    ensures MoveRow(Move(x, 50, 90, 0)) == [Text(x), Number(50), Number(90), NotApplicable]
  {
  }

  /** The move table: one row per move, in the order of the moves. */
  method MoveTable(moves: seq<Move>) returns (t: Table)
    ensures t.title == "Known Moves" && t.header == MoveHeader
    ensures |t.rows| == |moves|
    ensures forall i :: 0 <= i < |moves| ==> t.rows[i] == MoveRow(moves[i])
    ensures forall i :: 0 <= i < |moves| ==> ReadMove(t.rows[i]) == Some(Shown(moves[i]))
  {
    var rows: seq<seq<Cell>> := [];
    var i := 0;
    while i < |moves|
      invariant 0 <= i <= |moves|
      invariant |rows| == i
      invariant forall k :: 0 <= k < i ==> rows[k] == MoveRow(moves[k])
    {
      rows := rows + [MoveRow(moves[i])];
      i := i + 1;
    }
    forall k | 0 <= k < |moves|
      ensures ReadMove(rows[k]) == Some(Shown(moves[k]))
    {
      MoveRowReadBack(moves[k]);
    }
    t := Table("Known Moves", MoveHeader, rows);
  }

  /** Reads the six stats back out of a statistic table whose one data row
      holds six plain numbers. */
  function ReadStats(t: Table): Option<Stats>
  {
    if |t.rows| == 1 && |t.rows[0]| == 6 && forall i :: 0 <= i < 6 ==> t.rows[0][i].Number? then
      var r := t.rows[0];
      Some(Stats(CellValue(r[0]), CellValue(r[1]), CellValue(r[2]),
                 CellValue(r[3]), CellValue(r[4]), CellValue(r[5])))
    else None
  }

  /** The statistic table; absent stats show no table at all. */
  function StatsTable(stats: Option<Stats>): (t: Option<Table>)
    ensures t.None? <==> stats.None?
    ensures t.Some? ==> t.value.title == "Base Stats" && t.value.header == StatsHeader
    ensures t.Some? ==> ReadStats(t.value) == stats
  {
    match stats
    case None => None
    case Some(s) =>
      Some(Table("Base Stats", StatsHeader,
                 [[Number(s.hp), Number(s.atk), Number(s.def),
                   Number(s.spa), Number(s.spd), Number(s.spe)]]))
  }
}
