/** Building Millennium's cardholder import: rows grouped into files by the cells they set. */
module ImportFile {
  import opened Base
  import opened Order
  import opened Export

  /** Card 0 is a cardholder field, 1-3 a card slot. */
  datatype Cell = Cell(card: nat, field: string)

  datatype Row = Row(employeeId: string, firstName: string, lastName: string, cells: map<Cell, string>)

  datatype Field = Field(card: nat, id: nat, name: string, columnId: nat, columnName: string)

  datatype ImportFile = ImportFile(headers: seq<string>, lines: seq<seq<string>>, fields: seq<Field>)

  datatype Built = Built(files: seq<ImportFile>) | Rejected

  const KEY_COLUMNS: seq<Cell> := [Cell(0, "Employee ID"), Cell(0, "First Name"), Cell(0, "Last Name")]

  const CARD_IDENTITY: seq<string> := ["Encoded Card No.", "Facility Code"]

  function LevelLabel(position: nat, suffix: string): string {
    "Access Level " + Decimal(position) + suffix
  }

  const ACTIVATION := " Activation Date"
  const EXPIRATION := " Expiration Date"

  function LevelIds(upto: nat): map<string, nat> {
    if upto == 0 then map[]
    else LevelIds(upto - 1)[LevelLabel(upto, "") := 199 + upto][LevelLabel(upto, ACTIVATION) := 455 + upto]
                           [LevelLabel(upto, EXPIRATION) := 711 + upto]
  }

  function FieldIds(): map<string, nat> {
    map["First Name" := 1, "Last Name" := 2, "Employee ID" := 4, "Encoded Card No." := 16,
        "Activation Date" := 17, "Expiration Date" := 18, "Active" := 19, "Card Format" := 20,
        "Facility Code" := 21] + LevelIds(10)
  }

  // ---- columns ----

  predicate CellLess(a: Cell, b: Cell) {
    a.card < b.card || (a.card == b.card && TextLess(a.field, b.field))
  }

  lemma CellsAreOrdered()
    ensures StrictTotal(CellLess)
  {
    TextIsOrdered();
  }

  ghost function Columns(row: Row): seq<Cell> {
    KEY_COLUMNS + SortedSet(CellLess, row.cells.Keys)
  }

  method ColumnsOf(row: Row) returns (columns: seq<Cell>)
    ensures columns == Columns(row)
  {
    CellsAreOrdered();
    var sorted := SortSet(CellLess, row.cells.Keys);
    columns := KEY_COLUMNS + sorted;
  }

  lemma ColumnsHold(row: Row)
    ensures Columns(row)[3..] == SortedSet(CellLess, row.cells.Keys)
    ensures forall c :: c in Columns(row)[3..] <==> c in row.cells.Keys
  {
    CellsAreOrdered();
    SortedSetIs(CellLess, row.cells.Keys);
  }

  /** The column tuple is canonical: two rows have the same one exactly when they set the same cells. */
  lemma SameColumnsSameCells(a: Row, b: Row)
    ensures Columns(a) == Columns(b) <==> a.cells.Keys == b.cells.Keys
  {
    if Columns(a) == Columns(b) {
      ColumnsHold(a);
      ColumnsHold(b);
      assert forall c :: c in a.cells.Keys <==> c in b.cells.Keys;
    }
  }

  /** A cell the row sets wins over its key columns. */
  function Value(row: Row, c: Cell): string {
    if c in row.cells then row.cells[c]
    else if c == Cell(0, "Employee ID") then row.employeeId
    else if c == Cell(0, "First Name") then row.firstName
    else if c == Cell(0, "Last Name") then row.lastName
    else ""
  }

  /** A row's columns are the three that name the cardholder and then the cells it sets; the values there
      are the cardholder's and the cells', a cell set winning. */
  lemma ColumnsSay(row: Row, c: Cell)
    ensures c in Columns(row) <==> c in row.cells || (c.card == 0 && c.field in {"Employee ID", "First Name", "Last Name"})
    ensures |Columns(row)| >= 3 && Columns(row)[0] == Cell(0, "Employee ID") && Columns(row)[1] == Cell(0, "First Name") && Columns(row)[2] == Cell(0, "Last Name")
    ensures c in row.cells ==> Value(row, c) == row.cells[c]
    ensures c !in row.cells && c.card == 0 ==>
              && (c.field == "Employee ID" ==> Value(row, c) == row.employeeId)
              && (c.field == "First Name" ==> Value(row, c) == row.firstName)
              && (c.field == "Last Name" ==> Value(row, c) == row.lastName)
  {
    ColumnsHold(row);
    assert |"Employee ID"| == 11 && |"First Name"| == 10 && |"Last Name"| == 9;
    assert forall x :: x in Columns(row) <==> x in Columns(row)[..3] || x in Columns(row)[3..];
  }

  // ---- grouping ----

  datatype Group = Group(columns: seq<Cell>, rows: seq<Row>)

  function AddTo(groups: seq<Group>, columns: seq<Cell>, row: Row): seq<Group> {
    if groups == [] then [Group(columns, [row])]
    else if groups[0].columns == columns then [Group(columns, groups[0].rows + [row])] + groups[1..]
    else [groups[0]] + AddTo(groups[1..], columns, row)
  }

  ghost function Groups(rows: seq<Row>): seq<Group> {
    if rows == [] then []
    else AddTo(Groups(rows[..|rows| - 1]), Columns(rows[|rows| - 1]), rows[|rows| - 1])
  }

  ghost function WithColumns(rows: seq<Row>, columns: seq<Cell>): seq<Row> {
    Filter((r: Row) => Columns(r) == columns, rows)
  }

  ghost predicate HasGroup(groups: seq<Group>, columns: seq<Cell>) {
    exists g <- groups :: g.columns == columns
  }

  function TotalRows(groups: seq<Group>): nat {
    if groups == [] then 0 else |groups[0].rows| + TotalRows(groups[1..])
  }

  predicate DistinctColumns(groups: seq<Group>) {
    forall i, j | 0 <= i < j < |groups| :: groups[i].columns != groups[j].columns
  }

  lemma {:induction false} AddToCounts(groups: seq<Group>, columns: seq<Cell>, row: Row)
    ensures TotalRows(AddTo(groups, columns, row)) == TotalRows(groups) + 1
  {
    if groups != [] && groups[0].columns != columns {
      AddToCounts(groups[1..], columns, row);
    }
  }

  lemma HasGroupSplit(head: Group, tail: seq<Group>)
    ensures forall c :: HasGroup([head] + tail, c) <==> c == head.columns || HasGroup(tail, c)
  {
    var groups := [head] + tail;
    assert groups[0] == head && groups[1..] == tail;
    forall c ensures HasGroup(groups, c) <==> c == head.columns || HasGroup(tail, c) {
      assert head in groups;
    }
  }

  lemma {:induction false} AddToColumns(groups: seq<Group>, columns: seq<Cell>, row: Row)
    ensures forall c :: HasGroup(AddTo(groups, columns, row), c) <==> c == columns || HasGroup(groups, c)
  {
    if groups == [] {
      assert AddTo(groups, columns, row)[0].columns == columns;
    } else {
      var head, tail := groups[0], groups[1..];
      HasGroupSplit(head, tail);
      assert groups == [head] + tail;
      if head.columns != columns {
        AddToColumns(tail, columns, row);
        HasGroupSplit(head, AddTo(tail, columns, row));
      } else {
        HasGroupSplit(Group(columns, head.rows + [row]), tail);
      }
    }
  }

  lemma {:induction false} AddToDistinct(groups: seq<Group>, columns: seq<Cell>, row: Row)
    requires DistinctColumns(groups)
    ensures DistinctColumns(AddTo(groups, columns, row))
  {
    if groups != [] && groups[0].columns != columns {
      AddToDistinct(groups[1..], columns, row);
      AddToColumns(groups[1..], columns, row);
      var rest := AddTo(groups[1..], columns, row);
      forall i | 0 <= i < |rest| ensures rest[i].columns != groups[0].columns {
        assert rest[i] in rest && HasGroup(rest, rest[i].columns);
        if HasGroup(groups[1..], rest[i].columns) {
          var g :| g in groups[1..] && g.columns == rest[i].columns;
        }
      }
    }
  }

  /** The group for these columns gains the row at its end; the others stay. */
  lemma {:induction false} AddToMember(groups: seq<Group>, columns: seq<Cell>, row: Row, g: Group)
    requires DistinctColumns(groups) && g in AddTo(groups, columns, row)
    ensures g.columns != columns ==> g in groups
    ensures g.columns == columns ==>
              (!HasGroup(groups, columns) && g.rows == [row])
              || exists o <- groups :: o.columns == columns && g.rows == o.rows + [row]
  {
    if groups != [] {
      var head, tail := groups[0], groups[1..];
      assert groups == [head] + tail;
      if head.columns == columns {
        assert forall x <- tail :: x.columns != columns;
      } else if g != head {
        AddToMember(tail, columns, row, g);
        assert HasGroup(groups, columns) ==> HasGroup(tail, columns);
      }
    }
  }

  ghost predicate GroupRight(rows: seq<Row>, g: Group) {
    g.rows == WithColumns(rows, g.columns) && g.rows != []
  }

  /** Grouping is an exact partition: every row lands in exactly one group, with
      every row that sets the same cells and no other, in the order given. */
  lemma GroupingIsAPartition(rows: seq<Row>)
    ensures DistinctColumns(Groups(rows))
    ensures forall g <- Groups(rows) :: g.rows == WithColumns(rows, g.columns) && g.rows != []
    ensures forall r <- rows :: HasGroup(Groups(rows), Columns(r))
    ensures TotalRows(Groups(rows)) == |rows|
  {
    GroupsCover(rows);
    GroupsRight(rows);
  }

  lemma {:induction false} GroupsCover(rows: seq<Row>)
    ensures DistinctColumns(Groups(rows)) && TotalRows(Groups(rows)) == |rows|
    ensures forall c :: HasGroup(Groups(rows), c) <==> exists r <- rows :: Columns(r) == c
    ensures forall r <- rows :: HasGroup(Groups(rows), Columns(r))
  {
    if rows != [] {
      var front, last := rows[..|rows| - 1], rows[|rows| - 1];
      assert rows == front + [last];
      GroupsCover(front);
      AddToCounts(Groups(front), Columns(last), last);
      AddToColumns(Groups(front), Columns(last), last);
      AddToDistinct(Groups(front), Columns(last), last);
    }
  }

  lemma {:induction false} GroupsRight(rows: seq<Row>)
    ensures forall g <- Groups(rows) :: GroupRight(rows, g)
  {
    if rows != [] {
      var front, last := rows[..|rows| - 1], rows[|rows| - 1];
      assert rows == front + [last];
      GroupsRight(front);
      GroupsCover(front);
      forall g | g in Groups(rows) ensures GroupRight(rows, g) {
        AddToMember(Groups(front), Columns(last), last, g);
        FilterStep((r: Row) => Columns(r) == g.columns, front, last);
        if g.columns == Columns(last) && !HasGroup(Groups(front), g.columns) {
          NothingIn(WithColumns(front, g.columns));
        }
      }
    }
  }

  lemma SameFileIffSameCells(rows: seq<Row>, a: Row, b: Row, g: Group)
    requires a in rows && b in rows && g in Groups(rows) && a in g.rows
    ensures b in g.rows <==> a.cells.Keys == b.cells.Keys
  {
    GroupingIsAPartition(rows);
    SameColumnsSameCells(a, b);
  }

  // ---- one file ----

  function ColumnName(c: Cell): string {
    if c.card == 0 then c.field else "Card " + Decimal(c.card) + " " + c.field
  }

  function NoSpaces(s: string): string {
    if s == [] then [] else (if s[0] == ' ' then [] else [s[0]]) + NoSpaces(s[1..])
  }

  predicate Mappable(columns: seq<Cell>) {
    forall c <- columns :: c.field in FieldIds()
  }

  function Line(columns: seq<Cell>, row: Row): (r: seq<string>)
    ensures |r| == |columns| && forall i | 0 <= i < |r| :: r[i] == Value(row, columns[i])
  {
    seq(|columns|, i requires 0 <= i < |columns| => Value(row, columns[i]))
  }

  /** A full rectangle whose column i carries cell i, mapped to that cell's field. */
  ghost predicate FileOf(file: ImportFile, g: Group) {
    && |file.headers| == |file.fields| == |g.columns|
    && |file.lines| == |g.rows|
    && (forall r | 0 <= r < |g.rows| :: file.lines[r] == Line(g.columns, g.rows[r]))
    && (forall i | 0 <= i < |g.columns| ::
          var c := g.columns[i];
          && c.field in FieldIds()
          && file.headers[i] == NoSpaces(ColumnName(c))
          && file.fields[i] == Field(c.card, FieldIds()[c.field], ColumnName(c), i, file.headers[i]))
  }

  function FieldOf(ids: map<string, nat>, c: Cell, i: nat): Field
    requires c.field in ids
  {
    Field(c.card, ids[c.field], ColumnName(c), i, NoSpaces(ColumnName(c)))
  }

  method MapFields(ids: map<string, nat>, columns: seq<Cell>) returns (headers: seq<string>, fields: seq<Field>)
    requires forall c <- columns :: c.field in ids
    ensures |headers| == |fields| == |columns|
    ensures forall j | 0 <= j < |columns| :: headers[j] == NoSpaces(ColumnName(columns[j])) && fields[j] == FieldOf(ids, columns[j], j)
  {
    headers, fields := [], [];
    for i := 0 to |columns|
      invariant |headers| == |fields| == i
      invariant forall j | 0 <= j < i :: headers[j] == NoSpaces(ColumnName(columns[j])) && fields[j] == FieldOf(ids, columns[j], j)
    {
      headers := headers + [NoSpaces(ColumnName(columns[i]))];
      fields := fields + [FieldOf(ids, columns[i], i)];
    }
  }

  method File(g: Group) returns (file: ImportFile)
    requires Mappable(g.columns)
    ensures FileOf(file, g)
  {
    var headers, fields := MapFields(FieldIds(), g.columns);
    var lines: seq<seq<string>> := [];
    for r := 0 to |g.rows|
      invariant |lines| == r && forall k | 0 <= k < r :: lines[k] == Line(g.columns, g.rows[k])
    {
      lines := lines + [Line(g.columns, g.rows[r])];
    }
    file := ImportFile(headers, lines, fields);
  }

  /** Every card a row names carries its number and facility code. */
  predicate Identified(row: Row) {
    forall c <- row.cells.Keys, field <- CARD_IDENTITY | c.card != 0 ::
      Cell(c.card, field) in row.cells && row.cells[Cell(c.card, field)] != ""
  }

  /** Said of the cells: for each card a cell is of, both its number and its facility code, neither empty. */
  lemma IdentifiedSays(row: Row)
    ensures Identified(row) <==>
              forall c <- row.cells.Keys | c.card != 0 ::
                && Cell(c.card, "Encoded Card No.") in row.cells && row.cells[Cell(c.card, "Encoded Card No.")] != ""
                && Cell(c.card, "Facility Code") in row.cells && row.cells[Cell(c.card, "Facility Code")] != ""
  {
    assert CARD_IDENTITY[0] in CARD_IDENTITY && CARD_IDENTITY[1] in CARD_IDENTITY;
    assert forall field <- CARD_IDENTITY :: field == CARD_IDENTITY[0] || field == CARD_IDENTITY[1];
    var number, facility := CARD_IDENTITY[0], CARD_IDENTITY[1];
    assert Identified(row) <==>
             forall c <- row.cells.Keys | c.card != 0 ::
               && Cell(c.card, number) in row.cells && row.cells[Cell(c.card, number)] != ""
               && Cell(c.card, facility) in row.cells && row.cells[Cell(c.card, facility)] != "";
  }

  method AllIdentified(rows: seq<Row>) returns (all: bool)
    ensures all <==> forall r <- rows :: Identified(r)
  {
    for i := 0 to |rows|
      invariant forall j | 0 <= j < i :: Identified(rows[j])
    {
      if !Identified(rows[i]) {
        return false;
      }
    }
    return true;
  }

  method GroupRows(rows: seq<Row>) returns (groups: seq<Group>)
    ensures groups == Groups(rows)
  {
    groups := [];
    for i := 0 to |rows|
      invariant groups == Groups(rows[..i])
    {
      var columns := ColumnsOf(rows[i]);
      GroupsStep(rows, i);
      groups := AddTo(groups, columns, rows[i]);
    }
    assert rows[..|rows|] == rows;
  }

  lemma GroupsStep(rows: seq<Row>, i: nat)
    requires i < |rows|
    ensures Groups(rows[..i + 1]) == AddTo(Groups(rows[..i]), Columns(rows[i]), rows[i])
  {
    assert rows[..i + 1][..i] == rows[..i];
  }

  method Files(groups: seq<Group>) returns (built: Built)
    ensures built.Built? <==> forall g <- groups :: Mappable(g.columns)
    ensures built.Built? ==> |built.files| == |groups| && forall k | 0 <= k < |groups| :: FileOf(built.files[k], groups[k])
  {
    var files: seq<ImportFile> := [];
    for k := 0 to |groups|
      invariant |files| == k && forall j | 0 <= j < k :: FileOf(files[j], groups[j])
      invariant forall j | 0 <= j < k :: Mappable(groups[j].columns)
    {
      if !Mappable(groups[k].columns) {
        assert groups[k] in groups;
        return Rejected;
      }
      var file := File(groups[k]);
      files := files + [file];
    }
    built := Built(files);
  }

  /** One import per distinct set of columns; refused whole when a card lacks its
      identity or a cell has no Millennium field. */
  method Build(rows: seq<Row>) returns (built: Built)
    ensures built.Built? <==> (forall r <- rows :: Identified(r)) && forall r <- rows :: Mappable(Columns(r))
    ensures built.Built? ==> |built.files| == |Groups(rows)|
    ensures built.Built? ==> forall k | 0 <= k < |built.files| :: FileOf(built.files[k], Groups(rows)[k])
  {
    var identified := AllIdentified(rows);
    if !identified {
      return Rejected;
    }
    var groups := GroupRows(rows);
    built := Files(groups);
    MappableGroups(rows);
  }

  lemma MappableGroups(rows: seq<Row>)
    ensures (forall g <- Groups(rows) :: Mappable(g.columns)) <==> forall r <- rows :: Mappable(Columns(r))
  {
    GroupingIsAPartition(rows);
    forall g | g in Groups(rows)
      ensures exists r <- rows :: Columns(r) == g.columns
    {
      GroupHasRow(rows, g);
    }
  }

  lemma GroupHasRow(rows: seq<Row>, g: Group)
    requires g in Groups(rows)
    ensures exists r <- rows :: Columns(r) == g.columns
  {
    GroupingIsAPartition(rows);
    assert g.rows[0] in g.rows;
    assert g.rows[0] in rows && Columns(g.rows[0]) == g.columns;
  }

  // ---- access levels ----

  function LevelCells(card: nat, levels: seq<AccessLevel>): map<Cell, string> {
    if levels == [] then map[]
    else
      WithLevel(LevelCells(card, levels[..|levels| - 1]), card, levels[|levels| - 1])
  }

  /** Only what is set: an empty date is left out rather than sent empty. */
  function WithLevel(cells: map<Cell, string>, card: nat, level: AccessLevel): map<Cell, string> {
    var named := cells[Cell(card, LevelLabel(level.position, "")) := level.name];
    var started := if level.activation == "" then named
                   else named[Cell(card, LevelLabel(level.position, ACTIVATION)) := level.activation];
    if level.expiration == "" then started
    else started[Cell(card, LevelLabel(level.position, EXPIRATION)) := level.expiration]
  }

  method AccessLevelCells(card: nat, levels: seq<AccessLevel>) returns (cells: map<Cell, string>)
    ensures cells == LevelCells(card, levels)
  {
    cells := map[];
    for i := 0 to |levels|
      invariant cells == LevelCells(card, levels[..i])
    {
      assert levels[..i + 1][..i] == levels[..i];
      var level := levels[i];
      cells := cells[Cell(card, LevelLabel(level.position, "")) := level.name];
      if level.activation != "" {
        cells := cells[Cell(card, LevelLabel(level.position, ACTIVATION)) := level.activation];
      }
      if level.expiration != "" {
        cells := cells[Cell(card, LevelLabel(level.position, EXPIRATION)) := level.expiration];
      }
    }
    assert levels[..|levels|] == levels;
  }

  /** A column of the export, trimmed; "" when it is not there. */
  function Printed(cells: map<Cell, string>, c: Cell): string {
    if c in cells then Strip(cells[c]) else ""
  }

  /** A card's levels read off the export: positions in order, those with a name. */
  function ReadLevels(cells: map<Cell, string>, card: nat, upto: nat): seq<AccessLevel> {
    if upto == 0 then []
    else
      var name := Printed(cells, Cell(card, LevelLabel(upto, "")));
      ReadLevels(cells, card, upto - 1) +
      if name == "" then []
      else [AccessLevel(upto, name, Printed(cells, Cell(card, LevelLabel(upto, ACTIVATION))),
                        Printed(cells, Cell(card, LevelLabel(upto, EXPIRATION))))]
  }

  /** As the export reads a card's levels: named, trimmed, by ascending position. */
  predicate AsExported(levels: seq<AccessLevel>, upto: nat) {
    && (forall l <- levels :: 1 <= l.position <= upto && l.name != "" && Strip(l.name) == l.name
                              && Strip(l.activation) == l.activation && Strip(l.expiration) == l.expiration)
    && (forall i, j | 0 <= i < j < |levels| :: levels[i].position < levels[j].position)
  }

  function LeadingDigits(s: string): string {
    if s == [] || !('0' <= s[0] <= '9') then [] else [s[0]] + LeadingDigits(s[1..])
  }

  lemma {:induction false} DigitsLead(d: string, rest: string)
    requires forall i | 0 <= i < |d| :: '0' <= d[i] <= '9'
    requires rest == "" || rest[0] == ' '
    ensures LeadingDigits(d + rest) == d
  {
    if d == [] {
      assert d + rest == rest;
    } else {
      assert (d + rest)[1..] == d[1..] + rest;
      DigitsLead(d[1..], rest);
    }
  }

  predicate LevelSuffix(s: string) {
    s == "" || s == ACTIVATION || s == EXPIRATION
  }

  lemma DropFront(a: string, b: string)
    ensures (a + b)[|a|..] == b
  {
  }

  lemma LabelTail(position: nat, suffix: string)
    requires LevelSuffix(suffix)
    ensures LevelLabel(position, suffix)[13..] == Decimal(position) + suffix
    ensures LeadingDigits(Decimal(position) + suffix) == Decimal(position)
    ensures (Decimal(position) + suffix)[|Decimal(position)|..] == suffix
  {
    var front := "Access Level ";
    assert |front| == 13;
    assert LevelLabel(position, suffix) == front + (Decimal(position) + suffix);
    DropFront(front, Decimal(position) + suffix);
    DropFront(Decimal(position), suffix);
    DigitsLead(Decimal(position), suffix);
  }

  /** No two level columns share a label. */
  lemma LevelLabelInjective(p: nat, s: string, q: nat, t: string)
    requires LevelSuffix(s) && LevelSuffix(t) && LevelLabel(p, s) == LevelLabel(q, t)
    ensures p == q && s == t
  {
    LabelTail(p, s);
    LabelTail(q, t);
    DecimalInjective(p, q);
  }

  /** The columns of a level, and Millennium's numbers for them. */
  lemma {:induction false} LevelIdsAt(upto: nat, n: nat)
    requires 1 <= n <= upto
    ensures forall name | name in {"Access Level " + Decimal(n), "Access Level " + Decimal(n) + " Activation Date", "Access Level " + Decimal(n) + " Expiration Date"} ::
              name in LevelIds(upto)
    ensures LevelIds(upto)["Access Level " + Decimal(n)] == 199 + n
    ensures LevelIds(upto)["Access Level " + Decimal(n) + " Activation Date"] == 455 + n
    ensures LevelIds(upto)["Access Level " + Decimal(n) + " Expiration Date"] == 711 + n
  {
    hide LevelLabel, Decimal;
    LevelNames(n);
    LabelsDiffer(n, upto);
    if n < upto {
      LevelIdsAt(upto - 1, n);
    }
  }

  lemma LevelNames(n: nat)
    ensures LevelLabel(n, "") == "Access Level " + Decimal(n)
    ensures LevelLabel(n, ACTIVATION) == "Access Level " + Decimal(n) + " Activation Date"
    ensures LevelLabel(n, EXPIRATION) == "Access Level " + Decimal(n) + " Expiration Date"
  {
    hide Decimal;
    assert "Access Level " + Decimal(n) + "" == "Access Level " + Decimal(n);
  }

  lemma LabelsDiffer(p: nat, q: nat)
    ensures forall s, t | LevelSuffix(s) && LevelSuffix(t) && (p != q || s != t) :: LevelLabel(p, s) != LevelLabel(q, t)
    ensures LevelSuffix("") && LevelSuffix(ACTIVATION) && LevelSuffix(EXPIRATION)
    ensures "" != ACTIVATION && "" != EXPIRATION && ACTIVATION != EXPIRATION
  {
    hide LevelLabel, Decimal;
    assert ACTIVATION[1] == 'A' && EXPIRATION[1] == 'E';
    forall s, t | LevelSuffix(s) && LevelSuffix(t) && LevelLabel(p, s) == LevelLabel(q, t) ensures p == q && s == t {
      LevelLabelInjective(p, s, q, t);
    }
  }

  /** A level's cells: its name, and each of its dates that is set, in columns of its own. */
  lemma WithLevelSays(cells: map<Cell, string>, card: nat, level: AccessLevel)
    ensures var name := "Access Level " + Decimal(level.position);
            var after := WithLevel(cells, card, level);
            && Cell(card, name) in after && after[Cell(card, name)] == level.name
            && (level.activation != "" ==> Cell(card, name + " Activation Date") in after && after[Cell(card, name + " Activation Date")] == level.activation)
            && (level.expiration != "" ==> Cell(card, name + " Expiration Date") in after && after[Cell(card, name + " Expiration Date")] == level.expiration)
            && (level.activation == "" && Cell(card, name + " Activation Date") !in cells ==> Cell(card, name + " Activation Date") !in after)
            && (level.expiration == "" && Cell(card, name + " Expiration Date") !in cells ==> Cell(card, name + " Expiration Date") !in after)
  {
    hide LevelLabel, Decimal;
    LevelNames(level.position);
    LabelsDiffer(level.position, level.position);
  }

  lemma OtherLevelsUntouched(cells: map<Cell, string>, card: nat, level: AccessLevel, position: nat, suffix: string)
    requires LevelSuffix(suffix) && position != level.position
    ensures var c := Cell(card, LevelLabel(position, suffix));
            (c in WithLevel(cells, card, level) <==> c in cells)
            && (c in cells ==> WithLevel(cells, card, level)[c] == cells[c])
  {
    forall s | LevelSuffix(s)
      ensures LevelLabel(position, suffix) != LevelLabel(level.position, s)
    {
      if LevelLabel(position, suffix) == LevelLabel(level.position, s) {
        LevelLabelInjective(position, suffix, level.position, s);
      }
    }
    assert LevelSuffix("") && LevelSuffix(ACTIVATION) && LevelSuffix(EXPIRATION);
  }

  function Part(level: AccessLevel, suffix: string): string {
    if suffix == "" then level.name else if suffix == ACTIVATION then level.activation else level.expiration
  }

  lemma ThisLevelSet(cells: map<Cell, string>, card: nat, level: AccessLevel, suffix: string)
    requires LevelSuffix(suffix) && (suffix == "" || Cell(card, LevelLabel(level.position, suffix)) !in cells)
    ensures var c := Cell(card, LevelLabel(level.position, suffix));
            if c in WithLevel(cells, card, level) then WithLevel(cells, card, level)[c] == Part(level, suffix)
            else Part(level, suffix) == ""
    ensures suffix == "" ==> Cell(card, LevelLabel(level.position, "")) in WithLevel(cells, card, level)
  {
    forall s, t | LevelSuffix(s) && LevelSuffix(t) && s != t
      ensures LevelLabel(level.position, s) != LevelLabel(level.position, t)
    {
      if LevelLabel(level.position, s) == LevelLabel(level.position, t) {
        LevelLabelInjective(level.position, s, level.position, t);
      }
    }
    assert LevelSuffix("") && LevelSuffix(ACTIVATION) && LevelSuffix(EXPIRATION);
    assert "" != ACTIVATION && "" != EXPIRATION && ACTIVATION[1] != EXPIRATION[1];
  }

  /** What the cell of one level column is. */
  lemma {:induction false} LevelCell(card: nat, levels: seq<AccessLevel>, position: nat, suffix: string)
    requires AsExported(levels, 10) && LevelSuffix(suffix)
    ensures forall l <- levels :: l.position == position ==>
              Printed(LevelCells(card, levels), Cell(card, LevelLabel(position, suffix))) == Part(l, suffix)
    ensures (forall l <- levels :: l.position != position) ==>
              Cell(card, LevelLabel(position, suffix)) !in LevelCells(card, levels)
  {
    if levels != [] {
      var front, level := levels[..|levels| - 1], levels[|levels| - 1];
      assert levels == front + [level];
      LevelCell(card, front, position, suffix);
      hide LevelLabel, WithLevel, Strip;
      assert LevelCells(card, levels) == WithLevel(LevelCells(card, front), card, level);
      if position == level.position {
        assert forall l <- front :: l.position != position;
        ThisLevelSet(LevelCells(card, front), card, level, suffix);
        assert Strip(Part(level, suffix)) == Part(level, suffix);
      } else {
        OtherLevelsUntouched(LevelCells(card, front), card, level, position, suffix);
      }
    }
  }

  /** The level cells built for a card read back as exactly the levels copied. */
  lemma LevelsReadBack(card: nat, levels: seq<AccessLevel>)
    requires AsExported(levels, 10)
    ensures ReadLevels(LevelCells(card, levels), card, 10) == levels
  {
    LevelsReadBackUpto(card, levels, 10);
    assert UpTo(levels, 10) == levels by {
      FilterAll((l: AccessLevel) => l.position <= 10, levels);
    }
  }

  function UpTo(levels: seq<AccessLevel>, n: nat): seq<AccessLevel> {
    Filter((l: AccessLevel) => l.position <= n, levels)
  }

  lemma {:induction false} LevelsReadBackUpto(card: nat, levels: seq<AccessLevel>, n: nat)
    requires AsExported(levels, 10)
    ensures ReadLevels(LevelCells(card, levels), card, n) == UpTo(levels, n)
  {
    hide LevelCells, UpTo, ReadLevels;
    if n == 0 {
      NoLevelRead(card, levels);
    } else {
      LevelsReadBackUpto(card, levels, n - 1);
      if l :| l in levels && l.position == n {
        PresentLevelRead(card, levels, l);
      } else {
        AbsentLevelRead(card, levels, n);
      }
    }
  }

  lemma NoLevelRead(card: nat, levels: seq<AccessLevel>)
    requires AsExported(levels, 10)
    ensures ReadLevels(LevelCells(card, levels), card, 0) == [] && UpTo(levels, 0) == []
  {
    hide LevelCells;
    NothingIn(UpTo(levels, 0));
  }

  lemma AbsentLevelRead(card: nat, levels: seq<AccessLevel>, n: nat)
    requires AsExported(levels, 10) && n > 0 && forall l <- levels :: l.position != n
    ensures ReadLevels(LevelCells(card, levels), card, n) == ReadLevels(LevelCells(card, levels), card, n - 1)
    ensures UpTo(levels, n) == UpTo(levels, n - 1)
  {
    hide LevelCells, LevelLabel, UpTo;
    UpToStep(levels, n);
    LevelCell(card, levels, n, "");
  }

  lemma PresentLevelRead(card: nat, levels: seq<AccessLevel>, l: AccessLevel)
    requires AsExported(levels, 10) && l in levels
    ensures ReadLevels(LevelCells(card, levels), card, l.position)
         == ReadLevels(LevelCells(card, levels), card, l.position - 1) + [l]
    ensures l.position > 0 && UpTo(levels, l.position) == UpTo(levels, l.position - 1) + [l]
  {
    hide LevelCells, LevelLabel, Printed, UpTo;
    UpToStep(levels, l.position);
    LevelCell(card, levels, l.position, "");
    LevelCell(card, levels, l.position, ACTIVATION);
    LevelCell(card, levels, l.position, EXPIRATION);
    assert l == AccessLevel(l.position, Part(l, ""), Part(l, ACTIVATION), Part(l, EXPIRATION)) by {
      assert ACTIVATION != EXPIRATION && ACTIVATION != "" && EXPIRATION != "" by { assert ACTIVATION[1] != EXPIRATION[1]; }
    }
  }

  lemma {:induction false} UpToStep(levels: seq<AccessLevel>, n: nat)
    requires n > 0 && AsExported(levels, 10)
    ensures forall l <- levels :: l.position == n ==> UpTo(levels, n) == UpTo(levels, n - 1) + [l]
    ensures (forall l <- levels :: l.position != n) ==> UpTo(levels, n) == UpTo(levels, n - 1)
  {
    if levels != [] {
      var front, last := levels[..|levels| - 1], levels[|levels| - 1];
      assert levels == front + [last];
      UpToStep(front, n);
      if last.position == n {
        assert forall l <- front :: l.position < n;
        assert UpTo(front, n) == UpTo(front, n - 1);
      } else if last.position > n {
      } else {
        assert forall l <- levels :: l.position != n;
      }
    }
  }
}
