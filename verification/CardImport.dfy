/** The cells a cycle's import carries for the changes pending on each pass. */
module CardImport {
  import opened Base
  import opened Export
  import opened Ledger
  import opened Flush
  import opened ImportFile

  /** What new cards are written with. */
  datatype Stamp = Stamp(triggerFormat: string, now: string)

  function FirstLevels(ours: seq<Entry>, live: map<Card, Slot>): seq<AccessLevel>
    requires forall e <- ours :: e.card in live
  {
    if ours == [] then []
    else if live[ours[0].card].levels != [] then live[ours[0].card].levels
    else FirstLevels(ours[1..], live)
  }

  /** The trigger card's access levels; once it is replaced, those of a card of the pass. */
  function LevelSource(entries: seq<Entry>, live: map<Card, Slot>): seq<AccessLevel> {
    FirstLevels(
      Filter((e: Entry) => e.pending == Write && e.card in live, entries)
      + Filter((e: Entry) => e.pending != Write && e.pending != Insert && e.card in live, entries), live)
  }

  /** While the trigger card is on the cardholder with its levels, a new card gets those. */
  lemma TriggerLevelsFirst(entries: seq<Entry>, live: map<Card, Slot>, trigger: Entry)
    requires trigger in entries && trigger.pending == Write && trigger.card in live && live[trigger.card].levels != []
    requires forall e <- entries :: e.pending == Write ==> e == trigger
    ensures LevelSource(entries, live) == live[trigger.card].levels
  {
    var first := Filter((e: Entry) => e.pending == Write && e.card in live, entries);
    assert trigger in first && first[0] in first;
  }

  function NewCardCells(slot: nat, entries: seq<Entry>, live: map<Card, Slot>, stamp: Stamp): map<Cell, string> {
    map[Cell(slot, "Card Format") := stamp.triggerFormat, Cell(slot, "Activation Date") := stamp.now,
        Cell(slot, "Active") := "False"] + LevelCells(slot, LevelSource(entries, live))
  }

  /** The cells one change sets, all in its own slot. */
  function ChangeCells(e: Entry, entries: seq<Entry>, live: map<Card, Slot>, stamp: Stamp): map<Cell, string> {
    map[Cell(e.slot, "Encoded Card No.") := e.card.number, Cell(e.slot, "Facility Code") := e.card.facility]
    + if e.pending == Insert then NewCardCells(e.slot, entries, live, stamp)
      else map[Cell(e.slot, "Active") := if e.pending == Activate then "True" else "False"]
  }

  /** A row once the first n of a pass's changes are in it. */
  function WithChanges(cells: map<Cell, string>, entries: seq<Entry>, live: map<Card, Slot>, stamp: Stamp, n: nat): map<Cell, string>
    requires n <= |entries|
  {
    if n == 0 then cells
    else
      var before := WithChanges(cells, entries, live, stamp, n - 1);
      if Sendable(entries[n - 1]) then before + ChangeCells(entries[n - 1], entries, live, stamp) else before
  }

  predicate Within(part: map<Cell, string>, whole: map<Cell, string>) {
    forall c <- part :: c in whole && whole[c] == part[c]
  }

  /** Enough of "Access Level " to tell a level column from the others. */
  predicate IsLevelColumn(field: string) {
    |field| > 2 && field[0] == 'A' && field[1] == 'c' && field[2] == 'c'
  }

  lemma LabelIsLevelColumn(position: nat, suffix: string)
    ensures IsLevelColumn(LevelLabel(position, suffix))
  {
    assert LevelLabel(position, suffix) == "Access Level " + (Decimal(position) + suffix);
  }

  lemma FixedColumns()
    ensures !IsLevelColumn("Encoded Card No.") && !IsLevelColumn("Facility Code") && !IsLevelColumn("Active")
    ensures !IsLevelColumn("Card Format") && !IsLevelColumn("Activation Date")
    ensures "Active" != "Card Format" && "Active" != "Activation Date" && "Card Format" != "Activation Date"
    ensures "Encoded Card No." !in ["Facility Code", "Active", "Card Format", "Activation Date"]
    ensures "Facility Code" !in ["Active", "Card Format", "Activation Date"]
  {
    assert |"Active"| == 6 && |"Card Format"| == 11 && |"Activation Date"| == 15 && |"Encoded Card No."| == 16 && |"Facility Code"| == 13;
    assert "Active"[2] == 't' && "Activation Date"[2] == 't';
  }

  lemma {:induction false} LevelCellsInSlot(slot: nat, levels: seq<AccessLevel>)
    ensures forall c <- LevelCells(slot, levels) :: c.card == slot && IsLevelColumn(c.field)
  {
    hide IsLevelColumn, LevelLabel;
    if levels != [] {
      LevelCellsInSlot(slot, levels[..|levels| - 1]);
      var l := levels[|levels| - 1];
      LabelIsLevelColumn(l.position, "");
      LabelIsLevelColumn(l.position, ACTIVATION);
      LabelIsLevelColumn(l.position, EXPIRATION);
    }
  }

  lemma ChangeStaysInSlot(e: Entry, entries: seq<Entry>, live: map<Card, Slot>, stamp: Stamp)
    ensures forall c <- ChangeCells(e, entries, live, stamp) :: c.card == e.slot
  {
    hide LevelCells, LevelSource;
    LevelCellsInSlot(e.slot, LevelSource(entries, live));
  }

  /** A card is sent with its own number and facility code, and with its box on only to be switched on; a new
      one besides in the trigger format, activated now, and with whatever levels it copies. Nothing else of
      it is sent. */
  lemma ChangeSays(e: Entry, entries: seq<Entry>, live: map<Card, Slot>, stamp: Stamp, c: Cell)
    requires e.pending == Activate || e.pending == Deactivate || e.pending == Insert
    ensures var cells, levels := ChangeCells(e, entries, live, stamp), LevelCells(e.slot, LevelSource(entries, live));
            && (c in cells <==> || (c.card == e.slot && c.field in {"Encoded Card No.", "Facility Code", "Active"})
                                || (e.pending == Insert && ((c.card == e.slot && c.field in {"Card Format", "Activation Date"}) || c in levels)))
            && cells[Cell(e.slot, "Encoded Card No.")] == e.card.number && cells[Cell(e.slot, "Facility Code")] == e.card.facility
            && cells[Cell(e.slot, "Active")] == (if e.pending == Activate then "True" else "False")
            && (e.pending == Insert ==> cells[Cell(e.slot, "Card Format")] == stamp.triggerFormat && cells[Cell(e.slot, "Activation Date")] == stamp.now)
            && (e.pending == Insert && c in levels ==> cells[c] == levels[c])
  {
    hide LevelCells, LevelSource, IsLevelColumn;
    LevelCellsInSlot(e.slot, LevelSource(entries, live));
    FixedColumns();
  }

  /** Whose levels a new card copies: a card of the pass that is there and has some, the trigger card before
      any other; none where there is none. A card still to be inserted has none to give. */
  lemma LevelsComeFrom(entries: seq<Entry>, live: map<Card, Slot>)
    ensures LevelSource(entries, live) == [] <==> forall e <- entries :: e.pending != Insert && e.card in live ==> live[e.card].levels == []
    ensures LevelSource(entries, live) != [] ==>
              exists e <- entries ::
                && e.pending != Insert && e.card in live && live[e.card].levels == LevelSource(entries, live)
                && ((exists w <- entries :: w.pending == Write && w.card in live && live[w.card].levels != []) ==> e.pending == Write)
  {
    var triggers := Filter((e: Entry) => e.pending == Write && e.card in live, entries);
    var others := Filter((e: Entry) => e.pending != Write && e.pending != Insert && e.card in live, entries);
    FirstLevelsOf(triggers, others, live);
  }

  lemma {:induction false} FirstLevelsOf(first: seq<Entry>, after: seq<Entry>, live: map<Card, Slot>)
    requires (forall e <- first :: e.card in live) && forall e <- after :: e.card in live
    ensures forall e <- first + after :: e.card in live
    ensures FirstLevels(first + after, live) == [] <==> (forall e <- first :: live[e.card].levels == []) && forall e <- after :: live[e.card].levels == []
    ensures FirstLevels(first + after, live) != [] ==>
              || (exists e <- first :: live[e.card].levels == FirstLevels(first + after, live))
              || ((forall e <- first :: live[e.card].levels == []) && exists e <- after :: live[e.card].levels == FirstLevels(first + after, live))
    decreases |first| + |after|
  {
    if first != [] {
      assert (first + after)[1..] == first[1..] + after && first == [first[0]] + first[1..];
      FirstLevelsOf(first[1..], after, live);
    } else if after != [] {
      assert first + after == after && after[1..] == [] + after[1..] && after == [after[0]] + after[1..];
      FirstLevelsOf([], after[1..], live);
    }
  }

  /** A new card's levels read back off its row as those of the card it copies. */
  lemma NewCardCopiesLevels(e: Entry, entries: seq<Entry>, live: map<Card, Slot>, stamp: Stamp, cells: map<Cell, string>)
    requires e.pending == Insert && Within(ChangeCells(e, entries, live, stamp), cells)
    requires AsExported(LevelSource(entries, live), 10)
    requires forall c <- cells | c.card == e.slot :: c in ChangeCells(e, entries, live, stamp)
    ensures ReadLevels(cells, e.slot, 10) == LevelSource(entries, live)
  {
    hide LevelCells, LevelSource, AsExported;
    var levels := LevelSource(entries, live);
    LevelsReadBack(e.slot, levels);
    LevelCellsInSlot(e.slot, levels);
    forall position, suffix
      ensures Printed(cells, Cell(e.slot, LevelLabel(position, suffix)))
           == Printed(LevelCells(e.slot, levels), Cell(e.slot, LevelLabel(position, suffix)))
    {
      LevelColumnIs(e, entries, live, stamp, cells, position, suffix);
    }
    SameColumnsSameLevels(cells, LevelCells(e.slot, levels), e.slot, 10);
  }

  lemma LevelColumnIs(e: Entry, entries: seq<Entry>, live: map<Card, Slot>, stamp: Stamp, cells: map<Cell, string>,
                      position: nat, suffix: string)
    requires e.pending == Insert && Within(ChangeCells(e, entries, live, stamp), cells)
    requires forall c <- cells | c.card == e.slot :: c in ChangeCells(e, entries, live, stamp)
    ensures Printed(cells, Cell(e.slot, LevelLabel(position, suffix)))
         == Printed(LevelCells(e.slot, LevelSource(entries, live)), Cell(e.slot, LevelLabel(position, suffix)))
  {
    hide LevelCells, LevelSource, Strip, LevelLabel, IsLevelColumn, ChangeCells;
    LabelIsLevelColumn(position, suffix);
    LevelsAreTheCopies(e, entries, live, stamp, Cell(e.slot, LevelLabel(position, suffix)));
  }

  lemma LevelsAreTheCopies(e: Entry, entries: seq<Entry>, live: map<Card, Slot>, stamp: Stamp, c: Cell)
    requires e.pending == Insert && IsLevelColumn(c.field)
    ensures var cells, levels := ChangeCells(e, entries, live, stamp), LevelCells(e.slot, LevelSource(entries, live));
            (c in cells <==> c in levels) && (c in cells ==> cells[c] == levels[c])
  {
    hide LevelCells, LevelSource, IsLevelColumn;
    FixedColumns();
  }

  lemma {:induction false} SameColumnsSameLevels(a: map<Cell, string>, b: map<Cell, string>, card: nat, n: nat)
    requires forall position, suffix :: Printed(a, Cell(card, LevelLabel(position, suffix))) == Printed(b, Cell(card, LevelLabel(position, suffix)))
    ensures ReadLevels(a, card, n) == ReadLevels(b, card, n)
  {
    hide Printed, LevelLabel;
    if n > 0 {
      SameColumnsSameLevels(a, b, card, n - 1);
    }
  }

  /** Changes in distinct slots do not overwrite each other. */
  predicate ApartInSlots(entries: seq<Entry>) {
    forall i, j | 0 <= i < j < |entries| :: Sendable(entries[i]) && Sendable(entries[j]) ==> entries[i].slot != entries[j].slot
  }

  predicate SlotOf(entries: seq<Entry>, slot: nat) {
    exists e <- entries :: Sendable(e) && e.slot == slot
  }

  /** What adding a pass's changes does to its cardholder's row. */
  lemma {:induction false} ChangesAreCarried(cells: map<Cell, string>, entries: seq<Entry>, live: map<Card, Slot>, stamp: Stamp, n: nat)
    requires n <= |entries|
    ensures var after := WithChanges(cells, entries, live, stamp, n);
            && (forall c: Cell | !SlotOf(entries, c.card) :: (c in after <==> c in cells) && (c in cells ==> after[c] == cells[c]))
            && (forall c <- after ::
                  || (c in cells && after[c] == cells[c])
                  || exists i | 0 <= i < n ::
                       && Sendable(entries[i]) && c in ChangeCells(entries[i], entries, live, stamp)
                       && after[c] == ChangeCells(entries[i], entries, live, stamp)[c])
            && (ApartInSlots(entries) ==>
                  forall i | 0 <= i < n :: Sendable(entries[i]) ==> Within(ChangeCells(entries[i], entries, live, stamp), after))
  {
    hide ChangeCells;
    if n > 0 {
      ChangesAreCarried(cells, entries, live, stamp, n - 1);
      var e := entries[n - 1];
      if Sendable(e) {
        ChangeStaysInSlot(e, entries, live, stamp);
        assert SlotOf(entries, e.slot);
        forall i | 0 <= i < n - 1 && Sendable(entries[i]) && ApartInSlots(entries)
          ensures Within(ChangeCells(entries[i], entries, live, stamp), WithChanges(cells, entries, live, stamp, n))
        {
          ChangeStaysInSlot(entries[i], entries, live, stamp);
        }
      }
    }
  }
}
