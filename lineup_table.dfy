/**
 * The lineup editor's table logic: a table of rows (batting slot, name, field
 * position); the validator for typed integers; the edit of a batting slot,
 * which swaps two rows' players and rewrites the edited slot; and the loop
 * that numbers the first nine rows 1-9 when the table is built.
 */
module LineupTable {
  import opened Wrappers
  import opened Decimal

  // ---------------------------------------------------------------------
  // Integer text

  /** An optional leading '-' followed by at least one digit. */
  predicate IsIntegerText(s: string)
  {
    var digits := if |s| > 0 && s[0] == '-' then s[1..] else s;
    digits != [] && AllDigits(digits)
  }

  /**
   * Whether `s` is a signed decimal integer: rejects "" and "-", then scans,
   * allowing a '-' only at index 0.
   */
  method IsInteger(s: string) returns (b: bool)
    ensures b == IsIntegerText(s)
  {
    if |s| == 0 || (|s| == 1 && s[0] == '-') {
      return false;
    }
    var i := 0;
    while i < |s|
      invariant 0 <= i <= |s|
      invariant forall k :: 0 <= k < i ==> IsDigit(s[k]) || (k == 0 && s[k] == '-')
    {
      if !IsDigit(s[i]) {
        if i != 0 || s[i] != '-' {
          assert s[0] == '-' ==> !IsDigit(s[1..][i - 1]);
          return false;
        }
      }
      i := i + 1;
    }
    assert s[0] == '-' ==> forall k :: 0 <= k < |s| - 1 ==> IsDigit(s[1..][k]) by {
      forall k | 0 <= k < |s| - 1 ensures s[0] == '-' ==> IsDigit(s[1..][k]) {
        assert s[1..][k] == s[k + 1];
      }
    }
    return true;
  }

  /**
   * The integer text characterised character by character: non-empty, not a
   * lone "-", every character a digit except that index 0 may be '-'.
   */
  lemma IntegerTextByCharacters(s: string)
    ensures IsIntegerText(s) <==>
              s != "" && s != "-" && forall i :: 0 <= i < |s| ==> IsDigit(s[i]) || (i == 0 && s[i] == '-')
  {
    if s != "" && s[0] == '-' {
      assert forall i :: 1 <= i < |s| ==> s[i] == s[1..][i - 1];
    }
  }

  /** A '-' anywhere but index 0, "" and "-" are all rejected. */
  lemma NotIntegerText(s: string)
    ensures !IsIntegerText("") && !IsIntegerText("-")
    ensures forall i :: 0 < i < |s| && s[i] == '-' ==> !IsIntegerText(s)
  {
    forall i | 0 < i < |s| && s[i] == '-' ensures !IsIntegerText(s) {
      if s[0] == '-' {
        assert s[1..][i - 1] == '-';
      }
    }
  }

  /** The value of integer text, as `Integer.parseInt` reads it. */
  function ParseInt(s: string): int
    requires IsIntegerText(s)
  {
    if s[0] == '-' then -(DigitsValue(s[1..]) as int) else DigitsValue(s)
  }

  /** The decimal text of a natural is integer text that parses back to it. */
  lemma ParseNatText(n: nat)
    ensures IsIntegerText(NatText(n)) && ParseInt(NatText(n)) == n
  {
    DigitsValueOfNatText(n);
  }

  // ---------------------------------------------------------------------
  // The table

  /** A table cell: Java's null, a boxed Integer or a String. */
  datatype Cell = Null | Num(n: int) | Text(s: string)

  /** One table row: batting slot (column 0), name (column 1), field position (column 2). */
  datatype Row = Row(slot: Cell, name: Cell, field: Cell)

  /** Column 1 of a table. */
  function Names(rows: seq<Row>): seq<Cell>
  {
    seq(|rows|, i requires 0 <= i < |rows| => rows[i].name)
  }

  /** The batting slot a column-0 cell stands for, if any. */
  function SlotValue(c: Cell): Option<int>
  {
    match c
    case Num(n) => Some(n)
    case Text(s) => if IsIntegerText(s) then Some(ParseInt(s)) else None
    case Null => None
  }

  /** Row `i` bats in slot i+1 when i < 9; later rows have no slot. */
  ghost predicate Numbered(rows: seq<Row>)
  {
    forall i :: 0 <= i < |rows| ==> SlotValue(rows[i].slot) == if i < 9 then Some(i + 1) else None
  }

  /**
   * Numbered in every row but `row`: the state the table is in when the user
   * has just typed a new value into the slot cell of `row`.
   */
  ghost predicate NumberedExcept(rows: seq<Row>, row: nat)
  {
    forall i :: 0 <= i < |rows| && i != row ==> SlotValue(rows[i].slot) == if i < 9 then Some(i + 1) else None
  }

  /** In a numbered table no two rows share a slot, and only slots 1..9 appear. */
  lemma NumberedSlotsDistinct(rows: seq<Row>)
    requires Numbered(rows)
    ensures forall i, j :: 0 <= i < j < |rows| && SlotValue(rows[i].slot).Some? ==>
              SlotValue(rows[i].slot) != SlotValue(rows[j].slot)
    ensures forall i :: 0 <= i < |rows| && SlotValue(rows[i].slot).Some? ==> 1 <= SlotValue(rows[i].slot).value <= 9
  {
  }

  // ---------------------------------------------------------------------
  // Numbering the rows when the table is built

  /** The batting-slot cell the table builder writes into row `i`. */
  function BattingSlot(i: nat): Cell
  {
    if i < 9 then Num(i + 1) else Null
  }

  /** The table with every row's slot rewritten by row index; names and positions kept. */
  function Renumbered(rows: seq<Row>): (r: seq<Row>)
    ensures |r| == |rows|
  {
    seq(|rows|, i requires 0 <= i < |rows| => rows[i].(slot := BattingSlot(i)))
  }

  /** Gives the first nine rows slots 1-9 and every later row no slot, in place. */
  method Renumber(players: array<Row>)
    modifies players
    ensures players[..] == Renumbered(old(players[..]))
  {
    for i := 0 to players.Length
      invariant forall k :: 0 <= k < i ==> players[k] == old(players[k]).(slot := BattingSlot(k))
      invariant forall k :: i <= k < players.Length ==> players[k] == old(players[k])
    {
      if i < 9 {
        players[i] := players[i].(slot := Num(i + 1));
      } else {
        players[i] := players[i].(slot := Null);
      }
    }
  }

  /** After renumbering, row i has slot i+1 for i < 9 and none after; only column 0 changed. */
  lemma RenumberedIsNumbered(rows: seq<Row>)
    ensures Numbered(Renumbered(rows))
    ensures forall i :: 0 <= i < |rows| ==>
              Renumbered(rows)[i].name == rows[i].name && Renumbered(rows)[i].field == rows[i].field
    ensures forall i :: 0 <= i < |rows| ==> Renumbered(rows)[i].slot == if i < 9 then Num(i + 1) else Null
  {
  }

  // ---------------------------------------------------------------------
  // Editing a batting slot

  /** The exceptions the edit can raise before it writes anything. */
  datatype Fault =
    | SlotNotText     // the cell is not a String: ClassCastException, or NullPointerException for null
    | NotAnInt        // integer text beyond Java's int range: NumberFormatException
    | RowOutOfRange   // the row to swap with lies beyond the table: ArrayIndexOutOfBoundsException

  const IntMin: int := -0x8000_0000
  const IntMax: int := 0x7FFF_FFFF

  /** Whether integer text denotes a value of Java's 32-bit `int`. */
  predicate FitsInt(s: string)
  {
    IsIntegerText(s) ==> IntMin <= ParseInt(s) <= IntMax
  }

  /** The number typed into the slot cell, or -1 when it is not integer text. */
  function CellValue(s: string): int
  {
    if IsIntegerText(s) then ParseInt(s) else -1
  }

  /** The row whose players the edit of row `row` swaps in, if the typed slot calls for a swap. */
  function SwapWith(s: string, row: nat): Option<nat>
  {
    var v := CellValue(s);
    if 0 < v < 10 && v != row + 1 then Some(v - 1) else None
  }

  /** The slot text written back into the edited row. */
  function SlotText(row: nat): Cell
  {
    if row < 9 then Text(NatText(row + 1)) else Text("")
  }

  /** The exception, if any, that editing row `row` raises. */
  function EditFault(rows: seq<Row>, row: nat): Option<Fault>
    requires row < |rows|
  {
    match rows[row].slot
    case Text(s) =>
      if !FitsInt(s) then Some(NotAnInt)
      else (match SwapWith(s, row)
       case Some(j) => if j < |rows| then None else Some(RowOutOfRange)
       case None => None)
    case _ => Some(SlotNotText)
  }

  /** Rows `i` and `j` exchange names and field positions; their slots stay. */
  function SwapPlayers(rows: seq<Row>, i: nat, j: nat): seq<Row>
    requires i < |rows| && j < |rows|
  {
    rows[i := rows[i].(name := rows[j].name, field := rows[j].field)]
        [j := rows[j].(name := rows[i].name, field := rows[i].field)]
  }

  /** The table after a successful edit of row `row`. */
  function EditedTable(rows: seq<Row>, row: nat): seq<Row>
    requires row < |rows| && EditFault(rows, row) == None
  {
    var swapped := match SwapWith(rows[row].slot.s, row)
                   case Some(j) => SwapPlayers(rows, row, j)
                   case None => rows;
    swapped[row := swapped[row].(slot := SlotText(row))]
  }

  /**
   * Reacts to an edit of the batting-slot cell of row `row`. A typed slot v in
   * 1..9 other than row+1 swaps the names and field positions of rows `row`
   * and v-1; the edited cell is then rewritten to row+1 (or "" past row 8).
   * When the source would throw, `fault` names the exception and the table is
   * unchanged, since the throw precedes every write.
   */
  method ColumnZeroModified(table: array<Row>, row: nat) returns (fault: Option<Fault>)
    requires row < table.Length
    modifies table
    ensures fault == EditFault(old(table[..]), row)
    ensures fault.Some? ==> table[..] == old(table[..])
    ensures fault.None? ==> table[..] == EditedTable(old(table[..]), row)
  {
    if !table[row].slot.Text? {
      return Some(SlotNotText);
    }
    var s := table[row].slot.s;
    var cellValue: int;
    var isInt := IsInteger(s);
    if isInt {
      if !(IntMin <= ParseInt(s) <= IntMax) {
        return Some(NotAnInt);
      }
      cellValue := ParseInt(s);
    } else {
      cellValue := -1;
    }
    if cellValue > 0 && cellValue < 10 {
      if cellValue != row + 1 {
        if cellValue - 1 >= table.Length {
          return Some(RowOutOfRange);
        }
        var temp := table[cellValue - 1].name;
        var temp2 := table[cellValue - 1].field;
        table[cellValue - 1] := table[cellValue - 1].(name := table[row].name);
        table[cellValue - 1] := table[cellValue - 1].(field := table[row].field);
        table[row] := table[row].(name := temp);
        table[row] := table[row].(field := temp2);
      }
    }
    if row < 9 {
      table[row] := table[row].(slot := Text(NatText(row + 1)));
    } else {
      table[row] := table[row].(slot := Text(""));
    }
    fault := None;
  }

  /**
   * A swapping edit: rows `row` and v-1 exchange names and field positions,
   * the slot of row v-1 is untouched and every other row is unchanged.
   */
  lemma EditSwaps(rows: seq<Row>, row: nat, j: nat)
    requires row < |rows| && rows[row].slot.Text? && FitsInt(rows[row].slot.s)
    requires SwapWith(rows[row].slot.s, row) == Some(j) && j < |rows|
    ensures EditFault(rows, row) == None
    ensures var t := EditedTable(rows, row);
            |t| == |rows| && j != row
            && t[j] == rows[j].(name := rows[row].name, field := rows[row].field)
            && t[row].name == rows[j].name && t[row].field == rows[j].field
            && forall k :: 0 <= k < |rows| && k != row && k != j ==> t[k] == rows[k]
  {
  }

  /** Without a swap only column 0 of the edited row changes. */
  lemma EditWithoutSwap(rows: seq<Row>, row: nat)
    requires row < |rows| && rows[row].slot.Text? && FitsInt(rows[row].slot.s)
    requires SwapWith(rows[row].slot.s, row) == None
    ensures EditFault(rows, row) == None
    ensures EditedTable(rows, row) == rows[row := rows[row].(slot := SlotText(row))]
  {
  }

  /** No swap happens when the typed text is not an integer, lies outside 1..9, or is the row's own slot. */
  lemma NoSwapCases(s: string, row: nat)
    ensures SwapWith(s, row) == None <==>
              !IsIntegerText(s) || ParseInt(s) < 1 || ParseInt(s) > 9 || ParseInt(s) == row + 1
  {
  }

  /** After an edit, the edited row's slot is row+1 (as text) for the first nine rows and "" after. */
  lemma EditWritesSlot(rows: seq<Row>, row: nat)
    requires row < |rows| && EditFault(rows, row) == None
    ensures EditedTable(rows, row)[row].slot == SlotText(row)
    ensures row < 9 ==> SlotValue(EditedTable(rows, row)[row].slot) == Some(row + 1)
    ensures row >= 9 ==> EditedTable(rows, row)[row].slot == Text("") && SlotValue(Text("")) == None
  {
    if row < 9 {
      ParseNatText(row + 1);
    }
  }

  /** An edit rearranges the names of column 1 and loses or duplicates none. */
  lemma EditKeepsNames(rows: seq<Row>, row: nat)
    requires row < |rows| && EditFault(rows, row) == None
    ensures multiset(Names(EditedTable(rows, row))) == multiset(Names(rows))
  {
    var t := EditedTable(rows, row);
    var ns := Names(rows);
    var swap := SwapWith(rows[row].slot.s, row);
    if swap.Some? {
      var j := swap.value;
      assert Names(t) == ns[row := ns[j]][j := ns[row]];
    } else {
      assert Names(t) == ns;
    }
  }

  /**
   * An edit of a table numbered in every row but the edited one leaves it
   * numbered in every row: the swap moves only names and field positions,
   * and the edited slot is rewritten to its own number.
   */
  lemma EditRestoresNumbering(rows: seq<Row>, row: nat)
    requires row < |rows| && EditFault(rows, row) == None
    requires NumberedExcept(rows, row)
    ensures Numbered(EditedTable(rows, row))
  {
    EditWritesSlot(rows, row);
  }

  /** Typing slot 3 into row 0 of a numbered three-row table swaps rows 0 and 2 and leaves it numbered. */
  lemma SwappingEditRestoresNumbering(a: Cell, b: Cell, c: Cell)
    ensures var rows := [Row(Text("3"), a, Null), Row(Num(2), b, Null), Row(Num(3), c, Null)];
            NumberedExcept(rows, 0) && EditFault(rows, 0) == None && SwapWith("3", 0) == Some(2)
            && EditedTable(rows, 0)[0].name == c && EditedTable(rows, 0)[2].name == a
            && Numbered(EditedTable(rows, 0))
  {
    var rows := [Row(Text("3"), a, Null), Row(Num(2), b, Null), Row(Num(3), c, Null)];
    assert "3"[1..] == [];
    assert DigitsValue("3") == 3;
    assert IsIntegerText("3") && ParseInt("3") == 3;
    EditRestoresNumbering(rows, 0);
  }
}
