/**
 * HideCellEditor: the editor of the password column. Its button cancels the
 * edit and flips whether the selected row's title is in the reveal set.
 */
module CellEditor {
  import opened EntryTable

  /** The reveal set after the button is pressed for title t. */
  function Toggled(s: set<string>, t: string): (r: set<string>)
    ensures t in r <==> t !in s
    ensures forall u :: u != t ==> (u in r <==> u in s)
  {
    if t in s then s - {t} else s + {t}
  }

  /** Pressing the button twice for the same title restores the set. */
  lemma ToggleTwiceRestores(s: set<string>, t: string)
    ensures Toggled(Toggled(s, t), t) == s
  {
  }

  /** A toggle changes nothing that is displayed in rows titled differently. */
  lemma ToggleLeavesOtherRows(details: seq<DetailType>, row: seq<string>, col: nat, s: set<string>, t: string)
    requires Password in details && |row| == |details| && col < |row|
    requires row[0] != t
    ensures DisplayedCell(details, row, col, Toggled(s, t)) == DisplayedCell(details, row, col, s)
  {
  }

  /** A toggle flips the password cell of every row with that title between masked and shown. */
  lemma ToggleFlipsPasswordCell(details: seq<DetailType>, row: seq<string>, s: set<string>, t: string)
    requires Password in details && NoDuplicates(details) && |row| == |details|
    requires row[0] == t && row[PasswordIndex(details)] != Mask
    ensures var k := PasswordIndex(details);
      DisplayedCell(details, row, k, Toggled(s, t)) == Mask <==> DisplayedCell(details, row, k, s) != Mask
  {
  }

  /** Masking is keyed by title text: two rows with one title are always shown or hidden together. */
  lemma SameTitleSharesMasking(details: seq<DetailType>, row1: seq<string>, row2: seq<string>, s: set<string>)
    requires Password in details && NoDuplicates(details) && |row1| == |details| && |row2| == |details|
    requires row1[0] == row2[0]
    requires row1[PasswordIndex(details)] != Mask && row2[PasswordIndex(details)] != Mask
    ensures var k := PasswordIndex(details);
      DisplayedCell(details, row1, k, s) == Mask <==> DisplayedCell(details, row2, k, s) == Mask
  {
  }

  class HideCellEditor {
    const table: EntryDetailsTable
    /** The text of the editor's label (JLabel). */
    var labelText: string

    constructor (table: EntryDetailsTable)
      ensures this.table == table && labelText == ""
    {
      this.table := table;
      labelText := "";
    }

    /**
     * The button's action. The edit is cancelled, so nothing is written back
     * to the table; only the selected row's title changes membership. With no
     * row selected the source's read of row -1 throws before the set is touched.
     */
    method ButtonPressed()
      requires table.Valid()
      modifies table.revealed
      ensures unchanged(table) && unchanged(this)
      ensures table.selectedRow >= 0 ==>
        table.revealed.titles == Toggled(old(table.revealed.titles), table.rows[table.selectedRow][0])
      ensures table.selectedRow < 0 ==> table.revealed.titles == old(table.revealed.titles)
    {
      if table.selectedRow < 0 {
        return;
      }
      var title := table.rows[table.selectedRow][0];
      if title in table.revealed.titles {
        table.revealed.titles := table.revealed.titles - {title};
      } else {
        table.revealed.titles := table.revealed.titles + {title};
      }
    }

    /** getTableCellEditorComponent: shows the cell's text in the label. */
    method GetTableCellEditorComponent(value: string)
      modifies this`labelText
      ensures labelText == value
    {
      labelText := value;
    }

    /** getCellEditorValue: the text last handed to GetTableCellEditorComponent. */
    method GetCellEditorValue() returns (v: string)
      ensures v == labelText
    {
      v := labelText;
    }
  }
}
