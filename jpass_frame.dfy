/**
 * JPassFrame: the main window's state rules. The refresh that rebuilds the
 * table from the data model, the window title, the processing gate, and the
 * decision taken when the user asks to exit.
 */
module Frame {
  import opened Wrappers
  import opened Text
  import opened Entries
  import opened EntryList
  import opened EntryTable

  const ProgramName: string := "JPass Password Manager"
  const TitleSuffix: string := " - " + ProgramName

  /** The actions the frame wires into its toolbar, menus and popup. */
  datatype MenuActionType =
    | NewFile | OpenFile | SaveFile | SaveAsFile | ExportXml | ImportXml | ChangePassword | Exit
    | AddEntry | EditEntry | DuplicateEntry | DeleteEntry | CopyUrl | CopyUser | CopyPassword
    | ClearClipboard | FindEntry | GeneratePassword | License | About

  /** MenuActionType.values(). */
  const AllActions: seq<MenuActionType> := [
    NewFile, OpenFile, SaveFile, SaveAsFile, ExportXml, ImportXml, ChangePassword, Exit,
    AddEntry, EditEntry, DuplicateEntry, DeleteEntry, CopyUrl, CopyUser, CopyPassword,
    ClearClipboard, FindEntry, GeneratePassword, License, About]

  lemma AllActionsListsEveryAction(a: MenuActionType)
    ensures a in AllActions
  {
  }

  /** The file part of the window title: the file name, or "Untitled" when there is none. */
  function DisplayName(fileName: Option<string>): string {
    match fileName
    case None => "Untitled"
    case Some(n) => n
  }

  /** The window title refreshFrameTitle sets. */
  function FrameTitle(modified: bool, fileName: Option<string>): (r: string)
    ensures |r| >= |TitleSuffix| && r[|r| - |TitleSuffix|..] == TitleSuffix
    ensures modified ==> r[0] == '*'
    ensures r[(if modified then 1 else 0)..|r| - |TitleSuffix|] == DisplayName(fileName)
  {
    (if modified then "*" else "") + DisplayName(fileName) + TitleSuffix
  }

  /**
   * The title gives back the modified flag and the displayed name, as long as
   * the name does not itself begin with '*'.
   */
  lemma FrameTitleDeterminesState(m1: bool, f1: Option<string>, m2: bool, f2: Option<string>)
    requires DisplayName(f1) == [] || DisplayName(f1)[0] != '*'
    requires DisplayName(f2) == [] || DisplayName(f2)[0] != '*'
    requires FrameTitle(m1, f1) == FrameTitle(m2, f2)
    ensures m1 == m2 && DisplayName(f1) == DisplayName(f2)
  {
  }

  /** Without that proviso a leading '*' does not mean "modified". */
  lemma FrameTitleAmbiguousName()
    ensures FrameTitle(false, Some("*a")) == FrameTitle(true, Some("a"))
  {
  }

  lemma FilterStep(s: seq<Entry>, i: nat, q: string)
    requires i < |s|
    ensures FilterBySearch(s[..i + 1], q)
      == FilterBySearch(s[..i], q) + (if MatchesSearch(s[i], q) then [s[i]] else [])
  {
    assert s[..i + 1][..i] == s[..i];
  }

  lemma RowsOfAppend(details: seq<DetailType>, s: seq<Entry>, e: Entry, formatDate: string -> string)
    ensures RowsOf(details, s + [e], formatDate)
      == RowsOf(details, s, formatDate) + [ProjectRow(details, Some(e), formatDate)]
  {
  }

  /** The answer to the save-before-exit question. */
  datatype DialogOption = YesOption | NoOption | CancelOption | ClosedOption

  datatype ExitAction = StayOpen | ExitApplication | SaveThenExit

  /** What exitFrame does: whether it cleared the clipboard, whether it asked, and how it ends. */
  datatype ExitOutcome = ExitOutcome(clipboardCleared: bool, asked: bool, action: ExitAction)

  /** The part of DataModel the frame reads and clears. */
  class DataModel {
    var entries: seq<Entry>
    var modified: bool
    var fileName: Option<string>

    constructor ()
      ensures entries == [] && !modified && fileName == None
    {
      entries := [];
      modified := false;
      fileName := None;
    }
  }

  class JPassFrame {
    const model: DataModel
    const table: EntryDetailsTable
    /** The search panel's current text. */
    var searchCriteria: string
    var searchEnabled: bool
    /** The enabled flag of each action. */
    var actionEnabled: map<MenuActionType, bool>
    var processing: bool
    /** The status panel's busy indicator and text. */
    var statusProcessing: bool
    var statusText: string
    var frameTitle: string

    ghost predicate Valid()
      reads this, table
    {
      table.Valid() && forall a :: a in actionEnabled
    }

    /**
     * The frame's state as its constructor leaves it before the refreshAll
     * call at its end: nothing processing, every action enabled, an empty search.
     */
    constructor (model: DataModel, table: EntryDetailsTable)
      requires table.Valid()
      ensures Valid()
      ensures this.model == model && this.table == table
      ensures !processing && searchCriteria == "" && searchEnabled
      ensures forall a :: actionEnabled[a]
    {
      this.model := model;
      this.table := table;
      searchCriteria := "";
      searchEnabled := true;
      actionEnabled := map a: MenuActionType | a in AllActions :: true;
      processing := false;
      statusProcessing := false;
      statusText := "";
      frameTitle := "";
      new;
      forall a: MenuActionType
        ensures a in actionEnabled
      {
        AllActionsListsEveryAction(a);
      }
    }

    /** clearModel: empties the data model's entries and the table's rows. */
    method ClearModel()
      requires Valid()
      modifies model`entries, table`rows, table`selectedRow
      ensures Valid()
      ensures model.entries == [] && table.rows == [] && table.selectedRow == -1
      ensures table.revealed.titles == old(table.revealed.titles)
    {
      model.entries := [];
      table.Clear();
    }

    /** refreshFrameTitle. */
    method RefreshFrameTitle()
      modifies this`frameTitle
      ensures frameTitle == FrameTitle(model.modified, model.fileName)
    {
      frameTitle := (if model.modified then "*" else "") + DisplayName(model.fileName) + " - " + ProgramName;
    }

    /**
     * refreshEntryTitleList: rebuilds the rows from a sorted copy of the
     * entries filtered by the search text, selects the first row whose first
     * cell is selectTitle, and sets the status text.
     */
    method RefreshEntryTitleList(selectTitle: Option<string>)
      requires Valid()
      modifies this`statusText, table`rows, table`selectedRow
      ensures Valid()
      ensures model.entries == old(model.entries)
      ensures table.rows == RowsOf(table.details, FilterBySearch(SortByTitle(model.entries), searchCriteria), table.formatDate)
      ensures |table.rows| <= |model.entries|
      ensures selectTitle.None? ==> table.selectedRow == -1
      ensures table.selectedRow >= 0 ==>
        && selectTitle.Some?
        && table.rows[table.selectedRow][0] == selectTitle.value
        && forall k :: 0 <= k < table.selectedRow ==> table.rows[k][0] != selectTitle.value
      ensures table.selectedRow == -1 && selectTitle.Some? ==>
        forall k :: 0 <= k < |table.rows| ==> table.rows[k][0] != selectTitle.value
      ensures statusText == StatusText(searchCriteria, |table.rows|, |model.entries|)
      ensures table.revealed.titles == old(table.revealed.titles)
    {
      table.Clear();
      var entries := SortByTitle(model.entries);
      var q := searchCriteria;
      AddMatchingRows(entries, q);
      if selectTitle.Some? {
        SelectFirstRowTitled(selectTitle.value);
      }
      var shownCount := table.RowCount();
      if q == [] {
        statusText := "Entries count: " + NatToString(|entries|);
      } else {
        statusText := "Entries found: " + NatToString(shownCount) + " / " + NatToString(|entries|);
      }
    }

    /** The stream step of the refresh: add a row for each entry that matches q, in order. */
    method AddMatchingRows(entries: seq<Entry>, q: string)
      requires table.Valid() && table.rows == [] && table.selectedRow == -1
      modifies table`rows
      ensures table.Valid() && table.selectedRow == -1
      ensures table.rows == RowsOf(table.details, FilterBySearch(entries, q), table.formatDate)
    {
      for i := 0 to |entries|
        invariant table.Valid() && table.selectedRow == -1
        invariant table.rows == RowsOf(table.details, FilterBySearch(entries[..i], q), table.formatDate)
      {
        FilterStep(entries, i, q);
        if MatchesSearch(entries[i], q) {
          RowsOfAppend(table.details, FilterBySearch(entries[..i], q), entries[i], table.formatDate);
          table.AddRow(Some(entries[i]));
        }
      }
      assert entries[..|entries|] == entries;
    }

    /** The selection step of the refresh: select the first row whose first cell is title, if any. */
    method SelectFirstRowTitled(title: string)
      requires table.Valid() && table.selectedRow == -1
      modifies table`selectedRow
      ensures table.Valid()
      ensures table.selectedRow >= 0 ==>
        && table.rows[table.selectedRow][0] == title
        && forall k :: 0 <= k < table.selectedRow ==> table.rows[k][0] != title
      ensures table.selectedRow == -1 ==> forall k :: 0 <= k < |table.rows| ==> table.rows[k][0] != title
    {
      var rowCount := table.RowCount();
      var rowIndex := 0;
      while rowIndex < rowCount
        invariant table.Valid() && rowCount == |table.rows|
        invariant 0 <= rowIndex <= rowCount && table.selectedRow == -1
        invariant forall k :: 0 <= k < rowIndex ==> table.rows[k][0] != title
      {
        if table.rows[rowIndex][0] == title {
          table.SelectRow(rowIndex);
          break;
        }
        rowIndex := rowIndex + 1;
      }
    }

    /** refreshAll. */
    method RefreshAll()
      requires Valid()
      modifies this`frameTitle, this`statusText, table`rows, table`selectedRow
      ensures Valid()
      ensures frameTitle == FrameTitle(model.modified, model.fileName)
      ensures table.rows == RowsOf(table.details, FilterBySearch(SortByTitle(model.entries), searchCriteria), table.formatDate)
      ensures table.selectedRow == -1
      ensures statusText == StatusText(searchCriteria, |table.rows|, |model.entries|)
    {
      RefreshFrameTitle();
      RefreshEntryTitleList(None);
    }

    /** The search panel's callback: becoming enabled triggers a refresh without a selection. */
    method SearchPanelToggled(enabled: bool)
      requires Valid()
      modifies this`statusText, table`rows, table`selectedRow
      ensures Valid()
      ensures enabled ==> table.rows == RowsOf(table.details, FilterBySearch(SortByTitle(model.entries), searchCriteria), table.formatDate)
      ensures enabled ==> table.selectedRow == -1
      ensures enabled ==> statusText == StatusText(searchCriteria, |table.rows|, |model.entries|)
      ensures !enabled ==> table.rows == old(table.rows) && table.selectedRow == old(table.selectedRow) && statusText == old(statusText)
    {
      if enabled {
        RefreshEntryTitleList(None);
      }
    }

    /**
     * exitFrame. The clipboard is cleared first when so configured; a frame
     * that is processing never exits; a modified model asks whether to save.
     */
    method ExitFrame(clearClipboardOnExit: bool, answer: DialogOption) returns (outcome: ExitOutcome)
      ensures outcome.clipboardCleared == clearClipboardOnExit
      ensures outcome.asked <==> !processing && model.modified
      ensures processing ==> outcome.action == StayOpen
      ensures outcome.action == SaveThenExit <==> !processing && model.modified && answer == YesOption
      ensures outcome.action == ExitApplication <==> !processing && (!model.modified || answer == NoOption)
    {
      var cleared := clearClipboardOnExit;
      if processing {
        return ExitOutcome(cleared, false, StayOpen);
      }
      if model.modified {
        var option := answer;
        if option == YesOption {
          return ExitOutcome(cleared, true, SaveThenExit);
        } else if option != NoOption {
          return ExitOutcome(cleared, true, StayOpen);
        }
        return ExitOutcome(cleared, true, ExitApplication);
      }
      return ExitOutcome(cleared, false, ExitApplication);
    }

    /**
     * setProcessing: records the flag and sets every action, the search panel
     * and the table to the opposite, whatever they were before.
     */
    method SetProcessing(p: bool)
      requires Valid()
      modifies this`processing, this`actionEnabled, this`searchEnabled, this`statusProcessing, table`enabled
      ensures Valid()
      ensures processing == p && statusProcessing == p
      ensures forall a :: actionEnabled[a] == !p
      ensures searchEnabled == !p && table.enabled == !p
    {
      this.processing := p;
      for i := 0 to |AllActions|
        invariant processing == p
        invariant forall a :: a in actionEnabled
        invariant forall j :: 0 <= j < i ==> actionEnabled[AllActions[j]] == !p
      {
        actionEnabled := actionEnabled[AllActions[i] := !p];
      }
      forall a: MenuActionType
        ensures actionEnabled[a] == !p
      {
        AllActionsListsEveryAction(a);
        var j :| 0 <= j < |AllActions| && AllActions[j] == a;
      }
      searchEnabled := !p;
      table.enabled := !p;
      statusProcessing := p;
    }

    /** isProcessing. */
    method IsProcessing() returns (p: bool)
      ensures p == processing
    {
      p := processing;
    }
  }
}
