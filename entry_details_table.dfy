/**
 * EntryDetailsTable: the registry of the six detail kinds, the resolution of
 * the configured column names, the projection of an entry into a row, the
 * masked read of the password column, and the table object itself.
 */
module EntryTable {
  import opened Wrappers
  import opened Entries

  /** The kinds of entry detail a column can show, in the enum's declaration order. */
  datatype DetailType = Title | Url | User | Password | Modified | Created

  /** What a hidden password cell reads as. */
  const Mask: string := "******"

  /** Enum::name, the spelling the configuration uses. */
  function Name(d: DetailType): string {
    match d
    case Title => "TITLE"
    case Url => "URL"
    case User => "USER"
    case Password => "PASSWORD"
    case Modified => "MODIFIED"
    case Created => "CREATED"
  }

  /**
   * The column header of each kind. The two date kinds carry each other's
   * label: MODIFIED is headed "Created" and CREATED is headed "Modified".
   */
  function Label(d: DetailType): (r: string)
    ensures r == "Password" <==> d == Password
  {
    match d
    case Title => "Title"
    case Url => "URL"
    case User => "User"
    case Password => "Password"
    case Modified => "Created"
    case Created => "Modified"
  }

  /** DetailType.getValue: the text of one detail of an entry, "" for a missing entry. */
  function DetailValue(d: DetailType, e: Option<Entry>, formatDate: string -> string): (v: string)
    ensures e.None? ==> v == ""
  {
    match e
    case None => ""
    case Some(x) =>
      match d
      case Title => x.title
      case Url => x.url
      case User => x.user
      case Password => x.password
      case Modified => formatDate(x.lastModification)
      case Created => formatDate(x.creationDate)
  }

  /** The header and the extractor of each date kind, as the registry pairs them. */
  lemma DateColumnsCrossed(e: Entry, formatDate: string -> string)
    ensures Label(Modified) == "Created" && DetailValue(Modified, Some(e), formatDate) == formatDate(e.lastModification)
    ensures Label(Created) == "Modified" && DetailValue(Created, Some(e), formatDate) == formatDate(e.creationDate)
    ensures forall d :: DetailValue(d, None, formatDate) == ""
  {
  }

  /** DETAILS_BY_NAME.get: the kind whose enum name is exactly n, if any. */
  function DetailByName(n: string): (r: Option<DetailType>)
    ensures r.Some? ==> Name(r.value) == n
    ensures r.None? ==> forall d :: Name(d) != n
  {
    if n == "TITLE" then Some(Title)
    else if n == "URL" then Some(Url)
    else if n == "USER" then Some(User)
    else if n == "PASSWORD" then Some(Password)
    else if n == "MODIFIED" then Some(Modified)
    else if n == "CREATED" then Some(Created)
    else None
  }

  lemma NameRoundTrip(d: DetailType)
    ensures DetailByName(Name(d)) == Some(d)
  {
  }

  /** DEFAULT_DETAILS, as names. */
  const DefaultDetailNames: seq<string> := ["TITLE", "URL", "USER", "PASSWORD", "CREATED", "MODIFIED"]

  /** DEFAULT_DETAILS, resolved. */
  const DefaultDetails: seq<DetailType> := [Title, Url, User, Password, Created, Modified]

  lemma DefaultNameResolves(i: nat)
    requires i < |DefaultDetailNames|
    ensures DetailByName(DefaultDetailNames[i]) == Some(DefaultDetails[i])
  {
    NameRoundTrip(DefaultDetails[i]);
  }

  predicate NoDuplicates<T(==)>(s: seq<T>) {
    forall i, j :: 0 <= i < j < |s| ==> s[i] != s[j]
  }

  /** The position of the first occurrence of x in s. */
  function FirstIndex<T(==)>(s: seq<T>, x: T): (k: nat)
    requires x in s
    ensures k < |s| && s[k] == x && x !in s[..k]
  {
    if s[0] == x then 0 else 1 + FirstIndex(s[1..], x)
  }

  /** `.map(DETAILS_BY_NAME::get).filter(Objects::nonNull)`: the recognised kinds, in order. */
  function Recognized(names: seq<string>): (r: seq<DetailType>)
    ensures |r| <= |names|
    ensures forall d :: d in r <==> Name(d) in names
  {
    if names == [] then []
    else
      var last := names[|names| - 1];
      assert names == names[..|names| - 1] + [last];
      Recognized(names[..|names| - 1]) + (match DetailByName(last) case Some(d) => [d] case None => [])
  }

  /** `.distinct()`: every element whose value has not occurred earlier. */
  function Distinct<T(==)>(s: seq<T>): (r: seq<T>)
    ensures NoDuplicates(r)
    ensures forall i :: 0 <= i < |r| ==> r[i] in s
    ensures forall i :: 0 <= i < |s| ==> s[i] in r
  {
    if s == [] then []
    else
      var p, last := s[..|s| - 1], s[|s| - 1];
      assert s == p + [last];
      Distinct(p) + (if last in p then [] else [last])
  }

  lemma {:induction false} FirstIndexOfPrefix<T>(p: seq<T>, t: seq<T>, x: T)
    requires x in p
    ensures FirstIndex(p + t, x) == FirstIndex(p, x)
  {
    if p[0] != x {
      FirstIndexOfPrefix(p[1..], t, x);
      assert (p + t)[1..] == p[1..] + t;
    }
  }

  lemma {:induction false} FirstIndexAfterPrefix<T>(p: seq<T>, t: seq<T>, x: T)
    requires x !in p && x in t
    ensures FirstIndex(p + t, x) == |p| + FirstIndex(t, x)
  {
    if p != [] {
      FirstIndexAfterPrefix(p[1..], t, x);
      assert (p + t)[1..] == p[1..] + t;
    } else {
      assert p + t == t;
    }
  }

  /** Distinct keeps the values in the order of their first occurrence. */
  lemma {:induction false} DistinctFirstOccurrenceOrder<T>(s: seq<T>, i: nat, j: nat)
    requires i < j < |Distinct(s)|
    ensures FirstIndex(s, Distinct(s)[i]) < FirstIndex(s, Distinct(s)[j])
  {
    var p, last := s[..|s| - 1], s[|s| - 1];
    var r, rp := Distinct(s), Distinct(p);
    assert s == p + [last];
    assert r[i] == rp[i] && r[i] in p;
    FirstIndexOfPrefix(p, [last], r[i]);
    if j < |rp| {
      assert r[j] == rp[j];
      DistinctFirstOccurrenceOrder(p, i, j);
      FirstIndexOfPrefix(p, [last], r[j]);
    } else {
      assert r[j] == last && last !in p;
      FirstIndexAfterPrefix(p, [last], last);
    }
  }

  /** Recognized keeps the order of first mention of each kind. */
  lemma {:induction false} RecognizedFirstIndex(names: seq<string>, d1: DetailType, d2: DetailType)
    requires d1 in Recognized(names) && d2 in Recognized(names)
    ensures FirstIndex(Recognized(names), d1) < FirstIndex(Recognized(names), d2)
        <==> FirstIndex(names, Name(d1)) < FirstIndex(names, Name(d2))
  {
    var p, last := names[..|names| - 1], names[|names| - 1];
    var rp := Recognized(p);
    var tail: seq<DetailType> := match DetailByName(last) case Some(d) => [d] case None => [];
    assert names == p + [last];
    assert Recognized(names) == rp + tail;
    if d1 in rp {
      FirstIndexOfPrefix(rp, tail, d1);
      FirstIndexOfPrefix(p, [last], Name(d1));
    } else {
      FirstIndexAfterPrefix(rp, tail, d1);
      FirstIndexAfterPrefix(p, [last], Name(d1));
    }
    if d2 in rp {
      FirstIndexOfPrefix(rp, tail, d2);
      FirstIndexOfPrefix(p, [last], Name(d2));
    } else {
      FirstIndexAfterPrefix(rp, tail, d2);
      FirstIndexAfterPrefix(p, [last], Name(d2));
    }
    if d1 in rp && d2 in rp {
      RecognizedFirstIndex(p, d1, d2);
    }
  }

  /**
   * The columns the table shows for the configured names: the recognised kinds
   * without repeats, or the default six when no name is recognised.
   */
  function ResolveColumns(names: seq<string>): (r: seq<DetailType>)
    ensures r != [] && NoDuplicates(r)
  {
    var resolved := Distinct(Recognized(names));
    if resolved == [] then DefaultDetails else resolved
  }

  /** The columns are never empty and never repeat. */
  lemma ResolveColumnsDistinct(names: seq<string>)
    ensures ResolveColumns(names) != [] && NoDuplicates(ResolveColumns(names))
  {
  }

  /** When no configured name is recognised, the columns are the default six in the default order. */
  lemma ResolveColumnsFallback(names: seq<string>)
    requires forall n :: n in names ==> DetailByName(n).None?
    ensures ResolveColumns(names) == DefaultDetails
  {
  }

  /** When some name is recognised, a kind is shown exactly when its name is configured. */
  lemma ResolveColumnsMembers(names: seq<string>, d: DetailType)
    requires exists n :: n in names && DetailByName(n).Some?
    ensures d in ResolveColumns(names) <==> Name(d) in names
  {
    var n :| n in names && DetailByName(n).Some?;
    assert DetailByName(n).value in Recognized(names);
  }

  /** With some name recognised, the columns follow the order in which the configuration first names them. */
  lemma ResolveColumnsOrder(names: seq<string>, i: nat, j: nat)
    requires Distinct(Recognized(names)) != []
    requires i < j < |ResolveColumns(names)|
    ensures var r := ResolveColumns(names);
      Name(r[i]) in names && Name(r[j]) in names &&
      FirstIndex(names, Name(r[i])) < FirstIndex(names, Name(r[j]))
  {
    var rec := Recognized(names);
    var r := Distinct(rec);
    DistinctFirstOccurrenceOrder(rec, i, j);
    RecognizedFirstIndex(names, r[i], r[j]);
  }

  /** The row addRow appends for entry e: one cell per column. */
  function ProjectRow(details: seq<DetailType>, e: Option<Entry>, formatDate: string -> string): (row: seq<string>)
    ensures |row| == |details|
    ensures forall i :: 0 <= i < |details| ==> row[i] == DetailValue(details[i], e, formatDate)
  {
    seq(|details|, i requires 0 <= i < |details| => DetailValue(details[i], e, formatDate))
  }

  /** The rows the table holds after adding each of the entries in turn. */
  function RowsOf(details: seq<DetailType>, entries: seq<Entry>, formatDate: string -> string): (rows: seq<seq<string>>)
    ensures |rows| == |entries|
    ensures forall i :: 0 <= i < |entries| ==> rows[i] == ProjectRow(details, Some(entries[i]), formatDate)
  {
    seq(|entries|, i requires 0 <= i < |entries| => ProjectRow(details, Some(entries[i]), formatDate))
  }

  /** getColumn(PWD).getModelIndex(): the position of the password column. */
  function PasswordIndex(details: seq<DetailType>): (k: nat)
    requires Password in details
    ensures k < |details| && details[k] == Password
  {
    FirstIndex(details, Password)
  }

  /**
   * What a read of cell `col` of `row` shows: the stored text, except that a
   * password cell whose row's first cell is not a revealed title shows Mask.
   */
  function DisplayedCell(details: seq<DetailType>, row: seq<string>, col: nat, revealed: set<string>): (v: string)
    requires Password in details && |row| == |details| && col < |row|
    ensures v == row[col] || v == Mask
    ensures NoDuplicates(details) ==>
      (v == Mask <==> row[col] == Mask || (details[col] == Password && row[0] !in revealed))
  {
    if col != PasswordIndex(details) then row[col]
    else if row[0] in revealed then row[col]
    else Mask
  }

  /** The process-wide set of titles whose passwords are shown (isPasswordShowSet). */
  class RevealedTitles {
    var titles: set<string>

    constructor ()
      ensures titles == {}
    {
      titles := {};
    }
  }

  class EntryDetailsTable {
    /** detailsToDisplay: fixed once the constructor has resolved it. */
    const details: seq<DetailType>
    /** The configured date formatter applied to both timestamps. */
    const formatDate: string -> string
    /** The shared reveal set; every table sees the same one. */
    const revealed: RevealedTitles
    /** The rows of tableModel. */
    var rows: seq<seq<string>>
    /** getSelectedRow(): a row index, or -1 when no row is selected. */
    var selectedRow: int
    /** setEnabled / isEnabled of the component. */
    var enabled: bool

    ghost predicate Valid()
      reads this
    {
      && details != []
      && NoDuplicates(details)
      && Password in details
      && (forall i :: 0 <= i < |rows| ==> |rows[i]| == |details|)
      && -1 <= selectedRow < |rows|
    }

    /**
     * Resolves the configured column names. The source looks the password
     * column up by its header afterwards, which fails when it is not configured.
     */
    constructor (configured: seq<string>, formatDate: string -> string, revealed: RevealedTitles)
      requires Password in ResolveColumns(configured)
      ensures Valid()
      ensures details == ResolveColumns(configured)
      ensures rows == [] && selectedRow == -1 && enabled
      ensures this.formatDate == formatDate && this.revealed == revealed
    {
      var resolved := Distinct(Recognized(configured));
      if resolved == [] {
        for i := 0 to |DefaultDetailNames|
          invariant resolved == DefaultDetails[..i]
        {
          DefaultNameResolves(i);
          resolved := resolved + [DetailByName(DefaultDetailNames[i]).value];
        }
        assert resolved == DefaultDetails;
      }
      ResolveColumnsDistinct(configured);
      details := resolved;
      this.formatDate := formatDate;
      this.revealed := revealed;
      rows := [];
      selectedRow := -1;
      enabled := true;
    }

    /** getValueAt: the displayed text of a cell; reading changes nothing. */
    function ValueAt(row: nat, col: nat): (v: string)
      reads this, revealed
      requires Valid() && row < |rows| && col < |details|
      ensures details[col] != Password ==> v == rows[row][col]
      ensures details[col] == Password ==>
        (v == rows[row][col] <==> rows[row][0] in revealed.titles || rows[row][col] == Mask)
      ensures v == rows[row][col] || v == Mask
    {
      DisplayedCell(details, rows[row], col, revealed.titles)
    }

    /** isCellEditable: only cells of the password column are editable. */
    function IsCellEditable(row: int, col: int): (r: bool)
      reads this
      requires Valid()
      ensures r <==> 0 <= col < |details| && details[col] == Password
    {
      col == PasswordIndex(details)
    }

    /** clear: drops every row; the reveal set is left as it is. */
    method Clear()
      requires Valid()
      modifies this`rows, this`selectedRow
      ensures Valid()
      ensures rows == [] && selectedRow == -1
      ensures revealed.titles == old(revealed.titles)
    {
      rows := [];
      selectedRow := -1;
    }

    /** addRow: appends the row for e and leaves the existing rows alone. */
    method AddRow(e: Option<Entry>)
      requires Valid()
      modifies this`rows
      ensures Valid()
      ensures rows == old(rows) + [ProjectRow(details, e, formatDate)]
      ensures |rows| == |old(rows)| + 1
      ensures forall i :: 0 <= i < |details| ==> rows[|rows| - 1][i] == DetailValue(details[i], e, formatDate)
    {
      rows := rows + [ProjectRow(details, e, formatDate)];
    }

    /** rowCount. */
    method RowCount() returns (n: nat)
      ensures n == |rows|
    {
      n := |rows|;
    }

    /** setRowSelectionInterval(i, i). */
    method SelectRow(i: nat)
      requires Valid() && i < |rows|
      modifies this`selectedRow
      ensures Valid() && selectedRow == i
    {
      selectedRow := i;
    }
  }
}
