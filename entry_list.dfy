/**
 * The value-level steps of JPassFrame.refreshEntryTitleList: the stable sort of
 * the entries by case-insensitive title (Collections.sort with
 * String.CASE_INSENSITIVE_ORDER), the search filter, and the status line.
 */
module EntryList {
  import opened Text
  import opened Entries

  /** The key String.CASE_INSENSITIVE_ORDER compares: the title, case-folded. */
  function TitleKey(e: Entry): string {
    Lower(e.title)
  }

  /** Lexicographic order on strings: character by character, a proper prefix first. */
  predicate LexLe(a: string, b: string)
    decreases |a|
  {
    a == [] || (b != [] && (a[0] < b[0] || (a[0] == b[0] && LexLe(a[1..], b[1..]))))
  }

  lemma {:induction false} LexLeReflexive(a: string)
    ensures LexLe(a, a)
    decreases |a|
  {
    if a != [] {
      LexLeReflexive(a[1..]);
    }
  }

  lemma {:induction false} LexLeTotal(a: string, b: string)
    ensures LexLe(a, b) || LexLe(b, a)
    decreases |a|
  {
    if a != [] && b != [] && a[0] == b[0] {
      LexLeTotal(a[1..], b[1..]);
    }
  }

  lemma {:induction false} LexLeTransitive(a: string, b: string, c: string)
    requires LexLe(a, b) && LexLe(b, c)
    ensures LexLe(a, c)
    decreases |a|
  {
    if a != [] && a[0] == b[0] && b[0] == c[0] {
      LexLeTransitive(a[1..], b[1..], c[1..]);
    }
  }

  lemma {:induction false} LexLeAntisymmetric(a: string, b: string)
    requires LexLe(a, b) && LexLe(b, a)
    ensures a == b
    decreases |a|
  {
    if a != [] {
      LexLeAntisymmetric(a[1..], b[1..]);
      assert a == [a[0]] + a[1..] && b == [b[0]] + b[1..];
    }
  }

  /** The comparator of the sort: title of x is at most title of y, ignoring case. */
  predicate TitleLe(x: Entry, y: Entry) {
    LexLe(TitleKey(x), TitleKey(y))
  }

  predicate SortedByTitle(s: seq<Entry>) {
    forall i, j :: 0 <= i < j < |s| ==> TitleLe(s[i], s[j])
  }

  /** Places x in front of the first element that does not sort strictly before it. */
  function InsertByTitle(x: Entry, s: seq<Entry>): (r: seq<Entry>)
    ensures multiset(r) == multiset(s) + multiset{x}
  {
    if s == [] then [x]
    else if TitleLe(x, s[0]) then [x] + s
    else
      assert s == [s[0]] + s[1..];
      [s[0]] + InsertByTitle(x, s[1..])
  }

  /**
   * The list the refresh displays from: the entries sorted by case-insensitive
   * title, entries with equal keys in their original order.
   */
  function SortByTitle(s: seq<Entry>): (r: seq<Entry>)
    ensures multiset(r) == multiset(s)
    ensures |r| == |s|
  {
    if s == [] then []
    else
      assert s == [s[0]] + s[1..];
      InsertByTitle(s[0], SortByTitle(s[1..]))
  }

  lemma {:induction false} InsertKeepsSorted(x: Entry, s: seq<Entry>)
    requires SortedByTitle(s)
    ensures SortedByTitle(InsertByTitle(x, s))
  {
    if s == [] {
    } else if TitleLe(x, s[0]) {
      forall j | 0 <= j < |s|
        ensures TitleLe(x, s[j])
      {
        if j > 0 {
          LexLeTransitive(TitleKey(x), TitleKey(s[0]), TitleKey(s[j]));
        }
      }
    } else {
      var t := InsertByTitle(x, s[1..]);
      InsertKeepsSorted(x, s[1..]);
      LexLeTotal(TitleKey(x), TitleKey(s[0]));
      forall k | 0 <= k < |t|
        ensures TitleLe(s[0], t[k])
      {
        assert t[k] in multiset(t);
        if t[k] != x {
          assert t[k] in multiset(s[1..]);
          var m :| 0 <= m < |s[1..]| && s[1..][m] == t[k];
          assert s[m + 1] == t[k];
        }
      }
    }
  }

  lemma {:induction false} SortByTitleSorted(s: seq<Entry>)
    ensures SortedByTitle(SortByTitle(s))
  {
    if s != [] {
      SortByTitleSorted(s[1..]);
      InsertKeepsSorted(s[0], SortByTitle(s[1..]));
    }
  }

  /** The entries of s whose case-folded title is k, in their order in s. */
  function WithKey(s: seq<Entry>, k: string): seq<Entry> {
    if s == [] then [] else (if TitleKey(s[0]) == k then [s[0]] else []) + WithKey(s[1..], k)
  }

  lemma WithKeyHead(s: seq<Entry>, k: string)
    requires s != []
    ensures TitleKey(s[0]) == k ==> WithKey(s, k) == [s[0]] + WithKey(s[1..], k)
    ensures TitleKey(s[0]) != k ==> WithKey(s, k) == WithKey(s[1..], k)
  {
    if TitleKey(s[0]) != k {
      assert [] + WithKey(s[1..], k) == WithKey(s[1..], k);
    }
  }

  lemma {:induction false} InsertWithKey(x: Entry, s: seq<Entry>, k: string)
    ensures WithKey(InsertByTitle(x, s), k) == (if TitleKey(x) == k then [x] else []) + WithKey(s, k)
  {
    var r := InsertByTitle(x, s);
    if s == [] || TitleLe(x, s[0]) {
      assert r == [x] + s && r[1..] == s;
      WithKeyHead(r, k);
      if TitleKey(x) != k {
        assert [] + WithKey(s, k) == WithKey(s, k);
      }
    } else {
      var t := InsertByTitle(x, s[1..]);
      assert r == [s[0]] + t && r[0] == s[0] && r[1..] == t;
      InsertWithKey(x, s[1..], k);
      WithKeyHead(r, k);
      WithKeyHead(s, k);
      var w := WithKey(s[1..], k);
      if TitleKey(x) == k {
        LexLeReflexive(TitleKey(x));
        assert TitleKey(s[0]) != k;
        assert WithKey(r, k) == [x] + w;
      } else if TitleKey(s[0]) == k {
        assert WithKey(t, k) == [] + w == w;
        assert WithKey(r, k) == [] + ([s[0]] + w);
      } else {
        assert WithKey(t, k) == [] + w == w;
        assert WithKey(r, k) == [] + w;
      }
    }
  }

  /** Stability: the sort keeps the relative order of entries whose titles differ only in case. */
  lemma {:induction false} SortByTitleStable(s: seq<Entry>, k: string)
    ensures WithKey(SortByTitle(s), k) == WithKey(s, k)
  {
    if s != [] {
      SortByTitleStable(s[1..], k);
      InsertWithKey(s[0], SortByTitle(s[1..]), k);
    }
  }

  /**
   * A sorted sequence that agrees with s key by key is SortByTitle(s): the
   * three properties above pin the sort down completely.
   */
  lemma {:induction false} StableSortUnique(s: seq<Entry>, r: seq<Entry>)
    requires SortedByTitle(r)
    requires forall k :: WithKey(r, k) == WithKey(s, k)
    ensures r == SortByTitle(s)
  {
    var t := SortByTitle(s);
    SortByTitleSorted(s);
    forall k ensures WithKey(r, k) == WithKey(t, k) {
      SortByTitleStable(s, k);
    }
    SortedAgreeingKeywiseEqual(r, t);
  }

  lemma {:induction false} SortedAgreeingKeywiseEqual(a: seq<Entry>, b: seq<Entry>)
    requires SortedByTitle(a) && SortedByTitle(b)
    requires forall k :: WithKey(a, k) == WithKey(b, k)
    ensures a == b
    decreases |a|
  {
    if a == [] || b == [] {
      // a key present in one sequence would be missing from the other
      if a != [] {
        WithKeyOfHead(a);
        assert false;
      } else if b != [] {
        WithKeyOfHead(b);
        assert false;
      }
    } else {
      var ka, kb := TitleKey(a[0]), TitleKey(b[0]);
      // a[0] occurs in b, so b[0] sorts no later than it; and symmetrically.
      assert a[0] in WithKey(a, ka);
      WithKeyMembers(b, ka, a[0]);
      assert b[0] in WithKey(b, kb);
      WithKeyMembers(a, kb, b[0]);
      var i :| 0 <= i < |b| && b[i] == a[0];
      var j :| 0 <= j < |a| && a[j] == b[0];
      if i > 0 {
        assert TitleLe(b[0], b[i]);
      } else {
        LexLeReflexive(kb);
      }
      if j > 0 {
        assert TitleLe(a[0], a[j]);
      } else {
        LexLeReflexive(ka);
      }
      LexLeAntisymmetric(ka, kb);
      assert WithKey(a, ka)[0] == a[0];
      assert WithKey(b, ka)[0] == b[0];
      assert a[0] == b[0];
      forall k ensures WithKey(a[1..], k) == WithKey(b[1..], k) {
        var h := if ka == k then [a[0]] else [];
        assert WithKey(a, k) == h + WithKey(a[1..], k);
        assert WithKey(b, k) == h + WithKey(b[1..], k);
        assert (h + WithKey(a[1..], k))[|h|..] == WithKey(a[1..], k);
        assert (h + WithKey(b[1..], k))[|h|..] == WithKey(b[1..], k);
      }
      SortedAgreeingKeywiseEqual(a[1..], b[1..]);
      assert a == [a[0]] + a[1..] && b == [b[0]] + b[1..];
    }
  }

  lemma WithKeyOfHead(s: seq<Entry>)
    requires s != []
    ensures WithKey(s, TitleKey(s[0])) != []
  {
  }

  lemma {:induction false} WithKeyMembers(s: seq<Entry>, k: string, e: Entry)
    requires e in WithKey(s, k)
    ensures e in s && TitleKey(e) == k
  {
    if s != [] && !(TitleKey(s[0]) == k && e == s[0]) {
      WithKeyMembers(s[1..], k, e);
    }
  }

  /**
   * The search predicate: an empty search text keeps everything, otherwise the
   * lower-cased title must contain the lower-cased search text.
   */
  predicate MatchesSearch(e: Entry, q: string) {
    q == [] || Contains(Lower(e.title), Lower(q))
  }

  /**
   * Titles that differ only in ASCII case are one key to the refresh: they
   * compare as equal, sort alike against every other title, and match the
   * same searches; a search text's case does not matter either.
   */
  lemma SameUpToCaseAlike(x: Entry, y: Entry, z: Entry, q: string)
    requires SameUpToCase(x.title, y.title)
    ensures TitleKey(x) == TitleKey(y)
    ensures TitleLe(x, y) && TitleLe(y, x)
    ensures TitleLe(x, z) == TitleLe(y, z) && TitleLe(z, x) == TitleLe(z, y)
    ensures MatchesSearch(x, q) == MatchesSearch(y, q)
  {
    SameUpToCaseLower(x.title, y.title);
    LexLeReflexive(TitleKey(x));
  }

  lemma SameUpToCaseSearch(e: Entry, q1: string, q2: string)
    requires SameUpToCase(q1, q2)
    ensures MatchesSearch(e, q1) == MatchesSearch(e, q2)
  {
    SameUpToCaseLower(q1, q2);
  }

  /** The entries of s that match the search text q, in their order in s. */
  function FilterBySearch(s: seq<Entry>, q: string): (r: seq<Entry>)
    ensures |r| <= |s|
    ensures forall e :: e in r <==> e in s && MatchesSearch(e, q)
  {
    if s == [] then []
    else
      assert s == s[..|s| - 1] + [s[|s| - 1]];
      FilterBySearch(s[..|s| - 1], q) + (if MatchesSearch(s[|s| - 1], q) then [s[|s| - 1]] else [])
  }

  lemma {:induction false} FilterEmptySearchKeepsAll(s: seq<Entry>)
    ensures FilterBySearch(s, []) == s
  {
    if s != [] {
      FilterEmptySearchKeepsAll(s[..|s| - 1]);
      assert s == s[..|s| - 1] + [s[|s| - 1]];
    }
  }

  /** The filter keeps order: filtering a concatenation filters each part. */
  lemma {:induction false} FilterConcat(s: seq<Entry>, t: seq<Entry>, q: string)
    ensures FilterBySearch(s + t, q) == FilterBySearch(s, q) + FilterBySearch(t, q)
    decreases |t|
  {
    if t != [] {
      var t' := t[..|t| - 1];
      FilterConcat(s, t', q);
      assert (s + t)[..|s + t| - 1] == s + t';
    } else {
      assert s + t == s;
    }
  }

  lemma {:induction false} FilterKeepsSorted(s: seq<Entry>, q: string)
    requires SortedByTitle(s)
    ensures SortedByTitle(FilterBySearch(s, q))
  {
    if s != [] {
      var p := s[..|s| - 1];
      FilterKeepsSorted(p, q);
      var r := FilterBySearch(s, q);
      var rp := FilterBySearch(p, q);
      forall i, j | 0 <= i < j < |r|
        ensures TitleLe(r[i], r[j])
      {
        if j >= |rp| {
          assert r[j] == s[|s| - 1];
          assert r[i] == rp[i] && rp[i] in p;
          var m :| 0 <= m < |p| && p[m] == rp[i];
          assert s[m] == r[i];
        } else {
          assert r[i] == rp[i] && r[j] == rp[j];
        }
      }
    }
  }

  /** The text the status bar shows after a refresh: a count, or a found/total pair while searching. */
  function StatusText(q: string, rowCount: nat, total: nat): (r: string)
    ensures |r| > 15
    ensures q == [] ==> r[..15] == "Entries count: "
    ensures q != [] ==> r[..15] == "Entries found: "
  {
    if q == [] then "Entries count: " + NatToString(total)
    else "Entries found: " + NatToString(rowCount) + " / " + NatToString(total)
  }

  /** The status text carries the numbers it reports: they can be read back from it. */
  lemma StatusTextCounts(q: string, rowCount: nat, total: nat)
    ensures var r := StatusText(q, rowCount, total);
      q == [] ==> |r| > 15 && r[..15] == "Entries count: " && AllDigits(r[15..]) && DecimalValue(r[15..]) == total
    ensures var r := StatusText(q, rowCount, total);
      q != [] ==> (r[..15] == "Entries found: " &&
        exists i :: 15 < i && i + 3 < |r| && AllDigits(r[15..i]) && DecimalValue(r[15..i]) == rowCount
          && r[i..i + 3] == " / " && AllDigits(r[i + 3..]) && DecimalValue(r[i + 3..]) == total)
  {
    var r := StatusText(q, rowCount, total);
    DecimalRoundTrip(total);
    if q == [] {
      assert r[15..] == NatToString(total);
    } else {
      DecimalRoundTrip(rowCount);
      var a := NatToString(rowCount);
      var i := 15 + |a|;
      assert r[15..i] == a;
      assert r[i..i + 3] == " / ";
      assert r[i + 3..] == NatToString(total);
    }
  }
}

module EntryListExamples {
  import opened Text
  import opened Entries
  import opened EntryList

  function Titled(t: string): Entry {
    Entry(t, "", "", "", "", "")
  }

  lemma ExampleKeys()
    ensures TitleKey(Titled("Bank")) == "bank"
    ensures TitleKey(Titled("apple")) == "apple"
    ensures TitleKey(Titled("Zeta")) == "zeta"
  {
    assert Lower("Bank") == "bank";
    assert Lower("apple") == "apple";
    assert Lower("Zeta") == "zeta";
  }

  lemma ExampleOrder()
    ensures TitleLe(Titled("Bank"), Titled("Zeta"))
    ensures TitleLe(Titled("apple"), Titled("Zeta"))
    ensures !TitleLe(Titled("Bank"), Titled("apple"))
  {
    ExampleKeys();
    assert LexLe("bank", "zeta") && LexLe("apple", "zeta") && !LexLe("bank", "apple");
  }

  /** Titles "Bank", "apple", "Zeta" sort as "apple", "Bank", "Zeta". */
  lemma ExampleSort()
    ensures SortByTitle([Titled("Bank"), Titled("apple"), Titled("Zeta")])
      == [Titled("apple"), Titled("Bank"), Titled("Zeta")]
  {
    var bank, apple, zeta := Titled("Bank"), Titled("apple"), Titled("Zeta");
    ExampleSortTail();
    ExampleInsert();
    assert [bank, apple, zeta][1..] == [apple, zeta];
  }

  lemma ExampleSortTail()
    ensures SortByTitle([Titled("apple"), Titled("Zeta")]) == [Titled("apple"), Titled("Zeta")]
  {
    var apple, zeta := Titled("apple"), Titled("Zeta");
    ExampleOrder();
    assert [apple, zeta][1..] == [zeta];
    assert SortByTitle([zeta]) == [zeta];
  }

  lemma ExampleInsert()
    ensures InsertByTitle(Titled("Bank"), [Titled("apple"), Titled("Zeta")])
      == [Titled("apple"), Titled("Bank"), Titled("Zeta")]
  {
    var bank, apple, zeta := Titled("Bank"), Titled("apple"), Titled("Zeta");
    ExampleOrder();
    assert [apple, zeta][1..] == [zeta];
    assert InsertByTitle(bank, [zeta]) == [bank, zeta];
  }

  lemma ExampleMatches()
    ensures MatchesSearch(Titled("Bank"), "an")
    ensures !MatchesSearch(Titled("apple"), "an")
    ensures !MatchesSearch(Titled("Zeta"), "an")
  {
    ExampleKeys();
    assert Lower("an") == "an";
    assert OccursAt("bank", "an", 1);
    NoAn();
  }

  /** Searching "an" among them keeps only "Bank". */
  lemma ExampleSearch()
    ensures FilterBySearch([Titled("apple"), Titled("Bank"), Titled("Zeta")], "an") == [Titled("Bank")]
  {
    var bank, apple, zeta := Titled("Bank"), Titled("apple"), Titled("Zeta");
    ExampleMatches();
    assert [apple, bank, zeta][..2] == [apple, bank] && [apple, bank][..1] == [apple];
    assert FilterBySearch([apple], "an") == [];
    assert FilterBySearch([apple, bank], "an") == [bank];
  }

  lemma NoAn()
    ensures !Contains("apple", "an") && !Contains("zeta", "an")
  {
    forall i | 0 <= i <= 3 ensures !OccursAt("apple", "an", i) {
      assert "apple"[i] != 'a' || "apple"[i + 1] != 'n';
    }
    forall i | 0 <= i <= 2 ensures !OccursAt("zeta", "an", i) {
      assert "zeta"[i] != 'a';
    }
  }

  /** The status lines for the two cases. */
  lemma ExampleStatus()
    ensures StatusText("", 3, 3) == "Entries count: 3"
    ensures StatusText("an", 1, 3) == "Entries found: 1 / 3"
  {
  }
}
