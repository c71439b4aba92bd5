/** The engagement-overlap engine of the dashboard script: the selection of funnel
    stages, the intersection of their emails, the statistics table, the merged
    intersection table and the per-stage tables of unique entries. */
module Dashboard {
  import opened Tables

  /** A selected funnel stage: its checkbox label and its table. */
  datatype Category = Category(title: string, table: Table)

  /** The labels of the four checkboxes, in the order of the script's dictionary. */
  const Labels: seq<string> :=
    ["Download Brochure", "Signed Up For Preview", "Attended Preview", "Gave Feedback"]

  // ----- Selection -----

  /** The positions among the first `n` whose checkbox is ticked: exactly those, in
      increasing order. */
  function Ticked(flags: seq<bool>, n: nat): (idx: seq<nat>)
    requires n <= |flags|
    ensures forall j :: 0 <= j < |idx| ==> idx[j] < n && flags[idx[j]]
    ensures forall i :: 0 <= i < n && flags[i] ==> i in idx
    ensures forall j, k :: 0 <= j < k < |idx| ==> idx[j] < idx[k]
  {
    if n == 0 then []
    else Ticked(flags, n - 1) + (if flags[n - 1] then [n - 1] else [])
  }

  /** The stages among the first `n` whose checkbox is ticked: the j-th selected stage is
      the j-th ticked label paired with its own table, and nothing else is selected. */
  function Chosen(flags: seq<bool>, tables: seq<Table>, n: nat): (sel: seq<Category>)
    requires n <= |flags| && n <= |tables| && n <= |Labels|
    ensures |sel| == |Ticked(flags, n)|
    ensures forall j :: 0 <= j < |sel| ==>
      sel[j] == Category(Labels[Ticked(flags, n)[j]], tables[Ticked(flags, n)[j]])
  {
    if n == 0 then []
    else Chosen(flags, tables, n - 1)
         + (if flags[n - 1] then [Category(Labels[n - 1], tables[n - 1])] else [])
  }

  /** The selection is empty exactly when no checkbox is ticked. */
  lemma SelectionEmpty(flags: seq<bool>, tables: seq<Table>)
    requires |flags| == |Labels| && |tables| == |Labels|
    ensures Chosen(flags, tables, |Labels|) == [] <==> forall i :: 0 <= i < |Labels| ==> !flags[i]
  {
    var idx := Ticked(flags, |Labels|);
    if idx != [] {
      assert flags[idx[0]];
    }
  }

  /** The loop over the labels and the checkbox values that appends each ticked stage. */
  method BuildSelection(flags: seq<bool>, tables: seq<Table>) returns (sel: seq<Category>)
    requires |flags| == |Labels| && |tables| == |Labels|
    ensures sel == Chosen(flags, tables, |Labels|)
  {
    sel := [];
    for i := 0 to |Labels|
      invariant sel == Chosen(flags, tables, i)
    {
      if flags[i] {
        sel := sel + [Category(Labels[i], tables[i])];
      }
    }
  }

  // ----- Intersection -----

  /** The email occurs in the table of every selected stage. */
  ghost predicate InEvery(e: string, sel: seq<Category>)
  {
    forall k :: 0 <= k < |sel| ==> e in Emails(sel[k].table)
  }

  /** The emails of the first stage, intersected with those of each later stage in turn. */
  function CommonEmails(sel: seq<Category>): (common: set<string>)
    requires |sel| > 0
    ensures forall e :: e in common <==> InEvery(e, sel)
    decreases |sel|
  {
    if |sel| == 1 then Emails(sel[0].table)
    else CommonEmails(sel[..|sel| - 1]) * Emails(sel[|sel| - 1].table)
  }

  /** The intersection fold: seeded from the first stage's emails, not from the empty set. */
  method Intersection(sel: seq<Category>) returns (common: set<string>)
    requires |sel| > 0
    ensures common == CommonEmails(sel)
  {
    common := Emails(sel[0].table);
    for i := 1 to |sel|
      invariant common == CommonEmails(sel[..i])
    {
      assert sel[..i + 1][..i] == sel[..i];
      common := common * Emails(sel[i].table);
    }
    assert sel[..|sel|] == sel;
  }

  /** The intersection depends only on which stages are selected, not on their order
      or on repetitions. */
  lemma IntersectionOrderFree(sel: seq<Category>, sel': seq<Category>)
    requires |sel| > 0 && |sel'| > 0
    requires forall c :: c in sel <==> c in sel'
    ensures CommonEmails(sel) == CommonEmails(sel')
  {
    forall e | e in CommonEmails(sel) ensures e in CommonEmails(sel') {
      forall k | 0 <= k < |sel'| ensures e in Emails(sel'[k].table) {
        assert sel'[k] in sel;
        var k' :| 0 <= k' < |sel| && sel[k'] == sel'[k];
      }
    }
    forall e | e in CommonEmails(sel') ensures e in CommonEmails(sel) {
      forall k | 0 <= k < |sel| ensures e in Emails(sel[k].table) {
        assert sel[k] in sel';
        var k' :| 0 <= k' < |sel'| && sel'[k'] == sel[k];
      }
    }
  }

  // ----- Statistics -----

  /** One row of the statistics table. `total` counts distinct emails, `inside` counts
      rows, so `outside` can be negative when a table repeats emails of the
      intersection. */
  datatype Stat = Stat(category: string, total: nat, inside: nat, outside: int,
                       pctInside: real, pctOutside: real)

  /** The script's percentage helper, over exact reals (the rounding to two decimals is not modelled). */
  function Percentage(part: int, whole: int): (p: real)
    ensures whole <= 0 ==> p == 0.0
    ensures whole > 0 ==> p * (whole as real) == 100.0 * (part as real)
  {
    if whole > 0 then (part as real / whole as real) * 100.0 else 0.0
  }

  /** The statistics row of one selected stage: neither count exceeds the number of
      rows, and `outside` is what `total` leaves after `inside`. */
  function StatOf(c: Category, common: set<string>): (s: Stat)
    ensures s.category == c.title
    ensures s.total <= |c.table| && s.inside <= |c.table|
    ensures s.inside + s.outside == s.total
  {
    var total := |Emails(c.table)|;
    var inside := |InsideRows(c.table, common)|;
    Stat(c.title, total, inside, total - inside,
         Percentage(inside, total), Percentage(total - inside, total))
  }

  /** The statistics loop: one row per selected stage, in selection order. */
  method Statistics(sel: seq<Category>, common: set<string>) returns (stats: seq<Stat>)
    ensures |stats| == |sel|
    ensures forall k :: 0 <= k < |sel| ==> stats[k] == StatOf(sel[k], common)
  {
    stats := [];
    for i := 0 to |sel|
      invariant |stats| == i
      invariant forall k :: 0 <= k < i ==> stats[k] == StatOf(sel[k], common)
    {
      var total := |Emails(sel[i].table)|;
      var inside := |InsideRows(sel[i].table, common)|;
      var outside := total - inside;
      stats := stats + [Stat(sel[i].title, total, inside, outside,
                             Percentage(inside, total), Percentage(outside, total))];
    }
  }

  /** What each statistics row counts: `total` the distinct emails of the table,
      `inside` the positions of the table whose email is in the intersection, and
      `outside` their difference. */
  lemma StatCounts(c: Category, common: set<string>)
    ensures StatOf(c, common).category == c.title
    ensures StatOf(c, common).total == |Emails(c.table)|
    ensures StatOf(c, common).inside == |InsidePositions(c.table, common)|
    ensures StatOf(c, common).inside + StatOf(c, common).outside == StatOf(c, common).total
  {
    InsideCountsPositions(c.table, common);
  }

  /** `outside` is the number of distinct emails outside the intersection minus the
      number of extra copies of intersection emails (inside rows beyond the first one
      per email). It is therefore at most the number of distinct outside emails, and it
      is negative exactly when the extra copies outnumber the distinct outside emails. */
  lemma OutsideCount(c: Category, common: set<string>)
    ensures var t := c.table;
      StatOf(c, common).outside
        == |Emails(t) - common| - (|InsideRows(t, common)| - |Emails(t) * common|)
    ensures |InsideRows(c.table, common)| - |Emails(c.table) * common| >= 0
    ensures StatOf(c, common).outside <= |Emails(c.table) - common|
  {
    var es := Emails(c.table);
    assert es == (es - common) + (es * common);
    assert |es| == |es - common| + |es * common|;
    EmailsOfInside(c.table, common);
  }

  /** Without repeated emails the counts agree with the rows: every row is one email,
      `outside` is the number of unique entries and is never negative, and the
      percentages lie between 0 and 100. */
  lemma StatWithoutDuplicates(c: Category, common: set<string>)
    requires DistinctEmails(c.table)
    ensures StatOf(c, common).total == |c.table|
    ensures StatOf(c, common).outside == |OutsideRows(c.table, common)|
    ensures 0 <= StatOf(c, common).inside <= StatOf(c, common).total
    ensures 0.0 <= StatOf(c, common).pctInside <= 100.0
    ensures 0.0 <= StatOf(c, common).pctOutside <= 100.0
  {
    DistinctEmailsCount(c.table);
    FiltersPartition(c.table, common);
    var s := StatOf(c, common);
    PercentageBounds(s.inside, s.total);
    PercentageBounds(s.outside, s.total);
  }

  /** A part between 0 and the whole is between 0 and 100 percent of it. */
  lemma PercentageBounds(part: int, whole: int)
    requires 0 <= part <= whole
    ensures 0.0 <= Percentage(part, whole) <= 100.0
  {
  }

  /** The two percentages of a row add up to exactly 100 when the table is not empty;
      an empty table has total 0 and both percentages 0. */
  lemma PercentagesComplement(c: Category, common: set<string>)
    ensures StatOf(c, common).total == 0 <==> c.table == []
    ensures c.table != [] ==> StatOf(c, common).pctInside + StatOf(c, common).pctOutside == 100.0
    ensures c.table == [] ==> StatOf(c, common).pctInside == 0.0 && StatOf(c, common).pctOutside == 0.0
  {
    var s := StatOf(c, common);
    if c.table != [] {
      assert c.table[0].email in Emails(c.table);
      PercentageSplit(s.inside, s.total);
    }
  }

  /** The percentages of a part and of the rest of a positive whole add up to 100. */
  lemma PercentageSplit(part: int, whole: int)
    requires whole > 0
    ensures Percentage(part, whole) + Percentage(whole - part, whole) == 100.0
  {
    var p, q, w := Percentage(part, whole), Percentage(whole - part, whole), whole as real;
    assert p * w == 100.0 * (part as real);
    assert q * w == 100.0 * ((whole - part) as real);
    assert (p + q) * w == p * w + q * w;
    assert (p + q) * w == 100.0 * w;
  }

  /** A table whose only email is in the intersection and occurs on two rows gets a
      negative `outside` count and a negative percentage outside. */
  lemma DuplicateEmailMakesOutsideNegative()
    ensures var c := Category("Gave Feedback", [Row("a@x", "Ann", map[]), Row("a@x", "Ann", map[])]);
      var s := StatOf(c, {"a@x"});
      s.total == 1 && s.inside == 2 && s.outside == -1 && s.pctInside == 200.0 && s.pctOutside == -100.0
  {
    var t := [Row("a@x", "Ann", map[]), Row("a@x", "Ann", map[])];
    assert t[0] in t;
    assert Emails(t) == {"a@x"};
  }

  // ----- Merged intersection table -----

  /** The successive inner merges of `acc` with the tables of `rest`. A key survives
      exactly when it is a key of `acc` and of every table in `rest`. */
  function JoinAll(acc: Table, rest: seq<Category>): (r: Table)
    ensures forall k :: k in Keys(r) <==>
      k in Keys(acc) && forall j :: 0 <= j < |rest| ==> k in Keys(rest[j].table)
    decreases |rest|
  {
    if rest == [] then acc
    else
      JoinKeys(acc, rest[0].table);
      var r := JoinAll(Join(acc, rest[0].table), rest[1..]);
      assert forall j :: 1 <= j < |rest| ==> rest[j] == rest[1..][j - 1];
      r
  }

  /** Merging an empty table with anything gives an empty table. */
  lemma {:induction false} JoinAllOfEmpty(rest: seq<Category>)
    ensures JoinAll([], rest) == []
    decreases |rest|
  {
    if rest != [] {
      JoinAllOfEmpty(rest[1..]);
    }
  }

  /** The first stage's rows inside the intersection, inner-merged with every other stage. */
  function Merged(sel: seq<Category>, common: set<string>): (r: Table)
    requires |sel| > 0
    ensures forall x :: x in r ==> x.email in common && Key(x) in Keys(sel[0].table)
  {
    var first := InsideRows(sel[0].table, common);
    var r := JoinAll(first, sel[1..]);
    assert forall x :: x in r ==> Key(x) in Keys(first) by {
      forall x | x in r ensures Key(x) in Keys(first) {
        assert Key(x) in Keys(r);
      }
    }
    assert forall k :: k in Keys(first) ==> k.0 in common && k in Keys(sel[0].table) by {
      forall k | k in Keys(first) ensures k.0 in common && k in Keys(sel[0].table) {
        var y :| y in first && Key(y) == k;
      }
    }
    r
  }

  /** The merge loop. */
  method MergedTable(sel: seq<Category>, common: set<string>) returns (merged: Table)
    requires |sel| > 0
    ensures merged == Merged(sel, common)
  {
    merged := InsideRows(sel[0].table, common);
    for i := 1 to |sel|
      invariant JoinAll(merged, sel[i..]) == Merged(sel, common)
    {
      assert sel[i..][1..] == sel[i + 1..];
      merged := Join(merged, sel[i].table);
    }
  }

  /** The merged table holds exactly the (Email, Name) pairs whose email is in
      `common` and that occur in every selected stage; with an empty `common` it is
      empty. */
  lemma MergedRows(sel: seq<Category>, common: set<string>)
    requires |sel| > 0
    ensures forall x :: x in Merged(sel, common) ==>
      x.email in common && forall k :: 0 <= k < |sel| ==> Key(x) in Keys(sel[k].table)
    ensures forall k: (string, string) ::
      (k.0 in common && (forall j :: 0 <= j < |sel| ==> k in Keys(sel[j].table))) ==> k in Keys(Merged(sel, common))
    ensures common == {} ==> Merged(sel, common) == []
  {
    var first := InsideRows(sel[0].table, common);
    var m := Merged(sel, common);
    assert forall j :: 1 <= j < |sel| ==> sel[j] == sel[1..][j - 1];
    forall x | x in m
      ensures x.email in common && forall k :: 0 <= k < |sel| ==> Key(x) in Keys(sel[k].table)
    {
      assert Key(x) in Keys(m);
      var y :| y in first && Key(y) == Key(x);
      assert Key(x) in Keys(sel[0].table);
      forall k | 1 <= k < |sel| ensures Key(x) in Keys(sel[k].table) {
        assert Key(x) in Keys(sel[1..][k - 1].table);
      }
    }
    forall k: (string, string) | k.0 in common && (forall j :: 0 <= j < |sel| ==> k in Keys(sel[j].table))
      ensures k in Keys(m)
    {
      var y :| y in sel[0].table && Key(y) == k;
      assert y in first;
      forall j | 0 <= j < |sel| - 1 ensures k in Keys(sel[1..][j].table) {
        assert sel[1..][j] == sel[j + 1];
      }
    }
    if common == {} {
      NoneInside(sel[0].table, common);
      JoinAllOfEmpty(sel[1..]);
    }
  }

  // ----- Unique entries -----

  /** The loop that builds, for every selected stage, the table of its entries whose
      email is not in the intersection. */
  method UniqueTables(sel: seq<Category>, common: set<string>) returns (uniques: seq<Category>)
    ensures |uniques| == |sel|
    ensures forall k :: 0 <= k < |sel| ==>
      uniques[k] == Category(sel[k].title, OutsideRows(sel[k].table, common))
  {
    uniques := [];
    for i := 0 to |sel|
      invariant |uniques| == i
      invariant forall k :: 0 <= k < i ==>
        uniques[k] == Category(sel[k].title, OutsideRows(sel[k].table, common))
    {
      var unique := OutsideRows(sel[i].table, common);
      uniques := uniques + [Category(sel[i].title, unique)];
    }
  }

  // ----- Degenerate selections -----

  /** With one stage selected, the intersection is that stage's email set, every row is
      inside, nothing is unique to it, and the merged table is the whole table. */
  lemma SingleSelection(c: Category)
    ensures CommonEmails([c]) == Emails(c.table)
    ensures InsideRows(c.table, Emails(c.table)) == c.table
    ensures OutsideRows(c.table, Emails(c.table)) == []
    ensures StatOf(c, Emails(c.table)).inside == |c.table|
    ensures Merged([c], Emails(c.table)) == c.table
  {
    AllInside(c.table, Emails(c.table));
  }

  /** Two stages with no email in common: the intersection is empty, the merged table
      is empty, and each unique table is the stage's whole table. */
  lemma DisjointSelection(a: Category, b: Category)
    requires Emails(a.table) !! Emails(b.table)
    ensures CommonEmails([a, b]) == {}
    ensures Merged([a, b], CommonEmails([a, b])) == []
    ensures OutsideRows(a.table, CommonEmails([a, b])) == a.table
    ensures OutsideRows(b.table, CommonEmails([a, b])) == b.table
  {
    assert [a, b][..1] == [a];
    var common := CommonEmails([a, b]);
    assert CommonEmails([a]) == Emails(a.table);
    assert common == CommonEmails([a]) * Emails(b.table);
    assert common == {};
    MergedRows([a, b], common);
    NoneInside(a.table, common);
    NoneInside(b.table, common);
  }

  /** Three stages with emails {e1, e2, e3}, {e2, e3, e4} and {e3, e4, e5}. */
  const StageA := Category("Download Brochure", [Contact("e1"), Contact("e2"), Contact("e3")])
  const StageB := Category("Signed Up For Preview", [Contact("e2"), Contact("e3"), Contact("e4")])
  const StageC := Category("Attended Preview", [Contact("e3"), Contact("e4"), Contact("e5")])

  /** A row with the given email and no other columns. */
  function Contact(e: string): Row
  {
    Row(e, e, map[])
  }

  /** Only e3 is common to the three example stages. */
  lemma ThreeStageIntersection()
    ensures CommonEmails([StageA, StageB, StageC]) == {"e3"}
  {
    assert Emails(StageA.table) == {"e1", "e2", "e3"};
    assert Emails(StageB.table) == {"e2", "e3", "e4"};
    assert Emails(StageC.table) == {"e3", "e4", "e5"};
    assert [StageA, StageB, StageC][..2] == [StageA, StageB];
    assert [StageA, StageB][..1] == [StageA];
    assert CommonEmails([StageA, StageB]) == {"e2", "e3"};
  }

  /** The first example stage has 1 of its 3 emails inside (a third) and 2 outside. */
  lemma ThreeStageStatistics()
    ensures var s := StatOf(StageA, CommonEmails([StageA, StageB, StageC]));
      && s.total == 3 && s.inside == 1 && s.outside == 2
      && s.pctInside == 100.0 / 3.0 && s.pctOutside == 200.0 / 3.0
  {
    ThreeStageIntersection();
    ThreeStageCounts();
    var s := StatOf(StageA, {"e3"});
    assert s.total == 3 && s.inside == 1;
    assert s.pctInside * 3.0 == 100.0;
    assert s.pctOutside * 3.0 == 200.0;
  }

  /** The first example stage has three distinct emails and one row with email e3. */
  lemma ThreeStageCounts()
    ensures |Emails(StageA.table)| == 3
    ensures |InsideRows(StageA.table, {"e3"})| == 1
  {
    var t := StageA.table;
    assert Emails(t) == {"e1", "e2", "e3"};
    assert t[1..] == [Contact("e2"), Contact("e3")] && t[1..][1..] == [Contact("e3")];
    assert InsideRows(t[1..][1..], {"e3"}) == [Contact("e3")];
    assert InsideRows(t, {"e3"}) == [Contact("e3")];
  }

  // ----- The whole report -----

  /** What the page shows: the prompt when nothing is ticked, otherwise the selection,
      the intersection, the statistics, the merged table and the unique tables. */
  datatype View =
    | Prompt
    | Overview(selection: seq<Category>, common: set<string>, stats: seq<Stat>,
               merged: Table, uniques: seq<Category>)

  /** One run of the script once the four tables are loaded and the four checkboxes read. */
  method Render(flags: seq<bool>, tables: seq<Table>) returns (v: View)
    requires |flags| == |Labels| && |tables| == |Labels|
    ensures v.Prompt? <==> forall i :: 0 <= i < |Labels| ==> !flags[i]
    ensures v.Overview? ==>
      && v.selection == Chosen(flags, tables, |Labels|)
      && |v.selection| > 0
      && v.common == CommonEmails(v.selection)
      && |v.stats| == |v.selection|
      && (forall k :: 0 <= k < |v.selection| ==> v.stats[k] == StatOf(v.selection[k], v.common))
      && v.merged == Merged(v.selection, v.common)
      && |v.uniques| == |v.selection|
      && (forall k :: 0 <= k < |v.selection| ==>
            v.uniques[k] == Category(v.selection[k].title, OutsideRows(v.selection[k].table, v.common)))
  {
    var sel := BuildSelection(flags, tables);
    SelectionEmpty(flags, tables);
    if sel == [] {
      return Prompt;
    }
    var common := Intersection(sel);
    var stats := Statistics(sel, common);
    var merged := MergedTable(sel, common);
    var uniques := UniqueTables(sel, common);
    v := Overview(sel, common, stats, merged, uniques);
  }
}
