/** The table operations the dashboard script performs on its engagement tables:
    the set of distinct emails, the `isin` filter and its complement, and the
    inner merge on the pair (Email, Name). */
module Tables {

  /** One record of an engagement table. `email` is the identity column, `name` the
      display column; every other column of the CSV file is kept in `extra`. */
  datatype Row = Row(email: string, name: string, extra: map<string, string>)

  type Table = seq<Row>

  /** The join key of the merge: the pair (Email, Name). */
  function Key(r: Row): (string, string)
  {
    (r.email, r.name)
  }

  /** The distinct join keys of a table. */
  function Keys(t: Table): set<(string, string)>
  {
    set r | r in t :: Key(r)
  }

  /** The distinct values of the Email column: every row's email is among them, and
      their number, the script's distinct-email count, never exceeds the number of rows. */
  function Emails(t: Table): (es: set<string>)
    ensures forall i :: 0 <= i < |t| ==> t[i].email in es
    ensures |es| <= |t|
  {
    EmailColumnBound(t);
    set r | r in t :: r.email
  }

  /** The Email column of a table has at most as many distinct values as the table has rows. */
  lemma {:induction false} EmailColumnBound(t: Table)
    ensures |set r | r in t :: r.email| <= |t|
    decreases |t|
  {
    if t != [] {
      var n := |t| - 1;
      EmailColumnBound(t[..n]);
      assert t == t[..n] + [t[n]];
      assert (set r | r in t :: r.email) == (set r | r in t[..n] :: r.email) + {t[n].email};
    }
  }

  /** No email occurs on two rows of the table. */
  ghost predicate DistinctEmails(t: Table)
  {
    forall i, j :: 0 <= i < j < |t| ==> t[i].email != t[j].email
  }

  /** The membership filter: the rows whose email is in `common`, in table order. */
  function InsideRows(t: Table, common: set<string>): (r: Table)
    ensures forall x :: x in r <==> x in t && x.email in common
    ensures |r| <= |t|
  {
    if t == [] then []
    else (if t[0].email in common then [t[0]] else []) + InsideRows(t[1..], common)
  }

  /** The negated membership filter: the rows whose email is not in `common`, in table order. */
  function OutsideRows(t: Table, common: set<string>): (r: Table)
    ensures forall x :: x in r <==> x in t && x.email !in common
    ensures |r| <= |t|
  {
    if t == [] then []
    else (if t[0].email in common then [] else [t[0]]) + OutsideRows(t[1..], common)
  }

  /** Both filters distribute over concatenation: each keeps the rows it selects in
      their original order. */
  lemma {:induction false} FiltersKeepOrder(a: Table, b: Table, common: set<string>)
    ensures InsideRows(a + b, common) == InsideRows(a, common) + InsideRows(b, common)
    ensures OutsideRows(a + b, common) == OutsideRows(a, common) + OutsideRows(b, common)
  {
    if a != [] {
      assert (a + b)[0] == a[0];
      assert (a + b)[1..] == a[1..] + b;
      FiltersKeepOrder(a[1..], b, common);
      var hi := if a[0].email in common then [a[0]] else [];
      var ho := if a[0].email in common then [] else [a[0]];
      assert InsideRows(a, common) == hi + InsideRows(a[1..], common);
      assert OutsideRows(a, common) == ho + OutsideRows(a[1..], common);
      assert InsideRows(a + b, common) == hi + (InsideRows(a[1..], common) + InsideRows(b, common));
      assert OutsideRows(a + b, common) == ho + (OutsideRows(a[1..], common) + OutsideRows(b, common));
    } else {
      assert a + b == b;
    }
  }

  /** The inside rows and the outside rows together are exactly the rows of the table. */
  lemma {:induction false} FiltersPartition(t: Table, common: set<string>)
    ensures multiset(InsideRows(t, common)) + multiset(OutsideRows(t, common)) == multiset(t)
    ensures |InsideRows(t, common)| + |OutsideRows(t, common)| == |t|
  {
    if t != [] {
      FiltersPartition(t[1..], common);
      assert t == [t[0]] + t[1..];
    }
  }

  /** When every email of the table is in `common`, the inside filter keeps the whole
      table and the outside filter keeps nothing. */
  lemma {:induction false} AllInside(t: Table, common: set<string>)
    requires Emails(t) <= common
    ensures InsideRows(t, common) == t
    ensures OutsideRows(t, common) == []
  {
    if t != [] {
      assert t[0] in t;
      assert Emails(t[1..]) <= Emails(t) by {
        forall e | e in Emails(t[1..]) ensures e in Emails(t) {
          var r :| r in t[1..] && r.email == e;
          assert r in t;
        }
      }
      AllInside(t[1..], common);
      assert t == [t[0]] + t[1..];
    }
  }

  /** When no email of the table is in `common`, the outside filter keeps the whole
      table and the inside filter keeps nothing. */
  lemma {:induction false} NoneInside(t: Table, common: set<string>)
    requires Emails(t) !! common
    ensures OutsideRows(t, common) == t
    ensures InsideRows(t, common) == []
  {
    if t != [] {
      assert t[0] in t;
      assert Emails(t[1..]) <= Emails(t) by {
        forall e | e in Emails(t[1..]) ensures e in Emails(t) {
          var r :| r in t[1..] && r.email == e;
          assert r in t;
        }
      }
      NoneInside(t[1..], common);
      assert t == [t[0]] + t[1..];
    }
  }

  /** The positions of the table whose email is in `common`. */
  ghost function InsidePositions(t: Table, common: set<string>): set<int>
  {
    set i | 0 <= i < |t| && t[i].email in common
  }

  lemma InsidePositionsSnoc(front: Table, x: Row, common: set<string>)
    ensures |InsidePositions(front + [x], common)| ==
      |InsidePositions(front, common)| + (if x.email in common then 1 else 0)
  {
    var t := front + [x];
    var last: set<int> := if x.email in common then {|front|} else {};
    assert forall i :: 0 <= i < |front| ==> t[i] == front[i];
    assert t[|front|] == x;
    assert InsidePositions(t, common) == InsidePositions(front, common) + last;
    assert |front| !in InsidePositions(front, common);
  }

  lemma InsideRowsSnoc(front: Table, x: Row, common: set<string>)
    ensures |InsideRows(front + [x], common)| ==
      |InsideRows(front, common)| + (if x.email in common then 1 else 0)
  {
    FiltersKeepOrder(front, [x], common);
    assert InsideRows([x], common) == (if x.email in common then [x] else []) + InsideRows([], common);
  }

  /** The number of rows kept by the inside filter is the number of positions of the
      table whose email is in `common`: rows are counted, not distinct emails. */
  lemma {:induction false} InsideCountsPositions(t: Table, common: set<string>)
    ensures |InsideRows(t, common)| == |InsidePositions(t, common)|
    decreases |t|
  {
    if t != [] {
      var n := |t| - 1;
      InsideCountsPositions(t[..n], common);
      assert t == t[..n] + [t[n]];
      InsideRowsSnoc(t[..n], t[n], common);
      InsidePositionsSnoc(t[..n], t[n], common);
    } else {
      assert InsidePositions(t, common) == {};
    }
  }

  /** The emails of the inside rows are exactly the table's emails that are in `common`;
      so there are at least as many inside rows as such emails. */
  lemma EmailsOfInside(t: Table, common: set<string>)
    ensures Emails(InsideRows(t, common)) == Emails(t) * common
    ensures |Emails(t) * common| <= |InsideRows(t, common)|
  {
    var ins := InsideRows(t, common);
    forall e | e in Emails(t) * common ensures e in Emails(ins) {
      var r :| r in t && r.email == e;
      assert r in ins;
    }
  }

  /** Without duplicate emails the table has exactly as many distinct emails as rows. */
  lemma {:induction false} DistinctEmailsCount(t: Table)
    requires DistinctEmails(t)
    ensures |Emails(t)| == |t|
    decreases |t|
  {
    if t != [] {
      var n := |t| - 1;
      var front := t[..n];
      assert DistinctEmails(front);
      DistinctEmailsCount(front);
      assert t == front + [t[n]];
      assert Emails(t) == Emails(front) + {t[n].email};
      forall i | 0 <= i < |front| ensures front[i].email != t[n].email {
        assert front[i] == t[i];
      }
      assert t[n].email !in Emails(front);
    }
  }

  /** The merged row of a left row and a right row that agree on (Email, Name): the key
      columns of the left row once, and one value for every other column name of either
      row, the left row's value where both rows have that column. */
  function Combine(l: Row, m: Row): (r: Row)
    ensures Key(r) == Key(l)
    ensures r.extra.Keys == l.extra.Keys + m.extra.Keys
    ensures forall col :: col in l.extra ==> r.extra[col] == l.extra[col]
    ensures forall col :: col in m.extra && col !in l.extra ==> r.extra[col] == m.extra[col]
  {
    Row(l.email, l.name, m.extra + l.extra)
  }

  /** The rows an inner merge produces from one left row: one per matching right row,
      in the right table's order. */
  function Matches(l: Row, right: Table): (r: Table)
    ensures forall x :: x in r <==> exists m :: m in right && Key(m) == Key(l) && x == Combine(l, m)
  {
    if right == [] then []
    else
      var rest := Matches(l, right[1..]);
      assert forall m :: m in right[1..] ==> m in right;
      assert forall m :: m in right ==> m == right[0] || m in right[1..];
      (if Key(right[0]) == Key(l) then [Combine(l, right[0])] else []) + rest
  }

  /** The inner merge on (Email, Name): every pair of a left and
      a right row with the same key, ordered by the left row first. */
  function Join(left: Table, right: Table): (r: Table)
    ensures forall x :: x in r <==>
      exists l, m :: l in left && m in right && Key(l) == Key(m) && x == Combine(l, m)
  {
    if left == [] then []
    else
      var rest := Join(left[1..], right);
      assert forall l :: l in left[1..] ==> l in left;
      assert forall l :: l in left ==> l == left[0] || l in left[1..];
      Matches(left[0], right) + rest
  }

  /** A key survives the inner merge exactly when it occurs on both sides. */
  lemma JoinKeys(left: Table, right: Table)
    ensures Keys(Join(left, right)) == Keys(left) * Keys(right)
  {
    var j := Join(left, right);
    forall k | k in Keys(j) ensures k in Keys(left) && k in Keys(right) {
      var x :| x in j && Key(x) == k;
      var l, m :| l in left && m in right && Key(l) == Key(m) && x == Combine(l, m);
      assert Key(x) == Key(l);
    }
    forall k | k in Keys(left) && k in Keys(right) ensures k in Keys(j) {
      var l :| l in left && Key(l) == k;
      var m :| m in right && Key(m) == k;
      assert Combine(l, m) in j;
      assert Key(Combine(l, m)) == k;
    }
  }

  /** The inner merge keeps the order of the left table's rows. */
  lemma {:induction false} JoinKeepsLeftOrder(a: Table, b: Table, right: Table)
    ensures Join(a + b, right) == Join(a, right) + Join(b, right)
  {
    if a != [] {
      assert (a + b)[0] == a[0];
      assert (a + b)[1..] == a[1..] + b;
      JoinKeepsLeftOrder(a[1..], b, right);
      assert Join(a, right) == Matches(a[0], right) + Join(a[1..], right);
      assert Join(a + b, right) == Matches(a[0], right) + (Join(a[1..], right) + Join(b, right));
    } else {
      assert a + b == b;
    }
  }
}
