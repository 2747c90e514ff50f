/**
 * The output rows [name, result, code, title] and the two list operations
 * applied to them: the stable sort by (name, title) and the filter that
 * keeps the rows whose title is a target.
 */
module Rows {
  import opened Options
  import opened Text

  /** One output row [name, result, code, title]; the name is None for a
      document without a page footer. */
  datatype Row = Row(name: Option<string>, result: string, code: string, title: string)

  /** The sort key (row[0], row[3]). */
  function KeyOf(r: Row): (key: (Option<string>, string))
  {
    (r.name, r.title)
  }

  /** Both names are strings or both are None: the only pairs of keys whose
      comparison does not raise TypeError. */
  predicate SameKind(a: Row, b: Row) {
    a.name.None? == b.name.None?
  }

  /** Python's tuple order on keys: equal names compare by title, different
      names by name. Two None names are equal; a None name and a string name
      are never ordered (Python raises instead). */
  predicate KeyLess(a: Row, b: Row) {
    if a.name == b.name then LexLess(a.title, b.title)
    else a.name.Some? && b.name.Some? && LexLess(a.name.value, b.name.value)
  }

  lemma KeyIrreflexive(a: Row)
    ensures !KeyLess(a, a)
  {
    LexIrreflexive(a.title);
  }

  /** Rows one below the other have different keys. */
  lemma KeyLessKeys(a: Row, b: Row)
    requires KeyLess(a, b)
    ensures KeyOf(a) != KeyOf(b)
  {
    LexIrreflexive(a.title);
  }

  lemma KeyTransitive(a: Row, b: Row, c: Row)
    requires KeyLess(a, b) && KeyLess(b, c)
    ensures KeyLess(a, c)
  {
    if a.name == b.name && b.name == c.name {
      LexTransitive(a.title, b.title, c.title);
    } else if a.name != b.name && b.name != c.name {
      LexTransitive(a.name.value, b.name.value, c.name.value);
      LexIrreflexive(a.name.value);
    }
  }

  lemma KeyAsymmetric(a: Row, b: Row)
    requires KeyLess(a, b)
    ensures !KeyLess(b, a)
  {
    if a.name == b.name {
      LexAsymmetric(a.title, b.title);
    } else {
      LexAsymmetric(a.name.value, b.name.value);
    }
  }

  /** Two rows of the same kind are ordered one way or the other, or have
      the same key. */
  lemma KeyTotal(a: Row, b: Row)
    requires SameKind(a, b)
    ensures KeyLess(a, b) || KeyLess(b, a) || KeyOf(a) == KeyOf(b)
  {
    if a.name == b.name {
      if a.title != b.title {
        LexTotal(a.title, b.title);
      }
    } else {
      LexTotal(a.name.value, b.name.value);
    }
  }

  /** Not below is transitive among rows of one kind. */
  lemma KeyNotLessTransitive(a: Row, b: Row, c: Row)
    requires SameKind(a, b) && SameKind(b, c)
    requires !KeyLess(a, b) && !KeyLess(b, c)
    ensures !KeyLess(a, c)
  {
    KeyTotal(a, b);
    KeyTotal(b, c);
    if KeyLess(b, a) && KeyLess(c, b) {
      KeyTransitive(c, b, a);
      KeyAsymmetric(c, a);
    }
  }

  /** No row is below an earlier one. */
  predicate SortedRows(s: seq<Row>) {
    forall i, j :: 0 <= i < j < |s| ==> !KeyLess(s[j], s[i])
  }

  /** Every name is None (when `none`) or every name is a string. */
  predicate AllOfKind(rows: seq<Row>, none: bool) {
    forall i :: 0 <= i < |rows| ==> rows[i].name.None? == none
  }

  /** The rows can be sorted by (name, title) without a TypeError. */
  predicate UniformNames(rows: seq<Row>) {
    rows == [] || AllOfKind(rows, rows[0].name.None?)
  }

  /** The rows with key `k`, in order. */
  function WithKey(rows: seq<Row>, k: (Option<string>, string)): (same: seq<Row>)
    decreases |rows|
  {
    if rows == [] then []
    else (if KeyOf(rows[0]) == k then [rows[0]] else []) + WithKey(rows[1..], k)
  }

  lemma {:induction false} WithKeyAppend(a: seq<Row>, b: seq<Row>, k: (Option<string>, string))
    ensures WithKey(a + b, k) == WithKey(a, k) + WithKey(b, k)
    decreases |a|
  {
    if a == [] {
      assert a + b == b;
    } else {
      assert (a + b)[1..] == a[1..] + b;
      WithKeyAppend(a[1..], b, k);
    }
  }

  lemma {:induction false} WithKeyMembers(s: seq<Row>, k: (Option<string>, string), x: Row)
    ensures x in WithKey(s, k) <==> x in s && KeyOf(x) == k
    decreases |s|
  {
    if s != [] {
      WithKeyMembers(s[1..], k, x);
      assert s == [s[0]] + s[1..];
    }
  }

  lemma {:induction false} WithKeyCount(s: seq<Row>, k: (Option<string>, string), x: Row)
    ensures multiset(WithKey(s, k))[x] == if KeyOf(x) == k then multiset(s)[x] else 0
    decreases |s|
  {
    if s != [] {
      WithKeyCount(s[1..], k, x);
      assert s == [s[0]] + s[1..];
    }
  }

  lemma {:induction false} WithKeyAbsent(s: seq<Row>, k: (Option<string>, string))
    requires forall i :: 0 <= i < |s| ==> KeyOf(s[i]) != k
    ensures WithKey(s, k) == []
    decreases |s|
  {
    if s != [] {
      WithKeyAbsent(s[1..], k);
    }
  }

  /** `out` is `rows` sorted by key, and rows with equal keys keep their
      relative order (a stable sort). */
  ghost predicate IsStableSortOf(out: seq<Row>, rows: seq<Row>) {
    SortedRows(out) && forall k :: WithKey(out, k) == WithKey(rows, k)
  }

  /** Keeping every key's rows in order keeps every row: a stable sort is a
      permutation. */
  lemma SameKeyRowsPermutation(a: seq<Row>, b: seq<Row>)
    requires forall k :: WithKey(a, k) == WithKey(b, k)
    ensures multiset(a) == multiset(b)
  {
    forall x ensures multiset(a)[x] == multiset(b)[x] {
      WithKeyCount(a, KeyOf(x), x);
      WithKeyCount(b, KeyOf(x), x);
    }
  }

  lemma WithKeyFirst(s: seq<Row>)
    ensures s != [] ==> WithKey(s, KeyOf(s[0])) != []
  {
  }

  lemma SortedFirstIsLeast(s: seq<Row>, z: Row)
    requires SortedRows(s) && z in s
    ensures !KeyLess(z, s[0])
  {
    var j :| 0 <= j < |s| && s[j] == z;
    if j == 0 {
      KeyIrreflexive(z);
    }
  }

  /** A stable sort has one possible result: any two sorted lists holding
      the same rows per key in the same order are equal. Python's list.sort
      is stable, so it produces what SortRows produces. */
  lemma {:induction false} StableSortUnique(a: seq<Row>, b: seq<Row>)
    requires SortedRows(a) && SortedRows(b) && UniformNames(a)
    requires forall k :: WithKey(a, k) == WithKey(b, k)
    ensures a == b
    decreases |a|
  {
    WithKeyFirst(a);
    WithKeyFirst(b);
    assert a == [] <==> b == [];
    if a != [] {
      SortedHeadsEqual(a, b);
      SameKeysTails(a, b);
      assert a[1..] == [] || a[1..][0] == a[1];
      StableSortUnique(a[1..], b[1..]);
      assert a == [a[0]] + a[1..] && b == [b[0]] + b[1..];
    }
  }

  /** Two such lists begin with the same row. */
  lemma SortedHeadsEqual(a: seq<Row>, b: seq<Row>)
    requires a != [] && b != []
    requires SortedRows(a) && SortedRows(b) && UniformNames(a)
    requires forall k :: WithKey(a, k) == WithKey(b, k)
    ensures a[0] == b[0]
  {
    var x, y := a[0], b[0];
    WithKeyMembers(b, KeyOf(x), x);
    WithKeyMembers(a, KeyOf(y), y);
    SortedFirstIsLeast(b, x);
    SortedFirstIsLeast(a, y);
    var i :| 0 <= i < |a| && a[i] == y;
    KeyTotal(x, y);
    var key := KeyOf(x);
    assert KeyOf(y) == key;
    var wa, wb := WithKey(a, key), WithKey(b, key);
    assert wa == [x] + WithKey(a[1..], key);
    assert wb == [y] + WithKey(b[1..], key);
    assert wa == wb;
    assert x == wa[0] == wb[0] == y;
  }

  /** Dropping the same first row keeps every key's rows equal. */
  lemma SameKeysTails(a: seq<Row>, b: seq<Row>)
    requires a != [] && b != [] && a[0] == b[0]
    requires forall k :: WithKey(a, k) == WithKey(b, k)
    ensures forall k :: WithKey(a[1..], k) == WithKey(b[1..], k)
  {
    forall k ensures WithKey(a[1..], k) == WithKey(b[1..], k) {
      var head := if KeyOf(a[0]) == k then [a[0]] else [];
      assert WithKey(a, k) == head + WithKey(a[1..], k);
      assert WithKey(b, k) == head + WithKey(b[1..], k);
      assert (head + WithKey(a[1..], k))[|head|..] == WithKey(a[1..], k);
      assert (head + WithKey(b[1..], k))[|head|..] == WithKey(b[1..], k);
    }
  }

  /** Putting `x` after the rows not above it and before the rows above it
      keeps the list sorted. */
  lemma InsertRowSorted(out: seq<Row>, x: Row, p: nat)
    requires SortedRows(out) && AllOfKind(out, x.name.None?) && p <= |out|
    requires forall k :: p <= k < |out| ==> KeyLess(x, out[k])
    requires p == 0 || !KeyLess(x, out[p - 1])
    ensures SortedRows(out[..p] + [x] + out[p..])
    ensures AllOfKind(out[..p] + [x] + out[p..], x.name.None?)
  {
    var r := out[..p] + [x] + out[p..];
    assert forall k :: 0 <= k < p ==> r[k] == out[k];
    assert r[p] == x;
    assert forall k :: p < k < |r| ==> r[k] == out[k - 1];
    forall k | 0 <= k < p ensures !KeyLess(x, out[k]) {
      if k < p - 1 {
        KeyNotLessTransitive(x, out[p - 1], out[k]);
      }
    }
    forall k | p <= k < |out| ensures !KeyLess(out[k], x) {
      KeyAsymmetric(x, out[k]);
    }
    forall i, j | 0 <= i < j < |r| ensures !KeyLess(r[j], r[i]) {
      if j < p {
        assert !KeyLess(out[j], out[i]);
      } else if j == p {
      } else if i < p {
        assert !KeyLess(out[j - 1], out[i]);
      } else if i == p {
      } else {
        assert !KeyLess(out[j - 1], out[i - 1]);
      }
    }
  }

  lemma InsertRowKeySame(before: seq<Row>, x: Row, after: seq<Row>)
    requires WithKey(after, KeyOf(x)) == []
    ensures WithKey(before + [x] + after, KeyOf(x)) == WithKey(before + after, KeyOf(x)) + [x]
  {
    var k := KeyOf(x);
    WithKeyAppend(before + [x], after, k);
    WithKeyAppend(before, [x], k);
    WithKeyAppend(before, after, k);
    assert WithKey([x], k) == [x];
    assert WithKey(before + after, k) == WithKey(before, k) + [];
  }

  lemma InsertRowKeyOther(before: seq<Row>, x: Row, after: seq<Row>, k: (Option<string>, string))
    requires KeyOf(x) != k
    ensures WithKey(before + [x] + after, k) == WithKey(before + after, k)
  {
    WithKeyAppend(before + [x], after, k);
    WithKeyAppend(before, [x], k);
    WithKeyAppend(before, after, k);
    assert WithKey([x], k) == [];
    assert WithKey(before + [x], k) == WithKey(before, k) + [];
  }

  lemma InsertRowKey(before: seq<Row>, x: Row, after: seq<Row>, k: (Option<string>, string))
    requires WithKey(after, KeyOf(x)) == []
    ensures WithKey(before + [x] + after, k) == WithKey(before + after, k) + WithKey([x], k)
  {
    if KeyOf(x) == k {
      InsertRowKeySame(before, x, after);
      assert WithKey([x], k) == [x];
    } else {
      InsertRowKeyOther(before, x, after, k);
      assert WithKey([x], k) == [];
      assert WithKey(before + after, k) + [] == WithKey(before + after, k);
    }
  }

  /** The insertion adds `x` after the rows with its key and changes no
      other key's rows. */
  lemma InsertRowKeys(out: seq<Row>, x: Row, p: nat)
    requires p <= |out|
    requires forall k :: p <= k < |out| ==> KeyLess(x, out[k])
    ensures forall k :: WithKey(out[..p] + [x] + out[p..], k) == WithKey(out, k) + WithKey([x], k)
  {
    var before, after := out[..p], out[p..];
    assert out == before + after;
    forall i | 0 <= i < |after| ensures KeyOf(after[i]) != KeyOf(x) {
      KeyLessKeys(x, after[i]);
    }
    WithKeyAbsent(after, KeyOf(x));
    forall k ensures WithKey(before + [x] + after, k) == WithKey(out, k) + WithKey([x], k) {
      InsertRowKey(before, x, after, k);
    }
  }

  /** One step of the sort: inserts `x` after every row not above it. */
  method InsertRow(out: seq<Row>, x: Row) returns (r: seq<Row>)
    requires SortedRows(out) && AllOfKind(out, x.name.None?)
    ensures SortedRows(r) && AllOfKind(r, x.name.None?)
    ensures forall k :: WithKey(r, k) == WithKey(out, k) + WithKey([x], k)
  {
    var p := |out|;
    while p > 0 && KeyLess(x, out[p - 1])
      invariant 0 <= p <= |out|
      invariant forall k :: p <= k < |out| ==> KeyLess(x, out[k])
    {
      p := p - 1;
    }
    InsertRowSorted(out, x, p);
    InsertRowKeys(out, x, p);
    r := out[..p] + [x] + out[p..];
  }

  /** output_data.sort(key=lambda x: (x[0], x[3])) on rows whose names can
      be compared. */
  method SortRows(rows: seq<Row>) returns (out: seq<Row>)
    requires UniformNames(rows)
    ensures IsStableSortOf(out, rows)
    ensures multiset(out) == multiset(rows)
  {
    var none := rows != [] && rows[0].name.None?;
    out := [];
    for i := 0 to |rows|
      invariant SortedRows(out) && AllOfKind(out, none)
      invariant forall k :: WithKey(out, k) == WithKey(rows[..i], k)
    {
      out := InsertRow(out, rows[i]);
      assert rows[..i + 1] == rows[..i] + [rows[i]];
      forall k ensures WithKey(rows[..i + 1], k) == WithKey(rows[..i], k) + WithKey([rows[i]], k) {
        WithKeyAppend(rows[..i], [rows[i]], k);
      }
    }
    assert rows[..|rows|] == rows;
    SameKeyRowsPermutation(out, rows);
  }

  // ---------------------------------------------------------------------
  // The target filter

  /** The rows whose title (row[3]) is a target, in order. */
  function Kept(rows: seq<Row>, targets: set<string>): (kept: seq<Row>)
    decreases |rows|
  {
    if rows == [] then []
    else
      var last := rows[|rows| - 1];
      Kept(rows[..|rows| - 1], targets) + (if last.title in targets then [last] else [])
  }

  /** The positions of those rows. */
  function TargetPositions(rows: seq<Row>, targets: set<string>): (pos: seq<nat>)
    decreases |rows|
  {
    if rows == [] then []
    else
      var n := |rows| - 1;
      TargetPositions(rows[..n], targets) + (if rows[n].title in targets then [n] else [])
  }

  /** `a` is `b` read at the strictly increasing positions `pos`. */
  predicate IsSelection(a: seq<Row>, b: seq<Row>, pos: seq<nat>) {
    |pos| == |a|
    && (forall k :: 0 <= k < |a| ==> pos[k] < |b| && a[k] == b[pos[k]])
    && (forall k, k' :: 0 <= k < k' < |pos| ==> pos[k] < pos[k'])
  }

  /** A selection from a prefix is a selection from the whole list, and
      picking the next row extends it. */
  lemma SelectionGrow(a: seq<Row>, rows: seq<Row>, pos: seq<nat>, n: nat)
    requires n < |rows| && IsSelection(a, rows[..n], pos)
    ensures IsSelection(a, rows, pos)
    ensures IsSelection(a + [rows[n]], rows, pos + [n])
  {
    assert forall k :: 0 <= k < |a| ==> rows[..n][pos[k]] == rows[pos[k]];
    var a', pos' := a + [rows[n]], pos + [n];
    assert forall k :: 0 <= k < |a| ==> a'[k] == a[k] && pos'[k] == pos[k];
  }

  /** A position is listed exactly when its row's title is a target. */
  lemma {:induction false} TargetPositionsMembers(rows: seq<Row>, targets: set<string>)
    ensures forall k :: k in TargetPositions(rows, targets) ==> k < |rows|
    ensures forall i :: 0 <= i < |rows| ==> (i in TargetPositions(rows, targets) <==> rows[i].title in targets)
    decreases |rows|
  {
    if rows != [] {
      var n := |rows| - 1;
      TargetPositionsMembers(rows[..n], targets);
      assert forall i :: 0 <= i < n ==> rows[..n][i] == rows[i];
    }
  }

  /** The filter's result is the list read at exactly the positions whose
      title is a target: an order-preserving subsequence that misses no
      target row. */
  lemma {:induction false} KeptIsSelection(rows: seq<Row>, targets: set<string>)
    ensures IsSelection(Kept(rows, targets), rows, TargetPositions(rows, targets))
    ensures forall i :: 0 <= i < |rows| ==> (i in TargetPositions(rows, targets) <==> rows[i].title in targets)
    decreases |rows|
  {
    TargetPositionsMembers(rows, targets);
    if rows != [] {
      var n := |rows| - 1;
      KeptIsSelection(rows[..n], targets);
      SelectionGrow(Kept(rows[..n], targets), rows, TargetPositions(rows[..n], targets), n);
    }
  }

  /** A row is kept exactly when it is in the list with a target title. */
  lemma {:induction false} KeptMembers(rows: seq<Row>, targets: set<string>, x: Row)
    ensures x in Kept(rows, targets) <==> x in rows && x.title in targets
    decreases |rows|
  {
    if rows != [] {
      var n := |rows| - 1;
      KeptMembers(rows[..n], targets, x);
      assert rows == rows[..n] + [rows[n]];
    }
  }

  /** A kept row is kept as many times as it occurs. */
  lemma {:induction false} KeptCount(rows: seq<Row>, targets: set<string>, x: Row)
    ensures multiset(Kept(rows, targets))[x] == if x.title in targets then multiset(rows)[x] else 0
    decreases |rows|
  {
    if rows != [] {
      var n := |rows| - 1;
      KeptCount(rows[..n], targets, x);
      assert rows == rows[..n] + [rows[n]];
    }
  }

  /** __filter_data with the target list read once. */
  method FilterRows(rows: seq<Row>, targets: seq<string>) returns (filtered: seq<Row>)
    ensures filtered == Kept(rows, set t | t in targets)
  {
    ghost var chosen := set t | t in targets;
    filtered := [];
    for i := 0 to |rows|
      invariant filtered == Kept(rows[..i], chosen)
    {
      assert rows[..i + 1][..i] == rows[..i];
      if rows[i].title in targets {
        filtered := filtered + [rows[i]];
      }
    }
    assert rows[..|rows|] == rows;
  }

  // ---------------------------------------------------------------------
  // Examples: two documents' rows sorted by name; five rows filtered

  const Alice: Row := Row(Some("Alice"), "Pass", "MTH101", "Calculus")
  const Bob: Row := Row(Some("Bob"), "Fail", "ENG200", "Literature")

  lemma AliceBeforeBob()
    ensures KeyLess(Alice, Bob) && !KeyLess(Bob, Alice)
  {
    assert "Alice"[0] == 'A' && "Bob"[0] == 'B';
  }

  /** Bob's rows come first from the documents, Alice's first in the report. */
  lemma SortExample(out: seq<Row>)
    requires IsStableSortOf(out, [Bob, Alice])
    ensures out == [Alice, Bob]
  {
    AliceBeforeBob();
    var want := [Alice, Bob];
    assert SortedRows(want);
    forall k ensures WithKey(want, k) == WithKey([Bob, Alice], k) {
      assert [Alice, Bob][1..] == [Bob] && [Bob, Alice][1..] == [Alice];
      assert KeyOf(Alice) != KeyOf(Bob);
    }
    StableSortUnique(want, out);
  }

  function Course5(t: string): Row {
    Row(Some("Alice"), "Pass", "C", t)
  }

  /** Two of five titles are targets: exactly those two rows are kept, in order. */
  lemma FilterExample()
    ensures Kept([Course5("A"), Course5("B"), Course5("C"), Course5("D"), Course5("E")], {"B", "D"})
      == [Course5("B"), Course5("D")]
  {
    var rows := [Course5("A"), Course5("B"), Course5("C"), Course5("D"), Course5("E")];
    var t := {"B", "D"};
    assert rows[..4] == [Course5("A"), Course5("B"), Course5("C"), Course5("D")];
    assert rows[..4][..3] == [Course5("A"), Course5("B"), Course5("C")];
    assert rows[..4][..3][..2] == [Course5("A"), Course5("B")];
    assert rows[..4][..3][..2][..1] == [Course5("A")];
    assert Kept([Course5("A")], t) == [];
    assert Kept([Course5("A"), Course5("B")], t) == [Course5("B")];
    assert Kept([Course5("A"), Course5("B"), Course5("C")], t) == [Course5("B")];
    assert Kept(rows[..4], t) == [Course5("B"), Course5("D")];
  }
}
