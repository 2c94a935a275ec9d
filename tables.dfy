/**
 * Parsed CSV content, as the stages of the pipeline see it after `csv.reader`:
 * a header row and the data rows, every cell a string. Also the list
 * operations those stages share (`index`, `del`, projection onto indices) and
 * the row-by-row mapping that every stage's row loop performs.
 */
module Tables {
  import opened Wrappers
  import opened Strings

  type Row = seq<string>

  /** A CSV file with at least one line: the first line is the header. */
  datatype Table = Table(header: Row, rows: seq<Row>)

  /** The exceptions the stages raise, which end the stage without a result. */
  datatype Error =
    | MissingColumn(name: string)  // `headers.index(name)` raising ValueError
    | RowTooShort                  // IndexError: a row has no cell at a header's index
    | WrongCellCount               // ValueError: unpacking a row with the wrong number of cells
    | MissingKey(name: string)     // KeyError: a dictionary has no entry for the name
    | ExtraCells                   // DictWriter's ValueError: a row has cells beyond the field names
    | NoneOperand                  // TypeError: a string concatenated with a missing value (`str + None`)

  // ------------------------------------------------------------------ positions

  /** Python's `s.index(x)`: the first position holding `x`, or nothing. */
  function IndexOf<T(==)>(s: seq<T>, x: T): (r: Option<nat>)
    ensures r.Some? ==> r.value < |s| && s[r.value] == x && x !in s[..r.value]
    ensures r.None? <==> x !in s
    decreases |s|
  {
    if |s| == 0 then None
    else if s[0] == x then Some(0)
    else
      match IndexOf(s[1..], x)
      case None => None
      case Some(k) =>
        assert s[..k + 1] == [s[0]] + s[1..][..k];
        Some(k + 1)
  }

  /** A position holding `x` with no `x` before it is the one `IndexOf` finds. */
  lemma IndexOfIs<T>(s: seq<T>, x: T, k: nat)
    requires k < |s| && s[k] == x
    requires forall c | 0 <= c < k :: s[c] != x
    ensures IndexOf(s, x) == Some(k)
  {
    assert s[k] in s;
    var f := IndexOf(s, x).value;
    assert forall c | 0 <= c < f :: s[c] in s[..f];
  }

  /** No position before the first `x` holds `x`. */
  lemma IndexOfBefore<T>(s: seq<T>, x: T, k: nat)
    requires IndexOf(s, x) == Some(k)
    ensures forall c | 0 <= c < k :: s[c] != x
  {
    assert forall c | 0 <= c < k :: s[c] == s[..k][c];
  }

  /** A name absent from the front of a list is found at its place in the back, shifted. */
  lemma IndexOfAfter<T>(s: seq<T>, t: seq<T>, x: T)
    requires x !in s && x in t
    ensures IndexOf(s + t, x) == Some(|s| + IndexOf(t, x).value)
  {
    var k := IndexOf(t, x).value;
    IndexOfBefore(t, x, k);
    var u := s + t;
    assert u[|s| + k] == t[k];
    assert forall c | 0 <= c < |s| :: u[c] == s[c] && s[c] in s;
    assert forall c | |s| <= c < |s| + k :: u[c] == t[c - |s|];
    IndexOfIs(u, x, |s| + k);
  }

  /** `IndexOf` as a stage uses it: a missing name raises `ValueError`. */
  function ColumnIndex(header: Row, name: string): (r: Result<nat, Error>)
    ensures r.Ok? <==> name in header
    ensures r.Ok? ==> r.value < |header| && header[r.value] == name && name !in header[..r.value]
    ensures r.Err? ==> r.error == MissingColumn(name)
  {
    match IndexOf(header, name)
    case Some(k) => Ok(k)
    case None => Err(MissingColumn(name))
  }

  /** Two lists holding `x` at the same positions have the same first `x`. */
  lemma IndexOfSamePositions<T>(s: seq<T>, t: seq<T>, x: T)
    requires |s| == |t| && forall i | 0 <= i < |s| :: (s[i] == x <==> t[i] == x)
    ensures IndexOf(s, x) == IndexOf(t, x)
  {
    if x in s {
      var k := IndexOf(s, x).value;
      assert forall c | 0 <= c < k :: s[c] in s[..k];
      IndexOfIs(t, x, k);
    } else {
      assert forall i | 0 <= i < |t| :: t[i] != x;
    }
  }

  /** Overwriting a cell that neither held nor receives `x` leaves the first `x` where it was. */
  lemma UpdateKeepsIndex<T>(s: seq<T>, k: nat, v: T, x: T)
    requires k < |s| && s[k] != x && v != x
    ensures IndexOf(s[k := v], x) == IndexOf(s, x)
    ensures x in s[k := v] <==> x in s
  {
    IndexOfSamePositions(s[k := v], s, x);
  }

  /** `s[s.index(name)] = value`: the first `name` overwritten; `ValueError` when there is none. */
  function AssignAt(s: Row, name: string, value: string): (r: Result<Row, Error>)
    ensures r.Ok? <==> name in s
    ensures r.Err? ==> r.error == MissingColumn(name)
    ensures r.Ok? ==> r.value == s[IndexOf(s, name).value := value]
  {
    match IndexOf(s, name)
    case None => Err(MissingColumn(name))
    case Some(k) => Ok(s[k := value])
  }

  /**
   * `s[s.index(names[k])] = values[k]` for each `k` in turn; the first name that
   * is missing raises `ValueError`.
   */
  function AssignAll(s: Row, names: seq<string>, values: seq<string>): (r: Result<Row, Error>)
    requires |names| == |values|
    ensures r.Ok? ==> |r.value| == |s|
    decreases |names|
  {
    if names == [] then Ok(s)
    else
      match AssignAt(s, names[0], values[0])
      case Err(e) => Err(e)
      case Ok(s1) => AssignAll(s1, names[1..], values[1..])
  }

  /** The names are pairwise distinct and no value is one of them. */
  predicate FreshRenaming(names: seq<string>, values: seq<string>) {
    && |names| == |values|
    && (forall a, b | 0 <= a < b < |names| :: names[a] != names[b])
    && (forall a, b | 0 <= a < |values| && 0 <= b < |names| :: values[a] != names[b])
  }

  /** The assignments succeed exactly when every name is present; otherwise the first missing one is reported. */
  lemma {:induction false} AssignAllOutcome(s: Row, names: seq<string>, values: seq<string>)
    requires FreshRenaming(names, values)
    ensures AssignAll(s, names, values).Ok? <==> forall k | 0 <= k < |names| :: names[k] in s
    ensures AssignAll(s, names, values).Err? ==> exists k | 0 <= k < |names| ::
      && AssignAll(s, names, values).error == MissingColumn(names[k])
      && names[k] !in s
      && forall m | 0 <= m < k :: names[m] in s
    decreases |names|
  {
    if names != [] && names[0] in s {
      var p := IndexOf(s, names[0]).value;
      var s1 := s[p := values[0]];
      forall m | 1 <= m < |names| ensures names[m] in s1 <==> names[m] in s {
        UpdateKeepsIndex(s, p, values[0], names[m]);
      }
      AssignAllOutcome(s1, names[1..], values[1..]);
      var r := AssignAll(s, names, values);
      if r.Err? {
        var k :| 0 <= k < |names[1..]| && r.error == MissingColumn(names[1..][k]) && names[1..][k] !in s1
          && forall m | 0 <= m < k :: names[1..][m] in s1;
        assert r.error == MissingColumn(names[k + 1]) && names[k + 1] !in s;
        assert forall m | 0 <= m < k + 1 :: names[m] in s by {
          forall m | 1 <= m < k + 1 ensures names[m] in s {
            assert names[1..][m - 1] in s1;
          }
        }
      }
    }
  }

  /**
   * Where the values go: the first occurrence of each name receives its value, and
   * every other cell (later repeats of a name included) keeps its own.
   */
  lemma {:induction false} AssignAllPositions(s: Row, names: seq<string>, values: seq<string>)
    requires FreshRenaming(names, values) && AssignAll(s, names, values).Ok?
    ensures |AssignAll(s, names, values).value| == |s|
    ensures forall k | 0 <= k < |names| ::
      names[k] in s && AssignAll(s, names, values).value[IndexOf(s, names[k]).value] == values[k]
    ensures forall i | 0 <= i < |s| && (s[i] !in names || IndexOf(s, s[i]) != Some(i)) ::
      AssignAll(s, names, values).value[i] == s[i]
    decreases |names|
  {
    if names != [] {
      var p := IndexOf(s, names[0]).value;
      var s1 := s[p := values[0]];
      var r := AssignAll(s1, names[1..], values[1..]).value;
      forall m | 1 <= m < |names| ensures IndexOf(s1, names[m]) == IndexOf(s, names[m]) {
        UpdateKeepsIndex(s, p, values[0], names[m]);
      }
      assert FreshRenaming(names[1..], values[1..]);
      AssignAllPositions(s1, names[1..], values[1..]);
      assert values[0] !in names[1..];
      forall k | 0 <= k < |names| ensures names[k] in s && r[IndexOf(s, names[k]).value] == values[k] {
        if k > 0 {
          assert names[k] == names[1..][k - 1];
        }
      }
      forall i | 0 <= i < |s| && (s[i] !in names || IndexOf(s, s[i]) != Some(i)) ensures r[i] == s[i] {
        assert i != p;
        if s[i] in names[1..] {
          var m :| 1 <= m < |names| && names[m] == s[i];
          assert IndexOf(s1, s1[i]) != Some(i);
        }
      }
    }
  }

  /**
   * After the assignments each value is found first where its name was, provided
   * the values are distinct and no untouched cell already holds one of them.
   */
  lemma AssignAllFinds(s: Row, names: seq<string>, values: seq<string>, k: nat)
    requires FreshRenaming(names, values) && AssignAll(s, names, values).Ok? && k < |names|
    requires forall a, b | 0 <= a < b < |values| :: values[a] != values[b]
    requires forall i | 0 <= i < |s| && s[i] !in names :: s[i] !in values
    ensures IndexOf(AssignAll(s, names, values).value, values[k]) == IndexOf(s, names[k])
  {
    var c := AssignAll(s, names, values).value;
    AssignAllPositions(s, names, values);
    var p := IndexOf(s, names[k]).value;
    forall j | 0 <= j < p ensures c[j] != values[k] {
      assert s[..p][j] == s[j];
      if s[j] in names && IndexOf(s, s[j]) == Some(j) {
        var m :| 0 <= m < |names| && names[m] == s[j];
        assert m != k && c[j] == values[m];
      }
    }
    IndexOfIs(c, values[k], p);
  }

  /**
   * The setting of the renaming round trip: `h0` is `h` with every cell that is
   * not a name replaced by something that is neither a name nor a value, and
   * assigning `names` to `values` in it succeeds.
   */
  predicate RenamingSetup(h: Row, h0: Row, names: seq<string>, values: seq<string>) {
    && FreshRenaming(names, values) && FreshRenaming(values, names)
    && (forall i | 0 <= i < |h| :: h[i] !in values)
    && |h0| == |h|
    && (forall i | 0 <= i < |h| && h[i] in names :: h0[i] == h[i])
    && (forall i | 0 <= i < |h| && h[i] !in names :: h0[i] !in names && h0[i] !in values)
    && AssignAll(h0, names, values).Ok?
  }

  /** `c0` maps every cell of `c` that is not a value back to the cell of `h` it came from. */
  predicate MapsBack(h: Row, c: Row, c0: Row, values: seq<string>) {
    && |c0| == |c| == |h|
    && (forall i | 0 <= i < |c| && c[i] in values :: c0[i] == c[i])
    && (forall i | 0 <= i < |c| && c[i] !in values :: c0[i] == h[i])
  }

  /** After the round trip's first half each value is found first where its name was. */
  lemma ValueFoundBack(h: Row, h0: Row, c0: Row, names: seq<string>, values: seq<string>, k: nat)
    requires RenamingSetup(h, h0, names, values) && k < |names|
    requires MapsBack(h, AssignAll(h0, names, values).value, c0, values)
    ensures IndexOf(c0, values[k]) == IndexOf(h, names[k])
    ensures names[k] in h && values[k] in c0
  {
    var c := AssignAll(h0, names, values).value;
    AssignAllPositions(h0, names, values);
    assert forall i | 0 <= i < |h0| && h0[i] !in names :: h0[i] !in values;
    AssignAllFinds(h0, names, values, k);
    IndexOfSamePositions(h0, h, names[k]);
    IndexOfSamePositions(c0, c, values[k]);
  }

  /** Renaming back undoes a renaming. */
  lemma AssignAllUndone(h: Row, h0: Row, c0: Row, names: seq<string>, values: seq<string>)
    requires RenamingSetup(h, h0, names, values)
    requires MapsBack(h, AssignAll(h0, names, values).value, c0, values)
    ensures AssignAll(c0, values, names) == Ok(h)
  {
    var c := AssignAll(h0, names, values).value;
    AssignAllPositions(h0, names, values);
    forall k | 0 <= k < |names| ensures IndexOf(c0, values[k]) == IndexOf(h, names[k]) && values[k] in c0 {
      ValueFoundBack(h, h0, c0, names, values, k);
    }
    AssignAllOutcome(c0, values, names);
    assert AssignAll(c0, values, names).Ok?;
    AssignAllPositions(c0, values, names);
    var r := AssignAll(c0, values, names).value;
    forall i | 0 <= i < |h| ensures r[i] == h[i] {
      if c0[i] in values && IndexOf(c0, c0[i]) == Some(i) {
        var k :| 0 <= k < |values| && values[k] == c0[i];
        assert IndexOf(h, names[k]) == Some(i);
      }
    }
    assert r == h;
  }

  /** Python's `del s[k]` (and `s.pop(k)`, `s.remove(s[k])`) on a list long enough. */
  function DeleteAt<T>(s: seq<T>, k: nat): (r: seq<T>)
    requires k < |s|
    ensures |r| == |s| - 1
    ensures forall j | 0 <= j < k :: r[j] == s[j]
    ensures forall j | k <= j < |r| :: r[j] == s[j + 1]
  {
    s[..k] + s[k + 1..]
  }

  /** `del row[k]` on one data row: `IndexError` when the row is too short. */
  function DeleteCell(row: Row, k: nat): (r: Result<Row, Error>)
    ensures r.Ok? <==> k < |row|
    ensures r.Ok? ==> r.value == DeleteAt(row, k)
  {
    if k < |row| then Ok(DeleteAt(row, k)) else Err(RowTooShort)
  }

  /** Every index names a cell of the row. */
  predicate Covers(row: Row, idxs: seq<nat>) {
    forall k | 0 <= k < |idxs| :: idxs[k] < |row|
  }

  /** `[row[i] for i in idxs]`. */
  function Project(row: Row, idxs: seq<nat>): (r: Row)
    requires Covers(row, idxs)
    ensures |r| == |idxs|
    ensures forall k | 0 <= k < |idxs| :: r[k] == row[idxs[k]]
  {
    seq(|idxs|, k requires 0 <= k < |idxs| => row[idxs[k]])
  }

  /** The positions `0 .. n-1` in order. */
  function Positions(n: nat): (r: seq<nat>)
    ensures |r| == n && forall k | 0 <= k < n :: r[k] == k
  {
    seq(n, k requires 0 <= k < n => k as nat)
  }

  /** Projecting onto the first `|row|` positions is the identity. */
  lemma ProjectAll(row: Row)
    ensures Covers(row, Positions(|row|)) && Project(row, Positions(|row|)) == row
  {
  }

  // ------------------------------------------------------------------ row loops

  /**
   * A stage's row loop: each row goes through `f` in order; the first row for which
   * `f` raises stops the stage with that exception.
   */
  function MapRows(rows: seq<Row>, f: Row -> Result<Row, Error>): (r: Result<seq<Row>, Error>)
    ensures r.Ok? ==> |r.value| == |rows|
    ensures r.Ok? ==> forall k | 0 <= k < |rows| :: f(rows[k]) == Ok(r.value[k])
    ensures r.Ok? <==> forall k | 0 <= k < |rows| :: f(rows[k]).Ok?
    ensures r.Err? ==> exists k | 0 <= k < |rows| ::
      f(rows[k]) == Err(r.error) && forall j | 0 <= j < k :: f(rows[j]).Ok?
    decreases |rows|
  {
    if rows == [] then Ok([])
    else
      var front := rows[..|rows| - 1];
      assert forall k | 0 <= k < |front| :: front[k] == rows[k];
      match MapRows(front, f)
      case Err(e) => Err(e)
      case Ok(done) =>
        match f(rows[|rows| - 1])
        case Err(e) => Err(e)
        case Ok(row) => Ok(done + [row])
  }

  /** The loop over one more row: the loop over the others, then that row. */
  lemma MapRowsSnoc(front: seq<Row>, last: Row, f: Row -> Result<Row, Error>)
    ensures MapRows(front + [last], f) ==
      match MapRows(front, f)
      case Err(e) => Err(e)
      case Ok(done) => (match f(last) case Err(e) => Err(e) case Ok(row) => Ok(done + [row]))
  {
    assert (front + [last])[..|front|] == front;
  }

  /** One more successful row extends the output of the loop by that row. */
  lemma MapRowsStep(rows: seq<Row>, f: Row -> Result<Row, Error>, i: nat, out: seq<Row>)
    requires i < |rows| && MapRows(rows[..i], f) == Ok(out) && f(rows[i]).Ok?
    ensures MapRows(rows[..i + 1], f) == Ok(out + [f(rows[i]).value])
  {
    assert rows[..i + 1][..i] == rows[..i];
  }

  /** A row that raises after successful ones decides the outcome of the whole loop. */
  lemma MapRowsStop(rows: seq<Row>, f: Row -> Result<Row, Error>, i: nat, out: seq<Row>)
    requires i < |rows| && MapRows(rows[..i], f) == Ok(out) && f(rows[i]).Err?
    ensures MapRows(rows, f) == Err(f(rows[i]).error)
  {
    assert forall j | 0 <= j < i :: rows[..i][j] == rows[j];
    var r := MapRows(rows, f);
    var k :| 0 <= k < |rows| && f(rows[k]) == Err(r.error) && forall j | 0 <= j < k :: f(rows[j]).Ok?;
    assert k == i;
  }

  /** At the end of the loop the whole input has been mapped. */
  lemma MapRowsDone(rows: seq<Row>)
    ensures rows[..|rows|] == rows
  {
  }

  /** The loop's output is determined row by row. */
  lemma MapRowsIs(rows: seq<Row>, f: Row -> Result<Row, Error>, out: seq<Row>)
    requires |out| == |rows| && forall j | 0 <= j < |rows| :: f(rows[j]) == Ok(out[j])
    ensures MapRows(rows, f) == Ok(out)
  {
    var r := MapRows(rows, f);
    assert r.Ok?;
    assert forall j | 0 <= j < |rows| :: r.value[j] == out[j];
    assert r.value == out;
  }

  /** A row transform that never raises maps every row. */
  lemma MapRowsTotal(rows: seq<Row>, f: Row -> Result<Row, Error>)
    requires forall row :: f(row).Ok?
    ensures MapRows(rows, f).Ok?
  {
  }

  // ------------------------------------------------------------------ line filters

  /** `[x for x in s if keep(x)]`: the elements that pass, in order and unmodified. */
  function Filter<T>(s: seq<T>, keep: T -> bool): (r: seq<T>)
    ensures |r| <= |s|
    decreases |s|
  {
    if s == [] then []
    else Filter(s[..|s| - 1], keep) + (if keep(s[|s| - 1]) then [s[|s| - 1]] else [])
  }

  /** The kept elements are exactly the elements that pass. */
  lemma {:induction false} FilterMembers<T>(s: seq<T>, keep: T -> bool)
    ensures forall x :: x in Filter(s, keep) <==> x in s && keep(x)
    decreases |s|
  {
    if s != [] {
      var front := s[..|s| - 1];
      FilterMembers(front, keep);
      assert forall x :: x in s <==> x in front || x == s[|s| - 1] by {
        assert s == front + [s[|s| - 1]];
      }
    }
  }

  /** Filtering two pieces of a sequence is filtering each piece: order is kept. */
  lemma {:induction false} FilterAppend<T>(a: seq<T>, b: seq<T>, keep: T -> bool)
    ensures Filter(a + b, keep) == Filter(a, keep) + Filter(b, keep)
    decreases |b|
  {
    if b == [] {
      assert a + b == a;
    } else {
      var b' := b[..|b| - 1];
      FilterAppend(a, b', keep);
      assert (a + b)[..|a + b| - 1] == a + b';
      assert (a + b)[|a + b| - 1] == b[|b| - 1];
    }
  }

  /** One more element at the end is kept exactly when it passes. */
  lemma FilterSnoc<T>(front: seq<T>, last: T, keep: T -> bool)
    ensures Filter(front + [last], keep) == Filter(front, keep) + (if keep(last) then [last] else [])
  {
    assert (front + [last])[..|front|] == front;
  }

  /** One more row through a loop that passes over the rows `keep` rejects and maps the others. */
  lemma FilterMapStep(rows: seq<Row>, keep: Row -> bool, f: Row -> Result<Row, Error>, i: nat, out: seq<Row>)
    requires i < |rows| && MapRows(Filter(rows[..i], keep), f) == Ok(out)
    requires keep(rows[i]) ==> f(rows[i]).Ok?
    ensures MapRows(Filter(rows[..i + 1], keep), f) == Ok(if keep(rows[i]) then out + [f(rows[i]).value] else out)
  {
    var kept := Filter(rows[..i], keep);
    assert rows[..i + 1] == rows[..i] + [rows[i]];
    FilterSnoc(rows[..i], rows[i], keep);
    if keep(rows[i]) {
      assert (kept + [rows[i]])[..|kept|] == kept;
    } else {
      assert kept + [] == kept;
    }
  }

  /** A kept element splits the filtered sequence into what comes before it and after it. */
  lemma FilterAround<T>(s: seq<T>, keep: T -> bool, i: nat)
    requires i < |s| && keep(s[i])
    ensures Filter(s, keep) == Filter(s[..i], keep) + [s[i]] + Filter(s[i + 1..], keep)
  {
    var front, x, back := s[..i], s[i], s[i + 1..];
    calc {
      Filter(s, keep);
      { assert s == (front + [x]) + back; }
      Filter((front + [x]) + back, keep);
      { FilterAppend(front + [x], back, keep); }
      Filter(front + [x], keep) + Filter(back, keep);
      { FilterSnoc(front, x, keep); }
      Filter(front, keep) + [x] + Filter(back, keep);
    }
  }

  /** Such a loop stops at the first kept row that `f` rejects, with its error. */
  lemma FilterMapStop(rows: seq<Row>, keep: Row -> bool, f: Row -> Result<Row, Error>, i: nat)
    requires i < |rows| && keep(rows[i]) && f(rows[i]).Err?
    requires MapRows(Filter(rows[..i], keep), f).Ok?
    ensures MapRows(Filter(rows, keep), f) == Err(f(rows[i]).error)
  {
    var kept := Filter(rows[..i], keep);
    var all := Filter(rows, keep);
    FilterAround(rows, keep, i);
    assert all[..|kept|] == kept;
    assert all[|kept|] == rows[i];
    MapRowsStop(all, f, |kept|, MapRows(kept, f).value);
  }

  /** Two tests that agree on every element keep the same elements. */
  lemma {:induction false} FilterCongruent<T>(s: seq<T>, f: T -> bool, g: T -> bool)
    requires forall i | 0 <= i < |s| :: f(s[i]) == g(s[i])
    ensures Filter(s, f) == Filter(s, g)
    decreases |s|
  {
    if s != [] {
      FilterCongruent(s[..|s| - 1], f, g);
    }
  }

  /** A second pass removes nothing. */
  lemma {:induction false} FilterIdempotent<T>(s: seq<T>, keep: T -> bool)
    ensures Filter(Filter(s, keep), keep) == Filter(s, keep)
    decreases |s|
  {
    if s != [] {
      var front, last := s[..|s| - 1], s[|s| - 1];
      FilterIdempotent(front, keep);
      var kept := Filter(front, keep);
      if keep(last) {
        FilterAppend(kept, [last], keep);
        FilterSnoc([], last, keep);
        assert [] + [last] == [last];
      } else {
        assert kept + [] == kept;
      }
    }
  }

  /** Every element passes: nothing is dropped. */
  lemma {:induction false} FilterAll<T>(s: seq<T>, keep: T -> bool)
    requires forall i | 0 <= i < |s| :: keep(s[i])
    ensures Filter(s, keep) == s
    decreases |s|
  {
    if s != [] {
      FilterAll(s[..|s| - 1], keep);
      assert s[..|s| - 1] + [s[|s| - 1]] == s;
    }
  }

  /** No element passes: nothing is kept. */
  lemma {:induction false} FilterNone<T>(s: seq<T>, keep: T -> bool)
    requires forall i | 0 <= i < |s| :: !keep(s[i])
    ensures Filter(s, keep) == []
    decreases |s|
  {
    if s != [] {
      FilterNone(s[..|s| - 1], keep);
    }
  }

  /** No element occurs twice. */
  predicate Distinct<T(==)>(s: seq<T>) {
    forall a, b | 0 <= a < b < |s| :: s[a] != s[b]
  }

  /** Filtering a sequence without repeats gives one without repeats. */
  lemma {:induction false} FilterDistinct<T>(s: seq<T>, keep: T -> bool)
    requires Distinct(s)
    ensures Distinct(Filter(s, keep))
    decreases |s|
  {
    if s != [] {
      var front, last := s[..|s| - 1], s[|s| - 1];
      FilterDistinct(front, keep);
      FilterMembers(front, keep);
      assert last !in front;
    }
  }

  /** In a sequence without repeats every member is counted once. */
  lemma {:induction false} DistinctCounts<T>(s: seq<T>)
    requires Distinct(s)
    ensures forall x :: multiset(s)[x] == if x in s then 1 else 0
    decreases |s|
  {
    if s != [] {
      var front, last := s[..|s| - 1], s[|s| - 1];
      DistinctCounts(front);
      assert s == front + [last];
      assert last !in front;
    }
  }

  /** Two sequences without repeats and with the same members are permutations of each other. */
  lemma SameMembersPermutation<T>(s: seq<T>, t: seq<T>)
    requires Distinct(s) && Distinct(t)
    requires forall x :: x in s <==> x in t
    ensures multiset(s) == multiset(t)
  {
    DistinctCounts(s);
    DistinctCounts(t);
  }

  // ------------------------------------------------------------------ filters on names

  /** The names of `s` that are not in `drop`, in order. */
  function Without(s: seq<string>, drop: set<string>): (r: seq<string>)
    ensures |r| <= |s|
    decreases |s|
  {
    if s == [] then []
    else Without(s[..|s| - 1], drop) + (if s[|s| - 1] in drop then [] else [s[|s| - 1]])
  }

  /** `Without` keeps exactly the names that are not dropped. */
  lemma {:induction false} WithoutMembers(s: seq<string>, drop: set<string>)
    ensures forall x :: x in Without(s, drop) <==> x in s && x !in drop
    decreases |s|
  {
    if s != [] {
      var front := s[..|s| - 1];
      WithoutMembers(front, drop);
      assert forall x :: x in s <==> x in front || x == s[|s| - 1] by {
        assert s == front + [s[|s| - 1]];
      }
    }
  }

  /** `[i for i, h in enumerate(header) if h]`: the positions of the non-empty names, ascending. */
  function NonEmptyPositions(h: Row): (r: seq<nat>)
    ensures Covers(h, r)
    ensures forall k | 0 <= k < |r| :: h[r[k]] != ""
    ensures forall i | 0 <= i < |h| && h[i] != "" :: i in r
    ensures forall k, l | 0 <= k < l < |r| :: r[k] < r[l]
    decreases |h|
  {
    if h == [] then []
    else
      var front := h[..|h| - 1];
      var r := NonEmptyPositions(front);
      assert forall k | 0 <= k < |r| :: h[r[k]] == front[r[k]];
      if h[|h| - 1] != "" then r + [|h| - 1] else r
  }

  /** Projecting a header onto its non-empty positions drops exactly its empty names. */
  lemma {:induction false} ProjectNonEmpty(h: Row)
    ensures Project(h, NonEmptyPositions(h)) == Without(h, {""})
    decreases |h|
  {
    if h != [] {
      var front, x := h[..|h| - 1], h[|h| - 1];
      assert h == front + [x];
      ProjectNonEmpty(front);
      var r := NonEmptyPositions(front);
      ProjectExtend(front, x, r);
      if x != "" {
        ProjectSnoc(h, r, |h| - 1);
      }
    }
  }

  /** Positions inside `front` project the same from `front` and from `front` extended. */
  lemma ProjectExtend(front: Row, x: string, idxs: seq<nat>)
    requires Covers(front, idxs)
    ensures Covers(front + [x], idxs) && Project(front + [x], idxs) == Project(front, idxs)
  {
    assert forall k | 0 <= k < |idxs| :: (front + [x])[idxs[k]] == front[idxs[k]];
  }

  /** One more index adds that cell at the end of the projection. */
  lemma ProjectSnoc(h: Row, idxs: seq<nat>, i: nat)
    requires Covers(h, idxs) && i < |h|
    ensures Covers(h, idxs + [i]) && Project(h, idxs + [i]) == Project(h, idxs) + [h[i]]
  {
    assert forall k | 0 <= k < |idxs| :: (idxs + [i])[k] == idxs[k];
  }

  /** With no empty name, every position is kept. */
  lemma {:induction false} NonEmptyPositionsAll(h: Row)
    requires "" !in h
    ensures NonEmptyPositions(h) == Positions(|h|)
    decreases |h|
  {
    if h != [] {
      var front := h[..|h| - 1];
      assert "" !in front by {
        assert forall x | x in front :: x in h;
      }
      NonEmptyPositionsAll(front);
      assert h[|h| - 1] in h;
      assert Positions(|front|) + [|h| - 1] == Positions(|h|);
    }
  }

  /** `[row[i] for i in idxs]` on a data row: `IndexError` when an index is past its end. */
  function ProjectCells(row: Row, idxs: seq<nat>): (r: Result<Row, Error>)
    ensures r.Ok? <==> Covers(row, idxs)
  {
    if Covers(row, idxs) then Ok(Project(row, idxs)) else Err(RowTooShort)
  }

  function ProjectFn(idxs: seq<nat>): Row -> Result<Row, Error> {
    row => ProjectCells(row, idxs)
  }

  // ------------------------------------------------------------------ several lookups and deletions

  /** `headers.index(name)` for each name in turn: the first missing name raises `ValueError`. */
  function ColumnIndices(header: Row, names: seq<string>): (r: Result<seq<nat>, Error>)
    ensures r.Ok? <==> forall k | 0 <= k < |names| :: names[k] in header
    ensures r.Ok? ==> |r.value| == |names|
    ensures r.Ok? ==> forall k | 0 <= k < |names| :: IndexOf(header, names[k]) == Some(r.value[k])
    ensures r.Err? ==> r.error.MissingColumn? && r.error.name in names
    ensures r.Err? ==> exists k | 0 <= k < |names| ::
      r.error == MissingColumn(names[k]) && names[k] !in header && forall j | 0 <= j < k :: names[j] in header
    decreases |names|
  {
    if names == [] then Ok([])
    else
      var front := names[..|names| - 1];
      assert forall k | 0 <= k < |front| :: front[k] == names[k];
      match ColumnIndices(header, front)
      case Err(e) => Err(e)
      case Ok(ks) =>
        match ColumnIndex(header, names[|names| - 1])
        case Err(e) => Err(e)
        case Ok(k) => Ok(ks + [k])
  }

  /** The first name of the list that the header lacks is the one the lookups report. */
  lemma ColumnIndicesFirstMissing(header: Row, names: seq<string>, k: nat)
    requires k < |names| && names[k] !in header
    requires forall j | 0 <= j < k :: names[j] in header
    ensures ColumnIndices(header, names) == Err(MissingColumn(names[k]))
  {
    var r := ColumnIndices(header, names);
    var k' :| 0 <= k' < |names| && r.error == MissingColumn(names[k']) && names[k'] !in header &&
      forall j | 0 <= j < k' :: names[j] in header;
    assert k' == k;
  }

  /** A name that occurs in `s` is found at the same place once more elements follow. */
  lemma IndexOfAppend<T>(s: seq<T>, t: seq<T>, x: T)
    requires x in s
    ensures IndexOf(s + t, x) == IndexOf(s, x)
  {
    var k := IndexOf(s, x).value;
    assert forall c | 0 <= c < k :: s[c] in s[..k];
    IndexOfIs(s + t, x, k);
  }

  /** The elements of `s` whose positions are not in `gone`, in order. */
  function Drop<T>(s: seq<T>, gone: set<nat>): (r: seq<T>)
    ensures |r| <= |s|
    decreases |s|
  {
    if s == [] then []
    else
      var n: nat := |s| - 1;
      Drop(s[..n], gone) + (if n in gone then [] else [s[n]])
  }

  /** Only the positions inside `s` matter to `Drop`. */
  lemma {:induction false} DropSame<T>(s: seq<T>, a: set<nat>, b: set<nat>)
    requires forall i: nat | i < |s| :: i in a <==> i in b
    ensures Drop(s, a) == Drop(s, b)
    decreases |s|
  {
    if s != [] {
      DropSame(s[..|s| - 1], a, b);
    }
  }

  /** Dropping nothing keeps everything. */
  lemma {:induction false} DropNothing<T>(s: seq<T>)
    ensures Drop(s, {}) == s
    decreases |s|
  {
    if s != [] {
      DropNothing(s[..|s| - 1]);
    }
  }

  /** When every dropped position lies before `m`, the elements from `m` on are all kept. */
  lemma {:induction false} DropPrefix<T>(s: seq<T>, gone: set<nat>, m: nat)
    requires m <= |s| && forall i | i in gone :: i < m
    ensures Drop(s, gone) == Drop(s[..m], gone) + s[m..]
    decreases |s|
  {
    if |s| > m {
      var n := |s| - 1;
      DropPrefix(s[..n], gone, m);
      assert s[..n][..m] == s[..m];
      assert s[..n][m..] + [s[n]] == s[m..];
    } else {
      assert s[..m] == s;
    }
  }

  /** Deleting position `k` and then earlier positions drops all of them at once. */
  lemma DeleteAtDrop<T>(s: seq<T>, gone: set<nat>, k: nat)
    requires k < |s| && forall i | i in gone :: i < k
    ensures Drop(DeleteAt(s, k), gone) == Drop(s, gone + {k})
  {
    var t := DeleteAt(s, k);
    DropPrefix(t, gone, k);
    assert t[..k] == s[..k] && t[k..] == s[k + 1..];
    DropPrefix(s, gone + {k}, k + 1);
    assert s[..k + 1][..k] == s[..k];
    DropSame(s[..k], gone + {k}, gone);
  }

  /** `del s[k]` for each `k` of `ks` in turn; a position past the current end raises `IndexError`. */
  function DeleteEach(s: Row, ks: seq<nat>): (r: Result<Row, Error>)
    ensures r.Ok? ==> |r.value| + |ks| == |s|
    ensures r.Err? ==> r.error == RowTooShort
    decreases |ks|
  {
    if ks == [] then Ok(s)
    else
      match DeleteCell(s, ks[0])
      case Err(e) => Err(e)
      case Ok(t) => DeleteEach(t, ks[1..])
  }

  /** Positions strictly decreasing from left to right. */
  predicate Descending(ks: seq<nat>) {
    forall i, j | 0 <= i < j < |ks| :: ks[i] > ks[j]
  }

  /** The positions listed in `ks`. */
  function Members(ks: seq<nat>): set<nat> {
    set k | k in ks
  }

  /** After the first, highest position come only lower ones, still strictly decreasing. */
  lemma DescendingTail(ks: seq<nat>)
    requires Descending(ks) && |ks| > 0
    ensures Descending(ks[1..])
    ensures forall i | i in Members(ks[1..]) :: i < ks[0]
    ensures Members(ks) == Members(ks[1..]) + {ks[0]}
  {
    assert ks == [ks[0]] + ks[1..];
    forall i | i in Members(ks[1..])
      ensures i < ks[0]
    {
      var j :| 0 <= j < |ks[1..]| && ks[1..][j] == i;
      assert ks[j + 1] == i;
    }
  }

  /**
   * Deleting positions from the highest down never shifts a position still to be
   * deleted: the result drops exactly the cells at those positions.
   */
  lemma {:induction false} DeleteDescending(s: Row, ks: seq<nat>)
    requires Descending(ks) && (|ks| > 0 ==> ks[0] < |s|)
    ensures DeleteEach(s, ks) == Ok(Drop(s, Members(ks)))
    decreases |ks|
  {
    if ks == [] {
      DropNothing(s);
      assert Members(ks) == {};
    } else {
      var t := DeleteAt(s, ks[0]);
      var rest := ks[1..];
      DescendingTail(ks);
      DeleteDescending(t, rest);
      DeleteAtDrop(s, Members(rest), ks[0]);
      assert DeleteCell(s, ks[0]) == Ok(t);
    }
  }

  /**
   * Dropping the same positions from two equally long sequences keeps them side by
   * side: each surviving pair comes from one position that was not dropped.
   */
  lemma {:induction false} DropAligned<T, U>(s: seq<T>, t: seq<U>, gone: set<nat>)
    requires |s| == |t|
    ensures |Drop(s, gone)| == |Drop(t, gone)|
    ensures forall c | 0 <= c < |Drop(s, gone)| :: exists i: nat | i < |s| && i !in gone ::
      Drop(s, gone)[c] == s[i] && Drop(t, gone)[c] == t[i]
    decreases |s|
  {
    if s != [] {
      var n := |s| - 1;
      DropAligned(s[..n], t[..n], gone);
      var a, b := Drop(s[..n], gone), Drop(t[..n], gone);
      forall c | 0 <= c < |Drop(s, gone)|
        ensures exists i: nat | i < |s| && i !in gone :: Drop(s, gone)[c] == s[i] && Drop(t, gone)[c] == t[i]
      {
        if c < |a| {
          var i: nat :| i < n && i !in gone && a[c] == s[..n][i] && b[c] == t[..n][i];
          assert Drop(s, gone)[c] == s[i] && Drop(t, gone)[c] == t[i];
        } else {
          assert Drop(s, gone)[c] == s[n] && Drop(t, gone)[c] == t[n];
        }
      }
    }
  }

  /** Dropping names is dropping the positions that hold them. */
  lemma {:induction false} WithoutIsDrop(s: seq<string>, drop: set<string>)
    ensures Without(s, drop) == Drop(s, set i: nat | i < |s| && s[i] in drop)
    decreases |s|
  {
    if s != [] {
      var n := |s| - 1;
      var front := s[..n];
      WithoutIsDrop(front, drop);
      DropSame(front, set i: nat | i < |front| && front[i] in drop, set i: nat | i < |s| && s[i] in drop);
    }
  }
}
