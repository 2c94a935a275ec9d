/**
 * `csv_reorder_headers.py`: puts the spreadsheet's known columns first, in the
 * order of a fixed list, followed by every other column in its original order,
 * and rebuilds each data row by looking its cells up by column name.
 */
module CsvReorderHeaders {
  import opened Wrappers
  import opened Tables

  /** The spreadsheet's column order. */
  const Order: seq<string> := [
    "Process Step ID", "Owner", "Description", "Status", "Function", "Phase", "Estimated Duration",
    "Estimated Completion Date", "Notes", "Wbs", "Oqe", "Next Step ID", "Shape Type", "Connector Label"]

  /** A name the order list mentions. */
  predicate Listed(h: string) {
    h in Order
  }

  predicate Unlisted(h: string) {
    h !in Order
  }

  /** The test `header in original_headers`. */
  function InFn(original: Row): string -> bool {
    h => h in original
  }

  /**
   * The new header: the names of the order list that the input has, in list
   * order, then the input's other names, in input order.
   */
  function Headers(original: Row): (r: Row)
    ensures forall x :: x in r <==> x in original
  {
    FilterMembers(Order, InFn(original));
    FilterMembers(original, Unlisted);
    Filter(Order, InFn(original)) + Filter(original, Unlisted)
  }

  /** The listed names come first, in the order the list gives them; the rest follow. */
  lemma HeadersLayout(original: Row)
    ensures var r := Headers(original);
      && (forall i, i' | 0 <= i < i' < |r| && Listed(r[i']) :: Listed(r[i]))
      && (forall i, i' | 0 <= i < i' < |r| && Listed(r[i']) ::
            IndexOf(Order, r[i]).value < IndexOf(Order, r[i']).value)
  {
    assert Distinct(Order);
    ListedFirst(Order, original, Unlisted);
    var r := Headers(original);
    assert r == Filter(Order, InFn(original)) + Filter(original, Unlisted);
    forall i, i' | 0 <= i < i' < |r| && Listed(r[i'])
      ensures Listed(r[i]) && IndexOf(Order, r[i]).value < IndexOf(Order, r[i']).value
    {
      assert r[i'] in Order;
    }
  }

  /** The layout of a list-first header, for any list without repeats. */
  lemma ListedFirst(list: seq<string>, original: Row, unlisted: string -> bool)
    requires Distinct(list)
    requires forall x :: unlisted(x) <==> x !in list
    ensures var r := Filter(list, InFn(original)) + Filter(original, unlisted);
      && (forall i, i' | 0 <= i < i' < |r| && r[i'] in list :: r[i] in list)
      && (forall i, i' | 0 <= i < i' < |r| && r[i'] in list ::
            IndexOf(list, r[i]).value < IndexOf(list, r[i']).value)
  {
    var o := Filter(list, InFn(original));
    var rest := Filter(original, unlisted);
    var r := o + rest;
    FilterMembers(original, unlisted);
    FilterInListOrder(list, list, InFn(original));
    forall i, i' | 0 <= i < i' < |r| && r[i'] in list
      ensures r[i] in list && IndexOf(list, r[i]).value < IndexOf(list, r[i']).value
    {
      if i' < |o| {
        assert r[i] == o[i] && r[i'] == o[i'];
      }
    }
  }

  /** The names of `o` all occur in `list`, and in the same order. */
  predicate InListOrder(list: seq<string>, o: seq<string>) {
    && (forall i | 0 <= i < |o| :: o[i] in list)
    && (forall i, i' | 0 <= i < i' < |o| :: IndexOf(list, o[i]).value < IndexOf(list, o[i']).value)
  }

  /** Filtering a prefix of a list without repeats keeps the list's order. */
  lemma {:induction false} FilterInListOrder(list: seq<string>, s: seq<string>, keep: string -> bool)
    requires Distinct(list) && |s| <= |list| && s == list[..|s|]
    ensures InListOrder(list, Filter(s, keep))
    decreases |s|
  {
    if s != [] {
      var front, last := s[..|s| - 1], s[|s| - 1];
      assert front == list[..|front|];
      FilterInListOrder(list, front, keep);
      FilterMembers(front, keep);
      var o := Filter(front, keep);
      assert last == list[|front|];
      IndexOfIs(list, last, |front|);
      forall x | x in o ensures x in list && IndexOf(list, x).value < |front| {
        var c :| 0 <= c < |front| && front[c] == x;
        assert x == list[c];
        IndexOfIs(list, x, c);
      }
      if keep(last) {
        assert Filter(s, keep) == o + [last];
        forall i, i' | 0 <= i < i' < |o| + 1
          ensures (o + [last])[i] in list && (o + [last])[i'] in list
          ensures IndexOf(list, (o + [last])[i]).value < IndexOf(list, (o + [last])[i']).value
        {
          assert (o + [last])[i] == o[i] && o[i] in o;
          if i' < |o| {
            assert (o + [last])[i'] == o[i'];
            assert IndexOf(list, o[i]).value < IndexOf(list, o[i']).value;
          } else {
            assert (o + [last])[i'] == last;
            assert IndexOf(list, o[i]).value < |front|;
            assert IndexOf(list, last).value == |front|;
          }
        }
      } else {
        assert Filter(s, keep) == o;
      }
    }
  }

  /** `dict(zip(keys, vals))` on lists of one length: a later key overrides an earlier one. */
  function ZipMap(keys: seq<string>, vals: seq<string>): (m: map<string, string>)
    requires |keys| == |vals|
    ensures forall x :: x in m <==> x in keys
    ensures forall x | x in m :: exists j | 0 <= j < |keys| :: keys[j] == x && m[x] == vals[j]
    decreases |keys|
  {
    if keys == [] then map[]
    else
      var front := keys[..|keys| - 1];
      assert keys == front + [keys[|keys| - 1]];
      var m := ZipMap(front, vals[..|vals| - 1]);
      m[keys[|keys| - 1] := vals[|vals| - 1]]
  }

  /** The value of a key is the one paired with its last occurrence. */
  lemma {:induction false} ZipMapLast(keys: seq<string>, vals: seq<string>, j: nat)
    requires |keys| == |vals| && j < |keys|
    requires forall j' | j < j' < |keys| :: keys[j'] != keys[j]
    ensures ZipMap(keys, vals)[keys[j]] == vals[j]
    decreases |keys|
  {
    if j < |keys| - 1 {
      ZipMapLast(keys[..|keys| - 1], vals[..|vals| - 1], j);
    }
  }

  /** `dict(zip(original_headers, row))`: `zip` stops at the shorter of the two. */
  function RowDict(original: Row, row: Row): (m: map<string, string>)
    ensures forall x :: x in m <==> x in original[..Min(|original|, |row|)]
  {
    var n := Min(|original|, |row|);
    ZipMap(original[..n], row[..n])
  }

  function Min(a: nat, b: nat): nat {
    if a <= b then a else b
  }

  /** `[m[h] for h in names]`: `KeyError` on the first name the dictionary lacks. */
  function Lookup(m: map<string, string>, names: seq<string>): (r: Result<Row, Error>)
    ensures r.Ok? <==> forall k | 0 <= k < |names| :: names[k] in m
    ensures r.Ok? ==> |r.value| == |names| && forall k | 0 <= k < |names| :: r.value[k] == m[names[k]]
    ensures r.Err? ==> exists k | 0 <= k < |names| ::
      r.error == MissingKey(names[k]) && names[k] !in m && forall j | 0 <= j < k :: names[j] in m
    decreases |names|
  {
    if names == [] then Ok([])
    else if names[0] !in m then Err(MissingKey(names[0]))
    else
      match Lookup(m, names[1..])
      case Err(e) =>
        var k :| 0 <= k < |names[1..]| && e == MissingKey(names[1..][k]) && names[1..][k] !in m
          && forall j | 0 <= j < k :: names[1..][j] in m;
        assert forall j | 0 <= j < k + 1 :: names[j] in m by {
          assert forall j | 1 <= j < k + 1 :: names[j] == names[1..][j - 1];
        }
        Err(e)
      case Ok(rest) => Ok([m[names[0]]] + rest)
  }

  /** One data row rebuilt under the new header. */
  function ReorderRow(row: Row, original: Row, headers: Row): (r: Result<Row, Error>) {
    Lookup(RowDict(original, row), headers)
  }

  function ReorderFn(original: Row, headers: Row): Row -> Result<Row, Error> {
    row => ReorderRow(row, original, headers)
  }

  /** Every name of the header has a cell in the row, counting only the first `|row|` names. */
  predicate Covered(original: Row, row: Row) {
    forall i | 0 <= i < |original| :: original[i] in original[..Min(|original|, |row|)]
  }

  /**
   * The stage: the reordered header, and every row rebuilt under it; a row too
   * short to name every column raises `KeyError`.
   */
  function Reordered(t: Table): (r: Result<Table, Error>)
    ensures r.Ok? <==> forall j | 0 <= j < |t.rows| :: Covered(t.header, t.rows[j])
    ensures r.Ok? ==> r.value.header == Headers(t.header) && |r.value.rows| == |t.rows|
    ensures r.Ok? ==> forall j | 0 <= j < |t.rows| :: |r.value.rows[j]| == |r.value.header|
    ensures r.Err? ==> exists x :: r.error == MissingKey(x) && x in t.header
  {
    var headers := Headers(t.header);
    forall row ensures ReorderRow(row, t.header, headers).Ok? <==> Covered(t.header, row) {
      var m := RowDict(t.header, row);
      if Covered(t.header, row) {
        forall k | 0 <= k < |headers| ensures headers[k] in m {
          assert headers[k] in headers;
          var i :| 0 <= i < |t.header| && t.header[i] == headers[k];
        }
      } else {
        var i :| 0 <= i < |t.header| && t.header[i] !in m;
        assert t.header[i] in headers;
        var k :| 0 <= k < |headers| && headers[k] == t.header[i];
      }
    }
    match MapRows(t.rows, ReorderFn(t.header, headers))
    case Err(e) => Err(e)
    case Ok(rows) => Ok(Table(headers, rows))
  }

  /** `reorder_headers`: the new header, then the row loop building each row from a dictionary. */
  method ReorderHeaders(t: Table) returns (r: Result<Table, Error>)
    ensures r == Reordered(t)
  {
    var headers := Filter(Order, InFn(t.header)) + Filter(t.header, Unlisted);
    var out: seq<Row> := [];
    var i := 0;
    while i < |t.rows|
      invariant i <= |t.rows|
      invariant MapRows(t.rows[..i], ReorderFn(t.header, headers)) == Ok(out)
    {
      var rowDict := RowDict(t.header, t.rows[i]);
      var row := Lookup(rowDict, headers);
      if row.Err? {
        MapRowsStop(t.rows, ReorderFn(t.header, headers), i, out);
        return Err(row.error);
      }
      MapRowsStep(t.rows, ReorderFn(t.header, headers), i, out);
      out := out + [row.value];
      i := i + 1;
    }
    MapRowsDone(t.rows);
    r := Ok(Table(headers, out));
  }

  /** With distinct names the new header is a permutation of the old one. */
  lemma HeadersPermutation(original: Row)
    requires Distinct(original)
    ensures multiset(Headers(original)) == multiset(original)
  {
    var o, rest := Filter(Order, InFn(original)), Filter(original, Unlisted);
    assert Distinct(Order);
    FilterDistinct(Order, InFn(original));
    FilterDistinct(original, Unlisted);
    FilterMembers(Order, InFn(original));
    FilterMembers(original, Unlisted);
    assert Distinct(o + rest) by {
      forall a, b | 0 <= a < b < |o + rest| ensures (o + rest)[a] != (o + rest)[b] {
        if a < |o| && b >= |o| {
          assert (o + rest)[a] in o && (o + rest)[b] in rest;
        }
      }
    }
    SameMembersPermutation(Headers(original), original);
  }

  /** Reordering an already reordered header changes nothing. */
  lemma HeadersIdempotent(original: Row)
    ensures Headers(Headers(original)) == Headers(original)
  {
    var h := Headers(original);
    var o, rest := Filter(Order, InFn(original)), Filter(original, Unlisted);
    FilterCongruent(Order, InFn(h), InFn(original));
    FilterAppend(o, rest, Unlisted);
    FilterMembers(Order, InFn(original));
    FilterNone(o, Unlisted);
    FilterIdempotent(original, Unlisted);
    assert [] + rest == rest;
  }

  /** With distinct names a row is covered exactly when it is at least as long as the header. */
  lemma CoveredIff(original: Row, row: Row)
    requires Distinct(original)
    ensures Covered(original, row) <==> |row| >= |original|
  {
    if |row| < |original| {
      var last := |original| - 1;
      assert original[last] !in original[..|row|] by {
        forall c | 0 <= c < |row| ensures original[..|row|][c] != original[last] {
        }
      }
    } else {
      assert original[..|original|] == original;
    }
  }

  /** With distinct names, each output cell is the input row's cell under the same name. */
  lemma CellUnderHeader(t: Table, j: nat, c: nat)
    requires Reordered(t).Ok? && Distinct(t.header)
    requires j < |t.rows| && c < |Headers(t.header)|
    ensures var h := Headers(t.header)[c];
      h in t.header && IndexOf(t.header, h).value < |t.rows[j]| &&
      Reordered(t).value.rows[j][c] == t.rows[j][IndexOf(t.header, h).value]
  {
    var headers := Headers(t.header);
    var row := t.rows[j];
    var h := headers[c];
    var i := IndexOf(t.header, h).value;
    CoveredIff(t.header, row);
    var n := Min(|t.header|, |row|);
    assert ReorderFn(t.header, headers)(row) == Ok(Reordered(t).value.rows[j]);
    ZipMapLast(t.header[..n], row[..n], i);
  }

  /** A row rebuilt under the new header is rebuilt to itself by a second pass. */
  lemma ReorderRowAgain(row: Row, original: Row, headers: Row)
    requires ReorderRow(row, original, headers).Ok?
    ensures var row' := ReorderRow(row, original, headers).value;
      ReorderRow(row', headers, headers) == Ok(row')
  {
    var row' := ReorderRow(row, original, headers).value;
    var m' := RowDict(headers, row');
    assert headers[..Min(|headers|, |row'|)] == headers && row'[..Min(|headers|, |row'|)] == row';
    forall c | 0 <= c < |headers| ensures headers[c] in m' && m'[headers[c]] == row'[c] {
      assert headers[c] in headers;
      var c' :| 0 <= c' < |headers| && headers[c'] == headers[c] && m'[headers[c]] == row'[c'];
    }
    assert Lookup(m', headers).value == row';
  }

  /** Running the stage on its own output changes nothing. */
  lemma ReorderedIdempotent(t: Table)
    requires Reordered(t).Ok?
    ensures Reordered(Reordered(t).value) == Reordered(t)
  {
    var u := Reordered(t).value;
    var h := u.header;
    HeadersIdempotent(t.header);
    forall j | 0 <= j < |u.rows| ensures ReorderFn(h, h)(u.rows[j]) == Ok(u.rows[j]) {
      assert ReorderFn(t.header, h)(t.rows[j]) == Ok(u.rows[j]);
      ReorderRowAgain(t.rows[j], t.header, h);
    }
    MapRowsIs(u.rows, ReorderFn(h, h), u.rows);
  }
}
