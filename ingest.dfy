/** What `Dataset.append_csv` does to the columns once the file has been split into a
    header and data rows (databankpy/dataset.py, lines 100-120), as functions of the old
    columns, and what that behaviour guarantees. */
module CsvIngest {
  import opened Wrappers
  import opened Utils
  import opened Columns

  /** How an append ends. The failures are the exceptions the source raises: the
      RuntimeError for a declared column missing from the header, the IndexError for a
      row with too few fields, the failed `assert` for a header name no column has, and
      numpy's error for a field its dtype rejects. */
  datatype Outcome =
    | Appended
    | MissingColumn(name: string)
    | RowTooShort(row: nat)
    | UnknownHeader(name: string)
    | ConversionFailed(name: string)

  /** The outcome together with the columns as the call leaves them. */
  datatype Ingested = Ingested(outcome: Outcome, columns: seq<Column>)

  predicate Distinct<T(==)>(s: seq<T>)
  {
    forall a, b :: 0 <= a < b < |s| ==> s[a] != s[b]
  }

  /** The test a header field passes when it is the name `name`. */
  function Eq(name: string): string -> bool
  {
    (s: string) => s == name
  }

  /** The position of the first occurrence of `name` in the header. */
  function FirstPos(header: seq<string>, name: string): (i: nat)
    requires name in header
    ensures i < |header| && header[i] == name
    ensures forall k :: 0 <= k < i ==> header[k] != name
    ensures FirstIndex(header, Eq(name)) == Some(i)
  {
    var w :| 0 <= w < |header| && header[w] == name;
    assert Eq(name)(header[w]);
    FirstIndex(header, Eq(name)).value
  }

  /** Names of the header listed in the order of their first occurrence in it. */
  predicate InHeaderOrder(header: seq<string>, keys: seq<string>)
    requires forall x :: x in keys ==> x in header
  {
    forall a, b :: 0 <= a < b < |keys| ==> FirstPos(header, keys[a]) < FirstPos(header, keys[b])
  }

  /** The keys of the dict built from the header: each name once, in the order of its
      first occurrence. */
  function Keys(header: seq<string>): (keys: seq<string>)
    ensures forall x :: x in keys <==> x in header
    ensures Distinct(keys)
    ensures |keys| <= |header|
    ensures Distinct(header) ==> keys == header
    decreases |header|
  {
    if header == [] then []
    else
      var init, last := header[..|header| - 1], header[|header| - 1];
      assert header == init + [last];
      var keys := Keys(init);
      if last in keys then keys else keys + [last]
  }

  /** The keys come in the order of each name's first occurrence in the header, which is
      the insertion order of the dict. Together with the contract of Keys this fixes the
      keys for every header. */
  lemma {:induction false} KeysInHeaderOrder(header: seq<string>)
    ensures InHeaderOrder(header, Keys(header))
    decreases |header|
  {
    if header != [] {
      var init, last := header[..|header| - 1], header[|header| - 1];
      assert header == init + [last];
      KeysInHeaderOrder(init);
      KeysOrderStep(init, last, Keys(init));
    }
  }

  /** Adding a header field keeps the keys in first-occurrence order: an old key keeps its
      first position, a new one is first seen at the end. */
  lemma KeysOrderStep(init: seq<string>, last: string, keys: seq<string>)
    requires forall x :: x in keys <==> x in init
    requires InHeaderOrder(init, keys)
    ensures InHeaderOrder(init + [last], if last in keys then keys else keys + [last])
  {
    var header := init + [last];
    forall x | x in init ensures FirstPos(header, x) == FirstPos(init, x) {
      var i := FirstPos(init, x);
      assert header[i] == x;
      var h := FirstPos(header, x);
      assert h <= i;
      assert header[h] == init[h];
    }
    if last !in keys {
      assert FirstPos(header, last) == |init|;
      var next := keys + [last];
      forall a, b | 0 <= a < b < |next|
        ensures FirstPos(header, next[a]) < FirstPos(header, next[b])
      {
        assert next[a] == keys[a];
        if b < |keys| {
          assert next[b] == keys[b];
        }
      }
    }
  }

  /** Every row has at least `w` fields. */
  predicate Wide(rows: seq<seq<string>>, w: nat)
  {
    forall t :: 0 <= t < |rows| ==> w <= |rows[t]|
  }

  /** The `q`-th field of every row, in row order. */
  function Field(rows: seq<seq<string>>, q: nat): (column: seq<string>)
    requires Wide(rows, q + 1)
    ensures |column| == |rows|
    ensures forall t :: 0 <= t < |rows| ==> column[t] == rows[t][q]
  {
    seq(|rows|, t requires 0 <= t < |rows| => rows[t][q])
  }

  function Lacks(keys: seq<string>): string -> bool
  {
    (name: string) => name !in keys
  }

  function ShorterThan(w: nat): seq<string> -> bool
  {
    (row: seq<string>) => |row| < w
  }

  /** The callback `append_csv` hands to `find_index`. */
  function NameIs(name: string): Column -> bool
  {
    (col: Column) => DefNamed(name)(col.definition)
  }

  function DefNamed(name: string): ColumnDefinition -> bool
  {
    (def: ColumnDefinition) => def.name == name
  }

  /** The commit loop from key `j` on: look the key up among the columns, convert its
      fields, and extend that column, one key after the other. A failure stops the loop
      and keeps what earlier keys already committed. */
  function Commit(cols: seq<Column>, keys: seq<string>, rows: seq<seq<string>>, conv: Converter, j: nat): Ingested
    requires j <= |keys| && Wide(rows, |keys|)
    decreases |keys| - j
  {
    if j == |keys| then Ingested(Appended, cols)
    else
      match FirstIndex(cols, NameIs(keys[j]))
      case None => Ingested(UnknownHeader(keys[j]), cols)
      case Some(i) =>
        match ConvertAll(conv, cols[i].definition.columnType, Field(rows, j))
        case None => Ingested(ConversionFailed(keys[j]), cols)
        case Some(vs) => Commit(cols[i := Column(cols[i].definition, cols[i].data + vs)], keys, rows, conv, j + 1)
  }

  /** `append_csv` on already split input: check the declared columns against the header,
      distribute the row fields by key position, then commit key by key. */
  function AppendCsv(cols: seq<Column>, header: seq<string>, rows: seq<seq<string>>, conv: Converter): Ingested
  {
    var keys := Keys(header);
    match FirstIndex(Names(cols), Lacks(keys))
    case Some(m) => Ingested(MissingColumn(Names(cols)[m]), cols)
    case None =>
      match FirstIndex(rows, ShorterThan(|keys|))
      case Some(t) => Ingested(RowTooShort(t), cols)
      case None => Commit(cols, keys, rows, conv, 0)
  }

  // ---------------------------------------------------------------------------------
  // A reference description of the commit loop, over the column definitions only

  /** Key `q` names a column and its fields convert to that column's type. */
  predicate KeyCommits(defs: seq<ColumnDefinition>, keys: seq<string>, rows: seq<seq<string>>, conv: Converter, q: nat)
    requires q < |keys| && Wide(rows, |keys|)
  {
    match FirstIndex(defs, DefNamed(keys[q]))
    case None => false
    case Some(i) => ConvertAll(conv, defs[i].columnType, Field(rows, q)).Some?
  }

  /** The position of the first key from `j` on that does not commit, or |keys|. */
  function Stop(defs: seq<ColumnDefinition>, keys: seq<string>, rows: seq<seq<string>>, conv: Converter, j: nat): (r: nat)
    requires j <= |keys| && Wide(rows, |keys|)
    ensures j <= r <= |keys|
    ensures forall q :: j <= q < r ==> KeyCommits(defs, keys, rows, conv, q)
    ensures r < |keys| ==> !KeyCommits(defs, keys, rows, conv, r)
    decreases |keys| - j
  {
    if j == |keys| || !KeyCommits(defs, keys, rows, conv, j) then j
    else Stop(defs, keys, rows, conv, j + 1)
  }

  /** The failure reported for a key that does not commit. */
  function FailureAt(defs: seq<ColumnDefinition>, keys: seq<string>, q: nat): Outcome
    requires q < |keys|
  {
    if FirstIndex(defs, DefNamed(keys[q])).None? then UnknownHeader(keys[q]) else ConversionFailed(keys[q])
  }

  /** What column `k` receives from keys `q` up to `stop`: the converted fields of every key
      whose lookup lands on `k`. */
  function Gain(defs: seq<ColumnDefinition>, keys: seq<string>, rows: seq<seq<string>>, conv: Converter, k: nat, q: nat, stop: nat): seq<Value>
    requires q <= stop <= |keys| && Wide(rows, |keys|)
    decreases stop - q
  {
    if q == stop then []
    else
      (if FirstIndex(defs, DefNamed(keys[q])) == Some(k) then
         match ConvertAll(conv, defs[k].columnType, Field(rows, q)) case Some(vs) => vs case None => []
       else [])
      + Gain(defs, keys, rows, conv, k, q + 1, stop)
  }

  /** The commit loop never touches a definition: only data changes. */
  lemma {:induction false} CommitKeepsDefinitions(cols: seq<Column>, keys: seq<string>, rows: seq<seq<string>>, conv: Converter, j: nat)
    requires j <= |keys| && Wide(rows, |keys|)
    ensures Defs(Commit(cols, keys, rows, conv, j).columns) == Defs(cols)
    decreases |keys| - j
  {
    if j < |keys| {
      match FirstIndex(cols, NameIs(keys[j]))
      case None =>
      case Some(i) =>
        match ConvertAll(conv, cols[i].definition.columnType, Field(rows, j))
        case None =>
        case Some(vs) =>
          var next := cols[i := Column(cols[i].definition, cols[i].data + vs)];
          assert Defs(next) == Defs(cols);
          CommitKeepsDefinitions(next, keys, rows, conv, j + 1);
    }
  }

  /** One step of the commit loop seen through the definitions: the lookup over the columns
      is the lookup over their definitions, and committing key `j` keeps the definitions. */
  lemma CommitStep(cols: seq<Column>, keys: seq<string>, rows: seq<seq<string>>, conv: Converter, j: nat, i: nat, vs: seq<Value>)
    requires j < |keys| && Wide(rows, |keys|)
    requires FirstIndex(cols, NameIs(keys[j])) == Some(i)
    requires ConvertAll(conv, cols[i].definition.columnType, Field(rows, j)) == Some(vs)
    ensures FirstIndex(Defs(cols), DefNamed(keys[j])) == Some(i)
    ensures KeyCommits(Defs(cols), keys, rows, conv, j)
    ensures Stop(Defs(cols), keys, rows, conv, j) == Stop(Defs(cols), keys, rows, conv, j + 1)
    ensures Defs(cols[i := Column(cols[i].definition, cols[i].data + vs)]) == Defs(cols)
  {
    FirstIndexCongruent(cols, NameIs(keys[j]), Defs(cols), DefNamed(keys[j]));
    assert Defs(cols[i := Column(cols[i].definition, cols[i].data + vs)]) == Defs(cols);
  }

  /** The commit loop stops at the first key that does not commit and reports why. */
  lemma {:induction false} CommitOutcome(cols: seq<Column>, keys: seq<string>, rows: seq<seq<string>>, conv: Converter, j: nat)
    requires j <= |keys| && Wide(rows, |keys|)
    ensures var stop := Stop(Defs(cols), keys, rows, conv, j);
            Commit(cols, keys, rows, conv, j).outcome == if stop == |keys| then Appended else FailureAt(Defs(cols), keys, stop)
    decreases |keys| - j
  {
    if j < |keys| {
      FirstIndexCongruent(cols, NameIs(keys[j]), Defs(cols), DefNamed(keys[j]));
      match FirstIndex(cols, NameIs(keys[j]))
      case None =>
      case Some(i) =>
        match ConvertAll(conv, cols[i].definition.columnType, Field(rows, j))
        case None =>
        case Some(vs) =>
          CommitStep(cols, keys, rows, conv, j, i, vs);
          CommitOutcome(cols[i := Column(cols[i].definition, cols[i].data + vs)], keys, rows, conv, j + 1);
    }
  }

  /** Key `j` commits to column `i`: column `i` gains its converted fields, no other column
      gains anything from it. */
  lemma GainUnfold(defs: seq<ColumnDefinition>, keys: seq<string>, rows: seq<seq<string>>, conv: Converter, j: nat, i: nat, vs: seq<Value>, stop: nat, k: nat)
    requires j < stop <= |keys| && Wide(rows, |keys|) && i < |defs|
    requires FirstIndex(defs, DefNamed(keys[j])) == Some(i)
    requires ConvertAll(conv, defs[i].columnType, Field(rows, j)) == Some(vs)
    ensures Gain(defs, keys, rows, conv, k, j, stop) == (if k == i then vs else []) + Gain(defs, keys, rows, conv, k, j + 1, stop)
  {
  }

  /** Extending a column's data by `vs` when `hit`, then by `rest`, is extending it by what
      the column gains from key `j` on. */
  lemma ExtendThenRest(before: seq<Value>, vs: seq<Value>, rest: seq<Value>, hit: bool, gain: seq<Value>, after: seq<Value>)
    requires gain == (if hit then vs else []) + rest
    requires after == (if hit then before + vs else before) + rest
    ensures after == before + gain
  {
    if hit {
      assert (before + vs) + rest == before + (vs + rest);
    } else {
      assert [] + rest == rest;
    }
  }

  /** `after` holds the columns `cols` extended by what keys `j` up to the stopping key
      gave each of them. */
  ghost predicate GainedFrom(cols: seq<Column>, keys: seq<string>, rows: seq<seq<string>>, conv: Converter, j: nat, after: seq<Column>)
    requires j <= |keys| && Wide(rows, |keys|)
  {
    && |after| == |cols|
    && forall k :: 0 <= k < |cols| ==>
         after[k].data == cols[k].data + Gain(Defs(cols), keys, rows, conv, k, j, Stop(Defs(cols), keys, rows, conv, j))
  }

  /** Every column ends as its old data followed by what the committed keys gave it. */
  lemma {:induction false} CommitData(cols: seq<Column>, keys: seq<string>, rows: seq<seq<string>>, conv: Converter, j: nat)
    requires j <= |keys| && Wide(rows, |keys|)
    ensures GainedFrom(cols, keys, rows, conv, j, Commit(cols, keys, rows, conv, j).columns)
    decreases |keys| - j
  {
    if j < |keys| {
      FirstIndexCongruent(cols, NameIs(keys[j]), Defs(cols), DefNamed(keys[j]));
      match FirstIndex(cols, NameIs(keys[j]))
      case None =>
        CommitHalts(cols, keys, rows, conv, j);
      case Some(i) =>
        assert Defs(cols)[i] == cols[i].definition;
        match ConvertAll(conv, cols[i].definition.columnType, Field(rows, j))
        case None =>
          CommitHalts(cols, keys, rows, conv, j);
        case Some(vs) =>
          var next := cols[i := Column(cols[i].definition, cols[i].data + vs)];
          CommitUnfold(cols, keys, rows, conv, j, i, vs);
          CommitData(next, keys, rows, conv, j + 1);
          CommitAdvances(cols, keys, rows, conv, j, i, vs, Commit(next, keys, rows, conv, j + 1).columns);
    }
  }

  /** A key that does not commit leaves every column as it was. */
  lemma CommitHalts(cols: seq<Column>, keys: seq<string>, rows: seq<seq<string>>, conv: Converter, j: nat)
    requires j < |keys| && Wide(rows, |keys|)
    requires !KeyCommits(Defs(cols), keys, rows, conv, j)
    ensures GainedFrom(cols, keys, rows, conv, j, Commit(cols, keys, rows, conv, j).columns)
  {
    FirstIndexCongruent(cols, NameIs(keys[j]), Defs(cols), DefNamed(keys[j]));
    match FirstIndex(cols, NameIs(keys[j]))
    case None =>
    case Some(i) =>
      assert Defs(cols)[i] == cols[i].definition;
  }

  /** One round of the commit loop on a key that commits to column `i`. */
  lemma CommitUnfold(cols: seq<Column>, keys: seq<string>, rows: seq<seq<string>>, conv: Converter, j: nat, i: nat, vs: seq<Value>)
    requires j < |keys| && Wide(rows, |keys|)
    requires FirstIndex(cols, NameIs(keys[j])) == Some(i)
    requires ConvertAll(conv, cols[i].definition.columnType, Field(rows, j)) == Some(vs)
    ensures Commit(cols, keys, rows, conv, j) == Commit(cols[i := Column(cols[i].definition, cols[i].data + vs)], keys, rows, conv, j + 1)
  {
  }

  /** A key that commits to column `i` adds its converted fields to that column, and the rest
      of the loop proceeds from the extended columns. */
  lemma CommitAdvances(cols: seq<Column>, keys: seq<string>, rows: seq<seq<string>>, conv: Converter, j: nat, i: nat, vs: seq<Value>, after: seq<Column>)
    requires j < |keys| && Wide(rows, |keys|) && i < |cols|
    requires FirstIndex(Defs(cols), DefNamed(keys[j])) == Some(i)
    requires ConvertAll(conv, cols[i].definition.columnType, Field(rows, j)) == Some(vs)
    requires GainedFrom(cols[i := Column(cols[i].definition, cols[i].data + vs)], keys, rows, conv, j + 1, after)
    ensures GainedFrom(cols, keys, rows, conv, j, after)
  {
    var defs := Defs(cols);
    var next := cols[i := Column(cols[i].definition, cols[i].data + vs)];
    assert Defs(next) == defs;
    var stop := Stop(defs, keys, rows, conv, j);
    assert j < stop && stop == Stop(defs, keys, rows, conv, j + 1) by {
      assert defs[i] == cols[i].definition;
      assert KeyCommits(defs, keys, rows, conv, j);
    }
    forall k | 0 <= k < |cols|
      ensures after[k].data == cols[k].data + Gain(defs, keys, rows, conv, k, j, stop)
    {
      assert next[k].data == if k == i then cols[k].data + vs else cols[k].data;
      GainUnfold(defs, keys, rows, conv, j, i, vs, stop, k);
      ExtendThenRest(cols[k].data, vs, Gain(defs, keys, rows, conv, k, j + 1, stop), k == i,
                     Gain(defs, keys, rows, conv, k, j, stop), after[k].data);
    }
  }

  /** With unique column names, looking a name up finds the one column carrying it. */
  lemma LookupUnique(defs: seq<ColumnDefinition>, name: string, k: nat)
    requires UniqueNames(defs) && k < |defs|
    ensures FirstIndex(defs, DefNamed(name)) == Some(k) <==> defs[k].name == name
  {
    if defs[k].name == name {
      FirstIndexIs(defs, DefNamed(name), k);
    }
  }

  /** With unique column names and distinct keys, a column gains exactly the converted fields
      of the one key carrying its name, or nothing when no key carries it. */
  lemma {:induction false} GainOfUniqueName(defs: seq<ColumnDefinition>, keys: seq<string>, rows: seq<seq<string>>, conv: Converter, k: nat, j: nat, stop: nat)
    requires j <= stop <= |keys| && Wide(rows, |keys|) && k < |defs|
    requires UniqueNames(defs) && Distinct(keys)
    requires forall q :: j <= q < stop ==> KeyCommits(defs, keys, rows, conv, q)
    ensures forall q :: j <= q < stop && keys[q] == defs[k].name ==>
              ConvertAll(conv, defs[k].columnType, Field(rows, q)) == Some(Gain(defs, keys, rows, conv, k, j, stop))
    ensures (forall q :: j <= q < stop ==> keys[q] != defs[k].name) ==> Gain(defs, keys, rows, conv, k, j, stop) == []
    decreases stop - j
  {
    if j < stop {
      LookupUnique(defs, keys[j], k);
      GainOfUniqueName(defs, keys, rows, conv, k, j + 1, stop);
      var gain := Gain(defs, keys, rows, conv, k, j, stop);
      if keys[j] == defs[k].name {
        assert KeyCommits(defs, keys, rows, conv, j);
        assert forall q :: j < q < stop ==> keys[q] != defs[k].name;
        var vs := ConvertAll(conv, defs[k].columnType, Field(rows, j)).value;
        assert FirstIndex(defs, DefNamed(keys[j])) == Some(k);
        assert ConvertAll(conv, defs[k].columnType, Field(rows, j)) == Some(vs);
        assert gain == vs + [] == vs;
        forall q | j <= q < stop && keys[q] == defs[k].name
          ensures ConvertAll(conv, defs[k].columnType, Field(rows, q)) == Some(gain)
        {
          assert q == j;
        }
      } else {
        assert gain == Gain(defs, keys, rows, conv, k, j + 1, stop);
      }
    }
  }

  /** AppendCsv reaches the commit loop exactly when every declared column is in the header
      and every row has a field for every key; otherwise it fails with the columns as they were. */
  lemma AppendCsvGate(cols: seq<Column>, header: seq<string>, rows: seq<seq<string>>, conv: Converter)
    ensures var keys := Keys(header);
            var s := AppendCsv(cols, header, rows, conv);
            if (forall k :: 0 <= k < |cols| ==> cols[k].definition.name in header) && Wide(rows, |keys|)
            then s == Commit(cols, keys, rows, conv, 0)
            else s.columns == cols && (s.outcome.MissingColumn? || s.outcome.RowTooShort?)
  {
    var keys := Keys(header);
    if forall k :: 0 <= k < |cols| ==> cols[k].definition.name in header {
      assert FirstIndex(Names(cols), Lacks(keys)).None? by {
        forall m | 0 <= m < |Names(cols)| ensures !Lacks(keys)(Names(cols)[m]) {
          assert Names(cols)[m] == cols[m].definition.name;
        }
      }
      if !Wide(rows, |keys|) {
        var t :| 0 <= t < |rows| && |rows[t]| < |keys|;
        assert ShorterThan(|keys|)(rows[t]);
      }
    } else {
      var k :| 0 <= k < |cols| && cols[k].definition.name !in header;
      assert Lacks(keys)(Names(cols)[k]);
    }
  }

  /** A declared column absent from the header fails the call, and only that does: the
      first declared column the header lacks is reported and no column has changed. */
  lemma AppendCsvMissingColumn(cols: seq<Column>, header: seq<string>, rows: seq<seq<string>>, conv: Converter)
    ensures var s := AppendCsv(cols, header, rows, conv);
            s.outcome.MissingColumn? <==> exists k :: 0 <= k < |cols| && cols[k].definition.name !in header
    ensures var s := AppendCsv(cols, header, rows, conv);
            s.outcome.MissingColumn? ==>
              && s.columns == cols
              && exists m :: 0 <= m < |cols| && s.outcome.name == cols[m].definition.name && s.outcome.name !in header
                             && forall k :: 0 <= k < m ==> cols[k].definition.name in header
  {
    var keys := Keys(header);
    var s := AppendCsv(cols, header, rows, conv);
    match FirstIndex(Names(cols), Lacks(keys))
    case Some(m) =>
      assert Names(cols)[m] == cols[m].definition.name;
      forall k | 0 <= k < m ensures cols[k].definition.name in header {
        assert Names(cols)[k] == cols[k].definition.name;
      }
    case None =>
      forall k | 0 <= k < |cols| ensures cols[k].definition.name in header {
        assert Names(cols)[k] == cols[k].definition.name;
      }
      if FirstIndex(rows, ShorterThan(|keys|)).None? {
        CommitOutcome(cols, keys, rows, conv, 0);
      }
  }

  /** With every declared column in the header, a row with fewer fields than the header has
      distinct names fails the call, at the first such row, before any column changes. */
  lemma AppendCsvRowTooShort(cols: seq<Column>, header: seq<string>, rows: seq<seq<string>>, conv: Converter)
    ensures var s := AppendCsv(cols, header, rows, conv);
            s.outcome.RowTooShort? <==>
              && (forall k :: 0 <= k < |cols| ==> cols[k].definition.name in header)
              && exists t :: 0 <= t < |rows| && |rows[t]| < |Keys(header)|
    ensures var s := AppendCsv(cols, header, rows, conv);
            s.outcome.RowTooShort? ==>
              && s.columns == cols
              && s.outcome.row < |rows| && |rows[s.outcome.row]| < |Keys(header)|
              && forall t :: 0 <= t < s.outcome.row ==> |Keys(header)| <= |rows[t]|
  {
    var keys := Keys(header);
    AppendCsvMissingColumn(cols, header, rows, conv);
    if forall k :: 0 <= k < |cols| ==> cols[k].definition.name in header {
      if Wide(rows, |keys|) {
        AppendCsvGate(cols, header, rows, conv);
        CommitOutcome(cols, keys, rows, conv, 0);
      } else {
        var t :| 0 <= t < |rows| && |rows[t]| < |keys|;
        assert ShorterThan(|keys|)(rows[t]);
      }
    }
  }

  /** With unique column names, key `q` commits exactly when some column carries its name
      and that column's type accepts all of the key's fields. */
  lemma KeyCommitsUnique(cols: seq<Column>, keys: seq<string>, rows: seq<seq<string>>, conv: Converter, q: nat)
    requires q < |keys| && Wide(rows, |keys|) && UniqueNames(Defs(cols))
    ensures KeyCommits(Defs(cols), keys, rows, conv, q) <==>
            exists k :: 0 <= k < |cols| && cols[k].definition.name == keys[q]
                        && ConvertAll(conv, cols[k].definition.columnType, Field(rows, q)).Some?
  {
    var defs := Defs(cols);
    match FirstIndex(defs, DefNamed(keys[q]))
    case None =>
      forall k | 0 <= k < |cols| ensures cols[k].definition.name != keys[q] {
        assert !DefNamed(keys[q])(defs[k]);
      }
    case Some(i) =>
      assert defs[i] == cols[i].definition;
      forall k | 0 <= k < |cols| && cols[k].definition.name == keys[q] ensures k == i {
        LookupUnique(defs, keys[q], k);
      }
  }

  /** Every key names a column whose type accepts all of the key's fields. */
  predicate EveryKeyLands(cols: seq<Column>, keys: seq<string>, rows: seq<seq<string>>, conv: Converter)
    requires Wide(rows, |keys|)
  {
    forall q :: 0 <= q < |keys| ==>
      exists k :: 0 <= k < |cols| && cols[k].definition.name == keys[q]
                  && ConvertAll(conv, cols[k].definition.columnType, Field(rows, q)).Some?
  }

  /** The commit loop completes exactly when every key commits. */
  lemma CommitCompletes(cols: seq<Column>, keys: seq<string>, rows: seq<seq<string>>, conv: Converter)
    requires Wide(rows, |keys|)
    ensures Commit(cols, keys, rows, conv, 0).outcome == Appended <==>
            forall q :: 0 <= q < |keys| ==> KeyCommits(Defs(cols), keys, rows, conv, q)
  {
    CommitOutcome(cols, keys, rows, conv, 0);
  }

  /** With unique column names, the commit loop completes exactly when every key names a
      column whose type accepts all of the key's fields. */
  lemma CommitCompletesUnique(cols: seq<Column>, keys: seq<string>, rows: seq<seq<string>>, conv: Converter)
    requires Wide(rows, |keys|) && UniqueNames(Defs(cols))
    ensures Commit(cols, keys, rows, conv, 0).outcome == Appended <==> EveryKeyLands(cols, keys, rows, conv)
  {
    CommitCompletes(cols, keys, rows, conv);
    forall q | 0 <= q < |keys| {
      KeyCommitsUnique(cols, keys, rows, conv, q);
    }
  }

  /** The commit loop over distinct keys and uniquely named columns, when it completes: each
      column named by key `q` is its old data followed by the converted fields at position `q`. */
  lemma CommitAppended(cols: seq<Column>, keys: seq<string>, rows: seq<seq<string>>, conv: Converter)
    requires Wide(rows, |keys|) && UniqueNames(Defs(cols)) && Distinct(keys)
    requires Commit(cols, keys, rows, conv, 0).outcome == Appended
    ensures |Commit(cols, keys, rows, conv, 0).columns| == |cols|
    ensures var s := Commit(cols, keys, rows, conv, 0);
            forall k, q :: 0 <= k < |cols| && 0 <= q < |keys| && keys[q] == cols[k].definition.name ==>
              && ConvertAll(conv, cols[k].definition.columnType, Field(rows, q)).Some?
              && s.columns[k].data == cols[k].data + ConvertAll(conv, cols[k].definition.columnType, Field(rows, q)).value
  {
    var defs := Defs(cols);
    var s := Commit(cols, keys, rows, conv, 0);
    CommitOutcome(cols, keys, rows, conv, 0);
    CommitData(cols, keys, rows, conv, 0);
    forall k, q | 0 <= k < |cols| && 0 <= q < |keys| && keys[q] == cols[k].definition.name
      ensures && ConvertAll(conv, cols[k].definition.columnType, Field(rows, q)).Some?
              && s.columns[k].data == cols[k].data + ConvertAll(conv, cols[k].definition.columnType, Field(rows, q)).value
    {
      assert defs[k] == cols[k].definition;
      GainOfUniqueName(defs, keys, rows, conv, k, 0, |keys|);
    }
  }

  /** With unique column names, the call succeeds exactly when every declared column is in
      the header, every row has a field for every distinct header name, and every header
      name names a column whose fields all convert. */
  lemma AppendCsvSucceedsWhen(cols: seq<Column>, header: seq<string>, rows: seq<seq<string>>, conv: Converter)
    requires UniqueNames(Defs(cols))
    ensures var keys := Keys(header);
            AppendCsv(cols, header, rows, conv).outcome == Appended <==>
              && (forall k :: 0 <= k < |cols| ==> cols[k].definition.name in header)
              && Wide(rows, |keys|)
              && EveryKeyLands(cols, keys, rows, conv)
  {
    var keys := Keys(header);
    var s := AppendCsv(cols, header, rows, conv);
    AppendCsvGate(cols, header, rows, conv);
    if (forall k :: 0 <= k < |cols| ==> cols[k].definition.name in header) && Wide(rows, |keys|) {
      assert s == Commit(cols, keys, rows, conv, 0);
      CommitCompletesUnique(cols, keys, rows, conv);
    } else {
      assert s.outcome != Appended;
    }
  }

  /** With unique column names, a successful call changes no definition, and each column
      becomes its old data followed by the converted fields found under its name, in row
      order. Keys(header) is the header itself when its names are distinct, so the fields
      are then those at the column's header position. */
  lemma AppendCsvAppended(cols: seq<Column>, header: seq<string>, rows: seq<seq<string>>, conv: Converter)
    requires UniqueNames(Defs(cols))
    requires AppendCsv(cols, header, rows, conv).outcome == Appended
    ensures Wide(rows, |Keys(header)|)
    ensures var s := AppendCsv(cols, header, rows, conv);
            var keys := Keys(header);
            && Defs(s.columns) == Defs(cols)
            && |s.columns| == |cols|
            && (forall k :: 0 <= k < |cols| ==> cols[k].definition.name in header)
            && forall k, q :: 0 <= k < |cols| && 0 <= q < |keys| && keys[q] == cols[k].definition.name ==>
                 && ConvertAll(conv, cols[k].definition.columnType, Field(rows, q)).Some?
                 && s.columns[k].data == cols[k].data + ConvertAll(conv, cols[k].definition.columnType, Field(rows, q)).value
  {
    var keys := Keys(header);
    AppendCsvGate(cols, header, rows, conv);
    CommitKeepsDefinitions(cols, keys, rows, conv, 0);
    CommitAppended(cols, keys, rows, conv);
  }

  /** The commit loop over distinct keys and uniquely named columns, when it fails at the
      key `keys[stop]`: columns named by earlier keys are extended by one value per row,
      all others are untouched. */
  lemma CommitStopsPartway(cols: seq<Column>, keys: seq<string>, rows: seq<seq<string>>, conv: Converter)
    requires Wide(rows, |keys|) && UniqueNames(Defs(cols)) && Distinct(keys)
    requires Commit(cols, keys, rows, conv, 0).outcome != Appended
    ensures var s := Commit(cols, keys, rows, conv, 0);
            var stop := Stop(Defs(cols), keys, rows, conv, 0);
            && stop < |keys|
            && |s.columns| == |cols|
            && s.outcome == FailureAt(Defs(cols), keys, stop)
            && forall k :: 0 <= k < |cols| ==>
                 && (cols[k].definition.name in keys[..stop] ==>
                       && |s.columns[k].data| == |cols[k].data| + |rows|
                       && s.columns[k].data[..|cols[k].data|] == cols[k].data)
                 && (cols[k].definition.name !in keys[..stop] ==> s.columns[k].data == cols[k].data)
  {
    var defs := Defs(cols);
    var s := Commit(cols, keys, rows, conv, 0);
    CommitOutcome(cols, keys, rows, conv, 0);
    CommitData(cols, keys, rows, conv, 0);
    var stop := Stop(defs, keys, rows, conv, 0);
    forall k | 0 <= k < |cols|
      ensures && (cols[k].definition.name in keys[..stop] ==>
                    && |s.columns[k].data| == |cols[k].data| + |rows|
                    && s.columns[k].data[..|cols[k].data|] == cols[k].data)
              && (cols[k].definition.name !in keys[..stop] ==> s.columns[k].data == cols[k].data)
    {
      assert defs[k] == cols[k].definition;
      GainOfUniqueName(defs, keys, rows, conv, k, 0, stop);
      if cols[k].definition.name in keys[..stop] {
        var q0 :| 0 <= q0 < stop && keys[..stop][q0] == cols[k].definition.name;
        assert keys[q0] == defs[k].name;
      }
    }
  }

  /** With unique column names, a call that fails at the commit stage (a header name with no
      column, or a field its column's type rejects) reports a header name, and leaves every
      column whose name comes earlier in the header already extended by one value per row,
      while the failing column and those after it are untouched. */
  lemma AppendCsvStopsPartway(cols: seq<Column>, header: seq<string>, rows: seq<seq<string>>, conv: Converter)
    requires UniqueNames(Defs(cols))
    requires AppendCsv(cols, header, rows, conv).outcome.UnknownHeader? || AppendCsv(cols, header, rows, conv).outcome.ConversionFailed?
    ensures var s := AppendCsv(cols, header, rows, conv);
            var keys := Keys(header);
            && s.outcome.name in header
            && (s.outcome.UnknownHeader? <==> forall k :: 0 <= k < |cols| ==> cols[k].definition.name != s.outcome.name)
            && Defs(s.columns) == Defs(cols)
            && forall q, k :: 0 <= q < |keys| && keys[q] == s.outcome.name && 0 <= k < |cols| ==>
                 && (cols[k].definition.name in keys[..q] ==>
                       && |s.columns[k].data| == |cols[k].data| + |rows|
                       && s.columns[k].data[..|cols[k].data|] == cols[k].data)
                 && (cols[k].definition.name !in keys[..q] ==> s.columns[k] == cols[k])
  {
    var keys := Keys(header);
    var defs := Defs(cols);
    var s := AppendCsv(cols, header, rows, conv);
    AppendCsvGate(cols, header, rows, conv);
    CommitKeepsDefinitions(cols, keys, rows, conv, 0);
    CommitStopsPartway(cols, keys, rows, conv);
    var stop := Stop(defs, keys, rows, conv, 0);
    if s.outcome.UnknownHeader? {
      forall k | 0 <= k < |cols| ensures cols[k].definition.name != s.outcome.name {
        assert !DefNamed(keys[stop])(defs[k]);
      }
    } else {
      var i := FirstIndex(defs, DefNamed(keys[stop])).value;
      assert cols[i].definition.name == s.outcome.name;
    }
    forall q, k | 0 <= q < |keys| && keys[q] == s.outcome.name && 0 <= k < |cols|
      ensures s.columns[k].definition == cols[k].definition
    {
      assert Defs(s.columns)[k] == s.columns[k].definition;
      assert defs[k] == cols[k].definition;
    }
  }

  /** Each commit stores only values of the column's own storage type. */
  lemma {:induction false} CommitKeepsTyped(cols: seq<Column>, keys: seq<string>, rows: seq<seq<string>>, conv: Converter, j: nat)
    requires j <= |keys| && Wide(rows, |keys|) && Typed(cols)
    ensures Typed(Commit(cols, keys, rows, conv, j).columns)
    decreases |keys| - j
  {
    if j < |keys| {
      match FirstIndex(cols, NameIs(keys[j]))
      case None =>
      case Some(i) =>
        var t := cols[i].definition.columnType;
        match ConvertAll(conv, t, Field(rows, j))
        case None =>
        case Some(vs) =>
          ConvertAllStorage(conv, t, Field(rows, j));
          var next := cols[i := Column(cols[i].definition, cols[i].data + vs)];
          assert Typed(next);
          CommitKeepsTyped(next, keys, rows, conv, j + 1);
    }
  }

  /** Whatever its outcome, the call leaves every stored value in its column's storage type. */
  lemma AppendCsvKeepsTyped(cols: seq<Column>, header: seq<string>, rows: seq<seq<string>>, conv: Converter)
    requires Typed(cols)
    ensures Typed(AppendCsv(cols, header, rows, conv).columns)
  {
    var keys := Keys(header);
    if FirstIndex(Names(cols), Lacks(keys)).None? && FirstIndex(rows, ShorterThan(|keys|)).None? {
      CommitKeepsTyped(cols, keys, rows, conv, 0);
    }
  }

  /** With unique column names, a successful call grows every column by one value per data
      row. */
  lemma AppendCsvGrowsColumns(cols: seq<Column>, header: seq<string>, rows: seq<seq<string>>, conv: Converter)
    requires UniqueNames(Defs(cols))
    requires AppendCsv(cols, header, rows, conv).outcome == Appended
    ensures var s := AppendCsv(cols, header, rows, conv);
            && |s.columns| == |cols|
            && forall k :: 0 <= k < |cols| ==> |s.columns[k].data| == |cols[k].data| + |rows|
  {
    var s := AppendCsv(cols, header, rows, conv);
    var keys := Keys(header);
    AppendCsvAppended(cols, header, rows, conv);
    forall k | 0 <= k < |cols| ensures |s.columns[k].data| == |cols[k].data| + |rows| {
      var name := cols[k].definition.name;
      assert name in keys;
      var q :| 0 <= q < |keys| && keys[q] == name;
      var added := ConvertAll(conv, cols[k].definition.columnType, Field(rows, q));
      assert added.Some? && s.columns[k].data == cols[k].data + added.value;
      assert |added.value| == |rows|;
    }
  }

  /** The first column in particular, which `len(dataset)` reads, grows by one value per
      data row in a successful call with unique column names. */
  lemma AppendCsvGrowsFirst(cols: seq<Column>, header: seq<string>, rows: seq<seq<string>>, conv: Converter)
    ensures var s := AppendCsv(cols, header, rows, conv);
            s.outcome == Appended && UniqueNames(Defs(cols)) && |cols| > 0 ==>
              |s.columns| == |cols| && |s.columns[0].data| == |cols[0].data| + |rows|
  {
    if AppendCsv(cols, header, rows, conv).outcome == Appended && UniqueNames(Defs(cols)) && |cols| > 0 {
      AppendCsvGrowsColumns(cols, header, rows, conv);
    }
  }

  /** Growing every column by the same number of values keeps columns of equal length equal. */
  lemma GrowthKeepsRectangular(cols: seq<Column>, grown: seq<Column>, n: nat)
    requires |grown| == |cols|
    requires forall k :: 0 <= k < |cols| ==> |grown[k].data| == |cols[k].data| + n
    ensures Rectangular(cols) ==> Rectangular(grown)
  {
    if Rectangular(cols) {
      forall a, b | 0 <= a < |grown| && 0 <= b < |grown|
        ensures |grown[a].data| == |grown[b].data|
      {
        assert |cols[a].data| == |cols[b].data|;
      }
    }
  }

  /** With unique column names, a successful call grows every column by one value per data
      row, so columns of equal length stay of equal length. */
  lemma AppendCsvKeepsRectangular(cols: seq<Column>, header: seq<string>, rows: seq<seq<string>>, conv: Converter)
    requires UniqueNames(Defs(cols))
    requires AppendCsv(cols, header, rows, conv).outcome == Appended
    ensures Rectangular(cols) ==> Rectangular(AppendCsv(cols, header, rows, conv).columns)
  {
    AppendCsvGrowsColumns(cols, header, rows, conv);
    GrowthKeepsRectangular(cols, AppendCsv(cols, header, rows, conv).columns, |rows|);
  }

  /** Appends are cumulative: two successful calls grow every column by the data rows of both. */
  lemma AppendCsvTwice(cols: seq<Column>, header1: seq<string>, rows1: seq<seq<string>>,
                       header2: seq<string>, rows2: seq<seq<string>>, conv: Converter)
    requires UniqueNames(Defs(cols))
    requires AppendCsv(cols, header1, rows1, conv).outcome == Appended
    requires AppendCsv(AppendCsv(cols, header1, rows1, conv).columns, header2, rows2, conv).outcome == Appended
    ensures var s := AppendCsv(AppendCsv(cols, header1, rows1, conv).columns, header2, rows2, conv);
            |s.columns| == |cols| &&
            forall k :: 0 <= k < |cols| ==> |s.columns[k].data| == |cols[k].data| + |rows1| + |rows2|
  {
    var mid := AppendCsv(cols, header1, rows1, conv).columns;
    AppendCsvAppended(cols, header1, rows1, conv);
    AppendCsvGrowsColumns(cols, header1, rows1, conv);
    assert Defs(mid) == Defs(cols);
    AppendCsvGrowsColumns(mid, header2, rows2, conv);
  }
}
