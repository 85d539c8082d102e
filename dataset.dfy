/** The `Dataset` class of databankpy/dataset.py: metadata set once at construction and a
    list of columns whose data `append_csv` extends in place. */
module Datasets {
  import opened Wrappers
  import Utils
  import opened Columns
  import opened CsvIngest

  class Dataset {
    const name: string
    const description: string
    const license: License
    var columns: seq<Column>

    /** Every stored value has its column's storage type. */
    ghost predicate Valid()
      reads this
    {
      Typed(columns)
    }

    /** One empty column per definition, in descriptor order. */
    constructor (info: DatasetInfo)
      ensures name == info.name && description == info.description && license == info.license
      ensures Defs(columns) == info.columns
      ensures forall k :: 0 <= k < |columns| ==> columns[k].data == []
      ensures |info.columns| > 0 ==> Length() == Some(0)
      ensures Valid()
    {
      name := info.name;
      description := info.description;
      license := info.license;
      columns := [];
      new;
      var i := 0;
      while i < |info.columns|
        invariant 0 <= i <= |info.columns|
        invariant Defs(columns) == info.columns[..i]
        invariant forall k :: 0 <= k < |columns| ==> columns[k].data == []
      {
        columns := columns + [Column(info.columns[i], [])];
        i := i + 1;
      }
    }

    /** `len(dataset)`: the number of values in the first column, or None where Python's
        indexing of an empty column list raises IndexError. */
    function Length(): (n: Option<nat>)
      reads this
      ensures n.None? <==> |columns| == 0
      ensures n.Some? ==> n.value == |columns[0].data|
      ensures n.Some? && Rectangular(columns) ==> forall k :: 0 <= k < |columns| ==> |columns[k].data| == n.value
    {
      if |columns| == 0 then None else Some(|columns[0].data|)
    }

    /** The column names, in column order. */
    function ColumnNames(): (names: seq<string>)
      reads this
      ensures |names| == |columns|
      ensures forall k :: 0 <= k < |columns| ==> names[k] == columns[k].definition.name
    {
      Names(columns)
    }

    /** `append_csv` on a file already split into its header and its data rows. */
    method AppendCsv(header: seq<string>, rows: seq<seq<string>>, conv: Converter) returns (outcome: Outcome)
      requires Valid()
      modifies this
      ensures Valid()
      ensures Ingested(outcome, columns) == CsvIngest.AppendCsv(old(columns), header, rows, conv)
    {
      AppendCsvKeepsTyped(columns, header, rows, conv);
      ghost var spec := CsvIngest.AppendCsv(columns, header, rows, conv);
      // The header becomes the keys of a dict: each name once, first occurrence first.
      var keys := Keys(header);

      // Every declared column must be one of the keys.
      var missing := FirstMissing(ColumnNames(), keys);
      if missing.Some? {
        return MissingColumn(columns[missing.value].definition.name);
      }
      // Split every row into one list per key.
      var short, table := Distribute(keys, rows);
      if short.Some? {
        return RowTooShort(short.value);
      }
      assert spec == Commit(columns, keys, rows, conv, 0);

      // Commit key by key: look the column up, convert, extend it in place.
      var j := 0;
      while j < |keys|
        invariant 0 <= j <= |keys|
        invariant Commit(columns, keys, rows, conv, j) == spec
      {
        var index := Utils.FindIndex(columns, NameIs(keys[j]));
        if index.None? {
          return UnknownHeader(keys[j]);
        }
        var i := index.value;
        var values := ConvertAll(conv, columns[i].definition.columnType, table[j]);
        if values.None? {
          return ConversionFailed(keys[j]);
        }
        columns := columns[i := Column(columns[i].definition, columns[i].data + values.value)];
        j := j + 1;
      }
      return Appended;
    }
  }

  /** The header check of `append_csv`: the position of the first declared column name the
      header keys lack, or None when all are present. */
  method FirstMissing(names: seq<string>, keys: seq<string>) returns (missing: Option<nat>)
    ensures missing == Utils.FirstIndex(names, Lacks(keys))
  {
    var m := 0;
    while m < |names|
      invariant 0 <= m <= |names|
      invariant forall k :: 0 <= k < m ==> names[k] in keys
    {
      if names[m] !in keys {
        Utils.FirstIndexIs(names, Lacks(keys), m);
        return Some(m);
      }
      m := m + 1;
    }
    return None;
  }

  /** The distribution loops of `append_csv`: field `q` of every row goes to the list of the
      `q`-th key. A row with fewer fields than there are keys stops it, as Python's IndexError
      does, and its position is reported. */
  method Distribute(keys: seq<string>, rows: seq<seq<string>>) returns (short: Option<nat>, table: seq<seq<string>>)
    ensures short == Utils.FirstIndex(rows, ShorterThan(|keys|))
    ensures short.None? ==> Wide(rows, |keys|) && |table| == |keys|
    ensures short.None? ==> forall q :: 0 <= q < |keys| ==> table[q] == Field(rows, q)
  {
    table := seq(|keys|, _ => []);
    var t := 0;
    while t < |rows|
      invariant 0 <= t <= |rows|
      invariant |table| == |keys|
      invariant forall r :: 0 <= r < t ==> |keys| <= |rows[r]|
      invariant forall q :: 0 <= q < |keys| ==> |table[q]| == t
      invariant forall q, r :: 0 <= q < |keys| && 0 <= r < t ==> table[q][r] == rows[r][q]
    {
      var row := rows[t];
      var q := 0;
      while q < |keys|
        invariant 0 <= q <= |keys| && q <= |row|
        invariant |table| == |keys|
        invariant forall p :: 0 <= p < |keys| ==> |table[p]| == if p < q then t + 1 else t
        invariant forall p, r :: 0 <= p < |keys| && 0 <= r < t ==> table[p][r] == rows[r][p]
        invariant forall p :: 0 <= p < q ==> table[p][t] == row[p]
      {
        if q >= |row| {
          Utils.FirstIndexIs(rows, ShorterThan(|keys|), t);
          return Some(t), table;
        }
        table := table[q := table[q] + [row[q]]];
        q := q + 1;
      }
      t := t + 1;
    }
    short := None;
    assert Wide(rows, |keys|);
    forall q | 0 <= q < |keys| ensures table[q] == Field(rows, q) {
    }
  }
}
