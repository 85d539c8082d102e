/** Concrete calls of `append_csv` that exhibit how the source behaves on a repeated header
    name, on repeated column names, and on a failure part-way through the commit loop. */
module CsvIngestCases {
  import opened Wrappers
  import opened Utils
  import opened Columns
  import opened CsvIngest

  function TextColumn(name: string, data: seq<Value>): Column
  {
    Column(ColumnDefinition(name, "", false, STRING), data)
  }

  function IntColumn(name: string, data: seq<Value>): Column
  {
    Column(ColumnDefinition(name, "", false, INTEGER), data)
  }

  lemma StringCell(conv: Converter, text: string)
    ensures ConvertAll(conv, STRING, [text]) == Some([Text(text)])
  {
    assert [text][1..] == [];
    assert [Text(text)] + [] == [Text(text)];
  }

  lemma SingleKey(name: string)
    ensures Keys([name]) == [name]
  {
    assert [name][..0] == [];
  }

  lemma TwoKeys(a: string, b: string)
    requires a != b
    ensures Keys([a, b]) == [a, b]
  {
    assert [a, b][..1] == [a];
    SingleKey(a);
  }

  lemma RepeatedHeaderKeys(a: string, b: string)
    requires a != b
    ensures Keys([a, a, b]) == [a, b]
  {
    assert [a, a, b][..2] == [a, a];
    assert [a, a][..1] == [a];
    SingleKey(a);
  }

  /** Column `i` is the first to carry `name`, so the lookup by name lands on it. */
  lemma LookupAt(cols: seq<Column>, name: string, i: nat)
    requires i < |cols| && cols[i].definition.name == name
    requires forall k :: 0 <= k < i ==> cols[k].definition.name != name
    ensures FirstIndex(cols, NameIs(name)) == Some(i)
  {
    forall k | 0 <= k < i ensures !NameIs(name)(cols[k]) {
      assert !DefNamed(name)(cols[k].definition);
    }
    assert DefNamed(name)(cols[i].definition);
    FirstIndexIs(cols, NameIs(name), i);
  }

  /** Every column is named in the header and every row is wide enough: the call goes
      straight to the commit loop. */
  lemma Admitted(cols: seq<Column>, header: seq<string>, keys: seq<string>, rows: seq<seq<string>>, conv: Converter)
    requires Keys(header) == keys && Wide(rows, |keys|)
    requires forall k :: 0 <= k < |cols| ==> cols[k].definition.name in header
    ensures AppendCsv(cols, header, rows, conv) == Commit(cols, keys, rows, conv, 0)
  {
    AppendCsvGate(cols, header, rows, conv);
  }

  /** Key `j` carries one text field and names the text column `i`. */
  lemma CommitText(cols: seq<Column>, keys: seq<string>, rows: seq<seq<string>>, conv: Converter, j: nat, i: nat, text: string)
    requires j < |keys| && Wide(rows, |keys|) && i < |cols|
    requires cols[i].definition.columnType == STRING
    requires FirstIndex(cols, NameIs(keys[j])) == Some(i)
    requires Field(rows, j) == [text]
    ensures Commit(cols, keys, rows, conv, j)
         == Commit(cols[i := Column(cols[i].definition, cols[i].data + [Text(text)])], keys, rows, conv, j + 1)
  {
    StringCell(conv, text);
    CommitUnfold(cols, keys, rows, conv, j, i, [Text(text)]);
  }

  /** A header that repeats a name collapses to fewer keys, but fields are still taken by key
      position: with header a,a,b the column b receives the field under the second a, not
      the one under b. */
  lemma DuplicateHeaderMisaligns(a: string, b: string, x: string, y: string, z: string, conv: Converter)
    requires a != b
    ensures AppendCsv([TextColumn(a, []), TextColumn(b, [])], [a, a, b], [[x, y, z]], conv)
         == Ingested(Appended, [TextColumn(a, [Text(x)]), TextColumn(b, [Text(y)])])
  {
    RepeatedHeaderKeys(a, b);
    Admitted([TextColumn(a, []), TextColumn(b, [])], [a, a, b], [a, b], [[x, y, z]], conv);
    FirstKeyCommits(a, TextColumn(b, []), b, [x, y, z], conv);
    MisalignedSecondKey(a, b, x, y, z, conv);
  }

  lemma MisalignedSecondKey(a: string, b: string, x: string, y: string, z: string, conv: Converter)
    requires a != b
    ensures Commit([TextColumn(a, [Text(x)]), TextColumn(b, [])], [a, b], [[x, y, z]], conv, 1)
         == Ingested(Appended, [TextColumn(a, [Text(x)]), TextColumn(b, [Text(y)])])
  {
    var next := [TextColumn(a, [Text(x)]), TextColumn(b, [])];
    LookupAt(next, b, 1);
    assert Field([[x, y, z]], 1) == [y];
    CommitText(next, [a, b], [[x, y, z]], conv, 1, 1, y);
    assert next[1].data + [Text(y)] == [Text(y)];
    assert next[1 := Column(next[1].definition, next[1].data + [Text(y)])] == [TextColumn(a, [Text(x)]), TextColumn(b, [Text(y)])];
  }

  /** Lookup by name finds the first column carrying it: when two columns share a name, only
      the first is extended, and columns of equal length drift apart although the call
      succeeds. */
  lemma DuplicateColumnStarves(a: string, x: string, conv: Converter)
    ensures AppendCsv([TextColumn(a, []), TextColumn(a, [])], [a], [[x]], conv)
         == Ingested(Appended, [TextColumn(a, [Text(x)]), TextColumn(a, [])])
    ensures Rectangular([TextColumn(a, []), TextColumn(a, [])])
    ensures !Rectangular([TextColumn(a, [Text(x)]), TextColumn(a, [])])
  {
    var cols := [TextColumn(a, []), TextColumn(a, [])];
    var last := [TextColumn(a, [Text(x)]), TextColumn(a, [])];
    SingleKey(a);
    Admitted(cols, [a], [a], [[x]], conv);
    LookupAt(cols, a, 0);
    assert Field([[x]], 0) == [x];
    CommitText(cols, [a], [[x]], conv, 0, 0, x);
    assert cols[0].data + [Text(x)] == [Text(x)];
    assert cols[0 := Column(cols[0].definition, cols[0].data + [Text(x)])] == last;
    assert |last[0].data| != |last[1].data|;
  }

  /** A field the column's type rejects fails the call after earlier columns were already
      extended: columns of equal length come out of the failed call of unequal length. */
  lemma ConversionFailureIsNotAtomic(a: string, n: string, x: string, y: string, conv: Converter)
    requires a != n && conv.parseInt(y) == None
    ensures AppendCsv([TextColumn(a, []), IntColumn(n, [])], [a, n], [[x, y]], conv)
         == Ingested(ConversionFailed(n), [TextColumn(a, [Text(x)]), IntColumn(n, [])])
    ensures Rectangular([TextColumn(a, []), IntColumn(n, [])])
    ensures !Rectangular([TextColumn(a, [Text(x)]), IntColumn(n, [])])
  {
    var next := [TextColumn(a, [Text(x)]), IntColumn(n, [])];
    TwoKeys(a, n);
    Admitted([TextColumn(a, []), IntColumn(n, [])], [a, n], [a, n], [[x, y]], conv);
    FirstKeyCommits(a, IntColumn(n, []), n, [x, y], conv);
    SecondKeyRejected(a, n, x, y, conv);
    assert |next[0].data| != |next[1].data|;
  }

  /** The integer column `n` rejects the field `y`, so the commit loop stops at key `n`. */
  lemma SecondKeyRejected(a: string, n: string, x: string, y: string, conv: Converter)
    requires a != n && conv.parseInt(y) == None
    ensures Commit([TextColumn(a, [Text(x)]), IntColumn(n, [])], [a, n], [[x, y]], conv, 1)
         == Ingested(ConversionFailed(n), [TextColumn(a, [Text(x)]), IntColumn(n, [])])
  {
    LookupAt([TextColumn(a, [Text(x)]), IntColumn(n, [])], n, 1);
    assert Field([[x, y]], 1) == [y];
    assert ConvertValue(conv, INTEGER, y) == None;
    assert ConvertAll(conv, INTEGER, [y]) == None;
  }

  /** The text column `a`, first among the columns and first among the keys `a`, `b`, takes
      the first field of the one row. */
  lemma FirstKeyCommits(a: string, other: Column, b: string, row: seq<string>, conv: Converter)
    requires 2 <= |row|
    ensures Commit([TextColumn(a, []), other], [a, b], [row], conv, 0)
         == Commit([TextColumn(a, [Text(row[0])]), other], [a, b], [row], conv, 1)
  {
    var cols := [TextColumn(a, []), other];
    LookupAt(cols, a, 0);
    assert Field([row], 0) == [row[0]];
    CommitText(cols, [a, b], [row], conv, 0, 0, row[0]);
    assert cols[0].data + [Text(row[0])] == [Text(row[0])];
    assert cols[0 := Column(cols[0].definition, cols[0].data + [Text(row[0])])] == [TextColumn(a, [Text(row[0])]), other];
  }

  /** A header name that no column carries is not ignored: it fails the call (the source's
      `assert`), after the columns before it in the header were already extended. */
  lemma UnknownHeaderIsNotAtomic(a: string, extra: string, x: string, y: string, conv: Converter)
    requires a != extra
    ensures AppendCsv([TextColumn(a, [])], [a, extra], [[x, y]], conv)
         == Ingested(UnknownHeader(extra), [TextColumn(a, [Text(x)])])
  {
    var cols := [TextColumn(a, [])];
    var next := [TextColumn(a, [Text(x)])];
    TwoKeys(a, extra);
    Admitted(cols, [a, extra], [a, extra], [[x, y]], conv);
    LookupAt(cols, a, 0);
    assert Field([[x, y]], 0) == [x];
    CommitText(cols, [a, extra], [[x, y]], conv, 0, 0, x);
    assert cols[0].data + [Text(x)] == [Text(x)];
    assert cols[0 := Column(cols[0].definition, cols[0].data + [Text(x)])] == next;
    assert !DefNamed(extra)(next[0].definition);
    assert !NameIs(extra)(next[0]);
  }
}
