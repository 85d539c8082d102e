/** Column types, their storage (DTYPE_MAP), column definitions and the conversion of
    CSV text into stored values (databankpy/dataset.py, lines 17-46 and 119). */
module Columns {
  import opened Wrappers

  /** The logical column types a descriptor may declare. */
  datatype ColumnType = FLOAT | INTEGER | STRING

  datatype License = PUBLIC_DOMAIN | OTHER

  /** The numpy storage types DTYPE_MAP assigns: float64, int32 and object. */
  datatype Dtype = Float64 | Int32 | Object

  /** DTYPE_MAP. */
  function DtypeOf(t: ColumnType): Dtype
  {
    match t
    case FLOAT => Float64
    case INTEGER => Int32
    case STRING => Object
  }

  /** The range of numpy's int32. */
  newtype int32 = x: int | -0x8000_0000 <= x < 0x8000_0000

  /** A stored cell. Float64 is abstracted to a real: no rounding is modelled. */
  datatype Value = Float(x: real) | Integer(n: int32) | Text(s: string)
  {
    function Storage(): Dtype
    {
      match this
      case Float(_) => Float64
      case Integer(_) => Int32
      case Text(_) => Object
    }
  }

  datatype ColumnDefinition = ColumnDefinition(name: string, description: string, nullable: bool, columnType: ColumnType)

  /** A column: its definition plus the data numpy holds for it. */
  datatype Column = Column(definition: ColumnDefinition, data: seq<Value>)

  /** The descriptor a Dataset is built from. */
  datatype DatasetInfo = DatasetInfo(name: string, description: string, license: License, columns: seq<ColumnDefinition>)

  /** numpy's text parsers for float64 and int32, left abstract: each either yields a
      value or rejects the text. Object (STRING) storage needs no parser. */
  datatype Converter = Converter(parseFloat: string -> Option<real>, parseInt: string -> Option<int32>)

  /** Conversion of one CSV field to the storage of a column of type `t`. */
  function ConvertValue(conv: Converter, t: ColumnType, text: string): (r: Option<Value>)
    ensures r.Some? ==> r.value.Storage() == DtypeOf(t)
    ensures t == STRING ==> r == Some(Text(text))
  {
    match t
    case FLOAT => (match conv.parseFloat(text) case Some(x) => Some(Float(x)) case None => None)
    case INTEGER => (match conv.parseInt(text) case Some(n) => Some(Integer(n)) case None => None)
    case STRING => Some(Text(text))
  }

  /** `np.array(data, dtype=DTYPE_MAP[t])`: converts every field, or fails as a whole when
      any single field cannot be converted. */
  function ConvertAll(conv: Converter, t: ColumnType, texts: seq<string>): (r: Option<seq<Value>>)
    ensures r.Some? <==> forall k :: 0 <= k < |texts| ==> ConvertValue(conv, t, texts[k]).Some?
    ensures r.Some? ==> |r.value| == |texts|
    ensures r.Some? ==> forall k :: 0 <= k < |texts| ==> r.value[k] == ConvertValue(conv, t, texts[k]).value
  {
    if texts == [] then Some([])
    else
      match ConvertValue(conv, t, texts[0])
      case None => None
      case Some(v) =>
        match ConvertAll(conv, t, texts[1..])
        case None => None
        case Some(vs) => Some([v] + vs)
  }

  /** A STRING column never rejects a field: it stores the text itself. */
  lemma ConvertAllString(conv: Converter, texts: seq<string>)
    ensures ConvertAll(conv, STRING, texts).Some?
    ensures forall k :: 0 <= k < |texts| ==> ConvertAll(conv, STRING, texts).value[k] == Text(texts[k])
  {
  }

  /** Whatever ConvertAll yields for a column of type `t` is stored as DTYPE_MAP[t]. */
  lemma ConvertAllStorage(conv: Converter, t: ColumnType, texts: seq<string>)
    requires ConvertAll(conv, t, texts).Some?
    ensures forall v :: v in ConvertAll(conv, t, texts).value ==> v.Storage() == DtypeOf(t)
  {
  }

  function Names(cols: seq<Column>): seq<string>
  {
    seq(|cols|, k requires 0 <= k < |cols| => cols[k].definition.name)
  }

  function Defs(cols: seq<Column>): seq<ColumnDefinition>
  {
    seq(|cols|, k requires 0 <= k < |cols| => cols[k].definition)
  }

  /** No two definitions share a name. */
  predicate UniqueNames(defs: seq<ColumnDefinition>)
  {
    forall a, b :: 0 <= a < b < |defs| ==> defs[a].name != defs[b].name
  }

  /** Every stored value has the storage DTYPE_MAP gives its column's type. */
  predicate Typed(cols: seq<Column>)
  {
    forall k, v :: 0 <= k < |cols| && v in cols[k].data ==> v.Storage() == DtypeOf(cols[k].definition.columnType)
  }

  /** All columns hold the same number of values. */
  predicate Rectangular(cols: seq<Column>)
  {
    forall a, b :: 0 <= a < |cols| && 0 <= b < |cols| ==> |cols[a].data| == |cols[b].data|
  }
}
