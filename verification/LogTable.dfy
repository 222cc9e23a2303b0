/** The abstract database: JSON entries, table cells, the log table with its row ids, and the dictionary table. */
module LogTable {
  import opened IdSets

  import opened Results

  /** A JSON value; arrays and objects are opaque and carry the text they dump to. */
  datatype Json = JNull | JBool(b: bool) | JInt(n: int) | JText(text: string) | JComposite(dumped: string)

  /** What Insert looks columns up in. An entry that is not a JSON object has no members. */
  type LogEntry = map<string, Json>

  datatype Cell = Null | Int(n: int) | Text(s: string)

  /** The cells of the columns that are not the row id. */
  type Row = map<string, Cell>

  datatype Column = Column(name: string, notNull: bool, isKey: bool)

  const NUL := '\0'

  /** A C string ends at its first NUL. */
  function UpToNul(text: string): (cut: string)
    ensures cut <= text && NUL !in cut && (|cut| < |text| ==> text[|cut|] == NUL)
    ensures cut == text <==> NUL !in text
  {
    if text == "" || text[0] == NUL then "" else [text[0]] + UpToNul(text[1..])
  }

  function Unchanged(text: string): string { text }

  /** What a table column gives back for a text without NUL: with NUMERIC affinity, a text that looks like a number
      comes back in the form SQLite writes that number. Given back once, it is given back again. */
  type Affinity = f: string -> string |
      forall t :: NUL !in t ==> NUL !in f(t) && f(f(t)) == f(t)
    witness Unchanged

  /** What the writer shares with every reader. autoincrement: whether the id column was declared so; affinity: that
      of the dictionary table's value column. */
  datatype Catalog = Catalog(columns: seq<Column>, compressed: set<string>, timestamp: string, autoincrement: bool,
                             affinity: Affinity) {
    function DataColumns(): seq<Column> { NonKeys(columns) }
    predicate HasColumn(name: string) { exists c :: c in columns && c.name == name }

    /** What the dictionary table gives back for a text: it is bound as a C string to a column with an affinity. */
    function Kept(text: string): string { affinity(UpToNul(text)) }
  }

  lemma KeptIsKept(cat: Catalog, text: string)
    ensures cat.Kept(cat.Kept(text)) == cat.Kept(text) && NUL !in cat.Kept(text)
  {
  }

  /** A text is kept whole if and only if it holds no NUL and the affinity leaves it alone. */
  lemma KeptWholeExactlyWhen(cat: Catalog, text: string)
    ensures cat.Kept(text) == text <==> NUL !in text && cat.affinity(text) == text
  {
    KeptIsKept(cat, text);
  }

  function NonKeys(columns: seq<Column>): seq<Column> {
    if columns == [] then []
    else NonKeys(columns[..|columns| - 1]) + (if columns[|columns| - 1].isKey then [] else [columns[|columns| - 1]])
  }

  datatype DictRow = DictRow(column: string, value: string, id: int)

  /** Committed data: the log rows by id, the greatest id ever assigned, and the dictionary table. */
  datatype Tables = Tables(rows: map<int, Row>, sequence: nat, dict: seq<DictRow>)

  const ID := "id"

  function CellOf(id: int, row: Row, column: string): Cell {
    if column == ID then Int(id) else if column in row then row[column] else Null
  }

  // ── Values ─────────────────────────────────────────────────────────────────

  function Digits(n: nat): string {
    var last := ['0' + (n % 10) as char];
    if n < 10 then last else Digits(n / 10) + last
  }

  function DumpInt(n: int): string {
    if n < 0 then "-" + Digits(-n) else Digits(n)
  }

  function Dump(v: Json): string {
    match v
    case JNull => "null"
    case JBool(b) => if b then "true" else "false"
    case JInt(n) => DumpInt(n)
    case JText(text) => text
    case JComposite(dumped) => dumped
  }

  /** The value bound to a statement parameter. */
  function Bound(v: Json): Cell {
    match v
    case JNull => Null
    case JBool(b) => Int(if b then 1 else 0)
    case JInt(n) => Int(n)
    case JText(text) => Text(text)
    case JComposite(dumped) => Text(dumped)
  }

  /** The text of a cell. */
  function CellText(c: Cell): string {
    match c
    case Null => ""
    case Int(n) => DumpInt(n)
    case Text(s) => s
  }

  /** The text that stands for a non-null value in a compressed column: strings as they are, booleans as 0 or 1. */
  function StoredText(v: Json): string {
    CellText(Bound(v))
  }

  // ── Comparisons ────────────────────────────────────────────────────────────

  predicate TextLess(a: string, b: string) {
    b != "" && (a == "" || a[0] < b[0] || (a[0] == b[0] && TextLess(a[1..], b[1..])))
  }

  /** Integers sort before texts. */
  predicate CellLess(a: Cell, b: Cell) {
    match (a, b)
    case (Int(m), Int(n)) => m < n
    case (Int(_), Text(_)) => true
    case (Text(s), Text(t)) => TextLess(s, t)
    case _ => false
  }

  /** SQL comparison: never true when either side is NULL. */
  predicate Compare(op: string, a: Cell, b: Cell) {
    && a != Null && b != Null
    && match op
       case "=" => a == b
       case "!=" => a != b
       case ">" => CellLess(b, a)
       case ">=" => !CellLess(a, b)
       case "<" => CellLess(a, b)
       case "<=" => !CellLess(b, a)
       case _ => false
  }

  /** If a sorts before b, then any text sorts after a or before b. */
  lemma {:induction false} TextOrder(a: string, b: string, x: string)
    requires TextLess(a, b)
    ensures TextLess(a, x) || TextLess(x, b)
    decreases |a|
  {
    if x != "" && a != "" && a[0] == b[0] == x[0] {
      TextOrder(a[1..], b[1..], x[1..]);
    }
  }

  lemma CellOrder(a: Cell, b: Cell, x: Cell)
    requires CellLess(a, b) && x != Null
    ensures CellLess(a, x) || CellLess(x, b)
  {
    if a.Text? && x.Text? {
      TextOrder(a.s, b.s, x.s);
    }
  }

  predicate Contains(hay: string, needle: string) {
    needle <= hay || (hay != "" && Contains(hay[1..], needle))
  }

  // ── Extremes of the id column ──────────────────────────────────────────────

  ghost function MinLogId(rows: map<int, Row>): int { if rows.Keys == {} then 0 else MinOf(rows.Keys) }

  ghost function MaxLogId(rows: map<int, Row>): int { if rows.Keys == {} then 0 else MaxOf(rows.Keys) }

  method GetMinLogId(rows: map<int, Row>) returns (id: int)
    ensures id == MinLogId(rows)
  {
    if rows.Keys == {} {
      return 0;
    }
    id :| id in rows.Keys && forall y :: y in rows.Keys ==> id <= y by { MinExists(rows.Keys); }
  }

  method GetMaxLogId(rows: map<int, Row>) returns (id: int)
    ensures id == MaxLogId(rows)
  {
    if rows.Keys == {} {
      return 0;
    }
    id :| id in rows.Keys && forall y :: y in rows.Keys ==> y <= id by { MaxExists(rows.Keys); }
  }
}
