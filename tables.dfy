/**
 * The record model shared by every stage: a cell value, a row (field -> value),
 * a table (its column set and its ordered rows), the record set, the errors a
 * stage can raise, and the total order pandas uses when it sorts values.
 */
module Tables {
  import opened Common
  import opened Calendar
  import opened Sequences

  /** A DataFrame cell: NaN/None, an integer, a string, or a parsed timestamp. */
  datatype Value = Null | Int(i: int) | Str(s: string) | Stamp(d: Date)

  type Row = map<string, Value>

  datatype Table = Table(columns: set<string>, rows: seq<Row>)

  /** Entity name -> table. */
  type RecordSet = map<string, Table>

  /** Exceptions the core raises and lets propagate. */
  datatype Error =
    | MissingColumn(column: string)   // pandas KeyError on a column
    | MissingTable(name: string)      // dict KeyError / `None` from `dict.get`
    | InvalidId(id: Value)            // ValueError from `astype(int)`

  /** Column lookup; a row that lacks the field reads as null. */
  function Cell(r: Row, c: string): Value {
    if c in r then r[c] else Null
  }

  /** Every row carries exactly the table's columns. */
  predicate WellFormed(t: Table) {
    forall r :: r in t.rows ==> r.Keys == t.columns
  }

  /** The values a column holds (pandas `isin` matches null against null too). */
  function ColumnValues(t: Table, c: string): (vs: set<Value>)
    ensures forall r :: r in t.rows ==> Cell(r, c) in vs
    ensures forall v :: v in vs ==> exists r :: r in t.rows && Cell(r, c) == v
  {
    set r | r in t.rows :: Cell(r, c)
  }

  // ---- ordering ----

  /** Lexicographic order on code points, as Python compares `str`. */
  predicate StrLess(a: string, b: string)
    decreases |a|
  {
    if |a| == 0 then |b| > 0
    else if |b| == 0 then false
    else if a[0] == b[0] then StrLess(a[1..], b[1..])
    else a[0] < b[0]
  }

  lemma {:induction false} StrLessIrreflexive(a: string)
    ensures !StrLess(a, a)
    decreases |a|
  {
    if |a| > 0 { StrLessIrreflexive(a[1..]); }
  }

  lemma {:induction false} StrLessTransitive(a: string, b: string, c: string)
    requires StrLess(a, b) && StrLess(b, c)
    ensures StrLess(a, c)
    decreases |a|
  {
    if |a| > 0 && |b| > 0 && |c| > 0 && a[0] == b[0] && b[0] == c[0] {
      StrLessTransitive(a[1..], b[1..], c[1..]);
    }
  }

  lemma {:induction false} StrLessTotal(a: string, b: string)
    requires a != b
    ensures StrLess(a, b) || StrLess(b, a)
    decreases |a|
  {
    if |a| > 0 && |b| > 0 && a[0] == b[0] {
      assert a == [a[0]] + a[1..] && b == [b[0]] + b[1..];
      StrLessTotal(a[1..], b[1..]);
    }
  }

  function Rank(v: Value): int {
    match v
    case Int(_) => 0
    case Str(_) => 1
    case Stamp(_) => 2
    case Null => 3
  }

  /**
   * The order `sort_values` and `groupby` use: numbers by value, strings
   * lexicographically, timestamps chronologically, nulls last.
   */
  predicate Less(a: Value, b: Value) {
    if Rank(a) != Rank(b) then Rank(a) < Rank(b)
    else match a
      case Int(x) => x < b.i
      case Str(x) => StrLess(x, b.s)
      case Stamp(x) => DateLess(x, b.d)
      case Null => false
  }

  lemma LessIrreflexive(a: Value)
    ensures !Less(a, a)
  {
    if a.Str? { StrLessIrreflexive(a.s); }
  }

  lemma LessTransitive(a: Value, b: Value, c: Value)
    requires Less(a, b) && Less(b, c)
    ensures Less(a, c)
  {
    if a.Str? && b.Str? && c.Str? { StrLessTransitive(a.s, b.s, c.s); }
  }

  lemma LessTotal(a: Value, b: Value)
    requires a != b
    ensures Less(a, b) || Less(b, a)
  {
    if a.Str? && b.Str? { StrLessTotal(a.s, b.s); }
  }

  lemma LessAsymmetric(a: Value, b: Value)
    requires Less(a, b)
    ensures !Less(b, a)
  {
    if Less(b, a) {
      LessTransitive(a, b, a);
      LessIrreflexive(a);
    }
  }

  /** `Less` is a strict order, so the generic sorting lemmas apply to it. */
  lemma LessIsStrictOrder()
    ensures StrictOrder(Less)
  {
    forall a ensures !Less(a, a) { LessIrreflexive(a); }
    forall a, b, c | Less(a, b) && Less(b, c) ensures Less(a, c) { LessTransitive(a, b, c); }
  }

  /** Non-strict version of `Less`. */
  predicate LessEq(a: Value, b: Value) {
    !Less(b, a)
  }

  // ---- integer text ----

  function NatToString(n: nat): (s: string)
    ensures |s| > 0 && forall i :: 0 <= i < |s| ==> IsDigit(s[i])
  {
    if n < 10 then [DigitChar(n)] else NatToString(n / 10) + [DigitChar(n % 10)]
  }

  /** `str(n)` of a Python int. */
  function IntToString(n: int): string {
    if n < 0 then "-" + NatToString(-n) else NatToString(n)
  }

  predicate AllDigits(s: string) {
    forall i :: 0 <= i < |s| ==> IsDigit(s[i])
  }

  /** `int(s)` on a string: an optional sign, then at least one digit. */
  function ParseInt(s: string): Option<int> {
    if |s| > 0 && AllDigits(s) then Some(ReadDigits(s))
    else if |s| > 1 && s[0] == '-' && AllDigits(s[1..]) then Some(-ReadDigits(s[1..]))
    else if |s| > 1 && s[0] == '+' && AllDigits(s[1..]) then Some(ReadDigits(s[1..]))
    else None
  }

  lemma {:induction false} NatToStringRead(n: nat)
    ensures ReadDigits(NatToString(n)) == n
  {
    if n >= 10 {
      var s := NatToString(n);
      assert s[..|s| - 1] == NatToString(n / 10);
      NatToStringRead(n / 10);
    }
  }

  /** `int(str(n)) == n`. */
  lemma IntToStringRoundTrip(n: int)
    ensures ParseInt(IntToString(n)) == Some(n)
  {
    if n < 0 {
      var s := IntToString(n);
      assert s[1..] == NatToString(-n);
      NatToStringRead(-n);
    } else {
      NatToStringRead(n);
    }
  }

  // ---- row filters and subsequences ----

  /** Keeps, in order, the rows that satisfy `keep` (a boolean-mask selection). */
  function FilterRows(rows: seq<Row>, keep: Row -> bool): (r: seq<Row>)
    ensures |r| <= |rows|
    ensures forall x :: x in r ==> x in rows && keep(x)
    ensures forall x :: x in rows && keep(x) ==> x in r
  {
    if rows == [] then []
    else (if keep(rows[0]) then [rows[0]] else []) + FilterRows(rows[1..], keep)
  }

  lemma {:induction false} FilterRowsSubseq(rows: seq<Row>, keep: Row -> bool)
    ensures Subseq(FilterRows(rows, keep), rows)
  {
    if rows != [] {
      FilterRowsSubseq(rows[1..], keep);
      var a := FilterRows(rows, keep);
      if keep(rows[0]) {
        assert a[0] == rows[0] && a[1..] == FilterRows(rows[1..], keep);
      } else {
        assert a == FilterRows(rows[1..], keep);
      }
    }
  }

  lemma {:induction false} FilterRowsAll(rows: seq<Row>, keep: Row -> bool)
    requires forall x :: x in rows ==> keep(x)
    ensures FilterRows(rows, keep) == rows
  {
    if rows != [] {
      FilterRowsAll(rows[1..], keep);
    }
  }
}
