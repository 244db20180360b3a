/** Cell values, dates and the orders the dataframe library uses to compare them. */
module Tables {

  /** A possibly-null cell: `None` is the dataframe library's null. */
  datatype Option<+T> = None | Some(value: T)

  /** The outcome of an operation that can raise: a value or the error it raised. */
  datatype Result<+T, +E> = Success(value: T) | Failure(error: E)

  /** The outcome of a check that either passes or raises. */
  datatype Outcome<+E> = Pass | Fail(error: E)

  /** A calendar date, already parsed from its ISO `YYYY-MM-DD` text. */
  datatype Date = Date(year: int, month: int, day: int)

  /** Dates compare as (year, month, day) triples, which is also how their ISO text compares. */
  predicate DateLe(a: Date, b: Date) {
    a.year < b.year || (a.year == b.year && (a.month < b.month || (a.month == b.month && a.day <= b.day)))
  }

  /** A non-null cell of a loaded table. */
  datatype Value = Text(s: string) | Num(x: real) | Day(d: Date)

  /**
   * The order the library sorts and compares a column by. A column holds one
   * kind of value, so mixed comparisons never arise; they are ordered by kind.
   */
  predicate ValueLe(a: Value, b: Value) {
    match (a, b)
    case (Text(s), Text(t)) => StrLe(s, t)
    case (Num(x), Num(y)) => x <= y
    case (Day(d), Day(e)) => DateLe(d, e)
    case _ => Kind(a) < Kind(b)
  }

  function Kind(v: Value): nat {
    match v
    case Text(_) => 0
    case Num(_) => 1
    case Day(_) => 2
  }

  /** Lexicographic order on strings, character by character (code point order). */
  predicate StrLt(a: string, b: string) {
    if |a| == 0 then |b| > 0
    else if |b| == 0 then false
    else if a[0] != b[0] then a[0] < b[0]
    else StrLt(a[1..], b[1..])
  }

  predicate StrLe(a: string, b: string) {
    a == b || StrLt(a, b)
  }

  lemma {:induction false} StrLtIrreflexive(a: string)
    ensures !StrLt(a, a)
  {
    if |a| > 0 {
      StrLtIrreflexive(a[1..]);
    }
  }

  lemma {:induction false} StrLtTransitive(a: string, b: string, c: string)
    requires StrLt(a, b) && StrLt(b, c)
    ensures StrLt(a, c)
  {
    if |a| > 0 && |b| > 0 && |c| > 0 && a[0] == b[0] && b[0] == c[0] {
      StrLtTransitive(a[1..], b[1..], c[1..]);
    }
  }

  /** Any two different strings are ordered one way or the other. */
  lemma {:induction false} StrLtTotal(a: string, b: string)
    requires a != b
    ensures StrLt(a, b) || StrLt(b, a)
  {
    if |a| > 0 && |b| > 0 && a[0] == b[0] {
      assert a == [a[0]] + a[1..] && b == [b[0]] + b[1..];
      StrLtTotal(a[1..], b[1..]);
    }
  }

  lemma StrLtAsymmetric(a: string, b: string)
    requires StrLt(a, b)
    ensures !StrLt(b, a)
  {
    if StrLt(b, a) {
      StrLtTransitive(a, b, a);
      StrLtIrreflexive(a);
    }
  }
}
