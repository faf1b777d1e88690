/** Cell values as a spreadsheet returns them, their use as object keys,
    and the JavaScript relational comparison on them. */
module Values {
  import opened Results

  /** A cell value. VNone is JavaScript `undefined`: what reading past the
      end of a row or a missing object key yields. An empty cell is VStr(""). */
  datatype Value = VNone | VStr(s: string) | VInt(i: int) | VBool(b: bool)

  type Row = seq<Value>

  function DigitChar(d: nat): char
    requires d < 10
  {
    "0123456789"[d]
  }

  /** Decimal notation of a natural number, most significant digit first. */
  function NatToString(n: nat): (s: string)
    ensures |s| >= 1
    ensures n < 10 <==> |s| == 1
    decreases n
  {
    if n < 10 then [DigitChar(n)] else NatToString(n / 10) + [DigitChar(n % 10)]
  }

  function IntToString(i: int): string {
    if i < 0 then "-" + NatToString(-i) else NatToString(i)
  }

  /** The property key a value becomes when it indexes an object
      (JavaScript String conversion). Header cells are turned into entry
      keys this way. */
  function KeyOf(v: Value): string {
    match v
    case VNone => "undefined"
    case VStr(s) => s
    case VInt(i) => IntToString(i)
    case VBool(b) => if b then "true" else "false"
  }

  /** String order of JavaScript: lexicographic on code units, a proper
      prefix sorting first. */
  function StrLess(a: string, b: string): bool
    decreases |a|
  {
    if |a| == 0 then |b| > 0
    else if |b| == 0 then false
    else if a[0] != b[0] then a[0] < b[0]
    else StrLess(a[1..], b[1..])
  }

  lemma {:induction false} StrLessIrreflexive(a: string)
    ensures !StrLess(a, a)
    decreases |a|
  {
    if |a| > 0 {
      StrLessIrreflexive(a[1..]);
    }
  }

  lemma {:induction false} StrLessTransitive(a: string, b: string, c: string)
    requires StrLess(a, b) && StrLess(b, c)
    ensures StrLess(a, c)
    decreases |a|
  {
    if |a| > 0 && |b| > 0 && |c| > 0 && a[0] == b[0] && b[0] == c[0] {
      StrLessTransitive(a[1..], b[1..], c[1..]);
    }
  }

  lemma {:induction false} StrLessTotal(a: string, b: string)
    requires a != b
    ensures StrLess(a, b) || StrLess(b, a)
    decreases |a|
  {
    if |a| > 0 && |b| > 0 && a[0] == b[0] {
      assert a == [a[0]] + a[1..] && b == [b[0]] + b[1..];
      StrLessTotal(a[1..], b[1..]);
    }
  }

  lemma StrLessAsymmetric(a: string, b: string)
    requires StrLess(a, b)
    ensures !StrLess(b, a)
  {
    if StrLess(b, a) {
      StrLessTransitive(a, b, a);
      StrLessIrreflexive(a);
    }
  }

  /** ToNumber for the value kinds whose conversion is modelled: integers
      and booleans. `undefined` converts to NaN (None). */
  function NumberOf(v: Value): Option<int> {
    match v
    case VInt(i) => Some(i)
    case VBool(b) => Some(if b then 1 else 0)
    case _ => None
  }

  /** The abstract relational comparison `x < y` of JavaScript: Some(answer),
      or None when the comparison is undefined (an operand is NaN). Two
      strings compare as strings, anything else numerically. */
  function IsLessThan(x: Value, y: Value): Option<bool> {
    if x.VStr? && y.VStr? then Some(StrLess(x.s, y.s))
    else
      match (NumberOf(x), NumberOf(y))
      case (Some(a), Some(b)) => Some(a < b)
      case _ => None
  }
}
