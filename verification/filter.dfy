/** Filter criteria and their evaluation against an entry (matchesFilter). */
module Filter {
  import opened Results
  import opened Values
  import opened Entries

  /** The operators of a criterion; any other operator text is Unknown. */
  datatype Op = Eq | Ne | Gt | Ge | Lt | Le | In | NotIn | Unknown(name: string)

  /** A criterion's value: a single value, or an array (for `in`/`not in`). */
  datatype CritValue = Scalar(v: Value) | List(items: seq<Value>)

  /** One key of a filter object: `{ [key]: { operator, value } }`. A filter
      is the sequence of its criteria in key enumeration order. */
  datatype Criterion = Criterion(key: string, operator: string, value: CritValue)

  function OpName(op: Op): string {
    match op
    case Eq => "=="
    case Ne => "!="
    case Gt => ">"
    case Ge => ">="
    case Lt => "<"
    case Le => "<="
    case In => "in"
    case NotIn => "not in"
    case Unknown(name) => name
  }

  /** The `switch (operator)` of matchesFilter. */
  function ParseOp(s: string): (op: Op)
    ensures OpName(op) == s
    ensures op.Unknown? <==> s !in {"==", "!=", ">", ">=", "<", "<=", "in", "not in"}
  {
    if s == "==" then Eq
    else if s == "!=" then Ne
    else if s == ">" then Gt
    else if s == ">=" then Ge
    else if s == "<" then Lt
    else if s == "<=" then Le
    else if s == "in" then In
    else if s == "not in" then NotIn
    else Unknown(s)
  }

  /** Parsing the name of a recognised operator gives that operator back. */
  lemma ParseOpName(op: Op)
    requires !op.Unknown?
    ensures ParseOp(OpName(op)) == op
  {
  }

  /** The predicate one recognised operator applies to a cell. Strict
      equality never holds between a cell and an array; the orderings follow
      the JavaScript relational comparison; `in` and `not in` need an array. */
  function Holds(cell: Value, op: Op, cv: CritValue): bool
    requires !op.Unknown?
  {
    match op
    case Eq => cv == Scalar(cell)
    case Ne => cv != Scalar(cell)
    case Gt => cv.Scalar? && IsLessThan(cv.v, cell) == Some(true)
    case Ge => cv.Scalar? && IsLessThan(cell, cv.v) == Some(false)
    case Lt => cv.Scalar? && IsLessThan(cell, cv.v) == Some(true)
    case Le => cv.Scalar? && IsLessThan(cv.v, cell) == Some(false)
    case In => cv.List? && cell in cv.items
    case NotIn => cv.List? && cell !in cv.items
  }

  /** One criterion against an entry: an operator other than the eight
      throws, carrying the operator's text. Equality is strict, so it never
      holds of an array; `a > b` is `b < a`, and `a >= b` is "not `a < b`"
      only when the two are comparable; `in` and `not in` need an array. */
  function Eval(e: Entry, c: Criterion): (r: Result<bool>)
    ensures r.Err? <==> c.operator !in {"==", "!=", ">", ">=", "<", "<=", "in", "not in"}
    ensures r.Err? ==> r.error == InvalidOperator(c.operator)
    ensures c.operator == "==" ==> r == Ok(c.value == Scalar(Get(e, c.key)))
    ensures c.operator == "!=" ==> r == Ok(c.value != Scalar(Get(e, c.key)))
    ensures c.operator == ">" ==> r == Ok(c.value.Scalar? && IsLessThan(c.value.v, Get(e, c.key)) == Some(true))
    ensures c.operator == ">=" ==> r == Ok(c.value.Scalar? && IsLessThan(Get(e, c.key), c.value.v) == Some(false))
    ensures c.operator == "<" ==> r == Ok(c.value.Scalar? && IsLessThan(Get(e, c.key), c.value.v) == Some(true))
    ensures c.operator == "<=" ==> r == Ok(c.value.Scalar? && IsLessThan(c.value.v, Get(e, c.key)) == Some(false))
    ensures c.operator == "in" ==> r == Ok(c.value.List? && Get(e, c.key) in c.value.items)
    ensures c.operator == "not in" ==> r == Ok(c.value.List? && Get(e, c.key) !in c.value.items)
  {
    var op := ParseOp(c.operator);
    if op.Unknown? then Err(InvalidOperator(c.operator))
    else Ok(Holds(Get(e, c.key), op, c.value))
  }

  /** matchesFilter: `every` over the criteria in order, stopping at the
      first criterion that is false or throws. */
  function Matches(e: Entry, crit: seq<Criterion>): Result<bool>
    decreases |crit|
  {
    if |crit| == 0 then Ok(true)
    else
      match Eval(e, crit[0])
      case Err(err) => Err(err)
      case Ok(b) => if b then Matches(e, crit[1..]) else Ok(false)
  }

  /** The filter holds iff every criterion holds; otherwise the answer is
      that of the first criterion that does not hold: false, or the error
      of an unknown operator. */
  lemma {:induction false} MatchesSpec(e: Entry, crit: seq<Criterion>)
    ensures Matches(e, crit) == Ok(true) <==> forall i | 0 <= i < |crit| :: Eval(e, crit[i]) == Ok(true)
    ensures Matches(e, crit) != Ok(true) ==>
      exists i | 0 <= i < |crit| ::
        Eval(e, crit[i]) == Matches(e, crit) && forall j | 0 <= j < i :: Eval(e, crit[j]) == Ok(true)
    decreases |crit|
  {
    if |crit| > 0 && Eval(e, crit[0]) == Ok(true) {
      MatchesSpec(e, crit[1..]);
      assert forall i | 1 <= i < |crit| :: crit[i] == crit[1..][i - 1];
      if Matches(e, crit) != Ok(true) {
        var k :| 0 <= k < |crit[1..]| && Eval(e, crit[1..][k]) == Matches(e, crit)
                 && forall j | 0 <= j < k :: Eval(e, crit[1..][j]) == Ok(true);
        assert Eval(e, crit[k + 1]) == Matches(e, crit);
      }
    }
  }

  /** No criteria: `every` over no keys holds for every entry. */
  lemma MatchesEmpty(e: Entry)
    ensures Matches(e, []) == Ok(true)
  {
  }

  /** Criteria combine by conjunction in order: a filter split in two is the
      first half, and only if that holds, the second. */
  lemma {:induction false} MatchesAppend(e: Entry, a: seq<Criterion>, b: seq<Criterion>)
    ensures Matches(e, a + b) == if Matches(e, a) == Ok(true) then Matches(e, b) else Matches(e, a)
    decreases |a|
  {
    if |a| > 0 {
      assert (a + b)[0] == a[0];
      assert (a + b)[1..] == a[1..] + b;
      MatchesAppend(e, a[1..], b);
    } else {
      assert a + b == b;
    }
  }

  /** A false criterion stops the evaluation: later criteria, even ones with
      an unknown operator, are never reached. */
  lemma ShortCircuit(e: Entry, crit: seq<Criterion>, i: nat)
    requires i < |crit| && Eval(e, crit[i]) == Ok(false)
    requires forall j | 0 <= j < i :: Eval(e, crit[j]) == Ok(true)
    ensures Matches(e, crit) == Ok(false)
  {
    MatchesSpec(e, crit);
  }

  /** Whether evaluation throws depends only on the operators, so a filter
      that some entry satisfies never throws on any entry. */
  lemma MatchMeansNoError(e1: Entry, crit: seq<Criterion>)
    requires Matches(e1, crit) == Ok(true)
    ensures forall e2 :: Matches(e2, crit).Ok?
  {
    MatchesSpec(e1, crit);
    forall e2
      ensures Matches(e2, crit).Ok?
    {
      MatchesSpec(e2, crit);
    }
  }

  /** `in` holds iff the value is an array containing the cell; `not in`
      iff it is an array not containing it; neither holds for a non-array. */
  lemma InNotIn(cell: Value, cv: CritValue)
    ensures Holds(cell, In, cv) <==> cv.List? && cell in cv.items
    ensures Holds(cell, NotIn, cv) <==> cv.List? && cell !in cv.items
    ensures cv.List? ==> (Holds(cell, NotIn, cv) <==> !Holds(cell, In, cv))
    ensures cv.Scalar? ==> !Holds(cell, In, cv) && !Holds(cell, NotIn, cv)
  {
  }

  /** On two integers the four orderings are the integer orderings. */
  lemma IntOrderings(a: int, b: int)
    ensures Holds(VInt(a), Gt, Scalar(VInt(b))) <==> a > b
    ensures Holds(VInt(a), Ge, Scalar(VInt(b))) <==> a >= b
    ensures Holds(VInt(a), Lt, Scalar(VInt(b))) <==> a < b
    ensures Holds(VInt(a), Le, Scalar(VInt(b))) <==> a <= b
  {
  }

  /** On two strings the orderings form a total order: exactly one of
      `<`, `==`, `>` holds, and `<=`/`>=` are their disjunctions with `==`. */
  lemma StringOrderings(a: string, b: string)
    ensures Holds(VStr(a), Lt, Scalar(VStr(b))) || Holds(VStr(a), Eq, Scalar(VStr(b)))
            || Holds(VStr(a), Gt, Scalar(VStr(b)))
    ensures !(Holds(VStr(a), Lt, Scalar(VStr(b))) && Holds(VStr(a), Gt, Scalar(VStr(b))))
    ensures Holds(VStr(a), Eq, Scalar(VStr(b))) ==>
              !Holds(VStr(a), Lt, Scalar(VStr(b))) && !Holds(VStr(a), Gt, Scalar(VStr(b)))
    ensures Holds(VStr(a), Le, Scalar(VStr(b))) <==>
              Holds(VStr(a), Lt, Scalar(VStr(b))) || Holds(VStr(a), Eq, Scalar(VStr(b)))
    ensures Holds(VStr(a), Ge, Scalar(VStr(b))) <==>
              Holds(VStr(a), Gt, Scalar(VStr(b))) || Holds(VStr(a), Eq, Scalar(VStr(b)))
  {
    if a == b {
      StrLessIrreflexive(a);
    } else {
      StrLessTotal(a, b);
      if StrLess(a, b) {
        StrLessAsymmetric(a, b);
      } else {
        StrLessAsymmetric(b, a);
      }
    }
  }

  /** Comparisons with undefined are undefined: every ordering is false. */
  lemma UndefinedOrderings(cell: Value, v: Value)
    requires cell == VNone || v == VNone
    ensures !Holds(cell, Gt, Scalar(v)) && !Holds(cell, Ge, Scalar(v))
    ensures !Holds(cell, Lt, Scalar(v)) && !Holds(cell, Le, Scalar(v))
  {
  }
}
