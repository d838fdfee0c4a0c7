/** pkg/storage/postgres.go GetAuditLogs: a query built clause by clause with numbered
    placeholders, and what it selects.  Times are microseconds. */
module AuditQuery {
  import opened Strings

  datatype Option<T> = None | Some(value: T)

  datatype Row = Row(
    id: nat,
    org: int,
    timestamp: int,
    riskScore: int,
    userId: Option<string>,
    requestId: Option<string>,
    verdict: Option<string>,
    threatDetails: Option<string>)

  datatype Filter = Filter(
    userId: string,
    riskLevel: string,
    verdict: string,
    from: Option<int>,
    to: Option<int>,
    limit: int,
    offset: int,
    search: string)

  // ---------- The query language ----------

  datatype Value = Null | Num(n: int) | Str(s: string) | Time(t: int)

  datatype Column = Org | Timestamp | RiskScore | UserId | RequestId | VerdictCol | ThreatDetails

  /** A column, a placeholder `$k`, or a number. */
  datatype Expr = Col(c: Column) | Param(k: nat) | Lit(n: int)

  datatype Cond =
    | Eq(l: Expr, r: Expr)
    | Gt(l: Expr, r: Expr)
    | Le(l: Expr, r: Expr)
    | Ge(l: Expr, r: Expr)
    | ILike(l: Expr, r: Expr)
    | And(a: Cond, b: Cond)
    | Or(a: Cond, b: Cond)

  /** `ORDER BY timestamp DESC` is part of every query. */
  datatype Query = Query(where: seq<Cond>, limit: nat, offset: Option<nat>)

  datatype Truth = True | False | Unknown

  function OfBool(b: bool): Truth {
    if b then True else False
  }

  function OfText(o: Option<string>): Value {
    if o.Some? then Str(o.value) else Null
  }

  function ColumnValue(c: Column, row: Row): Value {
    match c
    case Org => Num(row.org)
    case Timestamp => Time(row.timestamp)
    case RiskScore => Num(row.riskScore)
    case UserId => OfText(row.userId)
    case RequestId => OfText(row.requestId)
    case VerdictCol => OfText(row.verdict)
    case ThreatDetails => OfText(row.threatDetails)
  }

  /** A placeholder outside the argument list has no value. */
  function ExprValue(e: Expr, args: seq<Value>, row: Row): Value {
    match e
    case Col(c) => ColumnValue(c, row)
    case Param(k) => if 1 <= k <= |args| then args[k - 1] else Null
    case Lit(n) => Num(n)
  }

  /** Comparisons with NULL are unknown; so are comparisons of different types. */
  function Compare(l: Value, r: Value, test: (int, int) -> bool): Truth {
    match (l, r)
    case (Num(m), Num(n)) => OfBool(test(m, n))
    case (Time(m), Time(n)) => OfBool(test(m, n))
    case _ => Unknown
  }

  function Equal(l: Value, r: Value): Truth {
    if l == Null || r == Null then Unknown else OfBool(l == r)
  }

  /** SQL's three-valued logic; `lower` is the case folding ILIKE uses. */
  function Eval(lower: char -> char, c: Cond, args: seq<Value>, row: Row): Truth {
    match c
    case Eq(l, r) => Equal(ExprValue(l, args, row), ExprValue(r, args, row))
    case Gt(l, r) => Compare(ExprValue(l, args, row), ExprValue(r, args, row), (m, n) => m > n)
    case Le(l, r) => Compare(ExprValue(l, args, row), ExprValue(r, args, row), (m, n) => m <= n)
    case Ge(l, r) => Compare(ExprValue(l, args, row), ExprValue(r, args, row), (m, n) => m >= n)
    case ILike(l, r) =>
      (match (ExprValue(l, args, row), ExprValue(r, args, row))
       case (Str(s), Str(p)) => OfBool(Like(Fold(lower, s), Fold(lower, p)))
       case _ => Unknown)
    case And(a, b) =>
      var x, y := Eval(lower, a, args, row), Eval(lower, b, args, row);
      if x == False || y == False then False else if x == True && y == True then True else Unknown
    case Or(a, b) =>
      var x, y := Eval(lower, a, args, row), Eval(lower, b, args, row);
      if x == True || y == True then True else if x == False && y == False then False else Unknown
  }

  function Fold(lower: char -> char, s: string): string {
    seq(|s|, i requires 0 <= i < |s| => lower(s[i]))
  }

  /** LIKE: `%` is any text, `_` any character, a backslash makes the next character literal. */
  predicate Like(s: string, p: string)
    decreases |p|, |s|
  {
    if p == "" then s == ""
    else if p[0] == '%' then Like(s, p[1..]) || (s != "" && Like(s[1..], p))
    else if p[0] == '_' then s != "" && Like(s[1..], p[1..])
    else if p[0] == '\\' && |p| > 1 then s != "" && s[0] == p[1] && Like(s[1..], p[2..])
    else s != "" && s[0] == p[0] && Like(s[1..], p[1..])
  }

  /** A row is selected when every condition is true of it. */
  predicate Selected(lower: char -> char, where: seq<Cond>, args: seq<Value>, row: Row) {
    forall i | 0 <= i < |where| :: Eval(lower, where[i], args, row) == True
  }

  function ExprParams(e: Expr): set<nat> {
    if e.Param? then {e.k} else {}
  }

  function Params(c: Cond): set<nat> {
    match c
    case And(a, b) => Params(a) + Params(b)
    case Or(a, b) => Params(a) + Params(b)
    case _ => ExprParams(c.l) + ExprParams(c.r)
  }

  function AllParams(where: seq<Cond>): set<nat> {
    if where == [] then {} else AllParams(where[..|where| - 1]) + Params(where[|where| - 1])
  }

  predicate Within(params: set<nat>, n: nat) {
    forall k | k in params :: 1 <= k <= n
  }

  /** Exactly the placeholders $1 to $n. */
  ghost predicate Exactly(params: set<nat>, n: nat) {
    forall k: nat :: k in params <==> 1 <= k <= n
  }

  // ---------- What the caller asked for ----------

  predicate Is(o: Option<string>, s: string) {
    o == Some(s)
  }

  /** ILIKE; NULL matches nothing. */
  predicate Matches(lower: char -> char, o: Option<string>, pattern: string) {
    o.Some? && Like(Fold(lower, o.value), Fold(lower, pattern))
  }

  const CLAUSES := 7

  /** The filter's conditions one by one; an unset field and an unknown risk level ask nothing. */
  predicate Clause(lower: char -> char, i: nat, org: int, f: Filter, row: Row) {
    if i == 0 then row.org == org
    else if i == 1 then f.userId == "" || Is(row.userId, f.userId)
    else if i == 2 then f.verdict == "" || Is(row.verdict, f.verdict)
    else if i == 3 then
      (f.riskLevel == "HIGH" ==> row.riskScore > 80)
      && (f.riskLevel == "MEDIUM" ==> 0 < row.riskScore <= 80)
      && (f.riskLevel == "LOW" ==> row.riskScore == 0)
    else if i == 4 then f.from.Some? ==> row.timestamp >= f.from.value
    else if i == 5 then f.to.Some? ==> row.timestamp <= f.to.value
    else
      var pattern := "%" + f.search + "%";
      f.search == "" || Matches(lower, row.userId, pattern) || Matches(lower, row.requestId, pattern)
      || Matches(lower, row.threatDetails, pattern)
  }

  /** The row meets the first `m` of them. */
  predicate Wanted(lower: char -> char, m: nat, org: int, f: Filter, row: Row) {
    forall i: nat | i < m :: Clause(lower, i, org, f, row)
  }

  // ---------- The builder ----------

  /** The conditions so far mean the first `m` clauses and use exactly the arguments so far. */
  ghost predicate Means(lower: char -> char, where: seq<Cond>, args: seq<Value>, m: nat, org: int, f: Filter) {
    && Exactly(AllParams(where), |args|)
    && forall row :: Selected(lower, where, args, row) <==> Wanted(lower, m, org, f, row)
  }

  lemma {:induction false} EvalExtends(lower: char -> char, c: Cond, args: seq<Value>, more: seq<Value>, row: Row)
    requires Within(Params(c), |args|)
    ensures Eval(lower, c, args + more, row) == Eval(lower, c, args, row)
  {
    match c
    case And(a, b) =>
      EvalExtends(lower, a, args, more, row);
      EvalExtends(lower, b, args, more, row);
    case Or(a, b) =>
      EvalExtends(lower, a, args, more, row);
      EvalExtends(lower, b, args, more, row);
    case _ =>
      ExprExtends(c.l, args, more, row);
      ExprExtends(c.r, args, more, row);
  }

  lemma ExprExtends(e: Expr, args: seq<Value>, more: seq<Value>, row: Row)
    requires Within(ExprParams(e), |args|)
    ensures ExprValue(e, args + more, row) == ExprValue(e, args, row)
  {
    if e.Param? {
      assert e.k in ExprParams(e);
    }
  }

  lemma {:induction false} ParamsOf(where: seq<Cond>, i: nat)
    requires i < |where|
    ensures Params(where[i]) <= AllParams(where)
  {
    if i < |where| - 1 {
      ParamsOf(where[..|where| - 1], i);
    }
  }

  /** Later arguments leave the conditions alone. */
  lemma SelectedExtends(lower: char -> char, where: seq<Cond>, args: seq<Value>, more: seq<Value>, row: Row)
    requires Exactly(AllParams(where), |args|)
    ensures Selected(lower, where, args + more, row) <==> Selected(lower, where, args, row)
  {
    hide Eval, Params;
    forall i | 0 <= i < |where|
      ensures Eval(lower, where[i], args + more, row) == Eval(lower, where[i], args, row)
    {
      ParamsOf(where, i);
      EvalExtends(lower, where[i], args, more, row);
    }
  }

  lemma SelectedAppend(lower: char -> char, where: seq<Cond>, c: Cond, args: seq<Value>, row: Row)
    ensures Selected(lower, where + [c], args, row)
        <==> Selected(lower, where, args, row) && Eval(lower, c, args, row) == True
  {
    hide Eval;
    var where' := where + [c];
    assert where'[|where|] == c && forall i | 0 <= i < |where| :: where'[i] == where[i];
  }

  lemma WantedNext(lower: char -> char, m: nat, org: int, f: Filter, row: Row)
    ensures Wanted(lower, m + 1, org, f, row) <==> Wanted(lower, m, org, f, row) && Clause(lower, m, org, f, row)
  {
    hide Clause;
  }

  lemma ParamsAppend(where: seq<Cond>, c: Cond)
    ensures AllParams(where + [c]) == AllParams(where) + Params(c)
  {
    assert (where + [c])[..|where|] == where;
  }

  /** Adding a condition, with or without an argument of its own. */
  lemma Extend(lower: char -> char, where: seq<Cond>, args: seq<Value>, c: Cond, more: seq<Value>, m: nat, org: int,
        f: Filter)
    requires Means(lower, where, args, m, org, f)
    requires |more| <= 1 && Params(c) == if more == [] then {} else {|args| + 1}
    requires forall row :: Eval(lower, c, args + more, row) == True <==> Clause(lower, m, org, f, row)
    ensures Means(lower, where + [c], args + more, m + 1, org, f)
  {
    hide Eval, Clause, Params, AllParams, Selected, Wanted;
    ParamsAppend(where, c);
    assert Exactly(AllParams(where + [c]), |args + more|);
    forall row
      ensures Selected(lower, where + [c], args + more, row) <==> Wanted(lower, m + 1, org, f, row)
    {
      SelectedExtends(lower, where, args, more, row);
      SelectedAppend(lower, where, c, args + more, row);
      WantedNext(lower, m, org, f, row);
    }
  }

  /** An unset field adds nothing. */
  lemma Skip(lower: char -> char, where: seq<Cond>, args: seq<Value>, m: nat, org: int, f: Filter)
    requires Means(lower, where, args, m, org, f)
    requires forall row :: Clause(lower, m, org, f, row)
    ensures Means(lower, where, args, m + 1, org, f)
  {
    hide Clause, Selected;
  }

  function RiskMiddle(): Cond {
    And(Gt(Col(RiskScore), Lit(0)), Le(Col(RiskScore), Lit(80)))
  }

  function AnyILike(p: Expr): Cond {
    Or(Or(ILike(Col(UserId), p), ILike(Col(RequestId), p)), ILike(Col(ThreatDetails), p))
  }

  lemma OrgClause(lower: char -> char, org: int, f: Filter)
    ensures Means(lower, [Eq(Col(Org), Param(1))], [Num(org)], 1, org, f)
  {
    hide Like, Fold;
    assert Means(lower, [], [], 0, org, f);
    Extend(lower, [], [], Eq(Col(Org), Param(1)), [Num(org)], 0, org, f);
    assert [] + [Eq(Col(Org), Param(1))] == [Eq(Col(Org), Param(1))] && [] + [Num(org)] == [Num(org)];
  }

  lemma UserClause(lower: char -> char, where: seq<Cond>, args: seq<Value>, org: int, f: Filter)
    requires Means(lower, where, args, 1, org, f)
    ensures if f.userId != "" then
              Means(lower, where + [Eq(Col(UserId), Param(|args| + 1))], args + [Str(f.userId)], 2, org, f)
            else Means(lower, where, args, 2, org, f)
  {
    hide Means, Like, Fold;
    if f.userId != "" {
      Extend(lower, where, args, Eq(Col(UserId), Param(|args| + 1)), [Str(f.userId)], 1, org, f);
    } else {
      Skip(lower, where, args, 1, org, f);
    }
  }

  lemma VerdictClause(lower: char -> char, where: seq<Cond>, args: seq<Value>, org: int, f: Filter)
    requires Means(lower, where, args, 2, org, f)
    ensures if f.verdict != "" then
              Means(lower, where + [Eq(Col(VerdictCol), Param(|args| + 1))], args + [Str(f.verdict)], 3, org, f)
            else Means(lower, where, args, 3, org, f)
  {
    hide Means, Like, Fold;
    if f.verdict != "" {
      Extend(lower, where, args, Eq(Col(VerdictCol), Param(|args| + 1)), [Str(f.verdict)], 2, org, f);
    } else {
      Skip(lower, where, args, 2, org, f);
    }
  }

  lemma RiskClause(lower: char -> char, where: seq<Cond>, args: seq<Value>, org: int, f: Filter)
    requires Means(lower, where, args, 3, org, f)
    ensures f.riskLevel == "HIGH" ==>
              Means(lower, where + [Gt(Col(RiskScore), Param(|args| + 1))], args + [Num(80)], 4, org, f)
    ensures f.riskLevel == "MEDIUM" ==> Means(lower, where + [RiskMiddle()], args, 4, org, f)
    ensures f.riskLevel == "LOW" ==> Means(lower, where + [Eq(Col(RiskScore), Lit(0))], args, 4, org, f)
    ensures f.riskLevel !in {"HIGH", "MEDIUM", "LOW"} ==> Means(lower, where, args, 4, org, f)
  {
    hide Means, Like, Fold;
    assert args + [] == args;
    if f.riskLevel == "HIGH" {
      Extend(lower, where, args, Gt(Col(RiskScore), Param(|args| + 1)), [Num(80)], 3, org, f);
    } else if f.riskLevel == "MEDIUM" {
      Extend(lower, where, args, RiskMiddle(), [], 3, org, f);
    } else if f.riskLevel == "LOW" {
      Extend(lower, where, args, Eq(Col(RiskScore), Lit(0)), [], 3, org, f);
    } else {
      Skip(lower, where, args, 3, org, f);
    }
  }

  lemma FromClause(lower: char -> char, where: seq<Cond>, args: seq<Value>, org: int, f: Filter)
    requires Means(lower, where, args, 4, org, f)
    ensures if f.from.Some? then
              Means(lower, where + [Ge(Col(Timestamp), Param(|args| + 1))], args + [Time(f.from.value)], 5, org, f)
            else Means(lower, where, args, 5, org, f)
  {
    hide Means, Like, Fold;
    if f.from.Some? {
      Extend(lower, where, args, Ge(Col(Timestamp), Param(|args| + 1)), [Time(f.from.value)], 4, org, f);
    } else {
      Skip(lower, where, args, 4, org, f);
    }
  }

  lemma ToClause(lower: char -> char, where: seq<Cond>, args: seq<Value>, org: int, f: Filter)
    requires Means(lower, where, args, 5, org, f)
    ensures if f.to.Some? then
              Means(lower, where + [Le(Col(Timestamp), Param(|args| + 1))], args + [Time(f.to.value)], 6, org, f)
            else Means(lower, where, args, 6, org, f)
  {
    hide Means, Like, Fold;
    if f.to.Some? {
      Extend(lower, where, args, Le(Col(Timestamp), Param(|args| + 1)), [Time(f.to.value)], 5, org, f);
    } else {
      Skip(lower, where, args, 5, org, f);
    }
  }

  /** The one placeholder of the search serves three comparisons. */
  lemma SearchMeaning(lower: char -> char, args: seq<Value>, pattern: string, row: Row)
    ensures var c := AnyILike(Param(|args| + 1));
            && Params(c) == {|args| + 1}
            && (Eval(lower, c, args + [Str(pattern)], row) == True
                <==> Matches(lower, row.userId, pattern) || Matches(lower, row.requestId, pattern)
                     || Matches(lower, row.threatDetails, pattern))
  {
    hide Like, Fold;
    var p := Param(|args| + 1);
    var first := Or(ILike(Col(UserId), p), ILike(Col(RequestId), p));
    assert Params(first) == {|args| + 1};
    assert Eval(lower, first, args + [Str(pattern)], row) == True
      <==> Matches(lower, row.userId, pattern) || Matches(lower, row.requestId, pattern);
  }

  lemma SearchClause(lower: char -> char, where: seq<Cond>, args: seq<Value>, org: int, f: Filter)
    requires Means(lower, where, args, 6, org, f)
    ensures if f.search != "" then
              Means(lower, where + [AnyILike(Param(|args| + 1))], args + [Str("%" + f.search + "%")], 7, org, f)
            else Means(lower, where, args, 7, org, f)
  {
    hide Means, Like, Fold;
    if f.search != "" {
      var pattern := "%" + f.search + "%";
      var c := AnyILike(Param(|args| + 1));
      hide Eval, Params, AnyILike, Matches;
      forall row
        ensures Eval(lower, c, args + [Str(pattern)], row) == True <==> Clause(lower, 6, org, f, row)
      {
        SearchMeaning(lower, args, pattern, row);
      }
      assert Params(c) == {|args| + 1} by {
        SearchMeaning(lower, args, pattern, Row(0, 0, 0, 0, None, None, None, None));
      }
      Extend(lower, where, args, c, [Str(pattern)], 6, org, f);
    } else {
      Skip(lower, where, args, 6, org, f);
    }
  }

  lemma Finish(lower: char -> char, where: seq<Cond>, args: seq<Value>, more: seq<Value>, m: nat, org: int, f: Filter)
    requires Means(lower, where, args, m, org, f)
    ensures forall row :: Selected(lower, where, args + more, row) <==> Wanted(lower, m, org, f, row)
    ensures Exactly(AllParams(where), |args|)
  {
    hide Selected, Wanted, AllParams;
    forall row
      ensures Selected(lower, where, args + more, row) <==> Wanted(lower, m, org, f, row)
    {
      SelectedExtends(lower, where, args, more, row);
    }
  }

  function QueryParams(q: Query): set<nat> {
    AllParams(q.where) + {q.limit} + if q.offset.Some? then {q.offset.value} else {}
  }

  function ArgInt(args: seq<Value>, k: nat): Option<int> {
    if 1 <= k <= |args| && args[k - 1].Num? then Some(args[k - 1].n) else None
  }

  function LimitOf(f: Filter): int {
    if f.limit > 0 then f.limit else 100
  }

  /** The query selects what was asked for, numbers its placeholders $1, $2, ... without a gap
      or a spare argument, and pages by the requested limit and offset. */
  ghost predicate IsBuilt(lower: char -> char, q: Query, args: seq<Value>, org: int, f: Filter) {
    && (forall row :: Selected(lower, q.where, args, row) <==> Wanted(lower, CLAUSES, org, f, row))
    && Exactly(QueryParams(q), |args|)
    && ArgInt(args, q.limit) == Some(LimitOf(f))
    && if f.offset > 0 then q.offset.Some? && ArgInt(args, q.offset.value) == Some(f.offset) else q.offset == None
  }

  /** The last part of the builder: LIMIT always, OFFSET when positive. */
  method Paginate(ghost lower: char -> char, where: seq<Cond>, args: seq<Value>, argCount: nat, orgId: int,
        filter: Filter)
    returns (query: Query, args': seq<Value>)
    requires Means(lower, where, args, CLAUSES, orgId, filter) && argCount == |args| + 1
    ensures IsBuilt(lower, query, args', orgId, filter)
  {
    hide Selected, Wanted, Means;
    var limit := 100;
    if filter.limit > 0 {
      limit := filter.limit;
    }
    query := Query(where, argCount, None);
    args' := args + [Num(limit)];
    if filter.offset > 0 {
      query := query.(offset := Some(argCount + 1));
      args' := args' + [Num(filter.offset)];
    }
    Finish(lower, where, args, args'[|args|..], CLAUSES, orgId, filter);
    assert args + args'[|args|..] == args';
  }

  method BuildQuery(ghost lower: char -> char, orgId: int, filter: Filter) returns (query: Query, args: seq<Value>)
    ensures IsBuilt(lower, query, args, orgId, filter)
  {
    hide Selected, Wanted, Means;
    args := [Num(orgId)];
    var argCount := 2;
    var where := [Eq(Col(Org), Param(1))];
    OrgClause(lower, orgId, filter);

    UserClause(lower, where, args, orgId, filter);
    if filter.userId != "" {
      where := where + [Eq(Col(UserId), Param(argCount))];
      args := args + [Str(filter.userId)];
      argCount := argCount + 1;
    }
    VerdictClause(lower, where, args, orgId, filter);
    if filter.verdict != "" {
      where := where + [Eq(Col(VerdictCol), Param(argCount))];
      args := args + [Str(filter.verdict)];
      argCount := argCount + 1;
    }
    RiskClause(lower, where, args, orgId, filter);
    if filter.riskLevel == "HIGH" {
      where := where + [Gt(Col(RiskScore), Param(argCount))];
      args := args + [Num(80)];
      argCount := argCount + 1;
    } else if filter.riskLevel == "MEDIUM" {
      where := where + [RiskMiddle()];
    } else if filter.riskLevel == "LOW" {
      where := where + [Eq(Col(RiskScore), Lit(0))];
    }
    assert Means(lower, where, args, 4, orgId, filter) && argCount == |args| + 1;
    FromClause(lower, where, args, orgId, filter);
    if filter.from.Some? {
      where := where + [Ge(Col(Timestamp), Param(argCount))];
      args := args + [Time(filter.from.value)];
      argCount := argCount + 1;
    }
    ToClause(lower, where, args, orgId, filter);
    if filter.to.Some? {
      where := where + [Le(Col(Timestamp), Param(argCount))];
      args := args + [Time(filter.to.value)];
      argCount := argCount + 1;
    }
    SearchClause(lower, where, args, orgId, filter);
    if filter.search != "" {
      where := where + [AnyILike(Param(argCount))];
      args := args + [Str("%" + filter.search + "%")];
      argCount := argCount + 1;
    }
    assert Means(lower, where, args, CLAUSES, orgId, filter) && argCount == |args| + 1;
    query, args := Paginate(lower, where, args, argCount, orgId, filter);
  }

  // ---------- What the query returns ----------

  function Where(rows: seq<Row>, test: Row -> bool): seq<Row> {
    if rows == [] then []
    else Where(rows[..|rows| - 1], test) + (if test(rows[|rows| - 1]) then [rows[|rows| - 1]] else [])
  }

  predicate NewestFirst(rows: seq<Row>) {
    forall i, j | 0 <= i < j < |rows| :: rows[i].timestamp >= rows[j].timestamp
  }

  function Page(rows: seq<Row>, offset: int, limit: int): seq<Row> {
    var from := if offset <= 0 then 0 else if offset > |rows| then |rows| else offset;
    var to := if limit <= 0 then from else if from + limit > |rows| then |rows| else from + limit;
    rows[from..to]
  }

  /** A page of the rows in some newest-first order; rows of equal time come in any order. */
  ghost predicate IsPage(result: seq<Row>, rows: seq<Row>, offset: int, limit: int) {
    exists sorted: seq<Row> :: multiset(sorted) == multiset(rows) && NewestFirst(sorted)
      && result == Page(sorted, offset, limit)
  }

  /** What the database may answer to a query. */
  ghost predicate Answers(lower: char -> char, q: Query, args: seq<Value>, table: seq<Row>, result: seq<Row>) {
    && ArgInt(args, q.limit).Some?
    && (q.offset.Some? ==> ArgInt(args, q.offset.value).Some?)
    && IsPage(result, Where(table, row => Selected(lower, q.where, args, row)),
              if q.offset.Some? then ArgInt(args, q.offset.value).value else 0, ArgInt(args, q.limit).value)
  }

  lemma {:induction false} SameRows(rows: seq<Row>, p: Row -> bool, q: Row -> bool)
    requires forall row :: p(row) <==> q(row)
    ensures Where(rows, p) == Where(rows, q)
  {
    if rows != [] {
      SameRows(rows[..|rows| - 1], p, q);
    }
  }

  /** The query answers exactly what filtering the table, sorting it newest first, skipping
      `offset` rows and taking `limit` (100 unless positive) may give. */
  lemma QueryMeansFilter(lower: char -> char, q: Query, args: seq<Value>, org: int, f: Filter, table: seq<Row>,
        result: seq<Row>)
    requires IsBuilt(lower, q, args, org, f)
    ensures Answers(lower, q, args, table, result)
       <==> IsPage(result, Where(table, row => Wanted(lower, CLAUSES, org, f, row)), f.offset, LimitOf(f))
  {
    hide Selected, Wanted, IsPage, Page;
    SameRows(table, row => Selected(lower, q.where, args, row), row => Wanted(lower, CLAUSES, org, f, row));
    NoOffset(result, Where(table, row => Wanted(lower, CLAUSES, org, f, row)), f.offset, LimitOf(f));
  }

  lemma NoOffset(result: seq<Row>, rows: seq<Row>, offset: int, limit: int)
    ensures offset <= 0 ==> (IsPage(result, rows, offset, limit) <==> IsPage(result, rows, 0, limit))
  {
    if offset <= 0 {
      assert forall sorted: seq<Row> :: Page(sorted, offset, limit) == Page(sorted, 0, limit);
    }
  }

  /** Filtering keeps every row that passes, as often as it occurs, and nothing else. */
  lemma {:induction false} WhereKeeps(rows: seq<Row>, test: Row -> bool, row: Row)
    ensures multiset(Where(rows, test))[row] == if test(row) then multiset(rows)[row] else 0
  {
    if rows != [] {
      var n := |rows| - 1;
      WhereKeeps(rows[..n], test, row);
      assert rows == rows[..n] + [rows[n]];
    }
  }

  /** No answer ever holds a row of another organization. */
  lemma AnswersStayInOrg(lower: char -> char, q: Query, args: seq<Value>, org: int, f: Filter, table: seq<Row>,
        result: seq<Row>, row: Row)
    requires IsBuilt(lower, q, args, org, f) && Answers(lower, q, args, table, result) && row in result
    ensures row in table && row.org == org
  {
    hide Selected;
    QueryMeansFilter(lower, q, args, org, f, table, result);
    var rows := Where(table, row => Wanted(lower, CLAUSES, org, f, row));
    var sorted: seq<Row> :| multiset(sorted) == multiset(rows) && NewestFirst(sorted)
      && result == Page(sorted, f.offset, LimitOf(f));
    assert row in sorted;
    assert row in multiset(sorted);
    WhereKeeps(table, row => Wanted(lower, CLAUSES, org, f, row), row);
    assert row in multiset(table);
    assert Clause(lower, 0, org, f, row);
  }

  // ---------- Page after page ----------

  /** The two answers, one behind the other, are an answer to the query for both pages. */
  ghost predicate Joins(first: seq<Row>, second: seq<Row>, rows: seq<Row>, offset: nat, limit: nat, next: nat) {
    IsPage(first, rows, offset, limit) && IsPage(second, rows, offset + limit, next)
    ==> IsPage(first + second, rows, offset, limit + next)
  }

  /** Whatever the database answers to the two queries. */
  ghost predicate PagesJoin(rows: seq<Row>, offset: nat, limit: nat, next: nat) {
    forall first, second :: Joins(first, second, rows, offset, limit, next)
  }

  ghost predicate Arranges(sorted: seq<Row>, rows: seq<Row>) {
    multiset(sorted) == multiset(rows) && NewestFirst(sorted)
  }

  predicate DistinctIds(rows: seq<Row>) {
    forall i, j | 0 <= i < j < |rows| :: rows[i].id != rows[j].id
  }

  lemma {:induction false} CountOnce(rows: seq<Row>, row: Row)
    requires DistinctIds(rows)
    ensures multiset(rows)[row] <= 1
  {
    if rows != [] {
      var n := |rows| - 1;
      CountOnce(rows[..n], row);
      assert rows == rows[..n] + [rows[n]];
      if row == rows[n] {
        assert row !in rows[..n];
      }
    }
  }

  function NewerThan(t: int): Row -> bool {
    (row: Row) => row.timestamp > t
  }

  /** The number of rows newer than `t`. */
  function Newer(rows: seq<Row>, t: int): nat {
    |Where(rows, NewerThan(t))|
  }

  lemma SameNewer(a: seq<Row>, b: seq<Row>, t: int)
    requires multiset(a) == multiset(b)
    ensures Newer(a, t) == Newer(b, t)
  {
    var x, y := Where(a, NewerThan(t)), Where(b, NewerThan(t));
    forall row
      ensures multiset(x)[row] == multiset(y)[row]
    {
      WhereKeeps(a, NewerThan(t), row);
      WhereKeeps(b, NewerThan(t), row);
    }
    assert multiset(x) == multiset(y);
    assert |x| == |multiset(x)| && |y| == |multiset(y)|;
  }

  /** In newest-first order the rows newer than `t` come first. */
  lemma {:induction false} NewerFirst(sorted: seq<Row>, t: int)
    requires NewestFirst(sorted)
    ensures Newer(sorted, t) <= |sorted|
    ensures forall i | 0 <= i < |sorted| :: sorted[i].timestamp > t <==> i < Newer(sorted, t)
  {
    if sorted != [] {
      var n := |sorted| - 1;
      NewerFirst(sorted[..n], t);
      assert forall i | 0 <= i < n :: sorted[..n][i] == sorted[i];
    }
  }

  /** Without a tie across position `b`, every arrangement puts the same rows in front of it. */
  lemma SameFront(sorted: seq<Row>, other: seq<Row>, b: nat)
    requires multiset(sorted) == multiset(other) && NewestFirst(sorted) && NewestFirst(other)
    requires 0 < b < |sorted| && sorted[b - 1].timestamp != sorted[b].timestamp
    ensures |other| == |sorted| && multiset(other[..b]) == multiset(sorted[..b])
    ensures forall i | 0 <= i < b :: other[i].timestamp > sorted[b].timestamp
    ensures forall i | b <= i < |other| :: other[i].timestamp <= sorted[b].timestamp
  {
    var t := sorted[b].timestamp;
    assert |multiset(sorted)| == |sorted| && |multiset(other)| == |other|;
    NewerFirst(sorted, t);
    NewerFirst(other, t);
    SameNewer(sorted, other, t);
    assert Newer(sorted, t) == b;
    forall row
      ensures multiset(other[..b])[row] == multiset(sorted[..b])[row]
    {
      FrontCount(sorted, b, t, row);
      FrontCount(other, b, t, row);
    }
  }

  lemma FrontCount(sorted: seq<Row>, b: nat, t: int, row: Row)
    requires b <= |sorted|
    requires forall i | 0 <= i < |sorted| :: sorted[i].timestamp > t <==> i < b
    ensures multiset(sorted[..b])[row] == if row.timestamp > t then multiset(sorted)[row] else 0
  {
    assert sorted == sorted[..b] + sorted[b..];
    assert row.timestamp > t ==> row !in sorted[b..];
    assert row.timestamp <= t ==> row !in sorted[..b];
  }

  /** The front of one arrangement and the back of another. */
  lemma Spliced(sorted: seq<Row>, s1: seq<Row>, s2: seq<Row>, b: nat)
    requires multiset(sorted) == multiset(s1) == multiset(s2)
    requires NewestFirst(sorted) && NewestFirst(s1) && NewestFirst(s2)
    requires 0 < b < |sorted| && sorted[b - 1].timestamp != sorted[b].timestamp
    ensures |s1| == |s2| == |sorted|
    ensures Arranges(s1[..b] + s2[b..], sorted)
  {
    SameFront(sorted, s1, b);
    SameFront(sorted, s2, b);
    var joined, t := s1[..b] + s2[b..], sorted[b].timestamp;
    assert s2 == s2[..b] + s2[b..];
    assert multiset(joined) == multiset(s1[..b]) + multiset(s2[b..]) == multiset(s2);
    forall i, j | 0 <= i < j < |joined|
      ensures joined[i].timestamp >= joined[j].timestamp
    {
      assert joined[i] == (if i < b then s1[i] else s2[i]) && joined[j] == (if j < b then s1[j] else s2[j]);
    }
  }

  lemma SplicedPages(s1: seq<Row>, s2: seq<Row>, offset: nat, limit: nat, next: nat)
    requires |s1| == |s2| && limit > 0 && offset + limit < |s1|
    ensures Page(s1, offset, limit) + Page(s2, offset + limit, next)
         == Page(s1[..offset + limit] + s2[offset + limit..], offset, limit + next)
  {
    var b := offset + limit;
    var joined := s1[..b] + s2[b..];
    var to := if b + next > |s2| then |s2| else b + next;
    assert Page(s1, offset, limit) == s1[offset..b];
    assert Page(s2, b, next) == s2[b..to];
    assert Page(joined, offset, limit + next) == joined[offset..to];
    hide Page;
    assert joined[offset..to] == s1[offset..b] + s2[b..to];
  }

  lemma NoTieJoins(rows: seq<Row>, sorted: seq<Row>, offset: nat, limit: nat, next: nat, first: seq<Row>,
        second: seq<Row>)
    requires Arranges(sorted, rows)
    requires limit > 0 && offset + limit < |rows|
    requires |sorted| == |rows| && sorted[offset + limit - 1].timestamp != sorted[offset + limit].timestamp
    requires IsPage(first, rows, offset, limit) && IsPage(second, rows, offset + limit, next)
    ensures IsPage(first + second, rows, offset, limit + next)
  {
    hide NewestFirst, Page;
    var b := offset + limit;
    var s1: seq<Row> :| multiset(s1) == multiset(rows) && NewestFirst(s1) && first == Page(s1, offset, limit);
    var s2: seq<Row> :| multiset(s2) == multiset(rows) && NewestFirst(s2) && second == Page(s2, b, next);
    Spliced(sorted, s1, s2, b);
    SplicedPages(s1, s2, offset, limit, next);
  }

  /** The last page has nothing behind it. */
  lemma LastPageJoins(rows: seq<Row>, offset: nat, limit: nat, next: nat, first: seq<Row>, second: seq<Row>)
    requires offset + limit >= |rows|
    requires IsPage(first, rows, offset, limit) && IsPage(second, rows, offset + limit, next)
    ensures IsPage(first + second, rows, offset, limit + next)
  {
    var s1: seq<Row> :| multiset(s1) == multiset(rows) && NewestFirst(s1) && first == Page(s1, offset, limit);
    var s2: seq<Row> :| multiset(s2) == multiset(rows) && NewestFirst(s2) && second == Page(s2, offset + limit, next);
    assert |s1| == |multiset(s1)| == |multiset(rows)| == |rows| && |s2| == |multiset(s2)| == |rows|;
    assert second == [] && first + second == first == Page(s1, offset, limit + next);
  }

  /** Two neighbours of one time may stand either way round. */
  lemma Swapped(sorted: seq<Row>, b: nat) returns (swapped: seq<Row>)
    requires NewestFirst(sorted) && 0 < b < |sorted| && sorted[b - 1].timestamp == sorted[b].timestamp
    ensures |swapped| == |sorted| && swapped[b] == sorted[b - 1]
    ensures Arranges(swapped, sorted)
  {
    var x, y := sorted[b - 1], sorted[b];
    swapped := sorted[b - 1 := y][b := x];
    assert multiset(swapped) == multiset(sorted);
  }

  lemma ArrangedPage(sorted: seq<Row>, rows: seq<Row>, offset: nat, limit: nat)
    requires Arranges(sorted, rows)
    ensures IsPage(Page(sorted, offset, limit), rows, offset, limit)
  {
    hide NewestFirst, Page;
  }

  lemma TiedRows(sorted: seq<Row>, swapped: seq<Row>, offset: nat, limit: nat, next: nat)
    requires limit > 0 && next > 0 && offset + limit < |sorted| == |swapped|
    requires swapped[offset + limit] == sorted[offset + limit - 1]
    ensures sorted[offset + limit - 1] in Page(sorted, offset, limit)
    ensures sorted[offset + limit - 1] in Page(swapped, offset + limit, next)
  {
    assert Page(sorted, offset, limit)[limit - 1] == sorted[offset + limit - 1];
    assert Page(swapped, offset + limit, next)[0] == swapped[offset + limit];
  }

  /** On a tie the two pages can show one row twice, and another not at all. */
  lemma TieRepeats(rows: seq<Row>, sorted: seq<Row>, offset: nat, limit: nat, next: nat)
    requires Arranges(sorted, rows) && DistinctIds(rows)
    requires limit > 0 && next > 0 && offset + limit < |rows| == |sorted|
    requires sorted[offset + limit - 1].timestamp == sorted[offset + limit].timestamp
    ensures !PagesJoin(rows, offset, limit, next)
  {
    hide NewestFirst, Page, DistinctIds, IsPage;
    var b := offset + limit;
    var swapped := SwappedRows(rows, sorted, b);
    TiedRows(sorted, swapped, offset, limit, next);
    ArrangedPage(sorted, rows, offset, limit);
    ArrangedPage(swapped, rows, b, next);
    hide Arranges, PagesJoin;
    RepeatIsNoPage(rows, Page(sorted, offset, limit), Page(swapped, b, next), offset, limit + next, sorted[b - 1]);
    DoNotJoin(rows, Page(sorted, offset, limit), Page(swapped, b, next), offset, limit, next);
  }

  lemma SwappedRows(rows: seq<Row>, sorted: seq<Row>, b: nat) returns (swapped: seq<Row>)
    requires Arranges(sorted, rows) && 0 < b < |sorted| && sorted[b - 1].timestamp == sorted[b].timestamp
    ensures |swapped| == |sorted| && swapped[b] == sorted[b - 1]
    ensures Arranges(swapped, rows)
  {
    swapped := Swapped(sorted, b);
    hide NewestFirst;
  }

  lemma DoNotJoin(rows: seq<Row>, first: seq<Row>, second: seq<Row>, offset: nat, limit: nat, next: nat)
    requires IsPage(first, rows, offset, limit) && IsPage(second, rows, offset + limit, next)
    requires !IsPage(first + second, rows, offset, limit + next)
    ensures !PagesJoin(rows, offset, limit, next)
  {
    hide IsPage;
    assert !Joins(first, second, rows, offset, limit, next);
  }

  lemma RepeatIsNoPage(rows: seq<Row>, first: seq<Row>, second: seq<Row>, offset: nat, limit: nat, x: Row)
    requires DistinctIds(rows) && x in first && x in second
    ensures !IsPage(first + second, rows, offset, limit)
  {
    hide NewestFirst, Page, DistinctIds;
    if IsPage(first + second, rows, offset, limit) {
      var s: seq<Row> :| multiset(s) == multiset(rows) && NewestFirst(s) && first + second == Page(s, offset, limit);
      SeenTwice(s, rows, first, second, offset, limit, x);
    }
  }

  lemma SeenTwice(s: seq<Row>, rows: seq<Row>, first: seq<Row>, second: seq<Row>, offset: nat, limit: nat, x: Row)
    requires multiset(s) == multiset(rows) && first + second == Page(s, offset, limit)
    requires x in first && x in second
    ensures !DistinctIds(rows)
  {
    PageCounts(s, offset, limit, x);
    hide Page, DistinctIds;
    assert multiset(first + second)[x] == multiset(first)[x] + multiset(second)[x];
    if DistinctIds(rows) {
      CountOnce(rows, x);
    }
  }

  lemma PageCounts(s: seq<Row>, offset: nat, limit: nat, x: Row)
    ensures multiset(Page(s, offset, limit))[x] <= multiset(s)[x]
  {
    var from := if offset > |s| then |s| else offset;
    var to := if from + limit > |s| then |s| else from + limit;
    assert limit > 0 ==> Page(s, offset, limit) == s[from..to];
    assert s == s[..from] + (s[from..to] + s[to..]);
  }

  /** Consecutive pages are sure to fit together exactly when no tie of timestamps lies across
      the boundary; otherwise a row can be shown twice and another skipped.  `sorted` is any
      newest-first arrangement: all have the same timestamps in the same places. */
  lemma PagesJoinIff(rows: seq<Row>, sorted: seq<Row>, offset: nat, limit: nat, next: nat)
    requires Arranges(sorted, rows) && DistinctIds(rows) && limit > 0 && next > 0
    ensures |sorted| == |rows|
    ensures PagesJoin(rows, offset, limit, next)
       <==> (offset + limit < |rows| ==> sorted[offset + limit - 1].timestamp != sorted[offset + limit].timestamp)
  {
    assert |sorted| == |multiset(sorted)| == |multiset(rows)| == |rows|;
    hide IsPage, DistinctIds, Arranges;
    if offset + limit < |rows| && sorted[offset + limit - 1].timestamp == sorted[offset + limit].timestamp {
      TieRepeats(rows, sorted, offset, limit, next);
    } else {
      forall first, second
        ensures Joins(first, second, rows, offset, limit, next)
      {
        if IsPage(first, rows, offset, limit) && IsPage(second, rows, offset + limit, next) {
          if offset + limit < |rows| {
            NoTieJoins(rows, sorted, offset, limit, next, first, second);
          } else {
            LastPageJoins(rows, offset, limit, next, first, second);
          }
        }
      }
    }
  }

  /** The rows the filter asks for. */
  function Asked(lower: char -> char, org: int, f: Filter, table: seq<Row>): seq<Row> {
    Where(table, row => Wanted(lower, CLAUSES, org, f, row))
  }

  /** The same for two queries of the builder that differ in the offset: their answers join. */
  lemma ConsecutiveAnswers(lower: char -> char, q: Query, args: seq<Value>, q': Query, args': seq<Value>,
                           org: int, f: Filter, table: seq<Row>, sorted: seq<Row>, first: seq<Row>, second: seq<Row>)
    requires f.offset >= 0 && DistinctIds(table)
    requires IsBuilt(lower, q, args, org, f) && IsBuilt(lower, q', args', org, NextPage(f))
    requires Answers(lower, q, args, table, first) && Answers(lower, q', args', table, second)
    requires Arranges(sorted, Asked(lower, org, f, table))
    requires f.offset + LimitOf(f) < |sorted| ==>
               sorted[f.offset + LimitOf(f) - 1].timestamp != sorted[f.offset + LimitOf(f)].timestamp
    ensures IsPage(first + second, Asked(lower, org, f, table), f.offset, 2 * LimitOf(f))
  {
    hide Asked, Wanted, IsPage, IsBuilt, Answers, Arranges, DistinctIds, PagesJoin;
    AskedAnswer(lower, q, args, org, f, table, first);
    AskedAnswer(lower, q', args', org, NextPage(f), table, second);
    NextAsks(lower, org, f, table);
    PagesJoinIff(Asked(lower, org, f, table), sorted, f.offset, LimitOf(f), LimitOf(f));
    JoinPages(first, second, Asked(lower, org, f, table), f.offset, LimitOf(f));
  }

  lemma JoinPages(first: seq<Row>, second: seq<Row>, rows: seq<Row>, offset: nat, limit: nat)
    requires PagesJoin(rows, offset, limit, limit)
    requires IsPage(first, rows, offset, limit) && IsPage(second, rows, offset + limit, limit)
    ensures IsPage(first + second, rows, offset, 2 * limit)
  {
    hide IsPage;
    assert Joins(first, second, rows, offset, limit, limit);
    assert limit + limit == 2 * limit;
  }

  lemma AskedAnswer(lower: char -> char, q: Query, args: seq<Value>, org: int, f: Filter, table: seq<Row>,
        result: seq<Row>)
    requires IsBuilt(lower, q, args, org, f) && Answers(lower, q, args, table, result)
    ensures IsPage(result, Asked(lower, org, f, table), f.offset, LimitOf(f))
  {
    hide Selected, Wanted, IsPage, Page;
    QueryMeansFilter(lower, q, args, org, f, table, result);
  }

  lemma NextAsks(lower: char -> char, org: int, f: Filter, table: seq<Row>)
    requires DistinctIds(table)
    ensures Asked(lower, org, NextPage(f), table) == Asked(lower, org, f, table)
    ensures DistinctIds(Asked(lower, org, f, table))
  {
    SameWanted(lower, org, f, NextPage(f));
    hide Wanted, DistinctIds, NextPage;
    SameRows(table, row => Wanted(lower, CLAUSES, org, NextPage(f), row), row => Wanted(lower, CLAUSES, org, f, row));
    WhereDistinct(table, row => Wanted(lower, CLAUSES, org, f, row));
  }

  function NextPage(f: Filter): Filter {
    f.(offset := f.offset + LimitOf(f))
  }

  lemma SameWanted(lower: char -> char, org: int, f: Filter, f': Filter)
    requires f' == f.(offset := f'.offset)
    ensures forall row :: Wanted(lower, CLAUSES, org, f, row) <==> Wanted(lower, CLAUSES, org, f', row)
  {
    forall row
      ensures Wanted(lower, CLAUSES, org, f, row) <==> Wanted(lower, CLAUSES, org, f', row)
    {
      assert forall i: nat :: Clause(lower, i, org, f, row) <==> Clause(lower, i, org, f', row);
    }
  }

  lemma {:induction false} WhereDistinct(rows: seq<Row>, test: Row -> bool)
    requires DistinctIds(rows)
    ensures DistinctIds(Where(rows, test)) && forall row | row in Where(rows, test) :: row in rows
  {
    if rows != [] {
      var n := |rows| - 1;
      WhereDistinct(rows[..n], test);
      var init := Where(rows[..n], test);
      forall i | 0 <= i < |init|
        ensures init[i].id != rows[n].id
      {
        assert init[i] in init;
        var j :| 0 <= j < n && rows[..n][j] == init[i];
      }
    }
  }

  // ---------- When the search box finds substrings ----------

  predicate Special(c: char) {
    c == '%' || c == '_' || c == '\\'
  }

  predicate Plain(s: string) {
    forall c | c in s :: !Special(c)
  }

  /** What every case folding does: the pattern characters stay, and nothing becomes one. */
  ghost predicate KeepsSpecials(lower: char -> char) {
    && (forall c | Special(c) :: lower(c) == c)
    && (forall c | !Special(c) :: !Special(lower(c)))
  }

  predicate Finds(lower: char -> char, text: string, search: string) {
    Like(Fold(lower, text), Fold(lower, "%" + search + "%"))
  }

  lemma FoldPattern(lower: char -> char, search: string)
    requires KeepsSpecials(lower)
    ensures Fold(lower, "%" + search + "%") == "%" + (Fold(lower, search) + "%")
  {
    assert Special('%');
  }

  lemma {:induction false} LikeAny(t: string)
    ensures Like(t, "%")
  {
    if t != "" {
      LikeAny(t[1..]);
    }
  }

  lemma {:induction false} LikePrefix(t: string, q: string)
    requires Plain(q)
    ensures Like(t, q + "%") <==> q <= t
  {
    if q == "" {
      assert q + "%" == "%";
      LikeAny(t);
    } else {
      var p := q + "%";
      assert p[1..] == q[1..] + "%" && !Special(q[0]);
      if t != "" && t[0] == q[0] {
        LikePrefix(t[1..], q[1..]);
        assert t == [t[0]] + t[1..] && q == [q[0]] + q[1..];
      }
    }
  }

  lemma {:induction false} LikeSubstring(t: string, q: string)
    requires Plain(q)
    ensures Like(t, "%" + (q + "%")) <==> Contains(t, q)
  {
    var p := "%" + (q + "%");
    assert p[1..] == q + "%";
    LikePrefix(t, q);
    PrefixOccurs(t, q);
    if t != "" {
      LikeSubstring(t[1..], q);
      ContainsTail(t, q);
    } else {
      assert Contains(t, q) <==> OccursAt(t, q, 0);
    }
  }

  lemma ContainsTail(t: string, q: string)
    requires t != ""
    ensures Contains(t, q) <==> OccursAt(t, q, 0) || Contains(t[1..], q)
  {
    if i: nat :| 0 < i <= |t| && OccursAt(t, q, i) {
      OccursInTail(t, q, i - 1);
      ContainsAt(t[1..], q, i - 1);
    }
    if i: nat :| i <= |t[1..]| && OccursAt(t[1..], q, i) {
      OccursInTail(t, q, i);
      ContainsAt(t, q, i + 1);
    }
  }

  /** A text the pattern matches although it is not the search text. */
  function Decoy(s: string): string {
    if s == "" then ""
    else if s[0] == '%' then Decoy(s[1..])
    else if s[0] == '_' then "a" + Decoy(s[1..])
    else if s[0] == '\\' then (if |s| == 1 then "%" else [s[1]] + Decoy(s[2..]))
    else [s[0]] + Decoy(s[1..])
  }

  lemma {:induction false} DecoyMatches(lower: char -> char, s: string)
    requires KeepsSpecials(lower)
    ensures Like(Fold(lower, Decoy(s)), Fold(lower, s) + "%")
  {
    var t, p := Fold(lower, Decoy(s)), Fold(lower, s) + "%";
    if s == "" {
      assert p == "%";
      LikeAny(t);
    } else if s[0] == '\\' && |s| == 1 {
      assert Special('\\') && Special('%');
      assert p == "\\%" && t == "%";
      assert t[1..] == "" && p[2..] == "";
    } else if s[0] == '\\' {
      assert Special('\\');
      DecoyMatches(lower, s[2..]);
      assert t[1..] == Fold(lower, Decoy(s[2..])) && p[2..] == Fold(lower, s[2..]) + "%";
    } else {
      DecoyMatches(lower, s[1..]);
      assert p[1..] == Fold(lower, s[1..]) + "%";
      if s[0] == '%' {
        assert Special('%');
      } else {
        assert t[1..] == Fold(lower, Decoy(s[1..]));
        assert Special('_');
      }
    }
  }

  lemma {:induction false} DecoyDiffers(lower: char -> char, s: string)
    requires KeepsSpecials(lower)
    ensures |Decoy(s)| <= |s|
    ensures !Plain(s) ==> Fold(lower, Decoy(s)) != Fold(lower, s)
  {
    if s != "" {
      if s[0] == '\\' && |s| > 1 {
        DecoyDiffers(lower, s[2..]);
      } else if s[0] == '\\' {
        assert Special('\\') && Special('%') && lower('%') != lower('\\');
        assert Fold(lower, Decoy(s))[0] == '%' && Fold(lower, s)[0] == '\\';
      } else {
        DecoyDiffers(lower, s[1..]);
        if s[0] == '_' {
          assert !Special(lower('a')) && Special('_');
          assert Fold(lower, Decoy(s))[0] == lower('a') && Fold(lower, s)[0] == '_';
        } else if s[0] != '%' {
          assert Fold(lower, Decoy(s))[1..] == Fold(lower, Decoy(s[1..])) && Fold(lower, s)[1..] == Fold(lower, s[1..]);
          assert Plain(s[1..]) ==> Plain(s);
        }
      }
    }
  }

  lemma ShortContains(u: string, q: string)
    requires |u| <= |q| && Contains(u, q)
    ensures u == q
  {
  }

  ghost predicate FindsSubstrings(lower: char -> char, search: string) {
    forall text: string :: Finds(lower, text, search) <==> Contains(Fold(lower, text), Fold(lower, search))
  }

  /** The search is a case-insensitive substring search exactly when the text searched for has
      no per cent sign, underscore or backslash. */
  lemma SearchIsSubstringIff(lower: char -> char, search: string)
    requires KeepsSpecials(lower)
    ensures FindsSubstrings(lower, search) <==> Plain(search)
  {
    hide Like, Fold, Contains;
    FoldPattern(lower, search);
    if Plain(search) {
      FoldPlain(lower, search);
      forall text: string
        ensures Finds(lower, text, search) <==> Contains(Fold(lower, text), Fold(lower, search))
      {
        LikeSubstring(Fold(lower, text), Fold(lower, search));
      }
    } else {
      DecoyFails(lower, search);
    }
  }

  lemma FoldPlain(lower: char -> char, s: string)
    requires KeepsSpecials(lower) && Plain(s)
    ensures Plain(Fold(lower, s))
  {
    forall c | c in Fold(lower, s)
      ensures !Special(c)
    {
      var i :| 0 <= i < |s| && Fold(lower, s)[i] == c;
      assert s[i] in s;
    }
  }

  lemma DecoyFails(lower: char -> char, search: string)
    requires KeepsSpecials(lower) && !Plain(search)
    ensures Finds(lower, Decoy(search), search)
    ensures !Contains(Fold(lower, Decoy(search)), Fold(lower, search))
  {
    hide Contains;
    var t, q := Fold(lower, Decoy(search)), Fold(lower, search);
    FoldPattern(lower, search);
    DecoyMatches(lower, search);
    DecoyDiffers(lower, search);
    assert ("%" + (q + "%"))[1..] == q + "%";
    if Contains(t, q) {
      ShortContains(t, q);
    }
  }
}
