/** pkg/storage/postgres.go GetAuditLogs, from the outside: what the rows of an answer are, field by
    field, how many there are, and in which order. */
module AuditAnswers {
  import opened AuditQuery

  predicate Mentions(lower: char -> char, o: Option<string>, search: string) {
    o.Some? && Like(Fold(lower, o.value), Fold(lower, "%" + search + "%"))
  }

  /** The row is what the caller asked for. */
  predicate AskedFor(lower: char -> char, org: int, f: Filter, row: Row) {
    && row.org == org
    && (f.userId != "" ==> row.userId == Some(f.userId))
    && (f.verdict != "" ==> row.verdict == Some(f.verdict))
    && (f.riskLevel == "HIGH" ==> row.riskScore >= 81)
    && (f.riskLevel == "MEDIUM" ==> 1 <= row.riskScore <= 80)
    && (f.riskLevel == "LOW" ==> row.riskScore == 0)
    && (f.from.Some? ==> f.from.value <= row.timestamp)
    && (f.to.Some? ==> row.timestamp <= f.to.value)
    && (f.search != "" ==>
          || Mentions(lower, row.userId, f.search)
          || Mentions(lower, row.requestId, f.search)
          || Mentions(lower, row.threatDetails, f.search))
  }

  /** How many rows of the table are. */
  function Count(lower: char -> char, org: int, f: Filter, table: seq<Row>): nat {
    if table == [] then 0
    else
      Count(lower, org, f, table[..|table| - 1])
      + (if AskedFor(lower, org, f, table[|table| - 1]) then 1 else 0)
  }

  lemma ClausesAre(lower: char -> char, org: int, f: Filter, row: Row)
    ensures Wanted(lower, CLAUSES, org, f, row) <==> AskedFor(lower, org, f, row)
  {
    hide Like, Fold;
    assert Wanted(lower, CLAUSES, org, f, row)
      <==> && Clause(lower, 0, org, f, row) && Clause(lower, 1, org, f, row) && Clause(lower, 2, org, f, row)
           && Clause(lower, 3, org, f, row) && Clause(lower, 4, org, f, row) && Clause(lower, 5, org, f, row)
           && Clause(lower, 6, org, f, row);
  }

  lemma {:induction false} CountIs(lower: char -> char, org: int, f: Filter, table: seq<Row>)
    ensures |Asked(lower, org, f, table)| == Count(lower, org, f, table)
  {
    hide Wanted, AskedFor;
    if table != [] {
      CountIs(lower, org, f, table[..|table| - 1]);
      ClausesAre(lower, org, f, table[|table| - 1]);
    }
  }

  /** What an answer holds: only rows that were asked for, newest first, and as many of them as are
      left behind the offset, up to the limit, which is 100 unless it is positive. */
  lemma AnswerIs(lower: char -> char, q: Query, args: seq<Value>, org: int, f: Filter, table: seq<Row>,
                 result: seq<Row>)
    requires IsBuilt(lower, q, args, org, f) && Answers(lower, q, args, table, result)
    ensures forall row | row in result :: row in table && AskedFor(lower, org, f, row)
    ensures forall i, j | 0 <= i < j < |result| :: result[i].timestamp >= result[j].timestamp
    ensures var skipped := if f.offset > 0 then f.offset else 0;
            var left := Count(lower, org, f, table) - skipped;
            var limit := if f.limit > 0 then f.limit else 100;
            |result| == if left <= 0 then 0 else if left < limit then left else limit
  {
    hide IsBuilt, Answers, Wanted, Asked, AskedFor;
    AskedAnswer(lower, q, args, org, f, table, result);
    var rows := Asked(lower, org, f, table);
    CountIs(lower, org, f, table);
    PageIs(result, rows, f.offset, LimitOf(f));
    forall row | row in result
      ensures row in table && AskedFor(lower, org, f, row)
    {
      AskedIff(lower, org, f, table, row);
    }
  }

  lemma AskedIff(lower: char -> char, org: int, f: Filter, table: seq<Row>, row: Row)
    ensures row in Asked(lower, org, f, table) <==> row in table && AskedFor(lower, org, f, row)
  {
    hide Wanted, AskedFor;
    WhereKeeps(table, row => Wanted(lower, CLAUSES, org, f, row), row);
    ClausesAre(lower, org, f, row);
    assert row in table <==> row in multiset(table);
    assert row in Asked(lower, org, f, table) <==> row in multiset(Asked(lower, org, f, table));
  }

  lemma PageIs(result: seq<Row>, rows: seq<Row>, offset: int, limit: int)
    requires IsPage(result, rows, offset, limit) && limit > 0
    ensures forall row | row in result :: row in rows
    ensures forall i, j | 0 <= i < j < |result| :: result[i].timestamp >= result[j].timestamp
    ensures var left := |rows| - if offset > 0 then offset else 0;
            |result| == if left <= 0 then 0 else if left < limit then left else limit
  {
    var sorted: seq<Row> :| multiset(sorted) == multiset(rows) && NewestFirst(sorted)
      && result == Page(sorted, offset, limit);
    SameMembers(sorted, rows);
  }

  lemma SameMembers(a: seq<Row>, b: seq<Row>)
    requires multiset(a) == multiset(b)
    ensures |a| == |b| && forall row | row in a :: row in b
  {
    assert |multiset(a)| == |a| && |multiset(b)| == |b|;
    forall row | row in a
      ensures row in b
    {
      assert row in multiset(b);
    }
  }

  /** And what it withholds: an answer from the start leaves a row that was asked for out only when
      it is full, and then no row in it is older than that one. */
  lemma LeftOut(lower: char -> char, q: Query, args: seq<Value>, org: int, f: Filter, table: seq<Row>,
                result: seq<Row>, row: Row)
    requires IsBuilt(lower, q, args, org, f) && Answers(lower, q, args, table, result) && f.offset <= 0
    requires row in table && AskedFor(lower, org, f, row) && row !in result
    ensures |result| == if f.limit > 0 then f.limit else 100
    ensures forall i | 0 <= i < |result| :: result[i].timestamp >= row.timestamp
  {
    hide IsBuilt, Answers, Wanted, Asked, AskedFor;
    AskedAnswer(lower, q, args, org, f, table, result);
    AskedIff(lower, org, f, table, row);
    BehindPage(result, Asked(lower, org, f, table), f.offset, LimitOf(f), row);
  }

  lemma BehindPage(result: seq<Row>, rows: seq<Row>, offset: int, limit: int, row: Row)
    requires IsPage(result, rows, offset, limit) && offset <= 0 < limit
    requires row in rows && row !in result
    ensures |result| == limit && forall i | 0 <= i < |result| :: result[i].timestamp >= row.timestamp
  {
    var sorted: seq<Row> :| multiset(sorted) == multiset(rows) && NewestFirst(sorted)
      && result == Page(sorted, offset, limit);
    SameMembers(rows, sorted);
    var k :| 0 <= k < |sorted| && sorted[k] == row;
    assert forall j | 0 <= j < |result| :: result[j] == sorted[j] && result[j] in result;
  }
}
