/** Edits of the audit table by someone who can also write its hash columns
    (pkg/storage/postgres.go, pkg/integrity/chain.go).  The hash takes no key, so what the replay
    can tell depends on whether the columns were left alone, and on whether the last hash is known
    from elsewhere. */
module Rechaining {
  import opened Chain
  import opened AuditLog

  function LastHash(rows: seq<Row>): string {
    ExpectedPrevious(rows, |rows|)
  }

  // ---------- The hash columns computed anew ----------

  /** The same records, with the hash columns computed as the logger does. */
  function Rechained(sha: string -> string, rows: seq<Row>): (rows': seq<Row>)
    ensures |rows'| == |rows|
  {
    if rows == [] then []
    else
      var before, row := Rechained(sha, rows[..|rows| - 1]), rows[|rows| - 1];
      var previous := LastHash(before);
      before + [Row(row.id, row.org, row.data, previous, CalculateHash(sha, previous, row.data))]
  }

  lemma {:induction false} RechainedRow(sha: string -> string, rows: seq<Row>, j: nat)
    requires j < |rows|
    ensures var row, row' := rows[j], Rechained(sha, rows)[j];
            row'.id == row.id && row'.org == row.org && row'.data == row.data
    ensures LinkOk(sha, Rechained(sha, rows), j)
  {
    hide CalculateHash;
    if j < |rows| - 1 {
      RechainedRow(sha, rows[..|rows| - 1], j);
    }
  }

  /** Whatever is written into a table, with the columns computed anew the replay accepts it. */
  lemma AnyTableIsAccepted(sha: string -> string, rows: seq<Row>)
    ensures var rows' := Rechained(sha, rows);
            && Accepted(sha, rows') && Records(rows') == Records(rows)
            && forall j | 0 <= j < |rows| :: rows'[j].id == rows[j].id && rows'[j].org == rows[j].org
  {
    hide LinkOk, Rechained;
    forall j | 0 <= j < |rows|
      ensures LinkOk(sha, Rechained(sha, rows), j) && Rechained(sha, rows)[j].data == rows[j].data
      ensures Rechained(sha, rows)[j].id == rows[j].id && Rechained(sha, rows)[j].org == rows[j].org
    {
      RechainedRow(sha, rows, j);
    }
  }

  /** And the tables that the replay accepts are just these. */
  lemma {:induction false} AcceptedIff(sha: string -> string, rows: seq<Row>)
    ensures Accepted(sha, rows) <==> Rechained(sha, rows) == rows
  {
    hide CalculateHash;
    if Rechained(sha, rows) == rows {
      AnyTableIsAccepted(sha, rows);
    }
    if Accepted(sha, rows) && rows != [] {
      var n := |rows| - 1;
      FrontAccepted(sha, rows, n);
      AcceptedIff(sha, rows[..n]);
      assert LinkOk(sha, rows, n);
      assert rows == rows[..n] + [rows[n]];
    }
  }

  lemma FrontAccepted(sha: string -> string, rows: seq<Row>, n: nat)
    requires Accepted(sha, rows) && n <= |rows|
    ensures Accepted(sha, rows[..n]) && LastHash(rows[..n]) == ExpectedPrevious(rows, n)
  {
    forall j | 0 <= j < n
      ensures LinkOk(sha, rows[..n], j)
    {
      assert LinkOk(sha, rows, j);
    }
  }

  // ---------- Edits that leave the hash columns alone ----------

  /** The same rows but for what is logged in them. */
  predicate EditedInPlace(rows: seq<Row>, rows': seq<Row>) {
    && |rows| == |rows'|
    && forall j | 0 <= j < |rows| ::
         rows'[j].previousHash == rows[j].previousHash && rows'[j].currentHash == rows[j].currentHash
  }

  /** `k` is the first row whose hashed fields were edited, or the length when none were. */
  predicate FirstEdit(rows: seq<Row>, rows': seq<Row>, k: nat)
    requires |rows| == |rows'|
  {
    && k <= |rows|
    && (forall j | 0 <= j < k :: Body(rows'[j].data) == Body(rows[j].data))
    && (k < |rows| ==> Body(rows'[k].data) != Body(rows[k].data))
  }

  /** The edited row's payload and the logged one are different and have one digest. */
  predicate Collides(sha: string -> string, rows: seq<Row>, rows': seq<Row>, j: nat)
    requires |rows| == |rows'|
  {
    && j < |rows|
    && Payload(rows'[j].previousHash, rows'[j].data) != Payload(rows[j].previousHash, rows[j].data)
    && sha(Payload(rows'[j].previousHash, rows'[j].data)) == sha(Payload(rows[j].previousHash, rows[j].data))
  }

  lemma EditedLink(sha: string -> string, rows: seq<Row>, rows': seq<Row>, j: nat)
    requires Accepted(sha, rows) && EditedInPlace(rows, rows') && j < |rows|
    ensures Body(rows'[j].data) == Body(rows[j].data) ==> LinkOk(sha, rows', j)
    ensures LinkOk(sha, rows', j) ==> Body(rows'[j].data) == Body(rows[j].data) || Collides(sha, rows, rows', j)
  {
    hide Body;
    assert LinkOk(sha, rows, j) && (j > 0 ==> LinkOk(sha, rows, j - 1));
    assert j > 0 ==> rows'[j - 1].currentHash == rows[j - 1].currentHash;
    SamePayload(rows[j].previousHash, rows[j].data, rows'[j].data);
  }

  lemma SamePayload(prev: string, d: LogData, e: LogData)
    ensures Payload(prev, d) == Payload(prev, e) <==> Body(d) == Body(e)
  {
    var p, q := Payload(prev, d), Payload(prev, e);
    assert Body(d) == p[|prev| + 1..] && Body(e) == q[|prev| + 1..];
  }

  /** An edit of an accepted log that leaves the hash columns alone is reported exactly at the
      first row whose hashed fields changed, unless that row's payloads collide. */
  lemma InPlaceVerdict(sha: string -> string, rows: seq<Row>, rows': seq<Row>, k: nat) returns (j: nat)
    requires Accepted(sha, rows) && EditedInPlace(rows, rows')
    ensures (BreaksAt(sha, rows', k) <==> FirstEdit(rows, rows', k)) || Collides(sha, rows, rows', j)
  {
    hide LinkOk, Body, Collides;
    j := 0;
    if j' :| 0 <= j' < |rows| && Collides(sha, rows, rows', j') {
      j := j';
    } else {
      forall i | 0 <= i < |rows|
        ensures LinkOk(sha, rows', i) <==> Body(rows'[i].data) == Body(rows[i].data)
      {
        EditedLink(sha, rows, rows', i);
      }
    }
  }

  // ---------- Any edit, against the last hash kept elsewhere ----------

  /** Two accepted logs end in one hash exactly when they agree on everything hashed. */
  lemma LastHashIff(sha: string -> string, rows: seq<Row>, rows': seq<Row>) returns (p: string, q: string)
    requires FixedLength(sha) && Accepted(sha, rows) && Accepted(sha, rows')
    ensures || (LastHash(rows) == LastHash(rows') <==> Bodies(Records(rows)) == Bodies(Records(rows')))
            || BreakBetween(sha, rows, rows', p, q)
  {
    hide ChainHash, BreakBetween, LinkOk;
    p, q := "", "";
    if LastHash(rows) == LastHash(rows') {
      p, q := TamperEvidence(sha, rows, rows');
    } else {
      IntactHash(sha, rows, |rows|);
      IntactHash(sha, rows', |rows'|);
      assert rows[..|rows|] == rows && rows'[..|rows'|] == rows';
    }
  }

  /** The same hashed fields and the same hash columns, row by row. */
  predicate SameLog(rows: seq<Row>, rows': seq<Row>) {
    && |rows| == |rows'|
    && forall j | 0 <= j < |rows| ::
         && Body(rows'[j].data) == Body(rows[j].data)
         && rows'[j].previousHash == rows[j].previousHash && rows'[j].currentHash == rows[j].currentHash
  }

  /** Any table at all, edited, cut, extended or computed anew, passes the replay and ends in the
      last hash of the log exactly when it is that log, as far as the hash reaches. */
  lemma KeptHashVerdict(sha: string -> string, rows: seq<Row>, rows': seq<Row>) returns (p: string, q: string)
    requires FixedLength(sha) && Accepted(sha, rows)
    ensures || (Accepted(sha, rows') && LastHash(rows') == LastHash(rows) <==> SameLog(rows, rows'))
            || BreakBetween(sha, rows, rows', p, q)
  {
    hide BreakBetween, Body, ChainHash;
    p, q := "", "";
    if SameLog(rows, rows') {
      SameLogPasses(sha, rows, rows');
    } else if Accepted(sha, rows') && LastHash(rows') == LastHash(rows) {
      p, q := LastHashIff(sha, rows, rows');
      if Bodies(Records(rows)) == Bodies(Records(rows')) {
        SameColumns(sha, rows, rows');
      }
    }
  }

  lemma SameLogPasses(sha: string -> string, rows: seq<Row>, rows': seq<Row>)
    requires Accepted(sha, rows) && SameLog(rows, rows')
    ensures Accepted(sha, rows') && LastHash(rows') == LastHash(rows)
  {
    hide Body;
    forall j | 0 <= j < |rows|
      ensures LinkOk(sha, rows', j)
    {
      EditedLink(sha, rows, rows', j);
    }
  }

  /** Records that hash alike get the same hash columns. */
  lemma SameColumns(sha: string -> string, rows: seq<Row>, rows': seq<Row>)
    requires Accepted(sha, rows) && Accepted(sha, rows') && Bodies(Records(rows)) == Bodies(Records(rows'))
    ensures SameLog(rows, rows')
  {
    hide Body, ChainHash;
    var a, b := Bodies(Records(rows)), Bodies(Records(rows'));
    assert |rows| == |a| == |b| == |rows'|;
    forall j | 0 <= j < |rows|
      ensures Body(rows'[j].data) == Body(rows[j].data)
      ensures rows'[j].previousHash == rows[j].previousHash && rows'[j].currentHash == rows[j].currentHash
    {
      assert a[j] == b[j];
      ColumnsAt(sha, rows, j);
      ColumnsAt(sha, rows', j);
    }
  }

  /** The hash columns of an accepted row are those of the records up to it. */
  lemma ColumnsAt(sha: string -> string, rows: seq<Row>, j: nat)
    requires Accepted(sha, rows) && j < |rows|
    ensures rows[j].previousHash == ChainHash(sha, Bodies(Records(rows))[..j])
    ensures rows[j].currentHash == ChainHash(sha, Bodies(Records(rows))[..j + 1])
  {
    hide ChainHash, LinkOk, Body, CalculateHash, ExpectedPrevious;
    IntactHash(sha, rows, j);
    IntactHash(sha, rows, j + 1);
    Columns(sha, rows, j);
    FrontBodies(rows, j);
    FrontBodies(rows, j + 1);
  }

  lemma Columns(sha: string -> string, rows: seq<Row>, j: nat)
    requires j < |rows| && LinkOk(sha, rows, j)
    ensures rows[j].previousHash == ExpectedPrevious(rows, j) && rows[j].currentHash == ExpectedPrevious(rows, j + 1)
  {
  }

  lemma FrontBodies(rows: seq<Row>, n: nat)
    requires n <= |rows|
    ensures Bodies(Records(rows[..n])) == Bodies(Records(rows))[..n]
  {
  }

  /** So a log in which a hashed field of row `k` was changed, with all hash columns from there on
      computed anew, is accepted like the original, with the rows in front of it untouched; and it
      ends in another hash, or there is a break of the hash function. */
  lemma RechainedEdit(sha: string -> string, rows: seq<Row>, k: nat, edited: LogData) returns (p: string, q: string)
    requires FixedLength(sha) && Accepted(sha, rows) && k < |rows|
    ensures var rows' := Rechained(sha, rows[k := rows[k].(data := edited)]);
            && Accepted(sha, rows') && Records(rows') == Records(rows)[k := edited] && rows'[..k] == rows[..k]
            && (|| (LastHash(rows') == LastHash(rows) <==> Body(edited) == Body(rows[k].data))
                || BreakBetween(sha, rows, rows', p, q))
  {
    hide LinkOk, Body, BreakBetween, Rechained, LastHash;
    var table := rows[k := rows[k].(data := edited)];
    var rows' := Rechained(sha, table);
    AnyTableIsAccepted(sha, table);
    assert Records(rows') == Records(rows)[k := edited];
    SameFront(sha, rows, table, k);
    p, q := LastHashIff(sha, rows, rows');
    EditedBodies(Records(rows), k, edited);
  }

  lemma EditedBodies(records: seq<LogData>, k: nat, edited: LogData)
    requires k < |records|
    ensures Bodies(records[k := edited]) == Bodies(records) <==> Body(edited) == Body(records[k])
  {
    hide Body;
    var a, b := Bodies(records), Bodies(records[k := edited]);
    assert a[k] == Body(records[k]) && b[k] == Body(edited);
  }

  /** Rows in front of every edit come out as they were. */
  lemma SameFront(sha: string -> string, rows: seq<Row>, table: seq<Row>, k: nat)
    requires Accepted(sha, rows) && k <= |rows| && k <= |table| && table[..k] == rows[..k]
    ensures k <= |table| && Rechained(sha, table)[..k] == rows[..k]
  {
    RechainedFront(sha, table, k);
    FrontAccepted(sha, rows, k);
    AcceptedIff(sha, rows[..k]);
  }

  lemma {:induction false} RechainedFront(sha: string -> string, rows: seq<Row>, k: nat)
    requires k <= |rows|
    ensures Rechained(sha, rows)[..k] == Rechained(sha, rows[..k])
  {
    hide CalculateHash;
    if k < |rows| {
      var front := rows[..|rows| - 1];
      RechainedFront(sha, front, k);
      assert front[..k] == rows[..k];
    } else {
      assert rows[..k] == rows;
    }
  }
}
