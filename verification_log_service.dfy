/** VerificationLogService: the append-only log of verification attempts. The count for a
    record is the number of rows that reference it, never a stored counter. */
module Audit {
  import opened Wrappers
  import opened Entities

  /** The number of rows that reference `s`. */
  function Count(rows: seq<VerificationLog>, s: SignatureId): (n: nat) {
    if |rows| == 0 then 0 else (if rows[0].signature == s then 1 else 0) + Count(rows[1..], s)
  }

  /** The positions of the rows that reference `s`: an independent reading of Count. */
  ghost function Positions(rows: seq<VerificationLog>, s: SignatureId): set<nat> {
    set i: nat | i < |rows| && rows[i].signature == s
  }

  /** Appending a row adds one to its record's count and leaves every other count alone. */
  lemma {:induction false} CountAppend(rows: seq<VerificationLog>, row: VerificationLog, s: SignatureId)
    ensures Count(rows + [row], s) == Count(rows, s) + (if row.signature == s then 1 else 0)
  {
    if |rows| > 0 {
      assert (rows + [row])[1..] == rows[1..] + [row];
      CountAppend(rows[1..], row, s);
    }
  }

  /** Count is the size of the set of positions referencing `s`. */
  lemma {:induction false} CountIsPositions(rows: seq<VerificationLog>, s: SignatureId)
    ensures Count(rows, s) == |Positions(rows, s)|
  {
    if |rows| > 0 {
      var n := |rows| - 1;
      var front := rows[..n];
      CountIsPositions(front, s);
      assert front + [rows[n]] == rows;
      CountAppend(front, rows[n], s);
      var before := Positions(front, s);
      if rows[n].signature == s {
        assert Positions(rows, s) == before + {n};
        assert n !in before;
      } else {
        assert Positions(rows, s) == before;
      }
    }
  }

  /** The rows that reference `s`, in log order. */
  function Filter(rows: seq<VerificationLog>, s: SignatureId): (r: seq<VerificationLog>)
    ensures |r| == Count(rows, s)
    ensures forall x :: x in r ==> x in rows && x.signature == s
    ensures forall i :: 0 <= i < |rows| && rows[i].signature == s ==> rows[i] in r
  {
    if |rows| == 0 then []
    else
      var rest := Filter(rows[1..], s);
      assert forall i :: 0 < i < |rows| ==> rows[i] == rows[1..][i - 1];
      if rows[0].signature == s then [rows[0]] + rest else rest
  }

  /** Filtering keeps every row that references `s` as often as it occurs, and no other row. */
  lemma {:induction false} FilterMultiset(rows: seq<VerificationLog>, s: SignatureId)
    ensures forall x :: multiset(Filter(rows, s))[x] == if x.signature == s then multiset(rows)[x] else 0
  {
    if |rows| > 0 {
      FilterMultiset(rows[1..], s);
      assert rows == [rows[0]] + rows[1..];
    }
  }

  /** Rows in strictly increasing `verifiedAt` order. */
  predicate Increasing(xs: seq<VerificationLog>) {
    forall i, j :: 0 <= i < j < |xs| ==> xs[i].verifiedAt < xs[j].verifiedAt
  }

  /** Rows in strictly decreasing `verifiedAt` order: newest first. */
  predicate Decreasing(xs: seq<VerificationLog>) {
    forall i, j :: 0 <= i < j < |xs| ==> xs[i].verifiedAt > xs[j].verifiedAt
  }

  lemma {:induction false} FilterIncreasing(rows: seq<VerificationLog>, s: SignatureId)
    requires Increasing(rows)
    ensures Increasing(Filter(rows, s))
  {
    if |rows| > 0 {
      assert Increasing(rows[1..]) by {
        forall i, j | 0 <= i < j < |rows[1..]| ensures rows[1..][i].verifiedAt < rows[1..][j].verifiedAt {
          assert rows[1..][i] == rows[i + 1] && rows[1..][j] == rows[j + 1];
        }
      }
      FilterIncreasing(rows[1..], s);
      var rest := Filter(rows[1..], s);
      forall x | x in rest ensures rows[0].verifiedAt < x.verifiedAt {
        var k :| 0 <= k < |rows[1..]| && rows[1..][k] == x;
        assert x == rows[k + 1];
      }
    }
  }

  function Reverse(xs: seq<VerificationLog>): (r: seq<VerificationLog>)
    ensures |r| == |xs|
    ensures forall i :: 0 <= i < |xs| ==> r[i] == xs[|xs| - 1 - i]
  {
    if |xs| == 0 then [] else Reverse(xs[1..]) + [xs[0]]
  }

  lemma {:induction false} ReverseMultiset(xs: seq<VerificationLog>)
    ensures multiset(Reverse(xs)) == multiset(xs)
  {
    if |xs| > 0 {
      ReverseMultiset(xs[1..]);
      assert xs == [xs[0]] + xs[1..];
    }
  }

  /** The verification log repository and the service around it. */
  class VerificationLogService {
    var rows: seq<VerificationLog>

    /** Row i has id i and logical time i: ids and timestamps grow with every insertion. */
    ghost predicate Valid()
      reads this
    {
      forall i :: 0 <= i < |rows| ==> rows[i].id == i && rows[i].verifiedAt == i
    }

    constructor ()
      ensures Valid() && rows == []
    {
      rows := [];
    }

    /** `logVerification`: save one new row with the given record, origin, agent and
        outcome. Nothing is checked or merged: identical calls add identical-looking rows. */
    method LogVerification(signature: SignatureId, ipAddress: string, userAgent: Option<string>, isValid: bool)
      returns (log: VerificationLog)
      requires Valid()
      modifies this
      ensures Valid()
      ensures log == VerificationLog(|old(rows)|, signature, |old(rows)|, ipAddress, userAgent, isValid)
      ensures rows == old(rows) + [log]
      ensures forall s :: CountBySignature(s) == old(CountBySignature(s)) + (if s == signature then 1 else 0)
    {
      log := VerificationLog(|rows|, signature, |rows|, ipAddress, userAgent, isValid);
      forall s ensures Count(rows + [log], s) == Count(rows, s) + (if s == signature then 1 else 0) {
        CountAppend(rows, log, s);
      }
      rows := rows + [log];
    }

    /** `countBySignature`: how many rows reference the record. */
    function CountBySignature(s: SignatureId): (n: nat)
      reads this
      ensures n == |Positions(rows, s)|
    {
      CountIsPositions(rows, s);
      Count(rows, s)
    }

    /** `findBySignature`: exactly the rows that reference the record, as many as its count. */
    function FindBySignature(s: SignatureId): (r: seq<VerificationLog>)
      reads this
      ensures |r| == CountBySignature(s)
      ensures forall x :: x in r ==> x in rows && x.signature == s
      ensures forall i :: 0 <= i < |rows| && rows[i].signature == s ==> rows[i] in r
      ensures forall x :: multiset(r)[x] == if x.signature == s then multiset(rows)[x] else 0
    {
      FilterMultiset(rows, s);
      Filter(rows, s)
    }

    /** `findBySignatureOrderByVerifiedAtDesc`: the same rows, newest first. */
    function FindBySignatureOrderByVerifiedAtDesc(s: SignatureId): (r: seq<VerificationLog>)
      requires Valid()
      reads this
      ensures multiset(r) == multiset(FindBySignature(s))
      ensures Decreasing(r)
    {
      assert Increasing(rows);
      FilterIncreasing(rows, s);
      ReverseMultiset(Filter(rows, s));
      Reverse(Filter(rows, s))
    }
  }
}
