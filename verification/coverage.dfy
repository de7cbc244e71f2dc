/** The log-entry coverage checker: which catalog codes never appear in the application's logs. */
module Coverage {
  import opened Sequences
  import opened Catalog

  /** One parsed line of application log output. */
  datatype LogEntry = LogEntry(
    code: int,
    description: string,
    humanReadableCode: string,
    level: string,
    msg: string,
    logLevel: string,
    time: string)

  /** Some log entry carries the catalog entry's human-readable code. */
  predicate Covered(logCode: LogCode, logs: seq<LogEntry>)
  {
    exists i :: 0 <= i < |logs| && logs[i].humanReadableCode == logCode.humanReadableCode
  }

  /** The identifiers the logs were observed to carry. */
  function Observed(logs: seq<LogEntry>): set<string>
  {
    set i | 0 <= i < |logs| :: logs[i].humanReadableCode
  }

  /** The catalog entries no log covers, in catalog order, duplicates kept. */
  function Uncovered(logCodes: seq<LogCode>, logs: seq<LogEntry>): seq<LogCode>
  {
    if logCodes == [] then []
    else (if Covered(logCodes[0], logs) then [] else [logCodes[0]]) + Uncovered(logCodes[1..], logs)
  }

  /** The number of catalog positions whose entry some log covers. */
  function CountCovered(logCodes: seq<LogCode>, logs: seq<LogEntry>): nat
  {
    if logCodes == [] then 0
    else (if Covered(logCodes[0], logs) then 1 else 0) + CountCovered(logCodes[1..], logs)
  }

  /** Scans the logs, stopping at the first entry with a matching code. */
  method IsLogCodeCovered(logCode: LogCode, logs: seq<LogEntry>) returns (covered: bool)
    ensures covered <==> Covered(logCode, logs)
  {
    for i := 0 to |logs|
      invariant forall j :: 0 <= j < i ==> logs[j].humanReadableCode != logCode.humanReadableCode
    {
      if logs[i].humanReadableCode == logCode.humanReadableCode {
        return true;
      }
    }
    return false;
  }

  /** Accumulates, in catalog order, every catalog entry that no log covers. */
  method CheckCoverage(logCodes: seq<LogCode>, logs: seq<LogEntry>) returns (uncovered: seq<LogCode>)
    ensures uncovered == Uncovered(logCodes, logs)
  {
    uncovered := [];
    for i := 0 to |logCodes|
      invariant uncovered == Uncovered(logCodes[..i], logs)
    {
      var covered := IsLogCodeCovered(logCodes[i], logs);
      if !covered {
        uncovered := uncovered + [logCodes[i]];
      }
      assert logCodes[..i + 1] == logCodes[..i] + [logCodes[i]];
      UncoveredAppend(logCodes[..i], [logCodes[i]], logs);
    }
    assert logCodes[..|logCodes|] == logCodes;
  }

  /** The number of catalog entries the logs cover, as the report computes it from the two lengths. */
  function CoveredCount(logCodes: seq<LogCode>, logs: seq<LogEntry>): (n: int)
    ensures n == CountCovered(logCodes, logs)
    ensures 0 <= n <= |logCodes|
    ensures n == |logCodes| <==> forall i :: 0 <= i < |logCodes| ==> Covered(logCodes[i], logs)
    ensures n == 0 <==> forall i :: 0 <= i < |logCodes| ==> !Covered(logCodes[i], logs)
  {
    UncoveredLength(logCodes, logs);
    UncoveredEmptyIff(logCodes, logs);
    UncoveredCountsComplement(logCodes, logs);
    |logCodes| - |Uncovered(logCodes, logs)|
  }

  /** The report's "Coverage: 100%" branch is taken exactly when every catalog entry is covered. */
  function FullyCovered(logCodes: seq<LogCode>, logs: seq<LogEntry>): (all: bool)
    ensures all <==> forall i :: 0 <= i < |logCodes| ==> Covered(logCodes[i], logs)
  {
    UncoveredEmptyIff(logCodes, logs);
    |Uncovered(logCodes, logs)| == 0
  }

  /** Coverage is membership of the code in the set of observed identifiers. */
  lemma CoveredIffObserved(logCode: LogCode, logs: seq<LogEntry>)
    ensures Covered(logCode, logs) <==> logCode.humanReadableCode in Observed(logs)
  {
  }

  /** Matching sees only human-readable codes: entries that agree on them agree on coverage. */
  lemma CoveredIgnoresOtherFields(c: LogCode, c': LogCode, logs: seq<LogEntry>, logs': seq<LogEntry>)
    requires c.humanReadableCode == c'.humanReadableCode
    requires |logs| == |logs'|
    requires forall i :: 0 <= i < |logs| ==> logs[i].humanReadableCode == logs'[i].humanReadableCode
    ensures Covered(c, logs) <==> Covered(c', logs')
  {
  }

  /** Checking a concatenated catalog is checking each part. */
  lemma {:induction false} UncoveredAppend(a: seq<LogCode>, b: seq<LogCode>, logs: seq<LogEntry>)
    ensures Uncovered(a + b, logs) == Uncovered(a, logs) + Uncovered(b, logs)
  {
    if a == [] {
      assert a + b == b;
    } else {
      assert (a + b)[0] == a[0];
      assert (a + b)[1..] == a[1..] + b;
      UncoveredAppend(a[1..], b, logs);
    }
  }

  /** Soundness and completeness: an entry is reported iff it is in the catalog and uncovered. */
  lemma {:induction false} UncoveredMembership(logCodes: seq<LogCode>, logs: seq<LogEntry>, c: LogCode)
    ensures c in Uncovered(logCodes, logs) <==> c in logCodes && !Covered(c, logs)
  {
    if logCodes != [] {
      assert logCodes == [logCodes[0]] + logCodes[1..];
      UncoveredMembership(logCodes[1..], logs, c);
    }
  }

  /** No deduplication: an uncovered entry is reported as often as the catalog lists it. */
  lemma {:induction false} UncoveredMultiplicity(logCodes: seq<LogCode>, logs: seq<LogEntry>, c: LogCode)
    ensures multiset(Uncovered(logCodes, logs))[c] == if Covered(c, logs) then 0 else multiset(logCodes)[c]
  {
    if logCodes != [] {
      assert logCodes == [logCodes[0]] + logCodes[1..];
      UncoveredMultiplicity(logCodes[1..], logs, c);
    }
  }

  /** The result keeps the catalog's relative order. */
  lemma {:induction false} UncoveredIsSubsequence(logCodes: seq<LogCode>, logs: seq<LogEntry>)
    ensures IsSubsequence(Uncovered(logCodes, logs), logCodes)
  {
    if logCodes != [] {
      var r := Uncovered(logCodes, logs);
      var rest := Uncovered(logCodes[1..], logs);
      UncoveredIsSubsequence(logCodes[1..], logs);
      if Covered(logCodes[0], logs) {
        assert r == rest;
      } else {
        assert r == [logCodes[0]] + rest;
        assert r[0] == logCodes[0] && r[1..] == rest;
      }
    }
  }

  /** The result is never longer than the catalog, and as long exactly when nothing is covered. */
  lemma {:induction false} UncoveredLength(logCodes: seq<LogCode>, logs: seq<LogEntry>)
    ensures |Uncovered(logCodes, logs)| <= |logCodes|
    ensures |Uncovered(logCodes, logs)| == |logCodes| <==>
            forall i :: 0 <= i < |logCodes| ==> !Covered(logCodes[i], logs)
  {
    if logCodes != [] {
      UncoveredLength(logCodes[1..], logs);
      if !Covered(logCodes[0], logs) {
        forall i | 1 <= i < |logCodes|
          ensures logCodes[i] == logCodes[1..][i - 1]
        {
        }
      }
    }
  }

  /** Every catalog position is either reported as uncovered or counted as covered, never both. */
  lemma {:induction false} UncoveredCountsComplement(logCodes: seq<LogCode>, logs: seq<LogEntry>)
    ensures |Uncovered(logCodes, logs)| + CountCovered(logCodes, logs) == |logCodes|
  {
    if logCodes != [] {
      UncoveredCountsComplement(logCodes[1..], logs);
    }
  }

  /** The catalog comes back unchanged exactly when no entry is covered. */
  lemma {:induction false} UncoveredUnchangedIff(logCodes: seq<LogCode>, logs: seq<LogEntry>)
    ensures Uncovered(logCodes, logs) == logCodes <==>
            forall i :: 0 <= i < |logCodes| ==> !Covered(logCodes[i], logs)
  {
    UncoveredLength(logCodes, logs);
    if logCodes != [] {
      UncoveredUnchangedIff(logCodes[1..], logs);
      if !Covered(logCodes[0], logs) {
        forall i | 1 <= i < |logCodes|
          ensures logCodes[i] == logCodes[1..][i - 1]
        {
        }
        assert logCodes == [logCodes[0]] + logCodes[1..];
      }
    }
  }

  /** The result is empty exactly when every catalog entry is covered. */
  lemma {:induction false} UncoveredEmptyIff(logCodes: seq<LogCode>, logs: seq<LogEntry>)
    ensures Uncovered(logCodes, logs) == [] <==>
            forall i :: 0 <= i < |logCodes| ==> Covered(logCodes[i], logs)
  {
    forall i | 0 <= i < |logCodes|
      ensures logCodes[i] in Uncovered(logCodes, logs) <==> !Covered(logCodes[i], logs)
    {
      UncoveredMembership(logCodes, logs, logCodes[i]);
    }
    if Uncovered(logCodes, logs) != [] {
      var r := Uncovered(logCodes, logs);
      UncoveredMembership(logCodes, logs, r[0]);
    }
  }

  /** Without any log entries the whole catalog is uncovered. */
  lemma {:induction false} UncoveredWithoutLogs(logCodes: seq<LogCode>)
    ensures Uncovered(logCodes, []) == logCodes
  {
    UncoveredUnchangedIff(logCodes, []);
  }

  /** Checking the result a second time against the same logs changes nothing. */
  lemma UncoveredIdempotent(logCodes: seq<LogCode>, logs: seq<LogEntry>)
    ensures Uncovered(Uncovered(logCodes, logs), logs) == Uncovered(logCodes, logs)
  {
    var r := Uncovered(logCodes, logs);
    forall i | 0 <= i < |r|
      ensures !Covered(r[i], logs)
    {
      UncoveredMembership(logCodes, logs, r[i]);
    }
    UncoveredUnchangedIff(r, logs);
  }

  /** The repository's own scenario: codes 100 and 200 are logged, so only the 300 entry is reported. */
  lemma CheckCoverageScenario()
    ensures
      var nullPointer := LogCode(100, "ERROR", "Unexpected null pointer encountered.", "ERROR_NULL_POINTER");
      var mismatch := LogCode(200, "WARN", "Data format mismatch, falling back to default.", "WARN_DATA_FORMAT_MISMATCH");
      var connected := LogCode(300, "INFO", "Database connection successfully established.", "INFO_DB_CONNECTION_ESTABLISHED");
      var logs := [
        LogEntry(100, "Unexpected null pointer encountered.", "ERROR_NULL_POINTER", "ERROR",
                 "Log entry", "info", "2023-06-14T08:26:13+02:00"),
        LogEntry(200, "Data format mismatch, falling back to default.", "WARN_DATA_FORMAT_MISMATCH", "WARN",
                 "Log entry", "info", "2023-06-14T08:26:13+02:00")];
      Uncovered([nullPointer, mismatch, connected], logs) == [connected]
  {
    var nullPointer := LogCode(100, "ERROR", "Unexpected null pointer encountered.", "ERROR_NULL_POINTER");
    var mismatch := LogCode(200, "WARN", "Data format mismatch, falling back to default.", "WARN_DATA_FORMAT_MISMATCH");
    var connected := LogCode(300, "INFO", "Database connection successfully established.", "INFO_DB_CONNECTION_ESTABLISHED");
    var logs := [
      LogEntry(100, "Unexpected null pointer encountered.", "ERROR_NULL_POINTER", "ERROR",
               "Log entry", "info", "2023-06-14T08:26:13+02:00"),
      LogEntry(200, "Data format mismatch, falling back to default.", "WARN_DATA_FORMAT_MISMATCH", "WARN",
               "Log entry", "info", "2023-06-14T08:26:13+02:00")];
    var codes := [nullPointer, mismatch, connected];
    assert logs[0].humanReadableCode == nullPointer.humanReadableCode;
    assert logs[1].humanReadableCode == mismatch.humanReadableCode;
    assert Covered(nullPointer, logs) && Covered(mismatch, logs) && !Covered(connected, logs);
    assert codes[1..] == [mismatch, connected];
    assert codes[1..][1..] == [connected];
    assert Uncovered([connected], logs) == [connected];
    assert Uncovered([mismatch, connected], logs) == [connected];
  }
}
