/** The Terraform coverage checker: which catalog codes no monitoring metric refers to. */
module Terraform {
  import opened Sequences
  import opened Catalog
  import Coverage

  /** The human-readable codes of the catalog entries, in catalog order. */
  function HumanReadableCodes(logCodes: seq<LogCode>): seq<string>
  {
    if logCodes == [] then []
    else [logCodes[0].humanReadableCode] + HumanReadableCodes(logCodes[1..])
  }

  /** The catalog entries whose code is not among the metric names, in catalog order. */
  function Unmatched(logCodes: seq<LogCode>, metricNames: seq<string>): seq<LogCode>
  {
    if logCodes == [] then []
    else (if logCodes[0].humanReadableCode in metricNames then [] else [logCodes[0]])
         + Unmatched(logCodes[1..], metricNames)
  }

  /** The codes no metric name matches, one per unmatched catalog entry, in catalog order. */
  function UncoveredNames(logCodes: seq<LogCode>, metricNames: seq<string>): seq<string>
  {
    if logCodes == [] then []
    else (if logCodes[0].humanReadableCode in metricNames then [] else [logCodes[0].humanReadableCode])
         + UncoveredNames(logCodes[1..], metricNames)
  }

  /** For each catalog entry, searches the metric names for its code and stops at the first match. */
  method CheckCoverage(logCodes: seq<LogCode>, metricNames: seq<string>) returns (uncovered: seq<string>)
    ensures uncovered == UncoveredNames(logCodes, metricNames)
  {
    uncovered := [];
    for i := 0 to |logCodes|
      invariant uncovered == UncoveredNames(logCodes[..i], metricNames)
    {
      var found := false;
      for j := 0 to |metricNames|
        invariant !found
        invariant forall k :: 0 <= k < j ==> metricNames[k] != logCodes[i].humanReadableCode
      {
        if metricNames[j] == logCodes[i].humanReadableCode {
          found := true;
          break;
        }
      }
      assert found <==> logCodes[i].humanReadableCode in metricNames;
      if !found {
        uncovered := uncovered + [logCodes[i].humanReadableCode];
      }
      assert logCodes[..i + 1] == logCodes[..i] + [logCodes[i]];
      UncoveredNamesAppend(logCodes[..i], [logCodes[i]], metricNames);
    }
    assert logCodes[..|logCodes|] == logCodes;
  }

  /** The process exits with status 1 exactly when some catalog code has no metric, and with 0 otherwise. */
  function ExitStatus(logCodes: seq<LogCode>, metricNames: seq<string>): (status: int)
    ensures status == 0 || status == 1
    ensures status == 1 <==> exists i :: 0 <= i < |logCodes| && logCodes[i].humanReadableCode !in metricNames
  {
    UncoveredNamesEmptyIff(logCodes, metricNames);
    if |UncoveredNames(logCodes, metricNames)| > 0 then 1 else 0
  }

  /** Checking a concatenated catalog is checking each part. */
  lemma {:induction false} UncoveredNamesAppend(a: seq<LogCode>, b: seq<LogCode>, metricNames: seq<string>)
    ensures UncoveredNames(a + b, metricNames) == UncoveredNames(a, metricNames) + UncoveredNames(b, metricNames)
  {
    if a == [] {
      assert a + b == b;
    } else {
      assert (a + b)[0] == a[0];
      assert (a + b)[1..] == a[1..] + b;
      UncoveredNamesAppend(a[1..], b, metricNames);
    }
  }

  /** The result is the catalog filtered to unmatched entries, then mapped to their codes. */
  lemma {:induction false} UncoveredNamesIsFilterThenMap(logCodes: seq<LogCode>, metricNames: seq<string>)
    ensures UncoveredNames(logCodes, metricNames) == HumanReadableCodes(Unmatched(logCodes, metricNames))
  {
    if logCodes != [] {
      var c := logCodes[0];
      var rest := Unmatched(logCodes[1..], metricNames);
      UncoveredNamesIsFilterThenMap(logCodes[1..], metricNames);
      if c.humanReadableCode !in metricNames {
        var u := [c] + rest;
        assert Unmatched(logCodes, metricNames) == u;
        assert u[0] == c && u[1..] == rest;
      } else {
        assert Unmatched(logCodes, metricNames) == rest;
      }
    }
  }

  /** Soundness and completeness: a code is reported iff some catalog entry has it and no metric names it. */
  lemma {:induction false} UncoveredNamesMembership(logCodes: seq<LogCode>, metricNames: seq<string>, s: string)
    ensures s in UncoveredNames(logCodes, metricNames) <==> s in HumanReadableCodes(logCodes) && s !in metricNames
  {
    if logCodes != [] {
      UncoveredNamesMembership(logCodes[1..], metricNames, s);
    }
  }

  /** No deduplication: an unmatched code is reported once per catalog entry that has it. */
  lemma {:induction false} UncoveredNamesMultiplicity(logCodes: seq<LogCode>, metricNames: seq<string>, s: string)
    ensures multiset(UncoveredNames(logCodes, metricNames))[s] ==
            if s in metricNames then 0 else multiset(HumanReadableCodes(logCodes))[s]
  {
    if logCodes != [] {
      UncoveredNamesMultiplicity(logCodes[1..], metricNames, s);
    }
  }

  /** The result keeps the catalog's relative order and is never longer than the catalog. */
  lemma {:induction false} UncoveredNamesIsSubsequence(logCodes: seq<LogCode>, metricNames: seq<string>)
    ensures IsSubsequence(UncoveredNames(logCodes, metricNames), HumanReadableCodes(logCodes))
    ensures |UncoveredNames(logCodes, metricNames)| <= |logCodes|
  {
    if logCodes != [] {
      var c := logCodes[0];
      var r := UncoveredNames(logCodes, metricNames);
      var rest := UncoveredNames(logCodes[1..], metricNames);
      var all := HumanReadableCodes(logCodes);
      UncoveredNamesIsSubsequence(logCodes[1..], metricNames);
      assert all[0] == c.humanReadableCode && all[1..] == HumanReadableCodes(logCodes[1..]);
      if c.humanReadableCode !in metricNames {
        assert r == [c.humanReadableCode] + rest;
        assert r[0] == c.humanReadableCode && r[1..] == rest;
      } else {
        assert r == rest;
      }
    }
  }

  /** The result is empty exactly when every catalog code is among the metric names. */
  lemma {:induction false} UncoveredNamesEmptyIff(logCodes: seq<LogCode>, metricNames: seq<string>)
    ensures UncoveredNames(logCodes, metricNames) == [] <==>
            forall i :: 0 <= i < |logCodes| ==> logCodes[i].humanReadableCode in metricNames
  {
    if logCodes != [] {
      UncoveredNamesEmptyIff(logCodes[1..], metricNames);
      forall i | 1 <= i < |logCodes|
        ensures logCodes[i] == logCodes[1..][i - 1]
      {
      }
    }
  }

  /** Without any metric names every catalog code is reported, in catalog order. */
  lemma {:induction false} UncoveredNamesWithoutMetrics(logCodes: seq<LogCode>)
    ensures UncoveredNames(logCodes, []) == HumanReadableCodes(logCodes)
  {
    if logCodes != [] {
      UncoveredNamesWithoutMetrics(logCodes[1..]);
    }
  }

  /** Only which names occur matters, not where or how often: the search may stop at any match. */
  lemma {:induction false} UncoveredNamesIgnoresNameOrder(logCodes: seq<LogCode>, names: seq<string>, names': seq<string>)
    requires forall s :: s in names <==> s in names'
    ensures UncoveredNames(logCodes, names) == UncoveredNames(logCodes, names')
  {
    if logCodes != [] {
      UncoveredNamesIgnoresNameOrder(logCodes[1..], names, names');
    }
  }

  /** Against metric names that list exactly the codes the logs carry, the two tools report the same entries. */
  lemma {:induction false} AgreesWithLogCoverage(logCodes: seq<LogCode>, metricNames: seq<string>, logs: seq<Coverage.LogEntry>)
    requires forall s :: s in metricNames <==> s in Coverage.Observed(logs)
    ensures UncoveredNames(logCodes, metricNames) == HumanReadableCodes(Coverage.Uncovered(logCodes, logs))
  {
    UncoveredNamesIsFilterThenMap(logCodes, metricNames);
    UnmatchedIsUncovered(logCodes, metricNames, logs);
  }

  /** The name-based filter selects the same catalog entries as the log-based one when both observe the same codes. */
  lemma {:induction false} UnmatchedIsUncovered(logCodes: seq<LogCode>, metricNames: seq<string>, logs: seq<Coverage.LogEntry>)
    requires forall s :: s in metricNames <==> s in Coverage.Observed(logs)
    ensures Unmatched(logCodes, metricNames) == Coverage.Uncovered(logCodes, logs)
  {
    if logCodes != [] {
      Coverage.CoveredIffObserved(logCodes[0], logs);
      UnmatchedIsUncovered(logCodes[1..], metricNames, logs);
    }
  }

  /** The repository's own scenario: one of two codes has a metric, so the other is reported. */
  lemma CheckCoverageScenario()
    ensures
      var nullPointer := LogCode(100, "ERROR", "Unexpected null pointer encountered.", "ERROR_NULL_POINTER");
      var mismatch := LogCode(200, "WARN", "Data format mismatch, falling back to default.", "WARN_DATA_FORMAT_MISMATCH");
      UncoveredNames([nullPointer, mismatch], ["ERROR_NULL_POINTER"]) == ["WARN_DATA_FORMAT_MISMATCH"]
  {
    var nullPointer := LogCode(100, "ERROR", "Unexpected null pointer encountered.", "ERROR_NULL_POINTER");
    var mismatch := LogCode(200, "WARN", "Data format mismatch, falling back to default.", "WARN_DATA_FORMAT_MISMATCH");
    var codes := [nullPointer, mismatch];
    assert codes[1..] == [mismatch];
    assert "WARN_DATA_FORMAT_MISMATCH" !in ["ERROR_NULL_POINTER"];
    assert UncoveredNames([mismatch], ["ERROR_NULL_POINTER"]) == ["WARN_DATA_FORMAT_MISMATCH"];
  }
}
