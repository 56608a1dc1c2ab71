// Harness runs scanned by the long-digit-run redactor.
module ComplianceRuns {
  import opened Admission
  import opened HarnessRuns
  import DigitRuns
  import Spans

  /** The redactor with only the long-digit-run detector on, as a step-output scanner. */
  function DigitScanner(min: nat): Scanner {
    (text: string) =>
      var spans := DigitRuns.RunSpans(text, min, 0);
      (Spans.Redacted(text, spans), if |Spans.Chosen(text, spans)| > U64_MAX then U64_MAX else |Spans.Chosen(text, spans)|)
  }

  /** No output a compliant run records holds a long digit run that is not exempt, whatever the steps emit. */
  lemma NoLongDigitRunSurvives(inv: Invocation, exec: Executor, min: nat, i: nat)
    requires min >= 2 && i < ContextRun(inv, Scanned(exec, DigitScanner(min))).executed
    ensures var k := ContextRun(inv, Scanned(exec, DigitScanner(min))).executed;
      DigitRuns.RunSpans(Results(Scanned(exec, DigitScanner(min)), inv.manifest.steps, k)[i].output, min, 0) == []
  {
    hide DigitRuns.RunSpans, ContextRun, Results, Spans.Redacted, Spans.Chosen;
    var k, scan := ContextRun(inv, Scanned(exec, DigitScanner(min))).executed, DigitScanner(min);
    forall s: string
      ensures DigitRuns.RunSpans(scan(s).0, min, 0) == []
    {
      DigitRuns.OnePassIsEnough(s, min);
    }
    OutputsAreClean(exec, scan, inv.manifest.steps, k, (s: string) => DigitRuns.RunSpans(s, min, 0) == []);
  }
}
