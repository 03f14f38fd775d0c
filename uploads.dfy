/** The pass over the uploaded files, one report per file in upload order. */
module Uploads {
  import opened Tables
  import opened Pipeline

  predicate AllWellFormed(uploads: seq<Upload>)
  {
    forall i :: 0 <= i < |uploads| ==> WellFormed(uploads[i].decoded)
  }

  /** The reports of the first `n` uploads of a pass, one per upload and in upload order. */
  function Outcomes(us: seq<Upload>, cs: seq<Choices>, n: nat): (rs: seq<Report>)
    requires |cs| == |us| && AllWellFormed(us) && n <= |us|
    ensures |rs| == n
  {
    if n == 0 then [] else Outcomes(us, cs, n - 1) + [Outcome(us[n - 1], cs[n - 1])]
  }

  /** The reports of one more upload: those of the uploads before it, then its own. */
  lemma OutcomesSnoc(us: seq<Upload>, cs: seq<Choices>, n: nat)
    requires |cs| == |us| && AllWellFormed(us) && n < |us|
    ensures Outcomes(us, cs, n + 1) == Outcomes(us, cs, n) + [Outcome(us[n], cs[n])]
  {
  }

  /** The loop over the uploaded files (`for file in uploadedfile`): one report per file, in
      order; a rejected file is reported and skipped with `continue`, so the files after it
      are still processed; only a crash ends the pass early, with the crash as last report. */
  method ProcessUploads(uploads: seq<Upload>, choices: seq<Choices>) returns (reports: seq<Report>)
    requires |choices| == |uploads| && AllWellFormed(uploads)
    ensures |reports| <= |uploads|
    ensures reports == Outcomes(uploads, choices, |reports|)
    ensures forall k :: 0 <= k < |reports| - 1 ==> !reports[k].Crashed?
    ensures |reports| < |uploads| ==> |reports| > 0 && reports[|reports| - 1].Crashed?
  {
    reports := [];
    for i := 0 to |uploads|
      invariant reports == Outcomes(uploads, choices, i)
      invariant forall k :: 0 <= k < i ==> !reports[k].Crashed?
    {
      var report := ProcessOne(uploads[i], choices[i]);
      reports := reports + [report];
      OutcomesSnoc(uploads, choices, i);
      if report.Crashed? {
        break;
      }
    }
  }

  /** A pass that stops short of the last upload stops at an upload whose outcome is a crash. */
  lemma ShortPassEndsWithCrash(uploads: seq<Upload>, choices: seq<Choices>, reports: seq<Report>)
    requires |choices| == |uploads| && AllWellFormed(uploads)
    requires |reports| <= |uploads| && reports == Outcomes(uploads, choices, |reports|)
    requires |reports| < |uploads| ==> |reports| > 0 && reports[|reports| - 1].Crashed?
    ensures |reports| < |uploads| ==>
              |reports| > 0 && Outcome(uploads[|reports| - 1], choices[|reports| - 1]).Crashed?
  {
    if |reports| < |uploads| {
      var n := |reports|;
      assert reports == Outcomes(uploads, choices, n - 1) + [Outcome(uploads[n - 1], choices[n - 1])];
    }
  }

  /** When no upload crashes, every upload gets its report, rejected ones included. */
  lemma NoCrashReportsAll(uploads: seq<Upload>, choices: seq<Choices>, reports: seq<Report>)
    requires |choices| == |uploads| && AllWellFormed(uploads)
    requires forall k :: 0 <= k < |uploads| ==> !Outcome(uploads[k], choices[k]).Crashed?
    requires |reports| <= |uploads| && reports == Outcomes(uploads, choices, |reports|)
    requires |reports| < |uploads| ==> |reports| > 0 && reports[|reports| - 1].Crashed?
    ensures |reports| == |uploads|
  {
    ShortPassEndsWithCrash(uploads, choices, reports);
  }
}
