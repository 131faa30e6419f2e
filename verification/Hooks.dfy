/** What one run of a hook leaves behind. */
module Hooks {
  import opened Bytes
  import opened Kernel
  import opened Stats

  datatype Outcome = Outcome(frame: bytes, verdict: Verdict, event: Option<Event>)

  datatype Admission = Stop(verdict: Verdict) | Admit(n: nat)
}
