/** The interactive tutorial: stepping forwards and backwards through its
    fixed steps, and the typing animation of each step's text. */
module Tutorial {
  import opened Text

  /** The text typed out on each step, line by line. */
  const StepLines: seq<seq<string>> := [
    ["Objective: estimate household energy demand response to price shocks.",
     "Hypothesis: elasticity differs by income quintile and technology uptake.",
     "Decision context: welfare impacts of efficiency policy over 2022-2030."],
    ["Data: National Household Survey 2022 (monthly panel).",
     "Calibration targets: literature elasticities + national accounts totals.",
     "Uncertainty: bootstrap intervals + scenario bands."],
    ["Inputs -> Estimation -> Simulation -> Validation -> Outputs",
     "Key equations: CES utility, demand system, welfare aggregation.",
     "Checks: analytical cases + out-of-sample validation."],
    ["Document: technical specification (methods, datasets, assumptions).",
     "Diagram: model flow with inputs, parameters, outputs.",
     "Prompt (VSCode): scaffold the repo and analysis entry point."],
    ["Status: all sections completed.",
     "Artifacts: Document + Diagram + VSCode prompt.",
     "Next: open VSCode, paste the prompt, and run run_all.py."]]

  const StepCount: nat := |StepLines|

  /** A step index the tutorial can show. */
  predicate ValidStep(step: int)
  {
    0 <= step < StepCount
  }

  /** What pressing Next does: finish on the last step (the step stays), else
      move one step on, never past the last. */
  datatype NextOutcome = Finished | MovedTo(step: nat)

  function Next(step: nat): (r: NextOutcome)
    ensures step == StepCount - 1 <==> r.Finished?
    ensures r.MovedTo? ==> r.step == if step + 1 < StepCount - 1 then step + 1 else StepCount - 1
    ensures ValidStep(step) && r.MovedTo? ==> ValidStep(r.step) && r.step == step + 1
  {
    if step == StepCount - 1 then Finished
    else MovedTo(if step + 1 < StepCount - 1 then step + 1 else StepCount - 1)
  }

  /** Back moves one step back and stops at the first step. */
  function Back(step: nat): (r: nat)
    ensures ValidStep(step) ==> ValidStep(r)
    ensures step > 0 ==> r == step - 1
    ensures step == 0 ==> r == 0
  {
    if step > 0 then step - 1 else 0
  }

  /** Next then Back returns to the same step, and so does Back then Next
      from any step but the first. */
  lemma NextBackInverse(step: nat)
    requires ValidStep(step)
    ensures step < StepCount - 1 ==> Back(Next(step).step) == step
    ensures step > 0 ==> Next(Back(step)) == MovedTo(step)
  {
  }

  /** The full text of a step; a step beyond the list types nothing. */
  function FullText(step: nat): string
  {
    if step < StepCount then Join(StepLines[step], "\n") else ""
  }

  /** The typing animation: each tick shows one more character, the first tick
      happens even for an empty text, and typing stops once the whole text is
      shown. The result lists the text shown after each tick. */
  method TypeOut(full: string) returns (frames: seq<string>)
    ensures |frames| == if |full| == 0 then 1 else |full|
    ensures forall k | 0 <= k < |frames| :: StartsWith(full, frames[k])
    ensures forall k | 0 <= k < |frames| :: |frames[k]| == if k + 1 < |full| then k + 1 else |full|
    ensures frames[|frames| - 1] == full
  {
    var index := 0;
    frames := [];
    var typing := true;
    while typing
      invariant 0 <= index <= |full| || (|full| == 0 && index <= 1)
      invariant |frames| == index
      invariant typing ==> index < |full| || index == 0
      invariant !typing ==> index >= |full| && index >= 1
      invariant forall k | 0 <= k < index :: frames[k] == full[..if k + 1 < |full| then k + 1 else |full|]
      decreases (if typing then 1 else 0), |full| - index
    {
      index := index + 1;
      var shown := full[..if index < |full| then index else |full|];
      frames := frames + [shown];
      if index >= |full| {
        typing := false;
      }
    }
    forall k | 0 <= k < |frames| ensures StartsWith(full, frames[k]) {
      var m := if k + 1 < |full| then k + 1 else |full|;
      assert frames[k] == full[..m];
    }
    assert full[..|full|] == full;
  }
}
