/** How the two executors relate: the `MCP_Agent` validator is the more
    permissive of the two, and the planner's fallback plan separates them. */
module Variants {
  import opened PyValues
  import opened Validation
  import RootAgent
  import PackageAgent

  /** Every plan the root validator accepts, the `MCP_Agent` validator accepts too. */
  lemma RootAcceptedIsPackageAccepted(plan: seq<Value>)
    requires RootAgent.ValidatePlan(plan) == Accepted
    ensures PackageAgent.ValidatePlan(plan) == Accepted
  {
    forall j | 0 <= j < |plan| ensures WellFormed(PackageAgent.AllowedActions, plan[j]) {
      assert WellFormed(RootAgent.AllowedActions, plan[j]);
    }
  }

  /** The fallback plan opens with `goto`, which the root validator rejects
      as an invalid action while the `MCP_Agent` validator accepts the plan. */
  lemma FallbackPlanSeparatesVariants()
    ensures PackageAgent.ValidatePlan(PackageAgent.FallbackPlan) == Accepted
    ensures RootAgent.ValidatePlan(PackageAgent.FallbackPlan) ==
              Returned(false, InvalidAction(VStr("goto"), PackageAgent.FallbackPlan[0]))
  {
    PackageAgent.FallbackPlanAccepted();
    var plan := PackageAgent.FallbackPlan;
    assert !WellFormed(RootAgent.AllowedActions, plan[0]);
    RootAgent.ValidatePlanFirstDefect(plan, 0);
  }
}
