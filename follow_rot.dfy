/**
 * FollowRotEnabler keeps its sibling FollowRot behaviour enabled exactly while
 * that behaviour has a target to follow.
 */
module FollowRotation {

  /** The enabling state of a FollowRot behaviour, as the enabler sees it. */
  class FollowRot {
    /** The behaviour's own enabled flag. */
    var enabled: bool
    /** Whether the host object is active in the scene hierarchy. */
    var activeInHierarchy: bool
    /** Whether the behaviour has a target transform. */
    var hasTarget: bool

    /** Unity's isActiveAndEnabled: enabled on an object active in the hierarchy. */
    predicate ActiveAndEnabled()
      reads this
    {
      enabled && activeInHierarchy
    }

    constructor (enabled: bool, activeInHierarchy: bool, hasTarget: bool)
      ensures this.enabled == enabled && this.activeInHierarchy == activeInHierarchy && this.hasTarget == hasTarget
    {
      this.enabled := enabled;
      this.activeInHierarchy := activeInHierarchy;
      this.hasTarget := hasTarget;
    }
  }

  class FollowRotEnabler {
    const followRot: FollowRot

    constructor (followRot: FollowRot)
      ensures this.followRot == followRot
    {
      this.followRot := followRot;
    }

    /**
     * Disables a running FollowRot that lost its target and enables an idle
     * one that has a target. On an object active in the hierarchy the flag ends
     * up equal to "has a target"; on an inactive one only a target can change
     * it (to enabled).
     */
    method Update()
      modifies followRot`enabled
      ensures followRot.enabled == (followRot.hasTarget || (old(followRot.enabled) && !followRot.activeInHierarchy))
      ensures followRot.activeInHierarchy ==> (followRot.enabled <==> followRot.hasTarget)
      ensures followRot.hasTarget ==> followRot.enabled
    {
      if followRot.ActiveAndEnabled() && !followRot.hasTarget {
        followRot.enabled := false;
      }
      if !followRot.ActiveAndEnabled() && followRot.hasTarget {
        followRot.enabled := true;
      }
    }
  }
}
