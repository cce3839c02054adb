/** The live solution: the chosen sets of one run, mutated in place by the
    constructive, the moves and the shake. */
module Solution {
  import opened Coverage
  import opened Instance

  class PsscSolution {
    const inst: PsscInstance
    var chosen: set<int>

    ghost predicate Valid()
      reads this
    {
      inst.Valid() && forall s :: s in chosen ==> 0 <= s < inst.nSets
    }

    constructor (inst: PsscInstance)
      requires inst.Valid()
      ensures Valid() && this.inst == inst && chosen == {}
    {
      this.inst := inst;
      chosen := {};
    }

    /** The objective: the number of chosen sets (minimised). */
    function Score(): nat
      reads this
    {
      |chosen|
    }

    method AddSet(s: int)
      requires Valid() && 0 <= s < inst.nSets && s !in chosen
      modifies this
      ensures Valid() && chosen == old(chosen) + {s}
      ensures Score() == old(Score()) + 1
    {
      chosen := chosen + {s};
    }

    method RemoveSet(s: int)
      requires Valid() && s in chosen
      modifies this
      ensures Valid() && chosen == old(chosen) - {s}
      ensures Score() == old(Score()) - 1
    {
      chosen := chosen - {s};
    }
  }
}
