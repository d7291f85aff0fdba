/** Pieces of code: a straight-line body, and a branch to be linked at its end. */
module Fragments {
  import opened Instructions

  datatype Ending = FallsThrough | Branches(cond: Condition) | Jumps | Calls

  datatype Fragment = Fragment(body: seq<Instr>, ending: Ending)

  /** The placeholder at the end; `make_branch` reserves a second word after it. */
  function Tail(ending: Ending): seq<Instr> {
    match ending
    case FallsThrough => []
    case Branches(cond) => [BranchConditional(cond, 0), Nop]
    case Jumps => [Branch(false, 0)]
    case Calls => [Branch(true, 0)]
  }

  function Instrs(f: Fragment): seq<Instr> {
    f.body + Tail(f.ending)
  }

  /** Legal instructions that go on to the next one. */
  ghost predicate StraightProgram(program: seq<Instr>) {
    forall i :: i in program ==> Legal(i) && !Branching(i)
  }

  lemma StraightAppend(a: seq<Instr>, b: seq<Instr>)
    requires StraightProgram(a) && StraightProgram(b)
    ensures StraightProgram(a + b)
  {
  }

  ghost predicate LegalFragment(f: Fragment) {
    StraightProgram(f.body) && (f.ending.Branches? ==> f.ending.cond != Invalid)
  }

  lemma LegalInstrs(f: Fragment)
    requires LegalFragment(f)
    ensures LegalProgram(Instrs(f))
  {
    assert LegalProgram(Tail(f.ending));
  }
}
