/** Running the linked bytes: the machine follows the operations it was assembled from. */
module Execution {
  import opened Wrappers
  import opened Instructions
  import opened CodeBuffer
  import opened Machine
  import opened Fragments
  import opened LinkRecords
  import opened Assembly

  // ---- The machine over bytes ----

  /** One fetch, decode and execute; an unreadable word stops the machine. */
  function StepCode(code: Code, cpu: Cpu): Cpu {
    if cpu.pc < 0 then cpu
    else match DecodeAt(code, cpu.pc)
      case Some(i) => StepInstr(cpu, i)
      case None => cpu
  }

  function Iterate<T>(f: T -> T, x: T, n: nat): T
    decreases n
  {
    if n == 0 then x else Iterate(f, f(x), n - 1)
  }

  lemma {:induction false} IterateOn<T>(f: T -> T, x: T, m: nat, n: nat)
    ensures Iterate(f, x, m + n) == Iterate(f, Iterate(f, x, m), n)
    decreases m
  {
    if m > 0 {
      IterateOn(f, f(x), m - 1, n);
    }
  }

  function Stepper(code: Code): Cpu -> Cpu {
    cpu => StepCode(code, cpu)
  }

  /** The machine after a number of steps over the bytes of `code`. */
  function Run(code: Code, cpu: Cpu, steps: nat): Cpu {
    Iterate(Stepper(code), cpu, steps)
  }

  lemma RunOn(code: Code, cpu: Cpu, m: nat, n: nat)
    ensures Run(code, cpu, m + n) == Run(code, Run(code, cpu, m), n)
  {
    IterateOn(Stepper(code), cpu, m, n);
  }

  function InstrAt(code: Code, k: nat): Option<Instr> {
    DecodeAt(code, 4 * k)
  }

  /** The code of a legal program, as far as fetching goes. */
  ghost predicate Fetches(code: Code, program: seq<Instr>) {
    forall k: nat {:trigger InstrAt(code, k)} :: k < |program| ==> InstrAt(code, k) == Some(program[k])
  }

  lemma StepAt(code: Code, program: seq<Instr>, k: nat, s: State)
    requires Fetches(code, program) && k < |program|
    ensures StepCode(code, Cpu(s, 4 * k)) == StepInstr(Cpu(s, 4 * k), program[k])
  {
    assert InstrAt(code, k) == Some(program[k]);
  }

  lemma StraightStep(s: State, i: Instr, pc: int)
    requires !Branching(i)
    ensures StepInstr(Cpu(s, pc), i) == Cpu(Exec(s, i), pc + 4)
  {
  }

  lemma RunFirst(code: Code, cpu: Cpu, next: Cpu, steps: nat)
    requires StepCode(code, cpu) == next
    ensures Run(code, cpu, steps + 1) == Run(code, next, steps)
  {
    assert Stepper(code)(cpu) == next;
  }

  /** The machine steps through straight-line code one word at a time, as `exec` does. */
  ghost predicate StepsAlong(step: Cpu -> Cpu, exec: (State, Instr) -> State, program: seq<Instr>) {
    forall k, s {:trigger exec(s, program[k])} :: 0 <= k < |program| && !Branching(program[k]) ==>
      step(Cpu(s, 4 * k)) == Cpu(exec(s, program[k]), 4 * (k + 1))
  }

  lemma {:induction false} IterateStraight(step: Cpu -> Cpu, exec: (State, Instr) -> State, program: seq<Instr>,
                                           at: nat,
                                           body: seq<Instr>, s: State)
    requires StepsAlong(step, exec, program) && StraightProgram(body)
    requires at + |body| <= |program| && program[at..at + |body|] == body
    ensures Iterate(step, Cpu(s, 4 * at), |body|) == Cpu(Fold(exec, s, body), 4 * (at + |body|))
    decreases body
  {
    if body != [] {
      var rest := body[1..];
      var next := exec(s, program[at]);
      assert program[at] == body[0] && program[at + 1..at + 1 + |rest|] == rest;
      assert body[0] in body;
      assert step(Cpu(s, 4 * at)) == Cpu(next, 4 * (at + 1));
      IterateStraight(step, exec, program, at + 1, rest, next);
    }
  }

  lemma CodeStepsAlong(code: Code, program: seq<Instr>)
    requires Fetches(code, program)
    ensures StepsAlong(Stepper(code), Exec, program)
  {
    forall k, s | 0 <= k < |program| && !Branching(program[k])
      ensures Stepper(code)(Cpu(s, 4 * k)) == Cpu(Exec(s, program[k]), 4 * (k + 1))
    {
      StepAt(code, program, k, s);
      StraightStep(s, program[k], 4 * k);
    }
  }

  /** Straight-line code runs as its instructions do, one word after the other. */
  lemma RunStraight(code: Code, program: seq<Instr>, at: nat, body: seq<Instr>, s: State)
    requires Fetches(code, program) && StraightProgram(body)
    requires at + |body| <= |program| && program[at..at + |body|] == body
    ensures Run(code, Cpu(s, 4 * at), |body|) == Cpu(ExecAll(s, body), 4 * (at + |body|))
  {
    CodeStepsAlong(code, program);
    IterateStraight(Stepper(code), Exec, program, at, body, s);
  }

  // ---- The machine over fragments ----

  /** A state of the run at the start of a fragment, or at the end of the program. */
  datatype Point = Point(at: nat, state: State)

  function FindLink(links: seq<Link>, k: nat): Option<Link> {
    if links == [] then None else if links[0].source == k then Some(links[0]) else FindLink(links[1..], k)
  }

  lemma {:induction false} FoundLink(links: seq<Link>, k: nat)
    ensures match FindLink(links, k)
            case Some(l) => l in links && l.source == k
            case None => forall l :: l in links ==> l.source != k
  {
    if links != [] {
      FoundLink(links[1..], k);
    }
  }

  /** Every branch is linked. */
  ghost predicate Complete(links: seq<Link>, fs: seq<Fragment>) {
    forall k :: 0 <= k < |fs| && !fs[k].ending.FallsThrough? ==> FindLink(links, k).Some?
  }

  function ReturnAddress(fs: seq<Fragment>, k: nat): U64
    requires k < |fs|
  {
    4 * (SiteOf(fs, k) + 1) % 0x1_0000_0000_0000_0000
  }

  /** Where the ending of fragment `k` goes from the state after its body. */
  function NextPoint(fs: seq<Fragment>, links: seq<Link>, k: nat, after: State): Point
    requires k < |fs| && Complete(links, fs)
  {
    match fs[k].ending
    case FallsThrough => Point(k + 1, after)
    case Branches(cond) => Point(if Holds(after.flags, cond) then FindLink(links, k).value.to else k + 1, after)
    case Jumps => Point(FindLink(links, k).value.to, after)
    case Calls => Point(FindLink(links, k).value.to, after.SetX(LR, ReturnAddress(fs, k)))
  }

  /** The code comes from emitting and linking the fragments. */
  ghost predicate Built(code: Code, links: seq<Link>, fs: seq<Fragment>) {
    && WellFormed(links, fs) && Addressable(fs) && AllLegal(fs) && Complete(links, fs)
    && LinkedCode(links, fs) == Ok(code)
  }

  lemma BuiltFetches(code: Code, links: seq<Link>, fs: seq<Fragment>)
    requires Built(code, links, fs)
    ensures Fetches(code, LinkedProgram(links, fs))
  {
    LinkedCodeIs(links, fs);
    DecodedProgram(LinkedProgram(links, fs));
  }

  /** The other words of a fragment are no link's site. */
  lemma NoSite(links: seq<Link>, fs: seq<Fragment>, k: nat, at: nat)
    requires WellFormed(links, fs) && k < |fs| && StartOf(fs, k) <= at < StartOf(fs, k + 1) && at != SiteOf(fs, k)
    ensures forall l :: l in links ==> SiteOf(fs, l.source) != at
  {
    forall l | l in links
      ensures SiteOf(fs, l.source) != at
    {
      if l.source != k {
        SiteOutside(fs, l.source, k);
      }
    }
  }

  /** The program differs from the fragments' instructions at sites of links only. */
  ghost predicate KeepsOthers(program: seq<Instr>, links: seq<Link>, fs: seq<Fragment>)
    requires WellFormed(links, fs)
  {
    && |program| == |Assemble(fs)|
    && forall at {:trigger program[at]} ::
      (0 <= at < |program| && forall l :: l in links ==> SiteOf(fs, l.source) != at) ==>
        program[at] == Assemble(fs)[at]
  }

  lemma LinkedKeepsOthers(links: seq<Link>, fs: seq<Fragment>)
    requires WellFormed(links, fs) && Addressable(fs)
    ensures KeepsOthers(LinkedProgram(links, fs), links, fs)
  {
    forall at | 0 <= at < |Assemble(fs)| && forall l :: l in links ==> SiteOf(fs, l.source) != at
      ensures LinkedProgram(links, fs)[at] == Assemble(fs)[at]
    {
      LinkedInstructions(links, fs, at);
    }
  }

  /** Only the site of a fragment is changed by linking. */
  lemma KeptElsewhere(program: seq<Instr>, links: seq<Link>, fs: seq<Fragment>, k: nat, j: nat)
    requires WellFormed(links, fs) && KeepsOthers(program, links, fs)
    requires k < |fs| && j < |Instrs(fs[k])| && j != |fs[k].body|
    ensures StartOf(fs, k) + j < |program| && program[StartOf(fs, k) + j] == Instrs(fs[k])[j]
  {
    var at := StartOf(fs, k) + j;
    InstrOf(fs, k, j);
    StartOfNext(fs, k);
    NoSite(links, fs, k, at);
  }

  lemma SliceFrom(all: seq<Instr>, at: nat, body: seq<Instr>)
    requires at + |body| <= |all| && forall j :: 0 <= j < |body| ==> all[at + j] == body[j]
    ensures all[at..at + |body|] == body
  {
  }

  lemma BodyFirst(f: Fragment, j: nat)
    requires j < |f.body|
    ensures Instrs(f)[j] == f.body[j]
  {
  }

  /** The body of a fragment is as it was emitted. */
  lemma LinkedBody(links: seq<Link>, fs: seq<Fragment>, k: nat)
    requires WellFormed(links, fs) && Addressable(fs) && k < |fs|
    ensures SiteOf(fs, k) <= |LinkedProgram(links, fs)|
    ensures LinkedProgram(links, fs)[StartOf(fs, k)..SiteOf(fs, k)] == fs[k].body
  {
    LinkedKeepsOthers(links, fs);
    KeptBody(LinkedProgram(links, fs), links, fs, k);
  }

  lemma KeptBodyAt(program: seq<Instr>, links: seq<Link>, fs: seq<Fragment>, k: nat, j: nat)
    requires WellFormed(links, fs) && KeepsOthers(program, links, fs) && k < |fs| && j < |fs[k].body|
    ensures StartOf(fs, k) + j < |program| && program[StartOf(fs, k) + j] == fs[k].body[j]
  {
    BodyFirst(fs[k], j);
    KeptElsewhere(program, links, fs, k, j);
  }

  lemma SiteInside(fs: seq<Fragment>, k: nat)
    requires k < |fs|
    ensures StartOf(fs, k) <= SiteOf(fs, k) == StartOf(fs, k) + |fs[k].body| <= |Assemble(fs)|
  {
    SegmentOf(fs, k);
  }

  lemma KeptBody(program: seq<Instr>, links: seq<Link>, fs: seq<Fragment>, k: nat)
    requires WellFormed(links, fs) && KeepsOthers(program, links, fs) && k < |fs|
    ensures SiteOf(fs, k) <= |program| && program[StartOf(fs, k)..SiteOf(fs, k)] == fs[k].body
  {
    var start, body := StartOf(fs, k), fs[k].body;
    SiteInside(fs, k);
    forall j | 0 <= j < |body|
      ensures start + j < |program| && program[start + j] == body[j]
    {
      KeptBodyAt(program, links, fs, k, j);
    }
    SliceFrom(program, start, body);
  }

  /** Its site holds the linked branch. */
  lemma LinkedSite(links: seq<Link>, fs: seq<Fragment>, k: nat)
    requires WellFormed(links, fs) && Addressable(fs) && k < |fs| && FindLink(links, k).Some?
    ensures FindLink(links, k).value in links && FindLink(links, k).value.source == k
    ensures SiteOf(fs, k) < |LinkedProgram(links, fs)|
    ensures LinkedProgram(links, fs)[SiteOf(fs, k)] == LinkedBranch(fs, FindLink(links, k).value)
  {
    FoundLink(links, k);
    SiteInstr(fs, k);
    LinkedInstructions(links, fs, SiteOf(fs, k));
  }

  /** The word reserved after a conditional branch is still the `nop`, and the next fragment follows it. */
  lemma LinkedReserve(links: seq<Link>, fs: seq<Fragment>, k: nat)
    requires WellFormed(links, fs) && Addressable(fs) && k < |fs| && fs[k].ending.Branches?
    ensures StartOf(fs, k + 1) == SiteOf(fs, k) + 2 <= |LinkedProgram(links, fs)|
    ensures LinkedProgram(links, fs)[SiteOf(fs, k) + 1] == Nop
  {
    LinkedKeepsOthers(links, fs);
    KeptReserve(LinkedProgram(links, fs), links, fs, k);
  }

  lemma KeptReserve(program: seq<Instr>, links: seq<Link>, fs: seq<Fragment>, k: nat)
    requires WellFormed(links, fs) && KeepsOthers(program, links, fs) && k < |fs| && fs[k].ending.Branches?
    ensures StartOf(fs, k + 1) == SiteOf(fs, k) + 2 <= |program| && program[SiteOf(fs, k) + 1] == Nop
  {
    SegmentOf(fs, k);
    KeptElsewhere(program, links, fs, k, |fs[k].body| + 1);
  }

  // ---- The bytes follow the fragments ----

  /** How many words the ending takes: the reserved one is passed over when the branch is not taken. */
  function EndingSteps(f: Fragment, after: State): nat {
    match f.ending
    case FallsThrough => 0
    case Branches(cond) => if Holds(after.flags, cond) then 1 else 2
    case _ => 1
  }

  /** What the machine does at a linked branch. */
  function AfterBranch(ending: Ending, s: State, site: nat, to: nat): Cpu
    requires !ending.FallsThrough?
  {
    match ending
    case Branches(cond) => Cpu(s, if Holds(s.flags, cond) then 4 * to else 4 * (site + 1))
    case Jumps => Cpu(s, 4 * to)
    case Calls => Cpu(s.SetX(LR, 4 * (site + 1) % 0x1_0000_0000_0000_0000), 4 * to)
  }

  lemma BranchStep(fs: seq<Fragment>, l: Link, s: State)
    requires l.source < |fs| && l.to <= |fs| && Linkable(fs[l.source])
    ensures StepInstr(Cpu(s, 4 * SiteOf(fs, l.source)), LinkedBranch(fs, l)) ==
      AfterBranch(fs[l.source].ending, s, SiteOf(fs, l.source), StartOf(fs, l.to))
  {
  }

  /** A branch that is not taken passes over the reserved word. */
  lemma RunReserve(code: Code, program: seq<Instr>, k: nat, s: State)
    requires Fetches(code, program) && k < |program| && program[k] == Nop
    ensures Run(code, Cpu(s, 4 * k), 1) == Cpu(s, 4 * (k + 1))
  {
    StepAt(code, program, k, s);
    RunFirst(code, Cpu(s, 4 * k), Cpu(s, 4 * (k + 1)), 0);
  }

  lemma RunBranch(code: Code, program: seq<Instr>, k: nat, s: State, next: Cpu)
    requires Fetches(code, program) && k < |program| && StepInstr(Cpu(s, 4 * k), program[k]) == next
    ensures Run(code, Cpu(s, 4 * k), 1) == next
  {
    StepAt(code, program, k, s);
    RunFirst(code, Cpu(s, 4 * k), next, 0);
  }

  lemma RunLinked(code: Code, links: seq<Link>, fs: seq<Fragment>, k: nat, after: State)
    requires WellFormed(links, fs) && Addressable(fs) && k < |fs| && FindLink(links, k).Some?
    requires Fetches(code, LinkedProgram(links, fs))
    ensures Linkable(fs[k]) && FindLink(links, k).value.to <= |fs|
    ensures Run(code, Cpu(after, 4 * SiteOf(fs, k)), 1) ==
      AfterBranch(fs[k].ending, after, SiteOf(fs, k), StartOf(fs, FindLink(links, k).value.to))
  {
    var site := SiteOf(fs, k);
    var l := FindLink(links, k).value;
    LinkedSite(links, fs, k);
    BranchStep(fs, l, after);
    RunBranch(code, LinkedProgram(links, fs), site, after, AfterBranch(fs[k].ending, after, site, StartOf(fs, l.to)));
  }

  lemma RunPast(code: Code, program: seq<Instr>, site: nat, s: State)
    requires Fetches(code, program) && site + 1 < |program| && program[site + 1] == Nop
    requires Run(code, Cpu(s, 4 * site), 1) == Cpu(s, 4 * (site + 1))
    ensures Run(code, Cpu(s, 4 * site), 2) == Cpu(s, 4 * (site + 2))
  {
    RunReserve(code, program, site + 1, s);
    RunOn(code, Cpu(s, 4 * site), 1, 1);
  }

  /** Where an ending at `site` leads, with the next fragment at `next` and its link to `to`. */
  function Leads(ending: Ending, s: State, site: nat, to: nat, next: nat): Cpu {
    match ending
    case FallsThrough => Cpu(s, 4 * next)
    case Branches(cond) => Cpu(s, 4 * if Holds(s.flags, cond) then to else next)
    case Jumps => Cpu(s, 4 * to)
    case Calls => Cpu(s.SetX(LR, 4 * (site + 1) % 0x1_0000_0000_0000_0000), 4 * to)
  }

  /** What the end of a linked fragment looks like to the machine. */
  ghost predicate EndsAs(code: Code, program: seq<Instr>, f: Fragment, site: nat, s: State, to: nat, next: nat) {
    && (f.ending.FallsThrough? ==> next == site)
    && (f.ending.Branches? ==> next == site + 2 && site + 1 < |program| && program[site + 1] == Nop)
    && (!f.ending.FallsThrough? ==> Run(code, Cpu(s, 4 * site), 1) == AfterBranch(f.ending, s, site, to))
  }

  lemma RunLeads(code: Code, program: seq<Instr>, f: Fragment, site: nat, s: State, to: nat, next: nat)
    requires Fetches(code, program) && EndsAs(code, program, f, site, s, to, next)
    ensures Run(code, Cpu(s, 4 * site), EndingSteps(f, s)) == Leads(f.ending, s, site, to, next)
  {
    if f.ending.Branches? && !Holds(s.flags, f.ending.cond) {
      RunPast(code, program, site, s);
    }
  }

  function LinkTarget(links: seq<Link>, k: nat): nat {
    match FindLink(links, k) case Some(l) => l.to case None => 0
  }

  lemma NextLeads(fs: seq<Fragment>, links: seq<Link>, k: nat, after: State)
    requires k < |fs| && Complete(links, fs) && LinkTarget(links, k) <= |fs|
    ensures var next := NextPoint(fs, links, k, after);
            && next.at <= |fs|
            && Cpu(next.state, 4 * StartOf(fs, next.at)) ==
               Leads(fs[k].ending, after, SiteOf(fs, k), StartOf(fs, LinkTarget(links, k)), StartOf(fs, k + 1))
  {
    var ending, site, to := fs[k].ending, SiteOf(fs, k), LinkTarget(links, k);
    var target, past := StartOf(fs, to), StartOf(fs, k + 1);
    match ending {
      case FallsThrough =>
      case Branches(cond) =>
        assert NextPoint(fs, links, k, after) == Point(if Holds(after.flags, cond) then to else k + 1, after);
      case Jumps => assert NextPoint(fs, links, k, after) == Point(to, after);
      case Calls => assert NextPoint(fs, links, k, after) == Point(to, after.SetX(LR, ReturnAddress(fs, k)));
    }
  }

  /** Linking leaves the end of a fragment as the machine needs it. */
  lemma LinkedEnding(code: Code, links: seq<Link>, fs: seq<Fragment>, k: nat, after: State)
    requires WellFormed(links, fs) && Addressable(fs) && Complete(links, fs) && k < |fs|
    requires Fetches(code, LinkedProgram(links, fs))
    ensures LinkTarget(links, k) <= |fs|
    ensures EndsAs(code, LinkedProgram(links, fs), fs[k], SiteOf(fs, k), after, StartOf(fs, LinkTarget(links, k)),
                   StartOf(fs, k + 1))
  {
    FoundLink(links, k);
    SegmentOf(fs, k);
    if fs[k].ending.Branches? {
      LinkedReserve(links, fs, k);
    }
    if !fs[k].ending.FallsThrough? {
      RunLinked(code, links, fs, k, after);
    }
  }

  lemma RunEnding(code: Code, links: seq<Link>, fs: seq<Fragment>, k: nat, after: State)
    requires WellFormed(links, fs) && Addressable(fs) && Complete(links, fs) && k < |fs|
    requires Fetches(code, LinkedProgram(links, fs))
    ensures LinkTarget(links, k) <= |fs|
    ensures Run(code, Cpu(after, 4 * SiteOf(fs, k)), EndingSteps(fs[k], after)) ==
      Leads(fs[k].ending, after, SiteOf(fs, k), StartOf(fs, LinkTarget(links, k)), StartOf(fs, k + 1))
  {
    LinkedEnding(code, links, fs, k, after);
    RunLeads(code, LinkedProgram(links, fs), fs[k], SiteOf(fs, k), after, StartOf(fs, LinkTarget(links, k)),
             StartOf(fs, k + 1));
  }

  lemma RunBody(code: Code, links: seq<Link>, fs: seq<Fragment>, k: nat, s: State)
    requires WellFormed(links, fs) && Addressable(fs) && k < |fs| && StraightProgram(fs[k].body)
    requires Fetches(code, LinkedProgram(links, fs))
    ensures Run(code, Cpu(s, 4 * StartOf(fs, k)), |fs[k].body|) == Cpu(ExecAll(s, fs[k].body), 4 * SiteOf(fs, k))
  {
    LinkedBody(links, fs, k);
    RunStraight(code, LinkedProgram(links, fs), StartOf(fs, k), fs[k].body, s);
  }

  lemma BuiltLegal(code: Code, links: seq<Link>, fs: seq<Fragment>, k: nat)
    requires Built(code, links, fs) && k < |fs|
    ensures StraightProgram(fs[k].body)
  {
    assert LegalFragment(fs[k]);
  }

  /** One fragment: the bytes run from its start to where the fragment machine goes. */
  lemma RunFragment(code: Code, links: seq<Link>, fs: seq<Fragment>, k: nat, s: State) returns (steps: nat)
    requires Built(code, links, fs) && k < |fs|
    ensures var next := NextPoint(fs, links, k, ExecAll(s, fs[k].body));
            && next.at <= |fs|
            && Run(code, Cpu(s, 4 * StartOf(fs, k)), steps) == Cpu(next.state, 4 * StartOf(fs, next.at))
  {
    var after := ExecAll(s, fs[k].body);
    steps := |fs[k].body| + EndingSteps(fs[k], after);
    BuiltFetches(code, links, fs);
    BuiltLegal(code, links, fs, k);
    RunBody(code, links, fs, k, s);
    RunEnding(code, links, fs, k, after);
    NextLeads(fs, links, k, after);
    RunOn(code, Cpu(s, 4 * StartOf(fs, k)), |fs[k].body|, EndingSteps(fs[k], after));
  }
}
