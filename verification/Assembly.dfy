/** Whole programs: emitted one after the other, then linked. */
module Assembly {
  import opened Wrappers
  import opened Instructions
  import opened CodeBuffer
  import opened Fragments
  import opened LinkRecords
  import opened Labels
  import opened Linking
  import opened MacroAssembler

  /** The instructions of the fragments, in order. */
  function Assemble(fs: seq<Fragment>): seq<Instr> {
    if fs == [] then [] else Assemble(fs[..|fs| - 1]) + Instrs(fs[|fs| - 1])
  }

  /** The index of the first instruction of fragment `k`; of the end of the program, for `k == |fs|`. */
  function StartOf(fs: seq<Fragment>, k: nat): nat
    requires k <= |fs|
  {
    |Assemble(fs[..k])|
  }

  /** The index of the branch at the end of fragment `k`. */
  function SiteOf(fs: seq<Fragment>, k: nat): nat
    requires k < |fs|
  {
    StartOf(fs, k) + |fs[k].body|
  }

  lemma StartOfNext(fs: seq<Fragment>, k: nat)
    requires k < |fs|
    ensures StartOf(fs, k + 1) == StartOf(fs, k) + |Instrs(fs[k])|
    ensures Assemble(fs[..k + 1]) == Assemble(fs[..k]) + Instrs(fs[k])
  {
    assert fs[..k + 1][..k] == fs[..k];
  }

  lemma {:induction false} PrefixOfAssembly(fs: seq<Fragment>, k: nat)
    requires k <= |fs|
    ensures Assemble(fs[..k]) <= Assemble(fs)
    decreases |fs| - k
  {
    if k < |fs| {
      PrefixOfAssembly(fs, k + 1);
      StartOfNext(fs, k);
    } else {
      assert fs[..k] == fs;
    }
  }

  lemma PartInside(before: seq<Instr>, part: seq<Instr>, all: seq<Instr>)
    requires before + part <= all
    ensures |before| + |part| <= |all| && all[|before|..|before| + |part|] == part
  {
    assert all[..|before| + |part|] == before + part;
  }

  /** Fragment `k` occupies the instructions from its start to the start of the next. */
  lemma SegmentOf(fs: seq<Fragment>, k: nat)
    requires k < |fs|
    ensures StartOf(fs, k) + |Instrs(fs[k])| == StartOf(fs, k + 1) <= |Assemble(fs)|
    ensures Assemble(fs)[StartOf(fs, k)..StartOf(fs, k + 1)] == Instrs(fs[k])
  {
    StartOfNext(fs, k);
    PrefixOfAssembly(fs, k + 1);
    PartInside(Assemble(fs[..k]), Instrs(fs[k]), Assemble(fs));
  }

  /** One instruction of a fragment, found in the whole program. */
  lemma InstrOf(fs: seq<Fragment>, k: nat, j: nat)
    requires k < |fs| && j < |Instrs(fs[k])|
    ensures StartOf(fs, k) + j < |Assemble(fs)| && Assemble(fs)[StartOf(fs, k) + j] == Instrs(fs[k])[j]
  {
    SegmentOf(fs, k);
    PartAt(Assemble(fs), StartOf(fs, k), StartOf(fs, k + 1), Instrs(fs[k]), j);
  }

  lemma PartAt(all: seq<Instr>, from: nat, to: nat, part: seq<Instr>, j: nat)
    requires from <= to <= |all| && all[from..to] == part && j < |part|
    ensures all[from + j] == part[j]
  {
  }

  lemma StartGrows(fs: seq<Fragment>, k: nat)
    requires k < |fs|
    ensures StartOf(fs, k) <= StartOf(fs, k + 1)
  {
    StartOfNext(fs, k);
  }

  lemma {:induction false} StartsAscend(fs: seq<Fragment>, j: nat, k: nat)
    requires j <= k <= |fs|
    ensures StartOf(fs, j) <= StartOf(fs, k)
    decreases k - j
  {
    if j < k {
      StartsAscend(fs, j, k - 1);
      StartGrows(fs, k - 1);
    }
  }

  /** The branch of one fragment never lies in the instructions of another. */
  lemma SiteOutside(fs: seq<Fragment>, j: nat, k: nat)
    requires j < |fs| && k < |fs| && j != k && !fs[j].ending.FallsThrough?
    ensures !(StartOf(fs, k) <= SiteOf(fs, j) < StartOf(fs, k + 1))
  {
    StartOfNext(fs, j);
    StartOfNext(fs, k);
    if j < k {
      StartsAscend(fs, j + 1, k);
    } else {
      StartsAscend(fs, k + 1, j);
    }
  }

  lemma SitesDiffer(fs: seq<Fragment>, j: nat, k: nat)
    requires j < |fs| && k < |fs| && j != k && !fs[j].ending.FallsThrough? && !fs[k].ending.FallsThrough?
    ensures SiteOf(fs, j) != SiteOf(fs, k)
  {
    SiteOutside(fs, j, k);
    StartOfNext(fs, k);
  }

  ghost predicate AllLegal(fs: seq<Fragment>) {
    forall f :: f in fs ==> LegalFragment(f)
  }

  lemma {:induction false} AssembleLegal(fs: seq<Fragment>)
    requires AllLegal(fs)
    ensures LegalProgram(Assemble(fs))
  {
    if fs != [] {
      AssembleLegal(fs[..|fs| - 1]);
      LegalInstrs(fs[|fs| - 1]);
    }
  }

  // ---- Emitting through the macro-assembler ----

  predicate Linkable(f: Fragment) {
    !f.ending.FallsThrough? && f.ending != Branches(Condition.Invalid)
  }

  /** The link record of the token that emitting a fragment after `start` instructions returned: a token
      names the branch itself. */
  function TokenRecord(f: Fragment, start: nat, target: AssemblerLabel): LinkRecord
    requires !f.ending.FallsThrough?
  {
    match f.ending
    case Branches(_) => TokenOf(start, f).ToLinkRecord(target)
    case Jumps => JumpToken(LabelOf(start + |f.body|), JumpNoCondition, Condition.Invalid).ToLinkRecord(target)
    case Calls => CallToken(LabelOf(start + |f.body|), LinkableNear).ToLinkRecord(target)
  }

  function RecordOf(fs: seq<Fragment>, k: nat, target: AssemblerLabel): LinkRecord
    requires k < |fs| && !fs[k].ending.FallsThrough?
  {
    TokenRecord(fs[k], StartOf(fs, k), target)
  }

  /** The code is shorter than the labels can address. */
  predicate Addressable(fs: seq<Fragment>) {
    4 * |Assemble(fs)| < 0x1_0000_0000
  }

  function Placeholder(ending: Ending): Instr
    requires !ending.FallsThrough?
  {
    match ending
    case Branches(cond) => BranchConditional(cond, 0)
    case _ => Branch(ending.Calls?, 0)
  }

  lemma SiteInstr(fs: seq<Fragment>, k: nat)
    requires k < |fs| && !fs[k].ending.FallsThrough?
    ensures SiteOf(fs, k) < |Assemble(fs)| && Assemble(fs)[SiteOf(fs, k)] == Placeholder(fs[k].ending)
  {
    assert Instrs(fs[k])[|fs[k].body|] == Tail(fs[k].ending)[0];
    InstrOf(fs, k, |fs[k].body|);
  }

  lemma SmallLabel(index: nat)
    requires 4 * index < 0x1_0000_0000
    ensures LabelOf(index) == 4 * index
  {
  }

  /** A placeholder, with the word that a conditional one reserves, is as long as its record's jump type says. */
  lemma PlaceholderReserves(f: Fragment, start: nat, target: AssemblerLabel)
    requires !f.ending.FallsThrough?
    ensures 4 * (|Instrs(f)| - |f.body|) == JumpSize(TokenRecord(f, start, target).jumpType)
    ensures |Instrs(f)| - |f.body| == if f.ending.Branches? then 2 else 1
  {
  }

  lemma RecordNamesSite(f: Fragment, start: nat, target: AssemblerLabel, program: seq<Instr>)
    requires Linkable(f) && 4 * |program| < 0x1_0000_0000
    requires start + |f.body| < |program| && program[start + |f.body|] == Placeholder(f.ending)
    ensures var r := TokenRecord(f, start, target);
            r.from == 4 * (start + |f.body|) && r.to == target && NamesSite(r, program)
  {
    SmallLabel(start + |f.body|);
  }

  /** A token names the placeholder its fragment emitted. */
  lemma TokenNamesSite(fs: seq<Fragment>, k: nat, target: AssemblerLabel)
    requires k < |fs| && Linkable(fs[k]) && Addressable(fs)
    ensures SiteOf(fs, k) < |Assemble(fs)| && RecordOf(fs, k, target).from == 4 * SiteOf(fs, k)
    ensures RecordOf(fs, k, target).to == target
    ensures NamesSite(RecordOf(fs, k, target), Assemble(fs))
  {
    SiteInstr(fs, k);
    RecordNamesSite(fs[k], StartOf(fs, k), target, Assemble(fs));
  }

  // ---- Linking ----

  /** Fragment `source` branches to the start of fragment `to`, or to the end. */
  datatype Link = Link(source: nat, to: nat)

  /** Every link is of a branch of its own. */
  ghost predicate WellFormed(links: seq<Link>, fs: seq<Fragment>) {
    && (forall l :: l in links ==> l.source < |fs| && l.to <= |fs| && Linkable(fs[l.source]))
    && forall i, j :: 0 <= i < j < |links| ==> links[i].source != links[j].source
  }

  /** The label taken at the start of fragment `k`. */
  function LabelAt(fs: seq<Fragment>, k: nat): AssemblerLabel
    requires k <= |fs|
  {
    LabelOf(StartOf(fs, k))
  }

  function RecordsOf(links: seq<Link>, fs: seq<Fragment>): (records: seq<LinkRecord>)
    requires WellFormed(links, fs)
    ensures |records| == |links|
  {
    seq(|links|, k requires 0 <= k < |links| =>
      assert links[k] in links;
      RecordOf(fs, links[k].source, LabelAt(fs, links[k].to)))
  }

  lemma RecordsNameSites(links: seq<Link>, fs: seq<Fragment>)
    requires WellFormed(links, fs) && Addressable(fs)
    ensures NameSites(RecordsOf(links, fs), Assemble(fs)) && DistinctSites(RecordsOf(links, fs))
  {
    var records := RecordsOf(links, fs);
    forall k | 0 <= k < |records|
      ensures NamesSite(records[k], Assemble(fs)) && records[k].from == 4 * SiteOf(fs, links[k].source)
    {
      assert links[k] in links;
      TokenNamesSite(fs, links[k].source, LabelAt(fs, links[k].to));
    }
    forall i, j | 0 <= i < j < |records|
      ensures SiteOf(fs, links[i].source) != SiteOf(fs, links[j].source)
    {
      assert links[i] in links && links[j] in links;
      SitesDiffer(fs, links[i].source, links[j].source);
    }
  }

  /** The linked program, instruction by instruction. */
  function LinkedProgram(links: seq<Link>, fs: seq<Fragment>): (linked: seq<Instr>)
    requires WellFormed(links, fs) && Addressable(fs)
    ensures |linked| == |Assemble(fs)|
  {
    RecordsNameSites(links, fs);
    RetargetAll(RecordsOf(links, fs), Assemble(fs))
  }

  /** The code the macro-assembler emitted, after the link pass. */
  function LinkedCode(links: seq<Link>, fs: seq<Fragment>): Result<Code, Arm64LinkError>
    requires WellFormed(links, fs)
  {
    LinkAll(RecordsOf(links, fs), EncodeAll(Assemble(fs)))
  }

  /** Linking fails only for distance; otherwise the code is that of the linked program. */
  lemma LinkedCodeIs(links: seq<Link>, fs: seq<Fragment>)
    requires WellFormed(links, fs) && Addressable(fs) && AllLegal(fs)
    ensures LinkedCode(links, fs).Ok? <==> forall r :: r in RecordsOf(links, fs) ==> InRange(r)
    ensures LinkedCode(links, fs).Ok? ==>
      LinkedCode(links, fs) == Ok(EncodeAll(LinkedProgram(links, fs))) && LegalProgram(LinkedProgram(links, fs))
  {
    RecordsNameSites(links, fs);
    AssembleLegal(fs);
    LinkAllRetargets(RecordsOf(links, fs), Assemble(fs));
  }

  /** The branch of a linked fragment: its own kind and condition, to exactly its label. */
  function LinkedBranch(fs: seq<Fragment>, l: Link): Instr
    requires l.source < |fs| && l.to <= |fs| && !fs[l.source].ending.FallsThrough?
  {
    var distance := StartOf(fs, l.to) - SiteOf(fs, l.source);
    match fs[l.source].ending
    case Branches(cond) => BranchConditional(cond, distance)
    case Jumps => Branch(false, distance)
    case Calls => Branch(true, distance)
  }

  lemma RecordInstr(f: Fragment, start: nat, to: nat)
    requires !f.ending.FallsThrough? && 4 * (start + |f.body|) < 0x1_0000_0000 && 4 * to < 0x1_0000_0000
    ensures LinkedInstr(TokenRecord(f, start, LabelOf(to))) ==
      match f.ending
      case Branches(cond) => BranchConditional(cond, to - (start + |f.body|))
      case _ => Branch(f.ending.Calls?, to - (start + |f.body|))
  {
    SmallLabel(start + |f.body|);
    SmallLabel(to);
  }

  lemma RecordBranch(fs: seq<Fragment>, l: Link)
    requires l.source < |fs| && l.to <= |fs| && !fs[l.source].ending.FallsThrough? && Addressable(fs)
    ensures LinkedInstr(RecordOf(fs, l.source, LabelAt(fs, l.to))) == LinkedBranch(fs, l)
  {
    SiteInstr(fs, l.source);
    PrefixOfAssembly(fs, l.to);
    RecordInstr(fs[l.source], StartOf(fs, l.source), StartOf(fs, l.to));
  }

  /** Every linked site holds its branch; every other instruction is as it was emitted. */
  lemma LinkedInstructions(links: seq<Link>, fs: seq<Fragment>, k: nat)
    requires WellFormed(links, fs) && Addressable(fs) && k < |Assemble(fs)|
    ensures forall l :: l in links && SiteOf(fs, l.source) == k ==> LinkedProgram(links, fs)[k] == LinkedBranch(fs, l)
    ensures (forall l :: l in links ==> SiteOf(fs, l.source) != k) ==>
      LinkedProgram(links, fs)[k] == Assemble(fs)[k]
  {
    var records := RecordsOf(links, fs);
    RecordsNameSites(links, fs);
    RetargetedWords(records, Assemble(fs), k);
    forall j | 0 <= j < |links|
      ensures records[j].from == 4 * SiteOf(fs, links[j].source) &&
        LinkedInstr(records[j]) == LinkedBranch(fs, links[j])
    {
      assert links[j] in links;
      TokenNamesSite(fs, links[j].source, LabelAt(fs, links[j].to));
      RecordBranch(fs, links[j]);
    }
    forall l | l in links && SiteOf(fs, l.source) == k
      ensures LinkedProgram(links, fs)[k] == LinkedBranch(fs, l)
    {
      var j :| 0 <= j < |links| && links[j] == l;
      assert records[j].from == 4 * k;
    }
  }

  lemma LinkedWords(links: seq<Link>, fs: seq<Fragment>, k: nat)
    requires WellFormed(links, fs) && Addressable(fs) && AllLegal(fs) && k < |Assemble(fs)|
    requires LinkedCode(links, fs).Ok?
    ensures |LinkedCode(links, fs).value| == 4 * |Assemble(fs)|
    ensures DecodeAt(LinkedCode(links, fs).value, 4 * k) == Some(LinkedProgram(links, fs)[k])
    ensures DecodeAt(EncodeAll(Assemble(fs)), 4 * k) == Some(Assemble(fs)[k])
  {
    LinkedCodeIs(links, fs);
    EncodeAllLength(LinkedProgram(links, fs));
    DecodeProgram(LinkedProgram(links, fs), k);
    AssembleLegal(fs);
    DecodeProgram(Assemble(fs), k);
  }

  /** Emit, then link: if the link pass succeeds, the site of every link decodes to a branch of the kind
      and condition emitted there, whose target is exactly the label. */
  lemma LinkedSites(links: seq<Link>, fs: seq<Fragment>, l: Link)
    requires WellFormed(links, fs) && Addressable(fs) && AllLegal(fs) && l in links
    requires LinkedCode(links, fs).Ok?
    ensures SiteOf(fs, l.source) < |Assemble(fs)|
    ensures DecodeAt(LinkedCode(links, fs).value, 4 * SiteOf(fs, l.source)) == Some(LinkedBranch(fs, l))
    ensures BranchTarget(LinkedBranch(fs, l), 4 * SiteOf(fs, l.source)) == 4 * StartOf(fs, l.to)
  {
    SiteInstr(fs, l.source);
    LinkedWords(links, fs, SiteOf(fs, l.source));
    LinkedInstructions(links, fs, SiteOf(fs, l.source));
  }

  /** And every other word of the code still decodes to the instruction emitted. */
  lemma OtherWords(links: seq<Link>, fs: seq<Fragment>, k: nat)
    requires WellFormed(links, fs) && Addressable(fs) && AllLegal(fs) && k < |Assemble(fs)|
    requires LinkedCode(links, fs).Ok? && forall l :: l in links ==> SiteOf(fs, l.source) != k
    ensures 4 * k + 4 <= |LinkedCode(links, fs).value| && 4 * k + 4 <= |EncodeAll(Assemble(fs))|
    ensures DecodeAt(LinkedCode(links, fs).value, 4 * k) == Some(Assemble(fs)[k])
    ensures WordAt(LinkedCode(links, fs).value, 4 * k) == WordAt(EncodeAll(Assemble(fs)), 4 * k)
  {
    LinkedWords(links, fs, k);
    LinkedInstructions(links, fs, k);
    LinkedCodeIs(links, fs);
    WordAtEncoded(LinkedProgram(links, fs), k);
    WordAtEncoded(Assemble(fs), k);
  }
}
