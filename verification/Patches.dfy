/** Lists of patches: words overwritten one after the other. */
module Patches {
  import opened Wrappers
  import Words
  import opened Instructions
  import opened Encoder
  import opened CodeBuffer

  /** The word at `at` becomes the instruction's. */
  datatype Patch = Patch(at: nat, instr: Instr)

  predicate Fits(p: Patch, length: nat) {
    p.at % 4 == 0 && p.at + 4 <= length
  }

  ghost predicate AllFit(ps: seq<Patch>, length: nat) {
    forall k :: 0 <= k < |ps| ==> Fits(ps[k], length)
  }

  function PatchOne(code: Code, p: Patch): (patched: Code)
    requires Fits(p, |code|)
    ensures |patched| == |code|
  {
    PatchWord(code, p.at, Encode(p.instr))
  }

  ghost function PatchAll(code: Code, ps: seq<Patch>): (patched: Code)
    requires AllFit(ps, |code|)
    ensures |patched| == |code|
    decreases |ps|
  {
    if ps == [] then code else PatchAll(PatchOne(code, ps[0]), ps[1..])
  }

  predicate Covers(p: Patch, at: nat) {
    p.at <= at < p.at + 4
  }

  lemma PatchOneBytes(code: Code, p: Patch)
    requires Fits(p, |code|)
    ensures PatchOne(code, p)[p.at..p.at + 4] == Emitted(p.instr)
    ensures forall at :: 0 <= at < |code| && !Covers(p, at) ==> PatchOne(code, p)[at] == code[at]
  {
  }

  /** A byte that no patch covers keeps its value. */
  lemma {:induction false} PatchAllElsewhere(code: Code, ps: seq<Patch>, at: nat)
    requires AllFit(ps, |code|) && at < |code|
    requires forall k :: 0 <= k < |ps| ==> !Covers(ps[k], at)
    ensures PatchAll(code, ps)[at] == code[at]
    decreases |ps|
  {
    if ps != [] {
      PatchOneBytes(code, ps[0]);
      PatchAllElsewhere(PatchOne(code, ps[0]), ps[1..], at);
    }
  }

  /** No later patch is at the same site. */
  predicate IsLast(ps: seq<Patch>, k: nat) {
    k < |ps| && forall j :: k < j < |ps| ==> ps[j].at != ps[k].at
  }

  lemma SitesApart(p: Patch, at: nat, b: nat, length: nat)
    requires Fits(p, length) && at % 4 == 0 && p.at != at && at <= b < at + 4
    ensures !Covers(p, b)
  {
  }

  /** Patches of other sites, being aligned too, leave a word alone. */
  lemma {:induction false} OtherSitesKeep(code: Code, ps: seq<Patch>, at: nat, b: nat)
    requires AllFit(ps, |code|) && at % 4 == 0 && at <= b < at + 4 && b < |code|
    requires forall k :: 0 <= k < |ps| ==> ps[k].at != at
    ensures PatchAll(code, ps)[b] == code[b]
    decreases |ps|
  {
    if ps != [] {
      SitesApart(ps[0], at, b, |code|);
      PatchOneBytes(code, ps[0]);
      OtherSitesKeep(PatchOne(code, ps[0]), ps[1..], at, b);
    }
  }

  lemma WordKept(code: Code, ps: seq<Patch>, at: nat)
    requires AllFit(ps, |code|) && at % 4 == 0 && at + 4 <= |code|
    requires forall k :: 0 <= k < |ps| ==> ps[k].at != at
    ensures PatchAll(code, ps)[at..at + 4] == code[at..at + 4]
  {
    var patched := PatchAll(code, ps);
    forall b | at <= b < at + 4 ensures patched[b] == code[b] {
      OtherSitesKeep(code, ps, at, b);
    }
  }

  /** The last patch of a site wins. */
  lemma {:induction false} LastWins(code: Code, ps: seq<Patch>, k: nat)
    requires AllFit(ps, |code|) && IsLast(ps, k)
    ensures PatchAll(code, ps)[ps[k].at..ps[k].at + 4] == Emitted(ps[k].instr)
    decreases |ps|
  {
    var rest := ps[1..];
    assert forall j :: 0 <= j < |rest| ==> rest[j] == ps[j + 1];
    if k > 0 {
      LastWins(PatchOne(code, ps[0]), rest, k - 1);
    } else {
      PatchOneBytes(code, ps[0]);
      WordKept(PatchOne(code, ps[0]), rest, ps[0].at);
    }
  }

  lemma {:induction false} LastOfSite(ps: seq<Patch>, k: nat) returns (l: nat)
    requires k < |ps|
    ensures k <= l && IsLast(ps, l) && ps[l].at == ps[k].at
    decreases |ps| - k
  {
    if j :| k < j < |ps| && ps[j].at == ps[k].at {
      l := LastOfSite(ps, j);
    } else {
      l := k;
    }
  }

  /** Patches at the same site write the same instruction. */
  ghost predicate Agree(ps: seq<Patch>) {
    forall p, q :: p in ps && q in ps && p.at == q.at ==> p.instr == q.instr
  }

  lemma AgreedSite(code: Code, ps: seq<Patch>, p: Patch)
    requires AllFit(ps, |code|) && Agree(ps) && p in ps
    ensures Fits(p, |code|) && PatchAll(code, ps)[p.at..p.at + 4] == Emitted(p.instr)
  {
    var k :| 0 <= k < |ps| && ps[k] == p;
    var l := LastOfSite(ps, k);
    assert ps[l] in ps;
    LastWins(code, ps, l);
  }

  lemma WordOfBytes(code: Code, p: Patch)
    requires Fits(p, |code|) && code[p.at..p.at + 4] == Emitted(p.instr)
    ensures WordAt(code, p.at) == Encode(p.instr)
    ensures Legal(p.instr) ==> DecodeAt(code, p.at) == Some(p.instr)
  {
    Words.BytesRoundTrip(Encode(p.instr));
    if Legal(p.instr) {
      DecodeEncode(p.instr);
    }
  }

  /** Patches that agree may be applied in any order. */
  lemma AgreedInAnyOrder(code: Code, ps: seq<Patch>, qs: seq<Patch>)
    requires AllFit(ps, |code|) && AllFit(qs, |code|) && Agree(ps)
    requires forall p :: p in ps <==> p in qs
    ensures PatchAll(code, ps) == PatchAll(code, qs)
  {
    forall at | 0 <= at < |code|
      ensures PatchAll(code, ps)[at] == PatchAll(code, qs)[at]
    {
      if p :| p in ps && Covers(p, at) {
        AgreedSite(code, ps, p);
        AgreedSite(code, qs, p);
        assert PatchAll(code, ps)[p.at..p.at + 4][at - p.at] == PatchAll(code, qs)[p.at..p.at + 4][at - p.at];
      } else {
        PatchAllElsewhere(code, ps, at);
        PatchAllElsewhere(code, qs, at);
      }
    }
  }
}
