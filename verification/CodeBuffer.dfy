/** Code buffers: instruction words laid out little-endian, one after the other. */
module CodeBuffer {
  import opened Wrappers
  import opened Words
  import opened Instructions
  import opened Encoder

  type Code = seq<Byte>

  function Flatten<T>(chunks: seq<seq<T>>): seq<T> {
    if chunks == [] then [] else chunks[0] + Flatten(chunks[1..])
  }

  lemma {:induction false} FlattenAppend<T>(a: seq<seq<T>>, b: seq<seq<T>>)
    ensures Flatten(a + b) == Flatten(a) + Flatten(b)
  {
    if a == [] {
      assert a + b == b;
    } else {
      FlattenAppend(a[1..], b);
      assert (a + b)[0] == a[0] && (a + b)[1..] == a[1..] + b;
      assert a[0] + (Flatten(a[1..]) + Flatten(b)) == Flatten(a) + Flatten(b);
    }
  }

  lemma {:induction false} FlattenWords<T(!new)>(chunks: seq<seq<T>>, k: nat)
    requires forall c :: c in chunks ==> |c| == 4
    ensures |Flatten(chunks)| == 4 * |chunks|
    ensures k < |chunks| ==> Flatten(chunks)[4 * k..4 * k + 4] == chunks[k]
  {
    if chunks != [] {
      FlattenWords(chunks[1..], if k > 0 then k - 1 else 0);
      assert |chunks[0]| == 4;
    }
  }

  function Map<A, B>(f: A -> B, s: seq<A>): (r: seq<B>)
    ensures |r| == |s| && forall k :: 0 <= k < |s| ==> r[k] == f(s[k])
  {
    seq(|s|, k requires 0 <= k < |s| => f(s[k]))
  }

  lemma MapAppend<A, B>(f: A -> B, a: seq<A>, b: seq<A>)
    ensures Map(f, a + b) == Map(f, a) + Map(f, b)
  {
  }

  function Emitted(i: Instr): (c: Code)
    ensures |c| == 4
  {
    ToBytes(Encode(i))
  }

  /** One word per instruction, in order: what `insn` has appended for each in turn. */
  function Chunks(program: seq<Instr>): (chunks: seq<Code>)
    ensures |chunks| == |program|
  {
    Map(Emitted, program)
  }

  function EncodeAll(program: seq<Instr>): Code {
    Flatten(Chunks(program))
  }

  function WordAt(code: Code, at: nat): Word
    requires at + 4 <= |code|
  {
    FromBytes(code[at..at + 4])
  }

  function DecodeAt(code: Code, at: nat): Option<Instr> {
    if at + 4 <= |code| then Decode(WordAt(code, at)) else None
  }

  /** The buffer with the word at `at` overwritten. */
  function PatchWord(code: Code, at: nat, w: Word): (patched: Code)
    requires at + 4 <= |code|
    ensures |patched| == |code|
  {
    code[..at] + ToBytes(w) + code[at + 4..]
  }

  lemma EncodeAllAppend(a: seq<Instr>, b: seq<Instr>)
    ensures EncodeAll(a + b) == EncodeAll(a) + EncodeAll(b)
  {
    MapAppend(Emitted, a, b);
    FlattenAppend(Chunks(a), Chunks(b));
  }

  lemma EncodeAllOne(i: Instr)
    ensures EncodeAll([i]) == ToBytes(Encode(i))
  {
    assert Chunks([i]) == [ToBytes(Encode(i))];
    assert Chunks([i])[1..] == [];
    assert Flatten<Byte>([]) == [];
  }

  lemma EncodeAllLength(program: seq<Instr>)
    ensures |EncodeAll(program)| == 4 * |program|
  {
    FlattenWords(Chunks(program), 0);
  }

  lemma WordAtEncoded(program: seq<Instr>, k: nat)
    requires k < |program|
    ensures |EncodeAll(program)| == 4 * |program| && WordAt(EncodeAll(program), 4 * k) == Encode(program[k])
  {
    FlattenWords(Chunks(program), k);
    BytesRoundTrip(Encode(program[k]));
  }

  /** Splitting the buffer into little-endian words and decoding gives back the program. */
  lemma DecodeProgram(program: seq<Instr>, k: nat)
    requires LegalProgram(program) && k < |program|
    ensures DecodeAt(EncodeAll(program), 4 * k) == Some(program[k])
  {
    WordAtEncoded(program, k);
    DecodeEncode(program[k]);
  }

  lemma PatchedWord(code: Code, at: nat, w: Word)
    requires at + 4 <= |code|
    ensures WordAt(PatchWord(code, at, w), at) == w
  {
    assert PatchWord(code, at, w)[at..at + 4] == ToBytes(w);
    BytesRoundTrip(w);
  }

  lemma EncodeAllSplit(before: seq<Instr>, i: Instr, after: seq<Instr>)
    ensures EncodeAll(before + ([i] + after)) == EncodeAll(before) + ToBytes(Encode(i)) + EncodeAll(after)
  {
    EncodeAllAppend(before, [i] + after);
    EncodeAllAppend([i], after);
    EncodeAllOne(i);
  }

  lemma PatchMiddle(a: Code, middle: Code, b: Code, at: nat, w: Word)
    requires |middle| == 4 && at == |a|
    ensures PatchWord(a + middle + b, at, w) == a + ToBytes(w) + b
  {
    var code := a + middle + b;
    assert code[..at] == a && code[at + 4..] == b;
  }

  /** Patching a word with an encoding is emitting that instruction in the first place. */
  lemma PatchEncoded(program: seq<Instr>, k: nat, i: Instr)
    requires k < |program|
    ensures |EncodeAll(program)| == 4 * |program|
    ensures PatchWord(EncodeAll(program), 4 * k, Encode(i)) == EncodeAll(program[k := i])
  {
    var before, after := program[..k], program[k + 1..];
    assert program == before + ([program[k]] + after);
    assert program[k := i] == before + ([i] + after);
    EncodeAllLength(program);
    EncodeAllLength(before);
    EncodeAllSplit(before, program[k], after);
    EncodeAllSplit(before, i, after);
    PatchMiddle(EncodeAll(before), ToBytes(Encode(program[k])), EncodeAll(after), 4 * k, Encode(i));
  }

  /** The words of the buffer are exactly those of the program. */
  lemma DecodedProgram(program: seq<Instr>)
    requires LegalProgram(program)
    ensures forall k :: 0 <= k < |program| ==> DecodeAt(EncodeAll(program), 4 * k) == Some(program[k])
  {
    forall k | 0 <= k < |program|
      ensures DecodeAt(EncodeAll(program), 4 * k) == Some(program[k])
    {
      DecodeProgram(program, k);
    }
  }

  // ---- The same, word by word ----

  function InstrBytes(code: Code, k: nat): Code
    requires 4 * k + 4 <= |code|
  {
    code[4 * k..4 * k + 4]
  }

  /** The four bytes of every instruction, at four times its index. */
  ghost predicate Encodes(code: Code, program: seq<Instr>) {
    && |code| == 4 * |program|
    && forall k {:trigger InstrBytes(code, k)} :: 0 <= k < |program| ==> InstrBytes(code, k) == Emitted(program[k])
  }

  lemma SameBytes(a: Code, b: Code)
    requires |a| == |b| && |a| % 4 == 0
    requires forall k :: 0 <= k < |a| / 4 ==> InstrBytes(a, k) == InstrBytes(b, k)
    ensures a == b
  {
    forall j | 0 <= j < |a|
      ensures a[j] == b[j]
    {
      assert InstrBytes(a, j / 4)[j % 4] == a[j] && InstrBytes(b, j / 4)[j % 4] == b[j];
    }
  }

  lemma EncodeAllEncodes(program: seq<Instr>)
    ensures Encodes(EncodeAll(program), program)
  {
    EncodeAllLength(program);
    forall k | 0 <= k < |program|
      ensures InstrBytes(EncodeAll(program), k) == Emitted(program[k])
    {
      FlattenWords(Chunks(program), k);
    }
  }

  lemma EncodesSame(a: Code, b: Code, program: seq<Instr>)
    requires Encodes(a, program) && Encodes(b, program)
    ensures a == b
  {
    forall k | 0 <= k < |a| / 4 ensures InstrBytes(a, k) == InstrBytes(b, k) {
      assert InstrBytes(a, k) == Emitted(program[k]);
    }
    SameBytes(a, b);
  }

  lemma EncodesIsEncodeAll(code: Code, program: seq<Instr>)
    ensures Encodes(code, program) <==> code == EncodeAll(program)
  {
    EncodeAllEncodes(program);
    if Encodes(code, program) {
      EncodesSame(code, EncodeAll(program), program);
    }
  }

  lemma EncodesAppend(code: Code, program: seq<Instr>, i: Instr)
    requires Encodes(code, program)
    ensures Encodes(code + Emitted(i), program + [i])
  {
    EncodesIsEncodeAll(code, program);
    EncodesIsEncodeAll(code + Emitted(i), program + [i]);
    EncodeAllAppend(program, [i]);
    EncodeAllOne(i);
  }
}
