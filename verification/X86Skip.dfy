/** The data-fault skip handler, which trusts the decoder's lengths (arch/x86_64/exception.c). */
module X86Skip {
  import opened Bits
  import opened X86Instruction
  import opened X86Decode
  import opened X86Encode
  import opened Wrappers

  // The decoder looks at nothing beyond the instruction it accepts.

  lemma {:induction false} ScanStable(code: Code, other: Code, pos: nat, p: Prefixes, k: nat)
    requires k <= |code| && k <= |other| && forall j :: 0 <= j < k ==> code[j] == other[j]
    requires OpcodeAt(code, pos) < k
    ensures OpcodeAt(other, pos) == OpcodeAt(code, pos) && PrefixesFrom(other, pos, p) == PrefixesFrom(code, pos, p)
    decreases |code| - pos
  {
    if IsPrefix(code[pos]) { ScanStable(code, other, pos + 1, WithPrefix(p, code[pos]), k); }
  }

  ghost predicate Agree(code: Code, other: Code, k: nat) {
    k <= |code| && k <= |other| && forall j :: 0 <= j < k ==> code[j] == other[j]
  }

  lemma MoveLocal(code: Code, other: Code, p: Prefixes, pos: nat, load: bool, byteWide: bool)
    requires DecodeRM(code, p, pos, load, byteWide).Decoded?
    ensures pos < DecodeRM(code, p, pos, load, byteWide).inst.length <= |code|
    ensures Agree(code, other, DecodeRM(code, p, pos, load, byteWide).inst.length) ==>
      DecodeRM(other, p, pos, load, byteWide) == DecodeRM(code, p, pos, load, byteWide)
  {
    hide RegOperand, BaseRegister, Signed32;
  }

  /** Acceptance and result depend on the first `length` bytes only. */
  lemma Local(code: Code, other: Code)
    requires Decode(code).Decoded?
    ensures 0 < Decode(code).inst.length <= |code|
    ensures Decode(code).inst.length <= |other| && code[..Decode(code).inst.length] == other[..Decode(code).inst.length]
      ==> Decode(other) == Decode(code)
  {
    hide DecodeRM, OpcodeAt, PrefixesFrom;
    var n, at, p := Decode(code).inst.length, OpcodeAt(code, 0), PrefixesFrom(code, 0, NONE);
    if code[at] != 0xa1 { MoveLocal(code, other, p, at + 1, code[at] / 2 % 2 == 1, code[at] % 2 == 0); }
    if n <= |other| && code[..n] == other[..n] {
      forall j | 0 <= j < n ensures code[j] == other[j] {
        assert code[..n][j] == other[..n][j];
      }
      ScanStable(code, other, 0, NONE, n);
    }
  }

  /** A byte string that is one whole accepted instruction. */
  predicate Whole(code: Code) {
    Decode(code).Decoded? && Decode(code).inst.length == |code|
  }

  /** No accepted instruction is a proper prefix of another. */
  lemma PrefixFree(a: Code, b: Code)
    requires Whole(a) && Whole(b) && a <= b
    ensures a == b
  {
    Local(a, b);
    assert a[..|a|] == b[..|a|];
  }

  function Flatten(insts: seq<Code>): Code {
    if insts == [] then [] else insts[0] + Flatten(insts[1..])
  }

  ghost predicate AllWhole(insts: seq<Code>) {
    forall k :: 0 <= k < |insts| ==> Whole(insts[k])
  }

  /** A run of accepted instructions can be cut in one way only. */
  lemma {:induction false} UniqueParse(a: seq<Code>, b: seq<Code>)
    requires AllWhole(a) && AllWhole(b) && Flatten(a) == Flatten(b)
    ensures a == b
  {
    if a == [] {
      if b != [] { Local(b[0], []); }
    } else if b == [] {
      Local(a[0], []);
    } else {
      var code := Flatten(a);
      assert code[..|a[0]|] == a[0] && code[..|b[0]|] == b[0];
      if |a[0]| <= |b[0]| { PrefixFree(a[0], b[0]); } else { PrefixFree(b[0], a[0]); }
      assert Flatten(a[1..]) == code[|a[0]|..] && Flatten(b[1..]) == code[|b[0]|..];
      UniqueParse(a[1..], b[1..]);
    }
  }

  // The handler.

  /** How the handler ends: resume after the instruction, abort on an undecodable one, fault again on bytes it
      cannot read, or go on with an unspecified truth value (opcode 0xcd). */
  datatype Handled = Resumed | Aborted | NestedFault | Unspecified

  class MContext {
    var rip: nat
  }

  /** `mem_skip_handler`; `memory` holds the readable bytes, from address 0. */
  method MemSkipHandler(ctx: MContext, memory: Code) returns (handled: Handled)
    requires ctx.rip <= |memory|
    modifies ctx`rip
    ensures handled == match Decode(memory[old(ctx.rip)..])
                       case Decoded(_) => Resumed
                       case Rejected => Aborted
                       case Truncated => NestedFault
                       case Undefined => Unspecified
    ensures handled.Resumed? ==> Skip(memory, old(ctx.rip)) == Some(ctx.rip)
    ensures !handled.Resumed? ==> ctx.rip == old(ctx.rip)
  {
    var decoder := new Decoder(memory[ctx.rip..]);
    var outcome := decoder.DecodeInstruction();
    match outcome {
      case Decoded(inst) => ctx.rip := ctx.rip + inst.length; handled := Resumed;
      case Rejected => handled := Aborted;
      case Truncated => handled := NestedFault;
      case Undefined => handled := Unspecified;
    }
  }

  /** Where the handler leaves the instruction pointer. */
  function Skip(memory: Code, rip: nat): Option<nat>
    requires rip <= |memory|
  {
    match Decode(memory[rip..])
    case Decoded(inst) => Some(rip + inst.length)
    case _ => None
  }

  /** k faults in a row. */
  function SkipTimes(memory: Code, rip: nat, k: nat): Option<nat>
    requires rip <= |memory|
    decreases k
  {
    if k == 0 then Some(rip)
    else
      match Skip(memory, rip)
      case Some(next) => if next <= |memory| then SkipTimes(memory, next, k - 1) else None
      case None => None
  }

  /** Over any run of accepted instructions, whatever is around it, k skips land on the k-th boundary. */
  lemma {:induction false} SkipsLandOnBoundaries(before: Code, insts: seq<Code>, after: Code)
    requires AllWhole(insts)
    ensures |before| <= |before + Flatten(insts) + after|
    ensures SkipTimes(before + Flatten(insts) + after, |before|, |insts|) == Some(|before + Flatten(insts)|)
    decreases |insts|
  {
    hide Decode;
    var memory := before + Flatten(insts) + after;
    if insts != [] {
      var first, rest := insts[0], insts[1..];
      assert memory == (before + first) + Flatten(rest) + after;
      OneSkip(memory, before, first, Flatten(rest) + after);
      SkipsLandOnBoundaries(before + first, rest, after);
      assert before + first + Flatten(rest) == before + Flatten(insts);
    }
  }

  lemma OneSkip(memory: Code, before: Code, first: Code, after: Code)
    requires Whole(first) && memory == before + first + after
    ensures Skip(memory, |before|) == Some(|before + first|)
  {
    hide Decode;
    var here := memory[|before|..];
    assert here == first + after && here[..|first|] == first[..|first|];
    Local(first, here);
  }

  // Boundaries that do not depend on the decoder: those of the encoder.

  /** A move and how to encode it: with negative one-byte displacements, as the architecture allows, or without. */
  datatype Source = Source(mov: Mov, signed: bool)

  ghost predicate AllEncodable(sources: seq<Source>) {
    forall k :: 0 <= k < |sources| ==> Encodable(sources[k].mov)
  }

  function EncodeAll(sources: seq<Source>): Code
    requires AllEncodable(sources)
  {
    if sources == [] then [] else Encode(sources[0].mov, sources[0].signed) + EncodeAll(sources[1..])
  }

  lemma EncodedIsWhole(m: Mov, signed: bool)
    requires Encodable(m)
    ensures Whole(Encode(m, signed))
  {
    hide Decode, Encode;
    RoundTrip(m, signed, []);
    assert Encode(m, signed) + [] == Encode(m, signed);
  }

  /** In any run of encoded moves, whatever is around it, k skips land where the encoder put the k-th boundary. */
  lemma {:induction false} SkipsLandOnEncodings(before: Code, sources: seq<Source>, after: Code, k: nat)
    requires AllEncodable(sources) && k <= |sources|
    ensures SkipTimes(before + EncodeAll(sources) + after, |before|, k) == Some(|before| + |EncodeAll(sources[..k])|)
    decreases k
  {
    hide Decode, Encode, Encodable, Whole;
    if k > 0 {
      var first, rest := Encode(sources[0].mov, sources[0].signed), sources[1..];
      EncodedIsWhole(sources[0].mov, sources[0].signed);
      var memory := before + EncodeAll(sources) + after;
      assert memory == (before + first) + EncodeAll(rest) + after == before + first + (EncodeAll(rest) + after);
      OneSkip(memory, before, first, EncodeAll(rest) + after);
      SkipsLandOnEncodings(before + first, rest, after, k - 1);
      assert sources[..k][0] == sources[0] && sources[..k][1..] == rest[..k - 1];
    }
  }
}
