/** The output functions of the printf family: a bounded buffer, an unbounded one, the console. */
module Sinks {
  import opened Words
  import opened Console

  type Memory = map<nat, CChar>

  /** Memory after an unbounded output function has been given all of `trace`. */
  function WrittenAll(mem: Memory, base: nat, trace: seq<CChar>): Memory {
    if trace == [] then mem
    else
      var j := |trace| - 1;
      WrittenAll(mem, base, trace[..j])[base + j := trace[j]]
  }

  /** Memory after the bounded one: the last byte it may write always becomes NUL. */
  function WrittenBounded(mem: Memory, base: nat, n: nat, trace: seq<CChar>): Memory {
    if trace == [] then mem
    else
      var j := |trace| - 1;
      var before := WrittenBounded(mem, base, n, trace[..j]);
      if j < n then before[base + j := if j == n - 1 then '\0' else trace[j]] else before
  }

  /** What memory holds after the unbounded output function: the trace, and nothing else is touched. */
  lemma {:induction false} WrittenAllHolds(mem: Memory, base: nat, trace: seq<CChar>, a: nat)
    ensures base <= a < base + |trace| ==>
              a in WrittenAll(mem, base, trace) && WrittenAll(mem, base, trace)[a] == trace[a - base]
    ensures !(base <= a < base + |trace|) ==>
              (a in WrittenAll(mem, base, trace) <==> a in mem)
              && (a in mem ==> WrittenAll(mem, base, trace)[a] == mem[a])
  {
    if trace != [] {
      WrittenAllHolds(mem, base, trace[..|trace| - 1], a);
    }
  }

  /** At most `n` bytes are touched: the trace's, but for a NUL in the last of a full buffer. */
  lemma {:induction false} WrittenBoundedHolds(mem: Memory, base: nat, n: nat, trace: seq<CChar>, a: nat)
    ensures base <= a < base + Min(|trace|, n) ==>
              a in WrittenBounded(mem, base, n, trace)
              && WrittenBounded(mem, base, n, trace)[a] == if a == base + n - 1 then '\0' else trace[a - base]
    ensures !(base <= a < base + Min(|trace|, n)) ==>
              (a in WrittenBounded(mem, base, n, trace) <==> a in mem)
              && (a in mem ==> WrittenBounded(mem, base, n, trace)[a] == mem[a])
  {
    if trace != [] {
      WrittenBoundedHolds(mem, base, n, trace[..|trace| - 1], a);
    }
  }

  lemma {:induction false} WrittenNothing(mem: Memory, base: nat, trace: seq<CChar>)
    ensures WrittenBounded(mem, base, 0, trace) == mem
  {
    if trace != [] {
      WrittenNothing(mem, base, trace[..|trace| - 1]);
    }
  }

  datatype Kind = Bounded(size: nat) | Unbounded | Screen

  /** An output function with its state: `Cur` and `Num` of a buffer, or the console. */
  class Sink {
    const kind: Kind
    const base: nat
    const screen: Framebuffer?
    ghost const mem0: Memory
    ghost const text0: seq<CChar>
    var mem: Memory
    var cur: nat
    var num: nat
    ghost var trace: seq<CChar>

    ghost function Footprint(): set<object> {
      if screen == null then {this} else {this, screen, screen.fb}
    }

    /** The state of the output function is what the characters given to it so far make it. */
    ghost predicate Valid()
      reads Footprint()
    {
      && (kind.Screen? <==> screen != null)
      && match kind
         case Bounded(n) =>
           && cur == base + Min(|trace|, n) && num == n - Min(|trace|, n)
           && mem == WrittenBounded(mem0, base, n, trace)
         case Unbounded =>
           cur == base + |trace| && mem == WrittenAll(mem0, base, trace)
         case Screen =>
           mem == mem0 && screen.Valid() && screen.text == text0 + trace
    }

    constructor ToBuffer(mem: Memory, base: nat, kind: Kind)
      requires !kind.Screen?
      ensures Valid() && fresh(Footprint()) && trace == []
      ensures this.kind == kind && this.base == base && mem0 == mem
    {
      this.mem, this.mem0, this.base, this.kind := mem, mem, base, kind;
      screen, cur, text0, trace := null, base, [], [];
      num := if kind.Bounded? then kind.size else 0;
    }

    constructor ToScreen(screen: Framebuffer)
      requires screen.Valid()
      ensures Valid() && trace == [] && kind == Screen && this.screen == screen && text0 == screen.text
      ensures fresh(Footprint() - {screen, screen.fb})
    {
      this.screen, kind, text0, trace := screen, Screen, screen.text, [];
      mem, mem0, base, cur, num := map[], map[], 0, 0, 0;
    }

    /** One call of the output function. */
    method Put(c: CChar)
      requires Valid()
      modifies Footprint()
      ensures Valid() && trace == old(trace) + [c]
    {
      assert (trace + [c])[..|trace|] == trace;
      match kind {
        case Bounded(_) =>
          if num != 0 {
            num := num - 1;
            mem := mem[cur := if num != 0 then c else '\0'];
            cur := cur + 1;
          }
        case Unbounded =>
          mem := mem[cur := c];
          cur := cur + 1;
        case Screen =>
          screen.Output(c);
      }
      trace := trace + [c];
    }
  }
}
