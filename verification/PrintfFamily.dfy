/** The functions of the printf family on top of the engine. */
module PrintfFamily {
  import opened Words
  import opened Format
  import opened Console
  import opened Sinks
  import opened Conversions
  import opened Printf

  /** `do_vprintf`: the engine, then a NUL that is not counted. */
  method DoVprintf(sink: Sink, fmt: CString, args: VaList) returns (count: U64)
    requires sink.Valid() && !Dangling(fmt)
    modifies sink.Footprint()
    ensures sink.Valid() && sink.trace == old(sink.trace) + Formatted(fmt, args) + ['\0']
    ensures count == |Formatted(fmt, args)| % TWO_64
  {
    hide Sink.Valid, Formatted, Dangling;
    var overrun;
    count, overrun := VprintfEngine(sink, fmt, args);
    sink.Put('\0');
  }

  /** `mem'` differs from `mem` in no byte outside `n` bytes from `base` on. */
  ghost predicate OnlyWithin(mem: Memory, mem': Memory, base: nat, n: nat) {
    forall a: nat :: !(base <= a < base + n) ==> (a in mem' <==> a in mem) && (a in mem ==> mem'[a] == mem[a])
  }

  predicate ByteIs(mem: Memory, base: nat, j: nat, c: CChar) {
    base + j in mem && mem[base + j] == c
  }

  /** The bytes at `base` are the text followed by NUL. */
  ghost predicate HoldsString(mem: Memory, base: nat, text: seq<CChar>) {
    && (forall j: nat :: j < |text| ==> ByteIs(mem, base, j, text[j]))
    && base + |text| in mem && mem[base + |text|] == '\0'
  }

  /**
   `vsnprintf`: touches at most `n` bytes, leaves the longest prefix of the output that fits with
   its NUL, and returns the length of the whole output.
   */
  method Vsnprintf(mem: Memory, buf: nat, n: U64, fmt: CString, args: VaList) returns (mem': Memory, count: U64)
    requires !Dangling(fmt)
    ensures count == |Formatted(fmt, args)| % TWO_64
    ensures n == 0 ==> mem' == mem
    ensures n > 0 ==>
              && OnlyWithin(mem, mem', buf, Min(|Formatted(fmt, args)| + 1, n))
              && HoldsString(mem', buf, Formatted(fmt, args)[..Min(|Formatted(fmt, args)|, n - 1)])
  {
    hide Formatted, Dangling;
    var sink := new Sink.ToBuffer(mem, buf, Bounded(n));
    count := DoVprintf(sink, fmt, args);
    mem' := sink.mem;
    assert sink.trace == Formatted(fmt, args) + ['\0'];
    SinkMemory(sink);
    BoundedResult(mem, buf, n, Formatted(fmt, args), mem');
  }

  lemma SinkMemory(sink: Sink)
    requires sink.Valid()
    ensures sink.kind.Bounded? ==> sink.mem == WrittenBounded(sink.mem0, sink.base, sink.kind.size, sink.trace)
    ensures sink.kind.Unbounded? ==> sink.mem == WrittenAll(sink.mem0, sink.base, sink.trace)
  {
  }

  lemma BoundedResult(mem: Memory, buf: nat, n: nat, out: seq<CChar>, mem': Memory)
    requires mem' == WrittenBounded(mem, buf, n, out + ['\0'])
    ensures n == 0 ==> mem' == mem
    ensures n > 0 ==>
              && OnlyWithin(mem, mem', buf, Min(|out| + 1, n))
              && HoldsString(mem', buf, out[..Min(|out|, n - 1)])
  {
    forall a: nat
      ensures !(buf <= a < buf + Min(|out| + 1, n)) ==> (a in mem' <==> a in mem) && (a in mem ==> mem'[a] == mem[a])
    {
      WrittenBoundedHolds(mem, buf, n, out + ['\0'], a);
    }
    if n == 0 {
      WrittenNothing(mem, buf, out + ['\0']);
    } else {
      var shown := out[..Min(|out|, n - 1)];
      forall j: nat | j < |shown| ensures ByteIs(mem', buf, j, shown[j]) {
        WrittenBoundedHolds(mem, buf, n, out + ['\0'], buf + j);
      }
      WrittenBoundedHolds(mem, buf, n, out + ['\0'], buf + |shown|);
    }
  }

  /** `vsprintf`: the whole output and its NUL, wherever the buffer ends. */
  method Vsprintf(mem: Memory, buf: nat, fmt: CString, args: VaList) returns (mem': Memory, count: U64)
    requires !Dangling(fmt)
    ensures count == |Formatted(fmt, args)| % TWO_64
    ensures OnlyWithin(mem, mem', buf, |Formatted(fmt, args)| + 1) && HoldsString(mem', buf, Formatted(fmt, args))
  {
    hide Formatted, Dangling;
    var sink := new Sink.ToBuffer(mem, buf, Unbounded);
    count := DoVprintf(sink, fmt, args);
    mem' := sink.mem;
    assert sink.trace == Formatted(fmt, args) + ['\0'];
    SinkMemory(sink);
    UnboundedResult(mem, buf, Formatted(fmt, args), mem');
  }

  lemma UnboundedResult(mem: Memory, buf: nat, out: seq<CChar>, mem': Memory)
    requires mem' == WrittenAll(mem, buf, out + ['\0'])
    ensures OnlyWithin(mem, mem', buf, |out| + 1) && HoldsString(mem', buf, out)
  {
    forall a: nat
      ensures !(buf <= a < buf + |out| + 1) ==> (a in mem' <==> a in mem) && (a in mem ==> mem'[a] == mem[a])
    {
      WrittenAllHolds(mem, buf, out + ['\0'], a);
    }
    assert (out + ['\0'])[|out|] == '\0';
    forall j: nat | j < |out| ensures ByteIs(mem', buf, j, out[j]) {
      assert (out + ['\0'])[j] == out[j];
      WrittenAllHolds(mem, buf, out + ['\0'], buf + j);
    }
    WrittenAllHolds(mem, buf, out + ['\0'], buf + |out|);
  }

  /** `vprintf`: the screen goes on showing the end of its text, grown by the output. */
  method Vprintf(screen: Framebuffer, fmt: CString, args: VaList) returns (count: U64)
    requires screen.Valid() && !Dangling(fmt)
    modifies screen, screen.fb
    ensures screen.Valid() && screen.text == old(screen.text) + Formatted(fmt, args) + ['\0']
    ensures count == |Formatted(fmt, args)| % TWO_64
  {
    hide Formatted, Dangling, Framebuffer.Valid;
    var sink := new Sink.ToScreen(screen);
    count := DoVprintf(sink, fmt, args);
  }
}
