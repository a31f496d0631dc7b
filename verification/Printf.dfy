/**
 The printf engine: one pass over the format with five states, emitting as it goes, shown to
 produce what parsing the whole format and rendering its pieces produces.
 */
module Printf {
  import opened Words
  import opened Numerals
  import opened Format
  import opened Sinks
  import opened Conversions

  /** The character at `i`, or the terminating NUL. */
  function At(fmt: CString, i: nat): CChar
    requires i <= |fmt|
  {
    if i < |fmt| then fmt[i] else '\0'
  }

  // ---------------------------------------------------------------- where a specification stands

  /** The flags record the size modifiers `m`; a lone `h` is only recorded when no other follows. */
  predicate SizeFlags(f: Flags, m: seq<CChar>, next: CChar) {
    && (f.is64 <==> exists k :: 0 <= k < |m| && m[k] != 'h')
    && (!f.is64 ==>
          && (f.is16 <==> |m| % 2 == 1) && (f.is8 <==> |m| >= 2)
          && (|m| % 2 == 1 ==> next != 'h'))
  }

  lemma SizeFlagsSelect(f: Flags, m: seq<CChar>, next: CChar)
    requires SizeFlags(f, m, next)
    ensures FlagSize(f) == SizeOf(m)
  {
  }

  /** One step of state 3, at a character that may be a modifier. */
  method ScanModifier(fmt: CString, i: nat, flags: Flags, ghost c: nat) returns (i': nat, flags': Flags, more: bool)
    requires c <= i <= |fmt| && SizeFlags(flags, fmt[c..i], At(fmt, i))
    ensures more ==> i' == i && flags' == flags && !IsModifier(At(fmt, i))
    ensures !more ==>
              && i <= i' < |fmt| && ModifiersEnd(fmt, i) == ModifiersEnd(fmt, i' + 1)
              && SizeFlags(flags', fmt[c..i' + 1], At(fmt, i' + 1))
              && flags' == flags.(is8 := flags'.is8, is16 := flags'.is16, is64 := flags'.is64)
  {
    i', flags', more := i, flags, false;
    var ch := At(fmt, i);
    if ch == 'z' || ch == 't' || ch == 'L' {
      flags' := flags.(is64 := true);
    } else if ch == 'l' {
      if At(fmt, i + 1) == 'l' {
        i' := i + 1;
      }
      flags' := flags.(is64 := true);
    } else if ch == 'h' {
      if At(fmt, i + 1) == 'h' {
        i' := i + 1;
        flags' := flags.(is8 := true);
      } else {
        flags' := flags.(is16 := true);
      }
    } else {
      more := true;
    }
    if !more {
      ModifierTaken(fmt, i, i', flags, flags', c);
    }
  }

  lemma ModifierTaken(fmt: CString, i: nat, i': nat, f: Flags, f': Flags, c: nat)
    requires c <= i <= i' <= i + 1 && i' < |fmt| && SizeFlags(f, fmt[c..i], At(fmt, i))
    requires IsModifier(fmt[i]) && (i' == i + 1 ==> fmt[i'] == fmt[i] && (fmt[i] == 'h' || fmt[i] == 'l'))
    requires fmt[i] == 'h' && i' == i ==> At(fmt, i + 1) != 'h'
    requires f' == if fmt[i] != 'h' then f.(is64 := true) else if i' == i then f.(is16 := true) else f.(is8 := true)
    ensures ModifiersEnd(fmt, i) == ModifiersEnd(fmt, i' + 1)
    ensures SizeFlags(f', fmt[c..i' + 1], At(fmt, i' + 1))
  {
    var m, m' := fmt[c..i], fmt[c..i' + 1];
    assert m'[i - c] == fmt[i];
    assert forall k :: 0 <= k < |m| ==> m'[k] == m[k];
    assert forall k :: |m| <= k < |m'| ==> m'[k] == fmt[i];
  }

  /** Where the digits of the specification at `start` begin: behind the dashes and one zero flag. */
  function DigitsStart(fmt: CString, start: nat): (b: nat)
    requires start < |fmt|
    ensures start < b <= |fmt|
  {
    var a := DashEnd(fmt, start + 1);
    if a < |fmt| && fmt[a] == '0' then a + 1 else a
  }

  /** The flags read from the dashes and the zero. */
  predicate FlagPart(fmt: CString, start: nat, f: Flags)
    requires start < |fmt|
  {
    var a := DashEnd(fmt, start + 1);
    && f.left == (a > start + 1) && f.zero == (a < |fmt| && fmt[a] == '0')
    && !f.pointer && !f.negative && !f.sign
  }

  /** Up to `i` the specification at `start` has been read as far as the state says. */
  predicate InState(state: nat, fmt: CString, start: nat, i: nat, f: Flags, given: nat)
    requires start <= |fmt|
  {
    if state == 0 then i == start
    else if !(start < i <= |fmt| && fmt[start] == '%') then false
    else
      var a := DashEnd(fmt, start + 1);
      var b := DigitsStart(fmt, start);
      var c := DigitsEnd(fmt, b);
      if state == 1 then
        && DashEnd(fmt, i) == a && f == NO_FLAGS.(left := i > start + 1)
      else if state == 2 then
        && b <= i && DigitsEnd(fmt, i) == c && given == Value(fmt[b..i], 10) % TWO_64
        && FlagPart(fmt, start, f) && SizeFlags(f, [], ' ')
      else
        && state == 3 && c <= i && given == Value(fmt[b..c], 10) % TWO_64
        && ModifiersEnd(fmt, c) == ModifiersEnd(fmt, i)
        && FlagPart(fmt, start, f) && SizeFlags(f, fmt[c..i], At(fmt, i))
  }

  /** In which the state has taken a character of its own, so that the end of the text is a clean end. */
  predicate Advanced(state: nat, fmt: CString, start: nat, i: nat)
    requires start <= |fmt|
  {
    state == 0 ||
    (start < |fmt| &&
     var b := DigitsStart(fmt, start);
     if state == 1 then i > start + 1
     else DashEnd(fmt, start + 1) < |fmt| && At(fmt, DashEnd(fmt, start + 1)) != '%'
          && (if state == 2 then i > b else i > DigitsEnd(fmt, b)))
  }

  // ---------------------------------------------------------------- the steps of states 1 to 3

  lemma DashTaken(fmt: CString, start: nat, i: nat, f: Flags, given: nat)
    requires start < |fmt| && i < |fmt| && InState(1, fmt, start, i, f, given) && fmt[i] == '-'
    ensures InState(1, fmt, start, i + 1, f.(left := true), given) && Advanced(1, fmt, start, i + 1)
  {
  }

  lemma FlagsEnd(fmt: CString, start: nat, i: nat, f: Flags, given: nat)
    requires start < |fmt| && i <= |fmt| && InState(1, fmt, start, i, f, given)
    requires At(fmt, i) != '-' && At(fmt, i) != '%'
    ensures DashEnd(fmt, start + 1) == i
    ensures At(fmt, i) == '0' ==> InState(2, fmt, start, i + 1, f.(zero := true), 0) && DigitsStart(fmt, start) == i + 1
    ensures At(fmt, i) != '0' ==> InState(2, fmt, start, i, f, 0) && DigitsStart(fmt, start) == i
  {
    var b := DigitsStart(fmt, start);
    assert fmt[b..b] == [];
    assert Value([], 10) == 0;
  }

  lemma DigitTaken(fmt: CString, start: nat, i: nat, f: Flags, given: nat)
    requires start < |fmt| && i < |fmt| && InState(2, fmt, start, i, f, given) && IsDecimal(fmt[i])
    ensures InState(2, fmt, start, i + 1, f, (10 * given + (fmt[i] as int - '0' as int)) % TWO_64)
  {
    var b := DigitsStart(fmt, start);
    assert fmt[b..i + 1] == fmt[b..i] + [fmt[i]];
    ValueSnoc(fmt[b..i], fmt[i], 10);
    WidthStep(Value(fmt[b..i], 10), DigitValue(fmt[i]));
  }

  /** Accumulating the width modulo 2^64 is the width modulo 2^64. */
  lemma WidthStep(v: nat, d: nat)
    ensures (10 * (v % TWO_64) + d) % TWO_64 == (v * 10 + d) % TWO_64
  {
    var q, r := v / TWO_64, v % TWO_64;
    assert v * 10 + d == (10 * r + d) + 10 * q * TWO_64;
    RemainderOfSum(10 * r + d, 10 * q);
  }

  lemma RemainderOfSum(x: int, k: int)
    ensures (x + k * TWO_64) % TWO_64 == x % TWO_64
  {
    var a, b := x / TWO_64, x % TWO_64;
    assert x + k * TWO_64 == (a + k) * TWO_64 + b;
  }

  lemma DigitsDone(fmt: CString, start: nat, i: nat, f: Flags, given: nat)
    requires start < |fmt| && i <= |fmt| && InState(2, fmt, start, i, f, given) && !IsDecimal(At(fmt, i))
    ensures InState(3, fmt, start, i, f, given) && DigitsEnd(fmt, DigitsStart(fmt, start)) == i
  {
    assert fmt[i..i] == [];
  }

  /** What the parser finds once the modifiers are over. */
  function Found(fmt: CString, i: nat, f: Flags, given: U64): (Piece, nat)
    requires i <= |fmt|
  {
    if i == |fmt| then (Overrun, i)
    else if IsConversion(fmt[i]) then (Conversion(Directive(f.left, f.zero, given, FlagSize(f), fmt[i])), i + 1)
    else (Literal(fmt[i]), i + 1)
  }

  lemma ModifiersDone(fmt: CString, start: nat, i: nat, f: Flags, given: U64)
    requires start < |fmt| && i <= |fmt| && InState(3, fmt, start, i, f, given) && !IsModifier(At(fmt, i))
    requires DashEnd(fmt, start + 1) < |fmt| ==> fmt[DashEnd(fmt, start + 1)] != '%'
    requires i == |fmt| ==> DigitsStart(fmt, start) == |fmt| && (DashEnd(fmt, start + 1) == |fmt| ==> i == start + 1)
    ensures ParseDirective(fmt, start + 1) == Found(fmt, i, f, given)
  {
    var c := DigitsEnd(fmt, DigitsStart(fmt, start));
    SizeFlagsSelect(f, fmt[c..i], At(fmt, i));
  }

  /** States 1, 2 and 3: at most one character is taken, or the conversion character is reached. */
  method ScanSpec(fmt: CString, i: nat, state: nat, flags: Flags, given: U64, ghost start: nat)
    returns (i': nat, state': nat, flags': Flags, given': U64, more: bool)
    requires start < |fmt| && i <= |fmt| && 1 <= state <= 3 && InState(state, fmt, start, i, flags, given)
    requires state == 1 ==> At(fmt, i) != '%'
    requires state == 1 || (i < |fmt| && Advanced(state, fmt, start, i))
    requires i == |fmt| ==> i == start + 1
    ensures !more ==>
              && i <= i' < |fmt| && 1 <= state' <= 3 && InState(state', fmt, start, i' + 1, flags', given')
              && Advanced(state', fmt, start, i' + 1)
    ensures more ==>
              && i <= i' <= |fmt| && ParseDirective(fmt, start + 1) == Found(fmt, i', flags', given')
              && !flags'.pointer && !flags'.negative && !flags'.sign
  {
    hide DashEnd, DigitsEnd, ModifiersEnd, Value, SizeFlags, ParseDirective, InState;
    i', state', flags', given', more := i, state, flags, given, true;
    if state' == 1 {
      if At(fmt, i') == '-' {
        DashTaken(fmt, start, i', flags', given');
        flags' := flags'.(left := true);
        more := false;
      } else {
        FlagsEnd(fmt, start, i', flags', given');
        if At(fmt, i') == '0' {
          flags' := flags'.(zero := true);
          i' := i' + 1;
        }
        state', given' := 2, 0;
      }
    }
    if more && state' == 2 {
      var ch := At(fmt, i');
      if IsDecimal(ch) {
        DigitTaken(fmt, start, i', flags', given');
        given' := (10 * given' + (ch as int - '0' as int)) % TWO_64;
        more := false;
      } else {
        DigitsDone(fmt, start, i', flags', given');
        state' := 3;
      }
    }
    if more {
      i', flags', more := ScanModifiers(fmt, i', flags', given', start);
    }
  }

  /** State 3 of one round. */
  method ScanModifiers(fmt: CString, i: nat, flags: Flags, given: U64, ghost start: nat)
    returns (i': nat, flags': Flags, more: bool)
    requires start < |fmt| && i <= |fmt| && InState(3, fmt, start, i, flags, given)
    requires DashEnd(fmt, start + 1) < |fmt| ==> fmt[DashEnd(fmt, start + 1)] != '%'
    requires i == |fmt| ==> DigitsStart(fmt, start) == |fmt| && (DashEnd(fmt, start + 1) == |fmt| ==> i == start + 1)
    ensures !more ==>
              && i <= i' < |fmt| && InState(3, fmt, start, i' + 1, flags', given) && Advanced(3, fmt, start, i' + 1)
    ensures more ==>
              && i' == i && ParseDirective(fmt, start + 1) == Found(fmt, i, flags', given)
              && !flags'.pointer && !flags'.negative && !flags'.sign
  {
    i', flags', more := ScanModifier(fmt, i, flags, DigitsEnd(fmt, DigitsStart(fmt, start)));
    if more {
      ModifiersDone(fmt, start, i, flags, given);
    }
  }

  // ---------------------------------------------------------------- the output still to come

  lemma OutputOfLiteral(fmt: CString, i: nat, k: nat, args: VaList)
    requires i < |fmt| && fmt[i] != '%'
    ensures OutputFrom(fmt, i, k, args) == [fmt[i]] + OutputFrom(fmt, i + 1, k, args)
    ensures Overrun in ParseFrom(fmt, i) <==> Overrun in ParseFrom(fmt, i + 1)
  {
    var rest := ParseFrom(fmt, i + 1);
    ParseWellFormed(fmt, i);
    ParseWellFormed(fmt, i + 1);
    assert ParseFrom(fmt, i) == [Literal(fmt[i])] + rest;
    assert ([Literal(fmt[i])] + rest)[1..] == rest;
  }

  lemma OutputOfDirective(fmt: CString, start: nat, k: nat, args: VaList)
    requires start < |fmt| && fmt[start] == '%'
    ensures var (p, next) := ParseDirective(fmt, start + 1);
            && (p.Conversion? ==> IsConversion(p.d.conv))
            && OutputFrom(fmt, start, k, args) == RenderPiece(p, k, args) + OutputFrom(fmt, next, k + ArgsUsed(p), args)
            && (Overrun in ParseFrom(fmt, start) <==> p == Overrun || Overrun in ParseFrom(fmt, next))
  {
    hide RenderPiece, ParseDirective, IsConversion;
    var (p, next) := ParseDirective(fmt, start + 1);
    var rest := ParseFrom(fmt, next);
    ParseWellFormed(fmt, start);
    ParseWellFormed(fmt, next);
    assert ParseFrom(fmt, start) == [p] + rest;
    assert ([p] + rest)[0] == p && ([p] + rest)[1..] == rest;
  }

  lemma OutputAtEnd(fmt: CString, k: nat, args: VaList)
    ensures OutputFrom(fmt, |fmt|, k, args) == [] && Overrun !in ParseFrom(fmt, |fmt|)
  {
  }

  /** A text that ends inside a specification that has begun prints nothing for it. */
  lemma OutputUnfinished(state: nat, fmt: CString, start: nat, k: nat, f: Flags, given: nat, args: VaList)
    requires start <= |fmt| && state <= 3
    requires InState(state, fmt, start, |fmt|, f, given) && Advanced(state, fmt, start, |fmt|)
    ensures OutputFrom(fmt, start, k, args) == [] && Overrun !in ParseFrom(fmt, start)
  {
    OutputAtEnd(fmt, k, args);
    if state != 0 {
      assert ParseDirective(fmt, start + 1) == (Unfinished, |fmt|) by {
        hide Value, SizeFlags;
      }
      OutputOfDirective(fmt, start, k, args);
    }
  }

  lemma PercentFound(fmt: CString, start: nat, i: nat, f: Flags, given: nat)
    requires start < |fmt| && i < |fmt| && InState(1, fmt, start, i, f, given) && fmt[i] == '%'
    ensures ParseDirective(fmt, start + 1) == (Literal('%'), i + 1)
  {
  }

  lemma SpecBegins(fmt: CString, start: nat, given: nat)
    requires start < |fmt| && fmt[start] == '%'
    ensures InState(1, fmt, start, start + 1, NO_FLAGS, given)
  {
  }

  // ---------------------------------------------------------------- the engine

  /** State 4: a conversion takes the next argument; any other character is copied to the output. */
  method ConvertOne(sink: Sink, fmt: CString, i: nat, flags: Flags, given: U64, k: nat, args: VaList, count: U64,
                    ghost start: nat)
    returns (k': nat, count': U64)
    requires i <= |fmt| && sink.Valid() && Counts(sink, start, count)
    requires !flags.pointer && !flags.negative && !flags.sign
    modifies sink.Footprint()
    ensures sink.Valid() && Counts(sink, start, count')
    ensures var p := Found(fmt, i, flags, given).0;
            && k' == k + ArgsUsed(p) && sink.trace == old(sink.trace) + RenderPiece(p, k, args)
  {
    hide Sink.Valid, Counts, UpToNul, Justify, Prefix, Body, ZeroPads;
    var conv := At(fmt, i);
    if IsConversion(conv) {
      ghost var d := Directive(flags.left, flags.zero, given, FlagSize(flags), conv);
      var flags', where := Convert(conv, flags, args.slot(k), args.text, d);
      k' := k + 1;
      count' := EmitField(sink, flags', given, where, count, start);
    } else {
      k' := k;
      count' := Emit(sink, conv, count, start);
    }
  }

  /** What has been emitted and what the rest of the format will emit make up the whole output. */
  ghost predicate Progress(trace: seq<CChar>, trace0: seq<CChar>, fmt: CString, args: VaList, start: nat, k: nat) {
    && start <= |fmt|
    && trace + OutputFrom(fmt, start, k, args) == trace0 + Formatted(fmt, args)
    && (Dangling(fmt) <==> Overrun in ParseFrom(fmt, start))
  }

  lemma ProgressStarts(trace0: seq<CChar>, fmt: CString, args: VaList)
    ensures Progress(trace0, trace0, fmt, args, 0, 0)
  {
  }

  lemma LiteralProgress(trace: seq<CChar>, trace0: seq<CChar>, fmt: CString, args: VaList, start: nat, k: nat)
    requires Progress(trace, trace0, fmt, args, start, k) && start < |fmt| && fmt[start] != '%'
    ensures Progress(trace + [fmt[start]], trace0, fmt, args, start + 1, k)
  {
    hide OutputFrom, ParseFrom, Formatted, Dangling;
    OutputOfLiteral(fmt, start, k, args);
    assert trace + ([fmt[start]] + OutputFrom(fmt, start + 1, k, args))
        == trace + [fmt[start]] + OutputFrom(fmt, start + 1, k, args);
  }

  /** What the output is complete with: the whole of it, after running past the end. */
  ghost predicate RanOver(trace: seq<CChar>, trace0: seq<CChar>, fmt: CString, args: VaList) {
    trace == trace0 + Formatted(fmt, args) && Dangling(fmt)
  }

  lemma DirectiveProgress(trace: seq<CChar>, trace0: seq<CChar>, fmt: CString, args: VaList, start: nat, k: nat,
                          p: Piece, next: nat)
    requires Progress(trace, trace0, fmt, args, start, k) && start < |fmt| && fmt[start] == '%'
    requires ParseDirective(fmt, start + 1) == (p, next) && (p == Overrun ==> next == |fmt|)
    ensures p.Conversion? ==> IsConversion(p.d.conv)
    ensures p != Overrun ==> Progress(trace + RenderPiece(p, k, args), trace0, fmt, args, next, k + ArgsUsed(p))
    ensures p == Overrun ==> RanOver(trace + RenderPiece(p, k, args), trace0, fmt, args)
  {
    hide OutputFrom, ParseFrom, Formatted, Dangling, RenderPiece, ParseDirective;
    OutputOfDirective(fmt, start, k, args);
    OutputAtEnd(fmt, k, args);
    assert trace + (RenderPiece(p, k, args) + OutputFrom(fmt, next, k + ArgsUsed(p), args))
        == trace + RenderPiece(p, k, args) + OutputFrom(fmt, next, k + ArgsUsed(p), args);
  }

  lemma ProgressEnds(trace: seq<CChar>, trace0: seq<CChar>, state: nat, fmt: CString, args: VaList, start: nat, k: nat,
                     f: Flags, given: nat)
    requires Progress(trace, trace0, fmt, args, start, k) && state <= 3
    requires InState(state, fmt, start, |fmt|, f, given) && Advanced(state, fmt, start, |fmt|)
    ensures trace == trace0 + Formatted(fmt, args) && !Dangling(fmt)
  {
    hide OutputFrom, ParseFrom, Formatted, Dangling, InState, Advanced;
    OutputUnfinished(state, fmt, start, k, f, given, args);
  }

  lemma FreshState(fmt: CString, i: nat, f: Flags, given: nat)
    requires i <= |fmt|
    ensures InState(0, fmt, i, i, f, given) && Advanced(0, fmt, i, i)
  {
  }

  /**
   `_do_vprintf`.  `overrun` tells that the loop has stepped over the terminating NUL, where the
   source goes on reading whatever follows; what it has emitted by then is in the trace.
   */
  method VprintfEngine(sink: Sink, fmt: CString, args: VaList) returns (count: U64, overrun: bool)
    requires sink.Valid()
    modifies sink.Footprint()
    ensures sink.Valid() && sink.trace == old(sink.trace) + Formatted(fmt, args)
    ensures count == |Formatted(fmt, args)| % TWO_64
    ensures overrun <==> Dangling(fmt)
  {
    hide Sink.Valid, Counts, Progress, RanOver, InState, Advanced, Formatted, Dangling;
    ghost var trace0, base := sink.trace, |sink.trace|;
    var i: nat, state: nat, flags, k: nat := 0, 0, NO_FLAGS, 0;
    var given: U64 := 0;
    ghost var start: nat := 0;
    count := 0;
    CountsNone(sink);
    ProgressStarts(trace0, fmt, args);
    FreshState(fmt, 0, flags, given);
    while i < |fmt|
      invariant sink.Valid() && Counts(sink, base, count) && start <= |fmt| && i <= |fmt| + 1 && state <= 3
      invariant i <= |fmt| ==> InState(state, fmt, start, i, flags, given) && Advanced(state, fmt, start, i)
      invariant i <= |fmt| ==> Progress(sink.trace, trace0, fmt, args, start, k)
      invariant i > |fmt| ==> RanOver(sink.trace, trace0, fmt, args)
    {
      i, state, flags, given, k, count, start :=
        Round(sink, fmt, args, i, state, flags, given, k, count, start, base, trace0);
    }
    overrun := i > |fmt|;
    if !overrun {
      ProgressEnds(sink.trace, trace0, state, fmt, args, start, k, flags, given);
    } else {
      RanOverMeans(sink.trace, trace0, fmt, args);
    }
    CountsMeans(sink, base, count);
  }

  lemma CountsMeans(sink: Sink, base: nat, count: U64)
    requires Counts(sink, base, count)
    ensures count == (|sink.trace| - base) % TWO_64
  {
  }

  lemma CountsNone(sink: Sink)
    ensures Counts(sink, |sink.trace|, 0)
  {
  }

  lemma RanOverMeans(trace: seq<CChar>, trace0: seq<CChar>, fmt: CString, args: VaList)
    requires RanOver(trace, trace0, fmt, args)
    ensures trace == trace0 + Formatted(fmt, args) && Dangling(fmt)
  {
  }

  /** One round of the loop: the `switch` with its fall-throughs, and the step to the next character. */
  method Round(sink: Sink, fmt: CString, args: VaList, i: nat, state: nat, flags: Flags, given: U64, k: nat, count: U64,
               ghost start: nat, ghost base: nat, ghost trace0: seq<CChar>)
    returns (i': nat, state': nat, flags': Flags, given': U64, k': nat, count': U64, ghost start': nat)
    requires sink.Valid() && Counts(sink, base, count) && start <= |fmt| && i < |fmt| && state <= 3
    requires InState(state, fmt, start, i, flags, given) && Advanced(state, fmt, start, i)
    requires Progress(sink.trace, trace0, fmt, args, start, k)
    modifies sink.Footprint()
    ensures sink.Valid() && Counts(sink, base, count') && start' <= |fmt| && i < i' <= |fmt| + 1 && state' <= 3
    ensures i' <= |fmt| ==> InState(state', fmt, start', i', flags', given') && Advanced(state', fmt, start', i')
    ensures i' <= |fmt| ==> Progress(sink.trace, trace0, fmt, args, start', k')
    ensures i' > |fmt| ==> RanOver(sink.trace, trace0, fmt, args)
  {
    StateMeans(state, fmt, start, i, flags, given);
    hide Sink.Valid, Counts, Progress, RanOver, InState, Advanced, ParseDirective, Found;
    if state == 0 {
      if fmt[i] != '%' {
        k', state', flags', given' := k, state, flags, given;
        count' := TakeLiteral(sink, fmt, args, i, k, count, base, trace0);
        i', start' := i + 1, i + 1;
        FreshState(fmt, i', flags', given');
        return;
      }
      SpecBegins(fmt, i, given);
      i', state', flags', given', k', count', start' :=
        RoundInSpec(sink, fmt, args, i + 1, 1, NO_FLAGS, given, k, count, start, base, trace0);
    } else {
      i', state', flags', given', k', count', start' :=
        RoundInSpec(sink, fmt, args, i, state, flags, given, k, count, start, base, trace0);
    }
  }

  /** The rest of a round that is inside a specification. */
  method RoundInSpec(sink: Sink, fmt: CString, args: VaList, i: nat, state: nat, flags: Flags, given: U64, k: nat,
                     count: U64, ghost start: nat, ghost base: nat, ghost trace0: seq<CChar>)
    returns (i': nat, state': nat, flags': Flags, given': U64, k': nat, count': U64, ghost start': nat)
    requires sink.Valid() && Counts(sink, base, count) && start < i <= |fmt| && fmt[start] == '%' && 1 <= state <= 3
    requires InState(state, fmt, start, i, flags, given)
    requires if i == |fmt| then state == 1 && i == start + 1 else state == 1 || Advanced(state, fmt, start, i)
    requires Progress(sink.trace, trace0, fmt, args, start, k)
    modifies sink.Footprint()
    ensures sink.Valid() && Counts(sink, base, count') && start' <= |fmt| && i < i' <= |fmt| + 1 && state' <= 3
    ensures i' <= |fmt| ==> InState(state', fmt, start', i', flags', given') && Advanced(state', fmt, start', i')
    ensures i' <= |fmt| ==> Progress(sink.trace, trace0, fmt, args, start', k')
    ensures i' > |fmt| ==> RanOver(sink.trace, trace0, fmt, args)
  {
    hide Sink.Valid, Counts, Progress, RanOver, InState, Advanced, ParseDirective, Found;
    k', count', start' := k, count, start;
    if state == 1 && At(fmt, i) == '%' {
      flags', given' := flags, given;
      PercentFound(fmt, start, i, flags, given);
      count' := TakePercent(sink, fmt, args, start, i, k, count, base, trace0);
      i', state', start' := i + 1, 0, i + 1;
      FreshState(fmt, i', flags', given');
      return;
    }
    var more;
    i', state', flags', given', more := ScanSpec(fmt, i, state, flags, given, start);
    if more {
      k', count' := TakeConversion(sink, fmt, args, start, i', flags', given', k, count, base, trace0);
      state', flags', given', start' := 0, NO_FLAGS, 0, Min(i' + 1, |fmt|);
      FreshState(fmt, start', flags', given');
    }
    i' := i' + 1;
  }

  /** State 0 at a character other than the percent sign. */
  method TakeLiteral(sink: Sink, fmt: CString, args: VaList, i: nat, k: nat, count: U64,
                     ghost base: nat, ghost trace0: seq<CChar>)
    returns (count': U64)
    requires sink.Valid() && Counts(sink, base, count) && i < |fmt| && fmt[i] != '%'
    requires Progress(sink.trace, trace0, fmt, args, i, k)
    modifies sink.Footprint()
    ensures sink.Valid() && Counts(sink, base, count') && Progress(sink.trace, trace0, fmt, args, i + 1, k)
  {
    hide Sink.Valid, Counts, Progress;
    LiteralProgress(sink.trace, trace0, fmt, args, i, k);
    count' := Emit(sink, fmt[i], count, base);
  }

  /** State 1 at a second percent sign. */
  method TakePercent(sink: Sink, fmt: CString, args: VaList, ghost start: nat, i: nat, k: nat, count: U64,
                     ghost base: nat, ghost trace0: seq<CChar>)
    returns (count': U64)
    requires sink.Valid() && Counts(sink, base, count)
    requires start < |fmt| && fmt[start] == '%' && i < |fmt| && fmt[i] == '%'
    requires ParseDirective(fmt, start + 1) == (Literal('%'), i + 1)
    requires Progress(sink.trace, trace0, fmt, args, start, k)
    modifies sink.Footprint()
    ensures sink.Valid() && Counts(sink, base, count') && Progress(sink.trace, trace0, fmt, args, i + 1, k)
  {
    hide Sink.Valid, Counts, Progress, ParseDirective;
    DirectiveProgress(sink.trace, trace0, fmt, args, start, k, Literal('%'), i + 1);
    count' := Emit(sink, fmt[i], count, base);
  }

  /** State 4, with the position behind it: past the NUL if the NUL was the conversion character. */
  method TakeConversion(sink: Sink, fmt: CString, args: VaList, ghost start: nat, i: nat, flags: Flags, given: U64,
                        k: nat, count: U64, ghost base: nat, ghost trace0: seq<CChar>)
    returns (k': nat, count': U64)
    requires sink.Valid() && Counts(sink, base, count) && start < |fmt| && fmt[start] == '%' && i <= |fmt|
    requires ParseDirective(fmt, start + 1) == Found(fmt, i, flags, given)
    requires !flags.pointer && !flags.negative && !flags.sign
    requires Progress(sink.trace, trace0, fmt, args, start, k)
    modifies sink.Footprint()
    ensures sink.Valid() && Counts(sink, base, count')
    ensures i < |fmt| ==> Progress(sink.trace, trace0, fmt, args, i + 1, k')
    ensures i == |fmt| ==> RanOver(sink.trace, trace0, fmt, args)
  {
    hide Sink.Valid, Counts, Progress, RanOver, ParseDirective, RenderPiece;
    ghost var (p, next) := Found(fmt, i, flags, given);
    DirectiveProgress(sink.trace, trace0, fmt, args, start, k, p, next);
    k', count' := ConvertOne(sink, fmt, i, flags, given, k, args, count, base);
  }

  lemma StateMeans(state: nat, fmt: CString, start: nat, i: nat, f: Flags, given: nat)
    requires start <= |fmt| && i < |fmt| && state <= 3 && InState(state, fmt, start, i, f, given)
    ensures state == 0 ==> i == start
    ensures state > 0 ==> start < i && fmt[start] == '%'
  {
  }
}
