/** Whole runs of the physical memory manager: who holds which frame. */
module PmmTrace {
  import opened Bytes
  import opened Bits
  import P = Pmm

  datatype Op = Alloc | AllocN(n: nat) | Free(phys: nat)

  /** What a run shows to its callers: frames handed out, one by one, and addresses given back. */
  datatype Event = Given(frame: nat) | Returned(frame: nat)

  /** The frames that have been handed out and not given back since. */
  function Held(events: seq<Event>): set<nat> {
    if events == [] then {} else
      var held, e := Held(events[..|events| - 1]), events[|events| - 1];
      if e.Given? then held + {e.frame} else held - {e.frame}
  }

  /** A frame is handed out only when nobody holds it. */
  predicate Exclusive(events: seq<Event>) {
    events == [] || (
      var before, e := events[..|events| - 1], events[|events| - 1];
      Exclusive(before) && (e.Given? ==> e.frame !in Held(before)))
  }

  /** Between two times that a frame is handed out it has been given back. */
  lemma {:induction false} NoDoubleGrant(events: seq<Event>, i: nat, j: nat)
    requires Exclusive(events) && i < j < |events|
    requires events[i].Given? && events[j] == events[i]
    ensures exists k :: i < k < j && events[k] == Returned(events[i].frame)
  {
    var before := events[..|events| - 1];
    if j < |events| - 1 {
      NoDoubleGrant(before, i, j);
      var k :| i < k < j && before[k] == Returned(events[i].frame);
      assert events[k] == before[k];
    } else {
      assert before[..j] == before;
      StillHeld(before, i, j);
      var k :| i < k < j && before[k] == Returned(events[i].frame);
      assert events[k] == before[k];
    }
  }

  lemma {:induction false} StillHeld(events: seq<Event>, i: nat, n: nat)
    requires i < n <= |events| && events[i].Given?
    requires events[i].frame !in Held(events[..n])
    ensures exists k :: i < k < n && events[k] == Returned(events[i].frame)
  {
    assert events[..n][..n - 1] == events[..n - 1];
    if n - 1 > i && events[n - 1] != Returned(events[i].frame) {
      StillHeld(events, i, n - 1);
    }
  }

  /** Held frames are used, and the events are exclusive. */
  ghost predicate Consistent(events: seq<Event>, bits: seq<byte>) {
    && |bits| == P.BITMAP_BYTES && Exclusive(events)
    && forall f :: f in Held(events) ==> f < P.FRAMES && !P.Free(bits, f)
  }

  lemma Append(events: seq<Event>, e: Event)
    ensures Held(events + [e]) == if e.Given? then Held(events) + {e.frame} else Held(events) - {e.frame}
    ensures Exclusive(events + [e]) <==> Exclusive(events) && (e.Given? ==> e.frame !in Held(events))
  {
    assert (events + [e])[..|events|] == events;
  }

  lemma GrantStep(events: seq<Event>, bits: seq<byte>, bits': seq<byte>, f: nat)
    requires Consistent(events, bits) && P.Free(bits, f) && |bits'| == P.BITMAP_BYTES && !P.Free(bits', f)
    requires forall g :: 0 <= g < P.FRAMES && !P.Free(bits, g) ==> !P.Free(bits', g)
    ensures Consistent(events + [Given(f)], bits')
  {
    hide BitAt, Held, Exclusive;
    Append(events, Given(f));
  }

  lemma ReturnStep(events: seq<Event>, bits: seq<byte>, bits': seq<byte>, f: nat)
    requires Consistent(events, bits) && |bits'| == P.BITMAP_BYTES
    requires forall g :: 0 <= g < P.FRAMES && !P.Free(bits, g) && g != f ==> !P.Free(bits', g)
    ensures Consistent(events + [Returned(f)], bits')
  {
    hide P.Free, Held, Exclusive;
    Append(events, Returned(f));
  }

  /** The events of a run of `n` frames. */
  function Grants(f: nat, n: nat): seq<Event> {
    if n == 0 then [] else Grants(f, n - 1) + [Given(f + n - 1)]
  }

  lemma {:induction false} GrantRun(events: seq<Event>, bits: seq<byte>, f: nat, n: nat)
    requires |bits| == P.BITMAP_BYTES && Consistent(events, bits) && f + n <= P.FRAMES && P.FreeRun(bits, f, n)
    ensures Consistent(events + Grants(f, n), P.WithRun(bits, f, n))
  {
    hide P.Free, Consistent, WithBit;
    if n == 0 {
      assert events + Grants(f, n) == events;
    } else {
      GrantRun(events, bits, f, n - 1);
      var b, b' := P.WithRun(bits, f, n - 1), P.WithRun(bits, f, n);
      forall g | 0 <= g < P.FRAMES ensures P.Free(b', g) <==> P.Free(b, g) && g != f + n - 1 {
        P.WithRunSetsRun(bits, f, n - 1, g);
        P.WithRunSetsRun(bits, f, n, g);
      }
      P.WithRunSetsRun(bits, f, n - 1, f + n - 1);
      GrantStep(events + Grants(f, n - 1), b, b', f + n - 1);
      assert events + Grants(f, n) == events + Grants(f, n - 1) + [Given(f + n - 1)];
    }
  }

  /** What one call shows to the caller, to whom address 0 means that nothing was handed out. */
  function Shown(op: Op, result: nat): seq<Event> {
    match op
    case Alloc => if result == 0 then [] else [Given(result / P.PAGE_SIZE)]
    case AllocN(n) => if result == 0 then [] else Grants(result / P.PAGE_SIZE, n)
    case Free(phys) => [Returned(phys / P.PAGE_SIZE)]
  }

  function EventsOf(ops: seq<Op>, results: seq<nat>): seq<Event>
    requires |ops| == |results|
  {
    if ops == [] then []
    else EventsOf(ops[..|ops| - 1], results[..|ops| - 1]) + Shown(ops[|ops| - 1], results[|ops| - 1])
  }

  lemma EventsOfMore(ops: seq<Op>, i: nat, results: seq<nat>, result: nat)
    requires i < |ops| && |results| == i
    ensures EventsOf(ops[..i + 1], results + [result]) == EventsOf(ops[..i], results) + Shown(ops[i], result)
  {
    assert ops[..i + 1][..i] == ops[..i] && (results + [result])[..i] == results;
  }

  /** More may be in use than the events account for. */
  lemma MoreUsed(events: seq<Event>, bits: seq<byte>, bits': seq<byte>)
    requires Consistent(events, bits) && |bits'| == P.BITMAP_BYTES
    requires forall g :: 0 <= g < P.FRAMES && !P.Free(bits, g) ==> !P.Free(bits', g)
    ensures Consistent(events + [], bits')
  {
    hide P.Free, Held, Exclusive;
    assert events + [] == events;
  }

  /** What a call does to the bitmap, and what it returns. */
  ghost predicate Does(op: Op, bits: seq<byte>, result: nat, bits': seq<byte>) {
    && |bits| == |bits'| == P.BITMAP_BYTES
    && match op
       case Alloc =>
         if exists f :: P.Free(bits, f) then
           && result % 4096 == 0 && P.Free(bits, result / 4096) && bits' == WithBit(bits, result / 4096)
           && forall g :: 0 <= g < result / 4096 ==> !P.Free(bits, g)
         else
           result == 0 && bits' == bits
       case AllocN(n) =>
         if exists f :: P.FreeRun(bits, f, n) then
           && result % 4096 == 0 && P.FreeRun(bits, result / 4096, n) && bits' == P.WithRun(bits, result / 4096, n)
           && forall g :: 0 <= g < result / 4096 ==> !P.FreeRun(bits, g, n)
         else
           result == 0 && bits' == bits
       case Free(phys) =>
         result == 0 && forall f :: 0 <= f < P.FRAMES ==> (P.Free(bits', f) <==> P.Free(bits, f) || f == phys / 4096)
  }

  method Perform(pmm: P.Pmm, op: Op, ghost events: seq<Event>) returns (result: nat)
    requires pmm.Valid() && Consistent(events, pmm.bitmap[..])
    modifies pmm, pmm.bitmap
    ensures pmm.Valid() && Consistent(events + Shown(op, result), pmm.bitmap[..])
    ensures Does(op, old(pmm.bitmap[..]), result, pmm.bitmap[..])
  {
    hide BitAt, WithBit, P.WithRun, Consistent, ZeroBits;
    ghost var bits := pmm.bitmap[..];
    match op {
      case Alloc =>
        result := pmm.Alloc();
        if exists f :: P.Free(bits, f) {
          WithBitUses(bits, result / P.PAGE_SIZE);
          MoreUsed(events, bits, pmm.bitmap[..]);
          if result != 0 {
            GrantStep(events, bits, pmm.bitmap[..], result / P.PAGE_SIZE);
          }
        } else {
          MoreUsed(events, bits, pmm.bitmap[..]);
        }
      case AllocN(n) =>
        result := pmm.AllocN(n);
        if exists f :: P.FreeRun(bits, f, n) {
          WithRunUses(bits, result / P.PAGE_SIZE, n);
          MoreUsed(events, bits, pmm.bitmap[..]);
          if result != 0 {
            GrantRun(events, bits, result / P.PAGE_SIZE, n);
          }
        } else {
          MoreUsed(events, bits, pmm.bitmap[..]);
        }
      case Free(phys) =>
        pmm.FreeFrame(phys);
        result := 0;
        ReturnStep(events, bits, pmm.bitmap[..], phys / P.PAGE_SIZE);
    }
  }

  lemma WithBitUses(bits: seq<byte>, f: nat)
    requires |bits| == P.BITMAP_BYTES && f < P.FRAMES
    ensures !P.Free(WithBit(bits, f), f)
    ensures forall g :: 0 <= g < P.FRAMES && !P.Free(bits, g) ==> !P.Free(WithBit(bits, f), g)
  {
    hide BitAt, WithBit;
    forall g | 0 <= g < P.FRAMES ensures P.Free(WithBit(bits, f), g) <==> P.Free(bits, g) && g != f {
      WithBitChangesOne(bits, f, g);
    }
  }

  lemma WithRunUses(bits: seq<byte>, f: nat, n: nat)
    requires |bits| == P.BITMAP_BYTES && f + n <= P.FRAMES
    ensures forall g :: 0 <= g < P.FRAMES && !P.Free(bits, g) ==> !P.Free(P.WithRun(bits, f, n), g)
  {
    hide P.Free;
    forall g | 0 <= g < P.FRAMES && !P.Free(bits, g) ensures !P.Free(P.WithRun(bits, f, n), g) {
      P.WithRunSetsRun(bits, f, n, g);
    }
  }

  /** The bitmap before each call of a run, and after the last. */
  ghost predicate IsRunOf(ops: seq<Op>, results: seq<nat>, states: seq<seq<byte>>) {
    && |results| == |ops| && |states| == |ops| + 1
    && forall i :: 0 <= i < |ops| ==> Does(ops[i], states[i], results[i], states[i + 1])
  }

  lemma RunMore(ops: seq<Op>, results: seq<nat>, states: seq<seq<byte>>, op: Op, result: nat, bits: seq<byte>)
    requires IsRunOf(ops, results, states) && Does(op, states[|ops|], result, bits)
    ensures IsRunOf(ops + [op], results + [result], states + [bits])
  {
    hide Does;
    var o, r, s := ops + [op], results + [result], states + [bits];
    forall i | 0 <= i < |o| ensures Does(o[i], s[i], r[i], s[i + 1]) {
    }
  }

  /** Over any run the count stays the number of set bits, and no frame is handed out to two holders. */
  method Run(pmm: P.Pmm, ops: seq<Op>) returns (results: seq<nat>, ghost states: seq<seq<byte>>)
    requires pmm.Valid()
    modifies pmm, pmm.bitmap
    ensures IsRunOf(ops, results, states) && states[0] == old(pmm.bitmap[..]) && states[|ops|] == pmm.bitmap[..]
    ensures pmm.Valid() && pmm.used == P.FRAMES - ZeroBits(pmm.bitmap[..], P.FRAMES)
    ensures |results| == |ops| && Exclusive(EventsOf(ops, results))
    ensures forall f :: f in Held(EventsOf(ops, results)) ==> f < P.FRAMES && !pmm.IsFree(f)
  {
    hide BitAt, Consistent, ZeroBits, EventsOf, Shown, Held, Exclusive, Does;
    results, states := [], [pmm.bitmap[..]];
    StartConsistent(pmm.bitmap[..], ops[..0]);
    for i := 0 to |ops|
      invariant pmm.Valid() && |results| == i && Consistent(EventsOf(ops[..i], results), pmm.bitmap[..])
      invariant IsRunOf(ops[..i], results, states) && states[0] == old(pmm.bitmap[..]) && states[i] == pmm.bitmap[..]
    {
      var result := Perform(pmm, ops[i], EventsOf(ops[..i], results));
      EventsOfMore(ops, i, results, result);
      RunMore(ops[..i], results, states, ops[i], result, pmm.bitmap[..]);
      assert ops[..i + 1] == ops[..i] + [ops[i]];
      results, states := results + [result], states + [pmm.bitmap[..]];
    }
    assert ops[..|ops|] == ops;
    ConsistentIsExclusive(EventsOf(ops, results), pmm.bitmap[..]);
  }

  lemma StartConsistent(bits: seq<byte>, none: seq<Op>)
    requires |bits| == P.BITMAP_BYTES && none == []
    ensures Consistent(EventsOf(none, []), bits)
  {
  }

  lemma ConsistentIsExclusive(events: seq<Event>, bits: seq<byte>)
    requires Consistent(events, bits)
    ensures Exclusive(events) && forall f :: f in Held(events) ==> f < P.FRAMES && !P.Free(bits, f)
  {
  }
}
