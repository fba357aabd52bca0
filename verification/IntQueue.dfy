/**
  The queue of interrupts waiting for the virtual machine.  Interrupts add to it; the
  machine's hook takes from it in steps that interrupts may fall between.
 */
module IntQueue {
  import opened Arith
  import DlBitmap

  const EMPTY_SLOT: bv32 := 0
  const FIRST_ID: bv32 := 1
  const LUA_INT_MAX_SOURCES: bv32 := 128

  /** A slot of the queue; an empty one has the id EMPTY_SLOT. */
  datatype Slot = Slot(id: bv32, resnum: nat)

  /** Where the hook is. */
  datatype Phase =
    | Idle
    | Got(crt: Slot)       // the element has been read, its slot not yet emptied
    | Emptied(crt: Slot)   // emptied, the read index not yet moved
    | Moved(crt: Slot)     // moved, the handler about to be called
    | Called               // about to see if the queue is empty

  /** The phases follow each other; an idle hook goes on exactly if it has been installed. */
  predicate FollowsPhase(p: Phase, hook: bool, q: Phase) {
    match p
    case Idle => if hook then q.Got? else q.Idle?
    case Got(crt) => q == Emptied(crt)
    case Emptied(crt) => q == Moved(crt)
    case Moved(_) => q == Called
    case Called => q == Idle
  }

  ghost predicate Holds(q: seq<Slot>, n: nat, first: nat, accepted: seq<Slot>) {
    && |q| == n > 0 && first <= |accepted| <= first + n
    && (forall k | first <= k < |accepted| :: q[k % n] == accepted[k])
    && (forall k | |accepted| <= k < first + n :: q[k % n].id == EMPTY_SLOT)
  }

  /** Elements whose place in the queue the read index has passed. */
  ghost function Passed(taken: seq<Slot>, phase: Phase): int { |taken| - if phase.Emptied? then 1 else 0 }

  /**
    What holds between any two steps.  The occupied slots are one run round the ring, from the oldest element not
    taken to the write index; elements are taken in the order in which they were accepted; and while any are waiting
    the hook is set.
   */
  ghost predicate Inv(q: seq<Slot>, n: nat, readIdx: nat, writeIdx: nat, hook: bool, phase: Phase, accepted: seq<Slot>,
      taken: seq<Slot>) {
    && n > 0 && Holds(q, n, |taken|, accepted) && taken == accepted[..|taken|]
    && (forall k | 0 <= k < |accepted| :: accepted[k].id != EMPTY_SLOT)
    && Passed(taken, phase) >= 0 && readIdx == Passed(taken, phase) % n && writeIdx == |accepted| % n
    && (phase.Got? ==> |taken| < |accepted| && phase.crt == accepted[|taken|])
    && (phase.Emptied? || phase.Moved? ==> |taken| > 0 && phase.crt == taken[|taken| - 1])
    && (if phase.Idle? then hook <==> |taken| < |accepted| else hook)
  }

  /** What the slot at an index says about the queue. */
  lemma SlotFull(q: seq<Slot>, n: nat, accepted: seq<Slot>, first: nat)
    requires Holds(q, n, first, accepted) && (forall k | 0 <= k < |accepted| :: accepted[k].id != EMPTY_SLOT)
    ensures q[|accepted| % n].id != EMPTY_SLOT <==> |accepted| == first + n
    ensures q[first % n].id != EMPTY_SLOT <==> first < |accepted|
  {
    if |accepted| == first + n { SameMod(first, |accepted|, n); }
    if first < |accepted| { assert q[first % n] == accepted[first]; }
  }

  /** elua_int_add puts an event in a free slot. */
  lemma AddStep(q: seq<Slot>, n: nat, readIdx: nat, writeIdx: nat, hook: bool, phase: Phase, accepted: seq<Slot>,
      taken: seq<Slot>, e: Slot)
    requires Inv(q, n, readIdx, writeIdx, hook, phase, accepted, taken) && e.id != EMPTY_SLOT
    requires q[writeIdx].id == EMPTY_SLOT
    ensures Inv(q[writeIdx := e], n, readIdx, (writeIdx + 1) % n, true, phase, accepted + [e], taken)
  {
    var m, accepted', q' := |accepted|, accepted + [e], q[writeIdx := e];
    SlotFull(q, n, accepted, |taken|);
    IndexStep(m, n);
    forall k | |taken| <= k < |accepted'| ensures q'[k % n] == accepted'[k] {
      if k < m { ModDiffer(k, m, n); }
    }
    forall k | |accepted'| <= k < |taken| + n ensures q'[k % n].id == EMPTY_SLOT { ModDiffer(m, k, n); }
    assert accepted'[..|taken|] == accepted[..|taken|];
  }

  lemma IndexStep(m: nat, n: nat)
    requires n > 0
    ensures (m % n + 1) % n == (m + 1) % n
  {
    NextMod(m, n);
    if m % n + 1 == n { Quotient(n, n, 1, 0); }
  }

  /** The hook reads the oldest element. */
  lemma GetStep(q: seq<Slot>, n: nat, readIdx: nat, writeIdx: nat, accepted: seq<Slot>, taken: seq<Slot>)
    requires Inv(q, n, readIdx, writeIdx, true, Idle, accepted, taken)
    ensures Inv(q, n, readIdx, writeIdx, true, Got(q[readIdx]), accepted, taken)
  {
    assert q[|taken| % n] == accepted[|taken|];
  }

  /** The hook empties its slot. */
  lemma EmptyStep(q: seq<Slot>, n: nat, readIdx: nat, writeIdx: nat, hook: bool, crt: Slot, accepted: seq<Slot>,
      taken: seq<Slot>)
    requires Inv(q, n, readIdx, writeIdx, hook, Got(crt), accepted, taken)
    ensures Inv(q[readIdx := q[readIdx].(id := EMPTY_SLOT)], n, readIdx, writeIdx, hook, Emptied(crt), accepted,
        taken + [crt])
  {
    var t, q', taken' := |taken|, q[readIdx := q[readIdx].(id := EMPTY_SLOT)], taken + [crt];
    forall k | t + 1 <= k < |accepted| ensures q'[k % n] == accepted[k] { ModDiffer(t, k, n); }
    forall k | |accepted| <= k < t + 1 + n ensures q'[k % n].id == EMPTY_SLOT {
      if k < t + n { ModDiffer(t, k, n); } else { SameMod(t, k, n); }
    }
    assert accepted[..t + 1] == accepted[..t] + [accepted[t]];
  }

  lemma MoveStep(q: seq<Slot>, n: nat, readIdx: nat, writeIdx: nat, hook: bool, crt: Slot, accepted: seq<Slot>,
      taken: seq<Slot>)
    requires Inv(q, n, readIdx, writeIdx, hook, Emptied(crt), accepted, taken)
    ensures Inv(q, n, (readIdx + 1) % n, writeIdx, hook, Moved(crt), accepted, taken)
  {
    IndexStep(|taken| - 1, n);
  }

  /** With interrupts off, the hook is cleared exactly when nothing is waiting. */
  lemma ClearStep(q: seq<Slot>, n: nat, readIdx: nat, writeIdx: nat, accepted: seq<Slot>, taken: seq<Slot>)
    requires Inv(q, n, readIdx, writeIdx, true, Called, accepted, taken)
    ensures Inv(q, n, readIdx, writeIdx, q[readIdx].id != EMPTY_SLOT, Idle, accepted, taken)
  {
    SlotFull(q, n, accepted, |taken|);
  }

  /* ---- The flag words: one bit for each source ---- */

  predicate HasFlag(w: bv32, id: bv32) {
    BitIndex(id);
    DlBitmap.HasBit(w, id & 0x1F)
  }

  /** elua_int_is_enabled. */
  predicate IsEnabled(flags: seq<bv32>, id: bv32)
    requires |flags| == 4
  {
    id < LUA_INT_MAX_SOURCES && HasFlag(flags[WordOf(id)], id)
  }

  function WordOf(id: bv32): (k: nat)
    requires id < LUA_INT_MAX_SOURCES
    ensures k < 4
  {
    if id >> 5 == 0 then 0 else if id >> 5 == 1 then 1 else if id >> 5 == 2 then 2 else 3
  }

  lemma SameBit(i: bv32, j: bv32)
    requires i < LUA_INT_MAX_SOURCES && j < LUA_INT_MAX_SOURCES
    ensures i == j <==> WordOf(i) == WordOf(j) && i & 0x1F == j & 0x1F
    ensures i & 0x1F < 32
  {
  }

  /** Setting or clearing one bit of a flag word. */
  lemma OneFlag(w: bv32, id: bv32, j: bv32)
    ensures id & 0x1F < 32
    ensures HasFlag(DlBitmap.SetBit(w, id & 0x1F), j) <==> id & 0x1F == j & 0x1F || HasFlag(w, j)
    ensures HasFlag(DlBitmap.ClearBit(w, id & 0x1F), j) <==> id & 0x1F != j & 0x1F && HasFlag(w, j)
  {
    hide DlBitmap.HasBit, DlBitmap.SetBit, DlBitmap.ClearBit;
    BitIndex(id);
    BitIndex(j);
    DlBitmap.MarkWord(w, id & 0x1F, j & 0x1F);
    DlBitmap.ClearWord(w, id & 0x1F, j & 0x1F);
  }

  /** Setting or clearing one source's bit changes that source only. */
  lemma OneSource(flags: seq<bv32>, id: bv32, j: bv32)
    requires |flags| == 4 && id < LUA_INT_MAX_SOURCES
    ensures id & 0x1F < 32
    ensures IsEnabled(flags[WordOf(id) := DlBitmap.SetBit(flags[WordOf(id)], id & 0x1F)], j) <==>
              j == id || IsEnabled(flags, j)
    ensures IsEnabled(flags[WordOf(id) := DlBitmap.ClearBit(flags[WordOf(id)], id & 0x1F)], j) <==>
              j != id && IsEnabled(flags, j)
  {
    hide HasFlag, WordOf, DlBitmap.SetBit, DlBitmap.ClearBit;
    BitIndex(id);
    if j < LUA_INT_MAX_SOURCES {
      SameBit(id, j);
      OneFlag(flags[WordOf(id)], id, j);
    }
  }

  lemma BitIndex(id: bv32)
    ensures id & 0x1F < 32
  {
  }

  /** elua_int_enable and elua_int_disable, as functions of the flag words. */
  function WithFlag(flags: seq<bv32>, id: bv32, on: bool): (r: seq<bv32>)
    requires |flags| == 4
    ensures |r| == 4
  {
    if id >= LUA_INT_MAX_SOURCES then flags
    else
      BitIndex(id);
      var w := flags[WordOf(id)];
      flags[WordOf(id) := if on then DlBitmap.SetBit(w, id & 0x1F) else DlBitmap.ClearBit(w, id & 0x1F)]
  }

  /** One source is switched, if there is such a source; the others stay as they are. */
  lemma FlagIs(flags: seq<bv32>, id: bv32, on: bool, j: bv32)
    requires |flags| == 4
    ensures IsEnabled(WithFlag(flags, id, on), j) <==> if j == id && id < LUA_INT_MAX_SOURCES then on
        else IsEnabled(flags, j)
  {
    hide DlBitmap.SetBit, DlBitmap.ClearBit, WordOf, IsEnabled;
    if id < LUA_INT_MAX_SOURCES { OneSource(flags, id, j); }
  }

  datatype Event = Interrupt(id: bv32, resnum: nat, running: bool) | Hook | Enable(id: bv32) | Disable(id: bv32)

  /** The flag words after the enable and disable calls among some events. */
  ghost function FlagsAfter(flags: seq<bv32>, events: seq<Event>): (r: seq<bv32>)
    requires |flags| == 4
    ensures |r| == 4
  {
    if events == [] then flags
    else
      var f := FlagsAfter(flags, events[..|events| - 1]);
      match events[|events| - 1]
      case Enable(id) => WithFlag(f, id, true)
      case Disable(id) => WithFlag(f, id, false)
      case _ => f
  }

  lemma FlagsOneMore(flags: seq<bv32>, events: seq<Event>, i: nat)
    requires |flags| == 4 && i < |events|
    ensures FlagsAfter(flags, events[..i + 1]) ==
              match events[i]
              case Enable(id) => WithFlag(FlagsAfter(flags, events[..i]), id, true)
              case Disable(id) => WithFlag(FlagsAfter(flags, events[..i]), id, false)
              case _ => FlagsAfter(flags, events[..i])
  {
    assert events[..i + 1][..i] == events[..i];
  }

  /** steps are events at which the hook came to the handler of one more event that it had taken. */
  ghost predicate HandlerSteps(events: seq<Event>, steps: seq<nat>) {
    && (forall k | 0 <= k < |steps| :: steps[k] < |events| && events[steps[k]].Hook?)
    && (forall j, k | 0 <= j < k < |steps| :: steps[j] < steps[k])
  }

  /** The events handed to handlers: in the order taken, those enabled when their handler's step came. */
  ghost function Handled(taken: seq<Slot>, flags: seq<bv32>, events: seq<Event>, steps: seq<nat>): seq<Slot>
    requires |steps| <= |taken| && |flags| == 4 && forall k | 0 <= k < |steps| :: steps[k] < |events|
    decreases |steps|
  {
    if steps == [] then []
    else
      var n := |steps| - 1;
      Handled(taken, flags, events, steps[..n]) +
      if IsEnabled(FlagsAfter(flags, events[..steps[n]]), taken[n].id) then [taken[n]] else []
  }

  lemma {:induction false} HandledSame(taken: seq<Slot>, more: seq<Slot>, flags: seq<bv32>, events: seq<Event>,
      steps: seq<nat>)
    requires |steps| <= |taken| && taken <= more && |flags| == 4 && forall k | 0 <= k < |steps| :: steps[k] < |events|
    ensures Handled(more, flags, events, steps) == Handled(taken, flags, events, steps)
    decreases |steps|
  {
    if steps != [] { HandledSame(taken, more, flags, events, steps[..|steps| - 1]); }
  }

  lemma HandledOneMore(taken: seq<Slot>, flags: seq<bv32>, events: seq<Event>, steps: seq<nat>, i: nat)
    requires |steps| < |taken| && |flags| == 4 && i < |events| && forall k | 0 <= k < |steps| :: steps[k] < |events|
    ensures Handled(taken, flags, events, steps + [i]) ==
              Handled(taken, flags, events, steps) +
              if IsEnabled(FlagsAfter(flags, events[..i]), taken[|steps|].id) then [taken[|steps|]] else []
  {
    assert (steps + [i])[..|steps|] == steps;
  }

  class Queue {
    const n: nat
    /** INT_ELUA_LAST: the last id that may be queued. */
    const lastId: bv32
    const queue: array<Slot>
    var readIdx: nat
    var writeIdx: nat
    var flags: seq<bv32>
    /** Is the hook installed, and where is it. */
    var hook: bool
    var phase: Phase
    ghost var accepted: seq<Slot>
    ghost var taken: seq<Slot>

    ghost predicate Valid()
      reads this, queue
    {
      Inv(queue[..], n, readIdx, writeIdx, hook, phase, accepted, taken) && |flags| == 4
    }

    /** elua_int_cleanup, with no hook installed. */
    constructor (n: nat, lastId: bv32)
      requires n > 0
      ensures Valid() && accepted == [] && taken == [] && phase == Idle && fresh(queue)
      ensures flags == [0, 0, 0, 0] && forall id :: !IsEnabled(flags, id)
    {
      this.n, this.lastId, readIdx, writeIdx, hook, phase := n, lastId, 0, 0, false, Idle;
      flags := [0, 0, 0, 0];
      queue := new Slot[n](_ => Slot(EMPTY_SLOT, 0));
      accepted, taken := [], [];
      new;
      NoneEnabled();
    }

    /**
      elua_int_add, from an interrupt: accepted exactly when Lua is running, the id is known and enabled, and a slot
      is free.
     */
    method Add(id: bv32, resnum: nat, running: bool) returns (ok: bool)
      requires Valid()
      modifies this`writeIdx, this`hook, this`accepted, queue
      ensures Valid() && accepted == if ok then old(accepted) + [Slot(id, resnum)] else old(accepted)
      ensures ok <==> running && FIRST_ID <= id <= lastId && IsEnabled(flags, id) && |old(accepted)| < |taken| + n
      ensures hook == (ok || old(hook))
    {
      SlotFull(queue[..], n, accepted, |taken|);
      if id < FIRST_ID || id > lastId {
        return false;
      }
      if !running || !IsEnabled(flags, id) {
        return false;
      }
      if queue[writeIdx].id != EMPTY_SLOT {
        return false;
      }
      AddStep(queue[..], n, readIdx, writeIdx, hook, phase, accepted, taken, Slot(id, resnum));
      hide Inv;
      queue[writeIdx] := Slot(id, resnum);
      writeIdx := (writeIdx + 1) % n;
      hook := true;
      accepted := accepted + [Slot(id, resnum)];
      ok := true;
    }

    /** The next step of elua_int_hook; called is the event handed to its handler, if any. */
    method HookStep() returns (called: seq<Slot>)
      requires Valid()
      modifies this`readIdx, this`hook, this`phase, this`taken, queue
      ensures Valid() && accepted == old(accepted)
      ensures taken == if old(phase).Got? then old(taken) + [old(phase).crt] else old(taken)
      ensures FollowsPhase(old(phase), old(hook), phase)
      ensures old(phase).Idle? && old(hook) ==> |taken| < |accepted| && phase == Got(accepted[|taken|])
      ensures !old(phase).Called? ==> hook == old(hook)
      ensures old(phase).Called? ==> (hook <==> |taken| < |accepted|)
      ensures called == if old(phase).Moved? && IsEnabled(flags, old(phase).crt.id) then [old(phase).crt] else []
      ensures old(phase) == Idle && !old(hook) ==> phase == Idle
    {
      hide Holds;
      called := [];
      match phase
      case Idle =>
        if hook {
          GetStep(queue[..], n, readIdx, writeIdx, accepted, taken);
          InRing(queue[..], n, readIdx, writeIdx, hook, phase, accepted, taken);
          phase := Got(queue[readIdx]);
        }
      case Got(crt) =>
        EmptyStep(queue[..], n, readIdx, writeIdx, hook, crt, accepted, taken);
        InRing(queue[..], n, readIdx, writeIdx, hook, phase, accepted, taken);
        queue[readIdx] := queue[readIdx].(id := EMPTY_SLOT);
        phase := Emptied(crt);
        taken := taken + [crt];
      case Emptied(crt) =>
        MoveStep(queue[..], n, readIdx, writeIdx, hook, crt, accepted, taken);
        readIdx := (readIdx + 1) % n;
        phase := Moved(crt);
      case Moved(crt) =>
        if IsEnabled(flags, crt.id) {
          called := [crt];
        }
        phase := Called;
      case Called =>
        ClearStep(queue[..], n, readIdx, writeIdx, accepted, taken);
        InRing(queue[..], n, readIdx, writeIdx, hook, phase, accepted, taken);
        if queue[readIdx].id == EMPTY_SLOT {
          hook := false;
        }
        phase := Idle;
    }

    /**
      The hook, called without interrupts between: in five steps for each event that waits all are taken, in order, and
      each that is enabled is handed to its handler; then the hook is removed.
     */
    method Drain() returns (called: seq<Slot>, steps: nat)
      requires Valid() && |taken| <= |accepted|
      modifies this`readIdx, this`hook, this`phase, this`taken, queue
      ensures Valid() && accepted == old(accepted) && taken == accepted && phase == Idle && !hook
      ensures called == EnabledOf(flags, old(Due(phase, accepted, taken)))
      ensures steps == old(StepsLeft(phase, |accepted| - |taken|))
    {
      hide Inv, IsEnabled, EnabledOf, Due;
      called, steps := [], 0;
      ghost var due := Due(phase, accepted, taken);
      ghost var total := StepsLeft(phase, |accepted| - |taken|);
      assert [] + EnabledOf(flags, due) == EnabledOf(flags, due);
      InOrder(queue[..], n, readIdx, writeIdx, hook, phase, accepted, taken);
      while phase != Idle || hook
        invariant Valid() && accepted == old(accepted) && |taken| <= |accepted|
        invariant called + EnabledOf(flags, Due(phase, accepted, taken)) == EnabledOf(flags, due)
        invariant StepsLeft(phase, |accepted| - |taken|) >= 0 && phase.Got? ==> |taken| < |accepted|
        invariant phase.Idle? ==> (hook <==> |taken| < |accepted|)
        invariant steps + StepsLeft(phase, |accepted| - |taken|) == total
        decreases StepsLeft(phase, |accepted| - |taken|)
      {
        ghost var phase0, called0, taken0 := phase, called, taken;
        InOrder(queue[..], n, readIdx, writeIdx, hook, phase, accepted, taken);
        var c := HookStep();
        InOrder(queue[..], n, readIdx, writeIdx, hook, phase, accepted, taken);
        DueStep(flags, phase0, phase, accepted, taken0, taken, called, c);
        called := called + c;
        steps := steps + 1;
      }
      InOrder(queue[..], n, readIdx, writeIdx, hook, phase, accepted, taken);
      NoneDue(flags, accepted);
      assert called + [] == called;
    }

    /** elua_int_enable and elua_int_disable. */
    method SetEnabled(id: bv32, on: bool)
      requires Valid()
      modifies this`flags
      ensures Valid() && flags == WithFlag(old(flags), id, on)
    {
      hide Inv, WithFlag;
      flags := WithFlag(flags, id, on);
    }

    /**
      Any interleaving of interrupts, steps of the hook, and changes of the enabled set.  got are the events accepted,
      called those handed to handlers: in order, those of the events taken that were enabled when their handler's step
      came.
     */
    method Interleave(events: seq<Event>) returns (got: seq<Slot>, called: seq<Slot>, ghost steps: seq<nat>)
      requires Valid() && accepted == [] && taken == [] && phase == Idle
      modifies this`readIdx, this`writeIdx, this`hook, this`phase, this`accepted, this`taken, this`flags, queue
      ensures Valid() && got == accepted && taken <= accepted
      ensures taken < accepted ==> hook
      ensures HandlerSteps(events, steps) && Pending(phase) + |steps| == |taken| && old(|flags|) == 4
      ensures called == Handled(taken, old(flags), events, steps)
      ensures flags == FlagsAfter(old(flags), events)
    {
      hide Inv, FlagsAfter, Handled, IsEnabled, WithFlag;
      got, called, steps := [], [], [];
      ghost var flags0 := flags;
      NothingHandled(taken, flags0, events);
      for i := 0 to |events|
        invariant Valid() && got == accepted && Pending(phase) + |steps| == |taken|
        invariant HandlerSteps(events, steps) && forall k | 0 <= k < |steps| :: steps[k] < i
        invariant flags == FlagsAfter(flags0, events[..i])
        invariant called == Handled(taken, flags0, events, steps)
      {
        FlagsOneMore(flags0, events, i);
        match events[i] {
          case Interrupt(id, resnum, running) =>
            var ok := Add(id, resnum, running);
            if ok {
              got := got + [Slot(id, resnum)];
            }
          case Hook =>
            ghost var taken0, phase0 := taken, phase;
            LastTaken(queue[..], n, readIdx, writeIdx, hook, phase, accepted, taken);
            var c := HookStep();
            if phase0.Moved? {
              HandledOneMore(taken, flags0, events, steps, i);
              steps := steps + [i];
            }
            HandledSame(taken0, taken, flags0, events, steps);
            called := called + c;
          case Enable(id) => SetEnabled(id, true);
          case Disable(id) => SetEnabled(id, false);
        }
      }
      assert events[..|events|] == events;
      InOrder(queue[..], n, readIdx, writeIdx, hook, phase, accepted, taken);
    }
  }

  lemma NoneEnabled()
    ensures forall id :: !IsEnabled([0, 0, 0, 0], id)
  {
  }

  /** The steps that the hook needs, without interrupts, until nothing waits: five for each event. */
  function StepsLeft(phase: Phase, waiting: nat): int {
    match phase
    case Idle => 5 * waiting
    case Got(_) => 5 * waiting - 1
    case Emptied(_) => 5 * waiting + 3
    case Moved(_) => 5 * waiting + 2
    case Called => 5 * waiting + 1
  }

  /** The events whose handlers are still to be reached: the one taken last, and those waiting. */
  ghost function Due(phase: Phase, accepted: seq<Slot>, taken: seq<Slot>): seq<Slot>
    requires |taken| <= |accepted|
  {
    (if phase.Emptied? || phase.Moved? then [phase.crt] else []) + accepted[|taken|..]
  }

  /** Those of some events that are enabled, in order. */
  ghost function EnabledOf(flags: seq<bv32>, es: seq<Slot>): seq<Slot>
    requires |flags| == 4
  {
    if es == [] then [] else (if IsEnabled(flags, es[0].id) then [es[0]] else []) + EnabledOf(flags, es[1..])
  }

  lemma NoneDue(flags: seq<bv32>, accepted: seq<Slot>)
    requires |flags| == 4
    ensures Due(Idle, accepted, accepted) == [] && EnabledOf(flags, []) == []
  {
  }

  /** What a step hands to a handler is the first of the events due, if it is enabled. */
  lemma DueStep(flags: seq<bv32>, p: Phase, q: Phase, accepted: seq<Slot>, taken: seq<Slot>, taken': seq<Slot>,
      called: seq<Slot>, c: seq<Slot>)
    requires |flags| == 4 && |taken| <= |accepted| && FollowsPhase(p, true, q)
    requires p.Got? ==> |taken| < |accepted| && p.crt == accepted[|taken|]
    requires taken' == if p.Got? then taken + [p.crt] else taken
    requires c == if p.Moved? && IsEnabled(flags, p.crt.id) then [p.crt] else []
    ensures |taken'| <= |accepted|
    ensures called + c + EnabledOf(flags, Due(q, accepted, taken')) ==
              called + EnabledOf(flags, Due(p, accepted, taken))
  {
    hide IsEnabled;
    var due, due' := Due(p, accepted, taken), Due(q, accepted, taken');
    if p.Moved? {
      assert due == [p.crt] + due' && due[1..] == due';
      assert called + (c + EnabledOf(flags, due')) == called + c + EnabledOf(flags, due');
    } else {
      assert due == due';
      assert called + c == called;
    }
  }

  /** Of the events taken, the one whose handler has not been reached yet. */
  function Pending(phase: Phase): nat { if phase.Emptied? || phase.Moved? then 1 else 0 }

  lemma NothingHandled(taken: seq<Slot>, flags: seq<bv32>, events: seq<Event>)
    requires |flags| == 4
    ensures Handled(taken, flags, events, []) == [] && FlagsAfter(flags, events[..0]) == flags
  {
  }

  lemma LastTaken(q: seq<Slot>, n: nat, readIdx: nat, writeIdx: nat, hook: bool, phase: Phase, accepted: seq<Slot>,
      taken: seq<Slot>)
    requires Inv(q, n, readIdx, writeIdx, hook, phase, accepted, taken)
    ensures phase.Moved? ==> |taken| > 0 && phase.crt == taken[|taken| - 1]
  {
  }

  lemma InRing(q: seq<Slot>, n: nat, readIdx: nat, writeIdx: nat, hook: bool, phase: Phase, accepted: seq<Slot>,
      taken: seq<Slot>)
    requires Inv(q, n, readIdx, writeIdx, hook, phase, accepted, taken)
    ensures readIdx < |q| == n && writeIdx < n
  {
  }

  lemma InOrder(q: seq<Slot>, n: nat, readIdx: nat, writeIdx: nat, hook: bool, phase: Phase, accepted: seq<Slot>,
      taken: seq<Slot>)
    requires Inv(q, n, readIdx, writeIdx, hook, phase, accepted, taken)
    ensures taken <= accepted && (|taken| < |accepted| ==> hook)
    ensures phase.Idle? ==> (hook <==> |taken| < |accepted|)
    ensures phase.Got? ==> |taken| < |accepted| && phase.crt == accepted[|taken|]
  {
  }
}
