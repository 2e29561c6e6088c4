/**
 * The register bus the hardware layer talks to. Register reads, register writes, port
 * writes and busy-wait stalls are recorded as events in the order they happen; the
 * values the device answers come from a script, consumed one per register read in the
 * order the driver reads them. A script that runs out reads as zero.
 */
module Bus {

  datatype Event =
    | Read(offset: bv32)
    | Write(offset: bv32, value: bv32)
    | PortWrite(port: bv32, value: bv32)
    | Stall(micros: nat)

  /**
   * What one operation does on the bus: its events, the script position after its last
   * read (the next read answers from there), and its result.
   */
  datatype Run<T> = Run(events: seq<Event>, end: nat, value: T)

  /** The answer to the read at position i of the script. */
  function Response(script: seq<bv32>, i: nat): bv32 {
    (script + [0])[if i < |script| then i else |script|]
  }

  /** Whether a polled value shows completion: the masked bit is set (wantSet) or clear. */
  predicate Hit(v: bv32, mask: bv32, wantSet: bool) {
    (v & mask != 0) == wantSet
  }

  /**
   * Number of register reads of a bounded poll loop that starts reading at position
   * `at` and stops at the first read that shows completion, or after `budget` reads.
   * What the reads before the last saw is stated separately, by PollCountSpec.
   */
  function PollCount(script: seq<bv32>, at: nat, mask: bv32, wantSet: bool, budget: nat): (k: nat)
    ensures budget == 0 ==> k == 0
    ensures budget > 0 ==> 1 <= k <= budget
    decreases budget
  {
    if budget == 0 then 0
    else if Hit(Response(script, at), mask, wantSet) then 1
    else 1 + PollCount(script, at + 1, mask, wantSet, budget - 1)
  }

  /**
   * The poll loop stops at the first read that shows completion: no read before the last
   * one shows it, and the last one does unless the whole budget was used.
   */
  lemma {:induction false} PollCountSpec(script: seq<bv32>, at: nat, mask: bv32, wantSet: bool, budget: nat)
    ensures var k := PollCount(script, at, mask, wantSet, budget);
      (forall p :: at <= p < at + k - 1 ==> !Hit(Response(script, p), mask, wantSet)) &&
      (0 < k < budget ==> Hit(Response(script, at + k - 1), mask, wantSet))
    decreases budget
  {
    if budget > 0 && !Hit(Response(script, at), mask, wantSet) {
      PollCountSpec(script, at + 1, mask, wantSet, budget - 1);
    }
  }

  /** The last value a poll loop with a non-zero budget reads. */
  function PollFinal(script: seq<bv32>, at: nat, mask: bv32, wantSet: bool, budget: nat): bv32
    requires budget > 0
  {
    Response(script, at + PollCount(script, at, mask, wantSet, budget) - 1)
  }

  /** Whether the poll loop saw completion before its budget ran out. */
  predicate PollDone(script: seq<bv32>, at: nat, mask: bv32, wantSet: bool, budget: nat) {
    var k := PollCount(script, at, mask, wantSet, budget);
    k > 0 && Hit(Response(script, at + k - 1), mask, wantSet)
  }

  /** The events of k poll iterations: each stalls, then reads the polled register. */
  function PollEvents(offset: bv32, micros: nat, k: nat): seq<Event> {
    if k == 0 then [] else PollEvents(offset, micros, k - 1) + [Stall(micros), Read(offset)]
  }

  /** The poll completes within its budget exactly when some read in the budget shows completion. */
  lemma PollDoneIff(script: seq<bv32>, at: nat, mask: bv32, wantSet: bool, budget: nat)
    ensures PollDone(script, at, mask, wantSet, budget)
        <==> exists p :: at <= p < at + budget && Hit(Response(script, p), mask, wantSet)
  {
    var k := PollCount(script, at, mask, wantSet, budget);
    PollCountSpec(script, at, mask, wantSet, budget);
    if exists p :: at <= p < at + budget && Hit(Response(script, p), mask, wantSet) {
      var p :| at <= p < at + budget && Hit(Response(script, p), mask, wantSet);
      assert p >= at + k - 1;
    }
  }

  /** A poll loop that never sees completion performs exactly its whole budget of reads. */
  lemma {:induction false} PollNeverDone(script: seq<bv32>, at: nat, mask: bv32, wantSet: bool, budget: nat)
    requires forall p :: at <= p < at + budget ==> !Hit(Response(script, p), mask, wantSet)
    ensures PollCount(script, at, mask, wantSet, budget) == budget
    ensures !PollDone(script, at, mask, wantSet, budget)
    decreases budget
  {
    if budget > 0 {
      PollNeverDone(script, at + 1, mask, wantSet, budget - 1);
    }
  }

  /**
   * A loop that read n times, saw no completion before its last read, and stopped because
   * the last read showed completion or the budget was used up, performed PollCount reads.
   */
  lemma {:induction false} PollCountIs(script: seq<bv32>, at: nat, mask: bv32, wantSet: bool, budget: nat, n: nat)
    requires 1 <= n <= budget
    requires forall p :: at <= p < at + n - 1 ==> !Hit(Response(script, p), mask, wantSet)
    requires Hit(Response(script, at + n - 1), mask, wantSet) || n == budget
    ensures PollCount(script, at, mask, wantSet, budget) == n
    decreases n
  {
    if n > 1 {
      assert !Hit(Response(script, at), mask, wantSet);
      PollCountIs(script, at + 1, mask, wantSet, budget - 1, n - 1);
    }
  }

  /** A poll transcript alternates a stall and a read of the polled register, k times. */
  lemma {:induction false} PollEventsShape(offset: bv32, micros: nat, k: nat)
    ensures |PollEvents(offset, micros, k)| == 2 * k
    ensures forall j :: 0 <= j < k ==>
      PollEvents(offset, micros, k)[2 * j] == Stall(micros) &&
      PollEvents(offset, micros, k)[2 * j + 1] == Read(offset)
  {
    if k > 0 {
      PollEventsShape(offset, micros, k - 1);
    }
  }

  /** A poll transcript touches nothing but the polled register. */
  lemma {:induction false} PollEventsOnly(offset: bv32, micros: nat, k: nat)
    ensures forall e :: e in PollEvents(offset, micros, k) ==> e == Stall(micros) || e == Read(offset)
  {
    if k > 0 {
      PollEventsOnly(offset, micros, k - 1);
    }
  }

  /** An event as a write: itself if it is a register write, nothing otherwise. */
  function WriteOf(e: Event): seq<Event> {
    if e.Write? then [e] else []
  }

  /** The register writes of a transcript, in order. */
  function Writes(events: seq<Event>): seq<Event> {
    if events == [] then [] else Writes(events[..|events| - 1]) + WriteOf(events[|events| - 1])
  }

  /** The writes of two transcripts one after the other. */
  lemma {:induction false} WritesAppend(a: seq<Event>, b: seq<Event>)
    ensures Writes(a + b) == Writes(a) + Writes(b)
  {
    if b == [] {
      assert a + b == a;
    } else {
      var front, last := b[..|b| - 1], b[|b| - 1];
      assert (a + b)[..|a + b| - 1] == a + front;
      assert (a + b)[|a + b| - 1] == last;
      WritesAppend(a, front);
      calc {
        Writes(a + b);
        Writes(a + front) + WriteOf(last);
        Writes(a) + Writes(front) + WriteOf(last);
        Writes(a) + (Writes(front) + WriteOf(last));
        Writes(a) + Writes(b);
      }
    }
  }

  /** A transcript without register writes has no writes. */
  lemma {:induction false} WritesNone(events: seq<Event>)
    requires forall e :: e in events ==> !e.Write?
    ensures Writes(events) == []
  {
    if events != [] {
      var front := events[..|events| - 1];
      assert forall e :: e in front ==> e in events;
      WritesNone(front);
    }
  }

  /** A poll loop writes nothing. */
  lemma WritesPollEvents(offset: bv32, micros: nat, k: nat)
    ensures Writes(PollEvents(offset, micros, k)) == []
  {
    PollEventsOnly(offset, micros, k);
    WritesNone(PollEvents(offset, micros, k));
  }

  /** Appending a composed transcript is appending its parts in order. */
  lemma AppendAssoc(a: seq<Event>, b: seq<Event>, c: seq<Event>)
    ensures a + (b + c) == a + b + c
  {
  }

  /** The device: the recorded events and the scripted answers to reads. */
  class Device {
    var trace: seq<Event>
    const script: seq<bv32>
    var cursor: nat

    constructor (script: seq<bv32>)
      ensures trace == [] && this.script == script && cursor == 0
    {
      trace := [];
      this.script := script;
      cursor := 0;
    }

    /** One uncached 32-bit register read. */
    method ReadRegister(offset: bv32) returns (v: bv32)
      modifies this
      ensures v == Response(script, old(cursor))
      ensures cursor == old(cursor) + 1
      ensures trace == old(trace) + [Read(offset)]
    {
      v := Response(script, cursor);
      cursor := cursor + 1;
      trace := trace + [Read(offset)];
    }

    /** One uncached 32-bit register write. */
    method WriteRegister(offset: bv32, value: bv32)
      modifies this
      ensures cursor == old(cursor)
      ensures trace == old(trace) + [Write(offset, value)]
    {
      trace := trace + [Write(offset, value)];
    }

    /** One 32-bit write to the legacy I/O port space. */
    method WritePort(port: bv32, value: bv32)
      modifies this
      ensures cursor == old(cursor)
      ensures trace == old(trace) + [PortWrite(port, value)]
    {
      trace := trace + [PortWrite(port, value)];
    }

    /** Busy-wait for the given number of microseconds. */
    method StallExecution(micros: nat)
      modifies this
      ensures cursor == old(cursor)
      ensures trace == old(trace) + [Stall(micros)]
    {
      trace := trace + [Stall(micros)];
    }
  }
}
