/**
 * Binding the adapter to the hardware resources the bus assigned: a scan over the
 * partial resource descriptors that records the I/O port range, the interrupt and the
 * 128 KiB register window, followed by a completeness check.
 */
module ResourceScan {
  import opened Defs

  /** A partial resource descriptor; 64-bit starts are physical addresses. */
  datatype Descriptor =
    | Port(start: bv64, length: bv32)
    | Interrupt(level: bv32, vector: bv32, share: bv8, flags: bv16)
    | Memory(start: bv64, length: bv32)
    | Other(kind: bv8)

  /** The adapter fields the scan assigns. */
  datatype Binding = Binding(
    ioPortAddress: bv32, ioPortLength: bv32,
    interruptVector: bv32, interruptLevel: bv32, interruptShared: bool, interruptFlags: bv16,
    ioAddress: bv64, ioLength: bv32)

  function LowPart(a: bv64): bv32 {
    (a & 0xFFFF_FFFF) as bv32
  }

  function HighPart(a: bv64): bv32 {
    (a >> 32) as bv32
  }

  /** A memory descriptor of exactly the register window's size. */
  predicate IsWindow(d: Descriptor) {
    d.Memory? && d.length == REGISTER_WINDOW_LENGTH
  }

  /** What one descriptor does to the adapter fields. */
  function Step(b: Binding, d: Descriptor): Binding {
    match d
    case Port(start, length) => b.(ioPortAddress := LowPart(start), ioPortLength := length)
    case Interrupt(level, vector, share, flags) =>
      b.(interruptVector := vector, interruptLevel := level,
         interruptShared := share == CmResourceShareShared, interruptFlags := flags)
    case Memory(start, length) =>
      if length == REGISTER_WINDOW_LENGTH then b.(ioAddress := start, ioLength := length) else b
    case Other(_) => b
  }

  /**
   * The driver's debug assertions for one descriptor: a range is only recorded over an
   * unset one, and only 32-bit starts are expected.
   */
  predicate StepAsserts(b: Binding, d: Descriptor) {
    match d
    case Port(start, _) => b.ioPortAddress == 0 && HighPart(start) == 0
    case Interrupt(_, _, _, _) => b.interruptVector == 0 && b.interruptLevel == 0
    case Memory(start, length) =>
      length == REGISTER_WINDOW_LENGTH ==> LowPart(b.ioAddress) == 0 && HighPart(start) == 0
    case Other(_) => true
  }

  /** The adapter fields after scanning `ds` in order, starting from `b`. */
  function Scan(b: Binding, ds: seq<Descriptor>): Binding {
    if ds == [] then b else Step(Scan(b, ds[..|ds| - 1]), ds[|ds| - 1])
  }

  /** The debug assertions hold at every step of the scan. */
  predicate ScanAsserts(b: Binding, ds: seq<Descriptor>) {
    ds == [] || (ScanAsserts(b, ds[..|ds| - 1]) && StepAsserts(Scan(b, ds[..|ds| - 1]), ds[|ds| - 1]))
  }

  /** The assertions of a whole scan hold at each of its steps. */
  lemma {:induction false} ScanAssertsPrefix(b: Binding, ds: seq<Descriptor>, n: nat)
    requires n < |ds| && ScanAsserts(b, ds)
    ensures StepAsserts(Scan(b, ds[..n]), ds[n])
  {
    var front := ds[..|ds| - 1];
    if n < |ds| - 1 {
      ScanAssertsPrefix(b, front, n);
      assert front[..n] == ds[..n];
    } else {
      assert front == ds[..n];
    }
  }

  /** The completeness check after the scan. */
  function BindStatus(b: Binding): NdisStatus {
    if b.ioAddress == 0 || b.ioPortAddress == 0 || b.interruptVector == 0 then Resources else Success
  }

  /** The port fields are those of the last port descriptor. */
  lemma {:induction false} ScanLastPort(b: Binding, ds: seq<Descriptor>, i: nat)
    requires i < |ds| && ds[i].Port?
    requires forall j :: i < j < |ds| ==> !ds[j].Port?
    ensures Scan(b, ds).ioPortAddress == LowPart(ds[i].start)
    ensures Scan(b, ds).ioPortLength == ds[i].length
  {
    if i < |ds| - 1 {
      ScanLastPort(b, ds[..|ds| - 1], i);
    }
  }

  /** Without a port descriptor the port fields keep their values. */
  lemma {:induction false} ScanNoPort(b: Binding, ds: seq<Descriptor>)
    requires forall j :: 0 <= j < |ds| ==> !ds[j].Port?
    ensures Scan(b, ds).ioPortAddress == b.ioPortAddress
    ensures Scan(b, ds).ioPortLength == b.ioPortLength
  {
    if ds != [] {
      ScanNoPort(b, ds[..|ds| - 1]);
    }
  }

  /**
   * The interrupt fields are those of the last interrupt descriptor, and the interrupt is
   * shared exactly when that descriptor's disposition is CmResourceShareShared.
   */
  lemma {:induction false} ScanLastInterrupt(b: Binding, ds: seq<Descriptor>, i: nat)
    requires i < |ds| && ds[i].Interrupt?
    requires forall j :: i < j < |ds| ==> !ds[j].Interrupt?
    ensures Scan(b, ds).interruptVector == ds[i].vector
    ensures Scan(b, ds).interruptLevel == ds[i].level
    ensures Scan(b, ds).interruptShared <==> ds[i].share == CmResourceShareShared
    ensures Scan(b, ds).interruptFlags == ds[i].flags
  {
    if i < |ds| - 1 {
      ScanLastInterrupt(b, ds[..|ds| - 1], i);
    }
  }

  /** Without an interrupt descriptor the interrupt fields keep their values. */
  lemma {:induction false} ScanNoInterrupt(b: Binding, ds: seq<Descriptor>)
    requires forall j :: 0 <= j < |ds| ==> !ds[j].Interrupt?
    ensures Scan(b, ds).interruptVector == b.interruptVector
    ensures Scan(b, ds).interruptLevel == b.interruptLevel
    ensures Scan(b, ds).interruptShared == b.interruptShared
    ensures Scan(b, ds).interruptFlags == b.interruptFlags
  {
    if ds != [] {
      ScanNoInterrupt(b, ds[..|ds| - 1]);
    }
  }

  /** The register window is the last memory descriptor of exactly 128 KiB. */
  lemma {:induction false} ScanLastWindow(b: Binding, ds: seq<Descriptor>, i: nat)
    requires i < |ds| && IsWindow(ds[i])
    requires forall j :: i < j < |ds| ==> !IsWindow(ds[j])
    ensures Scan(b, ds).ioAddress == ds[i].start
    ensures Scan(b, ds).ioLength == REGISTER_WINDOW_LENGTH
  {
    if i < |ds| - 1 {
      ScanLastWindow(b, ds[..|ds| - 1], i);
    }
  }

  /** Memory descriptors of any other size leave the register window alone. */
  lemma {:induction false} ScanNoWindow(b: Binding, ds: seq<Descriptor>)
    requires forall j :: 0 <= j < |ds| ==> !IsWindow(ds[j])
    ensures Scan(b, ds).ioAddress == b.ioAddress
    ensures Scan(b, ds).ioLength == b.ioLength
  {
    if ds != [] {
      ScanNoWindow(b, ds[..|ds| - 1]);
    }
  }

  /** Whether a descriptor changes no adapter field. */
  predicate Ignored(d: Descriptor) {
    d.Other? || (d.Memory? && d.length != REGISTER_WINDOW_LENGTH)
  }

  /** Dropping a descriptor of another type, or a memory descriptor of another size, changes nothing. */
  lemma {:induction false} ScanSkipsIgnored(b: Binding, ds: seq<Descriptor>, i: nat)
    requires i < |ds| && Ignored(ds[i])
    ensures Scan(b, ds) == Scan(b, ds[..i] + ds[i + 1..])
  {
    var rest := ds[..i] + ds[i + 1..];
    if i == |ds| - 1 {
      assert rest == ds[..|ds| - 1];
    } else {
      var front := ds[..|ds| - 1];
      ScanSkipsIgnored(b, front, i);
      assert rest[..|rest| - 1] == front[..i] + front[i + 1..];
      assert rest[|rest| - 1] == ds[|ds| - 1];
    }
  }

  /**
   * Binding succeeds exactly when the register window, the port range and the interrupt
   * vector are all non-zero after the scan; with no 128 KiB window and no window bound
   * before, it reports missing resources.
   */
  lemma BindOutcome(b: Binding, ds: seq<Descriptor>)
    ensures var s := Scan(b, ds);
      (BindStatus(s) == Success <==> s.ioAddress != 0 && s.ioPortAddress != 0 && s.interruptVector != 0) &&
      (BindStatus(s) == Success || BindStatus(s) == Resources)
    ensures (forall j :: 0 <= j < |ds| ==> !IsWindow(ds[j])) && b.ioAddress == 0 ==>
      BindStatus(Scan(b, ds)) == Resources
  {
    if (forall j :: 0 <= j < |ds| ==> !IsWindow(ds[j])) && b.ioAddress == 0 {
      ScanNoWindow(b, ds);
    }
  }
}
