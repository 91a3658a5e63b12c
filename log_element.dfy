/**
 * The logic elements of logElement.py: NOT, AND and OR gates (and the plain
 * base element, whose `calc` does nothing) with two inputs and a result.
 * Writing an input recomputes the result and, when the element is linked,
 * writes the result into input 1 or 2 of the next element, which does the
 * same in turn.
 */
module LogicGates {

  /** Which `calc` an element runs: the base class's, TNot's, TAnd's or TOr's. */
  datatype GateKind = Plain | Not | And | Or

  /** The two inputs and the result of one element. */
  datatype Pins = Pins(in1: bool, in2: bool, res: bool)

  /** The result `calc` leaves: the base element keeps its old result. */
  function Calc(kind: GateKind, in1: bool, in2: bool, res: bool): bool {
    match kind
    case Plain => res
    case Not => !in1
    case And => in1 && in2
    case Or => in1 || in2
  }

  /** The input a port number selects: 1 for `In1`, 2 for `In2`. */
  function Input(p: Pins, port: int): bool
    requires port == 1 || port == 2
  {
    if port == 1 then p.in1 else p.in2
  }

  /**
   * One element's setter: store v in input `port`, then recompute the result.
   * Writes only ever arrive on port 1 or 2; any port other than 1 is taken as 2.
   * The last ensures is a corollary of the one before it, spelled out for the
   * base element, whose `calc` keeps the result.
   */
  function Store(kind: GateKind, p: Pins, port: int, v: bool): (r: Pins)
    ensures port == 1 || port == 2 ==> Input(r, port) == v && Input(r, 3 - port) == Input(p, 3 - port)
    ensures r.res == Calc(kind, r.in1, r.in2, p.res)
    ensures kind == Plain ==> r.res == p.res
  {
    var q := if port == 1 then p.(in1 := v) else p.(in2 := v);
    q.(res := Calc(kind, q.in1, q.in2, p.res))
  }

  /** Every element but the last passes its result on to input 1 or 2. */
  ghost predicate Ports(ports: seq<int>)
  {
    forall i :: 0 <= i < |ports| - 1 ==> ports[i] == 1 || ports[i] == 2
  }

  /**
   * Writing v into input `port` of the first element of a chain: every
   * element is stored in turn, element i + 1 receiving the result of element i
   * on input ports[i].
   */
  function Cascade(kinds: seq<GateKind>, pins: seq<Pins>, ports: seq<int>, port: int, v: bool): (r: seq<Pins>)
    requires |kinds| == |pins| == |ports| >= 1
    ensures |r| == |pins|
    decreases |pins|
  {
    var first := Store(kinds[0], pins[0], port, v);
    if |pins| == 1 then [first]
    else [first] + Cascade(kinds[1..], pins[1..], ports[1..], ports[0], first.res)
  }

  /**
   * After a write has run down the chain, the written input holds v, each
   * element's other input is what it was, each result is what its `calc` gives
   * from its inputs, and each linked input holds its predecessor's result.
   */
  lemma {:induction false} CascadeSettles(kinds: seq<GateKind>, pins: seq<Pins>, ports: seq<int>, port: int, v: bool)
    requires |kinds| == |pins| == |ports| >= 1 && Ports(ports)
    requires port == 1 || port == 2
    ensures var r := Cascade(kinds, pins, ports, port, v);
      && Input(r[0], port) == v
      && Input(r[0], 3 - port) == Input(pins[0], 3 - port)
      && (forall i :: 0 <= i < |r| ==> r[i].res == Calc(kinds[i], r[i].in1, r[i].in2, pins[i].res))
      && (forall i :: 1 <= i < |r| ==> Input(r[i], ports[i - 1]) == r[i - 1].res)
      && (forall i :: 1 <= i < |r| ==> Input(r[i], 3 - ports[i - 1]) == Input(pins[i], 3 - ports[i - 1]))
    decreases |pins|
  {
    var r := Cascade(kinds, pins, ports, port, v);
    if |pins| > 1 {
      var first := Store(kinds[0], pins[0], port, v);
      CascadeSettles(kinds[1..], pins[1..], ports[1..], ports[0], first.res);
      var rest := Cascade(kinds[1..], pins[1..], ports[1..], ports[0], first.res);
      assert r == [first] + rest;
      forall i | 1 <= i < |r|
        ensures r[i].res == Calc(kinds[i], r[i].in1, r[i].in2, pins[i].res)
        ensures Input(r[i], ports[i - 1]) == r[i - 1].res
        ensures Input(r[i], 3 - ports[i - 1]) == Input(pins[i], 3 - ports[i - 1])
      {
        assert r[i] == rest[i - 1];
        if i > 1 {
          assert r[i - 1] == rest[i - 2];
        }
      }
    }
  }

  /** Writing the same value again changes nothing. */
  lemma {:induction false} CascadeIdempotent(kinds: seq<GateKind>, pins: seq<Pins>, ports: seq<int>, port: int, v: bool)
    requires |kinds| == |pins| == |ports| >= 1 && Ports(ports)
    requires port == 1 || port == 2
    ensures var r := Cascade(kinds, pins, ports, port, v);
      Cascade(kinds, r, ports, port, v) == r
    decreases |pins|
  {
    var r := Cascade(kinds, pins, ports, port, v);
    var first := Store(kinds[0], pins[0], port, v);
    assert Store(kinds[0], r[0], port, v) == first;
    if |pins| > 1 {
      CascadeIdempotent(kinds[1..], pins[1..], ports[1..], ports[0], first.res);
      assert r[1..] == Cascade(kinds[1..], pins[1..], ports[1..], ports[0], first.res);
    }
  }

  class LogElement {
    const kind: GateKind
    var in1: bool
    var in2: bool
    var res: bool
    var next: LogElement?
    var nextIn: int

    /** `__init__`: inputs and result False, no successor, `nextIn` 0. */
    constructor (kind: GateKind)
      ensures this.kind == kind
      ensures !in1 && !in2 && !res && next == null && nextIn == 0
    {
      this.kind := kind;
      in1, in2, res := false, false, false;
      next, nextIn := null, 0;
    }

    /** `link`: only the successor and the port it feeds change. */
    method Link(nextEl: LogElement?, port: int)
      modifies this`next, this`nextIn
      ensures next == nextEl && nextIn == port
    {
      next, nextIn := nextEl, port;
    }

    /** `calc`, dispatched on the element's kind. */
    method Recalc()
      modifies this`res
      ensures res == Calc(kind, in1, in2, old(res))
    {
      match kind {
        case Plain =>
        case Not => res := !in1;
        case And => res := in1 && in2;
        case Or => res := in1 || in2;
      }
    }

    /** The `In1` setter; `chain` lists this element and those its result reaches, in order. */
    method SetIn1(v: bool, ghost chain: seq<LogElement>)
      requires IsChain(chain) && chain[0] == this
      modifies chain
      ensures forall o :: o in chain ==> o.next == old(o.next) && o.nextIn == old(o.nextIn)
      ensures PinsOf(chain) == Cascade(KindsOf(chain), old(PinsOf(chain)), old(PortsOf(chain)), 1, v)
      decreases |chain|, 1
    {
      ghost var before, ports := PinsOf(chain), PortsOf(chain);
      ghost var tail := PinsOf(chain[1..]);
      in1 := v;
      Recalc();
      assert Pins(in1, in2, res) == Store(kind, before[0], 1, v);
      assert PinsOf(chain[1..]) == tail && PortsOf(chain[1..]) == ports[1..];
      Propagate(chain);
      Forwarded(chain, before, ports, 1, v);
    }

    /** The `In2` setter. */
    method SetIn2(v: bool, ghost chain: seq<LogElement>)
      requires IsChain(chain) && chain[0] == this
      modifies chain
      ensures forall o :: o in chain ==> o.next == old(o.next) && o.nextIn == old(o.nextIn)
      ensures PinsOf(chain) == Cascade(KindsOf(chain), old(PinsOf(chain)), old(PortsOf(chain)), 2, v)
      decreases |chain|, 1
    {
      ghost var before, ports := PinsOf(chain), PortsOf(chain);
      ghost var tail := PinsOf(chain[1..]);
      in2 := v;
      Recalc();
      assert Pins(in1, in2, res) == Store(kind, before[0], 2, v);
      assert PinsOf(chain[1..]) == tail && PortsOf(chain[1..]) == ports[1..];
      Propagate(chain);
      Forwarded(chain, before, ports, 2, v);
    }

    /**
     * The tail both setters share: if linked on port 1 or 2, write the result
     * into that input of the next element; this element itself is left alone.
     */
    method Propagate(ghost chain: seq<LogElement>)
      requires IsChain(chain) && chain[0] == this
      modifies chain[1..]
      ensures forall o :: o in chain ==> o.next == old(o.next) && o.nextIn == old(o.nextIn)
      ensures |chain| > 1 ==>
        PinsOf(chain[1..]) == Cascade(KindsOf(chain[1..]), old(PinsOf(chain[1..])), old(PortsOf(chain[1..])), nextIn, res)
      decreases |chain|, 0
    {
      if next != null {
        if nextIn == 1 {
          next.SetIn1(res, chain[1..]);
        } else if nextIn == 2 {
          next.SetIn2(res, chain[1..]);
        }
      }
    }
  }

  /**
   * A setter's effect on the whole chain: the head is stored, and the rest is
   * what the write the head passes on does to the rest.
   */
  lemma Forwarded(chain: seq<LogElement>, before: seq<Pins>, ports: seq<int>, port: int, v: bool)
    requires |chain| == |before| == |ports| >= 1
    requires Pins(chain[0].in1, chain[0].in2, chain[0].res) == Store(chain[0].kind, before[0], port, v)
    requires |chain| > 1 ==>
      PinsOf(chain[1..]) == Cascade(KindsOf(chain[1..]), before[1..], ports[1..], ports[0], chain[0].res)
    ensures PinsOf(chain) == Cascade(KindsOf(chain), before, ports, port, v)
  {
  }

  /**
   * `chain` is an element followed by everything its writes reach: no element
   * twice, each passing its result to the next on port 1 or 2, the last one
   * unlinked or linked on another port.
   */
  ghost predicate IsChain(chain: seq<LogElement>)
    reads chain
    decreases |chain|
  {
    && |chain| >= 1
    && if |chain| == 1 then chain[0].next == null || (chain[0].nextIn != 1 && chain[0].nextIn != 2)
       else && chain[0].next == chain[1]
            && (chain[0].nextIn == 1 || chain[0].nextIn == 2)
            && chain[0] !in chain[1..]
            && IsChain(chain[1..])
  }

  /** The inputs and results of the elements of a chain, in order. */
  function PinsOf(chain: seq<LogElement>): (r: seq<Pins>)
    reads chain
    ensures |r| == |chain|
  {
    if chain == [] then [] else [Pins(chain[0].in1, chain[0].in2, chain[0].res)] + PinsOf(chain[1..])
  }

  /** Which `calc` each element of a chain runs. */
  function KindsOf(chain: seq<LogElement>): (r: seq<GateKind>)
    ensures |r| == |chain|
  {
    if chain == [] then [] else [chain[0].kind] + KindsOf(chain[1..])
  }

  /** The `nextIn` of each element of a chain. */
  function PortsOf(chain: seq<LogElement>): (r: seq<int>)
    reads chain
    ensures |r| == |chain|
  {
    if chain == [] then [] else [chain[0].nextIn] + PortsOf(chain[1..])
  }

  /** The pins of a one-element chain, spelled out. */
  lemma PinsOfOne(a: LogElement)
    ensures PinsOf([a]) == [Pins(a.in1, a.in2, a.res)] && PortsOf([a]) == [a.nextIn]
    ensures KindsOf([a]) == [a.kind]
  {
    assert [a][1..] == [];
  }

  /** The pins of a two-element chain, spelled out. */
  lemma PinsOfShort(a: LogElement, b: LogElement)
    ensures PinsOf([a, b]) == [Pins(a.in1, a.in2, a.res), Pins(b.in1, b.in2, b.res)]
    ensures PortsOf([a, b]) == [a.nextIn, b.nextIn]
    ensures KindsOf([a, b]) == [a.kind, b.kind]
  {
    PinsOfOne(b);
    assert [a, b][1..] == [b];
  }

  /** The pins of a three-element chain, spelled out. */
  lemma PinsOfThree(a: LogElement, b: LogElement, c: LogElement)
    ensures PinsOf([a, b, c]) == [Pins(a.in1, a.in2, a.res), Pins(b.in1, b.in2, b.res), Pins(c.in1, c.in2, c.res)]
    ensures PortsOf([a, b, c]) == [a.nextIn, b.nextIn, c.nextIn]
    ensures KindsOf([a, b, c]) == [a.kind, b.kind, c.kind]
  {
    PinsOfShort(b, c);
    assert [a, b, c][1..] == [b, c];
  }

  /** A write into a three-element chain: each element stores what its predecessor computed. */
  lemma CascadeTriple(kinds: seq<GateKind>, pins: seq<Pins>, ports: seq<int>, port: int, v: bool)
    requires |kinds| == |pins| == |ports| == 3
    ensures var first := Store(kinds[0], pins[0], port, v);
      var second := Store(kinds[1], pins[1], ports[0], first.res);
      Cascade(kinds, pins, ports, port, v) == [first, second, Store(kinds[2], pins[2], ports[1], second.res)]
  {
    var first := Store(kinds[0], pins[0], port, v);
    CascadePair(kinds[1..], pins[1..], ports[1..], ports[0], first.res);
  }

  /** A write into a two-element chain: the head is stored, then its result is stored into the second. */
  lemma CascadePair(kinds: seq<GateKind>, pins: seq<Pins>, ports: seq<int>, port: int, v: bool)
    requires |kinds| == |pins| == |ports| == 2
    ensures var first := Store(kinds[0], pins[0], port, v);
      Cascade(kinds, pins, ports, port, v) == [first, Store(kinds[1], pins[1], ports[0], first.res)]
  {
    var first := Store(kinds[0], pins[0], port, v);
    assert Cascade(kinds[1..], pins[1..], ports[1..], ports[0], first.res) == [Store(kinds[1], pins[1], ports[0], first.res)];
  }

  /** The check after TNot: a fresh NOT gate given False on input 1 shows True. */
  method NotDemo() returns (shown: bool)
    ensures shown
  {
    var n := new LogElement(Not);
    PinsOfOne(n);
    n.SetIn1(false, [n]);
    PinsOfOne(n);
    shown := n.res;
  }

  /** One line of the NAND table: A into the AND gate's input 1, then B into its input 2. */
  method NandRound(elAnd: LogElement, elNot: LogElement, a: bool, b: bool) returns (shown: bool)
    requires IsChain([elAnd, elNot]) && elAnd.kind == And && elNot.kind == Not && elAnd.nextIn == 1
    modifies elAnd, elNot
    ensures IsChain([elAnd, elNot]) && elAnd.nextIn == 1
    ensures shown == !(a && b)
  {
    PinsOfShort(elAnd, elNot);
    CascadePair([And, Not], PinsOf([elAnd, elNot]), PortsOf([elAnd, elNot]), 1, a);
    elAnd.SetIn1(a, [elAnd, elNot]);
    PinsOfShort(elAnd, elNot);
    CascadePair([And, Not], PinsOf([elAnd, elNot]), PortsOf([elAnd, elNot]), 2, b);
    elAnd.SetIn2(b, [elAnd, elNot]);
    PinsOfShort(elAnd, elNot);
    shown := elNot.res;
  }

  /** The NAND table: an AND gate feeding input 1 of a NOT gate, over A, B in 0..1. */
  method NandDemo() returns (printed: seq<bool>)
    ensures printed == [true, true, true, false]
  {
    var elNot := new LogElement(Not);
    var elAnd := new LogElement(And);
    elAnd.Link(elNot, 1);
    printed := [];
    for a := 0 to 2
      invariant IsChain([elAnd, elNot]) && elAnd.nextIn == 1
      invariant printed == [true, true, true, false][..2 * a]
    {
      for b := 0 to 2
        invariant IsChain([elAnd, elNot]) && elAnd.nextIn == 1
        invariant printed == [true, true, true, false][..2 * a + b]
      {
        var shown := NandRound(elAnd, elNot, a == 1, b == 1);
        printed := printed + [shown];
      }
    }
  }

  /**
   * The XOR circuit, (A and not B) or (not A and b): NOT B feeds input 2 of
   * the first AND, NOT A input 1 of the second, and the two ANDs feed inputs 1
   * and 2 of the OR.
   */
  ghost predicate XorWired(notB: LogElement, notA: LogElement, andANotB: LogElement, andNotAB: LogElement, or: LogElement)
    reads notB, notA, andANotB, andNotAB, or
  {
    && notB.kind == Not && notA.kind == Not && andANotB.kind == And && andNotAB.kind == And && or.kind == Or
    && notB != notA && notB != andANotB && notB != andNotAB && notB != or
    && notA != andANotB && notA != andNotAB && notA != or
    && andANotB != andNotAB && andANotB != or && andNotAB != or
    && notB.next == andANotB && notB.nextIn == 2
    && notA.next == andNotAB && notA.nextIn == 1
    && andANotB.next == or && andANotB.nextIn == 1
    && andNotAB.next == or && andNotAB.nextIn == 2
    && or.next == null
  }

  /** The chains each input write of the XOR circuit runs down. */
  lemma XorChains(notB: LogElement, notA: LogElement, andANotB: LogElement, andNotAB: LogElement, or: LogElement)
    requires XorWired(notB, notA, andANotB, andNotAB, or)
    ensures IsChain([notB, andANotB, or]) && IsChain([notA, andNotAB, or])
    ensures IsChain([andANotB, or]) && IsChain([andNotAB, or])
  {
    assert [notB, andANotB, or][1..] == [andANotB, or];
    assert [notA, andNotAB, or][1..] == [andNotAB, or];
    assert [andANotB, or][1..] == [or] && [andNotAB, or][1..] == [or];
  }

  /** One line of the XOR table: B, A, A and B written in the order the source writes them. */
  method XorRound(notB: LogElement, notA: LogElement, andANotB: LogElement, andNotAB: LogElement, or: LogElement, a: bool, b: bool)
    returns (shown: bool)
    requires XorWired(notB, notA, andANotB, andNotAB, or)
    modifies notB, notA, andANotB, andNotAB, or
    ensures XorWired(notB, notA, andANotB, andNotAB, or)
    ensures shown == (a != b)
  {
    XorNegate(notB, notA, andANotB, andNotAB, or, a, b);
    shown := XorCombine(notB, notA, andANotB, andNotAB, or, a, b);
  }

  /** The first two writes: B into NOT B, A into NOT A; the ANDs receive not B and not A. */
  method XorNegate(notB: LogElement, notA: LogElement, andANotB: LogElement, andNotAB: LogElement, or: LogElement, a: bool, b: bool)
    requires XorWired(notB, notA, andANotB, andNotAB, or)
    modifies notB, notA, andANotB, andNotAB, or
    ensures XorWired(notB, notA, andANotB, andNotAB, or)
    ensures andANotB.in2 == !b && andNotAB.in1 == !a
  {
    NegateInto(notB, andANotB, or, b);
    assert XorWired(notB, notA, andANotB, andNotAB, or);
    NegateInto(notA, andNotAB, or, a);
  }

  /** v written into a NOT gate whose result runs on through an AND into the OR: the AND receives not v. */
  method NegateInto(not: LogElement, and: LogElement, or: LogElement, v: bool)
    requires IsChain([not, and, or]) && not.kind == Not
    modifies not, and, or
    ensures not.next == old(not.next) && not.nextIn == old(not.nextIn)
    ensures and.next == old(and.next) && and.nextIn == old(and.nextIn)
    ensures or.next == old(or.next) && or.nextIn == old(or.nextIn)
    ensures Input(Pins(and.in1, and.in2, and.res), not.nextIn) == !v
  {
    PinsOfThree(not, and, or);
    CascadeTriple([Not, and.kind, or.kind], PinsOf([not, and, or]), PortsOf([not, and, or]), 1, v);
    not.SetIn1(v, [not, and, or]);
    PinsOfThree(not, and, or);
  }

  /** The last two writes: A into the first AND, B into the second; the OR shows A xor B. */
  method XorCombine(notB: LogElement, notA: LogElement, andANotB: LogElement, andNotAB: LogElement, or: LogElement, a: bool, b: bool)
    returns (shown: bool)
    requires XorWired(notB, notA, andANotB, andNotAB, or)
    requires andANotB.in2 == !b && andNotAB.in1 == !a
    modifies andANotB, andNotAB, or
    ensures XorWired(notB, notA, andANotB, andNotAB, or)
    ensures shown == (a != b)
  {
    XorChains(notB, notA, andANotB, andNotAB, or);
    PinsOfShort(andANotB, or);
    CascadePair([And, Or], PinsOf([andANotB, or]), PortsOf([andANotB, or]), 1, a);
    andANotB.SetIn1(a, [andANotB, or]);
    PinsOfShort(andANotB, or);
    assert or.in1 == (a && !b) && andNotAB.in1 == !a;

    PinsOfShort(andNotAB, or);
    CascadePair([And, Or], PinsOf([andNotAB, or]), PortsOf([andNotAB, or]), 2, b);
    andNotAB.SetIn2(b, [andNotAB, or]);
    PinsOfShort(andNotAB, or);
    shown := or.res;
  }

  /** The XOR table over A, B in 0..1. */
  method XorDemo() returns (printed: seq<bool>)
    ensures printed == [false, true, true, false]
  {
    var notB := new LogElement(Not);
    var notA := new LogElement(Not);
    var andANotB := new LogElement(And);
    var andNotAB := new LogElement(And);
    var or := new LogElement(Or);
    notB.Link(andANotB, 2);
    notA.Link(andNotAB, 1);
    andNotAB.Link(or, 2);
    andANotB.Link(or, 1);
    printed := [];
    for a := 0 to 2
      invariant XorWired(notB, notA, andANotB, andNotAB, or)
      invariant printed == [false, true, true, false][..2 * a]
    {
      for b := 0 to 2
        invariant XorWired(notB, notA, andANotB, andNotAB, or)
        invariant printed == [false, true, true, false][..2 * a + b]
      {
        var shown := XorRound(notB, notA, andANotB, andNotAB, or, a == 1, b == 1);
        printed := printed + [shown];
      }
    }
  }
}
