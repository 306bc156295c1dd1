/**
 * The Wi-Fi event handler: round-robin selection over the NUMOFNETS
 * candidate networks, the `connected` flag and the CONNECTED_BIT of the
 * event group. NUMOFNETS comes from the network list and is the parameter
 * `n` here, at least 1.
 */
module Connectivity {

  /** The station events the handler reacts to; every other event id is ignored. */
  datatype Event = Start | GotIp | Disconnected | Other

  /**
   * The handler's globals, and two logs of its effects on collaborators:
   * how many times invalidate() was called, and the networks configured for
   * a connection attempt, in the order they were tried.
   */
  datatype NetState = NetState(
    currNet: nat, nextNet: nat,
    connected: bool, connectedBit: bool,
    invalidations: nat, attempts: seq<nat>)

  /** The state once Wi-Fi is initialised: nextNet = 0, not connected, nothing tried. */
  function Init(): NetState
  {
    NetState(0, 0, false, false, 0, [])
  }

  /** Both indices point into the network list, and the flag agrees with the event bit. */
  predicate Inv(n: nat, s: NetState)
  {
    s.currNet < n && s.nextNet < n && s.connected == s.connectedBit
  }

  /** Select the prepared network, configure and connect to it, prepare the one after it. */
  function Advance(n: nat, s: NetState): NetState
    requires n >= 1
  {
    s.(currNet := s.nextNet, nextNet := (s.nextNet + 1) % n, attempts := s.attempts + [s.nextNet])
  }

  /** One call of the event handler. */
  function Next(n: nat, s: NetState, e: Event): (r: NetState)
    requires n >= 1
    ensures Inv(n, s) ==> Inv(n, r)
    ensures e == Start ==> r.connected == s.connected && r.connectedBit == s.connectedBit
    ensures e == GotIp ==> r.connected && r.connectedBit && r.currNet == s.currNet && r.nextNet == s.nextNet && r.attempts == s.attempts
    ensures e == Disconnected ==> !r.connected && !r.connectedBit
    ensures e == Start || e == Disconnected ==> r.currNet == s.nextNet && r.attempts == s.attempts + [s.nextNet]
    ensures e == Start || e == Disconnected ==> r.nextNet == (s.nextNet + 1) % n
    ensures e == Other ==> r == s
    ensures r.invalidations == s.invalidations + (if e == GotIp || e == Disconnected then 1 else 0)
  {
    match e
    case Start => Advance(n, s)
    case GotIp => s.(connected := true, connectedBit := true, invalidations := s.invalidations + 1)
    case Disconnected =>
      Advance(n, s.(connected := false, connectedBit := false, invalidations := s.invalidations + 1))
    case Other => s
  }

  /** The handler applied to a history of events, oldest first. */
  function Run(n: nat, s: NetState, es: seq<Event>): NetState
    requires n >= 1
    decreases |es|
  {
    if es == [] then s else Next(n, Run(n, s, es[..|es| - 1]), es[|es| - 1])
  }

  /** How many events of the history start a connection attempt. */
  function Rotations(es: seq<Event>): nat
    decreases |es|
  {
    if es == [] then 0
    else Rotations(es[..|es| - 1]) + (if es[|es| - 1] == Start || es[|es| - 1] == Disconnected then 1 else 0)
  }

  /** How many events of the history are link transitions (got an address, lost the link). */
  function LinkEvents(es: seq<Event>): nat
    decreases |es|
  {
    if es == [] then 0
    else LinkEvents(es[..|es| - 1]) + (if es[|es| - 1] == GotIp || es[|es| - 1] == Disconnected then 1 else 0)
  }

  /** The first k entries of the infinite list 0, 1, ..., n - 1, 0, 1, ... */
  function Cycle(n: nat, k: nat): seq<nat>
    requires n >= 1
  {
    seq(k, i requires 0 <= i < k => i % n)
  }

  lemma MulAtLeast(d: int, n: int)
    requires d >= 1 && n >= 1
    ensures d * n >= n
  {
  }

  /** Euclidean remainder is determined by any quotient/remainder decomposition. */
  lemma ModUnique(x: int, n: int, q: int, r: int)
    requires n >= 1 && 0 <= r < n && x == q * n + r
    ensures x % n == r
  {
    var q', r' := x / n, x % n;
    assert x == q' * n + r';
    assert (q - q') * n == r' - r;
    if q - q' >= 1 {
      MulAtLeast(q - q', n);
    } else if q' - q >= 1 {
      MulAtLeast(q' - q, n);
    }
  }

  lemma ModSucc(a: nat, n: nat)
    requires n >= 1
    ensures (a % n + 1) % n == (a + 1) % n
  {
    var q, r := a / n, a % n;
    assert a == q * n + r;
    if r + 1 < n {
      ModUnique(a + 1, n, q, r + 1);
      ModUnique(r + 1, n, 0, r + 1);
    } else {
      assert a + 1 == (q + 1) * n;
      ModUnique(a + 1, n, q + 1, 0);
      ModUnique(r + 1, n, 1, 0);
    }
  }

  /**
   * From boot, after k events that start an attempt, nextNet = k mod n,
   * currNet = (k - 1) mod n, the networks were tried in the order
   * 0, 1, ..., n - 1, 0, ..., and every link transition invalidated once.
   */
  lemma {:induction false} RoundRobin(n: nat, es: seq<Event>)
    requires n >= 1
    ensures var s := Run(n, Init(), es);
      && Inv(n, s)
      && s.nextNet == Rotations(es) % n
      && (Rotations(es) > 0 ==> s.currNet == (Rotations(es) - 1) % n)
      && s.attempts == Cycle(n, Rotations(es))
      && s.invalidations == LinkEvents(es)
  {
    if es != [] {
      var front := es[..|es| - 1];
      RoundRobin(n, front);
      var k := Rotations(front);
      var e := es[|es| - 1];
      if e == Start || e == Disconnected {
        ModSucc(k, n);
        assert Cycle(n, k) + [k % n] == Cycle(n, k + 1);
      }
    }
  }

  /** m link losses in a row. */
  function Disconnects(m: nat): seq<Event>
  {
    seq(m, _ => Disconnected)
  }

  /** Consecutive link losses try the networks that follow nextNet, in list order, wrapping around. */
  lemma {:induction false} Failover(n: nat, s: NetState, m: nat)
    requires n >= 1 && Inv(n, s)
    ensures Run(n, s, Disconnects(m)).nextNet == (s.nextNet + m) % n
    ensures Run(n, s, Disconnects(m)).attempts
      == s.attempts + seq(m, j requires 0 <= j < m => (s.nextNet + j) % n)
  {
    if m > 0 {
      assert Disconnects(m)[..m - 1] == Disconnects(m - 1);
      Failover(n, s, m - 1);
      ModSucc(s.nextNet + (m - 1), n);
      assert s.nextNet + m - 1 + 1 == s.nextNet + m;
      var tail := seq(m - 1, j requires 0 <= j < m - 1 => (s.nextNet + j) % n);
      assert tail + [(s.nextNet + (m - 1)) % n] == seq(m, j requires 0 <= j < m => (s.nextNet + j) % n);
    }
  }

  /** An index below 2n, reduced modulo n, is that index minus n when it reaches n. */
  lemma Reduced(x: nat, n: nat)
    requires n >= 1 && x < 2 * n
    ensures x < n ==> x % n == x
    ensures n <= x ==> x % n == x - n
  {
    if x < n {
      ModUnique(x, n, 0, x);
    } else {
      ModUnique(x, n, 1, x - n);
    }
  }

  /** n link losses in a row try every network of the list exactly once. */
  lemma FailoverVisitsEveryNetwork(n: nat, s: NetState)
    requires n >= 1 && Inv(n, s)
    ensures |Run(n, s, Disconnects(n)).attempts| == |s.attempts| + n
    ensures forall i :: 0 <= i < n ==> i in Run(n, s, Disconnects(n)).attempts[|s.attempts|..]
    ensures var tried := Run(n, s, Disconnects(n)).attempts[|s.attempts|..];
      forall a, b :: 0 <= a < b < n ==> tried[a] != tried[b]
  {
    Failover(n, s, n);
    var tried := Run(n, s, Disconnects(n)).attempts[|s.attempts|..];
    forall a, b | 0 <= a < b < n
      ensures tried[a] != tried[b]
    {
      Reduced(s.nextNet + a, n);
      Reduced(s.nextNet + b, n);
    }
    forall i | 0 <= i < n
      ensures i in tried
    {
      var j := if s.nextNet <= i then i - s.nextNet else n + i - s.nextNet;
      assert tried[j] == (s.nextNet + j) % n;
      if s.nextNet <= i {
        ModUnique(i, n, 0, i);
      } else {
        ModUnique(n + i, n, 1, i);
      }
    }
  }

  /**
   * The handler's globals, updated in place by each event. The invalidate()
   * calls and the networks tried are kept as ghost logs.
   */
  class WifiManager {
    const n: nat
    var currNet: nat
    var nextNet: nat
    var connected: bool
    var connectedBit: bool
    ghost var invalidations: nat
    ghost var attempts: seq<nat>

    ghost predicate Valid()
      reads this
    {
      n >= 1 && Inv(n, State())
    }

    ghost function State(): NetState
      reads this
    {
      NetState(currNet, nextNet, connected, connectedBit, invalidations, attempts)
    }

    /** initWiFi: nextNet := 0 before the driver starts. */
    constructor (numOfNets: nat)
      requires numOfNets >= 1
      ensures Valid() && n == numOfNets && State() == Init()
    {
      n := numOfNets;
      currNet, nextNet := 0, 0;
      connected, connectedBit := false, false;
      invalidations, attempts := 0, [];
    }

    /** Connect to the network prepared last time and prepare the next one. */
    method SelectNext()
      requires Valid()
      modifies this`currNet, this`nextNet, this`attempts
      ensures Valid() && State() == Advance(n, old(State()))
    {
      currNet := nextNet;
      attempts := attempts + [currNet];
      nextNet := (nextNet + 1) % n;
    }

    method HandleEvent(e: Event)
      requires Valid()
      modifies this
      ensures Valid() && State() == Next(n, old(State()), e)
    {
      match e
      case Start =>
        SelectNext();
      case GotIp =>
        connected := true;
        invalidations := invalidations + 1;
        connectedBit := true;
      case Disconnected =>
        connected := false;
        invalidations := invalidations + 1;
        connectedBit := false;
        SelectNext();
      case Other =>
    }
  }
}
