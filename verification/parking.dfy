/** The admission/release state machine of the parking system.

    A `System` holds the free-spot counter of zone A, the entry register (plate
    to entry time, in the order plates were registered) and a payment table
    that no operation touches. Entry checks the counter, then the register by
    exact plate; exit scans the register in order and releases the first plate
    within edit distance two of the plate that was read.
 */
module Parking {
  import opened Levenshtein

  datatype Option<T> = None | Some(value: T)

  /** A wall-clock reading taken by the caller; it is only stored, never computed with. */
  datatype Timestamp = Timestamp(ticks: int)

  /** One register entry: a plate and the moment it entered. */
  datatype Entry = Entry(plate: string, entered: Timestamp)

  /** The free-spot table only ever holds zone A (the constructor creates that one key and
      nothing adds another), so it is a single counter here. */
  datatype System = System(freeA: int, register: seq<Entry>, payments: map<string, bool>)

  /** What an operation answers: whether the barrier opens, and the message shown. */
  datatype Reply = Reply(ok: bool, message: string)

  datatype Step = Step(next: System, reply: Reply)

  /** Entry either takes a step, or fails with a key error when asked about a zone the
      free-spot table does not hold; nothing has changed when it fails. */
  datatype EntryResult = Done(step: Step) | KeyError(zone: string)

  /** The only zone, and the zone an entry goes to when the caller names none. */
  const ZoneA: string := "A"

  /** Capacity of zone A when the system is built without an explicit one. */
  const DefaultCapacity: int := 20

  /** Largest edit distance at which a registered plate is taken to match the plate read at exit. */
  const Tolerance: nat := 2

  const Admitted: string := "Wjazd dozwolony"
  const AlreadyInside: string := "Pojazd już na parkingu"
  const NoSpace: string := "Brak miejsc"
  const ThanksPrefix: string := "Dziękujemy "
  const TicketNotFound: string := "Bilet nieznaleziony/nieopłacony"

  /** The registered plates, in register order. */
  function Plates(reg: seq<Entry>): (ps: seq<string>)
    ensures |ps| == |reg|
    ensures forall i :: 0 <= i < |reg| ==> ps[i] == reg[i].plate
  {
    if |reg| == 0 then [] else [reg[0].plate] + Plates(reg[1..])
  }

  /** The register holds at most one entry per plate, as a dictionary keyed by plate does. */
  ghost predicate PlatesDistinct(reg: seq<Entry>)
  {
    forall i, j :: 0 <= i < j < |reg| ==> reg[i].plate != reg[j].plate
  }

  /** Conservation of spots: free spots plus registered vehicles equal the capacity the
      system was built with; the counter only goes negative when it started so and
      nobody got in; plates are distinct; the payment table stays empty. */
  ghost predicate Invariant(s: System, capacity: int)
  {
    && s.freeA + |s.register| == capacity
    && (s.freeA >= 0 || |s.register| == 0)
    && PlatesDistinct(s.register)
    && s.payments == map[]
  }

  /** A fresh system with `capacity` free spots in zone A. */
  function Init(capacity: int): (s: System)
    ensures Invariant(s, capacity)
    ensures s.freeA == capacity && |s.register| == 0
  {
    System(capacity, [], map[])
  }

  /** Admission of `plate` into `zone` at time `now`. */
  function ProcessEntry(s: System, plate: string, zone: string, now: Timestamp): (r: EntryResult)
    ensures r.KeyError? <==> zone != ZoneA
    ensures r.KeyError? ==> r.zone == zone
    ensures r.Done? ==> (r.step.reply.ok <==> s.freeA > 0)
    ensures r.Done? && r.step.reply.ok ==> plate in Plates(r.step.next.register)
    ensures r.Done? ==> r.step.next.freeA + |r.step.next.register| == s.freeA + |s.register|
    ensures r.Done? ==> r.step.next.payments == s.payments
    ensures r.Done? ==> (r.step.next != s <==> s.freeA > 0 && plate !in Plates(s.register))
    ensures r.Done? && r.step.next != s ==>
              && r.step.next.register == s.register + [Entry(plate, now)]
              && r.step.next.freeA == s.freeA - 1
              && r.step.reply.message == Admitted
    ensures r.Done? && s.freeA > 0 && plate in Plates(s.register) ==> r.step.reply.message == AlreadyInside
    ensures r.Done? && s.freeA <= 0 ==> r.step.reply.message == NoSpace
  {
    if zone != ZoneA then KeyError(zone)
    else if s.freeA > 0 then
      if plate !in Plates(s.register) then
        var reg := s.register + [Entry(plate, now)];
        assert Plates(reg)[|reg| - 1] == plate;
        Done(Step(s.(freeA := s.freeA - 1, register := reg), Reply(true, Admitted)))
      else
        Done(Step(s, Reply(true, AlreadyInside)))
    else
      Done(Step(s, Reply(false, NoSpace)))
  }

  /** Index `i` holds the first registered plate within the tolerance of `query`; at most
      one index can, since every earlier plate is farther away. */
  ghost predicate IsFirstMatch(reg: seq<Entry>, query: string, i: int)
  {
    && 0 <= i < |reg|
    && EditDistance(query, reg[i].plate) <= Tolerance
    && forall j :: 0 <= j < i ==> EditDistance(query, reg[j].plate) > Tolerance
  }

  /** The register scan of exit: the index of the first plate within the tolerance, if any. */
  function FirstMatch(reg: seq<Entry>, query: string): (r: Option<nat>)
    ensures r.Some? ==> IsFirstMatch(reg, query, r.value)
    ensures r.None? ==> forall j :: 0 <= j < |reg| ==> EditDistance(query, reg[j].plate) > Tolerance
  {
    if |reg| == 0 then None
    else if EditDistance(query, reg[0].plate) <= Tolerance then Some(0)
    else
      match FirstMatch(reg[1..], query)
      case None => None
      case Some(i) => Some(i + 1)
  }

  /** The register with the entry for `p` popped; every other entry keeps its place. */
  function Without(reg: seq<Entry>, p: string): (r: seq<Entry>)
    ensures |r| <= |reg|
  {
    if |reg| == 0 then []
    else if reg[0].plate == p then Without(reg[1..], p)
    else [reg[0]] + Without(reg[1..], p)
  }

  /** Release at exit of the vehicle whose plate was read as `query`. */
  function ProcessExit(s: System, query: string): (r: Step)
    ensures r.next.payments == s.payments
    ensures r.reply.ok <==> exists i :: IsFirstMatch(s.register, query, i) && s.register[i].plate != ""
    ensures !r.reply.ok ==> r.next == s && r.reply.message == TicketNotFound
    ensures forall i :: IsFirstMatch(s.register, query, i) && s.register[i].plate != "" ==>
              && r.next.freeA == s.freeA + 1
              && r.next.register == Without(s.register, s.register[i].plate)
              && r.reply.message == ThanksPrefix + s.register[i].plate
  {
    match FirstMatch(s.register, query)
    case Some(i) =>
      var found := s.register[i].plate;
      if found != "" then
        Step(System(s.freeA + 1, Without(s.register, found), s.payments), Reply(true, ThanksPrefix + found))
      else
        Step(s, Reply(false, TicketNotFound))
    case None =>
      Step(s, Reply(false, TicketNotFound))
  }

  /** The exit scan as a loop over the register, stopping at the first plate within the
      tolerance; distances come from the table-based computation. */
  method FindFirstMatch(reg: seq<Entry>, query: string) returns (found: Option<string>)
    ensures found.None? <==> forall j :: 0 <= j < |reg| ==> EditDistance(query, reg[j].plate) > Tolerance
    ensures found.Some? ==> exists i :: IsFirstMatch(reg, query, i) && found.value == reg[i].plate
  {
    found := None;
    var k := 0;
    while k < |reg|
      invariant 0 <= k <= |reg|
      invariant found.None?
      invariant forall j :: 0 <= j < k ==> EditDistance(query, reg[j].plate) > Tolerance
    {
      var d := ComputeEditDistance(query, reg[k].plate);
      if d <= Tolerance {
        assert IsFirstMatch(reg, query, k);
        return Some(reg[k].plate);
      }
      k := k + 1;
    }
  }

  // ----- Register lemmas -----

  /** The exit answer when the first match `i` holds a non-empty plate. */
  lemma ExitReleasesFirstMatch(s: System, query: string, i: nat)
    requires IsFirstMatch(s.register, query, i) && s.register[i].plate != ""
    ensures ProcessExit(s, query).reply == Reply(true, ThanksPrefix + s.register[i].plate)
    ensures ProcessExit(s, query).next.register == Without(s.register, s.register[i].plate)
  {
    var r := ProcessExit(s, query);
    assert r.reply.ok;
  }

  /** Popping `p` keeps exactly the entries whose plate is not `p`. */
  lemma {:induction false} WithoutMembers(reg: seq<Entry>, p: string)
    ensures forall e :: e in Without(reg, p) <==> e in reg && e.plate != p
  {
    if |reg| > 0 {
      WithoutMembers(reg[1..], p);
      assert reg == [reg[0]] + reg[1..];
    }
  }

  /** Popping a plate that is not registered leaves the register as it was. */
  lemma {:induction false} WithoutAbsent(reg: seq<Entry>, p: string)
    requires forall j :: 0 <= j < |reg| ==> reg[j].plate != p
    ensures Without(reg, p) == reg
  {
    if |reg| > 0 {
      WithoutAbsent(reg[1..], p);
      assert reg == [reg[0]] + reg[1..];
    }
  }

  /** With distinct plates, popping the plate at index `i` removes exactly that entry. */
  lemma {:induction false} WithoutDistinct(reg: seq<Entry>, i: nat)
    requires PlatesDistinct(reg) && i < |reg|
    ensures Without(reg, reg[i].plate) == reg[..i] + reg[i + 1..]
  {
    var p := reg[i].plate;
    var tail := reg[1..];
    if i == 0 {
      forall j | 0 <= j < |tail|
        ensures tail[j].plate != p
      {
        assert tail[j] == reg[j + 1];
      }
      WithoutAbsent(tail, p);
      assert reg[..0] + reg[1..] == tail;
    } else {
      forall a, b | 0 <= a < b < |tail|
        ensures tail[a].plate != tail[b].plate
      {
        assert tail[a] == reg[a + 1] && tail[b] == reg[b + 1];
      }
      assert tail[i - 1] == reg[i];
      assert reg[0].plate != p;
      WithoutDistinct(tail, i - 1);
      assert reg[..i] == [reg[0]] + tail[..i - 1];
      assert reg[i + 1..] == tail[i..];
    }
  }

  /** Removing one entry keeps the remaining plates distinct. */
  lemma RemovalKeepsDistinct(reg: seq<Entry>, i: nat)
    requires PlatesDistinct(reg) && i < |reg|
    ensures PlatesDistinct(reg[..i] + reg[i + 1..])
  {
    var r := reg[..i] + reg[i + 1..];
    forall a, b | 0 <= a < b < |r|
      ensures r[a].plate != r[b].plate
    {
      var a' := if a < i then a else a + 1;
      var b' := if b < i then b else b + 1;
      assert r[a] == reg[a'] && r[b] == reg[b'];
    }
  }

  /** A successful exit releases exactly the first matching entry: with distinct plates the
      register loses that one entry, keeps all others in order, and the counter goes up by one. */
  lemma ExitRemovesExactlyFirstMatch(s: System, query: string, i: nat)
    requires PlatesDistinct(s.register)
    requires IsFirstMatch(s.register, query, i) && s.register[i].plate != ""
    ensures ProcessExit(s, query).reply.ok
    ensures ProcessExit(s, query).next.register == s.register[..i] + s.register[i + 1..]
    ensures ProcessExit(s, query).next.freeA == s.freeA + 1
    ensures ProcessExit(s, query).reply.message == ThanksPrefix + s.register[i].plate
  {
    WithoutDistinct(s.register, i);
  }

  // ----- The conservation invariant -----

  /** Every completed entry keeps the invariant. */
  lemma EntryPreservesInvariant(s: System, capacity: int, plate: string, zone: string, now: Timestamp)
    requires Invariant(s, capacity)
    ensures ProcessEntry(s, plate, zone, now).Done? ==> Invariant(ProcessEntry(s, plate, zone, now).step.next, capacity)
  {
    var r := ProcessEntry(s, plate, zone, now);
    if r.Done? && r.step.next != s {
      var reg := s.register;
      forall j | 0 <= j < |reg|
        ensures reg[j].plate != plate
      {
        assert Plates(reg)[j] == reg[j].plate;
      }
    }
  }

  /** Every exit keeps the invariant. */
  lemma ExitPreservesInvariant(s: System, capacity: int, query: string)
    requires Invariant(s, capacity)
    ensures Invariant(ProcessExit(s, query).next, capacity)
  {
    var r := ProcessExit(s, query);
    if r.reply.ok {
      var i :| IsFirstMatch(s.register, query, i) && s.register[i].plate != "";
      ExitRemovesExactlyFirstMatch(s, query, i);
      RemovalKeepsDistinct(s.register, i);
    }
  }

  /** Under the invariant with a non-negative capacity, the counter stays within [0, capacity]
      and the register never holds more vehicles than there are spots. */
  lemma InvariantBounds(s: System, capacity: int)
    requires Invariant(s, capacity) && capacity >= 0
    ensures 0 <= s.freeA <= capacity
    ensures |s.register| <= capacity
  {
  }

  /** An event as the calling layer delivers it: a plate read at the entry or at the exit camera. */
  datatype Event = Arrive(plate: string, zone: string, at: Timestamp) | Depart(plate: string)

  /** The state after one event; an entry that raises leaves the state as it was. */
  function Apply(s: System, e: Event): System
  {
    match e
    case Arrive(plate, zone, at) =>
      (match ProcessEntry(s, plate, zone, at)
       case Done(step) => step.next
       case KeyError(_) => s)
    case Depart(plate) => ProcessExit(s, plate).next
  }

  /** The state after a sequence of events, applied in order. */
  function Run(s: System, events: seq<Event>): System
    decreases events
  {
    if |events| == 0 then s else Run(Apply(s, events[0]), events[1..])
  }

  /** Any sequence of entries and exits from a fresh system keeps the invariant, so occupancy
      never exceeds capacity and plates in the register stay distinct. */
  lemma {:induction false} RunPreservesInvariant(s: System, capacity: int, events: seq<Event>)
    requires Invariant(s, capacity)
    ensures Invariant(Run(s, events), capacity)
    decreases events
  {
    if |events| > 0 {
      match events[0] {
        case Arrive(plate, zone, at) => EntryPreservesInvariant(s, capacity, plate, zone, at);
        case Depart(plate) => ExitPreservesInvariant(s, capacity, plate);
      }
      RunPreservesInvariant(Apply(s, events[0]), capacity, events[1..]);
    }
  }

  /** Occupancy bound for every reachable state. */
  lemma {:induction false} OccupancyNeverExceedsCapacity(capacity: int, events: seq<Event>)
    requires capacity >= 0
    ensures 0 <= Run(Init(capacity), events).freeA <= capacity
    ensures |Run(Init(capacity), events).register| <= capacity
    ensures PlatesDistinct(Run(Init(capacity), events).register)
    ensures Run(Init(capacity), events).payments == map[]
  {
    RunPreservesInvariant(Init(capacity), capacity, events);
    InvariantBounds(Run(Init(capacity), events), capacity);
  }

  /** The system built with the default capacity never holds more than 20 vehicles and
      never shows a negative count of free spots. */
  lemma DefaultSystemBounds(events: seq<Event>)
    ensures 0 <= Run(Init(DefaultCapacity), events).freeA <= DefaultCapacity
    ensures |Run(Init(DefaultCapacity), events).register| <= DefaultCapacity
  {
    OccupancyNeverExceedsCapacity(DefaultCapacity, events);
  }

  // ----- Entry properties -----

  /** Entering again with the same plate changes nothing: the vehicle is already inside, or
      there is no free spot and the answer is a refusal. */
  lemma RepeatedEntryIsIdempotent(s: System, plate: string, zone: string, now: Timestamp, later: Timestamp)
    requires ProcessEntry(s, plate, zone, now).Done?
    ensures var s1 := ProcessEntry(s, plate, zone, now).step.next;
            var r2 := ProcessEntry(s1, plate, zone, later);
            && r2.Done?
            && r2.step.next == s1
            && (s1.freeA > 0 ==> r2.step.reply == Reply(true, AlreadyInside))
            && (s1.freeA <= 0 ==> r2.step.reply == Reply(false, NoSpace))
  {
  }

  // ----- Exit properties -----

  /** Reading exactly the plate registered at index `k` opens the barrier, provided no empty
      plate registered before it is within the tolerance of the reading. The plate released
      is the first match, which lies at or before `k`; it is the read plate itself when no
      earlier plate is within the tolerance. */
  lemma ExactPlateLeaves(s: System, query: string, k: nat)
    requires k < |s.register| && s.register[k].plate == query && query != ""
    requires forall j :: 0 <= j < k && s.register[j].plate == "" ==> |query| > Tolerance
    ensures ProcessExit(s, query).reply.ok
    ensures exists i :: 0 <= i <= k && IsFirstMatch(s.register, query, i)
                        && ProcessExit(s, query).reply.message == ThanksPrefix + s.register[i].plate
    ensures (forall j :: 0 <= j < k ==> EditDistance(query, s.register[j].plate) > Tolerance) ==>
              ProcessExit(s, query).reply.message == ThanksPrefix + query
  {
    var reg := s.register;
    EditDistanceSelf(query);
    assert EditDistance(query, reg[k].plate) <= Tolerance;
    var i := FirstMatch(reg, query).value;
    assert i <= k;
    if reg[i].plate == "" {
      EditDistanceLengthBounds(query, reg[i].plate);
      assert false;
    }
    ExitReleasesFirstMatch(s, query, i);
    if forall j :: 0 <= j < k ==> EditDistance(query, reg[j].plate) > Tolerance {
      assert i == k;
    }
  }

  /** An entry with the empty plate is never released: an exit either fails or removes some
      other plate, so the empty plate stays registered and holds its spot. */
  lemma EmptyPlateNeverLeaves(s: System, query: string)
    requires "" in Plates(s.register)
    ensures "" in Plates(ProcessExit(s, query).next.register)
  {
    var reg := s.register;
    var k :| 0 <= k < |reg| && Plates(reg)[k] == "";
    var r := ProcessExit(s, query);
    if r.reply.ok {
      var i :| IsFirstMatch(reg, query, i) && reg[i].plate != "";
      assert r.next.register == Without(reg, reg[i].plate);
      assert reg[k].plate == "" && reg[k] in reg;
      WithoutMembers(reg, reg[i].plate);
      assert reg[k] in r.next.register;
      var m :| 0 <= m < |r.next.register| && r.next.register[m] == reg[k];
      assert Plates(r.next.register)[m] == "";
    }
  }

  /** An empty plate hides a later exact match: when "" is registered at index `i`, every
      plate before it is farther than the tolerance from the reading, and the reading has at
      most two characters, then reading the plate registered at a later index `j` is refused. */
  lemma EmptyPlateHidesLaterMatch(s: System, query: string, i: nat, j: nat)
    requires i < j < |s.register|
    requires s.register[i].plate == "" && s.register[j].plate == query
    requires |query| <= Tolerance
    requires forall m :: 0 <= m < i ==> EditDistance(query, s.register[m].plate) > Tolerance
    ensures ProcessExit(s, query) == Step(s, Reply(false, TicketNotFound))
  {
    var reg := s.register;
    assert EditDistance(query, reg[i].plate) <= Tolerance by {
      EditDistanceLengthBounds(query, reg[i].plate);
    }
    assert IsFirstMatch(reg, query, i);
    forall m | IsFirstMatch(reg, query, m)
      ensures reg[m].plate == ""
    {
      assert m == i;
    }
    var r := ProcessExit(s, query);
    assert !r.reply.ok;
  }

  /** Exit takes the first plate within the tolerance, not the closest one: when the first
      match `i` comes before the entry `j` of the read plate itself, reading that plate
      exactly releases the plate at `i`, although the plate at `j` is strictly closer, and the
      read plate stays registered. */
  lemma FirstMatchNotClosest(s: System, query: string, i: nat, j: nat)
    requires PlatesDistinct(s.register)
    requires IsFirstMatch(s.register, query, i) && i < j < |s.register|
    requires s.register[i].plate != "" && s.register[j].plate == query
    ensures EditDistance(query, s.register[j].plate) < EditDistance(query, s.register[i].plate)
    ensures ProcessExit(s, query).reply == Reply(true, ThanksPrefix + s.register[i].plate)
    ensures ProcessExit(s, query).next.register == s.register[..i] + s.register[i + 1..]
    ensures query in Plates(ProcessExit(s, query).next.register)
  {
    var reg := s.register;
    assert reg[i].plate != query;
    EditDistanceSelf(query);
    EditDistanceZeroIff(query, reg[i].plate);
    ExitReleasesFirstMatch(s, query, i);
    WithoutDistinct(reg, i);
    RemovalKeepsLater(reg, i, j);
  }

  /** Removing an entry keeps the plate of every later entry registered. */
  lemma RemovalKeepsLater(reg: seq<Entry>, i: nat, j: nat)
    requires i < j < |reg|
    ensures reg[j].plate in Plates(reg[..i] + reg[i + 1..])
  {
    var next := reg[..i] + reg[i + 1..];
    assert next[j - 1] == reg[j];
    assert Plates(next)[j - 1] == reg[j].plate;
  }

  /** One spot: a second car is refused while the first is inside; the first leaves on a
      reading within the tolerance of its plate; then the second car gets in. */
  lemma SingleSpotScenario(first: string, second: string, reading: string, t1: Timestamp, t2: Timestamp, t3: Timestamp)
    requires first != ""
    requires EditDistance(reading, first) <= Tolerance
    ensures var e1 := ProcessEntry(Init(1), first, ZoneA, t1);
            var e2 := ProcessEntry(e1.step.next, second, ZoneA, t2);
            var x := ProcessExit(e2.step.next, reading);
            var e3 := ProcessEntry(x.next, second, ZoneA, t3);
            && e1.Done? && e1.step.reply == Reply(true, Admitted) && e1.step.next.freeA == 0
            && e2.Done? && e2.step.reply == Reply(false, NoSpace) && e2.step.next.freeA == 0
            && x.reply == Reply(true, ThanksPrefix + first) && x.next.freeA == 1
            && e3.Done? && e3.step.reply == Reply(true, Admitted) && e3.step.next.freeA == 0
  {
    var s1 := System(0, [Entry(first, t1)], map[]);
    assert ProcessEntry(Init(1), first, ZoneA, t1) == Done(Step(s1, Reply(true, Admitted)));
    assert ProcessEntry(s1, second, ZoneA, t2) == Done(Step(s1, Reply(false, NoSpace)));
    assert IsFirstMatch(s1.register, reading, 0);
    WithoutDistinct(s1.register, 0);
    var s2 := System(1, [], map[]);
    assert ProcessExit(s1, reading) == Step(s2, Reply(true, ThanksPrefix + first));
  }
}
