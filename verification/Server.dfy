/** The connection table of mumux/server.c: accepting into the first free slot, and
    the pass of wby_update that closes dead connections and moves the others up. */
module Server {
  import opened Options

  const INVALID_SOCKET: int := -1

  /** The fields of a connection slot that the table works with. */
  datatype Slot = Slot(alive: bool, unread: bool, websocket: bool, socket: int)

  /** What an update does to the outside: the ws_closed callback, and close(2). */
  datatype Event = WsClosed(slot: Slot) | SocketClosed(socket: int)

  // ---------- the pass over the table ----------

  function Kept(s: Slot): seq<Slot> {
    if s.alive then [s] else []
  }

  function Living(slots: seq<Slot>): (r: seq<Slot>)
    ensures |r| <= |slots|
  {
    if slots == [] then [] else Kept(slots[0]) + Living(slots[1..])
  }

  /** What passing one slot causes: for a dead one the callback while it is still
      flagged as a websocket, then the close of its socket unless that is closed
      already. */
  function Farewell(s: Slot): seq<Event> {
    if s.alive then []
    else
      (if s.websocket then [WsClosed(s)] else [])
      + (if s.socket != INVALID_SOCKET then [SocketClosed(s.socket)] else [])
  }

  function Farewells(slots: seq<Slot>): seq<Event> {
    if slots == [] then [] else Farewell(slots[0]) + Farewells(slots[1..])
  }

  lemma {:induction false} PassSplits(a: seq<Slot>, s: Slot)
    ensures Living(a + [s]) == Living(a) + Kept(s)
    ensures Farewells(a + [s]) == Farewells(a) + Farewell(s)
  {
    hide Kept, Farewell;
    if a == [] {
      assert [s][1..] == [] && a + [s] == [s];
      assert Kept(s) + [] == Kept(s) && Farewell(s) + [] == Farewell(s);
    } else {
      PassSplits(a[1..], s);
      assert (a + [s])[1..] == a[1..] + [s];
      assert Kept(a[0]) + (Living(a[1..]) + Kept(s)) == Kept(a[0]) + Living(a[1..]) + Kept(s);
      assert Farewell(a[0]) + (Farewells(a[1..]) + Farewell(s)) == Farewell(a[0]) + Farewells(a[1..]) + Farewell(s);
    }
  }

  /** Every slot is kept, or else said farewell to once, with the callback exactly
      when it is a websocket. */
  lemma {:induction false} KeptOrRemoved(slots: seq<Slot>, s: Slot)
    ensures multiset(Living(slots))[s] == if s.alive then multiset(slots)[s] else 0
    ensures multiset(Farewells(slots))[WsClosed(s)] == if s.websocket && !s.alive then multiset(slots)[s] else 0
  {
    hide Kept, Farewell;
    if slots != [] {
      KeptOrRemoved(slots[1..], s);
      OneSlot(slots[0], s);
      assert slots == [slots[0]] + slots[1..];
    }
  }

  lemma OneSlot(x: Slot, s: Slot)
    ensures multiset(Kept(x))[s] == if s.alive && x == s then 1 else 0
    ensures multiset(Farewell(x))[WsClosed(s)] == if s.websocket && !s.alive && x == s then 1 else 0
  {}

  /** How often a socket belongs to a dead slot. */
  function DeadUses(slots: seq<Slot>, socket: int): nat {
    if slots == [] then 0
    else (if !slots[0].alive && slots[0].socket == socket then 1 else 0) + DeadUses(slots[1..], socket)
  }

  lemma {:induction false} ClosedPerSlot(slots: seq<Slot>, socket: int)
    requires socket != INVALID_SOCKET
    ensures multiset(Farewells(slots))[SocketClosed(socket)] == DeadUses(slots, socket)
  {
    hide Farewell;
    if slots != [] {
      ClosedPerSlot(slots[1..], socket);
      OneClose(slots[0], socket);
    }
  }

  lemma OneClose(x: Slot, socket: int)
    requires socket != INVALID_SOCKET
    ensures multiset(Farewell(x))[SocketClosed(socket)] == if !x.alive && x.socket == socket then 1 else 0
  {}

  /** The pass after `n` slots: who stays so far, who is still to come, what was said. */
  ghost predicate Passed(front: seq<Slot>, back: seq<Slot>, said: seq<Event>, slots: seq<Slot>, n: nat) {
    && n <= |slots|
    && front == Living(slots[..n]) && back == slots[n..]
    && said == Farewells(slots[..n])
  }

  lemma PassStarts(slots: seq<Slot>)
    ensures Passed([], slots, [], slots, 0)
  {}

  lemma PassOne(front: seq<Slot>, back: seq<Slot>, said: seq<Event>, slots: seq<Slot>, n: nat)
    requires Passed(front, back, said, slots, n) && back != []
    ensures Passed(front + Kept(back[0]), back[1..], said + Farewell(back[0]), slots, n + 1)
  {
    hide Living, Farewells, Kept, Farewell;
    assert slots[..n + 1] == slots[..n] + [slots[n]];
    assert slots[n..][1..] == slots[n + 1..];
    PassSplits(slots[..n], slots[n]);
  }

  lemma PassEnds(front: seq<Slot>, said: seq<Event>, slots: seq<Slot>, n: nat)
    requires Passed(front, [], said, slots, n)
    ensures front == Living(slots) && said == Farewells(slots)
  {
    assert slots[..n] == slots;
  }

  lemma KeepOrSay(s: Slot)
    ensures Kept(s) == if s.alive then [s] else []
    ensures s.alive ==> Farewell(s) == []
  {}

  // ---------- accepting ----------

  /** The answers of the kernel to one round of the accept loop: a descriptor, and
      whether it could be configured. */
  datatype Arrival = Arrival(socket: int, configured: bool)

  /** The table after the accept loop: every configured arrival takes the next slot;
      the first arrival that fails to configure takes one too, dead, and leaves the
      slot's former socket in it. */
  function Accepted(con: seq<Slot>, count: nat, arrivals: seq<Arrival>): (r: (seq<Slot>, nat))
    requires count <= |con|
    ensures |r.0| == |con| && count <= r.1 <= |con|
    ensures r.0[..count] == con[..count]
    decreases |arrivals|
  {
    if count == |con| || arrivals == [] || arrivals[0].socket <= 0 then (con, count)
    else if !arrivals[0].configured then
      (con[count := Slot(false, true, false, con[count].socket)], count + 1)
    else
      var con' := con[count := Slot(true, true, false, arrivals[0].socket)];
      assert con'[..count + 1][..count] == con[..count];
      Accepted(con', count + 1, arrivals[1..])
  }

  lemma AcceptedOne(con: seq<Slot>, count: nat, arrivals: seq<Arrival>)
    requires count < |con| && arrivals != []
    ensures
      var (con', count') := Accepted(con, count, [arrivals[0]]);
      Accepted(con, count, arrivals)
      == if arrivals[0].socket > 0 && arrivals[0].configured then Accepted(con', count', arrivals[1..])
         else (con', count')
  {}

  /** memmove of the slots behind `i` one place up: the vacated last slot keeps a
      copy of what was in it. */
  function Shifted(con: seq<Slot>, i: nat, count: nat): (r: seq<Slot>)
    requires i < count <= |con|
    ensures |r| == |con|
  {
    con[..i] + con[i + 1..count] + con[count - 1..]
  }

  lemma ShiftedAt(con: seq<Slot>, i: nat, count: nat, k: nat)
    requires i < count <= |con| && k < |con|
    ensures Shifted(con, i, count)[k] == if i <= k < count - 1 then con[k + 1] else con[k]
  {}

  // ---------- whose sockets are closed ----------

  /** No two slots share an open socket. */
  ghost predicate Apart(slots: seq<Slot>) {
    forall i, j | 0 <= i < j < |slots| :: slots[i].socket == slots[j].socket ==> slots[i].socket == INVALID_SOCKET
  }

  lemma {:induction false} DeadUsesOf(slots: seq<Slot>, socket: int)
    ensures DeadUses(slots, socket) > 0 <==> exists s <- slots :: !s.alive && s.socket == socket
  {
    if slots != [] {
      DeadUsesOf(slots[1..], socket);
      assert forall s <- slots :: s == slots[0] || s in slots[1..];
      assert forall s <- slots[1..] :: s in slots;
    }
  }

  /** The pass closes a survivor's socket exactly when a dead slot holds it too. */
  lemma SurvivorSparedIff(slots: seq<Slot>, s: Slot)
    requires s in slots && s.alive && s.socket != INVALID_SOCKET
    ensures SocketClosed(s.socket) !in Farewells(slots)
       <==> forall d <- slots :: d.alive || d.socket != s.socket
  {
    ClosedPerSlot(slots, s.socket);
    DeadUsesOf(slots, s.socket);
  }

  /** The kernel hands out descriptors that are not open: none that a slot holds, and no
      two the same. */
  ghost predicate NewDescriptors(slots: seq<Slot>, arrivals: seq<Arrival>) {
    && (forall a <- arrivals, s <- slots :: a.socket > 0 ==> a.socket != s.socket)
    && (forall i, j | 0 <= i < j < |arrivals| :: arrivals[i].socket > 0 ==> arrivals[i].socket != arrivals[j].socket)
  }

  function TakenBy(a: Arrival): Slot {
    Slot(true, true, false, a.socket)
  }

  /** How many arrivals are accepted before the first that cannot be configured, if the
      loop comes to one. */
  function Failing(room: nat, arrivals: seq<Arrival>): (k: Option<nat>)
    ensures k.Some? ==> k.value < room && k.value < |arrivals|
  {
    if room == 0 || arrivals == [] || arrivals[0].socket <= 0 then None
    else if !arrivals[0].configured then Some(0)
    else
      match Failing(room - 1, arrivals[1..])
      case None => None
      case Some(k) => Some(k + 1)
  }

  /** What the accept loop closes: the descriptor that it could not configure. */
  function Refused(room: nat, arrivals: seq<Arrival>): seq<Event> {
    match Failing(room, arrivals)
    case None => []
    case Some(k) => [SocketClosed(arrivals[k].socket)]
  }

  lemma RefusedOne(room: nat, arrivals: seq<Arrival>)
    requires arrivals != []
    ensures
      var a := arrivals[0];
      && Refused(room, [a]) == (if room > 0 && a.socket > 0 && !a.configured then [SocketClosed(a.socket)] else [])
      && Refused(room, arrivals)
         == if room > 0 && a.socket > 0 && a.configured then Refused(room - 1, arrivals[1..]) else Refused(room, [a])
  {
    assert [arrivals[0]][1..] == [];
  }

  lemma NoneRefused(room: nat, arrivals: seq<Arrival>)
    requires forall a <- arrivals :: a.configured
    ensures Refused(room, arrivals) == []
  {
    if room > 0 && arrivals != [] && arrivals[0].socket > 0 { NoneRefused(room - 1, arrivals[1..]); }
  }

  /** The stale socket in the slot that the failing arrival takes does no harm. */
  ghost predicate Harmless(con: seq<Slot>, count: nat, arrivals: seq<Arrival>, k: nat)
    requires count + k < |con| && k <= |arrivals|
  {
    var stale := con[count + k].socket;
    || stale == INVALID_SOCKET
    || ((forall s <- con[..count] :: s.socket != stale) && (forall a <- arrivals[..k] :: a.socket != stale))
  }

  lemma ApartWith(slots: seq<Slot>, s: Slot)
    requires Apart(slots)
    ensures Apart(slots + [s]) <==> s.socket == INVALID_SOCKET || forall t <- slots :: t.socket != s.socket
  {
    var all := slots + [s];
    assert all[|slots|] == s && forall i | 0 <= i < |slots| :: all[i] == slots[i];
    if Apart(all) && s.socket != INVALID_SOCKET {
      assert forall i | 0 <= i < |slots| :: all[i].socket != all[|slots|].socket;
      assert forall t <- slots :: exists i :: 0 <= i < |slots| && all[i] == t;
    }
  }

  lemma NewDescriptorsOn(slots: seq<Slot>, arrivals: seq<Arrival>)
    requires NewDescriptors(slots, arrivals) && arrivals != [] && arrivals[0].socket > 0
    ensures NewDescriptors(slots + [TakenBy(arrivals[0])], arrivals[1..])
    ensures forall t <- slots :: t.socket != arrivals[0].socket
  {
    var taken := TakenBy(arrivals[0]);
    assert arrivals[0] in arrivals;
    forall a <- arrivals[1..], s <- slots + [taken] | a.socket > 0 ensures a.socket != s.socket {
      assert a in arrivals;
      var j :| 0 <= j < |arrivals[1..]| && arrivals[1..][j] == a;
      assert arrivals[1 + j] == a;
    }
  }

  lemma HarmlessOn(con: seq<Slot>, count: nat, arrivals: seq<Arrival>, k: nat)
    requires count + 1 + k < |con| && k < |arrivals|
    ensures Harmless(con[count := TakenBy(arrivals[0])], count + 1, arrivals[1..], k)
       <==> Harmless(con, count, arrivals, k + 1)
  {
    var con' := con[count := TakenBy(arrivals[0])];
    assert con'[..count + 1] == con[..count] + [TakenBy(arrivals[0])];
    assert arrivals[..k + 1] == [arrivals[0]] + arrivals[1..][..k];
  }

  /** Accepting keeps sockets apart exactly when no arrival fails to be configured, or the
      slot the first failing one takes held no socket, or one that no slot before it holds. */
  lemma {:induction false} AcceptKeepsApartIff(con: seq<Slot>, count: nat, arrivals: seq<Arrival>)
    requires count <= |con| && Apart(con[..count]) && NewDescriptors(con[..count], arrivals)
    ensures
      var (con', count') := Accepted(con, count, arrivals);
      var failing := Failing(|con| - count, arrivals);
      Apart(con'[..count']) <==> failing.None? || Harmless(con, count, arrivals, failing.value)
    decreases |arrivals|
  {
    hide Apart, NewDescriptors, Harmless;
    if count < |con| && arrivals != [] && arrivals[0].socket > 0 {
      if arrivals[0].configured {
        var taken := TakenBy(arrivals[0]);
        var con' := con[count := taken];
        assert con'[..count + 1] == con[..count] + [taken];
        NewDescriptorsOn(con[..count], arrivals);
        ApartWith(con[..count], taken);
        AcceptKeepsApartIff(con', count + 1, arrivals[1..]);
        var later := Failing(|con'| - (count + 1), arrivals[1..]);
        if later.Some? {
          HarmlessOn(con, count, arrivals, later.value);
        }
      } else {
        var copy := Slot(false, true, false, con[count].socket);
        assert con[count := copy][..count + 1] == con[..count] + [copy];
        ApartWith(con[..count], copy);
        HarmlessNow(con, count, arrivals);
      }
    }
  }

  lemma HarmlessNow(con: seq<Slot>, count: nat, arrivals: seq<Arrival>)
    requires count < |con|
    ensures Harmless(con, count, arrivals, 0)
       <==> con[count].socket == INVALID_SOCKET || forall t <- con[..count] :: t.socket != con[count].socket
  {
    assert arrivals[..0] == [];
  }

  // ---------- serving, and whole runs ----------

  /** The effect of serving connections, slot by slot: `serve` is what
      wby_update_connection makes of a slot. */
  function Served(slots: seq<Slot>, ready: nat -> bool, serve: (nat, Slot) -> Slot): (r: seq<Slot>)
    ensures |r| == |slots|
  {
    seq(|slots|, i requires 0 <= i < |slots| => if ready(i) || slots[i].unread then serve(i, slots[i]) else slots[i])
  }

  /** Serving revives no connection, and gives it no other socket; at most it closes it. */
  ghost predicate KeepsSockets(serve: (nat, Slot) -> Slot) {
    forall i: nat, s: Slot ::
      && (serve(i, s).alive ==> s.alive)
      && (serve(i, s).socket == s.socket || (serve(i, s).socket == INVALID_SOCKET && !serve(i, s).alive))
  }

  /** One call of wby_update: what arrives, which sockets are ready, and what serving does. */
  datatype Turn = Turn(arrivals: seq<Arrival>, ready: nat -> bool, serve: (nat, Slot) -> Slot)

  /** The slots that configured arrivals take while there is room. */
  function Taken(room: nat, arrivals: seq<Arrival>): (taken: seq<Slot>)
    ensures |taken| <= room
  {
    if room == 0 || arrivals == [] || arrivals[0].socket <= 0 then []
    else [TakenBy(arrivals[0])] + Taken(room - 1, arrivals[1..])
  }

  /** The slots that a turn's pass goes over. */
  function BeforePass(slots: seq<Slot>, max: nat, turn: Turn): seq<Slot>
    requires |slots| <= max
  {
    Served(slots + Taken(max - |slots|, turn.arrivals), turn.ready, turn.serve)
  }

  function AfterTurns(slots: seq<Slot>, max: nat, turns: seq<Turn>): (r: seq<Slot>)
    requires |slots| <= max
    ensures |r| <= max
  {
    if turns == [] then slots
    else Living(BeforePass(AfterTurns(slots, max, turns[..|turns| - 1]), max, turns[|turns| - 1]))
  }

  ghost predicate Proper(slots: seq<Slot>, turn: Turn) {
    && (forall a <- turn.arrivals :: a.configured)
    && NewDescriptors(slots, turn.arrivals) && KeepsSockets(turn.serve)
  }

  /** With configured arrivals the table after the accept loop does not depend on what the
      free slots hold. */
  lemma {:induction false} AcceptedConfigured(con: seq<Slot>, count: nat, arrivals: seq<Arrival>)
    requires count <= |con| && forall a <- arrivals :: a.configured
    ensures
      var (con', count') := Accepted(con, count, arrivals);
      con'[..count'] == con[..count] + Taken(|con| - count, arrivals)
    decreases |arrivals|
  {
    if count < |con| && arrivals != [] && arrivals[0].socket > 0 {
      assert arrivals[0] in arrivals;
      var con' := con[count := TakenBy(arrivals[0])];
      assert con'[..count + 1] == con[..count] + [TakenBy(arrivals[0])];
      AcceptedConfigured(con', count + 1, arrivals[1..]);
    }
  }

  lemma TakenFirst(slots: seq<Slot>, room: nat, arrivals: seq<Arrival>)
    ensures room == 0 || arrivals == [] || arrivals[0].socket <= 0 ==> slots + Taken(room, arrivals) == slots
    ensures room > 0 && arrivals != [] && arrivals[0].socket > 0 ==>
              slots + Taken(room, arrivals) == slots + [TakenBy(arrivals[0])] + Taken(room - 1, arrivals[1..])
  {}

  lemma {:induction false} TakenApart(slots: seq<Slot>, room: nat, arrivals: seq<Arrival>)
    requires Apart(slots) && NewDescriptors(slots, arrivals)
    ensures Apart(slots + Taken(room, arrivals))
    decreases |arrivals|
  {
    hide Apart, NewDescriptors, Taken, TakenBy;
    TakenFirst(slots, room, arrivals);
    if room > 0 && arrivals != [] && arrivals[0].socket > 0 {
      NewDescriptorsOn(slots, arrivals);
      ApartWithNew(slots, arrivals[0]);
      TakenApart(slots + [TakenBy(arrivals[0])], room - 1, arrivals[1..]);
    }
  }

  lemma ApartWithNew(slots: seq<Slot>, a: Arrival)
    requires Apart(slots) && forall t <- slots :: t.socket != a.socket
    ensures Apart(slots + [TakenBy(a)])
  {
    hide Apart;
    ApartWith(slots, TakenBy(a));
  }

  lemma ServedApart(slots: seq<Slot>, ready: nat -> bool, serve: (nat, Slot) -> Slot)
    requires Apart(slots) && KeepsSockets(serve)
    ensures Apart(Served(slots, ready, serve))
  {
    var r := Served(slots, ready, serve);
    assert forall i | 0 <= i < |slots| :: r[i].socket == slots[i].socket || r[i].socket == INVALID_SOCKET;
  }

  lemma {:induction false} LivingApart(slots: seq<Slot>)
    requires Apart(slots)
    ensures Apart(Living(slots)) && forall s <- Living(slots) :: s in slots
  {
    if slots != [] {
      var s, others := slots[0], slots[1..];
      LivingApart(others);
      if s.alive {
        var all := Living(slots);
        assert all == [s] + Living(others);
        forall j | 1 <= j < |all| ensures all[j].socket == s.socket ==> s.socket == INVALID_SOCKET {
          assert all[j] in others;
          var k :| 0 <= k < |others| && others[k] == all[j];
          assert slots[k + 1] == all[j];
        }
        assert forall j | 1 <= j < |all| :: all[j] == Living(others)[j - 1];
      }
    }
  }

  lemma {:induction false} DeadUsesApart(slots: seq<Slot>, s: Slot)
    requires Apart(slots) && s in slots && s.socket != INVALID_SOCKET
    ensures DeadUses(slots, s.socket) == if s.alive then 0 else 1
  {
    var others := slots[1..];
    assert Apart(others);
    if s == slots[0] {
      DeadUsesOf(others, s.socket);
      forall t <- others ensures t.socket != s.socket {
        var k :| 0 <= k < |others| && others[k] == t;
        assert slots[k + 1] == t;
      }
    } else {
      var k :| 0 <= k < |slots| && slots[k] == s;
      assert others[k - 1] == s;
      DeadUsesApart(others, s);
      assert slots[0].socket != s.socket;
    }
  }

  /** The pass closes the socket of each connection it removes exactly once, unless serving
      closed it, and that of no connection it keeps. */
  ghost predicate ClosesRight(slots: seq<Slot>) {
    forall s <- slots :: s.socket != INVALID_SOCKET ==>
      multiset(Farewells(slots))[SocketClosed(s.socket)] == if s.alive then 0 else 1
  }

  lemma ApartClosesRight(slots: seq<Slot>)
    requires Apart(slots)
    ensures ClosesRight(slots)
  {
    hide Apart;
    forall s <- slots | s.socket != INVALID_SOCKET
      ensures multiset(Farewells(slots))[SocketClosed(s.socket)] == if s.alive then 0 else 1
    {
      DeadUsesApart(slots, s);
      ClosedPerSlot(slots, s.socket);
    }
  }

  lemma TurnKeepsApart(slots: seq<Slot>, max: nat, turn: Turn)
    requires |slots| <= max && Apart(slots) && Proper(slots, turn)
    ensures Apart(BeforePass(slots, max, turn)) && Apart(Living(BeforePass(slots, max, turn)))
  {
    hide Apart, NewDescriptors, KeepsSockets, Served, Taken;
    TakenApart(slots, max - |slots|, turn.arrivals);
    ServedApart(slots + Taken(max - |slots|, turn.arrivals), turn.ready, turn.serve);
    LivingApart(BeforePass(slots, max, turn));
  }

  /** In every turn, arrivals are configured and new, and serving keeps sockets. */
  ghost predicate ProperRun(slots: seq<Slot>, max: nat, turns: seq<Turn>)
    requires |slots| <= max
  {
    turns != [] ==>
      var before := turns[..|turns| - 1];
      ProperRun(slots, max, before) && Proper(AfterTurns(slots, max, before), turns[|turns| - 1])
  }

  /** In every turn the pass closes the right sockets. */
  ghost predicate CleanRun(slots: seq<Slot>, max: nat, turns: seq<Turn>)
    requires |slots| <= max
  {
    turns != [] ==>
      var before := turns[..|turns| - 1];
      CleanRun(slots, max, before) && ClosesRight(BeforePass(AfterTurns(slots, max, before), max, turns[|turns| - 1]))
  }

  /** Over any calls of wby_update in which every arrival is configured, no two slots come
      to share an open socket, and every pass closes the right ones. */
  lemma {:induction false} TurnsKeepApart(slots: seq<Slot>, max: nat, turns: seq<Turn>)
    requires |slots| <= max && Apart(slots) && ProperRun(slots, max, turns)
    ensures Apart(AfterTurns(slots, max, turns)) && CleanRun(slots, max, turns)
    decreases |turns|
  {
    hide Apart, Proper, BeforePass, ClosesRight, Living;
    if turns != [] {
      var before, turn := turns[..|turns| - 1], turns[|turns| - 1];
      TurnsKeepApart(slots, max, before);
      TurnKeepsApart(AfterTurns(slots, max, before), max, turn);
      ApartClosesRight(BeforePass(AfterTurns(slots, max, before), max, turn));
    }
  }

  /** With a failing arrival the promise breaks. Of a dead and a living slot the pass
      keeps the living one and leaves its copy behind; an arrival that fails to configure
      then takes the copy's slot. However the two are served, as long as serving keeps
      the first one open, the next pass closes the socket of a connection it keeps. */
  lemma FailedArrivalClosesSurvivor(dead: Slot, living: Slot, arrival: Arrival, ready: nat -> bool,
                                    serve: (nat, Slot) -> Slot)
    requires !dead.alive && living.alive && living.socket != INVALID_SOCKET
    requires arrival.socket > 0 && !arrival.configured
    requires KeepsSockets(serve) && serve(0, living).alive
    requires serve(1, Slot(false, true, false, living.socket)).socket == living.socket
    ensures
      var con := Shifted([dead, living], 0, 2);
      var (con', count') := Accepted(con, 1, [arrival]);
      var slots := Served(con'[..count'], ready, serve);
      && |Living(slots)| == 1 && Living(slots)[0].socket == living.socket
      && SocketClosed(living.socket) in Farewells(slots)
  {
    var con := Shifted([dead, living], 0, 2);
    assert con == [living, living];
    var copy := Slot(false, true, false, living.socket);
    var con' := con[1 := copy];
    assert con'[..2] == [living, copy];
    var slots := Served([living, copy], ready, serve);
    var first, second := slots[0], slots[1];
    assert first.alive && first.socket == living.socket && !second.alive && second.socket == living.socket;
    assert slots == [first, second] && slots[1..] == [second] && [second][1..] == [];
    assert Living(slots) == [first] + Living([second]) && Living([second]) == [];
    assert Farewells([second]) == Farewell(second);
  }

  /** The slots of a server just started: zeroed memory, so each holds descriptor 0. */
  function NewSlots(max: nat): (slots: seq<Slot>)
    ensures |slots| == max && forall i :: 0 <= i < max ==> slots[i] == Slot(false, false, false, 0)
  {
    seq(max, _ => Slot(false, false, false, 0))
  }

  /** A failing arrival in a slot never used leaves the sockets apart, but descriptor 0 in a
      dead slot: the next pass closes it, once, unless serving that slot did. */
  lemma UnusedSlotClosesZero(max: nat, arrival: Arrival, ready: nat -> bool, serve: (nat, Slot) -> Slot)
    requires max > 0 && arrival.socket > 0 && !arrival.configured
    requires KeepsSockets(serve) && serve(0, Slot(false, true, false, 0)).socket == 0
    ensures
      var (con, count) := Accepted(NewSlots(max), 0, [arrival]);
      var slots := Served(con[..count], ready, serve);
      Apart(con[..count]) && multiset(Farewells(slots))[SocketClosed(0)] == 1
  {
    var failed := Slot(false, true, false, 0);
    var con := NewSlots(max)[0 := failed];
    assert con[..1] == [failed];
    var slots := Served([failed], ready, serve);
    assert slots == [slots[0]] && [slots[0]][1..] == [];
    assert !slots[0].alive && slots[0].socket == 0;
    ClosedPerSlot(slots, 0);
    assert DeadUses([], 0) == 0;
  }

  class Server {
    const con: array<Slot>
    var count: nat
    ghost var log: seq<Event>

    ghost predicate Valid()
      reads this
    {
      count <= con.Length
    }

    /** wby_start: as many slots as connections may be open at a time. */
    constructor (connectionMax: nat)
      ensures Valid() && fresh(con) && con[..] == NewSlots(connectionMax) && count == 0 && log == []
    {
      con := new Slot[connectionMax](_ => Slot(false, false, false, 0));
      count := 0;
      log := [];
    }

    /** wby_on_incoming. */
    method OnIncoming(arrival: Arrival) returns (code: int)
      requires Valid()
      modifies this`count, this`log, con
      ensures Valid()
      ensures (con[..], count) == Accepted(old(con[..]), old(count), [arrival])
      ensures log == old(log) + Refused(con.Length - old(count), [arrival])
      ensures code == 0 <==> old(count) < con.Length && arrival.socket > 0 && arrival.configured
    {
      var index := count;
      RefusedOne(con.Length - index, [arrival]);
      if index == con.Length {
        return 1;
      }
      if arrival.socket <= 0 {
        return 1;
      }
      con[index] := Slot(false, true, false, con[index].socket);
      count := index + 1;
      if !arrival.configured {
        log := log + [SocketClosed(arrival.socket)];
        return 1;
      }
      con[index] := con[index].(alive := true);
      con[index] := con[index].(socket := arrival.socket);
      assert con[..] == old(con[..])[index := Slot(true, true, false, arrival.socket)];
      assert [arrival][1..] == [];
      return 0;
    }

    /** The accept loop of wby_update. */
    method AcceptLoop(arrivals: seq<Arrival>)
      requires Valid()
      modifies this`count, this`log, con
      ensures Valid()
      ensures (con[..], count) == Accepted(old(con[..]), old(count), arrivals)
      ensures log == old(log) + Refused(con.Length - old(count), arrivals)
    {
      hide Refused;
      var i := 0;
      while i < |arrivals|
        invariant 0 <= i <= |arrivals| && Valid()
        invariant Accepted(con[..], count, arrivals[i..]) == Accepted(old(con[..]), old(count), arrivals)
        invariant log + Refused(con.Length - count, arrivals[i..])
               == old(log) + Refused(con.Length - old(count), arrivals)
      {
        assert arrivals[i..][1..] == arrivals[i + 1..];
        ghost var before, n := con[..], count;
        var code := OnIncoming(arrivals[i]);
        RefusedOne(con.Length - n, arrivals[i..]);
        if code != 0 {
          return;
        }
        AcceptedOne(before, n, arrivals[i..]);
        i := i + 1;
      }
      NoneRefused(con.Length - count, arrivals[i..]);
    }

    /** wby_connection_close. */
    method CloseSlot(i: nat)
      requires i < con.Length
      modifies con, this`log
      ensures log == old(log)
                     + (if old(con[i]).socket != INVALID_SOCKET then [SocketClosed(old(con[i]).socket)] else [])
      ensures con[..] == old(con[..])[i := Slot(false, false, false, INVALID_SOCKET)]
    {
      var socket := con[i].socket;
      if socket != INVALID_SOCKET {
        log := log + [SocketClosed(socket)];
      }
      con[i] := Slot(false, false, false, INVALID_SOCKET);
    }

    /** memmove of the slots behind `i` over it. */
    method MoveUp(i: nat)
      requires i < count <= con.Length
      modifies con
      ensures con[..] == Shifted(old(con[..]), i, count)
    {
      ghost var before := con[..];
      forall k | i <= k < count - 1 {
        con[k] := con[k + 1];
      }
      forall k | 0 <= k < con.Length ensures con[..][k] == Shifted(before, i, count)[k] {
        ShiftedAt(before, i, count, k);
      }
    }

    /** The pass of wby_update that closes stale connections and compacts the table. */
    method Compact()
      requires Valid()
      modifies this, con
      ensures Valid() && con[..count] == Living(old(con[..count]))
      ensures log == old(log) + Farewells(old(con[..count]))
      ensures count <= old(count)
    {
      hide Passed, Living, Farewells, Farewell, Kept;
      ghost var slots := con[..count];
      ghost var passed: nat, said := 0, [];
      PassStarts(slots);
      var i := 0;
      assert con[..0] == [] && con[0..count] == slots;
      while i < count
        invariant 0 <= i <= count <= old(count) && Valid() && log == old(log) + said
        invariant Passed(con[..i], con[i..count], said, slots, passed)
        decreases count - i
      {
        PassOne(con[..i], con[i..count], said, slots, passed);
        said := said + Farewell(con[i]);
        i := PassSlot(i);
        passed := passed + 1;
      }
      assert con[i..count] == [];
      PassEnds(con[..count], said, slots, passed);
    }

    /** The body of the pass: the index of the next slot to look at. */
    method PassSlot(i: nat) returns (next: nat)
      requires Valid() && i < count
      modifies this, con
      ensures Valid() && next <= count <= old(count) && count - next == old(count) - i - 1
      ensures con[..next] == old(con[..i]) + Kept(old(con[i..count])[0])
      ensures con[next..count] == old(con[i..count])[1..]
      ensures log == old(log) + Farewell(old(con[i]))
    {
      hide Kept, Farewell;
      KeepOrSay(con[i]);
      assert con[i..count][1..] == con[i + 1..count];
      if !con[i].alive {
        Remove(i);
        next := i;
      } else {
        next := i + 1;
        assert con[..next] == con[..i] + [con[i]];
      }
    }

    /** The body of the pass for a dead slot. */
    method Remove(i: nat)
      requires Valid() && i < count && !con[i].alive
      modifies this, con
      ensures Valid() && count == old(count) - 1
      ensures con[..i] == old(con[..i]) && con[i..count] == old(con[i + 1..count])
      ensures log == old(log) + Farewell(old(con[i]))
    {
      if con[i].websocket {
        log := log + [WsClosed(con[i])];
      }
      CloseSlot(i);
      MoveUp(i);
      count := count - 1;
    }

    /** The loop of wby_update over connections with something to do, and over those
        just accepted. */
    method ServeAll(ready: nat -> bool, serve: (nat, Slot) -> Slot)
      requires Valid()
      modifies con
      ensures con[..count] == Served(old(con[..count]), ready, serve)
    {
      for i := 0 to count
        invariant forall k :: 0 <= k < i ==> con[k] == Served(old(con[..count]), ready, serve)[k]
        invariant forall k :: i <= k < con.Length ==> con[k] == old(con[k])
      {
        if ready(i) || con[i].unread {
          con[i] := serve(i, con[i]);
        }
      }
    }

    /** wby_update after select: accept, serve, close and compact. The table never
        holds more connections than it has slots, whatever arrives and whatever
        serving does. */
    method Update(arrivals: seq<Arrival>, ready: nat -> bool, serve: (nat, Slot) -> Slot)
      requires Valid()
      modifies this, con
      ensures Valid()
      ensures
        var (con', count') := Accepted(old(con[..]), old(count), arrivals);
        var slots := Served(con'[..count'], ready, serve);
        && con[..count] == Living(slots)
        && log == old(log) + Refused(con.Length - old(count), arrivals) + Farewells(slots)
      ensures (forall a <- arrivals :: a.configured) ==>
                var slots := BeforePass(old(con[..count]), con.Length, Turn(arrivals, ready, serve));
                con[..count] == Living(slots) && log == old(log) + Farewells(slots)
    {
      hide Living, Farewells, Accepted, Served, Refused;
      if forall a <- arrivals :: a.configured {
        NoneRefused(con.Length - count, arrivals);
        AcceptedConfigured(con[..], count, arrivals);
        assert con[..][..count] == con[..count];
      }
      AcceptLoop(arrivals);
      ServeAll(ready, serve);
      Compact();
    }
  }
}
