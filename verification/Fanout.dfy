/** WebSocket fan-out (backend/app/core/ws_manager.py).

    Each process keeps three socket tables and may run a relay; a broadcast sends
    locally, publishes, and every relay that has subscribed, the publisher's own
    included, sends again in its process. The first successful publish only creates
    the relay's task, which subscribes later. */
module Fanout {
  import opened Prelude

  type Socket = nat
  type ProcessId = nat

  // ---------- channels ----------

  datatype Kind = Club | Room | User

  const CLUB_PREFIX := "ws:club:"
  const ROOM_PREFIX := "ws:room:"
  const USER_PREFIX := "ws:user:"

  function Channel(kind: Kind, id: string): string {
    match kind
    case Club => CLUB_PREFIX + id
    case Room => ROOM_PREFIX + id
    case User => USER_PREFIX + id
  }

  predicate StartsWith(s: string, prefix: string) {
    |prefix| <= |s| && s[..|prefix|] == prefix
  }

  datatype Target = Target(kind: Kind, id: string)

  /** The relay's dispatch on a channel name. */
  function Dispatch(channel: string): Option<Target> {
    if StartsWith(channel, CLUB_PREFIX) then Some(Target(Club, channel[|CLUB_PREFIX|..]))
    else if StartsWith(channel, ROOM_PREFIX) then Some(Target(Room, channel[|ROOM_PREFIX|..]))
    else if StartsWith(channel, USER_PREFIX) then Some(Target(User, channel[|USER_PREFIX|..]))
    else None
  }

  lemma PrefixSplit(prefix: string, id: string, channel: string)
    ensures StartsWith(prefix + id, prefix) && (prefix + id)[|prefix|..] == id
    ensures StartsWith(channel, prefix) ==> prefix + channel[|prefix|..] == channel
  {
  }

  /** Encoding and dispatch are inverse, for every id string. */
  lemma DispatchInvertsChannel(kind: Kind, id: string, channel: string)
    ensures Dispatch(Channel(kind, id)) == Some(Target(kind, id))
    ensures Dispatch(channel).Some? ==> Channel(Dispatch(channel).value.kind, Dispatch(channel).value.id) == channel
  {
    PrefixSplit(CLUB_PREFIX, id, channel);
    PrefixSplit(ROOM_PREFIX, id, channel);
    PrefixSplit(USER_PREFIX, id, channel);
    assert CLUB_PREFIX[3] == 'c' && ROOM_PREFIX[3] == 'r' && USER_PREFIX[3] == 'u';
    assert Channel(kind, id)[3] == match kind case Club => 'c' case Room => 'r' case User => 'u';
    if kind == Room {
      assert !StartsWith(Channel(kind, id), CLUB_PREFIX) by {
        assert Channel(kind, id)[..8][3] == 'r';
      }
    }
    if kind == User {
      assert !StartsWith(Channel(kind, id), CLUB_PREFIX) && !StartsWith(Channel(kind, id), ROOM_PREFIX) by {
        assert Channel(kind, id)[..8][3] == 'u';
      }
    }
  }

  // ---------- one process ----------

  type Table = map<string, set<Socket>>

  /** The relay task: absent or done, created but not yet subscribed, or receiving. */
  datatype Relay = Stopped | Starting | Listening

  datatype Process = Process(clubs: Table, rooms: Table, users: Table, relay: Relay)

  /** After a successful publish there is a relay task. */
  function Started(relay: Relay): Relay {
    if relay.Stopped? then Starting else relay
  }

  /** `psubscribe` returns in the relay task, if there is one. */
  function Subscribed(relay: Relay): Relay {
    if relay.Starting? then Listening else relay
  }

  function TableOf(p: Process, kind: Kind): Table {
    match kind
    case Club => p.clubs
    case Room => p.rooms
    case User => p.users
  }

  function WithTable(p: Process, kind: Kind, table: Table): Process {
    match kind
    case Club => p.(clubs := table)
    case Room => p.(rooms := table)
    case User => p.(users := table)
  }

  function Sockets(table: Table, id: string): set<Socket> {
    if id in table then table[id] else {}
  }

  function Registered(p: Process, kind: Kind, id: string): set<Socket> {
    Sockets(TableOf(p, kind), id)
  }

  function Connected(table: Table, id: string, ws: Socket): Table {
    table[id := Sockets(table, id) + {ws}]
  }

  /** Discard the socket, and drop the entry once it is empty. */
  function Disconnected(table: Table, id: string, ws: Socket): Table {
    if Sockets(table, id) - {ws} == {} then table - {id} else table[id := table[id] - {ws}]
  }

  /** Sockets whose send failed are removed. */
  function Pruned(table: Table, id: string, alive: set<Socket>): Table {
    if id in table then table[id := table[id] * alive] else table
  }

  function LocalSend(p: Process, kind: Kind, id: string, alive: set<Socket>): Process {
    WithTable(p, kind, Pruned(TableOf(p, kind), id, alive))
  }

  function Copies(sockets: set<Socket>, payload: string): multiset<(Socket, string)> {
    multiset(set ws | ws in sockets :: (ws, payload))
  }

  lemma CopiesAdd(sockets: set<Socket>, ws: Socket, payload: string)
    requires ws !in sockets
    ensures Copies(sockets + {ws}, payload) == Copies(sockets, payload) + multiset{(ws, payload)}
  {
    var before := set x | x in sockets :: (x, payload);
    assert (set x | x in sockets + {ws} :: (x, payload)) == before + {(ws, payload)};
  }

  /** The process of one worker, as code. `sent` is every successful send, with multiplicity. */
  class ConnectionManager {
    var clubs: Table
    var rooms: Table
    var users: Table
    var relay: Relay
    ghost var sent: multiset<(Socket, string)>

    function Current(): Process
      reads this
    {
      Process(clubs, rooms, users, relay)
    }

    constructor ()
      ensures Current() == Process(map[], map[], map[], Stopped) && sent == multiset{}
    {
      clubs, rooms, users, relay, sent := map[], map[], map[], Stopped, multiset{};
    }

    method Store(kind: Kind, table: Table)
      modifies this`clubs, this`rooms, this`users
      ensures Current() == WithTable(old(Current()), kind, table)
    {
      match kind
      case Club => clubs := table;
      case Room => rooms := table;
      case User => users := table;
    }

    method Connect(kind: Kind, id: string, ws: Socket)
      modifies this`clubs, this`rooms, this`users
      ensures Current() == WithTable(old(Current()), kind, Connected(TableOf(old(Current()), kind), id, ws))
    {
      var table := TableOf(Current(), kind);
      Store(kind, table[id := Sockets(table, id) + {ws}]);
    }

    method Disconnect(kind: Kind, id: string, ws: Socket)
      modifies this`clubs, this`rooms, this`users
      ensures Current() == WithTable(old(Current()), kind, Disconnected(TableOf(old(Current()), kind), id, ws))
    {
      var table := TableOf(Current(), kind);
      table := table[id := Sockets(table, id) - {ws}];
      if table[id] == {} {
        table := table - {id};
      }
      Store(kind, table);
    }

    /** Send to a snapshot, in some order, and collect the sockets that fail. */
    method SendAll(snapshot: set<Socket>, payload: string, alive: set<Socket>) returns (dead: set<Socket>)
      modifies this`sent
      ensures dead == snapshot - alive
      ensures sent == old(sent) + Copies(snapshot * alive, payload)
    {
      var pending := snapshot;
      dead := {};
      while pending != {}
        invariant pending <= snapshot && dead == (snapshot - pending) - alive
        invariant sent == old(sent) + Copies((snapshot - pending) * alive, payload)
        decreases pending
      {
        var ws :| ws in pending;
        if ws in alive {
          CopiesAdd((snapshot - pending) * alive, ws, payload);
          sent := sent + multiset{(ws, payload)};
          assert (snapshot - (pending - {ws})) * alive == (snapshot - pending) * alive + {ws};
        } else {
          dead := dead + {ws};
          assert (snapshot - (pending - {ws})) * alive == (snapshot - pending) * alive;
        }
        pending := pending - {ws};
      }
      assert (snapshot - pending) * alive == snapshot * alive;
    }

    /** Discard the failed sockets one by one. */
    method DiscardAll(kind: Kind, id: string, dead: set<Socket>)
      requires dead != {} ==> id in TableOf(Current(), kind)
      modifies this`clubs, this`rooms, this`users
      ensures var before := TableOf(old(Current()), kind);
              Current() == WithTable(old(Current()), kind, if id in before then before[id := before[id] - dead] else before)
    {
      var table := TableOf(Current(), kind);
      ghost var before := table;
      var left := dead;
      assert id in before ==> before[id] - (dead - left) == before[id];
      while left != {}
        invariant left <= dead
        invariant table == if id in before then before[id := before[id] - (dead - left)] else before
        decreases left
      {
        var ws :| ws in left;
        assert before[id] - (dead - (left - {ws})) == before[id] - (dead - left) - {ws};
        table := table[id := table[id] - {ws}];
        left := left - {ws};
      }
      assert dead - left == dead;
      Store(kind, table);
    }

    method BroadcastLocal(kind: Kind, id: string, payload: string, alive: set<Socket>)
      modifies this`clubs, this`rooms, this`users, this`sent
      ensures Current() == LocalSend(old(Current()), kind, id, alive)
      ensures sent == old(sent) + Copies(Registered(old(Current()), kind, id) * alive, payload)
    {
      var snapshot := Sockets(TableOf(Current(), kind), id);
      var dead := SendAll(snapshot, payload, alive);
      DiscardAll(kind, id, dead);
      assert snapshot - (snapshot - alive) == snapshot * alive;
    }

    /** One message of the relay loop. */
    method RelayMessage(channel: string, payload: string, alive: set<Socket>)
      modifies this`clubs, this`rooms, this`users, this`sent
      ensures Dispatch(channel).None? ==> Current() == old(Current()) && sent == old(sent)
      ensures Dispatch(channel).Some? ==>
                var t := Dispatch(channel).value;
                Current() == LocalSend(old(Current()), t.kind, t.id, alive) &&
                sent == old(sent) + Copies(Registered(old(Current()), t.kind, t.id) * alive, payload)
    {
      if StartsWith(channel, CLUB_PREFIX) {
        BroadcastLocal(Club, channel[|CLUB_PREFIX|..], payload, alive);
      } else if StartsWith(channel, ROOM_PREFIX) {
        BroadcastLocal(Room, channel[|ROOM_PREFIX|..], payload, alive);
      } else if StartsWith(channel, USER_PREFIX) {
        BroadcastLocal(User, channel[|USER_PREFIX|..], payload, alive);
      }
    }

    /** After a successful publish a relay task exists; a failing publish changes nothing. */
    method AfterPublish(succeeded: bool)
      modifies this`relay
      ensures relay == if succeeded then Started(old(relay)) else old(relay)
    {
      if succeeded && relay.Stopped? {
        relay := Starting;
      }
    }

    /** The relay task gets to its subscription. */
    method RelaySubscribed()
      modifies this`relay
      ensures relay == Subscribed(old(relay))
    {
      if relay.Starting? {
        relay := Listening;
      }
    }
  }

  // ---------- several processes ----------

  datatype Delivery = Delivery(process: ProcessId, socket: Socket, payload: string)

  function Sends(process: ProcessId, sockets: set<Socket>, payload: string): multiset<Delivery> {
    multiset(set ws | ws in sockets :: Delivery(process, ws, payload))
  }

  datatype Network = Network(processes: seq<Process>, log: multiset<Delivery>)

  /** For each process, the sockets that accept a send. */
  type Alive = map<ProcessId, set<Socket>>

  function AliveIn(alive: Alive, q: ProcessId): set<Socket> {
    if q in alive then alive[q] else {}
  }

  /** Process `q` sends to what it has registered. */
  function SendIn(net: Network, q: ProcessId, kind: Kind, id: string, payload: string, alive: Alive): Network
    requires q < |net.processes|
  {
    var p := net.processes[q];
    Network(net.processes[q := LocalSend(p, kind, id, AliveIn(alive, q))],
            net.log + Sends(q, Registered(p, kind, id) * AliveIn(alive, q), payload))
  }

  /** A process after its relay, if it has subscribed, sent the message on locally. */
  function RelayIn(p: Process, t: Target, alive: set<Socket>): Process {
    if p.relay.Listening? then LocalSend(p, t.kind, t.id, alive) else p
  }

  /** What that relay sends. */
  function RelaySends(p: Process, q: ProcessId, t: Target, payload: string, alive: set<Socket>): multiset<Delivery> {
    if p.relay.Listening? then Sends(q, Registered(p, t.kind, t.id) * alive, payload) else multiset{}
  }

  function AllRelaySends(processes: seq<Process>, t: Target, payload: string, alive: Alive): multiset<Delivery> {
    if processes == [] then multiset{}
    else
      var q := |processes| - 1;
      AllRelaySends(processes[..q], t, payload, alive) + RelaySends(processes[q], q, t, payload, AliveIn(alive, q))
  }

  /** Redis hands a message for target `t` to every subscribed relay; each works on its own process. */
  function Relayed(net: Network, t: Target, payload: string, alive: Alive): (r: Network)
    ensures |r.processes| == |net.processes|
  {
    Network(seq(|net.processes|, q requires 0 <= q < |net.processes| => RelayIn(net.processes[q], t, AliveIn(alive, q))),
            net.log + AllRelaySends(net.processes, t, payload, alive))
  }

  /** broadcast_club, broadcast_room and send_user: send locally, publish, start the relay. */
  function Broadcast(net: Network, from: ProcessId, kind: Kind, id: string, payload: string,
                     alive: Alive, published: bool): Network
    requires from < |net.processes|
  {
    var locally := SendIn(net, from, kind, id, payload, alive);
    var target := Dispatch(Channel(kind, id));
    if !published then locally
    else
      var relayed := if target.Some? then Relayed(locally, target.value, payload, alive) else locally;
      relayed.(processes := relayed.processes[from := relayed.processes[from].(relay := Started(relayed.processes[from].relay))])
  }

  lemma SendsCounted(process: ProcessId, sockets: set<Socket>, payload: string, d: Delivery)
    ensures Sends(process, sockets, payload)[d] ==
            if d.process == process && d.payload == payload && d.socket in sockets then 1 else 0
  {
    var all := set ws | ws in sockets :: Delivery(process, ws, payload);
    assert d in all <==> d.process == process && d.payload == payload && d.socket in sockets by {
      if d.process == process && d.payload == payload && d.socket in sockets {
        assert d == Delivery(process, d.socket, payload);
      }
    }
  }

  lemma LocalSendEffect(p: Process, kind: Kind, id: string, alive: set<Socket>, kind': Kind, id': string)
    ensures var q := LocalSend(p, kind, id, alive);
            q.relay == p.relay &&
            Registered(q, kind', id') ==
            if kind' == kind && id' == id then Registered(p, kind, id) * alive else Registered(p, kind', id')
  {
  }

  /** `d` is a copy that process `d.process` sends when it delivers to `t`. */
  predicate Copied(p: Process, t: Target, payload: string, alive: Alive, d: Delivery) {
    d.payload == payload && d.socket in Registered(p, t.kind, t.id) && d.socket in AliveIn(alive, d.process)
  }

  /** The relays send `d` once if the relay of its own process has subscribed, and else not at all. */
  lemma {:induction false} RelaySendsCounted(processes: seq<Process>, t: Target, payload: string, alive: Alive, d: Delivery)
    ensures AllRelaySends(processes, t, payload, alive)[d] ==
            if d.process < |processes| && processes[d.process].relay.Listening? &&
               Copied(processes[d.process], t, payload, alive, d)
            then 1 else 0
  {
    if processes != [] {
      var q := |processes| - 1;
      RelaySendsCounted(processes[..q], t, payload, alive, d);
      SendsCounted(q, Registered(processes[q], t.kind, t.id) * AliveIn(alive, q), payload, d);
    }
  }

  /** Exact copies: a live socket registered under the address gets one copy from
      the publisher's local send plus one if its own process has a subscribed relay and
      the publish succeeded; every other socket, and every other address, gets none. */
  lemma CopiesDelivered(net: Network, from: ProcessId, kind: Kind, id: string, payload: string,
                        alive: Alive, published: bool, d: Delivery)
    requires from < |net.processes| && d.process < |net.processes|
    ensures var p := net.processes[d.process];
            Broadcast(net, from, kind, id, payload, alive, published).log[d] ==
            net.log[d] +
            if d.payload == payload && d.socket in Registered(p, kind, id) && d.socket in AliveIn(alive, d.process)
            then (if d.process == from then 1 else 0) + (if published && p.relay.Listening? then 1 else 0)
            else 0
  {
    var p := net.processes[from];
    var locally := SendIn(net, from, kind, id, payload, alive);
    SendsCounted(from, Registered(p, kind, id) * AliveIn(alive, from), payload, d);
    LocalSendEffect(p, kind, id, AliveIn(alive, from), kind, id);
    DispatchInvertsChannel(kind, id, "");
    RelaySendsCounted(locally.processes, Target(kind, id), payload, alive, d);
  }

  /** A socket that could have been sent to is found dead and dropped, and no live
      socket is; processes that sent nothing, and other addresses, keep theirs. */
  lemma RegistrationsAfterBroadcast(net: Network, from: ProcessId, kind: Kind, id: string, payload: string,
                                    alive: Alive, published: bool, q: ProcessId, kind': Kind, id': string)
    requires from < |net.processes| && q < |net.processes|
    ensures var p, p' := net.processes[q], Broadcast(net, from, kind, id, payload, alive, published).processes[q];
            Registered(p', kind', id') ==
            if kind' == kind && id' == id && (q == from || (published && p.relay.Listening?))
            then Registered(p, kind, id) * AliveIn(alive, q)
            else Registered(p, kind', id')
    ensures var p, p' := net.processes[q], Broadcast(net, from, kind, id, payload, alive, published).processes[q];
            p'.relay == if published && q == from then Started(p.relay) else p.relay
  {
    var p := net.processes[from];
    var locally := SendIn(net, from, kind, id, payload, alive);
    LocalSendEffect(p, kind, id, AliveIn(alive, from), kind', id');
    DispatchInvertsChannel(kind, id, "");
    LocalSendEffect(locally.processes[q], kind, id, AliveIn(alive, q), kind', id');
  }

  // ---------- whole runs ----------

  datatype Op =
    | Connect(process: ProcessId, kind: Kind, id: string, socket: Socket)
    | Disconnect(process: ProcessId, kind: Kind, id: string, socket: Socket)
    | RelaySubscribes(process: ProcessId)
    | RelayStops(process: ProcessId)
    | Send(process: ProcessId, kind: Kind, id: string, payload: string, alive: Alive, published: bool)

  function Apply(net: Network, op: Op): (r: Network)
    ensures |r.processes| == |net.processes|
  {
    if op.process >= |net.processes| then net
    else
      var p := net.processes[op.process];
      match op
      case Connect(q, kind, id, ws) =>
        net.(processes := net.processes[q := WithTable(p, kind, Connected(TableOf(p, kind), id, ws))])
      case Disconnect(q, kind, id, ws) =>
        net.(processes := net.processes[q := WithTable(p, kind, Disconnected(TableOf(p, kind), id, ws))])
      case RelaySubscribes(q) => net.(processes := net.processes[q := p.(relay := Subscribed(p.relay))])
      case RelayStops(q) => net.(processes := net.processes[q := p.(relay := Stopped)])
      case Send(q, kind, id, payload, alive, published) => Broadcast(net, q, kind, id, payload, alive, published)
  }

  function Start(n: nat): Network {
    Network(seq(n, _ => Process(map[], map[], map[], Stopped)), multiset{})
  }

  function Run(n: nat, ops: seq<Op>): (r: Network)
    ensures |r.processes| == n
  {
    if ops == [] then Start(n) else Apply(Run(n, ops[..|ops| - 1]), ops[|ops| - 1])
  }

  /** The last connect or disconnect of this socket at this address was a connect. */
  function LastConnected(ops: seq<Op>, q: ProcessId, kind: Kind, id: string, ws: Socket): bool {
    if ops == [] then false
    else
      var last := ops[|ops| - 1];
      if last == Connect(q, kind, id, ws) then true
      else if last == Disconnect(q, kind, id, ws) then false
      else LastConnected(ops[..|ops| - 1], q, kind, id, ws)
  }

  /** The socket accepts every send of the run. */
  ghost predicate AlwaysAlive(ops: seq<Op>, q: ProcessId, ws: Socket) {
    forall i :: 0 <= i < |ops| && ops[i].Send? ==> ws in AliveIn(ops[i].alive, q)
  }

  lemma SendEffect(net: Network, op: Op, q: ProcessId, kind: Kind, id: string, ws: Socket)
    requires op.Send? && op.process < |net.processes| && q < |net.processes|
    ensures var before := Registered(net.processes[q], kind, id);
            var after := Registered(Apply(net, op).processes[q], kind, id);
            (ws in after ==> ws in before) && (ws in before && ws in AliveIn(op.alive, q) ==> ws in after)
  {
    RegistrationsAfterBroadcast(net, op.process, op.kind, op.id, op.payload, op.alive, op.published, q, kind, id);
  }

  /** What one operation does to one registration. */
  lemma ApplyEffect(net: Network, op: Op, q: ProcessId, kind: Kind, id: string, ws: Socket)
    requires q < |net.processes|
    ensures var before := ws in Registered(net.processes[q], kind, id);
            var after := ws in Registered(Apply(net, op).processes[q], kind, id);
            if op == Connect(q, kind, id, ws) then after
            else if op == Disconnect(q, kind, id, ws) then !after
            else (after ==> before) && (before && (op.Send? ==> ws in AliveIn(op.alive, q)) ==> after)
  {
    if op.Send? && op.process < |net.processes| {
      SendEffect(net, op, q, kind, id, ws);
    }
  }

  /** Over any run, only sockets whose last registration at an address is a connect
      are registered there, and such a socket stays registered as long as it
      accepts sends. */
  lemma {:induction false} RegistryFollowsConnections(n: nat, ops: seq<Op>, q: ProcessId, kind: Kind, id: string, ws: Socket)
    requires q < n
    ensures ws in Registered(Run(n, ops).processes[q], kind, id) ==> LastConnected(ops, q, kind, id, ws)
    ensures LastConnected(ops, q, kind, id, ws) && AlwaysAlive(ops, q, ws) ==>
              ws in Registered(Run(n, ops).processes[q], kind, id)
  {
    if ops != [] {
      var front, last := ops[..|ops| - 1], ops[|ops| - 1];
      RegistryFollowsConnections(n, front, q, kind, id, ws);
      ApplyEffect(Run(n, front), last, q, kind, id, ws);
      if AlwaysAlive(ops, q, ws) {
        assert last == ops[|ops| - 1];
        assert AlwaysAlive(front, q, ws);
      }
    }
  }

  /** Confinement over runs: a broadcast adds deliveries only for sockets whose
      last registration under that very kind and id, in that process, is a connect. */
  lemma DeliveriesAreConfined(n: nat, ops: seq<Op>, op: Op, d: Delivery)
    requires op.Send? && op.process < n && d.process < n
    requires Run(n, ops + [op]).log[d] > Run(n, ops).log[d]
    ensures d.payload == op.payload && LastConnected(ops, d.process, op.kind, op.id, d.socket)
  {
    assert (ops + [op])[..|ops|] == ops;
    CopiesDelivered(Run(n, ops), op.process, op.kind, op.id, op.payload, op.alive, op.published, d);
    RegistryFollowsConnections(n, ops, d.process, op.kind, op.id, d.socket);
  }

  /** Process `q` has published successfully, and its relay has not stopped since. */
  function RelayStarted(ops: seq<Op>, q: ProcessId): bool {
    if ops == [] then false
    else
      var front, last := ops[..|ops| - 1], ops[|ops| - 1];
      if last.Send? && last.process == q && last.published then true
      else last != RelayStops(q) && RelayStarted(front, q)
  }

  /** The relay of process `q` has subscribed after it was started, and has not stopped since. */
  function RelayUp(ops: seq<Op>, q: ProcessId): bool {
    if ops == [] then false
    else
      var front, last := ops[..|ops| - 1], ops[|ops| - 1];
      if last == RelaySubscribes(q) then RelayStarted(front, q)
      else last != RelayStops(q) && RelayUp(front, q)
  }

  lemma ApplyRelay(net: Network, op: Op, q: ProcessId)
    requires q < |net.processes|
    ensures Apply(net, op).processes[q].relay ==
            if op.Send? && op.process == q && op.published then Started(net.processes[q].relay)
            else if op == RelaySubscribes(q) then Subscribed(net.processes[q].relay)
            else if op == RelayStops(q) then Stopped
            else net.processes[q].relay
  {
    if op.Send? && op.process < |net.processes| {
      RegistrationsAfterBroadcast(net, op.process, op.kind, op.id, op.payload, op.alive, op.published, q, op.kind, op.id);
    }
  }

  /** A process has a relay task exactly from its first successful publish on, and a
      receiving one exactly from that task's subscription on, until the relay stops. */
  lemma {:induction false} RelayFollowsPublishes(n: nat, ops: seq<Op>, q: ProcessId)
    requires q < n
    ensures Run(n, ops).processes[q].relay.Stopped? <==> !RelayStarted(ops, q)
    ensures Run(n, ops).processes[q].relay.Listening? <==> RelayUp(ops, q)
  {
    if ops != [] {
      RelayFollowsPublishes(n, ops[..|ops| - 1], q);
      ApplyRelay(Run(n, ops[..|ops| - 1]), ops[|ops| - 1], q);
    }
  }

  /** A message published while the relay of another process is still starting, or
      missing, does not reach that process at all. */
  lemma NotYetSubscribedMisses(n: nat, ops: seq<Op>, op: Op, d: Delivery)
    requires op.Send? && op.process < n && d.process < n && d.process != op.process && !RelayUp(ops, d.process)
    ensures Run(n, ops + [op]).log[d] == Run(n, ops).log[d]
  {
    assert (ops + [op])[..|ops|] == ops;
    RelayFollowsPublishes(n, ops, d.process);
    CopiesDelivered(Run(n, ops), op.process, op.kind, op.id, op.payload, op.alive, op.published, d);
  }

  /** At least once: a socket that connected and has accepted every send so far gets
      the message when it is in the publisher's process, or when the publish
      succeeds and the relay of its own process has subscribed without stopping since. */
  lemma LiveSocketsAreReached(n: nat, ops: seq<Op>, op: Op, q: ProcessId, ws: Socket)
    requires op.Send? && op.process < n && q < n && ws in AliveIn(op.alive, q)
    requires LastConnected(ops, q, op.kind, op.id, ws) && AlwaysAlive(ops, q, ws)
    requires q == op.process || (op.published && RelayUp(ops, q))
    ensures var d := Delivery(q, ws, op.payload);
            Run(n, ops).log[d] < Run(n, ops + [op]).log[d] <= Run(n, ops).log[d] + 2
  {
    assert (ops + [op])[..|ops|] == ops;
    RegistryFollowsConnections(n, ops, q, op.kind, op.id, ws);
    RelayFollowsPublishes(n, ops, q);
    CopiesDelivered(Run(n, ops), op.process, op.kind, op.id, op.payload, op.alive, op.published, Delivery(q, ws, op.payload));
  }
}
