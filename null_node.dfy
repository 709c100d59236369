/**
  The "null" node service: the per-peer maintenance rule run on idle ticks,
  the listener's admission counter and its round-robin cursor over the peer
  list, and the exit rule of the per-connection loop.

  Sockets, the worker pool, threads and the shutdown flag are not modelled.
  The clock is the value `now`; connect, ping, negotiation, read and
  protocol dispatch are given as their results; journal sync is recorded as
  invoked or not.
*/
module NullNode {
  import opened Wrappers

  datatype ConnectionType = NotConnected | Connected

  /** The part of a peer's SessionContext maintenance reads. */
  datatype SessionContext = SessionContext(lastCommEpoch: int)

  /** struct Libp2pPeer, the fields maintenance reads or writes. */
  class Peer {
    const isLocal: bool
    var connectionType: ConnectionType
    var sessionContext: Option<SessionContext>

    constructor (isLocal: bool, connectionType: ConnectionType, sessionContext: Option<SessionContext>)
      ensures this.isLocal == isLocal && this.connectionType == connectionType
      ensures this.sessionContext == sessionContext
    {
      this.isLocal := isLocal;
      this.connectionType := connectionType;
      this.sessionContext := sessionContext;
    }
  }

  /** struct ReplicationPeer: when this backup partner was last synced. */
  datatype ReplicationPeer = ReplicationPeer(lastConnect: int)

  /** The replication section of the node's configuration. */
  datatype ReplicationConfig = ReplicationConfig(announce: bool, announceMinutes: int)

  /** Seconds of silence after which a connected peer is pinged. */
  const PingIdleSeconds := 180

  /** A backup nudge is due: the peer is a partner, announcing is on, and its interval has run out. */
  predicate BackupDue(config: ReplicationConfig, replication: Option<ReplicationPeer>, now: int) {
    replication.Some? && config.announce &&
    config.announceMinutes * 60 - (now - replication.value.lastConnect) < 0
  }

  /** A liveness probe is due: the peer has a session that has been silent too long. */
  predicate PingDue(session: Option<SessionContext>, now: int) {
    session.Some? && now - session.value.lastCommEpoch > PingIdleSeconds
  }

  /** Which collaborators one maintenance call invoked. */
  datatype Calls = Calls(connect: bool, sync: bool, ping: bool)

  const NoCalls := Calls(false, false, false)

  /** What one maintenance call gives back and leaves behind: its result, the calls it made, the peer's connection type. */
  datatype Outcome = Outcome(result: int, calls: Calls, connectionType: ConnectionType)

  /**
    The decision of ipfs_null_do_maintenance for a non-NULL peer. A local
    peer: 1, nothing done. Backup due: connect when not connected (a failed
    connect gives 0 and no sync), then sync once and give 1. Otherwise give
    1, and ping only when a probe is due and the peer is connected; a failed
    ping marks the peer not connected.
  */
  function Maintain(isLocal: bool, connectionType: ConnectionType, session: Option<SessionContext>,
                    config: ReplicationConfig, replication: Option<ReplicationPeer>,
                    now: int, connectOk: bool, pingOk: bool): (o: Outcome)
    ensures isLocal ==> o == Outcome(1, NoCalls, connectionType)
    ensures !isLocal && BackupDue(config, replication, now) ==>
      var connected := connectionType == Connected;
      && o.connectionType == connectionType
      && o.calls == Calls(!connected, connected || connectOk, false)
      && o.result == (if connected || connectOk then 1 else 0)
    ensures !isLocal && !BackupDue(config, replication, now) ==>
      var probe := PingDue(session, now) && connectionType == Connected;
      && o.result == 1
      && o.calls == Calls(false, false, probe)
      && o.connectionType == (if probe && !pingOk then NotConnected else connectionType)
  {
    if isLocal then Outcome(1, NoCalls, connectionType)
    else
      var announceSecs := config.announceMinutes * 60 -
        (if replication.Some? then now - replication.value.lastConnect else 0);
      if replication.Some? && config.announce && announceSecs < 0 then
        if connectionType == Connected then Outcome(1, Calls(false, true, false), connectionType)
        else if connectOk then Outcome(1, Calls(true, true, false), connectionType)
        else Outcome(0, Calls(true, false, false), connectionType)
      else if session.Some? && now - session.value.lastCommEpoch > PingIdleSeconds && connectionType == Connected then
        Outcome(1, Calls(false, false, true), if pingOk then connectionType else NotConnected)
      else Outcome(1, NoCalls, connectionType)
  }

  /**
    ipfs_null_do_maintenance. A NULL peer gives 0 and nothing is called;
    otherwise the result, the calls and the peer's new connection type are
    Maintain's over the peer's old fields, and its session is untouched.
  */
  method DoMaintenance(peer: Peer?, config: ReplicationConfig, replication: Option<ReplicationPeer>,
                       now: int, connectOk: bool, pingOk: bool)
    returns (r: int, calls: Calls)
    modifies peer
    ensures peer == null ==> r == 0 && calls == NoCalls
    ensures peer != null ==> peer.sessionContext == old(peer.sessionContext)
    ensures peer != null ==>
      Outcome(r, calls, peer.connectionType) ==
      Maintain(peer.isLocal, old(peer.connectionType), old(peer.sessionContext), config, replication, now, connectOk, pingOk)
  {
    if peer == null {
      return 0, NoCalls;
    }
    if peer.isLocal {
      return 1, NoCalls;
    }
    var announceSecs := config.announceMinutes * 60;
    if replication.Some? {
      announceSecs := announceSecs - (now - replication.value.lastConnect);
    }
    calls := NoCalls;
    if replication.Some? && config.announce && announceSecs < 0 {
      if peer.connectionType != Connected {
        calls := calls.(connect := true);
        if !connectOk {
          return 0, calls;
        }
      }
      calls := calls.(sync := true);
    } else {
      if peer.sessionContext.Some? && now - peer.sessionContext.value.lastCommEpoch > PingIdleSeconds {
        if peer.connectionType == Connected {
          calls := calls.(ping := true);
          if !pingOk {
            peer.connectionType := NotConnected;
          }
        }
      }
    }
    r := 1;
  }

  // ---------------------------------------------------------------------
  // The connection loop of ipfs_null_connection
  // ---------------------------------------------------------------------

  /** What one pass of the loop sees: negotiation, the read, and what protocol dispatch returns. */
  datatype Round = Round(negotiated: bool, readOk: bool, marshal: int)

  /** The loop goes round again after this pass. */
  predicate Continues(r: Round) {
    r.negotiated && r.readOk && r.marshal > 0
  }

  /**
    The for(;;) loop: it leaves at the first pass whose negotiation or read
    fails or whose dispatch returns 0 or less. `completed` passes looped
    back; `dispatched` counts the calls to protocol dispatch.
  */
  method ServeSession(rounds: seq<Round>) returns (completed: nat, dispatched: nat)
    requires exists k | 0 <= k < |rounds| :: !Continues(rounds[k])
    ensures completed < |rounds| && !Continues(rounds[completed])
    ensures forall k | 0 <= k < completed :: Continues(rounds[k])
    ensures dispatched == completed + (if rounds[completed].negotiated && rounds[completed].readOk then 1 else 0)
  {
    completed, dispatched := 0, 0;
    while true
      invariant exists k | completed <= k < |rounds| :: !Continues(rounds[k])
      invariant forall k | 0 <= k < completed :: Continues(rounds[k])
      invariant dispatched == completed
      decreases |rounds| - completed
    {
      var round := rounds[completed];
      if !round.negotiated {
        break;
      }
      if !round.readOk {
        break;
      }
      dispatched := dispatched + 1;
      if round.marshal <= 0 {
        break;
      }
      completed := completed + 1;
    }
  }

  // ---------------------------------------------------------------------
  // The round-robin cursor of ipfs_null_listen
  // ---------------------------------------------------------------------

  /** The cursor after one timeout tick over `k` peers: the next entry, or the head past the end. */
  function Next(c: nat, k: nat): (r: nat)
    requires c < k
    ensures r < k
  {
    if c + 1 == k then 0 else c + 1
  }

  /** The cursor after `n` ticks. */
  function Advance(c: nat, n: nat, k: nat): (r: nat)
    requires c < k
    ensures r < k
    decreases n
  {
    if n == 0 then c else Advance(Next(c, k), n - 1, k)
  }

  /** The peers visited by `n` ticks from cursor `c`, in order. */
  function Schedule(c: nat, n: nat, k: nat): (s: seq<nat>)
    requires c < k
    ensures |s| == n
    decreases n
  {
    if n == 0 then [] else [c] + Schedule(Next(c, k), n - 1, k)
  }

  /** How many ticks from cursor `c` to reach peer `p`. */
  function Distance(c: nat, p: nat, k: nat): nat
    requires c < k && p < k
  {
    if p >= c then p - c else p + k - c
  }

  /** One more tick appends the cursor's current position to the schedule. */
  lemma {:induction false} ScheduleSnoc(c: nat, n: nat, k: nat)
    requires c < k
    ensures Schedule(c, n + 1, k) == Schedule(c, n, k) + [Advance(c, n, k)]
    decreases n
  {
    if n > 0 {
      ScheduleSnoc(Next(c, k), n - 1, k);
    }
  }

  /** `a + b` ticks are `a` ticks followed by `b` ticks from where those left the cursor. */
  lemma {:induction false} ScheduleSplit(c: nat, a: nat, b: nat, k: nat)
    requires c < k
    ensures Schedule(c, a + b, k) == Schedule(c, a, k) + Schedule(Advance(c, a, k), b, k)
    ensures Advance(c, a + b, k) == Advance(Advance(c, a, k), b, k)
    decreases a
  {
    if a > 0 {
      ScheduleSplit(Next(c, k), a - 1, b, k);
      assert a + b - 1 == (a - 1) + b;
    }
  }

  /** Ticks that stay short of the end of the list move the cursor one entry each. */
  lemma {:induction false} AdvanceWithoutWrap(c: nat, n: nat, k: nat)
    requires c + n < k
    ensures Advance(c, n, k) == c + n
    decreases n
  {
    if n > 0 {
      AdvanceWithoutWrap(c + 1, n - 1, k);
    }
  }

  /** `k` ticks bring the cursor back to where it started. */
  lemma AdvanceFullCycle(c: nat, k: nat)
    requires c < k
    ensures Advance(c, k, k) == c
  {
    AdvanceWithoutWrap(c, k - 1 - c, k);
    ScheduleSplit(c, k - 1 - c, 1, k);
    ScheduleSplit(c, k - c, c, k);
    AdvanceWithoutWrap(0, c, k);
  }

  /** Fewer than `k + 1` ticks visit peer `p` once if they reach it and never otherwise. */
  lemma {:induction false} WithinOneCycle(c: nat, m: nat, k: nat, p: nat)
    requires c < k && p < k && m <= k
    ensures multiset(Schedule(c, m, k))[p] == if Distance(c, p, k) < m then 1 else 0
    decreases m
  {
    if m > 0 {
      WithinOneCycle(Next(c, k), m - 1, k, p);
      assert Schedule(c, m, k) == [c] + Schedule(Next(c, k), m - 1, k);
    }
  }

  /** A multiple of `k` by a non-zero integer is at least `k` away from 0. */
  lemma MulBound(k: nat, x: int)
    ensures x >= 1 ==> k * x >= k
    ensures x <= -1 ==> k * x + k <= 0
  {
    assert k * x == k * (x - 1) + k;
    assert k * x == k * (x + 1) - k;
  }

  /** n = k * q + r with 0 <= r < k determines n / k and n % k. */
  lemma DivModUnique(n: nat, k: nat, q: int, r: int)
    requires 0 <= r < k && n == k * q + r
    ensures n / k == q && n % k == r
  {
    var q', r' := n / k, n % k;
    assert k * (q' - q) == r - r';
    MulBound(k, q' - q);
  }

  /** One more full cycle of ticks: n / k grows by one and n % k stays. */
  lemma DivStep(n: nat, k: nat)
    requires 0 < k <= n
    ensures n / k == (n - k) / k + 1 && n % k == (n - k) % k
  {
    var q, r := (n - k) / k, (n - k) % k;
    assert n - k == k * q + r;
    assert n == k * (q + 1) + r;
    DivModUnique(n, k, q + 1, r);
  }

  /** Exactly how often `n` ticks from cursor `c` visit peer `p`. */
  lemma {:induction false} VisitCount(c: nat, n: nat, k: nat, p: nat)
    requires c < k && p < k
    ensures multiset(Schedule(c, n, k))[p] == n / k + (if Distance(c, p, k) < n % k then 1 else 0)
    decreases n
  {
    if n < k {
      DivModUnique(n, k, 0, n);
      WithinOneCycle(c, n, k, p);
    } else {
      ScheduleSplit(c, k, n - k, k);
      AdvanceFullCycle(c, k);
      WithinOneCycle(c, k, k, p);
      VisitCount(c, n - k, k, p);
      DivStep(n, k);
    }
  }

  /** Rounding n / k up adds one exactly when k does not divide n. */
  lemma CeilDiv(n: nat, k: nat)
    requires 0 < k
    ensures (n + k - 1) / k == n / k + (if n % k == 0 then 0 else 1)
  {
    var q, r := n / k, n % k;
    assert n == k * q + r;
    if r == 0 {
      assert n + k - 1 == k * q + (k - 1);
      DivModUnique(n + k - 1, k, q, k - 1);
    } else {
      assert n + k - 1 == k * (q + 1) + (r - 1);
      DivModUnique(n + k - 1, k, q + 1, r - 1);
    }
  }

  /** Round-robin fairness: `n` ticks over `k` peers visit each peer floor(n/k) or ceil(n/k) times. */
  lemma RoundRobinFair(c: nat, n: nat, k: nat, p: nat)
    requires c < k && p < k
    ensures multiset(Schedule(c, n, k))[p] == n / k || multiset(Schedule(c, n, k))[p] == (n + k - 1) / k
  {
    VisitCount(c, n, k, p);
    CeilDiv(n, k);
  }

  // ---------------------------------------------------------------------
  // The listener's admission counter and cursor
  // ---------------------------------------------------------------------

  /** struct null_connection_params, without the socket and node pointers. */
  datatype ConnectionParams = ConnectionParams(fileDescriptor: int, ip: Option<string>, port: int)

  /**
    The state ipfs_null_listen keeps in its locals: the live-connection
    count, the cap CONNECTIONS it is checked against, the peer list and the
    cursor into it. The count stays between 0 and the cap, since a
    connection is only served after its admission raised the count.
    `start` and `visited` record, for the proofs, where the cursor began
    and every entry a tick has visited.
  */
  class Listener {
    const connections: int
    var count: int
    const peers: seq<Peer?>
    var cursor: nat
    ghost var start: nat
    ghost var visited: seq<nat>

    ghost predicate Valid()
      reads this
    {
      0 <= count <= connections &&
      if |peers| == 0 then cursor == 0 && visited == []
      else start < |peers| && cursor < |peers| &&
           visited == Schedule(start, |visited|, |peers|) &&
           cursor == Advance(start, |visited|, |peers|)
    }

    /** The count starts at 0 and the cursor at the head of the peer list. */
    constructor (connections: int, peers: seq<Peer?>)
      requires connections >= 0
      ensures Valid()
      ensures this.connections == connections && this.peers == peers
      ensures count == 0 && cursor == 0 && start == 0 && visited == []
    {
      this.connections := connections;
      this.peers := peers;
      count := 0;
      cursor := 0;
      start := 0;
      visited := [];
    }

    /**
      A connection became ready. At or above the cap it is closed and the
      count stays put; otherwise the count goes up by one and, when the
      params allocation succeeds, work is queued with params whose address
      is the formatted one, or NULL with port 0 if formatting failed.
    */
    method Accept(fd: int, port: int, paramsAllocated: bool, address: Option<string>)
      returns (accepted: bool, queued: Option<ConnectionParams>)
      requires Valid()
      modifies this`count
      ensures Valid()
      ensures accepted == (old(count) < connections)
      ensures count == if accepted then old(count) + 1 else old(count)
      ensures queued == if accepted && paramsAllocated
        then Some(if address.Some? then ConnectionParams(fd, address, port) else ConnectionParams(fd, None, 0))
        else None
    {
      if count >= connections {
        return false, None;
      }
      count := count + 1;
      accepted := true;
      if !paramsAllocated {
        return accepted, None;
      }
      var params := ConnectionParams(fd, None, port);
      match address {
        case Some(text) => params := params.(ip := Some(text));
        case None => params := params.(ip := None, port := 0);
      }
      queued := Some(params);
    }

    /**
      ipfs_null_connection for one queued connection: when the session
      allocates, the loop runs to its exit and the count goes down exactly
      once; when it does not, the call returns at once and the count is not
      touched. It runs only for params queued by an admission, so the count
      is positive. Only the count and the number of passes are modelled;
      the params and the socket they carry are not read.
    */
    method Connection(sessionAllocated: bool, rounds: seq<Round>)
      returns (served: Option<nat>)
      requires Valid() && count > 0
      requires exists k | 0 <= k < |rounds| :: !Continues(rounds[k])
      modifies this`count
      ensures Valid()
      ensures served.Some? == sessionAllocated
      ensures served.Some? ==>
        served.value < |rounds| && !Continues(rounds[served.value]) &&
        (forall k | 0 <= k < served.value :: Continues(rounds[k]))
      ensures count == if sessionAllocated then old(count) - 1 else old(count)
    {
      if !sessionAllocated {
        return None;
      }
      var completed, _ := ServeSession(rounds);
      count := count - 1;
      served := Some(completed);
    }

    /**
      A timeout tick: maintain the peer under the cursor, then move the
      cursor to the next entry, back to the head past the end. The peer
      list must be non-empty; the source reads the entry before testing
      the cursor for NULL.
    */
    method Tick(config: ReplicationConfig, replication: Option<ReplicationPeer>, now: int,
                connectOk: bool, pingOk: bool) returns (r: int, calls: Calls)
      requires Valid() && |peers| > 0
      modifies this`cursor, this`visited, peers[cursor]
      ensures Valid()
      ensures cursor == Next(old(cursor), |peers|)
      ensures visited == old(visited) + [old(cursor)]
      ensures peers[old(cursor)] == null ==> r == 0 && calls == NoCalls
      ensures var p := peers[old(cursor)];
        p != null ==>
          && p.sessionContext == old(p.sessionContext)
          && Outcome(r, calls, p.connectionType) ==
             Maintain(p.isLocal, old(p.connectionType), old(p.sessionContext), config, replication, now, connectOk, pingOk)
    {
      r, calls := DoMaintenance(peers[cursor], config, replication, now, connectOk, pingOk);
      ScheduleSnoc(start, |visited|, |peers|);
      ScheduleSplit(start, |visited|, 1, |peers|);
      visited := visited + [cursor];
      cursor := Next(cursor, |peers|);
    }
  }

  /** Every tick a listener has made so far visited each peer floor(n/k) or ceil(n/k) times. */
  lemma ListenerFair(l: Listener, p: nat)
    requires l.Valid() && p < |l.peers|
    ensures var n, k := |l.visited|, |l.peers|;
      multiset(l.visited)[p] == n / k || multiset(l.visited)[p] == (n + k - 1) / k
  {
    RoundRobinFair(l.start, |l.visited|, |l.peers|, p);
  }
}
