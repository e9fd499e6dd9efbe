/** IceConnection, IceController and the pinging of IceTransportChannel.  Clock readings are
    parameters. */
module Ice {
  import opened Basics
  import opened IceRank
  import opened PingRounds

  const WEAK_PING_INTERVAL := 48
  const STRONG_PING_INTERVAL := 480
  const STABLING_CONNECTION_PING_INTERVAL := 900
  const STABLE_CONNECTION_PING_INTERVAL := 2500
  const MIN_PINGS_AT_WEAK_PING_INTERVAL := 3
  const WEAK_CONNECTION_RECEIVE_TIMEOUT := 2500
  const CONNECTION_WRITE_CONNECT_FAILS := 5
  const CONNECTION_WRITE_CONNECT_TIMEOUT := 5000
  const CONNECTION_WRITE_TIMEOUT := 15000
  const RTT_RATIO := 3
  const MIN_RTT := 100
  const MAX_RTT := 60000
  const PING_INTERVAL_DIFF := 5

  // A moving average, truncated towards zero.
  function MovingAverage(previous: int, current: int): int {
    var sum := 3 * previous + current;
    if sum >= 0 then sum / 4 else -(-sum / 4)
  }

  /** How a write state ages. */
  function Aged(writeState: nat, failing: bool, silent: bool): nat {
    var aged := if writeState == WRITABLE && failing then WRITE_UNRELIABLE else writeState;
    if (aged == WRITE_UNRELIABLE || aged == WRITE_INIT) && silent then WRITE_TIMEOUT else aged
  }

  class IceConnection {
    const localPriority: U32
    const remotePriority: U32
    var username: string          // of the remote candidate
    var password: string
    var writeState: nat
    var receiving: bool
    var lastPingSent: int
    var lastPingReceived: int
    var lastPingResponseReceived: int
    var lastDataReceived: int
    var numPingsSent: nat
    var pings: seq<int>           // when those since the last response were sent
    var rtt: int
    var rttSamples: nat

    constructor (localPriority: U32, remotePriority: U32, username: string, password: string)
      ensures writeState == WRITE_INIT && !receiving && numPingsSent == 0 && pings == []
      ensures this.username == username && this.password == password
      ensures this.localPriority == localPriority && this.remotePriority == remotePriority
    {
      this.localPriority, this.remotePriority := localPriority, remotePriority;
      this.username, this.password := username, password;
      writeState, receiving, numPingsSent, pings := WRITE_INIT, false, 0, [];
      lastPingSent, lastPingReceived, lastPingResponseReceived, lastDataReceived := 0, 0, 0, 0;
      rtt, rttSamples := 3000, 0;
    }

    function GetRank(): Rank
      reads this`writeState, this`receiving, this`rtt
    {
      Rank(writeState, receiving, Priority(localPriority, remotePriority), rtt)
    }

    predicate Writable()
      reads this`writeState
    {
      writeState == WRITABLE
    }

    predicate HasCredentials()
      reads this`username, this`password
    {
      username != "" && password != ""
    }

    predicate Stable(now: int)
      reads this`rttSamples, this`pings, this`rtt
    {
      rttSamples > RTT_RATIO + 1 && !(pings != [] && now - pings[0] > 2 * rtt)
    }

    // How long a ping may go unanswered.
    function Patience(): (ms: int)
      reads this`rtt
      ensures MIN_RTT <= ms <= MAX_RTT
    {
      if 2 * rtt < MIN_RTT then MIN_RTT else if 2 * rtt > MAX_RTT then MAX_RTT else 2 * rtt
    }

    /** The fifth ping in a row is overdue, and the first has been unanswered for 5 seconds. */
    predicate Failing(now: int)
      reads this`pings, this`rtt
    {
      && |pings| >= CONNECTION_WRITE_CONNECT_FAILS
      && now > pings[CONNECTION_WRITE_CONNECT_FAILS - 1] + Patience()
      && now > pings[0] + CONNECTION_WRITE_CONNECT_TIMEOUT
    }

    /** The first unanswered ping was sent more than 15 seconds ago. */
    predicate Silent(now: int)
      reads this`pings
    {
      pings != [] && now > pings[0] + CONNECTION_WRITE_TIMEOUT
    }

    function LastReceived(): int
      reads this`lastPingReceived, this`lastPingResponseReceived, this`lastDataReceived
    {
      Max(Max(lastPingReceived, lastPingResponseReceived), lastDataReceived)
    }

    /** The last ping was answered, or something came in the last two and a half seconds. */
    predicate Hears(now: int)
      reads this`lastPingSent, this`lastPingReceived, this`lastPingResponseReceived, this`lastDataReceived
    {
      || lastPingSent < lastPingResponseReceived
      || (LastReceived() > 0 && now < LastReceived() + WEAK_CONNECTION_RECEIVE_TIMEOUT)
    }

    function AgedState(now: int): (nat, bool)
      reads this
    {
      (Aged(writeState, Failing(now), Silent(now)), Hears(now))
    }

    /** update_receiving.  A change is signalled to the channel, which follows it at once. */
    method UpdateReceiving(now: int, channel: IceTransportChannel)
      requires channel.controller.Partition()
      modifies this`receiving, channel`selected, channel.controller`connections, channel.controller`selected
      ensures receiving == Hears(now)
      ensures channel.controller.Partition() && Follows(old(channel.View()), channel.View())
      ensures receiving == old(receiving) ==> channel.View() == old(channel.View())
      ensures receiving != old(receiving) ==> Settled(channel.View())
    {
      var hears;
      if lastPingSent < lastPingResponseReceived {
        hears := true;
      } else {
        hears := LastReceived() > 0 && now < LastReceived() + WEAK_CONNECTION_RECEIVE_TIMEOUT;
      }
      if receiving != hears {
        receiving := hears;
        channel.OnConnectionStateChange();
      }
    }

    // set_write_state, which signals a change too.
    method SetWriteState(state: nat, channel: IceTransportChannel)
      requires channel.controller.Partition()
      modifies this`writeState, channel`selected, channel.controller`connections, channel.controller`selected
      ensures writeState == state
      ensures channel.controller.Partition() && Follows(old(channel.View()), channel.View())
      ensures state == old(writeState) ==> channel.View() == old(channel.View())
      ensures state != old(writeState) ==> Settled(channel.View())
    {
      if writeState != state {
        writeState := state;
        channel.OnConnectionStateChange();
      }
    }

    method AgeWriteState(now: int, channel: IceTransportChannel)
      requires channel.controller.Partition()
      modifies this`writeState, channel`selected, channel.controller`connections, channel.controller`selected
      ensures writeState == Aged(old(writeState), Failing(now), Silent(now))
      ensures channel.controller.Partition() && Follows(old(channel.View()), channel.View())
      ensures writeState == old(writeState) ==> channel.View() == old(channel.View())
      ensures writeState != old(writeState) ==> Settled(channel.View())
    {
      ghost var before := channel.View();
      if writeState == WRITABLE && Failing(now) {
        SetWriteState(WRITE_UNRELIABLE, channel);
      }
      ghost var middle := channel.View();
      if (writeState == WRITE_UNRELIABLE || writeState == WRITE_INIT) && Silent(now) {
        SetWriteState(WRITE_TIMEOUT, channel);
      }
      FollowsOn(before, middle, channel.View());
    }

    /** Ages the write state.  A writable connection stays so exactly if it is not failing; one
        that was not yet, or no longer, writable times out exactly if it is silent; and a
        failing one that is silent times out at once.  The channel follows every change. */
    method UpdateState(now: int, channel: IceTransportChannel)
      requires channel.controller.Partition()
      modifies this`writeState, this`receiving, channel`selected, channel.controller`connections, channel.controller`selected
      ensures (writeState, receiving) == old(AgedState(now))
      ensures writeState == WRITABLE <==> old(writeState) == WRITABLE && !old(Failing(now))
      ensures old(writeState) <= WRITE_TIMEOUT ==>
        (writeState == WRITE_TIMEOUT <==>
          || old(writeState) == WRITE_TIMEOUT
          || (old(Silent(now)) && (old(writeState) == WRITABLE ==> old(Failing(now)))))
      ensures old(writeState) <= writeState && (writeState == old(writeState) || writeState in {WRITE_UNRELIABLE, WRITE_TIMEOUT})
      ensures (writeState, receiving) != old((writeState, receiving)) ==> Settled(channel.View())
      ensures channel.controller.Partition() && Follows(old(channel.View()), channel.View())
    {
      ghost var before := channel.View();
      AgeWriteState(now, channel);
      ghost var middle := channel.View();
      UpdateReceiving(now, channel);
      FollowsOn(before, middle, channel.View());
    }

    method Ping(now: int)
      modifies this`lastPingSent, this`pings, this`numPingsSent
      ensures lastPingSent == now && pings == old(pings) + [now] && numPingsSent == old(numPingsSent) + 1
    {
      lastPingSent := now;
      pings := pings + [now];
      numPingsSent := numPingsSent + 1;
    }

    // What received_ping_response records.
    method RecordResponse(sample: int, now: int)
      modifies this`rtt, this`rttSamples, this`lastPingResponseReceived, this`pings
      ensures pings == [] && (now > 0 ==> Hears(now))
      ensures rtt == (if old(rttSamples) > 0 then MovingAverage(old(rtt), sample) else sample)
      ensures rttSamples == old(rttSamples) + 1 && lastPingResponseReceived == now
    {
      rtt := if rttSamples > 0 then MovingAverage(rtt, sample) else sample;
      rttSamples := rttSamples + 1;
      lastPingResponseReceived := now;
      pings := [];
      assert now > 0 ==> LastReceived() >= now;
    }

    // A response makes a connection receiving and writable.
    method Revive(now: int, channel: IceTransportChannel)
      requires channel.controller.Partition()
      modifies this`receiving, this`writeState, channel`selected, channel.controller`connections, channel.controller`selected
      ensures writeState == WRITABLE && receiving == Hears(now)
      ensures channel.controller.Partition() && Follows(old(channel.View()), channel.View())
      ensures old(writeState) != WRITABLE || old(receiving) != receiving ==> Settled(channel.View())
      ensures old(writeState) == WRITABLE && old(receiving) == receiving ==> channel.View() == old(channel.View())
    {
      ghost var before := channel.View();
      UpdateReceiving(now, channel);
      ghost var middle := channel.View();
      SetWriteState(WRITABLE, channel);
      FollowsOn(before, middle, channel.View());
    }

    /** After a response the connection is writable and receiving, whatever it was before, and
        does not age before it is pinged again.  The channel follows a change of state, but not
        a new round trip time. */
    method ReceivedPingResponse(sample: int, now: int, channel: IceTransportChannel)
      requires channel.controller.Partition()
      modifies this`rtt, this`rttSamples, this`lastPingResponseReceived, this`pings, this`receiving, this`writeState
      modifies channel`selected, channel.controller`connections, channel.controller`selected
      ensures writeState == WRITABLE && (now > 0 ==> receiving) && pings == []
      ensures forall later: int {:trigger Failing(later)} :: !Failing(later) && !Silent(later)
      ensures rtt == (if old(rttSamples) > 0 then MovingAverage(old(rtt), sample) else sample)
      ensures rttSamples == old(rttSamples) + 1 && lastPingResponseReceived == now
      ensures channel.controller.Partition() && Resorts(old(channel.View()), channel.View())
      ensures old(writeState) != WRITABLE || old(receiving) != receiving ==> Settled(channel.View())
      ensures old(writeState) == WRITABLE && old(receiving) == receiving ==>
        channel.View() == old(channel.View()).(ranks := channel.controller.Ranks())
    {
      RecordResponse(sample, now);
      Revive(now, channel);
      forall later: int ensures !Failing(later) && !Silent(later) {
        assert |pings| == 0;
      }
    }
  }

  // ---------- The controller ----------

  function Without<T(==)>(s: seq<T>, x: T): (r: seq<T>)
    ensures x !in r
    ensures forall y :: y in r ==> y in s
    ensures forall y :: y in s && y != x ==> y in r
  {
    if s == [] then [] else (if s[0] == x then [] else [s[0]]) + Without(s[1..], x)
  }

  lemma WithoutNext<T>(left: seq<T>, x: T, rest: seq<T>, y: T)
    ensures left + Without([x] + rest, y) == if x == y then left + Without(rest, y) else left + [x] + Without(rest, y)
  {
    var r := Without(rest, y);
    assert ([x] + rest)[1..] == rest;
    assert Without([x] + rest, y) == (if x == y then [] else [x]) + r;
    assert left + ([x] + r) == left + [x] + r;
  }

  function Elements(conns: seq<IceConnection>): set<IceConnection> {
    set c | c in conns
  }

  lemma ElementsNext(conns: seq<IceConnection>, i: nat)
    requires i < |conns|
    ensures Elements(conns[..i + 1]) == Elements(conns[..i]) + {conns[i]}
  {
    assert conns[..i + 1] == conns[..i] + [conns[i]];
  }

  lemma NoElements(conns: seq<IceConnection>)
    ensures Elements(conns) == {} <==> conns == []
  {
    assert conns != [] ==> conns[0] in Elements(conns);
  }

  lemma OneElement(conns: seq<IceConnection>, conn: IceConnection)
    requires |conns| == 1 && Elements(conns) == {conn}
    ensures conns == [conn]
  {
    assert conns[0] in Elements(conns);
  }

  lemma SameElements(a: seq<IceConnection>, b: seq<IceConnection>)
    requires multiset(a) == multiset(b)
    ensures Elements(a) == Elements(b)
  {
    assert forall c :: c in a ==> c in multiset(a);
    assert forall c :: c in b ==> c in multiset(b);
  }

  ghost predicate WaitedLongest(conn: IceConnection, conns: set<IceConnection>)
    reads conns`lastPingSent, conn`lastPingSent
  {
    conn in conns && forall c :: c in conns ==> conn.lastPingSent <= c.lastPingSent
  }

  // What is looked at in a set of connections.
  function RanksOf(conns: set<IceConnection>): map<IceConnection, Rank>
    reads conns`writeState, conns`receiving, conns`rtt
  {
    map c | c in conns :: c.GetRank()
  }

  ghost function AgedStatesOf(conns: set<IceConnection>, now: int): map<IceConnection, (nat, bool)>
    reads conns
  {
    map c | c in conns :: c.AgedState(now)
  }

  ghost predicate HaveAged(conns: set<IceConnection>, now: int)
    reads conns
  {
    forall c :: c in conns ==> (c.writeState, c.receiving) == c.AgedState(now)
  }

  // The pings of a connection: the last, those without a response, and how many.
  datatype Log = Log(last: int, pings: seq<int>, count: nat)

  ghost function LogsOf(conns: set<IceConnection>): map<IceConnection, Log>
    reads conns`lastPingSent, conns`pings, conns`numPingsSent
  {
    map c | c in conns :: Log(c.lastPingSent, c.pings, c.numPingsSent)
  }

  ghost function Lasts(logs: map<IceConnection, Log>): map<IceConnection, int> {
    map c | c in logs :: logs[c].last
  }

  // A ping of conn, if it is one of them.
  ghost function Logged(logs: map<IceConnection, Log>, conn: IceConnection?, sent: int): map<IceConnection, Log> {
    if conn == null || conn !in logs then logs else logs[conn := Log(sent, logs[conn].pings + [sent], logs[conn].count + 1)]
  }

  ghost function WithCredentials(conns: set<IceConnection>): set<IceConnection>
    reads conns`username, conns`password
  {
    set c | c in conns && c.HasCredentials()
  }

  function ToOption(conn: IceConnection?): Option<IceConnection> {
    if conn == null then None else Some(conn)
  }

  function Chosen(conn: IceConnection?): set<IceConnection> {
    if conn == null then {} else var chosen: IceConnection := conn; {chosen}
  }

  // Once it is the best, c is selected in place of `was`.
  predicate Replaces(c: IceConnection, was: IceConnection?)
    reads c`writeState, c`receiving, c`rtt, Chosen(was)`rtt
  {
    && ReadyToSend(c.GetRank()) && c != was
    && (was != null ==> c.rtt <= was.rtt - MIN_IMPROVEMENT)
  }

  class IceController {
    var connections: seq<IceConnection>
    var unpinged: set<IceConnection>
    var pinged: set<IceConnection>
    var selected: IceConnection?

    /** Each connection is either pinged or unpinged in this round. */
    ghost predicate Partition()
      reads this`connections, this`unpinged, this`pinged
    {
      && unpinged !! pinged
      && Elements(connections) == unpinged + pinged
    }

    constructor ()
      ensures Partition() && connections == [] && selected == null
    {
      connections, unpinged, pinged, selected := [], {}, {}, null;
    }

    method AddConnection(conn: IceConnection)
      requires Partition() && conn !in connections
      modifies this`connections, this`unpinged
      ensures Partition() && connections == old(connections) + [conn] && unpinged == old(unpinged) + {conn}
    {
      connections := connections + [conn];
      unpinged := unpinged + {conn};
    }

    /** Forgets a connection, except that a selected one stays selected here. */
    method OnConnectionDestroyed(conn: IceConnection)
      requires Partition()
      modifies this`connections, this`unpinged, this`pinged
      ensures Partition() && connections == Without(old(connections), conn)
      ensures unpinged == old(unpinged) - {conn} && pinged == old(pinged) - {conn}
    {
      pinged := pinged - {conn};
      unpinged := unpinged - {conn};
      Erase(conn);
    }

    method Erase(conn: IceConnection)
      modifies this`connections
      ensures connections == Without(old(connections), conn)
    {
      var i := 0;
      while i < |connections|
        invariant 0 <= i <= |connections|
        invariant connections[..i] + Without(connections[i..], conn) == Without(old(connections), conn)
        decreases |connections| - i
      {
        ghost var left, rest := connections[..i], connections[i + 1..];
        assert connections[i..] == [connections[i]] + rest;
        WithoutNext(left, connections[i], rest, conn);
        if connections[i] == conn {
          connections := connections[..i] + connections[i + 1..];
          assert connections[i..] == rest && connections[..i] == left;
        } else {
          assert connections[..i + 1] == left + [connections[i]];
          i := i + 1;
        }
      }
      assert connections[..i] == connections;
    }

    predicate Weak()
      reads this, selected
    {
      selected == null || !(selected.Writable() && selected.receiving)
    }

    function PingInterval(conn: IceConnection, now: int): int
      reads this, selected, conn
    {
      if conn.numPingsSent < MIN_PINGS_AT_WEAK_PING_INTERVAL then WEAK_PING_INTERVAL
      else if Weak() || !conn.Stable(now) then STABLING_CONNECTION_PING_INTERVAL
      else STABLE_CONNECTION_PING_INTERVAL
    }

    predicate PastPingInterval(conn: IceConnection, now: int)
      reads this, selected, conn
    {
      now >= conn.lastPingSent + PingInterval(conn, now)
    }

    predicate IsPingable(conn: IceConnection, now: int)
      reads this, selected, conn
    {
      conn.HasCredentials() && (Weak() || PastPingInterval(conn, now))
    }

    // The selected connection is due.
    predicate SelectedDue(now: int)
      reads this, selected
    {
      selected != null && selected.Writable() && PastPingInterval(selected, now)
    }

    ghost function Pingable(conns: set<IceConnection>, now: int): set<IceConnection>
      reads this, selected, conns
    {
      set c | c in conns && IsPingable(c, now)
    }

    // What _find_next_pingable_connection does when the sets were unpinged0 and pinged0.
    ghost predicate Found(found: IceConnection?, now: int, unpinged0: set<IceConnection>, pinged0: set<IceConnection>)
      reads this, selected, unpinged0, unpinged, found
    {
      if SelectedDue(now) then found == selected && unpinged == unpinged0 && pinged == pinged0
      else
        var again := Pingable(unpinged0, now) == {};
        && unpinged == (if again then unpinged0 + pinged0 else unpinged0)
        && pinged == (if again then {} else pinged0)
        && (found == null <==> Pingable(unpinged, now) == {})
        && (found != null ==> WaitedLongest(found, Pingable(unpinged, now)))
    }

    /** _find_next_pingable_connection: the selected connection if it is due; else one of those
        not pinged in this round, a new round beginning if none of them can be; of those, one
        that has waited longest. */
    method FindNextPingableConnection(now: int) returns (found: IceConnection?)
      requires Partition()
      modifies this`unpinged, this`pinged
      ensures Partition() && Found(found, now, old(unpinged), old(pinged))
    {
      if selected != null && selected.Writable() && PastPingInterval(selected, now) {
        return selected;
      }
      var has := HasPingable(unpinged, now);
      if !has {
        unpinged := unpinged + pinged;
        pinged := {};
      }
      found := LongestWaiting(unpinged, now);
    }

    method HasPingable(conns: set<IceConnection>, now: int) returns (has: bool)
      ensures has <==> Pingable(conns, now) != {}
    {
      var rest := conns;
      while rest != {}
        invariant rest <= conns && Pingable(conns, now) == Pingable(rest, now)
        decreases |rest|
      {
        var c :| c in rest;
        if IsPingable(c, now) {
          assert c in Pingable(conns, now);
          return true;
        }
        rest := rest - {c};
      }
      has := false;
    }

    static predicate MorePingable(conn1: IceConnection, conn2: IceConnection?)
      reads conn1, conn2
    {
      conn2 == null || conn1.lastPingSent < conn2.lastPingSent
    }

    method LongestWaiting(conns: set<IceConnection>, now: int) returns (found: IceConnection?)
      ensures found == null <==> Pingable(conns, now) == {}
      ensures found != null ==>
        WaitedLongest(found, Pingable(conns, now))
    {
      var rest := conns;
      found := null;
      while rest != {}
        invariant rest <= conns
        invariant found == null ==> Pingable(conns - rest, now) == {}
        invariant found != null ==> WaitedLongest(found, Pingable(conns - rest, now))
        decreases |rest|
      {
        var c :| c in rest;
        if IsPingable(c, now) && MorePingable(c, found) {
          found := c;
        }
        assert Pingable(conns - (rest - {c}), now) == Pingable(conns - rest, now) + Pingable({c}, now);
        rest := rest - {c};
      }
      assert conns - rest == conns;
    }

    // Pings come fast until all is well and every connection has had three.
    ghost function NextInterval(): int
      reads this, selected, connections
    {
      if Weak() || (exists c :: c in connections && c.numPingsSent < MIN_PINGS_AT_WEAK_PING_INTERVAL)
      then WEAK_PING_INTERVAL else STRONG_PING_INTERVAL
    }

    /** Which connection to ping, if it is time for a ping, and when to ask again. */
    method SelectConnectionToPing(lastPingSentMs: int, now: int) returns (conn: IceConnection?, interval: int)
      requires Partition()
      modifies this`unpinged, this`pinged
      ensures Partition()
      ensures interval == NextInterval()
      ensures now < lastPingSentMs + interval ==> conn == null && unpinged == old(unpinged) && pinged == old(pinged)
      ensures now >= lastPingSentMs + interval ==> Found(conn, now, old(unpinged), old(pinged))
      ensures !SelectedWritable() && now >= lastPingSentMs + interval ==>
        var able := Credentialed();
        var again := able * old(unpinged) == {};
        && unpinged == (if again then old(unpinged) + old(pinged) else old(unpinged))
        && pinged == (if again then {} else old(pinged))
        && (conn == null <==> able == {})
        && (conn != null ==> WaitedLongest(conn, able * unpinged))
    {
      var needMore := false;
      for i := 0 to |connections|
        invariant !needMore
        invariant forall c :: c in connections[..i] ==> c.numPingsSent >= MIN_PINGS_AT_WEAK_PING_INTERVAL
      {
        if connections[i].numPingsSent < MIN_PINGS_AT_WEAK_PING_INTERVAL {
          needMore := true;
          break;
        }
      }
      interval := if Weak() || needMore then WEAK_PING_INTERVAL else STRONG_PING_INTERVAL;
      conn := null;
      if now >= lastPingSentMs + interval {
        conn := FindNextPingableConnection(now);
      }
    }

    predicate SelectedWritable()
      reads this`selected, Chosen(selected)`writeState
    {
      selected != null && selected.Writable()
    }

    ghost function Credentialed(): set<IceConnection>
      reads this`connections, Members()`username, Members()`password
    {
      WithCredentials(Members())
    }

    /** Keeps the partition exactly if conn is a connection of this controller, or null. */
    method MarkConnectionPinged(conn: IceConnection?)
      requires Partition()
      modifies this`unpinged, this`pinged
      ensures Partition() <==> conn == null || conn in connections
      ensures pinged == (if conn == null then old(pinged) else old(pinged) + {conn})
      ensures unpinged == (if conn == null then old(unpinged) else old(unpinged) - {conn})
    {
      if conn != null && conn !in pinged {
        pinged := pinged + {conn};
        unpinged := unpinged - {conn};
      }
    }

    function Members(): set<IceConnection>
      reads this`connections
    {
      Elements(connections)
    }

    function Known(): set<IceConnection>
      reads this`connections, this`selected
    {
      Members() + Chosen(selected)
    }

    // What aging makes of each connection's write state and receiving flag.
    ghost function AgedStates(now: int): map<IceConnection, (nat, bool)>
      reads this`connections, Members()
    {
      AgedStatesOf(Members(), now)
    }

    // What sort_and_switch_connection would return if conn, selected, was gone from the list.
    ghost function Successor(conn: IceConnection): Option<IceConnection>
      requires selected == conn
      reads this`connections, this`selected
      reads Known()`writeState, Known()`receiving, Known()`rtt
    {
      Switch<IceConnection>(StableSort<IceConnection>(Without(connections, conn), Ranks()), Ranks(), Some(conn))
    }

    // What the sort looks at.
    function Ranks(): map<IceConnection, Rank>
      reads this`connections, this`selected
      reads Known()`writeState, Known()`receiving, Known()`rtt
    {
      RanksOf(Known())
    }

    method Sort()
      requires Partition()
      modifies this`connections
      ensures Partition() && multiset(connections) == multiset(old(connections)) && Members() == old(Members())
      ensures connections == StableSort<IceConnection>(old(connections), old(Ranks())) && Ranks() == old(Ranks())
    {
      ghost var before := connections;
      connections := StableSort<IceConnection>(connections, Ranks());
      SameElements(before, connections);
    }

    /** Sorts the list; the first one is returned if it is to replace the selected one. */
    method SortAndSwitchConnection() returns (conn: IceConnection?)
      requires Partition()
      modifies this`connections
      ensures Partition() && multiset(connections) == multiset(old(connections)) && Members() == old(Members())
      ensures connections == StableSort<IceConnection>(old(connections), old(Ranks()))
      ensures ToOption(conn) == Switch<IceConnection>(connections, old(Ranks()), ToOption(selected))
      ensures conn == BetterThan(selected)
      ensures Ranks() == old(Ranks())
    {
      Sort();
      conn := null;
      var top := if connections == [] then null else connections[0];
      if top == null || !ReadyToSend(top.GetRank()) || selected == top {
        return null;
      }
      if selected == null {
        return top;
      }
      if top.rtt <= selected.rtt - MIN_IMPROVEMENT {
        return top;
      }
    }

    // The first of the sorted connections, if it is to replace the selected one.
    function BetterThan(was: IceConnection?): IceConnection?
      reads this`connections, connections`writeState, connections`receiving, connections`rtt, Chosen(was)`rtt
    {
      if connections != [] && Replaces(connections[0], was) then connections[0] else null
    }

    method SetSelectedConnection(conn: IceConnection)
      modifies this`selected
      ensures selected == conn
    {
      selected := conn;
    }
  }

  // ---------- The channel ----------

  // The connections in order, their ranks, and what the controller and the channel hold to be
  // selected.
  datatype Selection = Selection(connections: seq<IceConnection>, ranks: map<IceConnection, Rank>,
                                 inController: IceConnection?, inChannel: IceConnection?)

  /** Asking the controller would change nothing: the list is in order, and its first is not to
      replace the selected connection. */
  ghost predicate Settled(v: Selection) {
    && Ranked<IceConnection>(v.connections, v.ranks) && (v.inController == null || v.inController in v.ranks)
    && Sorted<IceConnection>(v.connections, v.ranks)
    && Switch<IceConnection>(v.connections, v.ranks, ToOption(v.inController)) == None
  }

  // The write state and the receiving flag of each connection.
  ghost function States(v: Selection): map<IceConnection, (nat, bool)> {
    map c | c in v.ranks && c in v.connections :: (v.ranks[c].writeState, v.ranks[c].receiving)
  }

  /** The connections stay the same; if another one is selected it is one of them, and the
      controller and the channel agree about it. */
  ghost predicate Resorts(before: Selection, after: Selection) {
    && |after.connections| == |before.connections|
    && Elements(after.connections) == Elements(before.connections)
    && ((after.inController == before.inController && after.inChannel == before.inChannel)
        || (after.inController == after.inChannel && after.inController in after.connections))
  }

  // And what was settled still is.
  ghost predicate Follows(before: Selection, after: Selection) {
    Resorts(before, after) && (Settled(before) ==> Settled(after))
  }

  // How often the timer goes off.
  function TimerCount(events: seq<Event>): nat {
    if events == [] then 0 else (if events[0].Timer? then 1 else 0) + TimerCount(events[1..])
  }

  // When the timer goes off a ping is due, the last one before having been sent at `last`.
  predicate Spaced(events: seq<Event>, last: int) {
    events == [] ||
    match events[0]
    case Timer(tick) => last - PING_INTERVAL_DIFF + WEAK_PING_INTERVAL <= tick.now && Spaced(events[1..], tick.sent)
    case _ => Spaced(events[1..], last)
  }

  predicate Forward(events: seq<Event>) {
    forall e :: e in events && e.Timer? ==> e.tick.now <= e.tick.sent
  }

  // Nothing can be pinged, or conn has waited longest in the round, which may be a new one.
  ghost predicate Next(s: Sets<IceConnection>, last: map<IceConnection, int>, able: set<IceConnection>, conn: IceConnection?,
                       round: Sets<IceConnection>) {
    && round == (if able * s.unpinged == {} then Sets(s.unpinged + s.pinged, {}) else s)
    && Split(s, able)
    && (conn == null <==> able == {})
    && (conn != null ==> conn in able * round.unpinged)
    && (forall d :: d in able ==> d in last)
    && (conn != null ==> forall d :: d in able * round.unpinged ==> last[conn] <= last[d])
  }

  lemma SameRanks(conns: seq<IceConnection>, ranks: map<IceConnection, Rank>, ranks': map<IceConnection, Rank>,
                  selected: Option<IceConnection>)
    requires Ranked<IceConnection>(conns, ranks) && (selected.Some? ==> selected.value in ranks)
    requires forall c :: c in ranks ==> c in ranks' && ranks'[c] == ranks[c]
    ensures Ranked<IceConnection>(conns, ranks')
    ensures var sorted := StableSort<IceConnection>(conns, ranks);
            && StableSort<IceConnection>(conns, ranks') == sorted
            && Switch<IceConnection>(sorted, ranks', selected) == Switch<IceConnection>(sorted, ranks, selected)
  {
    StableSortAlso<IceConnection>(conns, ranks, ranks');
    SameSwitch(StableSort<IceConnection>(conns, ranks), ranks, ranks', selected);
  }

  lemma SameSwitch(sorted: seq<IceConnection>, ranks: map<IceConnection, Rank>, ranks': map<IceConnection, Rank>,
                   selected: Option<IceConnection>)
    requires Ranked<IceConnection>(sorted, ranks) && (selected.Some? ==> selected.value in ranks)
    requires forall c :: c in ranks ==> c in ranks' && ranks'[c] == ranks[c]
    ensures Ranked<IceConnection>(sorted, ranks')
    ensures Switch<IceConnection>(sorted, ranks', selected) == Switch<IceConnection>(sorted, ranks, selected)
  {
    assert sorted != [] ==> sorted[0] in ranks;
  }

  // What the answer to sort_and_switch_connection leaves once it is followed.
  lemma SortSettles(before: Selection, after: Selection, better: IceConnection?)
    requires Ranked<IceConnection>(before.connections, before.ranks)
    requires before.inController == null || before.inController in before.ranks
    requires after.connections == StableSort<IceConnection>(before.connections, before.ranks)
    requires ToOption(better) == Switch<IceConnection>(after.connections, before.ranks, ToOption(before.inController))
    requires after.inController == (if better != null then better else before.inController)
    requires after.inChannel == (if better != null then better else before.inChannel)
    requires forall c :: c in after.connections ==> c in after.ranks && after.ranks[c] == before.ranks[c]
    requires better == null ==> after.ranks == before.ranks
    ensures Resorts(before, after) && Settled(after)
  {
    SameElements(before.connections, after.connections);
    assert |after.connections| == |multiset(after.connections)| == |multiset(before.connections)|;
    StableSortSorts<IceConnection>(before.connections, before.ranks);
    SortedAlso<IceConnection>(after.connections, before.ranks, after.ranks);
  }

  lemma FollowsOn(a: Selection, b: Selection, c: Selection)
    requires Follows(a, b) && Follows(b, c)
    ensures Follows(a, c)
  {
    assert forall x :: x in b.connections ==> x in Elements(b.connections);
    assert forall x :: x in Elements(c.connections) ==> x in c.connections;
  }

  ghost predicate NoneAfter(last: map<IceConnection, int>, now: int) {
    forall c :: c in last ==> last[c] <= now
  }

  // Pings so far: the sets and the last pings before and after each, which, and when.
  datatype Trace = Trace(states: seq<Sets<IceConnection>>, lasts: seq<map<IceConnection, int>>,
                         chosen: seq<IceConnection>, times: seq<int>)

  ghost predicate Traces(t: Trace, able: set<IceConnection>, s: Sets<IceConnection>, last: map<IceConnection, int>) {
    && TimedSteps<IceConnection>(t.states, t.lasts, able, t.chosen, t.times)
    && t.states[|t.chosen|] == s && t.lasts[|t.chosen|] == last
  }

  // The clock has not gone back so far.
  ghost predicate OnTime(t: Trace, able: set<IceConnection>, stamp: int) {
    && |t.lasts| == |t.times| + 1
    && Later<IceConnection>(t.lasts, able, t.times) && NoneAfter(t.lasts[|t.times|], stamp)
  }

  lemma Extend(t: Trace, able: set<IceConnection>, s: Sets<IceConnection>, last: map<IceConnection, int>, stamp: int,
               conn: IceConnection, sent: int, s': Sets<IceConnection>, last': map<IceConnection, int>) returns (t': Trace)
    requires Traces(t, able, s, last) && TimedStep<IceConnection>(s, last, able, conn, sent, s', last')
    ensures Traces(t', able, s', last') && t'.states[0] == t.states[0] && t'.chosen == t.chosen + [conn]
    ensures OnTime(t, able, stamp) && stamp < sent ==> OnTime(t', able, sent)
  {
    t' := Trace(t.states + [s'], t.lasts + [last'], t.chosen + [conn], t.times + [sent]);
    TimedStepsSnoc(t.states, t.lasts, able, t.chosen, t.times, s', last', conn, sent);
    if OnTime(t, able, stamp) && stamp < sent {
      LaterSnoc(t.lasts, able, t.times, last', sent);
    }
  }

  lemma NextIsStep(s: Sets<IceConnection>, logs: map<IceConnection, Log>, able: set<IceConnection>, conn: IceConnection,
                   sent: int, round: Sets<IceConnection>)
    requires Next(s, Lasts(logs), able, conn, round)
    ensures Rounds(s, Lasts(logs), able, conn, sent, Sets(round.unpinged - {conn}, round.pinged + {conn}), Lasts(Logged(logs, conn, sent)))
  {
    LongestIsStep<IceConnection>(s, Lasts(logs), able, conn, sent, round);
    assert Lasts(Logged(logs, conn, sent)) == Lasts(logs)[conn := sent];
  }

  lemma AllReached(t: Trace, able: set<IceConnection>, conn: IceConnection)
    requires TimedSteps<IceConnection>(t.states, t.lasts, able, t.chosen, t.times) && Split(t.states[0], able) && conn in able
    ensures |t.chosen| >= 2 * |able| - 1 ==> conn in t.chosen
    ensures |t.chosen| >= |able| && Later<IceConnection>(t.lasts, able, t.times) ==> conn in t.chosen
  {
    if |t.chosen| >= 2 * |able| - 1 {
      EveryoneIsPingedAtLast(t.states, t.lasts, able, t.chosen, t.times, conn);
    }
    if |t.chosen| >= |able| && Later<IceConnection>(t.lasts, able, t.times) {
      RoundRobin(t.states, t.lasts, able, t.chosen, t.times, conn);
    }
  }

  // Nothing can be pinged, or the ping of conn is a step of the rounds.
  ghost predicate Rounds(s: Sets<IceConnection>, last: map<IceConnection, int>, able: set<IceConnection>, conn: IceConnection?,
                         sent: int, s': Sets<IceConnection>, last': map<IceConnection, int>) {
    if conn == null then able == {} && last' == last && s'.unpinged + s'.pinged == s.unpinged + s.pinged
    else TimedStep<IceConnection>(s, last, able, conn, sent, s', last')
  }

  // Readings of the clock when the timer goes off: for the aging, the choice and the ping.
  datatype Tick = Tick(aged: int, now: int, sent: int)

  // What happens to the channel while its connections stay the same.
  datatype Event =
    | Timer(tick: Tick)
    | Response(conn: IceConnection, sample: int, now: int)  // received_ping_response
    | Receiving(conn: IceConnection, now: int)              // update_receiving

  class IceTransportChannel {
    const controller: IceController
    var selected: IceConnection?
    var lastPingSentMs: int
    var curPingInterval: int

    constructor (controller: IceController)
      ensures this.controller == controller && selected == null && lastPingSentMs == 0
    {
      this.controller, selected, lastPingSentMs, curPingInterval := controller, null, 0, WEAK_PING_INTERVAL;
    }

    // No ping is later than the last one of the channel.
    ghost predicate Stamped()
      reads this`lastPingSentMs, controller`connections
      reads controller.Members()`lastPingSent, controller.Members()`pings, controller.Members()`numPingsSent
    {
      NoneAfter(LastPings(), lastPingSentMs)
    }

    // What a change of state can change here and in the controller.
    ghost function View(): Selection
      reads this`selected, controller`connections, controller`selected
      reads controller.Known()`writeState, controller.Known()`receiving, controller.Known()`rtt
    {
      Selection(controller.connections, controller.Ranks(), controller.selected, selected)
    }

    ghost function GetSets(): Sets<IceConnection>
      reads controller`unpinged, controller`pinged
    {
      Sets(controller.unpinged, controller.pinged)
    }

    ghost function Logs(): map<IceConnection, Log>
      reads controller`connections
      reads controller.Members()`lastPingSent, controller.Members()`pings, controller.Members()`numPingsSent
    {
      LogsOf(controller.Members())
    }

    ghost function LastPings(): map<IceConnection, int>
      reads controller`connections
      reads controller.Members()`lastPingSent, controller.Members()`pings, controller.Members()`numPingsSent
    {
      Lasts(Logs())
    }

    // Which connection is pinged next: while none is selected that can be written to, one that
    // has waited longest in its round.
    method ChooseNext(now: int) returns (conn: IceConnection?, interval: int)
      requires controller.Partition()
      modifies controller`unpinged, controller`pinged
      ensures controller.Partition() && interval == controller.NextInterval()
      ensures View() == old(View())
      ensures Logs() == old(Logs())
      ensures !PingDue(now) ==> conn == null && GetSets() == old(GetSets())
      ensures PingDue(now) && controller.SelectedDue(now) ==> conn == controller.selected
      ensures conn != null ==> conn in controller.Known() && old(PingDue(now))
      ensures conn != null && conn !in controller.connections <==> old(DestroyedDue(now))
      ensures !controller.SelectedWritable() ==> interval == WEAK_PING_INTERVAL
      ensures !controller.SelectedWritable() && lastPingSentMs - PING_INTERVAL_DIFF + WEAK_PING_INTERVAL <= now ==>
        Next(old(GetSets()), Lasts(old(Logs())), old(controller.Credentialed()), conn, GetSets())
    {
      conn, interval := controller.SelectConnectionToPing(lastPingSentMs - PING_INTERVAL_DIFF, now);
    }

    // _ping_connection.
    method SendPing(conn: IceConnection, sent: int)
      modifies this`lastPingSentMs, conn`lastPingSent, conn`pings, conn`numPingsSent
      ensures lastPingSentMs == conn.lastPingSent == sent
      ensures conn.pings == old(conn.pings) + [sent] && conn.numPingsSent == old(conn.numPingsSent) + 1
      ensures Logs() == Logged(old(Logs()), conn, sent)
      ensures View() == old(View())
    {
      lastPingSentMs := sent;
      conn.Ping(sent);
    }

    // And mark_connection_pinged: if conn was next after the sets s, this is a step of the rounds.
    method PingConnection(conn: IceConnection, sent: int, ghost s: Sets<IceConnection>, ghost able: set<IceConnection>,
                          ghost logs: map<IceConnection, Log>)
      requires controller.Partition() && logs == Logs()
      modifies this`lastPingSentMs, controller`unpinged, controller`pinged
      modifies conn`lastPingSent, conn`pings, conn`numPingsSent
      ensures controller.Partition() <==> conn in controller.connections
      ensures conn in controller.pinged && lastPingSentMs == conn.lastPingSent == sent
      ensures conn.pings == old(conn.pings) + [sent] && conn.numPingsSent == old(conn.numPingsSent) + 1
      ensures Logs() == Logged(logs, conn, sent)
      ensures View() == old(View())
      ensures Next(s, Lasts(logs), able, conn, old(GetSets())) ==>
        Rounds(s, Lasts(logs), able, conn, sent, GetSets(), Lasts(Logged(logs, conn, sent)))
    {
      ghost var round := GetSets();
      SendPing(conn, sent);
      controller.MarkConnectionPinged(conn);
      assert GetSets() == Sets(round.unpinged - {conn}, round.pinged + {conn});
      if Next(s, Lasts(logs), able, conn, round) {
        NextIsStep(s, logs, able, conn, sent, round);
      }
    }

    /** The part of _on_check_and_ping after the states have been updated: choose a connection,
        ping it, mark it.  The partition is kept unless the selected connection is due and was
        destroyed. */
    method PingNext(now: int, sent: int) returns (conn: IceConnection?, interval: int)
      requires controller.Partition()
      modifies this`lastPingSentMs, controller`unpinged, controller`pinged
      modifies controller.Known()`lastPingSent, controller.Known()`pings, controller.Known()`numPingsSent
      ensures View() == old(View())
      ensures interval == old(controller.NextInterval())
      ensures conn == null ==> lastPingSentMs == old(lastPingSentMs)
      ensures conn != null ==>
        && conn in controller.Known() && old(PingDue(now)) && conn in controller.pinged
        && lastPingSentMs == conn.lastPingSent == sent
        && conn.pings == old(conn.pings) + [sent] && conn.numPingsSent == old(conn.numPingsSent) + 1
      ensures Logs() == Logged(old(Logs()), conn, sent)
      ensures old(PingDue(now) && controller.SelectedDue(now)) ==> conn == controller.selected
      ensures controller.Partition() <==> !old(DestroyedDue(now))
      ensures !controller.SelectedWritable() ==> controller.Partition() && interval == WEAK_PING_INTERVAL
      ensures !controller.SelectedWritable() && old(lastPingSentMs) - PING_INTERVAL_DIFF + WEAK_PING_INTERVAL <= now ==>
        Rounds(old(GetSets()), old(LastPings()), old(controller.Credentialed()), conn, sent, GetSets(), LastPings())
    {
      ghost var s, able, logs := GetSets(), controller.Credentialed(), Logs();
      conn, interval := ChooseNext(now);
      PingChosen(conn, sent, s, able, logs);
    }

    method PingChosen(conn: IceConnection?, sent: int, ghost s: Sets<IceConnection>, ghost able: set<IceConnection>,
                      ghost logs: map<IceConnection, Log>)
      requires controller.Partition() && logs == Logs() && (conn != null ==> conn in controller.Known())
      modifies this`lastPingSentMs, controller`unpinged, controller`pinged
      modifies Chosen(conn)`lastPingSent, Chosen(conn)`pings, Chosen(conn)`numPingsSent
      ensures View() == old(View()) && Logs() == Logged(logs, conn, sent)
      ensures controller.Partition() <==> conn == null || conn in controller.connections
      ensures conn == null ==> lastPingSentMs == old(lastPingSentMs)
      ensures conn != null ==>
        && conn in controller.pinged && lastPingSentMs == conn.lastPingSent == sent
        && conn.pings == old(conn.pings) + [sent] && conn.numPingsSent == old(conn.numPingsSent) + 1
      ensures Next(s, Lasts(logs), able, conn, old(GetSets())) ==>
        Rounds(s, Lasts(logs), able, conn, sent, GetSets(), Lasts(Logged(logs, conn, sent)))
    {
      if conn != null {
        PingConnection(conn, sent, s, able, logs);
      }
    }

    // And restart the timer if the interval has changed.
    method PingAndAdjust(now: int, sent: int) returns (conn: IceConnection?)
      requires controller.Partition()
      modifies this`lastPingSentMs, this`curPingInterval, controller`unpinged, controller`pinged
      modifies controller.Known()`lastPingSent, controller.Known()`pings, controller.Known()`numPingsSent
      ensures View() == old(View())
      ensures controller.Credentialed() == old(controller.Credentialed())
      ensures lastPingSentMs == if conn == null then old(lastPingSentMs) else sent
      ensures conn != null ==> conn in controller.Known()
      ensures Logs() == Logged(old(Logs()), conn, sent)
      ensures old(Stamped()) && old(lastPingSentMs) <= sent ==> Stamped()
      ensures !controller.SelectedWritable() ==> controller.Partition() && curPingInterval == WEAK_PING_INTERVAL
      ensures !controller.SelectedWritable() && old(lastPingSentMs) - PING_INTERVAL_DIFF + WEAK_PING_INTERVAL <= now ==>
        Rounds(old(GetSets()), old(LastPings()), old(controller.Credentialed()), conn, sent, GetSets(), LastPings())
    {
      var interval;
      conn, interval := PingNext(now, sent);
      if curPingInterval != interval {
        curPingInterval := interval;
      }
    }

    ghost predicate PingDue(now: int)
      reads this, controller, controller.connections, controller.selected
    {
      lastPingSentMs - PING_INTERVAL_DIFF + controller.NextInterval() <= now
    }

    method UpdateFollowed(conn: IceConnection, now: int, ghost start: Selection)
      requires controller.Partition() && Follows(start, View())
      modifies this`selected, controller`connections, controller`selected, conn`writeState, conn`receiving
      ensures controller.Partition() && Follows(start, View()) && controller.Members() == old(controller.Members())
      ensures (conn.writeState, conn.receiving) == old(conn.AgedState(now)) == conn.AgedState(now)
    {
      ghost var before := View();
      conn.UpdateState(now, this);
      FollowsOn(start, before, View());
    }

    // The connection to be pinged next is one that was destroyed.
    ghost predicate DestroyedDue(now: int)
      reads this, controller, controller.connections, controller.selected
    {
      PingDue(now) && controller.SelectedDue(now) && controller.selected !in controller.connections
    }

    // One connection ages; aging it again, or another, will do what it would have done.
    method UpdateNext(conn: IceConnection, now: int, ghost start: Selection, ghost all: set<IceConnection>, ghost done: set<IceConnection>)
      requires controller.Partition() && Follows(start, View()) && HaveAged(done, now)
      modifies this`selected, controller`connections, controller`selected, conn`writeState, conn`receiving
      ensures controller.Partition() && Follows(start, View()) && controller.Members() == old(controller.Members())
      ensures AgedStatesOf(all, now) == old(AgedStatesOf(all, now)) && HaveAged(done + {conn}, now)
    {
      UpdateFollowed(conn, now, start);
    }

    // The loop over the list as it was.
    method UpdateAll(conns: seq<IceConnection>, now: int)
      requires controller.Partition() && conns == controller.connections
      modifies this`selected, controller`connections, controller`selected, conns`writeState, conns`receiving
      ensures controller.Partition() && Follows(old(View()), View()) && controller.Members() == old(controller.Members())
      ensures AgedStatesOf(Elements(conns), now) == old(AgedStatesOf(Elements(conns), now)) && HaveAged(Elements(conns), now)
    {
      ghost var start, all, members := View(), Elements(conns), controller.Members();
      ghost var aged := AgedStatesOf(all, now);
      for i := 0 to |conns|
        invariant controller.Partition() && Follows(start, View()) && controller.Members() == members
        invariant AgedStatesOf(all, now) == aged && HaveAged(Elements(conns[..i]), now)
      {
        ElementsNext(conns, i);
        UpdateNext(conns[i], now, start, all, Elements(conns[..i]));
      }
      assert conns[..|conns|] == conns;
    }

    method AgeConnections(now: int)
      requires controller.Partition()
      modifies this`selected, controller`connections, controller`selected
      modifies controller.connections`writeState, controller.connections`receiving
      ensures controller.Partition() && Follows(old(View()), View()) && controller.Members() == old(controller.Members())
      ensures States(View()) == old(controller.AgedStates(now))
    {
      UpdateAll(controller.connections, now);
    }

    /** Ages every connection of the list as it was; each change is followed at once, and can
        put the list in a new order and select another connection. */
    method UpdateConnectionStates(now: int)
      requires controller.Partition()
      modifies this`selected, controller`connections, controller`selected
      modifies controller.connections`writeState, controller.connections`receiving
      ensures controller.Partition() && Follows(old(View()), View()) && controller.Members() == old(controller.Members())
      ensures States(View()) == old(controller.AgedStates(now))
      ensures Logs() == old(Logs())
      ensures controller.Credentialed() == old(controller.Credentialed())
    {
      ghost var members := controller.Members();
      ghost var logs, able := LogsOf(members), WithCredentials(members);
      AgeConnections(now);
      assert LogsOf(members) == logs && WithCredentials(members) == able;
    }

    /** What the ping timer calls.  If after the aging no connection is selected that can be
        written to, and a ping is due, this is a step of the rounds. */
    method OnCheckAndPing(tick: Tick) returns (conn: IceConnection?)
      requires controller.Partition()
      modifies this`selected, this`lastPingSentMs, this`curPingInterval, controller
      modifies controller.Known()`lastPingSent, controller.Known()`pings, controller.Known()`numPingsSent
      modifies controller.connections`writeState, controller.connections`receiving
      ensures Follows(old(View()), View())
      ensures States(View()) == old(controller.AgedStates(tick.aged))
      ensures controller.Credentialed() == old(controller.Credentialed())
      ensures lastPingSentMs == if conn == null then old(lastPingSentMs) else tick.sent
      ensures conn != null ==> conn in controller.Known()
      ensures Logs() == Logged(old(Logs()), conn, tick.sent)
      ensures old(Stamped()) && old(lastPingSentMs) <= tick.sent ==> Stamped()
      ensures !controller.SelectedWritable() ==> controller.Partition() && curPingInterval == WEAK_PING_INTERVAL
      ensures !controller.SelectedWritable() && old(lastPingSentMs) - PING_INTERVAL_DIFF + WEAK_PING_INTERVAL <= tick.now ==>
        Rounds(old(GetSets()), old(LastPings()), old(controller.Credentialed()), conn, tick.sent, GetSets(), LastPings())
    {
      UpdateConnectionStates(tick.aged);
      conn := PingAndAdjust(tick.now, tick.sent);
    }

    /** The timer going off, and responses arriving in between, until a connection is selected
        that can be written to: with n connections that can be pinged, each of them is pinged
        by the time the timer has gone off 2n - 1 times, or n times if the clock does not go
        back. */
    method KeepPinging(conn: IceConnection, events: seq<Event>) returns (chosen: seq<IceConnection>)
      requires controller.Partition() && conn in controller.connections && conn.HasCredentials()
      requires Spaced(events, lastPingSentMs) && forall e :: e in events && !e.Timer? ==> e.conn in controller.connections
      modifies this`selected, this`lastPingSentMs, this`curPingInterval, controller
      modifies controller.Known()`lastPingSent, controller.Known()`pings, controller.Known()`numPingsSent
      modifies controller.connections`writeState, controller.connections`receiving
      modifies controller.connections`rtt, controller.connections`rttSamples, controller.connections`lastPingResponseReceived
      ensures |chosen| <= TimerCount(events) && (|chosen| == TimerCount(events) || controller.SelectedWritable())
      ensures TimerCount(events) >= 2 * |old(controller.Credentialed())| - 1 ==> conn in chosen || controller.SelectedWritable()
      ensures old(Stamped()) && Forward(events) && TimerCount(events) >= |old(controller.Credentialed())| ==>
        conn in chosen || controller.SelectedWritable()
    {
      ghost var able := controller.Credentialed();
      ghost var ontime := Stamped() && Forward(events);
      assert conn in able;
      ghost var t;
      chosen, t := RunEvents(events, able, ontime);
      if !controller.SelectedWritable() {
        AllReached(t, able, conn);
      }
    }

    method RunEvents(events: seq<Event>, ghost able: set<IceConnection>, ghost ontime: bool)
      returns (chosen: seq<IceConnection>, ghost t: Trace)
      requires controller.Partition() && able == controller.Credentialed() != {}
      requires ontime ==> Stamped() && Forward(events)
      requires Spaced(events, lastPingSentMs) && forall e :: e in events && !e.Timer? ==> e.conn in controller.connections
      modifies this`selected, this`lastPingSentMs, this`curPingInterval, controller
      modifies controller.Known()`lastPingSent, controller.Known()`pings, controller.Known()`numPingsSent
      modifies controller.connections`writeState, controller.connections`receiving
      modifies controller.connections`rtt, controller.connections`rttSamples, controller.connections`lastPingResponseReceived
      ensures |chosen| <= TimerCount(events)
      ensures !controller.SelectedWritable() ==>
        && Traces(t, able, GetSets(), LastPings()) && (ontime ==> OnTime(t, able, lastPingSentMs))
        && |chosen| == TimerCount(events) && t.chosen == chosen && t.states[0] == old(GetSets())
    {
      ghost var members, known := controller.Members(), controller.Known();
      t := Trace([GetSets()], [LastPings()], [], []);
      chosen := [];
      for i := 0 to |events|
        invariant controller.Partition() && controller.Credentialed() == able
        invariant controller.Members() == members && controller.Known() <= known
        invariant Spaced(events[i..], lastPingSentMs) && |chosen| + TimerCount(events[i..]) == TimerCount(events)
        invariant Traces(t, able, GetSets(), LastPings()) && t.chosen == chosen && t.states[0] == old(GetSets())
        invariant ontime ==> OnTime(t, able, lastPingSentMs)
      {
        assert events[i] in events && events[i..][1..] == events[i + 1..];
        assert events[i].Timer? || events[i].conn in members;
        var pinged;
        pinged, t := OneEvent(events[i], t, able, ontime);
        if controller.SelectedWritable() {
          return;
        }
        if pinged != null {
          chosen := chosen + [pinged];
        }
      }
    }

    method OneEvent(e: Event, ghost t: Trace, ghost able: set<IceConnection>, ghost ontime: bool)
      returns (pinged: IceConnection?, ghost t': Trace)
      requires controller.Partition() && able == controller.Credentialed() != {}
      requires Spaced([e], lastPingSentMs) && (e.Timer? || e.conn in controller.Members())
      requires Traces(t, able, GetSets(), LastPings())
      requires ontime ==> OnTime(t, able, lastPingSentMs) && (e.Timer? ==> e.tick.now <= e.tick.sent)
      modifies this`selected, this`lastPingSentMs, this`curPingInterval, controller
      modifies controller.Known()`lastPingSent, controller.Known()`pings, controller.Known()`numPingsSent
      modifies controller.connections`writeState, controller.connections`receiving
      modifies controller.connections`rtt, controller.connections`rttSamples, controller.connections`lastPingResponseReceived
      ensures controller.Members() == old(controller.Members()) && controller.Known() <= old(controller.Known())
      ensures controller.Credentialed() == able
      ensures !controller.SelectedWritable() ==>
        && controller.Partition() && (pinged != null <==> e.Timer?)
        && lastPingSentMs == (if e.Timer? then e.tick.sent else old(lastPingSentMs))
        && Traces(t', able, GetSets(), LastPings()) && (ontime ==> OnTime(t', able, lastPingSentMs))
        && t'.states[0] == t.states[0] && t'.chosen == if pinged == null then t.chosen else t.chosen + [pinged]
    {
      if e.Timer? {
        pinged, t' := PingAt(e.tick, t, able, ontime);
      } else {
        OnEvent(e);
        pinged, t' := null, t;
      }
    }

    // An event that is not the timer pings nobody.
    method OnEvent(e: Event)
      requires controller.Partition() && !e.Timer?
      modifies this`selected, controller`connections, controller`selected
      modifies e.conn`writeState, e.conn`receiving, e.conn`pings
      modifies e.conn`rtt, e.conn`rttSamples, e.conn`lastPingResponseReceived
      ensures controller.Partition() && controller.Members() == old(controller.Members())
      ensures controller.Known() <= old(controller.Known())
      ensures controller.Credentialed() == old(controller.Credentialed()) && LastPings() == old(LastPings())
    {
      ghost var members := controller.Members();
      ghost var able, last := WithCredentials(members), Lasts(LogsOf(members));
      Handle(e);
      assert WithCredentials(members) == able && Lasts(LogsOf(members)) == last;
    }

    method Handle(e: Event)
      requires controller.Partition() && !e.Timer?
      modifies this`selected, controller`connections, controller`selected
      modifies e.conn`writeState, e.conn`receiving, e.conn`pings
      modifies e.conn`rtt, e.conn`rttSamples, e.conn`lastPingResponseReceived
      ensures controller.Partition() && controller.Members() == old(controller.Members())
      ensures controller.Known() <= old(controller.Known())
    {
      match e {
        case Response(conn, sample, now) => conn.ReceivedPingResponse(sample, now, this);
        case Receiving(conn, now) => conn.UpdateReceiving(now, this);
      }
    }

    // The timer goes off at a time when a ping is due.
    method PingAt(tick: Tick, ghost t: Trace, ghost able: set<IceConnection>, ghost ontime: bool)
      returns (conn: IceConnection?, ghost t': Trace)
      requires controller.Partition() && able == controller.Credentialed() != {}
      requires lastPingSentMs - PING_INTERVAL_DIFF + WEAK_PING_INTERVAL <= tick.now
      requires Traces(t, able, GetSets(), LastPings()) && (ontime ==> OnTime(t, able, lastPingSentMs) && tick.now <= tick.sent)
      modifies this`selected, this`lastPingSentMs, this`curPingInterval, controller
      modifies controller.Known()`lastPingSent, controller.Known()`pings, controller.Known()`numPingsSent
      modifies controller.connections`writeState, controller.connections`receiving
      ensures controller.Members() == old(controller.Members()) && controller.Known() <= old(controller.Known())
      ensures controller.Credentialed() == able
      ensures !controller.SelectedWritable() ==>
        && controller.Partition() && conn != null && lastPingSentMs == tick.sent
        && Traces(t', able, GetSets(), LastPings()) && (ontime ==> OnTime(t', able, lastPingSentMs))
        && t'.states[0] == t.states[0] && t'.chosen == t.chosen + [conn]
    {
      ghost var s, last, stamp := GetSets(), LastPings(), lastPingSentMs;
      conn := OnCheckAndPing(tick);
      t' := t;
      if !controller.SelectedWritable() {
        t' := Extend(t, able, s, last, stamp, conn, tick.sent, GetSets(), LastPings());
      }
    }

    /** Follows a new selection.  The controller is told only if there is one: the two agree
        afterwards exactly if there is, or the controller had none. */
    method SwitchSelectedConnection(conn: IceConnection?)
      modifies this`selected, controller`selected
      ensures selected == conn && controller.selected == if conn != null then conn else old(controller.selected)
      ensures controller.selected == selected <==> conn != null || old(controller.selected) == null
    {
      selected := conn;
      if conn != null {
        controller.SetSelectedConnection(conn);
      }
    }

    /** _sort_connections_and_update_state: afterwards the list is in order and no other
        connection is to be selected; one that is selected anew both the controller and the
        channel select. */
    method SortConnections()
      requires controller.Partition()
      modifies this`selected, controller`connections, controller`selected
      ensures controller.Partition() && Settled(View()) && Follows(old(View()), View())
      ensures controller.connections == StableSort<IceConnection>(old(controller.connections), old(controller.Ranks()))
      ensures var better := controller.BetterThan(old(controller.selected));
              && ToOption(better) == Switch<IceConnection>(controller.connections, old(controller.Ranks()), old(ToOption(controller.selected)))
              && selected == (if better != null then better else old(selected))
              && controller.selected == (if better != null then better else old(controller.selected))
    {
      ghost var before := View();
      var better := controller.SortAndSwitchConnection();
      if better != null {
        SwitchSelectedConnection(better);
      }
      SortSettles(before, View(), better);
    }

    // What a change of state of a connection calls.
    method OnConnectionStateChange()
      requires controller.Partition()
      modifies this`selected, controller`connections, controller`selected
      ensures controller.Partition() && Settled(View()) && Follows(old(View()), View())
    {
      SortConnections();
    }

    /** When the selected connection is destroyed, the controller does not hear of it: of those
        that are left the first in order is selected, but only if it is ready and at least 10 ms
        faster than the destroyed one was. */
    method OnConnectionDestroyed(conn: IceConnection)
      requires controller.Partition()
      modifies this`selected, controller`connections, controller`unpinged, controller`pinged, controller`selected
      ensures controller.Partition() && controller.Members() == old(controller.Members()) - {conn}
      ensures old(selected) != conn ==> selected == old(selected) && controller.selected == old(controller.selected)
      ensures old(selected) == conn ==> Settled(View())
      ensures old(selected) == conn ==>
        controller.connections == old(StableSort<IceConnection>(Without(controller.connections, conn), controller.Ranks()))
      ensures old(selected) == conn && old(controller.selected) == conn ==>
        && ToOption(selected) == old(controller.Successor(conn))
        && controller.selected == if selected != null then selected else conn
    {
      ghost var conns, ranks := Without(controller.connections, conn), controller.Ranks();
      controller.OnConnectionDestroyed(conn);
      assert controller.Members() == old(controller.Members()) - {conn};
      if selected == conn {
        assert forall c :: c in controller.Known() && c in ranks ==> c.GetRank() == ranks[c];
        Reselect(conns, ranks, controller.selected);
      }
    }

    // The ranks may be those of more connections than are left.
    method Reselect(ghost conns: seq<IceConnection>, ghost ranks: map<IceConnection, Rank>, ghost was: IceConnection?)
      requires controller.Partition() && conns == controller.connections && was == controller.selected
      requires forall c :: c in controller.Known() ==> c in ranks && c.GetRank() == ranks[c]
      modifies this`selected, controller`connections, controller`selected
      ensures controller.Partition() && controller.Members() == Elements(conns) && Settled(View())
      ensures controller.connections == StableSort<IceConnection>(conns, ranks)
      ensures ToOption(selected) == Switch<IceConnection>(controller.connections, ranks, ToOption(was))
      ensures controller.selected == if selected != null then selected else was
    {
      ghost var ranks' := controller.Ranks();
      SelectAgain(conns, ranks', was);
      SameRanks(conns, ranks', ranks, ToOption(was));
    }

    // `conns` and `ranks` are what the controller has, and `was` what it holds to be selected.
    method SelectAgain(ghost conns: seq<IceConnection>, ghost ranks: map<IceConnection, Rank>, ghost was: IceConnection?)
      requires controller.Partition() && conns == controller.connections && ranks == controller.Ranks() && was == controller.selected
      modifies this`selected, controller`connections, controller`selected
      ensures controller.Partition() && controller.Members() == Elements(conns) && Settled(View())
      ensures controller.connections == StableSort<IceConnection>(conns, ranks)
      ensures ToOption(selected) == Switch<IceConnection>(controller.connections, ranks, ToOption(was))
      ensures controller.selected == if selected != null then selected else was
    {
      SwitchSelectedConnection(null);
      assert controller.Ranks() == ranks && controller.connections == conns && controller.selected == was;
      SortConnections();
    }
  }

  /** Although a connection can be written to, none is selected: after the selected one was
      destroyed, if no other is 10 ms faster than it was. */
  method DestroyedLeavesNone(channel: IceTransportChannel, dead: IceConnection, other: IceConnection)
    requires channel.controller.Partition() && channel.selected == channel.controller.selected == dead
    requires other in channel.controller.connections && other != dead && other.Writable()
    requires forall c :: c in channel.controller.connections && c != dead ==> c.rtt > dead.rtt - MIN_IMPROVEMENT
    modifies channel, channel.controller
    ensures channel.selected == null && other in channel.controller.connections && other.Writable()
  {
    channel.OnConnectionDestroyed(dead);
    assert other in channel.controller.Members();
  }

  /** The first connection to answer is selected. */
  method FirstAnswer(channel: IceTransportChannel, conn: IceConnection, rtt: int, now: int)
    requires channel.controller.Partition() && channel.controller.connections == [conn]
    requires channel.selected == channel.controller.selected == null
    requires now > 0 && conn.writeState == WRITE_INIT
    modifies channel`selected, channel.controller`connections, channel.controller`selected
    modifies conn`rtt, conn`rttSamples, conn`lastPingResponseReceived, conn`pings, conn`receiving, conn`writeState
    ensures channel.controller.Partition() && channel.controller.connections == [conn]
    ensures channel.selected == channel.controller.selected == conn && conn.Writable() && conn.receiving
  {
    conn.ReceivedPingResponse(rtt, now, channel);
    assert Elements([conn]) == {conn};
    OneElement(channel.controller.connections, conn);
  }

  /** The partition can be lost: the only connection is selected, and destroyed; the controller
      still selects it, pings it when it is due, and puts it back among its connections. */
  method DestroyedIsPinged(channel: IceTransportChannel, conn: IceConnection, now: int, sent: int) returns (pinged: IceConnection?)
    requires channel.controller.Partition() && channel.controller.connections == [conn]
    requires channel.selected == channel.controller.selected == conn && conn.Writable() && conn.receiving
    requires channel.lastPingSentMs - PING_INTERVAL_DIFF + STRONG_PING_INTERVAL <= now
    requires conn.lastPingSent + STABLE_CONNECTION_PING_INTERVAL <= now
    modifies channel, channel.controller, conn
    ensures pinged == conn && channel.controller.connections == [] && channel.selected == null
    ensures conn in channel.controller.pinged && !channel.controller.Partition()
  {
    channel.OnConnectionDestroyed(conn);
    NoElements(channel.controller.connections);
    var interval;
    pinged, interval := channel.PingNext(now, sent);
  }
}
