/**
 * RPC connections: feature negotiation on both sides, the outgoing queue
 * and its send loop, the client's message ids and table of outstanding
 * replies, reply dispatch, and the server's verb table with its
 * unknown-verb reply. Futures, timers and sockets are replaced by explicit
 * steps: a timer firing or a cancellation is a call that names the entry or
 * message id it concerns, and the bytes a connection writes are collected
 * in `wire`.
 */
module RpcConnection {
  import opened Bytes
  import opened Wrappers
  import opened RpcTypes
  import opened RpcFrames

  // Compressor factories and negotiation.

  /**
   * A compressor factory: it advertises `name` and creates a compressor only
   * for a peer feature string equal to that name.
   */
  datatype Factory = Factory(name: seq<byte>)

  predicate FactoryValid(f: Option<Factory>) {
    f.Some? ==> |f.value.name| < U32
  }

  function FactoryNegotiate(f: Factory, feature: seq<byte>): (created: bool)
    ensures created <==> feature == f.name
  {
    feature == f.name
  }

  /** What the server agreed to: its reply map and whether it compresses and reads timeouts. */
  datatype ServerSide = ServerSide(reply: FeatureMap, compress: bool, timeout: bool)

  /** The server's loop over the requested features, in id order. */
  function ServerNegotiateFrom(factory: Option<Factory>, entries: FeatureMap, st: ServerSide): (r: ServerSide)
    decreases |entries|
  {
    if entries == [] then st
    else
      var (id, data) := entries[0];
      var st' :=
        if id == FeatureCompress then
          if factory.Some? then
            ServerSide(Assign(st.reply, FeatureCompress, factory.value.name),
                       FactoryNegotiate(factory.value, data), st.timeout)
          else st
        else if id == FeatureTimeout then
          ServerSide(Assign(st.reply, FeatureTimeout, []), st.compress, true)
        else st;
      ServerNegotiateFrom(factory, entries[1..], st')
  }

  /** `server::connection::negotiate`. */
  function ServerNegotiate(factory: Option<Factory>, requested: FeatureMap): (r: ServerSide)
  {
    ServerNegotiateFrom(factory, requested, ServerSide([], false, false))
  }

  /** In a sorted map the id at position `i` is at least `i`. */
  lemma {:induction false} IdAtLeastIndex(fm: FeatureMap, i: nat)
    requires Sorted(fm) && i < |fm|
    ensures fm[i].0 >= i
  {
    if i > 0 {
      IdAtLeastIndex(fm, i - 1);
    }
  }

  lemma {:induction false} ServerNegotiateFromSpec(factory: Option<Factory>, entries: FeatureMap, st: ServerSide, other: nat)
    requires Sorted(entries) && Sorted(st.reply)
    ensures var r := ServerNegotiateFrom(factory, entries, st);
      && Sorted(r.reply)
      && Lookup(r.reply, FeatureTimeout) ==
           (if Lookup(entries, FeatureTimeout).Some? then Some([]) else Lookup(st.reply, FeatureTimeout))
      && Lookup(r.reply, FeatureCompress) ==
           (if Lookup(entries, FeatureCompress).Some? && factory.Some? then Some(factory.value.name)
            else Lookup(st.reply, FeatureCompress))
      && (other != FeatureCompress && other != FeatureTimeout ==> Lookup(r.reply, other) == Lookup(st.reply, other))
      && (r.timeout <==> st.timeout || Lookup(entries, FeatureTimeout).Some?)
      && r.compress == (if Lookup(entries, FeatureCompress).Some? && factory.Some?
                        then Lookup(entries, FeatureCompress).value == factory.value.name
                        else st.compress)
    decreases |entries|
  {
    if entries != [] {
      var (id, data) := entries[0];
      SortedTail(entries);
      if id == FeatureCompress && factory.Some? {
        AssignLookup(st.reply, FeatureCompress, factory.value.name, FeatureTimeout);
        AssignLookup(st.reply, FeatureCompress, factory.value.name, other);
      } else if id == FeatureTimeout {
        AssignLookup(st.reply, FeatureTimeout, [], FeatureCompress);
        AssignLookup(st.reply, FeatureTimeout, [], other);
      }
      var st' :=
        if id == FeatureCompress then
          if factory.Some? then
            ServerSide(Assign(st.reply, FeatureCompress, factory.value.name),
                       FactoryNegotiate(factory.value, data), st.timeout)
          else st
        else if id == FeatureTimeout then
          ServerSide(Assign(st.reply, FeatureTimeout, []), st.compress, true)
        else st;
      ServerNegotiateFromSpec(factory, entries[1..], st', other);
    }
  }

  /**
   * The server answers TIMEOUT with an empty string and sets its flag;
   * COMPRESS, when it has a factory, with the factory's name, compressing
   * only if the client offered exactly that name; every other feature is
   * dropped from the reply.
   */
  lemma ServerNegotiateSpec(factory: Option<Factory>, requested: FeatureMap, other: nat)
    requires Sorted(requested)
    ensures var r := ServerNegotiate(factory, requested);
      && Sorted(r.reply)
      && Lookup(r.reply, FeatureTimeout) == (if Lookup(requested, FeatureTimeout).Some? then Some([]) else None)
      && Lookup(r.reply, FeatureCompress) ==
           (if Lookup(requested, FeatureCompress).Some? && factory.Some? then Some(factory.value.name) else None)
      && (other != FeatureCompress && other != FeatureTimeout ==> Lookup(r.reply, other).None?)
      && (r.timeout <==> Lookup(requested, FeatureTimeout).Some?)
      && (r.compress <==> factory.Some? && Lookup(requested, FeatureCompress) == Some(factory.value.name))
  {
    ServerNegotiateFromSpec(factory, requested, ServerSide([], false, false), other);
  }

  /** What the client learned: whether it compresses and sends timeouts. */
  datatype ClientSide = ClientSide(compress: bool, timeout: bool)

  function ClientNegotiateFrom(factory: Option<Factory>, entries: FeatureMap, st: ClientSide): (r: ClientSide)
    decreases |entries|
  {
    if entries == [] then st
    else
      var (id, data) := entries[0];
      var st' :=
        if id == FeatureCompress then
          if factory.Some? then st.(compress := FactoryNegotiate(factory.value, data)) else st
        else if id == FeatureTimeout then st.(timeout := true)
        else st;
      ClientNegotiateFrom(factory, entries[1..], st')
  }

  /** `client::negotiate`: records the features the server returned. */
  function ClientNegotiate(factory: Option<Factory>, provided: FeatureMap): (r: ClientSide)
  {
    ClientNegotiateFrom(factory, provided, ClientSide(false, false))
  }

  lemma {:induction false} ClientNegotiateFromSpec(factory: Option<Factory>, entries: FeatureMap, st: ClientSide)
    requires Sorted(entries)
    ensures var r := ClientNegotiateFrom(factory, entries, st);
      && (r.timeout <==> st.timeout || Lookup(entries, FeatureTimeout).Some?)
      && r.compress == (if Lookup(entries, FeatureCompress).Some? && factory.Some?
                        then Lookup(entries, FeatureCompress).value == factory.value.name
                        else st.compress)
    decreases |entries|
  {
    if entries != [] {
      SortedTail(entries);
      var (id, data) := entries[0];
      var st' :=
        if id == FeatureCompress then
          if factory.Some? then st.(compress := FactoryNegotiate(factory.value, data)) else st
        else if id == FeatureTimeout then st.(timeout := true)
        else st;
      ClientNegotiateFromSpec(factory, entries[1..], st');
    }
  }

  /** The features a client offers: its compressor name and, unless disabled, TIMEOUT. */
  function ClientFeatures(factory: Option<Factory>, sendTimeoutData: bool): (fm: FeatureMap)
    requires FactoryValid(factory)
    ensures FeatureMapValid(fm)
    ensures Lookup(fm, FeatureCompress) == (if factory.Some? then Some(factory.value.name) else None)
    ensures Lookup(fm, FeatureTimeout) == (if sendTimeoutData then Some([]) else None)
    ensures forall id :: id != FeatureCompress && id != FeatureTimeout ==> Lookup(fm, id).None?
    ensures RecordsSize(fm) == (if factory.Some? then 8 + |factory.value.name| else 0) + (if sendTimeoutData then 8 else 0)
  {
    var timeout: FeatureMap := if sendTimeoutData then [(FeatureTimeout, [])] else [];
    assert RecordsSize(timeout) == (if sendTimeoutData then 8 else 0) by {
      if sendTimeoutData {
        assert timeout[1..] == [];
      }
    }
    if factory.Some? then
      var fm: FeatureMap := [(FeatureCompress, factory.value.name)] + timeout;
      assert fm[1..] == timeout;
      fm
    else timeout
  }

  /**
   * After the exchange both ends agree: timeouts are on exactly when the
   * client offered them, and compression is on at both ends exactly when
   * both have a factory and the names match.
   */
  lemma NegotiationAgreement(clientFactory: Option<Factory>, sendTimeoutData: bool, serverFactory: Option<Factory>)
    requires FactoryValid(clientFactory) && FactoryValid(serverFactory)
    ensures var offered := ClientFeatures(clientFactory, sendTimeoutData);
      var s := ServerNegotiate(serverFactory, offered);
      var c := ClientNegotiate(clientFactory, s.reply);
      && (s.timeout <==> sendTimeoutData) && (c.timeout <==> sendTimeoutData)
      && (s.compress <==> clientFactory.Some? && serverFactory.Some? && clientFactory.value.name == serverFactory.value.name)
      && (c.compress <==> s.compress)
  {
    var offered := ClientFeatures(clientFactory, sendTimeoutData);
    ServerNegotiateSpec(serverFactory, offered, 2);
    var s := ServerNegotiate(serverFactory, offered);
    ClientNegotiateFromSpec(clientFactory, s.reply, ClientSide(false, false));
  }

  /** The same agreement, with both negotiation frames going over the wire. */
  lemma NegotiationOverTheWire(clientFactory: Option<Factory>, sendTimeoutData: bool, serverFactory: Option<Factory>,
                               rest1: seq<byte>, rest2: seq<byte>)
    requires FactoryValid(clientFactory) && FactoryValid(serverFactory)
    requires clientFactory.Some? ==> |clientFactory.value.name| < U32 - 16
    requires serverFactory.Some? ==> |serverFactory.value.name| < U32 - 16
    ensures var offered := ClientFeatures(clientFactory, sendTimeoutData);
      RecordsSize(offered) < U32
      && ReceiveNegotiation(EncodeNegotiation(offered) + rest1) == Success((offered, rest1))
    ensures var s := ServerNegotiate(serverFactory, ClientFeatures(clientFactory, sendTimeoutData));
      FeatureMapValid(s.reply) && RecordsSize(s.reply) < U32
      && ReceiveNegotiation(EncodeNegotiation(s.reply) + rest2) == Success((s.reply, rest2))
  {
    var offered := ClientFeatures(clientFactory, sendTimeoutData);
    NegotiationRoundTrip(offered, rest1);
    var s := ServerNegotiate(serverFactory, offered);
    ReplyShape(serverFactory, offered);
    NegotiationRoundTrip(s.reply, rest2);
  }

  /** The server's reply has at most the two known features, with bounded data. */
  lemma ReplyShape(factory: Option<Factory>, requested: FeatureMap)
    requires Sorted(requested)
    requires factory.Some? ==> |factory.value.name| < U32 - 16
    ensures var r := ServerNegotiate(factory, requested).reply;
      FeatureMapValid(r) && RecordsSize(r) < U32
  {
    var r := ServerNegotiate(factory, requested).reply;
    forall i | 0 <= i < |r|
      ensures r[i].0 == FeatureCompress || r[i].0 == FeatureTimeout
      ensures r[i].0 == FeatureTimeout ==> r[i].1 == []
      ensures r[i].0 == FeatureCompress ==> factory.Some? && r[i].1 == factory.value.name
    {
      ServerNegotiateSpec(factory, requested, r[i].0);
      LookupSortedAt(r, i);
    }
    ServerNegotiateSpec(factory, requested, 2);
    if |r| > 0 {
      IdAtLeastIndex(r, |r| - 1);
    }
    if |r| == 1 {
      assert RecordsSize(r) == 8 + |r[0].1| + RecordsSize(r[1..]);
    } else if |r| == 2 {
      assert r[0].0 < r[1].0;
      assert RecordsSize(r) == 8 + |r[0].1| + RecordsSize(r[1..]);
      assert RecordsSize(r[1..]) == 8 + |r[1].1| + RecordsSize(r[2..]);
    }
  }

  lemma LookupSortedAt(fm: FeatureMap, i: nat)
    requires Sorted(fm) && i < |fm|
    ensures Lookup(fm, fm[i].0) == Some(fm[i].1)
  {
    if i > 0 {
      LookupSortedAt(fm[1..], i - 1);
    }
  }

  // The connection and its outgoing queue.

  /** A queued message: a tag standing for its list iterator, its bytes, and whether a deadline timer is armed. */
  datatype Outgoing = Outgoing(tag: nat, buf: seq<byte>, hasDeadline: bool)

  datatype Connection = Connection(
    connected: bool,
    error: bool,
    outgoing: seq<Outgoing>,
    nextTag: nat,
    stats: Stats,
    timeoutNegotiated: bool,
    compress: bool,
    wire: seq<byte>)

  /** Every queued tag is below `nextTag`, so tags are never reused. */
  predicate TagsFresh(c: Connection) {
    forall k :: 0 <= k < |c.outgoing| ==> c.outgoing[k].tag < c.nextTag
  }

  function NewConnection(connected: bool): (c: Connection)
    ensures c.stats == ZeroStats() && !c.error && c.outgoing == [] && TagsFresh(c)
    ensures c.connected == connected
  {
    Connection(connected, false, [], 0, ZeroStats(), false, false, [])
  }

  datatype SocketError = AlreadyConnected

  /** `set_socket`: refused on a connection that is already connected. */
  function SetSocket(c: Connection): (r: Result<Connection, SocketError>)
    ensures r.Failure? <==> c.connected
    ensures r.Success? ==> r.value == c.(connected := true)
  {
    if c.connected then Failure(AlreadyConnected) else Success(c.(connected := true))
  }

  /**
   * `send_negotiation_frame`: the negotiation frame is written straight to
   * the output stream, past the send queue, and counts in `sent_messages`.
   */
  function SendNegotiationFrame(c: Connection, fm: FeatureMap): (r: Connection)
    requires FeatureMapValid(fm) && RecordsSize(fm) < U32 && StatsValid(c.stats)
    ensures r == c.(wire := r.wire, stats := r.stats)
    ensures r.stats == c.stats.(sentMessages := Inc(c.stats.sentMessages)) && StatsValid(r.stats)
    ensures |c.wire| <= |r.wire| && r.wire[..|c.wire|] == c.wire
  {
    c.(wire := c.wire + EncodeNegotiation(fm), stats := c.stats.(sentMessages := Inc(c.stats.sentMessages)))
  }

  /** The peer reads back from the newly written bytes exactly the feature map that was sent. */
  lemma NegotiationFrameReadBack(c: Connection, fm: FeatureMap, rest: seq<byte>)
    requires FeatureMapValid(fm) && RecordsSize(fm) < U32 && StatsValid(c.stats)
    ensures var r := SendNegotiationFrame(c, fm);
      ReceiveNegotiation(r.wire[|c.wire|..] + rest) == Success((fm, rest))
  {
    var r := SendNegotiationFrame(c, fm);
    assert r.wire[|c.wire|..] == EncodeNegotiation(fm);
    NegotiationRoundTrip(fm, rest);
  }

  /**
   * `send`: on a healthy connection the buffer joins the back of the queue
   * and the returned tag lets a timer or a cancellation withdraw it; on a
   * failed connection the call fails with `closed_error`.
   */
  function Send(c: Connection, buf: seq<byte>, hasDeadline: bool): (r: Result<(Connection, nat), RpcError>)
    ensures r.Failure? <==> c.error
    ensures r.Failure? ==> r.error == Closed
    ensures r.Success? ==>
      && r.value.0.outgoing == c.outgoing + [Outgoing(r.value.1, buf, hasDeadline)]
      && r.value.0 == c.(outgoing := r.value.0.outgoing, nextTag := c.nextTag + 1)
      && (TagsFresh(c) ==> TagsFresh(r.value.0) && forall k :: 0 <= k < |c.outgoing| ==> c.outgoing[k].tag != r.value.1)
  {
    if c.error then Failure(Closed)
    else Success((c.(outgoing := c.outgoing + [Outgoing(c.nextTag, buf, hasDeadline)], nextTag := c.nextTag + 1), c.nextTag))
  }

  function RemoveTag(q: seq<Outgoing>, tag: nat): (r: seq<Outgoing>)
    ensures |r| <= |q|
    ensures forall k :: 0 <= k < |r| ==> r[k].tag != tag && r[k] in q
  {
    if q == [] then []
    else if q[0].tag == tag then RemoveTag(q[1..], tag)
    else [q[0]] + RemoveTag(q[1..], tag)
  }

  /** The deadline timer or a cancellation erases its own entry, wherever it is in the queue. */
  function Withdraw(c: Connection, tag: nat): (r: Connection)
    ensures r == c.(outgoing := RemoveTag(c.outgoing, tag))
  {
    c.(outgoing := RemoveTag(c.outgoing, tag))
  }

  /** Withdrawing keeps the other entries in their order. */
  lemma {:induction false} RemoveTagKeepsOthers(q: seq<Outgoing>, tag: nat, pre: seq<Outgoing>, e: Outgoing, post: seq<Outgoing>)
    requires q == pre + [e] + post && e.tag == tag
    requires forall k :: 0 <= k < |q| && k != |pre| ==> q[k].tag != tag
    ensures RemoveTag(q, tag) == pre + post
    decreases |pre|
  {
    if pre == [] {
      assert q[0] == e && q[1..] == post;
      assert RemoveTag(q, tag) == RemoveTag(post, tag);
      RemoveTagNone(post, tag);
      assert pre + post == post;
    } else {
      var q' := q[1..];
      assert q[0] == pre[0] && q[0].tag != tag;
      assert RemoveTag(q, tag) == [pre[0]] + RemoveTag(q', tag);
      assert q' == pre[1..] + [e] + post;
      forall k | 0 <= k < |q'| && k != |pre[1..]|
        ensures q'[k].tag != tag
      {
        assert q'[k] == q[k + 1];
      }
      RemoveTagKeepsOthers(q', tag, pre[1..], e, post);
      AppendAssoc([pre[0]], pre[1..], post);
      assert [pre[0]] + pre[1..] == pre;
    }
  }

  lemma {:induction false} RemoveTagNone(q: seq<Outgoing>, tag: nat)
    requires forall k :: 0 <= k < |q| ==> q[k].tag != tag
    ensures RemoveTag(q, tag) == q
  {
    if q != [] {
      RemoveTagNone(q[1..], tag);
    }
  }

  /** `server::connection::get_stats`: the counters, with `pending` the queue length. */
  function ServerStats(c: Connection): (s: Stats)
    ensures s == c.stats.(pending := |c.outgoing|)
  {
    c.stats.(pending := |c.outgoing|)
  }

  /**
   * One turn of the send loop: the front entry leaves the queue, a request
   * gets its expiry field filled in or cut off, the frame is compressed if
   * a compressor was negotiated, its bytes are written, and `sent_messages`
   * counts it. `left` is the milliseconds to the entry's deadline, read only
   * when it has one; the cast from the signed count is two's complement.
   */
  function SendLoopStep(c: Connection, codec: Codec, isRequest: bool, left: int): (r: Connection)
    requires c.outgoing != [] && StatsValid(c.stats) && I64Min <= left <= I64Max
    requires isRequest ==> |c.outgoing[0].buf| >= 8
    requires c.compress ==> |codec.compress(Fixed(c, isRequest, left))| < U32
    ensures r.outgoing == c.outgoing[1..]
    ensures r.wire == c.wire + CompressFrame(if c.compress then Some(codec) else None, Fixed(c, isRequest, left))
    ensures r.stats == c.stats.(sentMessages := Inc(c.stats.sentMessages))
    ensures StatsValid(r.stats)
  {
    var frame := Fixed(c, isRequest, left);
    var bytes := CompressFrame(if c.compress then Some(codec) else None, frame);
    c.(outgoing := c.outgoing[1..], wire := c.wire + bytes,
       stats := c.stats.(sentMessages := Inc(c.stats.sentMessages)))
  }

  /** The front entry after the request fix-up. */
  function Fixed(c: Connection, isRequest: bool, left: int): (f: seq<byte>)
    requires c.outgoing != [] && I64Min <= left <= I64Max
    requires isRequest ==> |c.outgoing[0].buf| >= 8
  {
    var d := c.outgoing[0];
    if isRequest then
      FixupRequest(d.buf, c.timeoutNegotiated, if d.hasDeadline then ToU64(left) else 0)
    else d.buf
  }

  // The client.

  datatype Client = Client(conn: Connection, messageId: int, outstanding: map<int, nat>)

  /** Every id a handler waits under was handed out already: it lies in `[1, message_id)`. */
  predicate IdsFresh(cl: Client) {
    forall id :: id in cl.outstanding ==> 1 <= id < cl.messageId
  }

  function NewClient(): (cl: Client)
    ensures cl.messageId == 1 && cl.outstanding == map[] && cl.conn == NewConnection(false)
    ensures IdsFresh(cl)
  {
    Client(NewConnection(false), 1, map[])
  }

  /** `client::get_stats`: the counters, with `pending` and `wait_reply` filled in. */
  function ClientStats(cl: Client): (s: Stats)
    ensures s == cl.conn.stats.(pending := |cl.conn.outgoing|, waitReply := |cl.outstanding|)
  {
    cl.conn.stats.(pending := |cl.conn.outgoing|, waitReply := |cl.outstanding|)
  }

  /** `next_message_id`: hands out the counter and advances it; a signed overflow is not allowed. */
  function NextMessageId(cl: Client): (r: (Client, int))
    requires cl.messageId < I64Max
    ensures r.1 == cl.messageId && r.0.messageId == r.1 + 1
    ensures r.0 == cl.(messageId := cl.messageId + 1)
  {
    (cl.(messageId := cl.messageId + 1), cl.messageId)
  }

  /** The ids `n` successive calls hand out. */
  function TakeIds(cl: Client, n: nat): (ids: seq<int>)
    requires cl.messageId + n <= I64Max
    decreases n
  {
    if n == 0 then [] else var (cl', id) := NextMessageId(cl); [id] + TakeIds(cl', n - 1)
  }

  /** A fresh client's ids are 1, 2, 3, …: positive and never repeated. */
  lemma {:induction false} TakeIdsAscending(cl: Client, n: nat)
    requires cl.messageId + n <= I64Max
    ensures |TakeIds(cl, n)| == n
    ensures forall k :: 0 <= k < n ==> TakeIds(cl, n)[k] == cl.messageId + k
    decreases n
  {
    if n > 0 {
      TakeIdsAscending(cl.(messageId := cl.messageId + 1), n - 1);
    }
  }

  /** `wait_for_reply`: registers the handler unless the id already has one. */
  function WaitForReply(cl: Client, id: int, handler: nat): (r: Client)
    ensures r.conn == cl.conn && r.messageId == cl.messageId
    ensures id in r.outstanding
    ensures id in cl.outstanding ==> r.outstanding == cl.outstanding
    ensures id !in cl.outstanding ==> r.outstanding == cl.outstanding[id := handler]
  {
    if id in cl.outstanding then cl else cl.(outstanding := cl.outstanding[id := handler])
  }

  /** What a reply handler is told. */
  datatype Notice = Delivered(handler: nat, data: seq<byte>) | Errored(handler: nat, error: RpcError)

  /** `wait_timed_out`: counts the timeout, tells the handler, forgets it. */
  function WaitTimedOut(cl: Client, id: int): (r: (Client, Notice))
    requires id in cl.outstanding && StatsValid(cl.conn.stats)
    ensures r.0.outstanding == cl.outstanding - {id}
    ensures r.0.conn.stats == cl.conn.stats.(timeout := Inc(cl.conn.stats.timeout))
    ensures r.0 == cl.(conn := cl.conn.(stats := r.0.conn.stats), outstanding := r.0.outstanding)
    ensures r.1 == Errored(cl.outstanding[id], TimedOut)
    ensures IdsFresh(cl) ==> IdsFresh(r.0)
  {
    var conn := cl.conn.(stats := cl.conn.stats.(timeout := Inc(cl.conn.stats.timeout)));
    (cl.(conn := conn, outstanding := cl.outstanding - {id}), Errored(cl.outstanding[id], TimedOut))
  }

  /** The wait half of a cancellation: tells the handler it was canceled and forgets it. */
  function CancelWait(cl: Client, id: int): (r: (Client, Notice))
    requires id in cl.outstanding
    ensures r.0 == cl.(outstanding := cl.outstanding - {id})
    ensures r.1 == Errored(cl.outstanding[id], Canceled)
    ensures IdsFresh(cl) ==> IdsFresh(r.0)
  {
    (cl.(outstanding := cl.outstanding - {id}), Errored(cl.outstanding[id], Canceled))
  }

  /**
   * `cancellable::cancel` applied to a client: the queued request is
   * withdrawn first, then the wait is abandoned.
   */
  function CancelCall(cl: Client, h: Cancellable): (r: (Client, Option<Notice>))
    requires h.cancelWait.Some? ==> h.cancelWait.value in cl.outstanding
    ensures h.cancelSend.Some? ==> r.0.conn == Withdraw(cl.conn, h.cancelSend.value)
    ensures h.cancelSend.None? ==> r.0.conn == cl.conn
    ensures h.cancelWait.Some? ==>
      r.0.outstanding == cl.outstanding - {h.cancelWait.value}
      && r.1 == Some(Errored(cl.outstanding[h.cancelWait.value], Canceled))
    ensures h.cancelWait.None? ==> r.0.outstanding == cl.outstanding && r.1 == None
    ensures r.0.messageId == cl.messageId
    ensures IdsFresh(cl) ==> IdsFresh(r.0)
  {
    var cl1 := if h.cancelSend.Some? then cl.(conn := Withdraw(cl.conn, h.cancelSend.value)) else cl;
    if h.cancelWait.Some? then
      var (cl2, n) := CancelWait(cl1, h.cancelWait.value);
      (cl2, Some(n))
    else (cl1, None)
  }

  /**
   * `send_helper::send`: a client whose connection failed refuses at once
   * with `closed_error` and uses no id; otherwise the request takes the next
   * id, is queued, and (unless the verb expects no reply) its handler waits
   * under that id.
   */
  function SendRequest(cl: Client, verb: nat, payload: seq<byte>, hasDeadline: bool, handler: Option<nat>)
    : (r: Result<(Client, int, nat), RpcError>)
    requires verb < U32 && 28 + |payload| < U32 && 1 <= cl.messageId < I64Max
    ensures r.Failure? <==> cl.conn.error
    ensures r.Failure? ==> r.error == Closed
    ensures r.Success? ==>
      var (cl', id, tag) := r.value;
      && id == cl.messageId && cl'.messageId == id + 1
      && cl'.conn.outgoing == cl.conn.outgoing + [Outgoing(tag, RequestBody(verb, id, payload), hasDeadline)]
      && cl'.conn == cl.conn.(outgoing := cl'.conn.outgoing, nextTag := cl.conn.nextTag + 1)
      && (handler.Some? && id !in cl.outstanding ==> cl'.outstanding == cl.outstanding[id := handler.value])
      && (handler.None? ==> cl'.outstanding == cl.outstanding)
    ensures r.Success? && IdsFresh(cl) ==>
      var (cl', id, _) := r.value;
      && id !in cl.outstanding
      && (handler.Some? ==> cl'.outstanding == cl.outstanding[id := handler.value])
      && IdsFresh(cl')
  {
    if cl.conn.error then Failure(Closed)
    else
      var (cl1, id) := NextMessageId(cl);
      var body := RequestBody(verb, id, payload);
      var (conn, tag) := Send(cl1.conn, body, hasDeadline).value;
      var cl2 := cl1.(conn := conn);
      var cl3 := if handler.Some? then WaitForReply(cl2, id, handler.value) else cl2;
      Success((cl3, id, tag))
  }

  /**
   * What the client's read loop did with one response. `Abandoned` is an
   * exception payload that could not be decoded: the handler was already
   * taken out of the map and marked done, the decoding error ends the read
   * loop, and the connection fails; the handler's promise is left without
   * a value.
   */
  datatype Dispatch =
    | ConnectionFailed
    | Notified(notice: Notice)
    | Abandoned(handler: nat)
    | Ignored

  /**
   * One turn of the client's read loop. A missing frame fails the
   * connection. Otherwise the handler waiting under the absolute value of
   * the id is removed and called: a non-negative id is a reply and counts
   * in `replied`, a negative one carries an exception and counts in
   * `exception_received`. A response nobody waits for is dropped.
   */
  function DispatchResponse(cl: Client, msgId: int, data: Option<seq<byte>>): (r: (Client, Dispatch))
    requires I64Min <= msgId <= I64Max && StatsValid(cl.conn.stats)
    ensures data.None? ==> r.1 == ConnectionFailed && r.0 == cl.(conn := cl.conn.(error := true))
    ensures data.Some? && Abs64(msgId) !in cl.outstanding ==> r == (cl, Ignored)
    ensures data.Some? && Abs64(msgId) in cl.outstanding ==>
      var h := cl.outstanding[Abs64(msgId)];
      && r.0.outstanding == cl.outstanding - {Abs64(msgId)}
      && r.0.messageId == cl.messageId
      && r.0.conn.outgoing == cl.conn.outgoing
      && (msgId >= 0 ==>
            && r.1 == Notified(Delivered(h, data.value))
            && r.0.conn == cl.conn.(stats := cl.conn.stats.(replied := Inc(cl.conn.stats.replied))))
      && (msgId < 0 ==>
            && r.0.conn.stats == cl.conn.stats.(exceptionReceived := Inc(cl.conn.stats.exceptionReceived))
            && (UnmarshalException(data.value).Success? ==>
                  && r.1 == Notified(Errored(h, UnmarshalException(data.value).value))
                  && r.0.conn.error == cl.conn.error)
            && (UnmarshalException(data.value).Failure? ==> r.1 == Abandoned(h) && r.0.conn.error))
    ensures StatsValid(r.0.conn.stats)
    ensures IdsFresh(cl) ==> IdsFresh(r.0)
  {
    var key := Abs64(msgId);
    if data.None? then (cl.(conn := cl.conn.(error := true)), ConnectionFailed)
    else if key in cl.outstanding then
      var h := cl.outstanding[key];
      var cl1 := cl.(outstanding := cl.outstanding - {key});
      if msgId >= 0 then
        var s := cl.conn.stats.(replied := Inc(cl.conn.stats.replied));
        (cl1.(conn := cl.conn.(stats := s)), Notified(Delivered(h, data.value)))
      else
        var s := cl.conn.stats.(exceptionReceived := Inc(cl.conn.stats.exceptionReceived));
        match UnmarshalException(data.value)
        case Success(e) => (cl1.(conn := cl.conn.(stats := s)), Notified(Errored(h, e)))
        case Failure(_) => (cl1.(conn := cl.conn.(stats := s, error := true)), Abandoned(h))
    else (cl, Ignored)
  }

  /**
   * A reply reaches the handler registered under its id exactly once: the
   * first dispatch notifies that handler and forgets it, a repeated
   * response for the same id is ignored.
   */
  lemma DispatchOnce(cl: Client, msgId: int, data: seq<byte>, data2: seq<byte>)
    requires 0 <= msgId <= I64Max && StatsValid(cl.conn.stats) && msgId in cl.outstanding
    ensures var (cl1, d1) := DispatchResponse(cl, msgId, Some(data));
      && d1 == Notified(Delivered(cl.outstanding[msgId], data))
      && cl1.outstanding == cl.outstanding - {msgId}
      && cl1.conn.stats.replied == Inc(cl.conn.stats.replied)
      && DispatchResponse(cl1, msgId, Some(data2)) == (cl1, Ignored)
  {
  }

  /**
   * An error reply is matched through the negated id: the handler
   * waiting under the positive id gets the exception the payload carries.
   */
  lemma DispatchError(cl: Client, id: int, what: seq<byte>)
    requires 0 < id <= I64Max && StatsValid(cl.conn.stats) && id in cl.outstanding
    requires |CStr(what)| + 20 < U32
    ensures var (cl1, d) := DispatchResponse(cl, -id, Some(UserExceptionPayload(what)));
      && d == Notified(Errored(cl.outstanding[id], User(CStr(what))))
      && cl1.outstanding == cl.outstanding - {id}
      && cl1.conn.stats.exceptionReceived == Inc(cl.conn.stats.exceptionReceived)
  {
    UserExceptionRoundTrip(what);
  }

  // The server side.

  /** The protocol's verb table: verb to handler. */
  type Handlers = map<nat, nat>

  /** `register_receiver`: keeps an existing handler for the verb. */
  function RegisterReceiver(hs: Handlers, verb: nat, handler: nat): (r: Handlers)
    ensures verb in r
    ensures verb in hs ==> r == hs
    ensures verb !in hs ==> r == hs[verb := handler]
  {
    if verb in hs then hs else hs[verb := handler]
  }

  /** `unregister_handler`: erases the verb, present or not. */
  function UnregisterHandler(hs: Handlers, verb: nat): (r: Handlers)
    ensures verb !in r
    ensures forall v :: v in hs && v != verb ==> v in r && r[v] == hs[v]
    ensures forall v :: v in r ==> v in hs
  {
    hs - {verb}
  }

  /** Registering and then unregistering a new verb restores the table. */
  lemma RegisterUnregister(hs: Handlers, verb: nat, handler: nat)
    requires verb !in hs
    ensures UnregisterHandler(RegisterReceiver(hs, verb, handler), verb) == hs
  {
  }

  /** What the server does with one request frame; the deadline is the request's, in milliseconds. */
  datatype Route =
    | Call(handler: nat, deadline: Option<nat>, msgId: int, payload: seq<byte>)
    | ReplyUnknownVerb(deadline: Option<nat>, msgId: int, payload: seq<byte>)

  /**
   * The server's read loop, for one decoded request: a registered verb goes
   * to its handler, an unknown verb is answered with an UNKNOWN_VERB
   * exception under the negated message id. Either way the request carries
   * a deadline exactly when an expiry other than zero came with it.
   */
  function RouteRequest(hs: Handlers, f: Frame): (r: Route)
    requires f.header.RequestHeader? && f.header.verb < U32 && I64Min <= f.header.msgId <= I64Max
    ensures f.header.verb in hs <==> r.Call?
    ensures r.deadline.Some? <==> f.header.expire.Some? && f.header.expire.value != 0
    ensures r.deadline.Some? ==> r.deadline == f.header.expire
    ensures r.Call? ==> r.handler == hs[f.header.verb] && r.msgId == f.header.msgId && r.payload == f.payload
    ensures r.ReplyUnknownVerb? ==>
      r.msgId == Neg64(f.header.msgId) && r.payload == UnknownVerbPayload(f.header.verb)
  {
    var h := f.header;
    var deadline := if h.expire.Some? && h.expire.value != 0 then h.expire else None;
    if h.verb in hs then Call(hs[h.verb], deadline, h.msgId, f.payload)
    else ReplyUnknownVerb(deadline, Neg64(h.msgId), UnknownVerbPayload(h.verb))
  }

  /**
   * `respond`: the response header goes in front of the payload and the
   * frame is sent with the request's deadline, if it had one. On a failed
   * connection `send` refuses and the caller drops the refusal.
   */
  function Respond(c: Connection, msgId: int, payload: seq<byte>, hasDeadline: bool): (r: Connection)
    requires I64Min <= msgId <= I64Max && 12 + |payload| < U32
    ensures c.error ==> r == c
    ensures !c.error ==>
      r == c.(outgoing := c.outgoing + [Outgoing(c.nextTag, ResponseBody(msgId, payload), hasDeadline)],
              nextTag := c.nextTag + 1)
  {
    match Send(c, ResponseBody(msgId, payload), hasDeadline)
    case Success((c', _)) => c'
    case Failure(_) => c
  }

  /**
   * One turn of the server's read loop: no frame fails the connection; a
   * registered verb is handed to its handler; an unknown verb is answered
   * at once with UNKNOWN_VERB under the negated id and the request's
   * deadline.
   */
  function ServeRequest(c: Connection, hs: Handlers, read: Option<Frame>): (r: (Connection, Option<Route>))
    requires read.Some? ==>
      read.value.header.RequestHeader? && read.value.header.verb < U32 && I64Min <= read.value.header.msgId <= I64Max
    ensures read.None? ==> r == (c.(error := true), None)
    ensures read.Some? ==> r.1 == Some(RouteRequest(hs, read.value))
    ensures read.Some? && read.value.header.verb in hs ==> r.0 == c
    ensures read.Some? && read.value.header.verb !in hs ==>
      var rt := RouteRequest(hs, read.value);
      r.0 == Respond(c, rt.msgId, rt.payload, rt.deadline.Some?)
  {
    if read.None? then (c.(error := true), None)
    else
      var rt := RouteRequest(hs, read.value);
      if rt.Call? then (c, Some(rt))
      else (Respond(c, rt.msgId, rt.payload, rt.deadline.Some?), Some(rt))
  }

  /** The response frame for a handler's result: the value under the id, or a USER exception under the negated id. */
  function ReplyBody(msgId: int, result: Result<seq<byte>, seq<byte>>): (b: seq<byte>)
    requires I64Min <= msgId <= I64Max
    requires result.Success? ==> 12 + |result.value| < U32
    requires result.Failure? ==> |CStr(result.error)| + 20 < U32
  {
    if result.Success? then ResponseBody(msgId, result.value)
    else ResponseBody(Neg64(msgId), UserExceptionPayload(result.error))
  }

  /**
   * `reply`: on a healthy connection the handler's result is sent as a
   * response under the message id, or, if the handler threw, as a USER
   * exception under the negated id, in both cases with the request's
   * deadline; on a failed connection nothing is sent.
   */
  function Reply(c: Connection, msgId: int, result: Result<seq<byte>, seq<byte>>, hasDeadline: bool): (r: Connection)
    requires I64Min <= msgId <= I64Max
    requires result.Success? ==> 12 + |result.value| < U32
    requires result.Failure? ==> |CStr(result.error)| + 20 < U32
    ensures c.error ==> r == c
    ensures !c.error && result.Success? ==>
      r.outgoing == c.outgoing + [Outgoing(c.nextTag, ResponseBody(msgId, result.value), hasDeadline)]
    ensures !c.error && result.Failure? ==>
      r.outgoing == c.outgoing + [Outgoing(c.nextTag, ResponseBody(Neg64(msgId), UserExceptionPayload(result.error)), hasDeadline)]
    ensures !c.error ==> r == c.(outgoing := r.outgoing, nextTag := c.nextTag + 1)
  {
    if c.error then c
    else if result.Success? then Respond(c, msgId, result.value, hasDeadline)
    else Respond(c, Neg64(msgId), UserExceptionPayload(result.error), hasDeadline)
  }

  /** The id and payload of the response frame that carries a handler's result. */
  function ReplyFrame(id: int, result: Result<seq<byte>, seq<byte>>): (f: (int, seq<byte>))
    requires result.Failure? ==> |CStr(result.error)| + 20 < U32
  {
    if result.Success? then (id, result.value) else (-id, UserExceptionPayload(result.error))
  }

  /**
   * A handler's result comes back to the caller: the server's reply, taken
   * from the front of its queue and written by the send loop, is read by
   * the client as a response under the call's id (or its negation for an
   * exception), and dispatching it settles the handler waiting under that
   * id with the value, or with a `std::runtime_error` carrying the message.
   */
  lemma ReplyReachesCaller(c: Connection, cl: Client, id: int, result: Result<seq<byte>, seq<byte>>,
                           hasDeadline: bool, codec: Codec, left: int, rest: seq<byte>)
    requires !c.error && c.outgoing == [] && StatsValid(c.stats) && I64Min <= left <= I64Max
    requires 0 < id <= I64Max && StatsValid(cl.conn.stats) && id in cl.outstanding
    requires result.Success? ==> 12 + |result.value| < U32
    requires result.Failure? ==> |CStr(result.error)| + 20 < U32
    requires var b := ReplyBody(id, result);
      c.compress ==> |codec.compress(b)| < U32 && codec.decompress(codec.compress(b)) == b
    ensures var sent := SendLoopStep(Reply(c, id, result, hasDeadline), codec, false, left);
      var (rid, payload) := ReplyFrame(id, result);
      && sent.outgoing == []
      && |c.wire| <= |sent.wire|
      && ReadFrameCompressed(Response, if c.compress then Some(codec) else None, sent.wire[|c.wire|..] + rest)
         == Success((Frame(ResponseHeader(rid, |payload|), payload), rest))
      && DispatchResponse(cl, rid, Some(payload)).1
         == if result.Success? then Notified(Delivered(cl.outstanding[id], result.value))
            else Notified(Errored(cl.outstanding[id], User(CStr(result.error))))
  {
    var compressor := if c.compress then Some(codec) else None;
    var b := ReplyBody(id, result);
    var sent := SendLoopStep(Reply(c, id, result, hasDeadline), codec, false, left);
    assert sent.outgoing == [] && |c.wire| <= |sent.wire| && sent.wire[|c.wire|..] == CompressFrame(compressor, b) by {
      ReplyLeavesFrame(c, id, result, hasDeadline, codec, left);
    }
    ReplyBodyDispatched(cl, id, result, compressor, rest);
  }

  /** The send loop writes exactly the reply's frame and empties the queue. */
  lemma ReplyLeavesFrame(c: Connection, id: int, result: Result<seq<byte>, seq<byte>>,
                         hasDeadline: bool, codec: Codec, left: int)
    requires !c.error && c.outgoing == [] && StatsValid(c.stats) && I64Min <= left <= I64Max
    requires I64Min <= id <= I64Max
    requires result.Success? ==> 12 + |result.value| < U32
    requires result.Failure? ==> |CStr(result.error)| + 20 < U32
    requires c.compress ==> |codec.compress(ReplyBody(id, result))| < U32
    ensures var sent := SendLoopStep(Reply(c, id, result, hasDeadline), codec, false, left);
      && sent.outgoing == []
      && |c.wire| <= |sent.wire|
      && sent.wire[|c.wire|..] == CompressFrame(if c.compress then Some(codec) else None, ReplyBody(id, result))
  {
    var r := Reply(c, id, result, hasDeadline);
    var b := ReplyBody(id, result);
    assert r.outgoing == [Outgoing(c.nextTag, b, hasDeadline)];
    assert r.wire == c.wire && r.compress == c.compress && r.stats == c.stats;
    assert Fixed(r, false, left) == b;
  }

  /** A reply frame, read back by the client, settles the call waiting under its id. */
  lemma ReplyBodyDispatched(cl: Client, id: int, result: Result<seq<byte>, seq<byte>>,
                            compressor: Option<Codec>, rest: seq<byte>)
    requires 0 < id <= I64Max && StatsValid(cl.conn.stats) && id in cl.outstanding
    requires result.Success? ==> 12 + |result.value| < U32
    requires result.Failure? ==> |CStr(result.error)| + 20 < U32
    requires var b := ReplyBody(id, result);
      compressor.Some? ==> |compressor.value.compress(b)| < U32 && compressor.value.decompress(compressor.value.compress(b)) == b
    ensures var (rid, payload) := ReplyFrame(id, result);
      && ReadFrameCompressed(Response, compressor, CompressFrame(compressor, ReplyBody(id, result)) + rest)
         == Success((Frame(ResponseHeader(rid, |payload|), payload), rest))
      && DispatchResponse(cl, rid, Some(payload)).1
         == if result.Success? then Notified(Delivered(cl.outstanding[id], result.value))
            else Notified(Errored(cl.outstanding[id], User(CStr(result.error))))
  {
    if result.Success? {
      ResponseRoundTrip(compressor, id, result.value, rest);
    } else {
      var p := UserExceptionPayload(result.error);
      assert Neg64(id) == -id;
      ResponseRoundTrip(compressor, -id, p, rest);
      DispatchError(cl, id, result.error);
    }
  }

  /**
   * A call of a verb the server does not know comes back to the caller as
   * `unknown_verb_error` carrying that verb: the server's reply, read by the
   * client, is dispatched to the handler waiting under the call's id.
   */
  lemma UnknownVerbReachesCaller(cl: Client, hs: Handlers, verb: nat, id: int, compressor: Option<Codec>, rest: seq<byte>)
    requires verb < U32 && verb !in hs && 0 < id <= I64Max
    requires StatsValid(cl.conn.stats) && id in cl.outstanding
    requires var body := ResponseBody(Neg64(id), UnknownVerbPayload(verb));
      compressor.Some? ==>
        (|compressor.value.compress(body)| < U32 && compressor.value.decompress(compressor.value.compress(body)) == body)
    ensures var route := RouteRequest(hs, Frame(RequestHeader(None, verb, id, 0), []));
      && route == ReplyUnknownVerb(None, -id, UnknownVerbPayload(verb))
      && var read := ReadFrameCompressed(Response, compressor, ResponseWire(compressor, -id, route.payload) + rest);
      && read == Success((Frame(ResponseHeader(-id, 16), UnknownVerbPayload(verb)), rest))
      && DispatchResponse(cl, -id, Some(read.value.0.payload)).1
         == Notified(Errored(cl.outstanding[id], UnknownVerb(verb)))
  {
    var payload := UnknownVerbPayload(verb);
    var route := RouteRequest(hs, Frame(RequestHeader(None, verb, id, 0), []));
    assert Neg64(id) == -id;
    assert route == ReplyUnknownVerb(None, -id, payload);
    ResponseRoundTrip(compressor, -id, payload, rest);
    var read := ReadFrameCompressed(Response, compressor, ResponseWire(compressor, -id, payload) + rest);
    assert read == Success((Frame(ResponseHeader(-id, 16), payload), rest));
    UnknownVerbRoundTrip(verb);
    assert Abs64(-id) == id;
  }

  // Request memory estimate.

  datatype ResourceLimits = ResourceLimits(basicRequestSize: nat, bloatFactor: nat, maxMemory: nat)

  /** The default limits: no basic size, bloat factor one. */
  function DefaultLimits(maxMemory: nat): (lim: ResourceLimits)
    ensures lim.basicRequestSize == 0 && lim.bloatFactor == 1
  {
    ResourceLimits(0, 1, maxMemory)
  }

  /** `estimate_request_size` in `size_t` arithmetic. */
  function EstimateRequestSize(lim: ResourceLimits, serializedSize: nat): (n: nat)
    ensures n < U64
    ensures lim.basicRequestSize + serializedSize * lim.bloatFactor < U64 ==>
      n == lim.basicRequestSize + serializedSize * lim.bloatFactor
  {
    (lim.basicRequestSize + serializedSize * lim.bloatFactor) % U64
  }

  /** Under the default limits the estimate is the serialized size itself. */
  lemma DefaultEstimate(maxMemory: nat, serializedSize: nat)
    requires serializedSize < U64
    ensures EstimateRequestSize(DefaultLimits(maxMemory), serializedSize) == serializedSize
  {
  }

  /** Without wrap-around, a bigger request never gets a smaller estimate. */
  lemma EstimateMonotone(lim: ResourceLimits, a: nat, b: nat)
    requires a <= b && lim.basicRequestSize + b * lim.bloatFactor < U64
    ensures EstimateRequestSize(lim, a) <= EstimateRequestSize(lim, b)
  {
    assert a * lim.bloatFactor <= b * lim.bloatFactor by {
      MulMono(a, b, lim.bloatFactor);
    }
  }

  lemma MulMono(a: nat, b: nat, k: nat)
    requires a <= b
    ensures a * k <= b * k
  {
  }
}
