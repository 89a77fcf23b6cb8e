/** The per-player side of the delta-snapshot protocol: which packet goes
    out, what is remembered, and the traffic counters. `size` stands for the
    length of a MessagePack encoding and `now` for `Date.now()`. */
module NetProtocol {
  import opened Wrappers
  import opened Protocol

  datatype Twin = Ts | Js

  /** What `encode` is applied to. */
  datatype Message = Envelope(kind: string, data: Snapshot, timestamp: int) | Raw(snapshot: Snapshot)

  datatype Metrics = Metrics(totalBytesSent: int, totalBytesReceived: int, packetsSent: int, packetsReceived: int, bytesSaved: int)

  datatype Session = Session(last: map<string, Snapshot>, metrics: Metrics)

  const Zero := Metrics(0, 0, 0, 0, 0)

  function Initial(): (r: Session)
    ensures r.last == map[] && r.metrics == Zero
  {
    Session(map[], Zero)
  }

  /** `encodeSnapshot`: counts the bytes and one packet. */
  function Encode(m: Metrics, msg: Message, size: Message -> nat): (r: Metrics)
    ensures r.totalBytesSent == m.totalBytesSent + size(msg) && r.packetsSent == m.packetsSent + 1
    ensures r.totalBytesReceived == m.totalBytesReceived && r.packetsReceived == m.packetsReceived && r.bytesSaved == m.bytesSaved
  {
    m.(totalBytesSent := m.totalBytesSent + size(msg), packetsSent := m.packetsSent + 1)
  }

  /** `decodeSnapshot` of `length` bytes: counts the bytes and one packet. */
  function Decode(s: Session, length: nat): (r: Session)
    ensures r.last == s.last
    ensures r.metrics.totalBytesReceived == s.metrics.totalBytesReceived + length
    ensures r.metrics.packetsReceived == s.metrics.packetsReceived + 1
    ensures r.metrics.totalBytesSent == s.metrics.totalBytesSent && r.metrics.packetsSent == s.metrics.packetsSent
  {
    s.(metrics := s.metrics.(totalBytesReceived := s.metrics.totalBytesReceived + length,
                             packetsReceived := s.metrics.packetsReceived + 1))
  }

  datatype Sent = Sent(session: Session, packet: Option<Message>)

  /** `createDeltaSnapshot(player, cur)`. The JavaScript twin measures the
      full size with `encodeSnapshot`, which counts a second packet. */
  function CreateDelta(s: Session, player: string, cur: Snapshot, now: int, size: Message -> nat, eq: Equality, twin: Twin): (r: Sent)
    ensures r.packet.None? ==> r.session == s
    ensures r.packet.Some? ==>
              && r.session.last == s.last[player := cur]
              && r.session.metrics.packetsSent > s.metrics.packetsSent
              && r.session.metrics.totalBytesSent >= s.metrics.totalBytesSent + size(r.packet.value)
    ensures r.session.metrics.packetsReceived == s.metrics.packetsReceived
      && r.session.metrics.totalBytesReceived == s.metrics.totalBytesReceived
  {
    if player !in s.last then
      var msg := Envelope("full", cur, now);
      Sent(Session(s.last[player := cur], Encode(s.metrics, msg, size)), Some(msg))
    else
      var d := Delta(s.last[player], cur, eq);
      if |d| == 0 then Sent(s, None)
      else
        var msg := Envelope("delta", d, now);
        var m := Encode(s.metrics, msg, size);
        var m' := if twin == Js then Encode(m, Raw(cur), size) else m;
        Sent(Session(s.last[player := cur], m'.(bytesSaved := m'.bytesSaved + size(Raw(cur)) - size(msg))), Some(msg))
  }

  /** The first snapshot for a player goes out whole and is remembered. */
  lemma FirstIsFull(s: Session, player: string, cur: Snapshot, now: int, size: Message -> nat, eq: Equality, twin: Twin)
    requires player !in s.last
    ensures var r := CreateDelta(s, player, cur, now, size, eq, twin);
      r.packet == Some(Envelope("full", cur, now)) && r.session.last == s.last[player := cur]
      && r.session.metrics.packetsSent == s.metrics.packetsSent + 1
  {
  }

  /** Nothing changed: no packet, and the whole session is untouched, the
      remembered snapshot included. */
  lemma NoChangeSendsNothing(s: Session, player: string, cur: Snapshot, now: int, size: Message -> nat, eq: Equality, twin: Twin)
    requires player in s.last
    requires forall i :: 0 <= i < |cur| ==> !Changed(Lookup(s.last[player], cur[i].key), cur[i].value, eq)
    ensures CreateDelta(s, player, cur, now, size, eq, twin) == Sent(s, None)
  {
    DeltaEmpty(s.last[player], cur, eq);
  }

  /** A changed snapshot sends exactly the delta and remembers the new
      snapshot; only this player's memory changes. The TypeScript twin
      counts one packet, the JavaScript twin two. */
  lemma DeltaSent(s: Session, player: string, cur: Snapshot, now: int, size: Message -> nat, eq: Equality, twin: Twin)
    requires player in s.last
    requires exists i :: 0 <= i < |cur| && Changed(Lookup(s.last[player], cur[i].key), cur[i].value, eq)
    ensures var r := CreateDelta(s, player, cur, now, size, eq, twin);
      var d := Delta(s.last[player], cur, eq);
      && r.packet == Some(Envelope("delta", d, now))
      && r.session.last == s.last[player := cur]
      && r.session.metrics.packetsSent == s.metrics.packetsSent + (if twin == Js then 2 else 1)
      && r.session.metrics.bytesSaved == s.metrics.bytesSaved + size(Raw(cur)) - size(Envelope("delta", d, now))
  {
    var i :| 0 <= i < |cur| && Changed(Lookup(s.last[player], cur[i].key), cur[i].value, eq);
    assert ChangedFn(eq)(Lookup(s.last[player], cur[i].key), cur[i].value);
    assert cur[i] in Delta(s.last[player], cur, eq);
  }

  /** Players are independent: a snapshot for one never touches what is
      remembered for another. */
  lemma PlayersIndependent(s: Session, player: string, other: string, cur: Snapshot, now: int, size: Message -> nat, eq: Equality, twin: Twin)
    requires other != player
    ensures var r := CreateDelta(s, player, cur, now, size, eq, twin);
      (other in r.session.last <==> other in s.last)
      && (other in s.last ==> r.session.last[other] == s.last[other])
  {
  }

  /** `clearPlayer`. */
  function ClearPlayer(s: Session, player: string): (r: Session)
    ensures player !in r.last
    ensures forall p :: p != player ==> (p in r.last <==> p in s.last)
    ensures forall p :: p in r.last ==> r.last[p] == s.last[p]
    ensures r.metrics == s.metrics
  {
    s.(last := s.last - {player})
  }

  /** After `clearPlayer` the next snapshot for that player is full. */
  lemma ClearedPlayerGetsFull(s: Session, player: string, cur: Snapshot, now: int, size: Message -> nat, eq: Equality, twin: Twin)
    ensures CreateDelta(ClearPlayer(s, player), player, cur, now, size, eq, twin).packet == Some(Envelope("full", cur, now))
  {
  }

  /** `resetMetrics`: every counter back to zero, snapshots kept. */
  function ResetMetrics(s: Session): (r: Session)
    ensures r.last == s.last
    ensures r.metrics.totalBytesSent == 0 && r.metrics.totalBytesReceived == 0
    ensures r.metrics.packetsSent == 0 && r.metrics.packetsReceived == 0 && r.metrics.bytesSaved == 0
  {
    s.(metrics := Zero)
  }

  /** A JavaScript number as the metrics report computes it. */
  datatype Number = Finite(value: real) | NotANumber | Infinity(positive: bool)

  /** `x / y` on JavaScript numbers, for a whole-number `y`. */
  function Divide(x: real, y: real): (r: Number)
    ensures y != 0.0 ==> r == Finite(x / y)
    ensures y == 0.0 && x == 0.0 ==> r == NotANumber
  {
    if y != 0.0 then Finite(x / y)
    else if x == 0.0 then NotANumber
    else Infinity(x > 0.0)
  }

  /** The compression ratio in percent, before formatting with
      `toFixed(2)`. The TypeScript twin reports 0 unless something could
      have been sent; the JavaScript twin divides regardless. */
  function CompressionRatio(m: Metrics, twin: Twin): (r: Number)
    ensures twin == Ts && m.totalBytesSent + m.bytesSaved <= 0 ==> r == Finite(0.0)
    ensures twin == Ts && m.totalBytesSent + m.bytesSaved > 0 ==>
      r == Finite(m.bytesSaved as real / (m.totalBytesSent + m.bytesSaved) as real * 100.0)
    ensures twin == Js && m.totalBytesSent + m.bytesSaved != 0 ==>
      r == Finite(m.bytesSaved as real / (m.totalBytesSent + m.bytesSaved) as real * 100.0)
  {
    var total := m.totalBytesSent + m.bytesSaved;
    match twin
    case Ts => if total > 0 then Finite(m.bytesSaved as real / total as real * 100.0) else Finite(0.0)
    case Js =>
      match Divide(m.bytesSaved as real, total as real)
      case Finite(q) => Finite(q * 100.0)
      case other => other
  }

  /** Before anything is sent, the TypeScript ratio is 0 and the
      JavaScript one is NaN. */
  lemma FreshRatios()
    ensures CompressionRatio(Zero, Ts) == Finite(0.0)
    ensures CompressionRatio(Zero, Js) == NotANumber
  {
  }

  /** The average packet size, 0 before any packet. */
  function AveragePacketSize(m: Metrics): (r: real)
    ensures m.packetsSent <= 0 ==> r == 0.0
    ensures m.packetsSent > 0 ==> r * m.packetsSent as real == m.totalBytesSent as real
  {
    if m.packetsSent > 0 then m.totalBytesSent as real / m.packetsSent as real else 0.0
  }
}
