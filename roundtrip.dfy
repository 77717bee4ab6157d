/**
 * Recording followed by replay: the file a recorder session writes, replayed
 * against a target that cooperates, sends the handshake and then exactly the
 * recorded messages, in the order they arrived.
 */
module RoundTrip {
  import opened Types
  import opened Framing
  import opened Wire
  import opened Replay
  import Save

  /**
   * A target that takes the handshake and n more messages, and answers the
   * handshake with a reply that fits the buffer and decodes.
   */
  predicate Cooperative(w: Protocol, t: Target, n: nat)
  {
    w.encodeHandshake(w.currentVersion).Some? &&
    TakesWrites(t, 1 + n) &&
    t.replyStatus != ReadError &&
    |Received(t, HandshakeBufferSize)| < HandshakeBufferSize &&
    w.decodeHandshake(Received(t, HandshakeBufferSize)).Some?
  }

  lemma RecordThenReplay(fmt: Format, w: Protocol, msgs: seq<Bytes>, t: Target)
    requires ConfigRoundTrips(w)
    requires w.encodeConfig(w.currentVersion).Some? && |w.encodeConfig(w.currentVersion).value| < Uint64Limit
    requires AllFit(msgs)
    requires Cooperative(w, t, |msgs|)
    ensures ReplaySpec(fmt, w, Some(t), Some(Layout(fmt, w.encodeConfig(w.currentVersion).value, msgs)))
         == Run([w.encodeHandshake(w.currentVersion).value] + msgs, None)
  {
    var config := w.encodeConfig(w.currentVersion).value;
    ParseLayout(fmt, config, msgs);
    assert w.decodeConfig(config) == Some(w.currentVersion);
    var hs := HandshakeSpec(w, w.currentVersion, t);
    assert hs == Run([w.encodeHandshake(w.currentVersion).value], None);
    StreamSendsPrefix(msgs, CleanEnd, t, hs.sent);
  }

  /** A session that received no message replays as the handshake alone, without error. */
  lemma EmptySessionReplay(fmt: Format, w: Protocol, t: Target)
    requires ConfigRoundTrips(w)
    requires w.encodeConfig(w.currentVersion).Some? && |w.encodeConfig(w.currentVersion).value| < Uint64Limit
    requires Cooperative(w, t, 0)
    ensures ReplaySpec(fmt, w, Some(t), Some(Layout(fmt, w.encodeConfig(w.currentVersion).value, [])))
         == Run([w.encodeHandshake(w.currentVersion).value], None)
  {
    RecordThenReplay(fmt, w, [], t);
  }

  /**
   * The file of a recorder session in which every write succeeded replays as
   * the handshake followed by the session's messages in arrival order.
   */
  lemma HandlerFileReplays(h: Save.MsgHandler, t: Target)
    requires h.Valid() && h.intact
    requires ConfigRoundTrips(h.wire)
    requires h.wire.encodeConfig(h.wire.currentVersion) == Some(h.config) && |h.config| < Uint64Limit
    requires Cooperative(h.wire, t, |h.recorded|)
    ensures ReplaySpec(h.fmt, h.wire, Some(t), Some(h.out.content))
         == Run([h.wire.encodeHandshake(h.wire.currentVersion).value] + h.recorded, None)
  {
    RecordThenReplay(h.fmt, h.wire, h.recorded, t);
  }
}
