/**
  End to end over the serial link: a text message cut into frames, mixed with status frames and line noise,
  reaches the panel as the text it was cut from.
 */
module LinkTheory {
  import opened Bytes
  import opened CrcRegister
  import opened CrcTheory
  import opened Frames
  import opened Parser
  import opened ParserTheory
  import opened TextMessages

  const START := Outcome(NO_TEXT, [], [])

  lemma {:induction false} AsEventsSnoc(frames: seq<seq<Byte>>, f: seq<Byte>)
    ensures AsEvents(frames + [f]) == AsEvents(frames) + [Accepted(f)]
  {
    if frames == [] {
      assert AsEvents([f][1..]) == [];
    } else {
      assert (frames + [f])[1..] == frames[1..] + [f];
      AsEventsSnoc(frames[1..], f);
    }
  }

  function Received(o: Outcome, frames: seq<seq<Byte>>): Outcome {
    DispatchAll(o, AsEvents(frames))
  }

  lemma ReceivedSnoc(o: Outcome, frames: seq<seq<Byte>>, f: seq<Byte>)
    ensures Received(o, frames + [f]) == Dispatch(Received(o, frames), Accepted(f))
  {
    hide Dispatch;
    AsEventsSnoc(frames, f);
    DispatchAllSnoc(o, AsEvents(frames), Accepted(f));
  }

  lemma MessageFrameIsText(flag: Byte, kind: Byte, chunks: seq<seq<Byte>>, more: Byte, i: nat)
    requires Splits(kind, chunks, more) && i < |chunks|
    ensures var f := MessageFrame(flag, kind, chunks, more, i);
            |f| > 2 && f[2] == TYPE_TEXT && Deliverable(f)
  {
    hide CrcMatches;
    var mark := if i == |chunks| - 1 then 1 else more;
    EncodeWellFormed(TYPE_TEXT, [mark] + (if i == 0 then [flag, kind] else []) + chunks[i]);
  }

  /** After n frames, not yet all, the text under way has been extended by n chunks, up to 4096 octets. */
  lemma {:induction false} PartlyReceived(o: Outcome, flag: Byte, kind: Byte, chunks: seq<seq<Byte>>, more: Byte, n: nat)
    requires Splits(kind, chunks, more) && 1 <= n < |chunks|
    ensures Received(o, MessageFrames(flag, kind, chunks, more, n)) ==
            o.(text := Taken(o.text, flag, kind, Flatten(chunks[..n])))
    ensures Taken(o.text, flag, kind, Flatten(chunks[..n])).body != []
  {
    hide Dispatch, MessageFrame, Received, Taken, Flatten, Deliverable;
    if n == 1 {
      ReceivedNone(o);
    } else {
      PartlyReceived(o, flag, kind, chunks, more, n - 1);
    }
    var before := MessageFrames(flag, kind, chunks, more, n - 1);
    ChunkReceived(o, Received(o, before), flag, kind, chunks, more, n - 1);
    ReceivedSnoc(o, before, MessageFrame(flag, kind, chunks, more, n - 1));
    TakenNonEmpty(o.text, flag, kind, chunks[..n]);
  }

  lemma ReceivedNone(o: Outcome)
    ensures Received(o, []) == o
  {
  }

  lemma TakenNonEmpty(a: Assembly, flag: Byte, kind: Byte, chunks: seq<seq<Byte>>)
    requires chunks != [] && forall i :: 0 <= i < |chunks| ==> chunks[i] != []
    ensures Taken(a, flag, kind, Flatten(chunks)).body != []
  {
    hide Flatten;
    FlattenNonEmpty(chunks);
  }

  lemma ChunkReceived(o: Outcome, o': Outcome, flag: Byte, kind: Byte, chunks: seq<seq<Byte>>, more: Byte, i: nat)
    requires Splits(kind, chunks, more) && i < |chunks|
    requires i == 0 ==> o' == o
    requires i > 0 ==> o' == o.(text := Taken(o.text, flag, kind, Flatten(chunks[..i]))) && o'.text.body != []
    ensures var t := Taken(o.text, flag, kind, Flatten(chunks[..i + 1]));
            Dispatch(o', Accepted(MessageFrame(flag, kind, chunks, more, i))) ==
            if i == |chunks| - 1 then Ended(o, t) else o.(text := t)
  {
    hide ReadChunk, MessageFrame, Deliverable, Taken, Truncate, Flatten;
    MessageFrameIsText(flag, kind, chunks, more, i);
    ChunkEffect(o', o.text, flag, kind, chunks, more, i);
  }

  /** The message that `t` has grown to is shown, and nothing is under way any more. */
  function Ended(o: Outcome, t: Assembly): Outcome {
    Outcome(t.(body := []), o.shown + [Message(t.flag, t.kind, t.body)], o.samples)
  }

  /**
    Text round trip, from any state: the panel is given one message. If no text was under way it is the first 4096
    octets of this one with its flag and type; otherwise it goes on from the text under way.
   */
  lemma MessageRoundTrip(o: Outcome, flag: Byte, kind: Byte, chunks: seq<seq<Byte>>, more: Byte)
    requires Splits(kind, chunks, more)
    ensures Received(o, MessageFrames(flag, kind, chunks, more, |chunks|)) ==
            Ended(o, Taken(o.text, flag, kind, Flatten(chunks)))
  {
    hide Dispatch, MessageFrame, Received, Taken, Flatten, Deliverable, Ended;
    var n := |chunks| - 1;
    if n == 0 {
      ReceivedNone(o);
    } else {
      PartlyReceived(o, flag, kind, chunks, more, n);
    }
    var before := MessageFrames(flag, kind, chunks, more, n);
    ChunkReceived(o, Received(o, before), flag, kind, chunks, more, n);
    ReceivedSnoc(o, before, MessageFrame(flag, kind, chunks, more, n));
    assert chunks[..|chunks|] == chunks;
  }

  /**
    A message is shown as it was sent exactly when no text was under way, but for one coincidence: 4096 octets or
    more of text that look like the text under way followed by flag, type and themselves.
   */
  lemma OwnMessageIff(a: Assembly, flag: Byte, kind: Byte, text: seq<Byte>)
    ensures Taken(a, flag, kind, text) == Assembly(flag, kind, Truncate(text)) <==>
            || a.body == []
            || (&& a.flag == flag && a.kind == kind && |text| >= MAX_TEXT
                && (a.body + [flag, kind] + text)[..MAX_TEXT] == text[..MAX_TEXT])
  {
    if a.body == [] {
      assert [] + text == text;
    }
  }

  lemma {:induction false} ReceivedConcat(o: Outcome, a: seq<seq<Byte>>, b: seq<seq<Byte>>)
    ensures Received(o, a + b) == Received(Received(o, a), b)
    decreases |b|
  {
    hide Received, Dispatch;
    if b == [] {
      assert a + b == a;
      ReceivedNone(Received(o, a));
    } else {
      var n := |b| - 1;
      ReceivedConcat(o, a, b[..n]);
      ReceivedSnoc(o, a + b[..n], b[n]);
      ReceivedSnoc(Received(o, a), b[..n], b[n]);
      assert a + b == a + b[..n] + [b[n]] && b == b[..n] + [b[n]];
    }
  }

  /**
    The failing family: when the frames of a message stop before its last one, the next message is appended to it,
    flag and type included, and is shown under the flag and type of the first.
   */
  lemma CutMessageAbsorbsNext(o: Outcome, flag: Byte, kind: Byte, chunks: seq<seq<Byte>>, more: Byte, n: nat,
                              flag': Byte, kind': Byte, chunks': seq<seq<Byte>>, more': Byte)
    requires Splits(kind, chunks, more) && 1 <= n < |chunks| && Splits(kind', chunks', more') && o.text.body == []
    ensures Received(o, MessageFrames(flag, kind, chunks, more, n) +
                        MessageFrames(flag', kind', chunks', more', |chunks'|)) ==
            Ended(o, Assembly(flag, kind, Truncate(Flatten(chunks[..n]) + [flag', kind'] + Flatten(chunks'))))
  {
    hide Received, MessageFrames, Flatten, Truncate;
    var before, body := MessageFrames(flag, kind, chunks, more, n), Flatten(chunks[..n]);
    ReceivedConcat(o, before, MessageFrames(flag', kind', chunks', more', |chunks'|));
    PartlyReceived(o, flag, kind, chunks, more, n);
    MessageRoundTrip(Received(o, before), flag', kind', chunks', more');
    assert [] + body == body;
    var rest := [flag', kind'] + Flatten(chunks');
    TruncateTwice(body, rest);
    assert Truncate(body) + [flag', kind'] + Flatten(chunks') == Truncate(body) + rest;
    assert body + [flag', kind'] + Flatten(chunks') == body + rest;
  }

  /** A burst of up to sixteen bits in the payload, sparing its first octet. */
  ghost predicate HitByBurst(frame: seq<Byte>, damaged: seq<Byte>, from: int) {
    && 7 <= |frame| == |damaged| && damaged != frame && damaged[..4] == frame[..4]
    && damaged[|frame| - 3..] == frame[|frame| - 3..]
    && DifferByBurst(Bits(Payload(frame)), Bits(Payload(damaged)), from)
  }

  lemma BurstMakesDamagedEnd(last: seq<Byte>, damaged: seq<Byte>, from: int)
    requires WellFormed(last) && |last| >= 7 && last[2] == TYPE_TEXT && last[3] == 1
    requires HitByBurst(last, damaged, from)
    ensures DamagedEnd(damaged)
  {
    hide CrcMatches;
    assert damaged[..3] == damaged[..4][..3] == last[..4][..3] == last[..3];
    BurstRejected(last, damaged, from);
    assert forall i :: 0 <= i < 4 ==> damaged[i] == damaged[..4][i] == last[..4][i] == last[i];
  }

  /**
    When the payload of the last frame is hit by a burst of up to sixteen bits that spares its state octet, the
    panel is given what the earlier frames carried.
   */
  lemma BurstOnLastFrame(o: Outcome, flag: Byte, kind: Byte, chunks: seq<seq<Byte>>, more: Byte,
                         damaged: seq<Byte>, from: int)
    requires Splits(kind, chunks, more) && |chunks| > 1
    ensures var n := |chunks| - 1;
            var before := AsEvents(MessageFrames(flag, kind, chunks, more, n));
            HitByBurst(MessageFrame(flag, kind, chunks, more, n), damaged, from) ==>
              DispatchAll(o, before + Run(IDLE, damaged).events) ==
              Ended(o, Taken(o.text, flag, kind, Flatten(chunks[..n])))
  {
    hide Run, MessageFrame, MessageFrames, CrcMatches, Flatten, Truncate, HitByBurst, Taken;
    var n := |chunks| - 1;
    var last := MessageFrame(flag, kind, chunks, more, n);
    if HitByBurst(last, damaged, from) {
      MessageFrameIsText(flag, kind, chunks, more, n);
      LastFrameShape(flag, kind, chunks, more);
      BurstMakesDamagedEnd(last, damaged, from);
      DamagedEndFinishes(damaged);
      PartlyReceived(o, flag, kind, chunks, more, n);
      DispatchAllSnoc(o, AsEvents(MessageFrames(flag, kind, chunks, more, n)), ForceFinish);
    }
  }

  lemma LastFrameShape(flag: Byte, kind: Byte, chunks: seq<seq<Byte>>, more: Byte)
    requires Splits(kind, chunks, more) && |chunks| > 1
    ensures var f := MessageFrame(flag, kind, chunks, more, |chunks| - 1);
            |f| >= 7 && f[3] == 1
  {
    hide CrcRegister.Crc, LowOctet, HighOctet;
  }

  // ---------- Status frames in between ----------

  function TextOnly(frames: seq<seq<Byte>>): seq<seq<Byte>> {
    if frames == [] then []
    else
      var n := |frames| - 1;
      TextOnly(frames[..n]) + (if |frames[n]| > 2 && frames[n][2] == TYPE_TEXT then [frames[n]] else [])
  }

  predicate SameText(o: Outcome, o': Outcome) {
    o.text == o'.text && o.shown == o'.shown
  }

  lemma TextFrameSame(o: Outcome, o': Outcome, f: seq<Byte>)
    requires SameText(o, o')
    ensures SameText(TextFrame(o, f), TextFrame(o', f))
  {
    hide ReadChunk;
  }

  /** Status frames neither disturb the message under way nor what is shown. */
  lemma {:induction false} StatusFramesTransparent(o: Outcome, frames: seq<seq<Byte>>)
    ensures SameText(Received(o, frames), Received(o, TextOnly(frames)))
  {
    hide TextFrame, Received;
    if frames == [] {
      assert TextOnly(frames) == frames;
    } else {
      var n := |frames| - 1;
      var f := frames[n];
      StatusFramesTransparent(o, frames[..n]);
      ReceivedSnoc(o, frames[..n], f);
      assert frames[..n] + [f] == frames;
      if |f| > 2 && f[2] == TYPE_TEXT {
        ReceivedSnoc(o, TextOnly(frames[..n]), f);
        TextFrameSame(Received(o, frames[..n]), Received(o, TextOnly(frames[..n])), f);
      } else {
        assert TextOnly(frames) == TextOnly(frames[..n]);
      }
    }
  }

  /** Everything before: what was under way, shown and reported after these octets. */
  function Past(octets: seq<Byte>): Outcome {
    DispatchAll(START, Run(IDLE, octets).events)
  }

  /** After any octets and 254 more without a head the parser is at rest. */
  lemma AtRestAfterQuiet(past: seq<Byte>, noise: seq<Byte>)
    requires Quiet(noise) && |noise| >= MAX_FRAME - 1
    ensures Run(IDLE, past + noise).state == IDLE
  {
    hide Run;
    RunReachable(IDLE, past);
    RunConcat(IDLE, past, noise);
    QuietForcesIdle(Run(IDLE, past).state, noise);
  }

  /**
    From the octets on the wire to the panel: after anything that leaves the parser at rest, noise without frame
    heads, status frames and the frames of one message, in any interleaving that keeps the message's own order,
    show exactly one more message.
   */
  lemma MessageCrossesTheLink(past: seq<Byte>, junk: seq<seq<Byte>>, frames: seq<seq<Byte>>,
                              flag: Byte, kind: Byte, chunks: seq<seq<Byte>>, more: Byte)
    requires Run(IDLE, past).state == IDLE && Splits(kind, chunks, more) && CleanStream(junk, frames)
    requires TextOnly(frames) == MessageFrames(flag, kind, chunks, more, |chunks|)
    ensures SameText(Past(past + Weave(junk, frames)),
                     Ended(Past(past), Taken(Past(past).text, flag, kind, Flatten(chunks))))
  {
    hide Run, Dispatch, MessageFrames, DispatchAll, Ended, Taken;
    CleanStreamDelivered(junk, frames);
    RunConcat(IDLE, past, Weave(junk, frames));
    DispatchAllConcat(START, Run(IDLE, past).events, AsEvents(frames));
    StatusFramesTransparent(Past(past), frames);
    MessageRoundTrip(Past(past), flag, kind, chunks, more);
  }
}
