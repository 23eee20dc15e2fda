/**
  Reassembly of a text message that the SOC sends in several frames, and the dispatch of accepted frames.
 */
module TextMessages {
  import opened Bytes
  import opened CrcRegister
  import opened Frames
  import opened Parser

  const MAX_TEXT := 4096

  /** What the panel is asked to show. */
  datatype Message = Message(flag: Byte, kind: Byte, text: seq<Byte>)

  /** `body` is text[0..assem_len); it is empty exactly when no message is under way. */
  datatype Assembly = Assembly(flag: Byte, kind: Byte, body: seq<Byte>)

  /** One speed report handed to the odometer. */
  datatype Sample = Sample(speed: nat, timestamp: nat)

  /** The text under way, the messages shown so far and the speed reports so far. */
  datatype Outcome = Outcome(text: Assembly, shown: seq<Message>, samples: seq<Sample>)

  const NO_TEXT := Assembly(0, 0, [])

  function Truncate(s: seq<Byte>): (t: seq<Byte>)
    ensures t <= s && |t| == if |s| <= 4096 then |s| else 4096
  {
    if |s| <= MAX_TEXT then s else s[..MAX_TEXT]
  }

  /** What a text frame carries, as the assembly under way makes it read. */
  datatype Chunk = Ignored | Chunk(flag: Byte, kind: Byte, bytes: seq<Byte>, last: bool)

  function ReadChunk(a: Assembly, f: seq<Byte>): Chunk {
    if |f| < 7 || f[0] != HEAD || f[2] != TYPE_TEXT then Ignored
    else
      var payloadLen := (|f| - 6) % 256;
      if payloadLen < 2 then Ignored
      else if a.body != [] then Chunk(a.flag, a.kind, f[4..4 + (payloadLen - 1)], f[3] == 1)
      else if payloadLen < 3 || (f[5] != 1 && f[5] != 2) then Ignored
      else Chunk(f[4], f[5], f[6..6 + (payloadLen - 3)], f[3] == 1)
  }

  function TextFrame(o: Outcome, f: seq<Byte>): Outcome {
    match ReadChunk(o.text, f)
    case Ignored => o
    case Chunk(flag, kind, bytes, last) =>
      var body := Truncate(o.text.body + bytes);
      if last then Outcome(Assembly(flag, kind, []), o.shown + [Message(flag, kind, body)], o.samples)
      else o.(text := Assembly(flag, kind, body))
  }

  /** A damaged last frame ends the message with what has arrived so far. */
  function Finish(o: Outcome): Outcome {
    if o.text.body == [] then o
    else Outcome(o.text.(body := []), o.shown + [Message(o.text.flag, o.text.kind, o.text.body)], o.samples)
  }

  function StatusFrame(o: Outcome, f: seq<Byte>): Outcome {
    if |f| < 93 || f[0] != HEAD || f[2] != TYPE_SOC_STATUS then o
    else o.(samples := o.samples + [Sample(FromLe16(f[50..52]), FromLe32(f[46..50]))])
  }

  function Dispatch(o: Outcome, e: Event): Outcome {
    match e
    case ForceFinish => Finish(o)
    case Accepted(f) => if |f| > 2 && f[2] == TYPE_TEXT then TextFrame(o, f) else StatusFrame(o, f)
  }

  function DispatchAll(o: Outcome, events: seq<Event>): Outcome {
    if events == [] then o else Dispatch(DispatchAll(o, events[..|events| - 1]), events[|events| - 1])
  }

  lemma DispatchNone(o: Outcome)
    ensures DispatchAll(o, []) == o
  {
  }

  lemma {:induction false} DispatchAllConcat(o: Outcome, a: seq<Event>, b: seq<Event>)
    ensures DispatchAll(o, a + b) == DispatchAll(DispatchAll(o, a), b)
    decreases |b|
  {
    hide Dispatch;
    if b == [] {
      assert a + b == a;
    } else {
      assert (a + b)[..|a + b| - 1] == a + b[..|b| - 1];
      DispatchAllConcat(o, a, b[..|b| - 1]);
    }
  }

  lemma DispatchAllSnoc(o: Outcome, a: seq<Event>, e: Event)
    ensures DispatchAll(o, a + [e]) == Dispatch(DispatchAll(o, a), e)
  {
    hide Dispatch;
    assert (a + [e])[..|a|] == a;
  }

  // ---------- Round trip ----------

  function Flatten(chunks: seq<seq<Byte>>): seq<Byte> {
    if chunks == [] then [] else Flatten(chunks[..|chunks| - 1]) + chunks[|chunks| - 1]
  }

  /** How a message is cut: only the first chunk is announced by flag and type; `mark` is 1 on the last only. */
  ghost predicate Splits(kind: Byte, chunks: seq<seq<Byte>>, more: Byte) {
    && (kind == 1 || kind == 2) && more != 1
    && |chunks| >= 1
    && |chunks[0]| <= 246
    && (forall i :: 1 <= i < |chunks| ==> |chunks[i]| <= 248)
    && (forall i :: 0 <= i < |chunks| && |chunks| > 1 ==> chunks[i] != [])
  }

  /** The i-th frame of the message. */
  function MessageFrame(flag: Byte, kind: Byte, chunks: seq<seq<Byte>>, more: Byte, i: nat): seq<Byte>
    requires i < |chunks| && |chunks[0]| <= 246 && (i > 0 ==> |chunks[i]| <= 248)
  {
    var mark := if i == |chunks| - 1 then 1 else more;
    Encode(TYPE_TEXT, [mark] + (if i == 0 then [flag, kind] else []) + chunks[i])
  }

  function MessageFrames(flag: Byte, kind: Byte, chunks: seq<seq<Byte>>, more: Byte, n: nat): seq<seq<Byte>>
    requires n <= |chunks| && |chunks| >= 1 && |chunks[0]| <= 246
    requires forall i :: 1 <= i < |chunks| ==> |chunks[i]| <= 248
  {
    if n == 0 then []
    else MessageFrames(flag, kind, chunks, more, n - 1) + [MessageFrame(flag, kind, chunks, more, n - 1)]
  }

  lemma FirstChunk(a: Assembly, flag: Byte, kind: Byte, mark: Byte, bytes: seq<Byte>)
    requires a.body == [] && (kind == 1 || kind == 2) && |bytes| <= 246
    ensures ReadChunk(a, Encode(TYPE_TEXT, [mark] + [flag, kind] + bytes)) == Chunk(flag, kind, bytes, mark == 1)
  {
    hide CrcRegister.Crc, LowOctet, HighOctet;
    var f := Encode(TYPE_TEXT, [mark] + [flag, kind] + bytes);
    assert f[3] == mark && f[4] == flag && f[5] == kind;
    assert f[6..6 + |bytes|] == bytes;
  }

  lemma NextChunk(a: Assembly, mark: Byte, bytes: seq<Byte>)
    requires a.body != [] && 1 <= |bytes| <= 248
    ensures ReadChunk(a, Encode(TYPE_TEXT, [mark] + [] + bytes)) == Chunk(a.flag, a.kind, bytes, mark == 1)
  {
    hide CrcRegister.Crc, LowOctet, HighOctet;
    var f := Encode(TYPE_TEXT, [mark] + [] + bytes);
    assert f[3] == mark && f[4..4 + |bytes|] == bytes;
  }

  lemma TruncateTwice(s: seq<Byte>, t: seq<Byte>)
    ensures Truncate(Truncate(s) + t) == Truncate(s + t)
  {
  }

  /**
    A frame says nothing exactly when it is too short, is no text frame, or would begin a message without a
    legal type.
   */
  lemma IgnoredIff(a: Assembly, f: seq<Byte>)
    requires |f| <= MAX_FRAME
    ensures ReadChunk(a, f).Ignored? <==>
            || |f| < 8 || f[0] != HEAD || f[2] != TYPE_TEXT
            || (a.body == [] && (|f| < 9 || (f[5] != 1 && f[5] != 2)))
  {
  }

  /** A status report carries its time at octet 46 and its speed at octet 50, low octet first, and so it is read. */
  lemma ReportRoundTrip(o: Outcome, before: seq<Byte>, timestamp: nat, speed: nat, after: seq<Byte>)
    requires |before| == 43 && 38 <= |after| <= 200 && timestamp < TWO_32 && speed < 0x1_0000
    ensures var f := Encode(TYPE_SOC_STATUS, before + ToLe32(timestamp) + ToLe16(speed) + after);
            Dispatch(o, Accepted(f)) == o.(samples := o.samples + [Sample(speed, timestamp)])
  {
    hide CrcRegister.Crc, LowOctet, HighOctet, ToLe32, ToLe16, FromLe32, FromLe16;
    var payload := before + ToLe32(timestamp) + ToLe16(speed) + after;
    var f := Encode(TYPE_SOC_STATUS, payload);
    assert f[3..3 + |payload|] == payload;
    assert payload[43..47] == ToLe32(timestamp) && payload[47..49] == ToLe16(speed);
    assert f[46..50] == f[3..3 + |payload|][43..47] && f[50..52] == f[3..3 + |payload|][47..49];
    Le32RoundTrip(timestamp);
    Le16RoundTrip(speed);
  }

  /** A first frame that meets a message under way is read as more of that: its flag and type become text. */
  lemma LateFirstChunk(a: Assembly, flag: Byte, kind: Byte, mark: Byte, bytes: seq<Byte>)
    requires a.body != [] && |bytes| <= 246
    ensures ReadChunk(a, Encode(TYPE_TEXT, [mark] + [flag, kind] + bytes)) ==
            Chunk(a.flag, a.kind, [flag, kind] + bytes, mark == 1)
  {
    hide CrcRegister.Crc, LowOctet, HighOctet;
    var f := Encode(TYPE_TEXT, [mark] + [flag, kind] + bytes);
    assert f[3] == mark && f[4..4 + (|bytes| + 2)] == [flag, kind] + bytes;
  }

  /** What precedes the text of a message that finds `a` under way. */
  function Lead(a: Assembly, flag: Byte, kind: Byte): seq<Byte> {
    if a.body == [] then [] else a.body + [flag, kind]
  }

  /** The assembly that finds `a` under way and has taken up `text` of a message with this flag and type. */
  function Taken(a: Assembly, flag: Byte, kind: Byte, text: seq<Byte>): Assembly {
    var body := Truncate(Lead(a, flag, kind) + text);
    if a.body == [] then Assembly(flag, kind, body) else Assembly(a.flag, a.kind, body)
  }

  /** A frame extends or ends the message by the chunk it was made from, whatever was under way before the first. */
  lemma ChunkEffect(o: Outcome, a: Assembly, flag: Byte, kind: Byte, chunks: seq<seq<Byte>>, more: Byte, i: nat)
    requires Splits(kind, chunks, more) && i < |chunks|
    requires i == 0 ==> o.text == a
    requires i > 0 ==> o.text == Taken(a, flag, kind, Flatten(chunks[..i])) && o.text.body != []
    ensures var c := ReadChunk(o.text, MessageFrame(flag, kind, chunks, more, i));
            && c.Chunk? && c.last == (i == |chunks| - 1)
            && Assembly(c.flag, c.kind, Truncate(o.text.body + c.bytes)) ==
               Taken(a, flag, kind, Flatten(chunks[..i + 1]))
  {
    hide Encode, ReadChunk, Truncate;
    assert chunks[..i + 1][..i] == chunks[..i];
    assert Flatten(chunks[..i + 1]) == Flatten(chunks[..i]) + chunks[i];
    var mark := if i == |chunks| - 1 then 1 else more;
    if i > 0 {
      NextChunk(o.text, mark, chunks[i]);
      var lead := Lead(a, flag, kind);
      assert lead + Flatten(chunks[..i + 1]) == lead + Flatten(chunks[..i]) + chunks[i];
      TruncateTwice(lead + Flatten(chunks[..i]), chunks[i]);
    } else {
      assert chunks[..0] == [] && [] + chunks[0] == chunks[0];
      if a.body == [] {
        FirstChunk(a, flag, kind, mark, chunks[0]);
      } else {
        LateFirstChunk(a, flag, kind, mark, chunks[0]);
        assert a.body + [flag, kind] + chunks[0] == a.body + ([flag, kind] + chunks[0]);
      }
    }
  }

  lemma {:induction false} FlattenNonEmpty(chunks: seq<seq<Byte>>)
    requires chunks != [] && forall i :: 0 <= i < |chunks| ==> chunks[i] != []
    ensures Flatten(chunks) != []
  {
  }
}
