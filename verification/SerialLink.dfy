/**
  The serial link as the firmware runs it: ring, parser statics, text buffer and the polling loop, all updated
  in place. The object invariant says that what has been shown and reported is what the pure run over every
  octet consumed since initialisation prescribes.
 */
module SerialLinks {
  import opened Bytes
  import opened CrcRegister
  import opened Frames
  import opened RxRing
  import opened Parser
  import opened ParserTheory
  import opened TextMessages
  import opened LinkTheory
  import opened TextPanels
  import Utf8
  import Panel

  const TEMP_SIZE := 512

  /** What of `s` the ring can take. */
  function Clip(s: seq<Byte>): seq<Byte> {
    if |s| <= CAPACITY then s else s[..CAPACITY]
  }

  lemma ClipSnoc(s: seq<Byte>, b: Byte)
    ensures Clip(s + [b]) == if |Clip(s)| < CAPACITY then Clip(s) + [b] else Clip(s)
  {
  }

  lemma RingIsClipped(rx: Ring)
    requires rx.Valid()
    ensures Clip(rx.Contents()) == rx.Contents()
  {
  }

  /** Push octet by octet; those that do not fit are dropped. */
  method Fill(rx: Ring, data: seq<Byte>)
    requires rx.Valid()
    modifies rx, rx.buf
    ensures rx.Valid() && rx.buf == old(rx.buf)
    ensures rx.Contents() == Clip(old(rx.Contents()) + data)
  {
    hide Clip, Ring.Valid, Ring.Contents;
    ghost var before := rx.Contents();
    RingIsClipped(rx);
    assert before + data[..0] == before;
    for i := 0 to |data|
      invariant rx.Valid() && rx.buf == old(rx.buf)
      invariant rx.Contents() == Clip(before + data[..i])
    {
      ClipSnoc(before + data[..i], data[i]);
      assert before + data[..i] + [data[i]] == before + data[..i + 1];
      var ok := rx.Push(data[i]);
    }
    assert data[..|data|] == data;
  }

  class SerialLink {
    const rx: Ring
    const temp: array<Byte>
    var index: nat
    var wantLen: nat
    const text: array<Byte>
    var assemLen: nat
    var textFlag: Byte
    var textKind: Byte
    const panel: TextPanel
    var samples: seq<Sample>
    ghost var shown: seq<Message>
    ghost var consumed: seq<Byte>

    ghost predicate Separate()
      reads this, rx, panel
    {
      && temp != text && temp != rx.buf && temp != panel.text
      && text != rx.buf && text != panel.text && rx.buf != panel.text
    }

    /** The panel holds the message that was shown last. */
    ghost predicate PanelCurrent()
      reads this, panel, panel.text
      requires panel.Valid()
    {
      shown != [] ==>
        && panel.valid
        && Message(panel.flag, panel.kind, panel.text[..panel.textLen]) == shown[|shown| - 1]
    }

    /** Shapes and bounds of the buffers; both index counters fit eight bits. */
    ghost predicate Shaped()
      reads this, rx, rx.buf, temp, text, panel, panel.text
    {
      && Separate()
      && rx.Valid() && panel.Valid() && PanelCurrent()
      && temp.Length == TEMP_SIZE && index <= 255
      && text.Length == MAX_TEXT + 1 && assemLen <= MAX_TEXT
      && Reachable(ParserState())
    }

    ghost function ParserState(): State
      reads this, temp
    {
      State(if index <= temp.Length then temp[..index] else [], wantLen)
    }

    ghost function Progress(): Outcome
      reads this, text
    {
      Outcome(Assembly(textFlag, textKind, if assemLen <= text.Length then text[..assemLen] else []), shown, samples)
    }

    ghost predicate Valid()
      reads this, rx, rx.buf, temp, text, panel, panel.text
    {
      && Shaped()
      && Run(IDLE, consumed).state == ParserState()
      && DispatchAll(START, Run(IDLE, consumed).events) == Progress()
    }

    constructor ()
      ensures Valid() && fresh(rx) && fresh(rx.buf) && fresh(temp) && fresh(text) && fresh(panel) && fresh(panel.text)
      ensures rx.Contents() == [] && consumed == [] && shown == [] && samples == []
    {
      rx := new Ring();
      panel := new TextPanel();
      temp := new Byte[TEMP_SIZE](_ => 0);
      text := new Byte[MAX_TEXT + 1](_ => 0);
      index, wantLen, assemLen := 0, 0, 0;
      textFlag, textKind := 0, 0;
      samples, shown, consumed := [], [], [];
    }

    /** The interrupt side: octets that do not fit are dropped. */
    method PushBytes(data: seq<Byte>)
      requires Valid()
      modifies rx, rx.buf
      ensures Valid() && rx.buf == old(rx.buf)
      ensures rx.Contents() == Clip(old(rx.Contents()) + data)
    {
      hide Run, DispatchAll, Clip;
      Fill(rx, data);
    }

    // ---------- Parsing ----------

    /** Look for another head inside the failed candidate; 0 means there is none. */
    method FindNextHead() returns (k: nat)
      requires temp.Length == TEMP_SIZE && 1 <= index <= 255
      ensures k == if NextHead(temp[..index], 1) < index then NextHead(temp[..index], 1) else 0
    {
      ghost var w := temp[..index];
      var i := 1;
      while i < index
        invariant 1 <= i <= index && NextHead(w, 1) == NextHead(w, i)
      {
        if temp[i] == HEAD {
          return i;
        }
        i := i + 1;
      }
      k := 0;
    }

    /** Move the octets from `k` on to the front. */
    method ShiftDown(k: nat)
      requires temp.Length == TEMP_SIZE && 1 <= k <= index <= 255
      modifies temp
      ensures temp[..index - k] == old(temp[k..index])
    {
      var remain := index - k;
      for i := 0 to remain
        invariant forall j :: 0 <= j < i ==> temp[j] == old(temp[k + j])
        invariant forall j :: i <= j < index ==> temp[j] == old(temp[j])
      {
        temp[i] := temp[k + i];
      }
    }

    method Resynchronise()
      requires temp.Length == TEMP_SIZE && 1 <= index <= 255
      modifies this`index, this`wantLen, temp
      ensures index < old(index) && ParserState() == Resync(old(temp[..index]))
    {
      var k := FindNextHead();
      if k == 0 {
        index, wantLen := 0, 0;
        return;
      }
      ShiftDown(k);
      index, wantLen := index - k, 0;
      if index >= 2 {
        wantLen := temp[1] as nat;
        if wantLen < MIN_FRAME || wantLen > TEMP_SIZE {
          index, wantLen := 0, 0;
        }
      }
    }

    /** A damaged last frame of a message: show what has arrived. */
    method ForceFinishText()
      requires Separate() && panel.Valid() && PanelCurrent() && text.Length == MAX_TEXT + 1 && assemLen <= MAX_TEXT
      modifies this`assemLen, this`shown, panel, panel.text
      ensures Separate() && panel.Valid() && PanelCurrent() && assemLen <= MAX_TEXT && panel.text == old(panel.text)
      ensures Progress() == Finish(old(Progress()))
    {
      if assemLen == 0 {
        return;
      }
      ShowText();
    }

    /** One turn of the parsing loop. */
    method ProcessByte(b: Byte) returns (found: bool, frame: seq<Byte>)
      requires Shaped()
      modifies this`index, this`wantLen, temp, this`assemLen, this`shown, panel, panel.text
      ensures Shaped() && panel.text == old(panel.text)
      ensures ParserState() == Step(old(ParserState()), b).state
      ensures found ==> Step(old(ParserState()), b).events == [Accepted(frame)] && Progress() == old(Progress())
      ensures !found ==> Progress() == DispatchAll(old(Progress()), Step(old(ParserState()), b).events)
    {
      hide Step, DispatchAll;
      ghost var s := ParserState();
      StepReachable(s, b);
      DispatchNone(Progress());
      found, frame := false, [];
      if index == 0 {
        if b == HEAD {
          temp[0] := b;
          index, wantLen := 1, 0;
        }
        StepFirst(s, b);
        return;
      }
      temp[index] := b;
      index := (index + 1) % 256;
      assert temp[..index] == s.window + [b];
      if index == 2 {
        ReadLength(s, b);
        return;
      }
      if index == 3 {
        if temp[2] != TYPE_SOC_STATUS && temp[2] != TYPE_TEXT {
          StepOn(s, b);
          index, wantLen := 0, 0;
          return;
        }
      }
      if index < wantLen {
        StepOn(s, b);
        return;
      }
      found, frame := JudgeCandidate(s, b);
    }

    /**
      The second octet is the length; an impossible one drops the candidate. The source would then restart on
      a head, but 0xAA is itself a possible length, so that branch is dead and has no counterpart here.
     */
    method ReadLength(ghost s: State, b: Byte)
      requires Reachable(s) && temp.Length == TEMP_SIZE && index == 2 && |s.window| == 1
      requires temp[..2] == s.window + [b]
      modifies this`index, this`wantLen
      ensures index <= 255 && ParserState() == Step(s, b).state && Step(s, b).events == []
    {
      hide Step;
      StepSecond(s, b);
      assert temp[1] == temp[..2][1] == b && temp[..2] == [s.window[0], b];
      wantLen := temp[1] as nat;
      if wantLen < MIN_FRAME || wantLen > TEMP_SIZE {
        index, wantLen := 0, 0;
      }
    }

    /** The window has reached the expected length: accept the frame, or cut the window to the next head. */
    method JudgeCandidate(ghost s: State, b: Byte) returns (found: bool, frame: seq<Byte>)
      requires Reachable(s) && Separate() && rx.Valid() && panel.Valid() && PanelCurrent()
      requires text.Length == MAX_TEXT + 1 && assemLen <= MAX_TEXT
      requires temp.Length == TEMP_SIZE && wantLen == s.want && MIN_FRAME <= wantLen <= index <= 255
      requires temp[..index] == s.window + [b]
      modifies this`index, this`wantLen, temp, this`assemLen, this`shown, panel, panel.text
      ensures Shaped() && panel.text == old(panel.text)
      ensures ParserState() == Step(s, b).state
      ensures found ==> Step(s, b).events == [Accepted(frame)] && Progress() == old(Progress())
      ensures !found ==> Progress() == DispatchAll(old(Progress()), Step(s, b).events)
    {
      hide Step, Reachable, CrcMatches, Resync, Finish;
      found, frame := false, [];
      var window := temp[..index];
      StepReachable(s, b);
      StepJudges(s, b);
      var crcOk := CheckCrc(window, wantLen);
      if temp[wantLen - 1] == TAIL && crcOk {
        found, frame := true, window[..wantLen];
        index, wantLen := 0, 0;
        return;
      }
      if wantLen >= 7 && temp[2] == TYPE_TEXT && temp[3] == 1 {
        ForceFinishText();
      }
      Resynchronise();
    }

    /** A frame has been accepted and everything before it has been handled, but not yet the frame itself. */
    ghost predicate FramePending(frame: seq<Byte>)
      reads this, rx, rx.buf, temp, text, panel, panel.text
    {
      && Shaped()
      && Run(IDLE, consumed).state == ParserState()
      && exists earlier :: && Run(IDLE, consumed).events == earlier + [Accepted(frame)]
                           && DispatchAll(START, earlier) == Progress()
    }

    /** Take one octet from the ring, if there is one, and process it. */
    method ParseOne() returns (ok: bool, found: bool, frame: seq<Byte>)
      requires Valid()
      modifies this`index, this`wantLen, temp, this`assemLen, this`shown, this`consumed, panel, panel.text, rx
      ensures rx.buf == old(rx.buf) && panel.text == old(panel.text) && Shaped()
      ensures consumed + rx.Contents() == old(consumed + rx.Contents())
      ensures !ok ==> !found && rx.Contents() == []
      ensures ok ==> |rx.Contents()| < |old(rx.Contents())|
      ensures if found then FramePending(frame) else Valid()
    {
      hide Run, Step, DispatchAll, Ring.Valid, Ring.Contents;
      ghost var before, s := consumed, ParserState();
      var b;
      ok, b := rx.Pop();
      if !ok {
        return false, false, [];
      }
      assert before + ([b] + rx.Contents()) == (before + [b]) + rx.Contents();
      found, frame := ProcessByte(b);
      consumed := consumed + [b];
      RunSnoc(before, b);
      ghost var earlier := Run(IDLE, before).events;
      if !found {
        DispatchAllConcat(START, earlier, Step(s, b).events);
      }
    }

    /** Parse until a frame is complete or the ring is empty. Damaged text ends are dealt with on the way. */
    method TryParseFrame() returns (found: bool, frame: seq<Byte>)
      requires Valid()
      modifies this`index, this`wantLen, temp, this`assemLen, this`shown, this`consumed, panel, panel.text, rx
      ensures rx.buf == old(rx.buf) && panel.text == old(panel.text) && Shaped()
      ensures consumed + rx.Contents() == old(consumed + rx.Contents())
      ensures found ==> FramePending(frame) && |rx.Contents()| < |old(rx.Contents())|
      ensures !found ==> Valid() && rx.Contents() == []
    {
      hide Run, DispatchAll, Reachable;
      while true
        modifies this`index, this`wantLen, temp, this`assemLen, this`shown, this`consumed, panel, panel.text, rx
        invariant Valid() && rx.buf == old(rx.buf) && panel.text == old(panel.text)
        invariant consumed + rx.Contents() == old(consumed + rx.Contents())
        invariant |rx.Contents()| <= |old(rx.Contents())|
        decreases |rx.Contents()|
      {
        var ok;
        ok, found, frame := ParseOne();
        if found || !ok {
          return;
        }
      }
    }

    // ---------- Dispatch ----------

    /** Append as much of `bytes` as still fits, and terminate. */
    method AppendText(bytes: seq<Byte>)
      requires text.Length == MAX_TEXT + 1 && assemLen <= MAX_TEXT
      modifies text, this`assemLen
      ensures assemLen <= MAX_TEXT && text[..assemLen] == Truncate(old(text[..assemLen]) + bytes)
    {
      ghost var body := text[..assemLen];
      if assemLen < MAX_TEXT {
        var copyLen := if |bytes| > MAX_TEXT - assemLen then MAX_TEXT - assemLen else |bytes|;
        if copyLen > 0 {
          for i := 0 to copyLen
            modifies text
            invariant text[..assemLen + i] == body + bytes[..i]
          {
            text[assemLen + i] := bytes[i];
            assert text[..assemLen + i + 1] == text[..assemLen + i] + [bytes[i]];
          }
          assemLen := assemLen + copyLen;
          text[assemLen] := 0;
        }
      }
    }

    method ParseTextFrame(frame: seq<Byte>)
      requires Shaped()
      modifies text, this`assemLen, this`textFlag, this`textKind, this`shown, panel, panel.text
      ensures Shaped() && panel.text == old(panel.text)
      ensures Progress() == TextFrame(old(Progress()), frame)
    {
      hide Reachable, Truncate;
      if |frame| < 7 || frame[0] != HEAD || frame[2] != TYPE_TEXT {
        return;
      }
      var payloadLen := (|frame| - 6) % 256;
      if payloadLen < 2 {
        return;
      }
      var last := frame[3] == 1;
      var bytes;
      if assemLen == 0 {
        if payloadLen < 3 {
          return;
        }
        if frame[5] != 1 && frame[5] != 2 {
          return;
        }
        textFlag, textKind := frame[4], frame[5];
        bytes := frame[6..6 + (payloadLen - 3)];
      } else {
        bytes := frame[4..4 + (payloadLen - 1)];
      }
      assert ReadChunk(old(Progress()).text, frame) == Chunk(textFlag, textKind, bytes, last);
      ConsumeChunk(bytes, last);
    }

    /** Extend the message under way, and show it when this was its last chunk. */
    method ConsumeChunk(bytes: seq<Byte>, last: bool)
      requires Shaped()
      modifies text, this`assemLen, this`shown, panel, panel.text
      ensures Shaped() && panel.text == old(panel.text)
      ensures var body := Truncate(old(Progress()).text.body + bytes);
              Progress() ==
              if last then Outcome(Assembly(textFlag, textKind, []),
                                   old(shown) + [Message(textFlag, textKind, body)], samples)
              else Outcome(Assembly(textFlag, textKind, body), old(shown), samples)
    {
      hide Reachable, Truncate;
      AppendText(bytes);
      if last {
        ShowText();
      }
    }

    method ShowText()
      requires Separate() && panel.Valid() && text.Length == MAX_TEXT + 1 && assemLen <= MAX_TEXT
      modifies this`assemLen, this`shown, panel, panel.text
      ensures Separate() && panel.Valid() && assemLen == 0 && panel.text == old(panel.text)
      ensures shown == old(shown) + [Message(textFlag, textKind, old(text[..assemLen]))]
      ensures PanelCurrent()
    {
      var message := text[..assemLen];
      panel.Update(textFlag, textKind, message);
      shown := shown + [Message(textFlag, textKind, message)];
      assemLen := 0;
    }

    /** Only the speed and the time of a status report are used here, by the odometer. */
    method ParseStatusFrame(frame: seq<Byte>)
      modifies this`samples
      ensures Progress() == StatusFrame(old(Progress()), frame)
    {
      if |frame| < 93 {
        return;
      }
      if frame[0] != HEAD || frame[2] != TYPE_SOC_STATUS {
        return;
      }
      samples := samples + [Sample(FromLe16(frame[50..52]), FromLe32(frame[46..50]))];
    }

    method DispatchFrame(frame: seq<Byte>)
      requires Shaped() && |frame| > 2
      modifies text, this`assemLen, this`textFlag, this`textKind, this`shown, this`samples, panel, panel.text
      ensures Shaped() && panel.text == old(panel.text)
      ensures Progress() == Dispatch(old(Progress()), Accepted(frame))
    {
      hide TextFrame, StatusFrame;
      if frame[2] == TYPE_TEXT {
        ParseTextFrame(frame);
      } else {
        ParseStatusFrame(frame);
      }
    }

    /** Handle the frame that was just accepted. */
    method HandlePending(frame: seq<Byte>)
      requires FramePending(frame)
      modifies text, this`assemLen, this`textFlag, this`textKind, this`shown, this`samples, panel, panel.text
      ensures Valid() && panel.text == old(panel.text)
    {
      hide Run, DispatchAll, Dispatch;
      ghost var earlier :| && Run(IDLE, consumed).events == earlier + [Accepted(frame)]
                           && DispatchAll(START, earlier) == Progress();
      AcceptedIsWellFormed(consumed, earlier, frame);
      DispatchAllSnoc(START, earlier, Accepted(frame));
      DispatchFrame(frame);
    }

    /** The protocol thread: parse and dispatch until the ring is empty. */
    method Poll()
      requires Valid()
      modifies this`index, this`wantLen, temp, this`assemLen, this`shown, this`consumed, panel, panel.text, rx
      modifies text, this`textFlag, this`textKind, this`samples
      ensures Valid() && rx.buf == old(rx.buf) && panel.text == old(panel.text)
      ensures rx.Contents() == [] && consumed == old(consumed + rx.Contents())
    {
      hide Run, DispatchAll, Reachable;
      while true
        invariant Valid() && rx.buf == old(rx.buf) && panel.text == old(panel.text)
        invariant consumed + rx.Contents() == old(consumed + rx.Contents())
        decreases |rx.Contents()|
      {
        var found, frame := TryParseFrame();
        if !found {
          assert consumed + [] == consumed;
          return;
        }
        HandlePending(frame);
      }
    }
  }

  // ---------- Interrupts and polls in any order ----------

  /** An interrupt delivers octets, or the protocol thread gets to run. */
  datatype Moment = Arrive(octets: seq<Byte>) | RunPoll

  /** Everything that is in the ring now or gets into it, in order. */
  function Kept(moments: seq<Moment>, ring: seq<Byte>): seq<Byte>
    decreases |moments|
  {
    if moments == [] then ring
    else match moments[0]
      case Arrive(octets) => Kept(moments[1..], Clip(ring + octets))
      case RunPoll => ring + Kept(moments[1..], [])
  }

  function Sent(moments: seq<Moment>): seq<Byte> {
    if moments == [] then []
    else (if moments[0].Arrive? then moments[0].octets else []) + Sent(moments[1..])
  }

  /** No interrupt finds the ring too full: at most 4096 octets arrive between two polls. */
  predicate Fits(moments: seq<Moment>, waiting: nat)
    decreases |moments|
  {
    moments == [] ||
    match moments[0]
    case Arrive(octets) => waiting + |octets| <= 4096 && Fits(moments[1..], waiting + |octets|)
    case RunPoll => Fits(moments[1..], 0)
  }

  lemma {:induction false} KeptIsShorter(moments: seq<Moment>, ring: seq<Byte>)
    ensures |Kept(moments, ring)| <= |ring| + |Sent(moments)|
    decreases |moments|
  {
    if moments != [] {
      KeptIsShorter(moments[1..], if moments[0].RunPoll? then [] else Clip(ring + moments[0].octets));
    }
  }

  /** Nothing is lost exactly when the ring is never too full, whatever the order of interrupts and polls. */
  lemma {:induction false} NothingLostIff(moments: seq<Moment>, ring: seq<Byte>)
    requires |ring| <= CAPACITY
    ensures Kept(moments, ring) == ring + Sent(moments) <==> Fits(moments, |ring|)
    decreases |moments|
  {
    if moments != [] {
      var rest := moments[1..];
      match moments[0]
      case RunPoll =>
        NothingLostIff(rest, []);
        assert [] + Sent(rest) == Sent(rest);
        assert Kept(moments, ring)[|ring|..] == Kept(rest, []) && (ring + Sent(moments))[|ring|..] == Sent(rest);
      case Arrive(octets) =>
        if |ring + octets| <= CAPACITY {
          NothingLostIff(rest, ring + octets);
          assert ring + Sent(moments) == ring + octets + Sent(rest);
        } else {
          KeptIsShorter(rest, Clip(ring + octets));
        }
    }
  }

  method Live(link: SerialLink, moment: Moment)
    requires link.Valid()
    modifies link, link.rx, link.rx.buf, link.temp, link.text, link.panel, link.panel.text
    ensures link.Valid() && link.rx.Valid()
    ensures link.rx.buf == old(link.rx.buf) && link.panel.text == old(link.panel.text)
    ensures moment.Arrive? ==>
              link.consumed == old(link.consumed) && link.rx.Contents() == Clip(old(link.rx.Contents()) + moment.octets)
    ensures moment.RunPoll? ==>
              link.consumed == old(link.consumed + link.rx.Contents()) && link.rx.Contents() == []
  {
    hide Run, DispatchAll, Reachable;
    match moment
    case Arrive(octets) => link.PushBytes(octets);
    case RunPoll => link.Poll();
  }

  /**
    Interrupts and polls in any order: what the link has consumed or still holds is exactly what got into the
    ring, in order, so what the panel holds and what the odometer is told is what those octets say.
   */
  method Serve(link: SerialLink, moments: seq<Moment>)
    requires link.Valid()
    modifies link, link.rx, link.rx.buf, link.temp, link.text, link.panel, link.panel.text
    ensures link.Valid() && link.rx.Valid()
    ensures link.rx.buf == old(link.rx.buf) && link.panel.text == old(link.panel.text)
    ensures link.consumed + link.rx.Contents() == old(link.consumed) + Kept(moments, old(link.rx.Contents()))
    decreases |moments|
  {
    hide SerialLink.Valid;
    RingIsValid(link);
    if moments != [] {
      Live(link, moments[0]);
      Serve(link, moments[1..]);
    }
  }

  lemma RingIsValid(link: SerialLink)
    requires link.Valid()
    ensures link.rx.Valid()
  {
    hide Run, DispatchAll, Reachable;
  }

  /**
    A link that has consumed a message, in frames mixed with status frames and noise, after anything that left its
    parser at rest, holds on its panel what the message made of the text under way: itself, if there was none.
   */
  lemma PanelHoldsTheMessage(link: SerialLink, past: seq<Byte>, junk: seq<seq<Byte>>, frames: seq<seq<Byte>>,
                             flag: Byte, kind: Byte, chunks: seq<seq<Byte>>, more: Byte)
    requires link.Valid() && Splits(kind, chunks, more) && CleanStream(junk, frames)
    requires TextOnly(frames) == MessageFrames(flag, kind, chunks, more, |chunks|)
    requires Run(IDLE, past).state == IDLE && link.consumed == past + Weave(junk, frames)
    ensures link.panel.Valid() && link.panel.valid
    ensures Assembly(link.panel.flag, link.panel.kind, link.panel.text[..link.panel.textLen]) ==
            Taken(Past(past).text, flag, kind, Flatten(chunks))
  {
    hide Run, DispatchAll, Reachable, MessageFrames, Taken;
    MessageCrossesTheLink(past, junk, frames, flag, kind, chunks, more);
    assert link.Progress().shown == link.shown;
  }

  /**
    From code points to code points: a text of at most 4096 octets in UTF-8, sent when no other is under way, is on
    the panel as its code points, so that is what its pages are drawn from.
   */
  lemma PanelHoldsTheText(link: SerialLink, past: seq<Byte>, junk: seq<seq<Byte>>, frames: seq<seq<Byte>>,
                          flag: Byte, kind: Byte, chunks: seq<seq<Byte>>, more: Byte, cs: seq<Utf8.Code>)
    requires link.Valid() && Splits(kind, chunks, more) && CleanStream(junk, frames)
    requires TextOnly(frames) == MessageFrames(flag, kind, chunks, more, |chunks|)
    requires Run(IDLE, past).state == IDLE && link.consumed == past + Weave(junk, frames)
    requires Past(past).text.body == [] && 0 !in cs && Flatten(chunks) == Utf8.EncodeAll(cs) && |Flatten(chunks)| <= MAX_TEXT
    ensures link.panel.Valid() && link.panel.valid && link.panel.TextCodes() == cs
    ensures Panel.NoBreaks(cs) ==> Panel.DrawnBefore(link.panel.TextCodes(), Panel.PageCount(|cs|)) == cs
  {
    hide Run, DispatchAll, Reachable, MessageFrames, SerialLink.Valid, Utf8.Codes, Panel.DrawnBefore, Utf8.EncodeAll, Flatten, Past;
    PanelHoldsTheMessage(link, past, junk, frames, flag, kind, chunks, more);
    var text := link.panel.text[..link.panel.textLen + 1];
    assert [] + Flatten(chunks) == Flatten(chunks);
    assert text[0..] == link.panel.text[..link.panel.textLen] + [0];
    Utf8.RoundTrip(cs, text, 0);
    Panel.PagesPartitionText(cs);
  }

  lemma AcceptedIsWellFormed(input: seq<Byte>, earlier: seq<Event>, frame: seq<Byte>)
    requires Run(IDLE, input).events == earlier + [Accepted(frame)]
    ensures WellFormed(frame)
  {
    hide Run, WellFormed;
    var gaps := RunPieces(IDLE, input);
    AcceptedFramesConcat(earlier, [Accepted(frame)]);
    assert AcceptedFrames([Accepted(frame)]) == [frame] by { assert [Accepted(frame)][1..] == []; }
    var frames := AcceptedFrames(Run(IDLE, input).events);
    assert frames[|frames| - 1] == frame;
  }
}
