/**
  The frame parser as a step function over the octets that leave the receive ring, and what holds of every
  run of it.
 */
module Parser {
  import opened Bytes
  import opened CrcRegister
  import opened Frames

  /** `window` is temp[0..index) and `want` is expect_len, the static variables kept between calls. */
  datatype State = State(window: seq<Byte>, want: nat)

  datatype Event = Accepted(frame: seq<Byte>) | ForceFinish

  datatype Trace = Trace(state: State, events: seq<Event>)

  const IDLE := State([], 0)

  /** What every reachable state satisfies. The window may well be longer than the frame it expects. */
  ghost predicate Reachable(s: State) {
    && |s.window| <= MAX_FRAME - 1
    && (|s.window| >= 1 ==> s.window[0] == HEAD)
    && (|s.window| <= 1 ==> s.want == 0)
    && (|s.window| >= 2 ==> s.want == s.window[1] as nat && s.want >= MIN_FRAME)
  }

  /** Index of the first frame head at or after `from`, or the length when there is none. */
  function NextHead(w: seq<Byte>, from: nat): (k: nat)
    requires from <= |w|
    ensures from <= k <= |w|
    ensures k < |w| ==> w[k] == HEAD
    ensures forall i :: from <= i < k ==> w[i] != HEAD
    decreases |w| - from
  {
    if from == |w| || w[from] == HEAD then from else NextHead(w, from + 1)
  }

  /** A failed candidate is cut down to the next head inside it. */
  function Resync(w: seq<Byte>): State
    requires 1 <= |w|
  {
    var rest := w[NextHead(w, 1)..];
    if |rest| == 0 then IDLE
    else if |rest| == 1 then State(rest, 0)
    else if rest[1] as nat < MIN_FRAME then IDLE
    else State(rest, rest[1] as nat)
  }

  function Step(s: State, b: Byte): Trace
    requires Reachable(s)
  {
    var w := s.window + [b];
    if s.window == [] then
      Trace(if b == HEAD then State([b], 0) else IDLE, [])
    else if |w| == 2 then
      Trace(if b as nat >= MIN_FRAME then State(w, b as nat) else IDLE, [])
    else if |w| == 3 && w[2] != TYPE_SOC_STATUS && w[2] != TYPE_TEXT then
      Trace(IDLE, [])
    else if |w| < s.want then
      Trace(State(w, s.want), [])
    else if w[s.want - 1] == TAIL && CrcMatches(w, s.want) then
      Trace(IDLE, [Accepted(w[..s.want])])
    else
      Trace(Resync(w), if s.want >= 7 && w[2] == TYPE_TEXT && w[3] == 1 then [ForceFinish] else [])
  }

  // The branches of a step, one by one.

  lemma StepFirst(s: State, b: Byte)
    requires Reachable(s) && s.window == []
    ensures Step(s, b) == Trace(if b == HEAD then State([b], 0) else IDLE, [])
  {
  }

  lemma StepSecond(s: State, b: Byte)
    requires Reachable(s) && |s.window| == 1
    ensures Step(s, b) ==
            Trace(if b as nat >= MIN_FRAME then State([s.window[0], b], b as nat) else IDLE, [])
  {
    assert s.window + [b] == [s.window[0], b];
  }

  lemma StepOn(s: State, b: Byte)
    requires Reachable(s) && |s.window| >= 2 && |s.window| + 1 < s.want
    ensures Step(s, b) ==
            Trace(if |s.window| == 2 && b != TYPE_SOC_STATUS && b != TYPE_TEXT then IDLE
                  else State(s.window + [b], s.want), [])
  {
    hide CrcMatches;
  }

  lemma StepJudges(s: State, b: Byte)
    requires Reachable(s) && |s.window| >= 2 && |s.window| + 1 >= s.want
    ensures var w := s.window + [b];
            Step(s, b) ==
            if w[s.want - 1] == TAIL && CrcMatches(w, s.want) then Trace(IDLE, [Accepted(w[..s.want])])
            else Trace(Resync(w), if s.want >= 7 && w[2] == TYPE_TEXT && w[3] == 1 then [ForceFinish] else [])
  {
    hide CrcMatches, Resync;
  }

  lemma ResyncReachable(w: seq<Byte>)
    requires 1 <= |w| <= MAX_FRAME
    ensures Reachable(Resync(w))
  {
  }

  /** One octet keeps the state reachable: the eight-bit index never wraps. */
  lemma StepReachable(s: State, b: Byte)
    requires Reachable(s)
    ensures Reachable(Step(s, b).state)
  {
    hide Step, CrcMatches, Resync;
    if |s.window| == 0 {
      StepFirst(s, b);
    } else if |s.window| == 1 {
      StepSecond(s, b);
    } else if |s.window| + 1 < s.want {
      StepOn(s, b);
    } else {
      StepJudges(s, b);
      ResyncReachable(s.window + [b]);
    }
  }

  function Run(s: State, input: seq<Byte>): Trace
    requires Reachable(s)
    decreases |input|
  {
    if input == [] then Trace(s, [])
    else
      StepReachable(s, input[0]);
      var first := Step(s, input[0]);
      var rest := Run(first.state, input[1..]);
      Trace(rest.state, first.events + rest.events)
  }

  lemma {:induction false} RunReachable(s: State, input: seq<Byte>)
    requires Reachable(s)
    ensures Reachable(Run(s, input).state)
    decreases |input|
  {
    if input != [] {
      StepReachable(s, input[0]);
      RunReachable(Step(s, input[0]).state, input[1..]);
    }
  }

  lemma RunNothing(s: State)
    requires Reachable(s)
    ensures Run(s, []) == Trace(s, [])
  {
  }

  lemma RunUnfold(s: State, input: seq<Byte>)
    requires Reachable(s) && input != []
    ensures Reachable(Step(s, input[0]).state)
    ensures var first := Step(s, input[0]);
            var rest := Run(first.state, input[1..]);
            Run(s, input) == Trace(rest.state, first.events + rest.events)
  {
    hide Step, Reachable;
    StepReachable(s, input[0]);
  }

  /** How the octets are batched into calls makes no difference. */
  lemma {:induction false} RunConcat(s: State, a: seq<Byte>, b: seq<Byte>)
    requires Reachable(s)
    ensures Reachable(Run(s, a).state)
    ensures Run(s, a + b) ==
            Trace(Run(Run(s, a).state, b).state, Run(s, a).events + Run(Run(s, a).state, b).events)
    decreases |a|
  {
    hide Step, Reachable, Run;
    RunReachable(s, a);
    if a == [] {
      RunNothing(s);
      assert a + b == b;
      assert [] + Run(s, b).events == Run(s, b).events;
    } else {
      RunUnfold(s, a);
      RunUnfold(s, a + b);
      assert (a + b)[1..] == a[1..] + b;
      RunConcat(Step(s, a[0]).state, a[1..], b);
    }
  }

  lemma RunOne(s: State, b: Byte)
    requires Reachable(s)
    ensures Run(s, [b]) == Step(s, b)
  {
    StepReachable(s, b);
    assert Run(Step(s, b).state, []).events == [];
  }

  lemma RunSnoc(input: seq<Byte>, b: Byte)
    ensures Reachable(Run(IDLE, input).state)
    ensures Run(IDLE, input + [b]).state == Step(Run(IDLE, input).state, b).state
    ensures Run(IDLE, input + [b]).events == Run(IDLE, input).events + Step(Run(IDLE, input).state, b).events
  {
    hide Run, Step;
    RunConcat(IDLE, input, [b]);
    RunOne(Run(IDLE, input).state, b);
  }

  // ---------- Accepted frames are pieces of the stream ----------

  function AcceptedFrames(events: seq<Event>): seq<seq<Byte>> {
    if events == [] then []
    else (match events[0] case Accepted(f) => [f] case ForceFinish => []) + AcceptedFrames(events[1..])
  }

  lemma {:induction false} AcceptedFramesConcat(a: seq<Event>, b: seq<Event>)
    ensures AcceptedFrames(a + b) == AcceptedFrames(a) + AcceptedFrames(b)
  {
    if a == [] {
      assert a + b == b;
    } else {
      assert (a + b)[1..] == a[1..] + b;
      AcceptedFramesConcat(a[1..], b);
    }
  }

  /** gaps[0] frames[0] gaps[1] frames[1] ... gaps[n] */
  function Weave(gaps: seq<seq<Byte>>, frames: seq<seq<Byte>>): seq<Byte>
    requires |gaps| == |frames| + 1
  {
    if frames == [] then gaps[0] else gaps[0] + frames[0] + Weave(gaps[1..], frames[1..])
  }

  lemma WeaveLead(lead: seq<Byte>, gaps: seq<seq<Byte>>, frames: seq<seq<Byte>>)
    requires |gaps| == |frames| + 1
    ensures Weave([lead + gaps[0]] + gaps[1..], frames) == lead + Weave(gaps, frames)
  {
    var led := [lead + gaps[0]] + gaps[1..];
    if frames != [] {
      assert led[1..] == gaps[1..];
    }
  }

  lemma WeaveCons(frame: seq<Byte>, gaps: seq<seq<Byte>>, frames: seq<seq<Byte>>)
    requires |gaps| == |frames| + 1
    ensures Weave([[]] + gaps, [frame] + frames) == frame + Weave(gaps, frames)
  {
    var g, f := [[]] + gaps, [frame] + frames;
    assert g[1..] == gaps && f[1..] == frames && g[0] + f[0] == frame;
    assert Weave(g, f) == g[0] + f[0] + Weave(g[1..], f[1..]);
  }

  ghost predicate IsSuffix(s: seq<Byte>, t: seq<Byte>) {
    |s| <= |t| && t[|t| - |s|..] == s
  }

  ghost predicate AcceptsNow(s: State, b: Byte)
    requires Reachable(s)
  {
    var w := s.window + [b];
    && |w| >= 3 && |w| >= s.want
    && w[s.want - 1] == TAIL && CrcMatches(w, s.want)
  }

  lemma StepAccepts(s: State, b: Byte)
    requires Reachable(s) && AcceptsNow(s, b)
    ensures var w := s.window + [b];
            && MIN_FRAME <= s.want <= |w|
            && Step(s, b) == Trace(IDLE, [Accepted(w[..s.want])])
            && WellFormed(w[..s.want])
  {
    hide Step, CrcMatches, WellFormed, Resync;
    StepJudges(s, b);
    var w := s.window + [b];
    assert w[0] == s.window[0] && w[1] == s.window[1];
    PrefixWellFormed(w, s.want);
  }

  lemma PrefixWellFormed(w: seq<Byte>, n: nat)
    requires MIN_FRAME <= n <= |w| && n <= MAX_FRAME
    requires w[0] == HEAD && w[1] as nat == n && w[n - 1] == TAIL && CrcMatches(w, n)
    ensures WellFormed(w[..n])
  {
    hide Crc, FromOctets;
    assert w[..n][3..n - 3] == w[3..n - 3];
  }

  lemma StepKeepsBack(s: State, b: Byte)
    requires Reachable(s) && !AcceptsNow(s, b)
    ensures AcceptedFrames(Step(s, b).events) == []
    ensures IsSuffix(Step(s, b).state.window, s.window + [b])
  {
    var w, t := s.window + [b], Step(s, b);
    assert t.events == [] || t.events == [ForceFinish];
    assert w[|s.window|..] == [b] && w[0..] == w && w[|w|..] == [];
  }

  /** The first head after position 0. */
  ghost predicate FirstLaterHead(w: seq<Byte>, k: nat) {
    1 <= k < |w| && w[k] == HEAD && forall i :: 1 <= i < k ==> w[i] != HEAD
  }

  /**
    What becomes of a candidate that is complete and fails. It is searched for another head: from there on it is
    the next candidate, unless the octet after that head cannot be a length; without another head nothing is left.
    A last text frame that fails ends the message under way.
   */
  lemma FailedCandidate(s: State, b: Byte)
    requires Reachable(s) && |s.window| >= 2 && |s.window| + 1 >= s.want && !AcceptsNow(s, b)
    ensures var w, t := s.window + [b], Step(s, b);
            && (HEAD !in w[1..] ==> t.state == IDLE)
            && (forall k: nat :: FirstLaterHead(w, k) ==>
                  t.state == (if k + 1 == |w| then State([HEAD], 0)
                              else if w[k + 1] as nat >= MIN_FRAME then State(w[k..], w[k + 1] as nat)
                              else IDLE))
            && t.events == (if s.want >= 7 && w[2] == TYPE_TEXT && w[3] == 1 then [ForceFinish] else [])
  {
    hide CrcMatches, Step;
    var w := s.window + [b];
    StepJudges(s, b);
    var n := NextHead(w, 1);
    assert n < |w| ==> w[1..][n - 1] == HEAD;
    forall k: nat | FirstLaterHead(w, k)
      ensures n == k
    {
    }
    if n < |w| {
      assert FirstLaterHead(w, n);
    }
    assert n + 1 == |w| ==> w[n..] == [HEAD];
  }

  /** `gaps` shows that `frames` are disjoint contiguous pieces of `stream`, in order, with `last` at its end. */
  ghost predicate PiecesOf(gaps: seq<seq<Byte>>, frames: seq<seq<Byte>>, stream: seq<Byte>, last: seq<Byte>) {
    && |gaps| == |frames| + 1
    && Weave(gaps, frames) == stream
    && IsSuffix(last, gaps[|gaps| - 1])
    && forall f <- frames :: WellFormed(f)
  }

  lemma SuffixOfLonger(s: seq<Byte>, t: seq<Byte>, lead: seq<Byte>)
    requires IsSuffix(s, t)
    ensures IsSuffix(s, lead + t)
  {
    assert (lead + t)[|lead + t| - |s|..] == t[|t| - |s|..];
  }

  lemma PiecesLead(lead: seq<Byte>, gaps: seq<seq<Byte>>, frames: seq<seq<Byte>>,
                   stream: seq<Byte>, last: seq<Byte>) returns (led: seq<seq<Byte>>)
    requires PiecesOf(gaps, frames, stream, last)
    ensures PiecesOf(led, frames, lead + stream, last)
  {
    led := [lead + gaps[0]] + gaps[1..];
    WeaveLead(lead, gaps, frames);
    SuffixOfLonger(last, gaps[|gaps| - 1], lead);
  }

  lemma PiecesCons(frame: seq<Byte>, gaps: seq<seq<Byte>>, frames: seq<seq<Byte>>,
                   stream: seq<Byte>, last: seq<Byte>)
    requires PiecesOf(gaps, frames, stream, last) && WellFormed(frame)
    ensures PiecesOf([[]] + gaps, [frame] + frames, frame + stream, last)
  {
    WeaveCons(frame, gaps, frames);
  }

  lemma RunCons(s: State, input: seq<Byte>)
    requires Reachable(s) && input != []
    ensures Reachable(Step(s, input[0]).state)
    ensures Run(s, input).state == Run(Step(s, input[0]).state, input[1..]).state
    ensures AcceptedFrames(Run(s, input).events) ==
            AcceptedFrames(Step(s, input[0]).events) + AcceptedFrames(Run(Step(s, input[0]).state, input[1..]).events)
  {
    hide Step, Run, Reachable;
    RunUnfold(s, input);
    AcceptedFramesConcat(Step(s, input[0]).events, Run(Step(s, input[0]).state, input[1..]).events);
  }

  lemma PiecesStep(s: State, b: Byte, rest: seq<Byte>, gaps: seq<seq<Byte>>, frames: seq<seq<Byte>>,
                   last: seq<Byte>) returns (more: seq<seq<Byte>>)
    requires Reachable(s)
    requires PiecesOf(gaps, frames, Step(s, b).state.window + rest, last)
    ensures PiecesOf(more, AcceptedFrames(Step(s, b).events) + frames, s.window + [b] + rest, last)
  {
    hide Step, WellFormed, CrcMatches;
    var w, n := s.window + [b], s.want;
    if AcceptsNow(s, b) {
      StepAccepts(s, b);
      more := PiecesAccepted(w[..n], w[n..], rest, gaps, frames, last);
      assert w == w[..n] + w[n..];
      assert AcceptedFrames([Accepted(w[..n])]) == [w[..n]];
    } else {
      StepKeepsBack(s, b);
      var back := Step(s, b).state.window;
      var k := |w| - |back|;
      more := PiecesLead(w[..k], gaps, frames, back + rest, last);
      assert w[..k] + (back + rest) == w + rest;
      assert AcceptedFrames(Step(s, b).events) + frames == frames;
    }
  }

  lemma PiecesAccepted(frame: seq<Byte>, extra: seq<Byte>, rest: seq<Byte>, gaps: seq<seq<Byte>>,
                       frames: seq<seq<Byte>>, last: seq<Byte>) returns (more: seq<seq<Byte>>)
    requires WellFormed(frame) && PiecesOf(gaps, frames, [] + rest, last)
    ensures PiecesOf(more, [frame] + frames, frame + extra + rest, last)
  {
    assert [] + rest == rest;
    var led := PiecesLead(extra, gaps, frames, rest, last);
    PiecesCons(frame, led, frames, extra + rest, last);
    more := [[]] + led;
    assert frame + (extra + rest) == frame + extra + rest;
  }

  lemma NoPieces(s: State, input: seq<Byte>) returns (gaps: seq<seq<Byte>>)
    requires Reachable(s) && input == []
    ensures PiecesOf(gaps, AcceptedFrames(Run(s, input).events), s.window + input, Run(s, input).state.window)
  {
    gaps := [s.window];
    assert s.window + input == s.window;
  }

  /**
    In every run the window is exactly the last octets consumed, and the accepted frames are disjoint,
    contiguous, well-formed pieces of the stream, in order.
   */
  lemma {:induction false} RunPieces(s: State, input: seq<Byte>) returns (gaps: seq<seq<Byte>>)
    requires Reachable(s)
    ensures PiecesOf(gaps, AcceptedFrames(Run(s, input).events), s.window + input, Run(s, input).state.window)
    decreases |input|
  {
    hide Step, Run, PiecesOf;
    if input == [] {
      gaps := NoPieces(s, input);
    } else {
      var b, rest := input[0], input[1..];
      RunCons(s, input);
      var t := Run(Step(s, b).state, rest);
      gaps := RunPieces(Step(s, b).state, rest);
      gaps := PiecesStep(s, b, rest, gaps, AcceptedFrames(t.events), t.state.window);
      assert s.window + input == s.window + [b] + rest;
    }
  }
}
