/**
  Resynchronisation and delivery: the parser always comes to rest on line noise, and from rest it delivers
  a clean stream exactly.
 */
module ParserTheory {
  import opened Bytes
  import opened CrcRegister
  import opened Frames
  import opened Parser

  predicate Quiet(junk: seq<Byte>) {
    HEAD !in junk
  }

  lemma {:induction false} WeaveEndsWithLastGap(gaps: seq<seq<Byte>>, frames: seq<seq<Byte>>)
    requires |gaps| == |frames| + 1
    ensures IsSuffix(gaps[|gaps| - 1], Weave(gaps, frames))
  {
    if frames != [] {
      WeaveEndsWithLastGap(gaps[1..], frames[1..]);
      SuffixOfLonger(gaps[|gaps| - 1], Weave(gaps[1..], frames[1..]), gaps[0] + frames[0]);
    }
  }

  /** The window is always the most recent octets: those held before, then those consumed. */
  lemma WindowIsRecent(s: State, input: seq<Byte>)
    requires Reachable(s)
    ensures IsSuffix(Run(s, input).state.window, s.window + input)
  {
    hide Step, WellFormed, CrcMatches, Run;
    var gaps := RunPieces(s, input);
    var t := Run(s, input);
    var frames := AcceptedFrames(t.events);
    WeaveEndsWithLastGap(gaps, frames);
    var last, stream := gaps[|gaps| - 1], s.window + input;
    assert stream == stream[..|stream| - |last|] + last;
    SuffixOfLonger(t.state.window, last, stream[..|stream| - |last|]);
  }

  lemma QuietSuffix(w: seq<Byte>, before: seq<Byte>, junk: seq<Byte>)
    requires IsSuffix(w, before + junk) && |w| <= |junk| && Quiet(junk)
    ensures Quiet(w)
  {
    assert (before + junk)[|before + junk| - |w|..] == junk[|junk| - |w|..];
  }

  /** From any reachable state, 254 octets without a frame head bring the parser to rest. */
  lemma QuietForcesIdle(s: State, junk: seq<Byte>)
    requires Reachable(s) && Quiet(junk) && |junk| >= MAX_FRAME - 1
    ensures Run(s, junk).state == IDLE
  {
    hide Run;
    WindowIsRecent(s, junk);
    RunReachable(s, junk);
    QuietSuffix(Run(s, junk).state.window, s.window, junk);
  }

  /** The bound is sharp: 253 such octets can leave a frame pending. */
  lemma QuietBoundIsSharp()
    ensures Reachable(State([HEAD], 0))
    ensures exists junk :: Quiet(junk) && |junk| == MAX_FRAME - 2 && Run(State([HEAD], 0), junk).state != IDLE
  {
    hide Run;
    var junk := [0xFF, TYPE_SOC_STATUS] + Zeros(MAX_FRAME - 4);
    StillCollecting([HEAD] + junk, 1);
    assert ([HEAD] + junk)[1..] == junk && ([HEAD] + junk)[..1] == [HEAD];
    assert Run(State([HEAD], 0), junk).state != IDLE;
  }

  lemma {:induction false} IdleIgnoresQuiet(junk: seq<Byte>)
    requires Quiet(junk)
    ensures Run(IDLE, junk) == Trace(IDLE, [])
  {
    if junk != [] {
      IdleIgnoresQuiet(junk[1..]);
    }
  }

  // ---------- Delivery ----------

  /** The parser state after the first k octets of a frame that starts properly. */
  function Collecting(f: seq<Byte>, k: nat): State
    requires 1 <= k <= |f| && 2 <= |f|
  {
    State(f[..k], if k == 1 then 0 else f[1] as nat)
  }

  predicate StartsProperly(f: seq<Byte>) {
    && |f| >= 3 && f[0] == HEAD && f[1] as nat >= MIN_FRAME
    && (f[2] == TYPE_SOC_STATUS || f[2] == TYPE_TEXT)
  }

  lemma CollectOne(f: seq<Byte>, k: nat)
    requires StartsProperly(f) && 1 <= k < |f| && k + 1 < f[1] as nat
    ensures Reachable(Collecting(f, k))
    ensures Step(Collecting(f, k), f[k]) == Trace(Collecting(f, k + 1), [])
  {
    hide CrcMatches, Resync;
    assert f[..k] + [f[k]] == f[..k + 1];
  }

  lemma {:induction false} StillCollecting(f: seq<Byte>, k: nat)
    requires StartsProperly(f) && 1 <= k <= |f| < f[1] as nat
    ensures Reachable(Collecting(f, k))
    ensures Run(Collecting(f, k), f[k..]) == Trace(Collecting(f, |f|), [])
    decreases |f| - k
  {
    hide Step;
    if k < |f| {
      CollectOne(f, k);
      StillCollecting(f, k + 1);
      assert f[k..][1..] == f[k + 1..];
    }
  }

  predicate Deliverable(f: seq<Byte>) {
    WellFormed(f) && (f[2] == TYPE_SOC_STATUS || f[2] == TYPE_TEXT)
  }

  lemma LastOctetAccepts(f: seq<Byte>)
    requires Deliverable(f)
    ensures Reachable(Collecting(f, |f| - 1))
    ensures Step(Collecting(f, |f| - 1), f[|f| - 1]) == Trace(IDLE, [Accepted(f)])
  {
    hide CrcRegister.Crc, FromOctets;
    var s, n := Collecting(f, |f| - 1), |f|;
    assert s.window + [f[n - 1]] == f && f[..n] == f;
    StepAccepts(s, f[n - 1]);
  }

  lemma BodyCollected(body: seq<Byte>)
    requires StartsProperly(body) && |body| < body[1] as nat
    ensures Run(IDLE, body) == Trace(Collecting(body, |body|), [])
  {
    hide Step, Run;
    StillCollecting(body, 1);
    StepFirst(IDLE, body[0]);
    RunOne(IDLE, body[0]);
    RunConcat(IDLE, [body[0]], body[1..]);
    assert [body[0]] + body[1..] == body && body[..1] == [body[0]];
  }

  /** From rest, everything is decided by the last octet of a frame. */
  lemma LastOctetDecides(f: seq<Byte>)
    requires StartsProperly(f) && 4 <= |f| == f[1] as nat
    ensures Reachable(Collecting(f, |f| - 1))
    ensures Run(IDLE, f) == Step(Collecting(f, |f| - 1), f[|f| - 1])
  {
    hide Run, Step, StartsProperly, Reachable, Collecting;
    var n := |f| - 1;
    var body, last := f[..n], f[n];
    FrameBody(f);
    BodyReachable(f);
    BodyCollected(body);
    RunOne(Collecting(f, n), last);
    IdleReachable();
    RunConcat(IDLE, body, [last]);
  }

  lemma IdleReachable()
    ensures Reachable(IDLE)
  {
  }

  lemma FrameBody(f: seq<Byte>)
    requires StartsProperly(f) && 4 <= |f| == f[1] as nat
    ensures var n := |f| - 1;
            && StartsProperly(f[..n]) && n < f[..n][1] as nat
            && f[..n] + [f[n]] == f
            && Collecting(f[..n], n) == Collecting(f, n)
  {
    var n := |f| - 1;
    assert f[..n][0] == f[0] && f[..n][1] == f[1] && f[..n][2] == f[2];
    assert f[..n][..n] == f[..n];
  }

  lemma BodyReachable(f: seq<Byte>)
    requires StartsProperly(f) && 4 <= |f| == f[1] as nat
    ensures Reachable(Collecting(f, |f| - 1))
  {
  }

  /** From rest, a well-formed frame of a known type is accepted whole. */
  lemma FrameDelivered(f: seq<Byte>)
    requires Deliverable(f)
    ensures Run(IDLE, f) == Trace(IDLE, [Accepted(f)])
  {
    hide CrcMatches, Run, Step, Reachable;
    LastOctetDecides(f);
    LastOctetAccepts(f);
  }

  /** A text frame of the right shape that says it is the last, but whose tail or CRC is damaged. */
  predicate DamagedEnd(f: seq<Byte>) {
    && 7 <= |f| <= MAX_FRAME && f[0] == HEAD && f[1] as nat == |f|
    && f[2] == TYPE_TEXT && f[3] == 1
    && !(f[|f| - 1] == TAIL && CrcMatches(f, |f|))
  }

  /** From rest, such a frame is not delivered; it ends the message under way. */
  lemma DamagedEndFinishes(f: seq<Byte>)
    requires DamagedEnd(f)
    ensures Run(IDLE, f).events == [ForceFinish]
  {
    hide Run, Step, CrcMatches, Reachable;
    LastOctetDecides(f);
    LastOctetFinishes(f);
  }

  lemma LastOctetFinishes(f: seq<Byte>)
    requires DamagedEnd(f) && Reachable(Collecting(f, |f| - 1))
    ensures Step(Collecting(f, |f| - 1), f[|f| - 1]).events == [ForceFinish]
  {
    hide Step, CrcMatches, Resync, Reachable;
    var n := |f| - 1;
    assert Collecting(f, n).window + [f[n]] == f;
    StepJudges(Collecting(f, n), f[n]);
  }

  // ---------- A truncated frame in front ----------

  /** Once the first j octets of a deliverable frame are in the window, the rest of it is delivered. */
  lemma {:induction false} RestDelivered(f: seq<Byte>, j: nat)
    requires Deliverable(f) && 1 <= j < |f|
    ensures Reachable(Collecting(f, j))
    ensures Run(Collecting(f, j), f[j..]) == Trace(IDLE, [Accepted(f)])
    decreases |f| - j
  {
    hide Run, Step, CrcMatches, Reachable, Collecting;
    if j == |f| - 1 {
      LastOctetAccepts(f);
      assert f[j..] == [f[j]];
      RunOne(Collecting(f, j), f[j]);
    } else {
      CollectOne(f, j);
      RestDelivered(f, j + 1);
      RunUnfold(Collecting(f, j), f[j..]);
      assert f[j..][1..] == f[j + 1..];
    }
  }

  /**
    `all` begins with m octets of a frame that was cut off; its length octet claims n, which takes in the beginning
    of the deliverable frame that follows, and the candidate so made up fails.
   */
  ghost predicate Swallows(all: seq<Byte>, m: nat, n: nat) {
    && StartsProperly(all) && 3 <= m < n <= |all| && n == all[1] as nat
    && (forall i :: 1 <= i < m ==> all[i] != HEAD) && Deliverable(all[m..])
    && !(all[n - 1] == TAIL && CrcMatches(all, n))
  }

  /** Up to the octet before the one that completes the candidate, everything is collected. */
  lemma CandidateCollected(all: seq<Byte>, m: nat, n: nat)
    requires Swallows(all, m, n)
    ensures Reachable(Collecting(all, n - 1)) && Run(IDLE, all[..n - 1]) == Trace(Collecting(all, n - 1), [])
  {
    hide Run, Step, Deliverable, CrcMatches, Reachable;
    var body := all[..n - 1];
    FromThird(all, m, n);
    assert body[0] == all[0] && body[1] == all[1] && body[2] == all[2] && body[..n - 1] == body;
    BodyCollected(body);
    WindowReachable(all, n - 1);
  }

  lemma WindowReachable(all: seq<Byte>, k: nat)
    requires StartsProperly(all) && 2 <= k <= |all| && k < MAX_FRAME
    ensures Reachable(Collecting(all, k))
  {
  }

  lemma NotAccepted(s: State, b: Byte, all: seq<Byte>, n: nat)
    requires Reachable(s) && 1 <= n <= |all| && s.window + [b] == all[..n] && s.want == n
    requires !(all[n - 1] == TAIL && CrcMatches(all, n))
    ensures !AcceptsNow(s, b)
  {
    hide CrcRegister.Crc, FromOctets;
    var w := all[..n];
    assert n >= 6 ==> w[3..n - 3] == all[3..n - 3] && w[n - 2] == all[n - 2] && w[n - 3] == all[n - 3];
  }

  lemma CandidateWindow(all: seq<Byte>, m: nat, n: nat)
    requires Swallows(all, m, n)
    ensures var w, f := all[..n], all[m..];
            && all[..n - 1] + [all[n - 1]] == w && FirstLaterHead(w, m)
            && w[m..] == f[..n - m] && f[1] as nat >= MIN_FRAME
            && (n - m == 1 ==> w[m..] == [HEAD]) && (n - m >= 2 ==> w[m + 1] == f[1])
  {
    hide CrcMatches, Deliverable, StartsProperly;
    FromThird(all, m, n);
    var w, f := all[..n], all[m..];
    assert f[0] == all[m] && f[1] == all[m + 1];
  }

  /** The candidate fails at its last octet, and what is left of it is the beginning of the frame that follows. */
  lemma CandidateCut(all: seq<Byte>, m: nat, n: nat)
    requires Swallows(all, m, n) && Reachable(Collecting(all, n - 1))
    ensures var t := Step(Collecting(all, n - 1), all[n - 1]);
            t.state == Collecting(all[m..], n - m) && AcceptedFrames(t.events) == []
  {
    hide Step, CrcMatches, AcceptedFrames, Deliverable, StartsProperly, FirstLaterHead, Reachable;
    var s, b := Collecting(all, n - 1), all[n - 1];
    FromThird(all, m, n);
    CandidateWindow(all, m, n);
    NotAccepted(s, b, all, n);
    FailedCandidate(s, b);
    StepKeepsBack(s, b);
  }

  lemma FromThird(all: seq<Byte>, m: nat, n: nat)
    requires Swallows(all, m, n)
    ensures |all| >= 3 && n >= MIN_FRAME && |all[m..]| >= MIN_FRAME
    ensures all[m..][0] == HEAD && all[m..][1] as nat >= MIN_FRAME
  {
    hide CrcMatches;
  }

  /** After the octet that completes the candidate only the beginning of the next frame is in the window. */
  lemma JudgedAt(all: seq<Byte>, m: nat, n: nat)
    requires Swallows(all, m, n)
    ensures Run(IDLE, all[..n]).state == Collecting(all[m..], n - m)
    ensures AcceptedFrames(Run(IDLE, all[..n]).events) == []
  {
    hide Run, Step, Collecting, AcceptedFrames, StartsProperly, Deliverable, CrcMatches, Reachable;
    CandidateCollected(all, m, n);
    CandidateCut(all, m, n);
    RunOne(Collecting(all, n - 1), all[n - 1]);
    IdleReachable();
    RunConcat(IDLE, all[..n - 1], [all[n - 1]]);
    assert all[..n - 1] + [all[n - 1]] == all[..n];
    NoFrames();
    AcceptedFramesConcat([], Step(Collecting(all, n - 1), all[n - 1]).events);
  }

  lemma NoFrames()
    ensures AcceptedFrames([]) == []
  {
  }

  lemma OneFrame(f: seq<Byte>)
    ensures AcceptedFrames([Accepted(f)]) == [f]
  {
    assert [Accepted(f)][1..] == [];
  }

  lemma FrameFollows(a: seq<Byte>, b: seq<Byte>, f: seq<Byte>)
    requires AcceptedFrames(Run(IDLE, a).events) == [] && Reachable(Run(IDLE, a).state)
    requires Run(Run(IDLE, a).state, b) == Trace(IDLE, [Accepted(f)])
    ensures Run(IDLE, a + b).state == IDLE && AcceptedFrames(Run(IDLE, a + b).events) == [f]
  {
    hide Run, Reachable, AcceptedFrames;
    IdleReachable();
    RunConcat(IDLE, a, b);
    AcceptedFramesConcat(Run(IDLE, a).events, [Accepted(f)]);
    OneFrame(f);
  }

  lemma SwallowedIsDelivered(all: seq<Byte>, m: nat, n: nat)
    requires Swallows(all, m, n) && n < |all|
    ensures Run(IDLE, all).state == IDLE && AcceptedFrames(Run(IDLE, all).events) == [all[m..]]
  {
    hide Run, CrcMatches, Reachable, Deliverable, Collecting, StartsProperly, AcceptedFrames;
    JudgedAt(all, m, n);
    RestDelivered(all[m..], n - m);
    assert all[m..][n - m..] == all[n..] && all[..n] + all[n..] == all;
    FrameFollows(all[..n], all[n..], all[m..]);
  }

  lemma SwallowedWaits(all: seq<Byte>, m: nat, b: Byte)
    requires Swallows(all, m, |all|)
    ensures var f := all[m..];
            && AcceptedFrames(Run(IDLE, all).events) == [] && Run(IDLE, all).state == State(f, |f|)
            && Run(IDLE, all + [b]).state == IDLE && AcceptedFrames(Run(IDLE, all + [b]).events) == [f]
  {
    hide Run, CrcMatches, Reachable, StartsProperly, AcceptedFrames;
    var f := all[m..];
    JudgedAt(all, m, |all|);
    assert all[..|all|] == all && f[..|f|] == f;
    SurplusAccepts(f, b);
    RunOne(State(f, |f|), b);
    FrameFollows(all, [b], f);
  }

  /** `p` is the beginning of a frame that was cut off; the candidate it makes with octets of f fails. */
  ghost predicate CutOff(p: seq<Byte>, f: seq<Byte>) {
    && StartsProperly(p) && HEAD !in p[1..] && |p| < p[1] as nat <= |p| + |f|
    && !((p + f)[p[1] as nat - 1] == TAIL && CrcMatches(p + f, p[1] as nat))
  }

  lemma CutOffSwallows(p: seq<Byte>, f: seq<Byte>)
    requires CutOff(p, f) && Deliverable(f)
    ensures Swallows(p + f, |p|, p[1] as nat) && (p + f)[|p|..] == f
  {
    hide CrcMatches;
    var all := p + f;
    assert all[|p|..] == f && all[0] == p[0] && all[1] == p[1] && all[2] == p[2];
    assert forall i :: 1 <= i < |p| ==> all[i] == p[1..][i - 1];
  }

  /**
    Resynchronisation over runs: a frame that was cut off swallows the beginning of the next one, and when it fails
    the search finds that beginning. Nothing of the good frame is lost.
   */
  lemma TruncatedThenFrame(p: seq<Byte>, f: seq<Byte>)
    requires Deliverable(f) && CutOff(p, f) && p[1] as nat < |p| + |f|
    ensures Run(IDLE, p + f).state == IDLE && AcceptedFrames(Run(IDLE, p + f).events) == [f]
  {
    hide Run, Swallows, Deliverable, AcceptedFrames;
    CutOffSwallows(p, f);
    SwallowedIsDelivered(p + f, |p|, p[1] as nat);
  }

  /**
    When the cut-off frame ends exactly where the good one does, the whole good frame is left in the window: it is
    accepted with the next octet, whatever that is, and that octet is lost.
   */
  lemma FrameWaitsForNext(p: seq<Byte>, f: seq<Byte>, b: Byte)
    requires Deliverable(f) && CutOff(p, f) && p[1] as nat == |p| + |f|
    ensures AcceptedFrames(Run(IDLE, p + f).events) == [] && Run(IDLE, p + f).state == State(f, |f|)
    ensures Run(IDLE, p + f + [b]).state == IDLE && AcceptedFrames(Run(IDLE, p + f + [b]).events) == [f]
  {
    hide Run, Swallows, Deliverable, AcceptedFrames;
    CutOffSwallows(p, f);
    SwallowedWaits(p + f, |p|, b);
  }

  lemma SurplusAccepts(f: seq<Byte>, b: Byte)
    requires Deliverable(f) && |f| < MAX_FRAME
    ensures Reachable(State(f, |f|)) && Step(State(f, |f|), b) == Trace(IDLE, [Accepted(f)])
  {
    hide CrcRegister.Crc, FromOctets, Step;
    var s, w := State(f, |f|), f + [b];
    assert w[3..|f| - 3] == f[3..|f| - 3] && w[..|f|] == f;
    StepAccepts(s, b);
  }

  function AsEvents(frames: seq<seq<Byte>>): seq<Event> {
    if frames == [] then [] else [Accepted(frames[0])] + AsEvents(frames[1..])
  }

  /** A clean stream: frames of known types with noise that contains no head between them. */
  ghost predicate CleanStream(junk: seq<seq<Byte>>, frames: seq<seq<Byte>>) {
    && |junk| == |frames| + 1
    && (forall j <- junk :: Quiet(j))
    && (forall f <- frames :: Deliverable(f))
  }

  /** From rest, a clean stream is delivered as exactly its frames, in order, and the parser is at rest again. */
  lemma {:induction false} CleanStreamDelivered(junk: seq<seq<Byte>>, frames: seq<seq<Byte>>)
    requires CleanStream(junk, frames)
    ensures Run(IDLE, Weave(junk, frames)) == Trace(IDLE, AsEvents(frames))
  {
    hide Run, Deliverable;
    IdleIgnoresQuiet(junk[0]);
    if frames != [] {
      var f, rest := frames[0], Weave(junk[1..], frames[1..]);
      FrameDelivered(f);
      CleanStreamDelivered(junk[1..], frames[1..]);
      RunConcat(IDLE, junk[0], f);
      RunConcat(IDLE, junk[0] + f, rest);
      assert [] + [Accepted(f)] == [Accepted(f)];
    }
  }

  /** After any history, enough quiet noise followed by a clean stream is delivered exactly. */
  lemma RecoversAfterNoise(s: State, noise: seq<Byte>, junk: seq<seq<Byte>>, frames: seq<seq<Byte>>)
    requires Reachable(s) && Quiet(noise) && |noise| >= MAX_FRAME - 1 && CleanStream(junk, frames)
    ensures Run(s, noise + Weave(junk, frames)) == Trace(IDLE, Run(s, noise).events + AsEvents(frames))
  {
    hide Run;
    QuietForcesIdle(s, noise);
    CleanStreamDelivered(junk, frames);
    RunConcat(s, noise, Weave(junk, frames));
  }
}
