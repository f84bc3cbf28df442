/** The event loop as the source runs it (`src/linux_uhid.rs`): the device object makes the
    runs that the theorems on whole runs are about. */
module DeviceLoop {
  import opened Bytes
  import opened CtapHidPacket
  import opened CtapHidMessage
  import opened CtapHidReassembler
  import opened CtapHidRuns
  import opened Ed25519
  import opened Backend
  import opened Authenticator
  import Service = AuthenticatorRuns
  import opened Device
  import opened DeviceRuns
  import opened DeviceEnds

  // ---- What a run exchanges with the outside -----------------------------------------------------

  /** All reports of a run. */
  function Outgoing(env: Env, es: seq<Event>, os: seq<Outside>, sts: seq<State>): seq<Report>
    requires |os| == |es| == |sts| - 1 && forall i | 0 <= i < |sts| :: ValidChannels(sts[i].channels)
  {
    if es == [] then []
    else
      var n := |es| - 1;
      Outgoing(env, es[..n], os[..n], sts[..n + 1]) + ReportsOf(Turn(env, sts[n], es[n], os[n]))
  }

  function ReportsOf(t: Effect): seq<Report> { if t.sent.Some? then Reports(t.sent.value) else [] }

  /** All answers to the questions of a run, one for each message that puts one. */
  function AnswersTo(env: Env, es: seq<Event>, os: seq<Outside>, sts: seq<State>): seq<Answer>
    requires |os| == |es| == |sts| - 1 && forall i | 0 <= i < |sts| :: ValidChannels(sts[i].channels)
  {
    if es == [] then []
    else
      var n := |es| - 1;
      AnswersTo(env, es[..n], os[..n], sts[..n + 1]) + AnswerTo(env, sts[n], es[n], os[n])
  }

  function AnswerTo(env: Env, st: State, e: Event, o: Outside): seq<Answer>
    requires ValidChannels(st.channels)
  {
    match MessageOf(st, e)
    case None => []
    case Some(m) => if Prompts(env, st.credentials, m) then [o.answer] else []
  }

  lemma TurnAsks(env: Env, st: State, e: Event, o: Outside)
    requires ValidChannels(st.channels)
    ensures AnswerTo(env, st, e, o) == if Turn(env, st, e, o).prompted then [o.answer] else []
  {
    hide HandleMessage, Prompts, Step, Parse;
    if MessageOf(st, e).Some? {
      PromptedExactlyWhen(env, st.credentials, MessageOf(st, e).value, o);
    }
  }

  lemma ExchangeSnoc(env: Env, es: seq<Event>, os: seq<Outside>, sts: seq<State>, e: Event, o: Outside)
    requires |os| == |es| == |sts| - 1 && forall i | 0 <= i < |sts| :: ValidChannels(sts[i].channels)
    ensures var sts' := sts + [Next(env, sts[|es|], e, o)];
            && Outgoing(env, es + [e], os + [o], sts') == Outgoing(env, es, os, sts)
               + ReportsOf(Turn(env, sts[|es|], e, o))
            && AnswersTo(env, es + [e], os + [o], sts') == AnswersTo(env, es, os, sts) + AnswerTo(env, sts[|es|], e, o)
  {
    hide Turn, Next, ReportsOf, AnswerTo, ValidChannels;
    var n, st := |es|, Next(env, sts[|es|], e, o);
    assert (es + [e])[..n] == es && (os + [o])[..n] == os && (sts + [st])[..n + 1] == sts;
  }

  // ---- Handles that are drawn ----------------------------------------------------------------------

  /** The generator keeps producing handles that were not seen before. */
  ghost predicate FreshDraws(draws: seq<Draws>, live: Live) {
    forall i | 0 <= i < |draws| ::
      && |draws[i].nonces| == 2
      && (forall k | 0 <= k < |draws[i].handles| :: |draws[i].handles[k]| == 32)
      && exists k :: 0 <= k < |draws[i].handles| && Handle(draws[i].handles[k]) !in live
                     && forall j | 0 <= j < i :: draws[i].handles[k] !in draws[j].handles
  }

  /** Whatever is live was live before or was drawn by one of the first `n` turns. */
  ghost predicate Sourced(live: Live, draws: seq<Draws>, before: Live, n: nat)
    requires n <= |draws|
  {
    forall h | h in live :: h in before || exists j :: 0 <= j < n && h.bytes in draws[j].handles
  }

  lemma DrawsAreGood(draws: seq<Draws>, before: Live, live: Live, n: nat)
    requires n < |draws| && FreshDraws(draws, before) && Sourced(live, draws, before, n)
    ensures GoodDraws(draws[n], live) && |draws[n].nonces| == 2
  {
    var k :| 0 <= k < |draws[n].handles| && Handle(draws[n].handles[k]) !in before
             && forall j | 0 <= j < n :: draws[n].handles[k] !in draws[j].handles;
    assert Handle(draws[n].handles[k]) !in live;
  }

  lemma StaysSourced(s: Suite, env: Env, st: State, e: Event, o: Outside,
                     draws: seq<Draws>, before: Live, live: Live, live': Live, n: nat)
    requires n < |draws| && Sourced(live, draws, before, n) && ValidChannels(st.channels)
    requires DrawnFrom(o.created, draws[n])
    requires Service.Honoured(s, env.sha256, Service.Store(st.credentials, live), TurnCall(env, st, e, o), live')
    ensures Sourced(live', draws, before, n + 1)
  {
    hide Step, Parse, ReadMakeCredential, SignContract, SelectCredential, DataFor;
  }

  // ---- The loop of the source ----------------------------------------------------------------------

  /** What the outside contributed to each event, and the states between them: of the device,
      and of its backend. */
  datatype Trace = Trace(os: seq<Outside>, sts: seq<State>, lives: seq<Live>, helds: seq<BackendState>)

  ghost predicate Shaped(es: seq<Event>, draws: seq<Draws>, t: Trace) {
    && |t.os| == |es| <= |draws| && |t.sts| == |t.lives| == |t.helds| == |es| + 1
    && (forall i | 0 <= i < |t.sts| :: ValidChannels(t.sts[i].channels))
    && (forall i | 0 <= i < |es| :: |draws[i].nonces| == 2)
  }

  /** In a turn the backend did what the service asked of it exactly if it could. */
  predicate Delivered(s: Suite, env: Env, st: State, held: BackendState, e: Event, o: Outside, d: Draws)
    requires ValidChannels(st.channels) && |d.nonces| == 2
  {
    var call := TurnCall(env, st, e, o);
    Service.Succeeds(call) <==> Service.Able(s, env.sha256, st.credentials, held, call, d)
  }

  ghost predicate AllDelivered(s: Suite, env: Env, es: seq<Event>, draws: seq<Draws>, t: Trace)
    requires Shaped(es, draws, t)
  {
    forall i | 0 <= i < |es| :: Delivered(s, env, t.sts[i], t.helds[i], es[i], t.os[i], draws[i])
  }

  /** A run over a backend that keeps its contract and does what it can. */
  ghost predicate Serving(s: Suite, env: Env, es: seq<Event>, draws: seq<Draws>, t: Trace) {
    Shaped(es, draws, t) && Backed(s, env, es, t.os, t.sts, t.lives) && AllDelivered(s, env, es, draws, t)
  }

  /** Every turn of such a run ends the loop exactly when a message arrives that must. */
  lemma StopsExactlyWhen(s: Suite, env: Env, es: seq<Event>, draws: seq<Draws>, t: Trace, i: nat)
    requires Serving(s, env, es, draws, t) && i < |es|
    ensures !Turn(env, t.sts[i], es[i], t.os[i]).running <==>
              var m := MessageOf(t.sts[i], es[i]);
              m.Some? && EndsLoop(s, env, t.sts[i].credentials, t.helds[i], m.value, t.os[i], draws[i])
  {
    hide HandleMessage, ServiceCall, EndsLoop, Step, Parse, Next, Service.Honoured, Service.Able, Service.Succeeds;
    assert Delivered(s, env, t.sts[i], t.helds[i], es[i], t.os[i], draws[i]);
    var m := MessageOf(t.sts[i], es[i]);
    if m.Some? {
      LoopEndsExactlyWhen(s, env, t.sts[i].credentials, t.lives[i], t.helds[i], m.value, t.os[i], draws[i],
        t.lives[i + 1]);
    }
  }

  function Longer(env: Env, t: Trace, e: Event, o: Outside, live: Live, held: BackendState): Trace
    requires t.sts != [] && ValidChannels(t.sts[|t.sts| - 1].channels)
  {
    Trace(t.os + [o], t.sts + [Next(env, t.sts[|t.sts| - 1], e, o)], t.lives + [live], t.helds + [held])
  }

  lemma BackedSnoc(s: Suite, env: Env, es: seq<Event>, t: Trace, e: Event, o: Outside, live: Live)
    requires Backed(s, env, es, t.os, t.sts, t.lives) && WireChannels(Next(env, t.sts[|es|], e, o).channels)
    requires Service.Honoured(s, env.sha256, Service.Store(t.sts[|es|].credentials, t.lives[|es|]),
                              TurnCall(env, t.sts[|es|], e, o), live)
    ensures Backed(s, env, es + [e], t.os + [o], t.sts + [Next(env, t.sts[|es|], e, o)], t.lives + [live])
  {
    hide TurnCall, Turn, Next, Service.Honoured;
  }

  lemma ShapedSnoc(env: Env, es: seq<Event>, draws: seq<Draws>, t: Trace,
                   e: Event, o: Outside, live: Live, held: BackendState)
    requires Shaped(es, draws, t) && |es| < |draws| && |draws[|es|].nonces| == 2
    ensures Shaped(es + [e], draws, Longer(env, t, e, o, live, held))
  {
    hide Next, ValidChannels;
  }

  lemma DeliveredSnoc(s: Suite, env: Env, es: seq<Event>, draws: seq<Draws>, t: Trace,
                      e: Event, o: Outside, live: Live, held: BackendState)
    requires Shaped(es, draws, t) && |es| < |draws| && |draws[|es|].nonces| == 2
    requires AllDelivered(s, env, es, draws, t) && Delivered(s, env, t.sts[|es|], t.helds[|es|], e, o, draws[|es|])
    ensures Shaped(es + [e], draws, Longer(env, t, e, o, live, held))
    ensures AllDelivered(s, env, es + [e], draws, Longer(env, t, e, o, live, held))
  {
    hide Next, ValidChannels, Delivered;
    ShapedSnoc(env, es, draws, t, e, o, live, held);
  }

  /** One more turn of a run. */
  lemma ServingSnoc(s: Suite, env: Env, es: seq<Event>, draws: seq<Draws>, t: Trace,
                    e: Event, o: Outside, live: Live, held: BackendState)
    requires Serving(s, env, es, draws, t) && |es| < |draws| && |draws[|es|].nonces| == 2
    requires WireChannels(Next(env, t.sts[|es|], e, o).channels)
    requires Behaved(s, env, t.sts[|es|].credentials, t.lives[|es|], t.helds[|es|],
                     TurnCall(env, t.sts[|es|], e, o), draws[|es|], live)
    ensures Serving(s, env, es + [e], draws, Longer(env, t, e, o, live, held))
  {
    hide TurnCall, Turn, Next, Service.Honoured, Service.Able, Service.Succeeds, Backed, WireChannels, ValidChannels;
    hide AllDelivered;
    BackedSnoc(s, env, es, t, e, o, live);
    DeliveredSnoc(s, env, es, draws, t, e, o, live, held);
  }

  /** The device has taken the events `es`, and `t` is the run that made. */
  ghost predicate Took(device: UhidAuthenticator, es: seq<Event>, draws: seq<Draws>, t: Trace)
    reads device.Repr()
  {
    && device.Valid() && Shaped(es, draws, t)
    && Serving(SuiteOf(device.authenticator.backend), device.env, es, draws, t)
    && device.Now() == t.sts[|es|] && device.Live() == t.lives[|es|] && device.Held() == t.helds[|es|]
    && device.asked == AnswersTo(device.env, es, t.os, t.sts)
  }

  /** A reply that a debug build cannot split. */
  predicate TooLong(t: Effect) { t.sent.Some? && |t.sent.value.payload| > COUNTER_LIMIT }

  method TakeEvent(device: UhidAuthenticator, e: Event, answer: Answer, newCid: Buffer, draws: seq<Draws>, n: nat,
                   ghost es: seq<Event>, ghost t: Trace, ghost before: Live)
    returns (r: Outcome<bool>, ghost o: Outside)
    requires Took(device, es, draws, t) && n == |es| && |newCid| == 4
    requires n < |draws| && FreshDraws(draws, before) && Sourced(device.Live(), draws, before, n)
    modifies device.Repr()
    ensures device.Valid() && o.answer == answer && o.newCid == newCid
    ensures Sourced(device.Live(), draws, before, n + 1)
    ensures Took(device, es + [e], draws, Longer(device.env, t, e, o, device.Live(), device.Held()))
    ensures r.Panic? <==> device.build.Debug? && TooLong(Turn(device.env, t.sts[n], e, o))
    ensures r.Returns? ==> r.value == Turn(device.env, t.sts[n], e, o).running
    ensures device.written == old(device.written) + if r.Panic? then [] else ReportsOf(Turn(device.env, t.sts[n], e, o))
  {
    hide Turn, Next, Service.Honoured, TurnCall, GoodDraws, FreshDraws, Sourced, Outgoing, AnswersTo, ValidBackend;
    hide LiveIn, StateOf, WireChannels, StoreAgrees, Backed, Service.Able, Service.Succeeds, Reports, Delivered;
    DrawsAreGood(draws, before, device.Live(), n);
    ghost var live := device.Live();
    r, o := device.HandleEvent(e, answer, draws[n], newCid);
    TurnAsks(device.env, t.sts[n], e, o);
    ExchangeSnoc(device.env, es, t.os, t.sts, e, o);
    ServingSnoc(SuiteOf(device.authenticator.backend), device.env, es, draws, t, e, o, device.Live(), device.Held());
    StaysSourced(SuiteOf(device.authenticator.backend), device.env, t.sts[n], e, o, draws, before, live,
      device.Live(), n);
  }

  /** No turn but perhaps the last ended the loop, and `written` is the reports of all replies;
      or, after a panic, the last reply was too long for a debug build to split, and nothing
      was written of that one. */
  ghost predicate Wrote(env: Env, build: Build, es: seq<Event>, draws: seq<Draws>, t: Trace,
                        written: seq<Report>, panicked: bool)
    requires Shaped(es, draws, t)
  {
    && (forall i | 0 <= i < |es| - 1 :: Turn(env, t.sts[i], es[i], t.os[i]).running)
    && if !panicked then written == Outgoing(env, es, t.os, t.sts)
       else
         && es != [] && build.Debug?
         && var n := |es| - 1;
            TooLong(Turn(env, t.sts[n], es[n], t.os[n])) && written == Outgoing(env, es[..n], t.os[..n], t.sts[..n + 1])
  }

  /** The device has taken `es`, perhaps up to a panic. */
  ghost predicate Ran(device: UhidAuthenticator, es: seq<Event>, draws: seq<Draws>, t: Trace, panicked: bool)
    reads device.Repr()
  {
    && Shaped(es, draws, t) && Took(device, es, draws, t)
    && Wrote(device.env, device.build, es, draws, t, device.written, panicked)
  }

  /** The last turn ended the loop. */
  ghost predicate Stopped(env: Env, es: seq<Event>, draws: seq<Draws>, t: Trace) {
    es != [] && Shaped(es, draws, t) && !Turn(env, t.sts[|es| - 1], es[|es| - 1], t.os[|es| - 1]).running
  }

  /** No turn has ended the loop so far. */
  ghost predicate Going(device: UhidAuthenticator, es: seq<Event>, draws: seq<Draws>, t: Trace)
    reads device.Repr()
  {
    Ran(device, es, draws, t, false) && !Stopped(device.env, es, draws, t)
  }

  lemma NothingTaken(device: UhidAuthenticator, draws: seq<Draws>)
    requires device.Valid() && device.Now() == State(map[], map[]) && device.asked == []
    ensures var t := Trace([], [device.Now()], [device.Live()], [device.Held()]);
            && Took(device, [], draws, t) && Outgoing(device.env, [], t.os, t.sts) == []
            && (device.written == [] ==> Going(device, [], draws, t))
            && Sourced(device.Live(), draws, device.Live(), 0)
  {
    hide LiveIn, StateOf, ValidBackend;
  }

  lemma AllRunning(device: UhidAuthenticator, es: seq<Event>, draws: seq<Draws>, t: Trace)
    requires Going(device, es, draws, t)
    ensures Ran(device, es, draws, t, false)
    ensures Shaped(es, draws, t) && forall i | 0 <= i < |es| :: Turn(device.env, t.sts[i], es[i], t.os[i]).running
  {
    hide Turn, Outgoing, AnswersTo, ValidBackend, LiveIn, StateOf, WireChannels, StoreAgrees, Serving;
  }

  method TakeTurn(device: UhidAuthenticator, e: Event, answer: Answer, newCid: Buffer, draws: seq<Draws>, n: nat,
                  ghost es: seq<Event>, ghost t: Trace, ghost before: Live)
    returns (r: Outcome<bool>, ghost o: Outside, ghost t': Trace)
    requires Going(device, es, draws, t) && n == |es| && |newCid| == 4
    requires n < |draws| && FreshDraws(draws, before) && Sourced(device.Live(), draws, before, n)
    modifies device.Repr()
    ensures device.Valid() && Sourced(device.Live(), draws, before, n + 1)
    ensures t'.os == t.os + [o] && o.answer == answer && o.newCid == newCid
    ensures Ran(device, es + [e], draws, t', r.Panic?)
    ensures r.Returns? ==> if r.value then Going(device, es + [e], draws, t')
            else Stopped(device.env, es + [e], draws, t')
  {
    hide Turn, Next, FreshDraws, Sourced, Outgoing, AnswersTo, ValidBackend, LiveIn, StateOf, WireChannels, StoreAgrees;
    hide Serving, ReportsOf, TooLong;
    AllRunning(device, es, draws, t);
    r, o := TakeEvent(device, e, answer, newCid, draws, n, es, t, before);
    t' := Longer(device.env, t, e, o, device.Live(), device.Held());
    ExchangeSnoc(device.env, es, t.os, t.sts, e, o);
    assert (es + [e])[..n] == es && t'.os[..n] == t.os && t'.sts[..n + 1] == t.sts;
  }

  /** `run`, for as long as events come. A new device makes exactly a run over a backend that
      keeps its contract and does what it can; it puts exactly the questions that the messages
      call for, and writes exactly the reports of its replies. It stops early only at a turn
      that ends the loop, or, in a debug build, at a reply too long to split. */
  method Serve(device: UhidAuthenticator, es: seq<Event>, answers: seq<Answer>, draws: seq<Draws>, newCids: seq<Buffer>)
    returns (panicked: bool, ghost t: Trace)
    requires device.Valid() && device.Now() == State(map[], map[]) && device.Io() == Traffic([], [])
    requires |answers| == |draws| == |newCids| == |es| && FreshDraws(draws, device.Live())
    requires forall i | 0 <= i < |newCids| :: |newCids[i]| == 4
    modifies device.Repr()
    ensures |t.os| <= |es| && Ran(device, es[..|t.os|], draws, t, panicked)
    ensures forall i | 0 <= i < |t.os| :: t.os[i].answer == answers[i] && t.os[i].newCid == newCids[i]
    ensures |t.os| < |es| ==> panicked || Stopped(device.env, es[..|t.os|], draws, t)
  {
    hide FreshDraws, Sourced, Outgoing, ValidBackend, LiveIn, StateOf, StoreAgrees, Ran, Stopped, Going, Took,
      WireChannels;
    panicked, t := false, Trace([], [device.Now()], [device.Live()], [device.Held()]);
    NothingTaken(device, draws);
    ghost var before := device.Live();
    for n := 0 to |es|
      invariant !panicked && |t.os| == n && device.Valid() && Going(device, es[..n], draws, t)
      invariant forall i | 0 <= i < n :: t.os[i].answer == answers[i] && t.os[i].newCid == newCids[i]
      invariant Sourced(device.Live(), draws, before, n)
    {
      var r;
      ghost var o;
      r, o, t := TakeTurn(device, es[n], answers[n], newCids[n], draws, n, es[..n], t, before);
      assert es[..n] + [es[n]] == es[..n + 1];
      panicked := r.Panic?;
      if r.Panic? || !r.value {
        return;
      }
    }
    AllRunning(device, es[..|es|], draws, t);
  }
}
