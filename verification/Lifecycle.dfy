/** Session and producer lifecycle: the RTSP task, the RTP task, the diagnostic tone task and the
    caller that starts the tone, interleaved one access to shared state at a time. */
module Lifecycle {

  /** Where the RTSP task stands: between requests, in RECORD (tone stop, then RTP start), or in a
      teardown (RTP stop, then session reset). */
  datatype RtspPc =
    | Ready
    | ToneCheck | ToneClear | ToneWait
    | StartCheck | Build | ImportKey | AllocSlots | Acquire | SetFlags | Create
    | StopCheck | StopClear | StopWait | Free | Reset

  /** A producer task: looking at its run flag, working with the audio path, or on its way out. */
  datatype TaskPc = Off | Loop | Work | Release | ClearHandle | Publish

  /** The caller of the tone start. */
  datatype StarterPc = Idle | ToneAcquire | ToneFlags | ToneCreate

  datatype Owner = Nobody | RtpOwner | ToneOwner

  /** The producer slot: its flag, and for the record who took it. */
  datatype Slot = Slot(held: bool, owner: Owner)

  const VACANT := Slot(false, Nobody)

  /** The RTP receiver's module state and its task. */
  datatype Receiver = Receiver(
    task: bool, run: bool, done: bool, decoder: bool, key: bool, slots: bool, audioFd: int, pc: TaskPc)

  /** The tone's module state, its task, tasks that have only their done flag left to set, and the
      caller of the start. */
  datatype Tone = Tone(task: bool, run: bool, done: bool, pc: TaskPc, ending: nat, starter: StarterPc)

  datatype Phase = SessionIdle | Announced | SetUp | Recording

  /** Socket handles of the session; -1 is unbound. */
  datatype Sockets = Sockets(audio: int, control: int, timing: int)

  const UNBOUND := Sockets(-1, -1, -1)

  datatype Session = Session(phase: Phase, haveKey: bool, fmtp: bool, sockets: Sockets)

  /** The system's open handles, the next one it will give out, and for the record those that were
      overwritten while open. */
  datatype Fds = Fds(open: set<int>, next: int, lost: set<int>)

  datatype State = State(pc: RtspPc, slot: Slot, rx: Receiver, tone: Tone, session: Session, fds: Fds)

  /** The format line of an ANNOUNCE. */
  datatype Format = Missing | Blank | Given

  /** What happens to the server between requests. Connect, disconnect, TEARDOWN and a stop all run
      the teardown; the idle timeout does unless the session is recording. */
  datatype Request =
    | Announce(ok: bool, hasIv: bool, format: Format)
    | Setup(audio: bool, control: bool, timing: bool)
    | Record
    | Teardown
    | IdleTimeout
    | Other

  datatype Action =
    | Handle(req: Request)       // the RTSP task takes up a request
    | RtspStep(ok: bool)         // its next step; ok is whether an allocation or task creation succeeds
    | RtpStep | ToneStep | ToneEnd
    | StartTone | StarterStep(ok: bool)

  function Handles(s: Sockets): set<int> {
    (if s.audio >= 0 then {s.audio} else {}) + (if s.control >= 0 then {s.control} else {}) +
    (if s.timing >= 0 then {s.timing} else {})
  }

  function Freed(r: Receiver): Receiver {
    r.(decoder := false, key := false, slots := false)
  }

  /** Binding overwrites the old handles; a failure closes the new ones. */
  function BindAll(s: State, audio: bool, control: bool, timing: bool): State {
    var f := s.fds.next;
    var overwritten := s.fds.lost + Handles(s.session.sockets);
    if audio && control && timing then
      var bound := Sockets(f, f + 1, f + 2);
      s.(session := s.session.(sockets := bound, phase := SetUp),
         fds := Fds(s.fds.open + Handles(bound), f + 3, overwritten))
    else
      s.(session := s.session.(sockets := UNBOUND), fds := Fds(s.fds.open, f + 3, overwritten))
  }

  function HandleRequest(s: State, req: Request): State {
    match req
    case Announce(ok, hasIv, format) =>
      if ok then
        var fmtp := if format.Missing? then s.session.fmtp else format.Given?;
        s.(session := s.session.(haveKey := hasIv, fmtp := fmtp, phase := Announced))
      else s
    case Setup(a, c, t) => BindAll(s, a, c, t)
    case Record =>
      if s.session.phase.Recording? || !s.session.haveKey || !s.session.fmtp then s else s.(pc := ToneCheck)
    case Teardown => s.(pc := StopCheck)
    case IdleTimeout => if s.session.phase.Recording? then s else s.(pc := StopCheck)
    case Other => s
  }

  function RtspNext(s: State, ok: bool): State {
    match s.pc
    case Ready => s
    case ToneCheck => s.(pc := if s.tone.task then ToneClear else StartCheck)
    case ToneClear => s.(tone := s.tone.(run := false), pc := ToneWait)
    case ToneWait => if s.tone.done then s.(pc := StartCheck) else s
    case StartCheck =>
      s.(pc := if s.rx.task || !s.session.haveKey || s.session.sockets.audio < 0 then Ready else Build)
    case Build => if ok then s.(rx := s.rx.(decoder := true), pc := ImportKey) else s.(pc := Ready)
    case ImportKey => if ok then s.(rx := s.rx.(key := true), pc := AllocSlots) else s.(rx := Freed(s.rx), pc := Ready)
    case AllocSlots =>
      if ok then s.(rx := s.rx.(slots := true, audioFd := s.session.sockets.audio), pc := Acquire)
      else s.(rx := Freed(s.rx), pc := Ready)
    case Acquire =>
      if s.slot.held then s.(rx := Freed(s.rx), pc := Ready) else s.(slot := Slot(true, RtpOwner), pc := SetFlags)
    case SetFlags => s.(rx := s.rx.(run := true, done := false), pc := Create)
    case Create =>
      if ok then
        s.(rx := s.rx.(task := true, pc := Loop), session := s.session.(phase := Recording), pc := Ready)
      else s.(slot := VACANT, rx := Freed(s.rx.(run := false, task := false)), pc := Ready)
    case StopCheck => if s.rx.task then s.(pc := StopClear) else s.(rx := Freed(s.rx), pc := Reset)
    case StopClear => s.(rx := s.rx.(run := false), pc := StopWait)
    case StopWait => if s.rx.done then s.(pc := Free) else s
    case Free => s.(rx := Freed(s.rx).(audioFd := -1), pc := Reset)
    case Reset =>
      s.(fds := s.fds.(open := s.fds.open - Handles(s.session.sockets)),
         session := Session(SessionIdle, false, false, UNBOUND), pc := Ready)
  }

  function RtpNext(s: State): State {
    match s.rx.pc
    case Off => s
    case Loop => s.(rx := s.rx.(pc := if s.rx.run then Work else Release))
    case Work => s.(rx := s.rx.(pc := Loop))
    case Release => s.(slot := VACANT, rx := s.rx.(pc := ClearHandle))
    case ClearHandle => s.(rx := s.rx.(task := false, pc := Publish))
    case Publish => s.(rx := s.rx.(done := true, pc := Off))
  }

  function ToneNext(s: State): State {
    match s.tone.pc
    case Off => s
    case Loop => s.(tone := s.tone.(pc := if s.tone.run then Work else Release))
    case Work => s.(tone := s.tone.(pc := Loop))
    case Release => s.(slot := VACANT, tone := s.tone.(pc := ClearHandle))
    case ClearHandle => s.(tone := s.tone.(task := false, pc := Off, ending := s.tone.ending + 1))
    case Publish => s
  }

  function StarterNext(s: State, ok: bool): State {
    match s.tone.starter
    case Idle => s
    case ToneAcquire =>
      if s.slot.held then s.(tone := s.tone.(starter := Idle))
      else s.(slot := Slot(true, ToneOwner), tone := s.tone.(starter := ToneFlags))
    case ToneFlags => s.(tone := s.tone.(run := true, done := false, starter := ToneCreate))
    case ToneCreate =>
      if ok then s.(tone := s.tone.(task := true, pc := Loop, starter := Idle))
      else s.(slot := VACANT, tone := s.tone.(task := false, starter := Idle))
  }

  function Step(s: State, a: Action): State {
    match a
    case Handle(req) => if s.pc.Ready? then HandleRequest(s, req) else s
    case RtspStep(ok) => RtspNext(s, ok)
    case RtpStep => RtpNext(s)
    case ToneStep => ToneNext(s)
    case ToneEnd => if s.tone.ending > 0 then s.(tone := s.tone.(done := true, ending := s.tone.ending - 1)) else s
    case StartTone =>
      if s.tone.starter.Idle? && !s.tone.task then s.(tone := s.tone.(starter := ToneAcquire)) else s
    case StarterStep(ok) => StarterNext(s, ok)
  }

  /** The server right after its start, with the session reset. */
  const INITIAL := State(
    Ready, VACANT, Receiver(false, false, false, false, false, false, -1, Off),
    Tone(false, false, false, Off, 0, Idle), Session(SessionIdle, false, false, UNBOUND), Fds({}, 0, {}))

  function Run(acts: seq<Action>): State {
    if acts == [] then INITIAL else Step(Run(acts[..|acts| - 1]), acts[|acts| - 1])
  }

  // ----- invariant -----

  /** The task may look at its run flag, touch what it works with and feed PCM. */
  predicate Active(pc: TaskPc) {
    pc.Loop? || pc.Work?
  }

  /** The task has the slot. */
  predicate Holding(pc: TaskPc) {
    Active(pc) || pc.Release?
  }

  /** The slot is taken exactly by the one task, or the one start in progress, on record. */
  predicate SlotInvariant(slot: Slot, pc: RtspPc, rtp: TaskPc, tone: Tone) {
    && slot.held == !slot.owner.Nobody?
    && (slot.owner.RtpOwner? <==> Holding(rtp) || pc.SetFlags? || pc.Create?)
    && (slot.owner.ToneOwner? <==> Holding(tone.pc) || tone.starter.ToneFlags? || tone.starter.ToneCreate?)
    && (tone.task <==> !tone.pc.Off?) && !tone.pc.Publish?
    && (!tone.starter.Idle? ==> tone.pc.Off?)
  }

  /** The RTP task ends only under a stop that waits for it. */
  predicate TaskInvariant(pc: RtspPc, r: Receiver) {
    && (r.task <==> Holding(r.pc) || r.pc.ClearHandle?)
    && (r.task && !r.run ==> pc.StopWait?)
    && (r.pc.Release? || r.pc.ClearHandle? || r.pc.Publish? ==> pc.StopWait? && !r.run)
    && (!r.pc.Off? ==> !r.done) && (pc.Create? ==> r.run && !r.done)
    && (pc.StopClear? ==> Active(r.pc)) && (pc.StopWait? ==> !r.run && (r.pc.Off? ==> r.done))
    && (Starting(pc) || pc.Free? || pc.Reset? ==> r.pc.Off?)
  }

  /** Steps of the RTP start behind its check. */
  predicate Starting(pc: RtspPc) {
    pc.Build? || pc.ImportKey? || pc.AllocSlots? || pc.Acquire? || pc.SetFlags? || pc.Create?
  }

  /** What the RTP task uses is there while it is active, and only then or during start and stop. */
  predicate ResourceInvariant(pc: RtspPc, r: Receiver, sockets: Sockets) {
    && (Active(r.pc) || pc.Acquire? || pc.SetFlags? || pc.Create? ==> r.decoder && r.key && r.slots && r.audioFd >= 0)
    && (pc.Acquire? || pc.SetFlags? || pc.Create? ==> r.audioFd == sockets.audio)
    && (pc.ImportKey? || pc.AllocSlots? ==> r.decoder) && (pc.AllocSlots? ==> r.key)
    && (Starting(pc) ==> sockets.audio >= 0)
    && (r.decoder || r.key || r.slots ==> !r.pc.Off? || (Starting(pc) && !pc.Build?) || pc.StopWait? || pc.Free?)
  }

  predicate SocketInvariant(r: Receiver, sockets: Sockets, fds: Fds) {
    && fds.next >= 0
    && (sockets == UNBOUND || (0 <= sockets.audio && 0 <= sockets.control && 0 <= sockets.timing))
    && fds.open == Handles(sockets) + fds.lost && Handles(sockets) !! fds.lost
    && (forall h :: h in fds.open ==> 0 <= h < fds.next)
    && (Holding(r.pc) ==> r.audioFd in fds.open)
  }

  predicate SessionInvariant(pc: RtspPc, r: Receiver, session: Session) {
    && (Starting(pc) || pc.ToneCheck? || pc.ToneClear? || pc.ToneWait? || pc.StartCheck? ==>
          session.haveKey && session.fmtp && !session.phase.Recording?)
    && (session.phase.Recording? ==> session.haveKey && session.fmtp)
    && (session.phase.Recording? && (pc.Ready? || pc.StopCheck? || pc.StopClear?) ==> Active(r.pc) && r.run)
  }

  predicate Invariant(s: State) {
    && SlotInvariant(s.slot, s.pc, s.rx.pc, s.tone)
    && TaskInvariant(s.pc, s.rx)
    && ResourceInvariant(s.pc, s.rx, s.session.sockets)
    && SocketInvariant(s.rx, s.session.sockets, s.fds)
    && SessionInvariant(s.pc, s.rx, s.session)
  }

  /** The receiver's audio socket stays open as long as the handles stay as they are. */
  lemma AudioSocketKept(r: Receiver, r': Receiver, sockets: Sockets, fds: Fds)
    requires SocketInvariant(r, sockets, fds)
    requires Holding(r'.pc) ==>
      r'.audioFd == r.audioFd && (Holding(r.pc) || (r.audioFd == sockets.audio && sockets.audio >= 0))
    ensures SocketInvariant(r', sockets, fds)
  {
  }

  lemma BindKeeps(s: State, audio: bool, control: bool, timing: bool)
    requires SocketInvariant(s.rx, s.session.sockets, s.fds)
    ensures var s' := BindAll(s, audio, control, timing);
            SocketInvariant(s'.rx, s'.session.sockets, s'.fds)
  {
    var f := s.fds.next;
    assert f !in s.fds.open && f + 1 !in s.fds.open && f + 2 !in s.fds.open;
  }

  lemma HandleKeeps(s: State, req: Request)
    requires Invariant(s) && s.pc.Ready?
    ensures Invariant(HandleRequest(s, req))
  {
    if req.Setup? {
      BindKeeps(s, req.audio, req.control, req.timing);
    }
    hide SocketInvariant, Handles;
  }

  lemma ToneStopKeeps(s: State, ok: bool)
    requires Invariant(s) && (s.pc.ToneCheck? || s.pc.ToneClear? || s.pc.ToneWait?)
    ensures Invariant(RtspNext(s, ok))
  {
    hide SocketInvariant, Handles;
  }

  lemma StartKeeps(s: State, ok: bool)
    requires Invariant(s) && (s.pc.StartCheck? || s.pc.Build? || s.pc.ImportKey?)
    ensures Invariant(RtspNext(s, ok))
  {
    AudioSocketKept(s.rx, RtspNext(s, ok).rx, s.session.sockets, s.fds);
    hide SocketInvariant, Handles;
  }

  lemma AcquireKeeps(s: State, ok: bool)
    requires Invariant(s) && (s.pc.AllocSlots? || s.pc.Acquire? || s.pc.SetFlags?)
    ensures Invariant(RtspNext(s, ok))
  {
    AudioSocketKept(s.rx, RtspNext(s, ok).rx, s.session.sockets, s.fds);
    hide SocketInvariant, Handles;
  }

  lemma CreateKeeps(s: State, ok: bool)
    requires Invariant(s) && s.pc.Create?
    ensures Invariant(RtspNext(s, ok))
  {
    AudioSocketKept(s.rx, RtspNext(s, ok).rx, s.session.sockets, s.fds);
    hide SocketInvariant, Handles;
  }

  lemma StopKeeps(s: State, ok: bool)
    requires Invariant(s) && (s.pc.StopCheck? || s.pc.StopClear? || s.pc.StopWait? || s.pc.Free?)
    ensures Invariant(RtspNext(s, ok))
  {
    AudioSocketKept(s.rx, RtspNext(s, ok).rx, s.session.sockets, s.fds);
    hide SocketInvariant, Handles;
  }

  lemma ResetKeeps(s: State, ok: bool)
    requires Invariant(s) && s.pc.Reset?
    ensures Invariant(RtspNext(s, ok))
  {
  }

  lemma RtspKeeps(s: State, ok: bool)
    requires Invariant(s)
    ensures Invariant(RtspNext(s, ok))
  {
    if s.pc.ToneCheck? || s.pc.ToneClear? || s.pc.ToneWait? {
      ToneStopKeeps(s, ok);
    } else if s.pc.StartCheck? || s.pc.Build? || s.pc.ImportKey? {
      StartKeeps(s, ok);
    } else if s.pc.AllocSlots? || s.pc.Acquire? || s.pc.SetFlags? {
      AcquireKeeps(s, ok);
    } else if s.pc.Create? {
      CreateKeeps(s, ok);
    } else if s.pc.Reset? {
      ResetKeeps(s, ok);
    } else if !s.pc.Ready? {
      StopKeeps(s, ok);
    }
    hide Invariant;
  }

  lemma RtpKeeps(s: State)
    requires Invariant(s)
    ensures Invariant(RtpNext(s))
  {
    AudioSocketKept(s.rx, RtpNext(s).rx, s.session.sockets, s.fds);
    hide SocketInvariant, Handles;
  }

  lemma ToneKeeps(s: State, a: Action)
    requires Invariant(s) && (a.ToneStep? || a.ToneEnd? || a.StartTone? || a.StarterStep?)
    ensures Invariant(Step(s, a))
  {
    hide TaskInvariant, ResourceInvariant, SocketInvariant, SessionInvariant;
  }

  lemma StepKeeps(s: State, a: Action)
    requires Invariant(s)
    ensures Invariant(Step(s, a))
  {
    if a.Handle? {
      if s.pc.Ready? {
        HandleKeeps(s, a.req);
      }
    } else if a.RtspStep? {
      RtspKeeps(s, a.ok);
    } else if a.RtpStep? {
      RtpKeeps(s);
    } else {
      ToneKeeps(s, a);
    }
    hide Invariant, HandleRequest, RtspNext, RtpNext;
  }

  lemma {:induction false} RunKeeps(acts: seq<Action>)
    ensures Invariant(Run(acts))
  {
    if acts == [] {
    } else {
      RunKeeps(acts[..|acts| - 1]);
      StepKeeps(Run(acts[..|acts| - 1]), acts[|acts| - 1]);
      hide Invariant, Step;
    }
  }

  // ----- what it means -----

  /** In every interleaving at most one task can be writing PCM, and what the RTP task works with is
      live: decoder, key and slots, and its audio socket is still open. */
  lemma HandoffIsSafe(acts: seq<Action>)
    ensures var s := Run(acts);
            && !(Active(s.rx.pc) && Active(s.tone.pc))
            && (Active(s.rx.pc) ==> s.slot == Slot(true, RtpOwner))
            && (Active(s.tone.pc) ==> s.slot == Slot(true, ToneOwner))
            && (Active(s.rx.pc) ==> s.rx.decoder && s.rx.key && s.rx.slots && s.rx.audioFd in s.fds.open)
  {
    RunKeeps(acts);
    hide Run;
  }

  /** While the server is between requests, a recording session has its key and format, and its RTP
      task runs with the producer slot. */
  lemma RecordingIsStreaming(acts: seq<Action>)
    ensures var s := Run(acts);
            s.pc.Ready? && s.session.phase.Recording? ==>
              s.session.haveKey && s.session.fmtp && s.rx.task && s.rx.run && Active(s.rx.pc)
              && s.slot == Slot(true, RtpOwner)
  {
    RunKeeps(acts);
    hide Run;
  }

  /** Every teardown, however it interleaves, ends with the session idle and empty, the task joined,
      the slot not the RTP task's, its resources freed and the session's handles closed. */
  lemma TeardownEndsClean(acts: seq<Action>, ok: bool)
    requires Run(acts).pc.Reset?
    ensures var s, s' := Run(acts), Run(acts + [RtspStep(ok)]);
            && s'.pc.Ready? && s'.session == Session(SessionIdle, false, false, UNBOUND)
            && s'.rx.pc.Off? && !s'.rx.task && !s'.slot.owner.RtpOwner?
            && !s'.rx.decoder && !s'.rx.key && !s'.rx.slots
            && Handles(s.session.sockets) !! s'.fds.open && s'.fds.open == s'.fds.lost
  {
    RunKeeps(acts);
    assert (acts + [RtspStep(ok)])[..|acts|] == acts;
    assert Run(acts + [RtspStep(ok)]) == RtspNext(Run(acts), ok);
    hide Run;
  }

  /** A stop never waits in vain: as long as the done flag is down, the task it waits for has been
      told to end and can still take a step towards it. */
  lemma StopWaitsForAnEndingTask(acts: seq<Action>)
    ensures var s := Run(acts);
            s.pc.StopWait? && !s.rx.done ==> !s.rx.run && !s.rx.pc.Off? && RtpNext(s) != s
  {
    RunKeeps(acts);
    hide Run;
  }

  /** A task that has looked at its run flag works while it is up, and looks again; once it is down the task is
      on its way out. */
  lemma TasksWork(s: State)
    ensures s.rx.pc.Loop? ==> RtpNext(s).rx.pc == if s.rx.run then Work else Release
    ensures s.rx.pc.Work? ==> RtpNext(s).rx.pc.Loop?
    ensures s.tone.pc.Loop? ==> ToneNext(s).tone.pc == if s.tone.run then Work else Release
    ensures s.tone.pc.Work? ==> ToneNext(s).tone.pc.Loop?
  {
  }

  // ----- the tone stop -----

  /** A tone start resets the done flag while an earlier tone task has not set it yet. */
  predicate Overtakes(s: State, a: Action) {
    a.StarterStep? && s.tone.starter.ToneFlags? && s.tone.ending > 0
  }

  ghost predicate NoOvertaking(acts: seq<Action>) {
    forall i :: 0 <= i < |acts| ==> !Overtakes(Run(acts[..i]), acts[i])
  }

  /** The done flag speaks for every tone task there was. */
  predicate DoneIsCurrent(t: Tone) {
    && t.ending <= 1
    && (!t.pc.Off? || t.starter.ToneCreate? ==> t.ending == 0)
    && (t.done ==> t.pc.Off? && t.ending == 0 && !t.starter.ToneCreate?)
  }

  lemma {:induction false} DoneStaysCurrent(acts: seq<Action>)
    requires NoOvertaking(acts)
    ensures DoneIsCurrent(Run(acts).tone)
  {
    if acts == [] {
    } else {
      var before := acts[..|acts| - 1];
      assert NoOvertaking(before) by {
        forall i | 0 <= i < |before|
          ensures !Overtakes(Run(before[..i]), before[i])
        {
          assert before[..i] == acts[..i] && before[i] == acts[i];
        }
      }
      DoneStaysCurrent(before);
      RunKeeps(before);
      assert !Overtakes(Run(before), acts[|acts| - 1]);
      DoneStep(Run(before), acts[|acts| - 1]);
    }
  }

  lemma DoneStep(s: State, a: Action)
    requires Invariant(s) && DoneIsCurrent(s.tone) && !Overtakes(s, a)
    ensures DoneIsCurrent(Step(s, a).tone)
  {
    hide TaskInvariant, ResourceInvariant, SocketInvariant, SessionInvariant;
  }

  /** RECORD goes on to start streaming only when no tone task is left and the slot is not a tone's,
      except for a start that has just begun, as long as no tone start overtakes an ending tone. */
  lemma ToneStopJoins(acts: seq<Action>, ok: bool)
    requires NoOvertaking(acts) && Run(acts).pc.ToneWait?
    ensures var s := Run(acts);
            RtspNext(s, ok).pc.StartCheck? ==>
              s.tone.pc.Off? && s.tone.ending == 0 && (s.slot.owner.ToneOwner? ==> s.tone.starter.ToneFlags?)
  {
    RunKeeps(acts);
    DoneStaysCurrent(acts);
    hide Run, TaskInvariant, ResourceInvariant, SocketInvariant, SessionInvariant;
  }

  /** A tone start resets the done flag while the RTSP task is stopping a tone. */
  predicate Restarts(s: State, a: Action) {
    a.StarterStep? && s.tone.starter.ToneFlags? && (s.pc.ToneClear? || s.pc.ToneWait?)
  }

  ghost predicate NoRestarting(acts: seq<Action>) {
    forall i :: 0 <= i < |acts| ==> !Restarts(Run(acts[..i]), acts[i])
  }

  /** While a tone is being stopped there is a task that has yet to set the done flag, unless it is set. */
  predicate StopIsAwaited(pc: RtspPc, t: Tone) {
    && (pc.ToneClear? || pc.ToneWait? ==> !t.starter.ToneCreate? && (t.done || !t.pc.Off? || t.ending > 0))
    && (pc.ToneWait? && !t.done ==> !t.run)
  }

  lemma AwaitedStep(s: State, a: Action)
    requires Invariant(s) && StopIsAwaited(s.pc, s.tone) && !Restarts(s, a)
    ensures StopIsAwaited(Step(s, a).pc, Step(s, a).tone)
  {
    if a.Handle? || a.RtspStep? || a.RtpStep? {
      hide TaskInvariant, ResourceInvariant, SocketInvariant, SessionInvariant, SlotInvariant, Freed, Handles;
    } else {
      AwaitedToneStep(s, a);
    }
  }

  lemma AwaitedToneStep(s: State, a: Action)
    requires Invariant(s) && StopIsAwaited(s.pc, s.tone) && !Restarts(s, a)
    requires a.ToneStep? || a.ToneEnd? || a.StartTone? || a.StarterStep?
    ensures StopIsAwaited(Step(s, a).pc, Step(s, a).tone)
  {
    hide TaskInvariant, ResourceInvariant, SocketInvariant, SessionInvariant, RtspNext, RtpNext, HandleRequest;
  }

  lemma {:induction false} StopStaysAwaited(acts: seq<Action>)
    requires NoRestarting(acts)
    ensures StopIsAwaited(Run(acts).pc, Run(acts).tone)
  {
    if acts == [] {
    } else {
      var before := acts[..|acts| - 1];
      assert NoRestarting(before) by {
        forall i | 0 <= i < |before|
          ensures !Restarts(Run(before[..i]), before[i])
        {
          assert before[..i] == acts[..i] && before[i] == acts[i];
        }
      }
      StopStaysAwaited(before);
      RunKeeps(before);
      assert !Restarts(Run(before), acts[|acts| - 1]);
      AwaitedStep(Run(before), acts[|acts| - 1]);
    }
  }

  /** The RTSP task waits for a done flag that nothing will set: no tone task is ending, and the one there
      is has not been told to end, or there is none and none that has been is being created. */
  predicate Stuck(s: State) {
    && s.pc.ToneWait? && !s.tone.done && s.tone.ending == 0
    && ((Active(s.tone.pc) && s.tone.run) || (s.tone.pc.Off? && (s.tone.starter.ToneCreate? ==> s.tone.run)))
  }

  lemma StuckForEver(s: State, a: Action)
    requires Invariant(s) && Stuck(s)
    ensures Stuck(Step(s, a))
  {
    hide TaskInvariant, ResourceInvariant, SocketInvariant, SessionInvariant;
  }

  function RunFrom(s: State, acts: seq<Action>): State
    decreases |acts|
  {
    if acts == [] then s else RunFrom(Step(s, acts[0]), acts[1..])
  }

  lemma {:induction false} StuckRuns(s: State, acts: seq<Action>)
    requires Invariant(s) && Stuck(s)
    ensures RunFrom(s, acts).pc.ToneWait?
    decreases |acts|
  {
    if acts == [] {
    } else {
      hide Invariant, Step;
      StuckForEver(s, acts[0]);
      StepKeeps(s, acts[0]);
      StuckRuns(Step(s, acts[0]), acts[1..]);
    }
  }

  lemma OneMore(s: State, a: Action, acts: seq<Action>)
    ensures RunFrom(s, [a] + acts) == RunFrom(Step(s, a), acts)
  {
    hide Step;
    assert ([a] + acts)[1..] == acts;
  }

  /** Steps the tone still has to take before its done flag is set. */
  function StepsLeft(t: Tone): nat {
    match t.pc
    case Work => 4
    case Loop => 3
    case Release => 2
    case ClearHandle => 1
    case Off => if t.starter.ToneCreate? then 5 else 0
    case Publish => 0
  }

  /** A step towards the end of a wait that is not stuck. */
  lemma ToneTowardsEnd(s: State) returns (a: Action)
    requires Invariant(s) && s.pc.ToneWait? && !Stuck(s) && !s.tone.done && s.tone.ending == 0
    ensures var s' := Step(s, a);
      s'.pc.ToneWait? && !Stuck(s') && (s'.tone.done || s'.tone.ending > 0 || StepsLeft(s'.tone) < StepsLeft(s.tone))
  {
    hide TaskInvariant, ResourceInvariant, SocketInvariant, SessionInvariant;
    a := if s.tone.pc.Off? then StarterStep(true) else ToneStep;
  }

  /** A wait that is not stuck can end. */
  lemma WaitCanEnd(s: State) returns (acts: seq<Action>)
    requires Invariant(s) && s.pc.ToneWait? && !Stuck(s)
    ensures !RunFrom(s, acts).pc.ToneWait?
    decreases if s.tone.done then 0 else if s.tone.ending > 0 then 1 else 2 + StepsLeft(s.tone)
  {
    if s.tone.done {
      acts := [RtspStep(true)];
      OneMore(s, RtspStep(true), []);
    } else {
      var a: Action;
      if s.tone.ending > 0 {
        a := ToneEnd;
      } else {
        a := ToneTowardsEnd(s);
      }
      StepKeeps(s, a);
      hide Invariant, TaskInvariant, ResourceInvariant, SocketInvariant, SessionInvariant;
      var later := WaitCanEnd(Step(s, a));
      acts := [a] + later;
      OneMore(s, a, later);
    }
  }

  /** In every reachable state the tone stop has a way out of its wait if and only if it is not stuck. */
  lemma ToneStopProgresses(acts: seq<Action>)
    requires Run(acts).pc.ToneWait?
    ensures (exists more :: !RunFrom(Run(acts), more).pc.ToneWait?) <==> !Stuck(Run(acts))
  {
    var s := Run(acts);
    RunKeeps(acts);
    hide Run, Invariant, RunFrom;
    if Stuck(s) {
      forall more
        ensures RunFrom(s, more).pc.ToneWait?
      {
        StuckRuns(s, more);
      }
    } else {
      var more := WaitCanEnd(s);
    }
  }

  /** A step gets the stop stuck exactly when a start passes its flags in the wait with no tone ending, or the
      wait begins with no tone left and no creation under way, or the creation of a tone that has been told
      to end already fails. */
  lemma GetsStuckIff(s: State, a: Action)
    requires Invariant(s) && !Stuck(s)
    ensures Stuck(Step(s, a)) <==>
      || (s.pc.ToneWait? && s.tone.ending == 0 && s.tone.starter.ToneFlags? && a.StarterStep?)
      || (s.pc.ToneClear? && s.tone.ending == 0 && !s.tone.done && s.tone.pc.Off? && !s.tone.starter.ToneCreate?
          && a.RtspStep?)
      || (s.pc.ToneWait? && s.tone.ending == 0 && !s.tone.done && s.tone.starter.ToneCreate? && a == StarterStep(false))
  {
    hide TaskInvariant, ResourceInvariant, SocketInvariant, SessionInvariant;
  }

  /** As long as no tone start passes its flags while a tone is being stopped, the stop does not get stuck. */
  lemma NoStartNotStuck(acts: seq<Action>)
    requires NoRestarting(acts)
    ensures !Stuck(Run(acts))
    ensures var s := Run(acts);
            s.pc.ToneWait? && !s.tone.done ==> !s.tone.run && (Step(s, ToneStep) != s || Step(s, ToneEnd) != s)
  {
    RunKeeps(acts);
    StopStaysAwaited(acts);
    AwaitedNotStuck(Run(acts));
    hide *;
  }

  lemma AwaitedNotStuck(s: State)
    requires Invariant(s) && StopIsAwaited(s.pc, s.tone)
    ensures !Stuck(s)
    ensures s.pc.ToneWait? && !s.tone.done ==> !s.tone.run && (Step(s, ToneStep) != s || Step(s, ToneEnd) != s)
  {
    hide TaskInvariant, ResourceInvariant, SocketInvariant, SessionInvariant;
  }

  /** A start that passes its flags in the wait gets the stop stuck when no tone is ending, whether or not its
      task can be created. */
  lemma RestartHangs(acts: seq<Action>, ok: bool)
    requires var s := Run(acts); s.pc.ToneWait? && s.tone.starter.ToneFlags? && s.tone.ending == 0
    ensures var s' := Step(Run(acts), StarterStep(ok)); Stuck(s') && Stuck(Step(s', StarterStep(ok)))
  {
    RunKeeps(acts);
    hide Run, TaskInvariant, ResourceInvariant, SocketInvariant, SessionInvariant;
  }

  /** When a tone is ending, it lets the stop through beside the new tone. */
  lemma RestartLetsThrough(acts: seq<Action>)
    requires var s := Run(acts); s.pc.ToneWait? && s.tone.starter.ToneFlags? && s.tone.ending > 0
    ensures var s := RunFrom(Run(acts), [StarterStep(true), StarterStep(true), ToneEnd, RtspStep(true)]);
            s.pc.StartCheck? && Active(s.tone.pc) && s.tone.run && s.slot == Slot(true, ToneOwner)
  {
    var s := Run(acts);
    RunKeeps(acts);
    hide Run, TaskInvariant, ResourceInvariant, SocketInvariant, SessionInvariant, RunFrom;
    var s1 := Step(s, StarterStep(true));
    var s2 := Step(s1, StarterStep(true));
    var s3 := Step(s2, ToneEnd);
    FourSteps(s, StarterStep(true), StarterStep(true), ToneEnd, RtspStep(true));
  }

  lemma FourSteps(s: State, a: Action, b: Action, c: Action, d: Action)
    ensures RunFrom(s, [a, b, c, d]) == Step(Step(Step(Step(s, a), b), c), d)
  {
    assert [a, b, c, d] == [a] + ([b] + ([c] + ([d] + [])));
    OneMore(s, a, [b] + ([c] + ([d] + [])));
    OneMore(Step(s, a), b, [c] + ([d] + []));
    OneMore(Step(Step(s, a), b), c, [d] + []);
    OneMore(Step(Step(Step(s, a), b), c), d, []);
    hide Step;
  }

  // ----- sessions can be ended and begun -----

  /** A task's way out once it is told to end. */
  function TaskLeft(pc: TaskPc): nat {
    match pc
    case Work => 5
    case Loop => 4
    case Release => 3
    case ClearHandle => 2
    case Publish => 1
    case Off => 0
  }

  /** What is left of a stop: its own steps, and the RTP task's way out. */
  function StopLeft(s: State): nat {
    match s.pc
    case StopCheck => 11
    case StopClear => 10
    case StopWait =>
      if s.rx.done then 3 else 4 + TaskLeft(s.rx.pc)
    case Free => 2
    case Reset => 1
    case _ => 0
  }

  /** The session is as after the server's start, the RTP task is gone and no handle of the session is open. */
  predicate AtRest(s: State) {
    && s.pc.Ready? && s.session == Session(SessionIdle, false, false, Sockets(-1, -1, -1))
    && s.rx.pc.Off? && !s.rx.task && s.fds.open == s.fds.lost
  }

  lemma StopGoesOn(s: State) returns (a: Action)
    requires Invariant(s) && StopLeft(s) > 0
    ensures AtRest(Step(s, a)) || 0 < StopLeft(Step(s, a)) < StopLeft(s)
  {
    a := if s.pc.StopWait? && !s.rx.done then RtpStep else RtspStep(true);
    hide ResourceInvariant, SessionInvariant;
  }

  lemma StopCanEnd(s: State) returns (acts: seq<Action>)
    requires Invariant(s) && StopLeft(s) > 0
    ensures AtRest(RunFrom(s, acts))
    decreases StopLeft(s)
  {
    var a := StopGoesOn(s);
    StepKeeps(s, a);
    hide *;
    var later: seq<Action> := [];
    if AtRest(Step(s, a)) {
      RunNothing(Step(s, a));
    } else {
      later := StopCanEnd(Step(s, a));
    }
    acts := [a] + later;
    OneMore(s, a, later);
  }

  lemma RunNothing(s: State)
    ensures RunFrom(s, []) == s
  {
  }

  /** From every reachable state between requests a teardown can run to its end, and so does the idle timeout
      unless the session is recording, when it is ignored. */
  lemma TeardownCanEnd(acts: seq<Action>, req: Request)
    requires Run(acts).pc.Ready? && (req.Teardown? || req.IdleTimeout?)
    ensures var s := Run(acts);
      if req.IdleTimeout? && s.session.phase.Recording? then Step(s, Handle(req)) == s
      else exists more :: AtRest(RunFrom(s, [Handle(req)] + more))
  {
    var s := Run(acts);
    RunKeeps(acts);
    StepKeeps(s, Handle(req));
    if !(req.IdleTimeout? && s.session.phase.Recording?) {
      assert StopLeft(Step(s, Handle(req))) == 11;
      hide *;
      var more := StopCanEnd(Step(s, Handle(req)));
      OneMore(s, Handle(req), more);
    }
  }

  /** What is left of RECORD: stopping the tone, then starting the RTP task. */
  function StartLeft(s: State): nat {
    match s.pc
    case ToneCheck => 20
    case ToneClear => 19
    case ToneWait => 8 + (if s.tone.pc.Off? then (if s.tone.done then 0 else 1) else 2 + StepsLeft(s.tone))
    case StartCheck => 7
    case Build => 6
    case ImportKey => 5
    case AllocSlots => 4
    case Acquire => 3
    case SetFlags => 2
    case Create => 1
    case _ => 0
  }

  /** RECORD is under way with everything it needs, and no tone start interferes. */
  predicate GoingUp(s: State) {
    && Invariant(s) && s.tone.starter.Idle? && s.rx.pc.Off? && !s.rx.task
    && s.session.haveKey && s.session.fmtp && s.session.sockets.audio >= 0
    && match s.pc
       case ToneCheck => true
       case ToneClear => !s.tone.pc.Off?
       case ToneWait => !s.tone.run && (!s.tone.pc.Off? || s.tone.ending > 0 || s.tone.done)
       case StartCheck => s.tone.pc.Off?
       case _ => Starting(s.pc) && s.tone.pc.Off?
  }

  predicate Streaming(s: State) {
    && s.pc.Ready? && s.session.phase.Recording? && s.rx.task && s.rx.run && Active(s.rx.pc)
    && s.slot == Slot(true, RtpOwner)
  }

  lemma StartGoesOn(s: State) returns (a: Action)
    requires GoingUp(s)
    ensures Streaming(Step(s, a)) || (GoingUp(Step(s, a)) && StartLeft(Step(s, a)) < StartLeft(s))
  {
    if s.pc.ToneCheck? || s.pc.ToneClear? || s.pc.ToneWait? {
      a := ToneGoesOn(s);
    } else {
      a := RtpGoesOn(s);
    }
  }

  lemma ToneGoesOn(s: State) returns (a: Action)
    requires GoingUp(s) && (s.pc.ToneCheck? || s.pc.ToneClear? || s.pc.ToneWait?)
    ensures GoingUp(Step(s, a)) && StartLeft(Step(s, a)) < StartLeft(s)
  {
    a := if s.pc.ToneWait? && !s.tone.pc.Off? then ToneStep
         else if s.pc.ToneWait? && !s.tone.done then ToneEnd
         else RtspStep(true);
    StepKeeps(s, a);
    hide TaskInvariant, ResourceInvariant, SocketInvariant, SessionInvariant;
  }

  lemma RtpGoesOn(s: State) returns (a: Action)
    requires GoingUp(s) && !(s.pc.ToneCheck? || s.pc.ToneClear? || s.pc.ToneWait?)
    ensures Streaming(Step(s, a)) || (GoingUp(Step(s, a)) && StartLeft(Step(s, a)) < StartLeft(s))
  {
    a := RtspStep(true);
    StepKeeps(s, a);
    hide ResourceInvariant, SocketInvariant, Handles;
    if s.pc.Create? {
      hide SlotInvariant;
    } else {
      hide SessionInvariant, TaskInvariant;
    }
  }

  lemma StartCanEnd(s: State) returns (acts: seq<Action>)
    requires GoingUp(s)
    ensures Streaming(RunFrom(s, acts))
    decreases StartLeft(s)
  {
    hide *;
    var a := StartGoesOn(s);
    var later: seq<Action> := [];
    if Streaming(Step(s, a)) {
      RunNothing(Step(s, a));
    } else {
      later := StartCanEnd(Step(s, a));
    }
    acts := [a] + later;
    OneMore(s, a, later);
  }

  /** From every reachable state between requests without a stream and without a tone start under way, a
      session can be begun: with key and format announced, sockets bound and RECORD, even beside a running
      tone. */
  lemma SessionCanStream(acts: seq<Action>)
    requires var s := Run(acts); s.pc.Ready? && !s.rx.task && s.tone.starter.Idle?
    ensures exists more ::
      Streaming(RunFrom(Run(acts), [Handle(Announce(true, true, Given)), Handle(Setup(true, true, true)),
                                    Handle(Record)] + more))
  {
    var s := Run(acts);
    RunKeeps(acts);
    hide Run;
    var s3 := Asked(s);
    hide *;
    var more := StartCanEnd(s3);
    ThreeMore(s, Handle(Announce(true, true, Given)), Handle(Setup(true, true, true)), Handle(Record), more);
  }

  lemma Asked(s: State) returns (s3: State)
    requires Invariant(s) && s.pc.Ready? && !s.rx.task && s.tone.starter.Idle?
    ensures s3 == Step(Step(Step(s, Handle(Announce(true, true, Given))), Handle(Setup(true, true, true))),
                       Handle(Record))
    ensures GoingUp(s3)
  {
    var s1 := Step(s, Handle(Announce(true, true, Given)));
    var s2 := Step(s1, Handle(Setup(true, true, true)));
    s3 := Step(s2, Handle(Record));
    StepKeeps(s, Handle(Announce(true, true, Given)));
    StepKeeps(s1, Handle(Setup(true, true, true)));
    StepKeeps(s2, Handle(Record));
    hide ResourceInvariant, SocketInvariant, SessionInvariant;
  }

  lemma ThreeMore(s: State, a: Action, b: Action, c: Action, acts: seq<Action>)
    ensures RunFrom(s, [a, b, c] + acts) == RunFrom(Step(Step(Step(s, a), b), c), acts)
  {
    assert [a, b, c] + acts == [a] + ([b] + ([c] + acts));
    OneMore(s, a, [b] + ([c] + acts));
    OneMore(Step(s, a), b, [c] + acts);
    OneMore(Step(Step(s, a), b), c, acts);
    hide Step, RunFrom;
  }

  /** After an ANNOUNCE a RECORD begins exactly when the announcement had a key and there is a format, its own or,
      if it named none, an earlier one. */
  lemma RecordBeginsIff(s: State, hasIv: bool, format: Format)
    requires s.pc.Ready?
    ensures Step(Step(s, Handle(Announce(true, hasIv, format))), Handle(Record)).pc.ToneCheck?
            <==> hasIv && (format.Given? || (format.Missing? && s.session.fmtp))
  {
  }

  /** A SETUP binds three handles nobody had, or leaves the session without any and every handle as it was. */
  lemma SetupExactly(s: State, audio: bool, control: bool, timing: bool)
    requires Invariant(s) && s.pc.Ready?
    ensures var s' := Step(s, Handle(Setup(audio, control, timing)));
      var Sockets(a, c, t) := s'.session.sockets;
      if audio && control && timing then
        && s'.session.phase.SetUp? && a >= 0 && c >= 0 && t >= 0 && a != c && c != t && a != t
        && {a, c, t} !! s.fds.open && s'.fds.open == s.fds.open + {a, c, t}
      else a == c == t == -1 && s'.session.phase == s.session.phase && s'.fds.open == s.fds.open
  {
  }

  /** Requests that are refused, or not for the session, change nothing. */
  lemma OthersChangeNothing(s: State, req: Request)
    requires req.Other? || (req.Announce? && !req.ok) || !s.pc.Ready?
          || (req.Record? && (s.session.phase.Recording? || !s.session.haveKey || !s.session.fmtp))
    ensures Step(s, Handle(req)) == s
  {
  }

  lemma Then(acts: seq<Action>, a: Action) returns (longer: seq<Action>)
    ensures Run(longer) == Step(Run(acts), a)
    ensures NoOvertaking(acts) && !Overtakes(Run(acts), a) ==> NoOvertaking(longer)
  {
    longer := acts + [a];
    assert longer[..|acts|] == acts;
    forall i | 0 <= i < |longer| && NoOvertaking(acts) && !Overtakes(Run(acts), a)
      ensures !Overtakes(Run(longer[..i]), longer[i])
    {
      if i < |acts| {
        assert longer[..i] == acts[..i] && longer[i] == acts[i];
      }
    }
  }

  lemma ToneStarts(acts: seq<Action>) returns (longer: seq<Action>)
    requires var s := Run(acts); s.tone.starter.Idle? && s.tone.pc.Off? && !s.tone.task && s.slot == VACANT
    ensures var s := Run(acts);
      Run(longer) == s.(slot := Slot(true, ToneOwner), tone := Tone(true, true, false, Loop, s.tone.ending, Idle))
    ensures NoOvertaking(acts) && Run(acts).tone.ending == 0 ==> NoOvertaking(longer)
  {
    hide Run, NoOvertaking;
    longer := Then(acts, StartTone);
    longer := Then(longer, StarterStep(true));
    longer := Then(longer, StarterStep(true));
    longer := Then(longer, StarterStep(true));
  }

  lemma RecordStopsTone(acts: seq<Action>) returns (longer: seq<Action>)
    requires var s := Run(acts); s.pc.Ready? && !s.session.phase.Recording? && s.tone.task
    ensures var s := Run(longer); s.pc.ToneWait? && s.tone == Run(acts).tone.(run := false) && s.slot == Run(acts).slot
    ensures NoOvertaking(acts) ==> NoOvertaking(longer)
  {
    hide Run, NoOvertaking;
    longer := Then(acts, Handle(Announce(true, true, Given)));
    longer := Then(longer, Handle(Record));
    longer := Then(longer, RtspStep(true));
    longer := Then(longer, RtspStep(true));
  }

  /** A tone told to end gives the slot back and its handle, and has its done flag left to set. */
  lemma ToneRunsOut(acts: seq<Action>) returns (longer: seq<Action>)
    requires Run(acts).tone.pc.Loop? && !Run(acts).tone.run
    ensures var s := Run(acts);
      Run(longer) == s.(slot := VACANT, tone := s.tone.(task := false, pc := Off, ending := s.tone.ending + 1))
    ensures NoOvertaking(acts) ==> NoOvertaking(longer)
  {
    hide Run, NoOvertaking;
    longer := Then(acts, ToneStep);
    longer := Then(longer, ToneStep);
    longer := Then(longer, ToneStep);
  }

  /** With overtaking the stop can be let through by the done flag of the wrong task, while a new tone
      task is running. */
  lemma OvertakenStop() returns (acts: seq<Action>)
    ensures var s := Run(acts);
            s.pc.ToneWait? && RtspNext(s, true).pc.StartCheck? && Active(s.tone.pc) && s.slot == Slot(true, ToneOwner)
  {
    assert Run([]) == INITIAL;
    hide Run, NoOvertaking;
    acts := ToneStarts([]);
    acts := RecordStopsTone(acts);
    acts := ToneRunsOut(acts);
    acts := ToneStarts(acts);
    acts := Then(acts, ToneEnd);
  }

  /** It happens without overtaking: the tone ends and sets its flag, and before the stop looks again a start
      clears it. The stop then waits for ever. */
  lemma HangingStop() returns (acts: seq<Action>)
    ensures NoOvertaking(acts) && Stuck(Run(acts)) && Active(Run(acts).tone.pc)
  {
    assert Run([]) == INITIAL && NoOvertaking([]);
    hide Run, NoOvertaking;
    acts := ToneStarts([]);
    acts := RecordStopsTone(acts);
    acts := ToneRunsOut(acts);
    acts := Then(acts, ToneEnd);
    acts := ToneStarts(acts);
  }

  /** A handle is lost exactly by a SETUP that finds the session's sockets bound. */
  lemma LossIff(acts: seq<Action>, a: Action)
    ensures var s := Run(acts);
            Step(s, a).fds.lost != s.fds.lost
            <==> s.pc.Ready? && a.Handle? && a.req.Setup? && s.session.sockets != UNBOUND
  {
    RunKeeps(acts);
    hide Run;
    var s := Run(acts);
    if s.session.sockets != UNBOUND {
      assert s.session.sockets.audio in Handles(s.session.sockets);
    }
  }
}
