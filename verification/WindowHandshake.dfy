/** The start/stop handshake of vie_autotest_win.cc: CreateWindows, TerminateWindows and the event thread's EventLoop as
    steps of three threads over one critical section. A schedule decides whose step comes next; window creation, message
    pumping and Sleep are steps that do nothing else. */
module WindowHandshake {

  datatype Thread = Creator | Terminator | Events

  /** A Win32 critical section: the thread inside may enter again. */
  datatype Lock = Free | Held(owner: Thread, depth: nat)

  /** CreateWindows: Start; then Enter, test, Leave and Sleep until the test holds; Leave and return. */
  datatype CreatePc = CStart | CEnter | CTest | CLeave | CSleep | CLeaveLast | CReturned

  /** TerminateWindows: SetNotAlive, set the flag, Stop; if that succeeds Enter, delete the thread, Leave; return. */
  datatype TerminatePc = TNotAlive | TSetFlag | TStop | TEnter | TDelete | TLeave | TReturned

  /** The event thread: not yet started, the statements of EventLoop, ended. */
  datatype EventPc =
    | ENotStarted | EEnter | ECreate1 | ECreate2 | EPublish1 | EPublish2
    | ETest | EPeek | ELeave | ESleep | EReenter
    | EDestroy1 | EDestroy2 | ELeaveLast | EDone

  /** `make1` and `make2` are the handles the system will give for the two windows, 0 when it creates none; `alive1`
      and `alive2` say whether the windows exist. The other four are the manager's fields. */
  datatype Windows = Windows(
    make1: nat, make2: nat, hwnd1: nat, hwnd2: nat, window1: nat, window2: nat, alive1: bool, alive2: bool)

  /** `peeks` counts the rounds of the message loop begun after the flag was set. `fault` records a Leave by a thread
      that is not inside. */
  datatype State = State(
    lock: Lock, create: CreatePc, stop: TerminatePc, event: EventPc, w: Windows,
    terminate: bool, deleted: bool, peeks: nat, fault: bool)

  function Init(make1: nat, make2: nat): State {
    State(Free, CStart, TNotAlive, ENotStarted, Windows(make1, make2, 0, 0, 0, 0, false, false),
          false, false, 0, false)
  }

  // ----- Steps -----

  predicate CanEnter(s: State, t: Thread) {
    s.lock == Free || s.lock.owner == t
  }

  function Enter(s: State, t: Thread): State {
    s.(lock := if s.lock.Held? then Held(t, s.lock.depth + 1) else Held(t, 1))
  }

  function Leave(s: State, t: Thread): State {
    if s.lock.Held? && s.lock.owner == t then s.(lock := if s.lock.depth <= 1 then Free else Held(t, s.lock.depth - 1))
    else s.(fault := true)
  }

  predicate CanCreate(s: State) {
    match s.create
    case CEnter => CanEnter(s, Creator)
    case CReturned => false
    case _ => true
  }

  function CreateStep(s: State): State {
    match s.create
    case CStart => s.(create := CEnter, event := EEnter)
    case CEnter => Enter(s, Creator).(create := CTest)
    case CTest => s.(create := if s.w.window1 != 0 then CLeaveLast else CLeave)
    case CLeave => Leave(s, Creator).(create := CSleep)
    case CSleep => s.(create := CEnter)
    case CLeaveLast => Leave(s, Creator).(create := CReturned)
    case CReturned => s
  }

  /** TerminateWindows may begin once the thread it stops has been started; Stop waits for the thread's end. */
  predicate CanStop(s: State) {
    match s.stop
    case TNotAlive => s.create != CStart
    case TStop => s.event == EDone
    case TEnter => CanEnter(s, Terminator)
    case TReturned => false
    case _ => true
  }

  function StopStep(s: State): State {
    match s.stop
    case TNotAlive => s.(stop := TSetFlag)
    case TSetFlag => s.(stop := TStop, terminate := true)
    case TStop => s.(stop := TEnter)
    case TEnter => Enter(s, Terminator).(stop := TDelete)
    case TDelete => s.(stop := TLeave, deleted := true)
    case TLeave => Leave(s, Terminator).(stop := TReturned)
    case TReturned => s
  }

  predicate CanRun(s: State) {
    match s.event
    case EEnter => CanEnter(s, Events)
    case EReenter => CanEnter(s, Events)
    case ENotStarted => false
    case EDone => false
    case _ => true
  }

  function EventStep(s: State): State {
    match s.event
    case EEnter => Enter(s, Events).(event := ECreate1)
    case ECreate1 => s.(event := ECreate2, w := s.w.(hwnd1 := s.w.make1, alive1 := s.w.make1 != 0))
    case ECreate2 => s.(event := EPublish1, w := s.w.(hwnd2 := s.w.make2, alive2 := s.w.make2 != 0))
    case EPublish1 => s.(event := EPublish2, w := s.w.(window1 := s.w.hwnd1))
    case EPublish2 => s.(event := ETest, w := s.w.(window2 := s.w.hwnd2))
    case ETest => if s.terminate then s.(event := EDestroy1) else s.(event := EPeek)
    case EPeek => s.(event := ELeave, peeks := if s.terminate then s.peeks + 1 else s.peeks)
    case ELeave => Leave(s, Events).(event := ESleep)
    case ESleep => s.(event := EReenter)
    case EReenter => Enter(s, Events).(event := ETest)
    case EDestroy1 => s.(event := EDestroy2, w := s.w.(alive1 := false))
    case EDestroy2 => s.(event := ELeaveLast, w := s.w.(alive2 := false))
    case ELeaveLast => Leave(s, Events).(event := EDone)
    case _ => s
  }

  /** Whose step comes next; GiveUp is ThreadWindows::Stop timing out after two seconds. */
  datatype Move = Step(t: Thread) | GiveUp

  predicate Enabled(s: State, m: Move) {
    match m
    case GiveUp => s.stop == TStop
    case Step(t) =>
      match t
      case Creator => CanCreate(s)
      case Terminator => CanStop(s)
      case Events => CanRun(s)
  }

  function Next(s: State, m: Move): State {
    match m
    case GiveUp => s.(stop := TReturned)
    case Step(t) =>
      match t
      case Creator => CreateStep(s)
      case Terminator => StopStep(s)
      case Events => EventStep(s)
  }

  predicate IsRun(s: State, moves: seq<Move>)
    decreases |moves|
  {
    moves == [] || (Enabled(s, moves[0]) && IsRun(Next(s, moves[0]), moves[1..]))
  }

  function After(s: State, moves: seq<Move>): State
    decreases |moves|
  {
    if moves == [] then s else After(Next(s, moves[0]), moves[1..])
  }

  // ----- What every reachable state keeps -----

  predicate Inside(s: State, t: Thread) {
    match t
    case Creator => s.create.CTest? || s.create.CLeave? || s.create.CLeaveLast?
    case Terminator => s.stop.TDelete? || s.stop.TLeave?
    case Events => !(s.event.ENotStarted? || s.event.EEnter? || s.event.ESleep? || s.event.EReenter? || s.event.EDone?)
  }

  /** The lock has at most one holder, which is inside once, and is the one thread between its Enter and its Leave. */
  predicate LockInv(s: State) {
    && !s.fault
    && (Inside(s, Creator) <==> s.lock == Held(Creator, 1))
    && (Inside(s, Terminator) <==> s.lock == Held(Terminator, 1))
    && (Inside(s, Events) <==> s.lock == Held(Events, 1))
    && (s.lock.Held? ==> s.lock.depth == 1)
  }

  /** How far EventLoop has come. */
  function Progress(e: EventPc): nat {
    match e
    case ENotStarted => 0
    case EEnter => 1
    case ECreate1 => 2
    case ECreate2 => 3
    case EPublish1 => 4
    case EPublish2 => 5
    case EDestroy1 => 7
    case EDestroy2 => 8
    case ELeaveLast => 9
    case EDone => 10
    case _ => 6
  }

  /** The windows and their handles are as far as EventLoop has come. */
  predicate WindowsAt(w: Windows, p: nat) {
    && (p >= 3 ==> w.hwnd1 == w.make1)
    && (p >= 4 ==> w.hwnd2 == w.make2)
    && w.window1 == (if p >= 5 then w.make1 else 0)
    && w.window2 == (if p >= 6 then w.make2 else 0)
    && (w.alive1 <==> w.make1 != 0 && 3 <= p <= 7)
    && (w.alive2 <==> w.make2 != 0 && 4 <= p <= 8)
  }

  predicate WindowInv(s: State) {
    var p := Progress(s.event);
    && (s.create.CStart? <==> p == 0)
    && WindowsAt(s.w, p)
    && (s.create.CLeaveLast? || s.create.CReturned? ==> p >= 6 && s.w.make1 != 0)
  }

  predicate StopInv(s: State) {
    && (s.terminate <==> !s.stop.TNotAlive? && !s.stop.TSetFlag?)
    && (!s.stop.TNotAlive? ==> !s.create.CStart?)
    && (Progress(s.event) >= 7 ==> s.terminate)
    && (s.stop.TEnter? || s.stop.TDelete? || s.stop.TLeave? || s.deleted ==> s.event.EDone?)
    && s.peeks <= (if s.terminate && !s.event.EPeek? then 1 else 0)
  }

  predicate Inv(s: State) {
    LockInv(s) && WindowInv(s) && StopInv(s)
  }

  lemma InitInv(make1: nat, make2: nat)
    ensures Inv(Init(make1, make2))
  {
  }

  lemma CreateKeepsLock(s: State)
    requires Inv(s) && CanCreate(s)
    ensures LockInv(CreateStep(s))
  {
  }

  lemma CreateKeepsWindows(s: State)
    requires Inv(s) && CanCreate(s)
    ensures WindowInv(CreateStep(s))
  {
    assert s.create.CTest? ==> !Inside(s, Events);
  }

  lemma CreateKeepsStop(s: State)
    requires Inv(s) && CanCreate(s)
    ensures StopInv(CreateStep(s))
  {
  }

  lemma StopKeepsLock(s: State)
    requires Inv(s) && CanStop(s)
    ensures LockInv(StopStep(s))
  {
  }

  lemma StopKeepsRest(s: State)
    requires WindowInv(s) && StopInv(s) && CanStop(s)
    ensures WindowInv(StopStep(s)) && StopInv(StopStep(s))
  {
  }

  lemma EventKeepsLock(s: State)
    requires Inv(s) && CanRun(s)
    ensures LockInv(EventStep(s))
  {
  }

  lemma EventKeepsWindows(s: State)
    requires Inv(s) && CanRun(s)
    ensures WindowInv(EventStep(s))
  {
  }

  lemma EventKeepsStop(s: State)
    requires Inv(s) && CanRun(s)
    ensures StopInv(EventStep(s))
  {
  }

  lemma NextInv(s: State, m: Move)
    requires Inv(s) && Enabled(s, m)
    ensures Inv(Next(s, m))
  {
    match m
    case GiveUp =>
    case Step(t) =>
      match t
      case Creator =>
        CreateKeepsLock(s);
        CreateKeepsWindows(s);
        CreateKeepsStop(s);
      case Terminator =>
        StopKeepsLock(s);
        StopKeepsRest(s);
      case Events =>
        EventKeepsLock(s);
        EventKeepsWindows(s);
        EventKeepsStop(s);
  }

  lemma {:induction false} RunInv(s: State, moves: seq<Move>)
    requires Inv(s) && IsRun(s, moves)
    ensures Inv(After(s, moves))
    decreases |moves|
  {
    if moves != [] {
      NextInv(s, moves[0]);
      RunInv(Next(s, moves[0]), moves[1..]);
    }
  }

  // ----- Safety of every run -----

  /** When CreateWindows returns, the event thread has published both handles, and the first window exists; the windows
      have not been destroyed unless TerminateWindows has already set its flag. */
  lemma CreateReturnsPublished(make1: nat, make2: nat, moves: seq<Move>)
    requires IsRun(Init(make1, make2), moves)
    ensures var s := After(Init(make1, make2), moves);
            s.create == CReturned ==>
              && s.w.window1 == make1 != 0 && s.w.window2 == make2
              && (!s.terminate ==> s.w.alive1 && (s.w.alive2 <==> make2 != 0))
  {
    KeepsHandles(Init(make1, make2), moves);
    InitInv(make1, make2);
    RunInv(Init(make1, make2), moves);
  }

  lemma StepKeepsHandles(s: State, m: Move)
    ensures Next(s, m).w.make1 == s.w.make1 && Next(s, m).w.make2 == s.w.make2
  {
    EventKeepsHandles(s);
    assert CreateStep(s).w == s.w;
    assert StopStep(s).w == s.w;
  }

  lemma EventKeepsHandles(s: State)
    ensures EventStep(s).w.make1 == s.w.make1 && EventStep(s).w.make2 == s.w.make2
  {
    match s.event
    case ECreate1 =>
    case ECreate2 =>
    case EPublish1 =>
    case EPublish2 =>
    case EDestroy1 =>
    case EDestroy2 =>
    case _ => assert EventStep(s).w == s.w;
  }

  lemma {:induction false} KeepsHandles(s: State, moves: seq<Move>)
    requires IsRun(s, moves)
    ensures After(s, moves).w.make1 == s.w.make1 && After(s, moves).w.make2 == s.w.make2
    decreases |moves|
  {
    if moves != [] {
      StepKeepsHandles(s, moves[0]);
      KeepsHandles(Next(s, moves[0]), moves[1..]);
    }
  }

  /** No schedule makes a thread leave a critical section it is not in, or puts two threads inside; and whenever all
      three are outside, the lock is free: each Enter has had its Leave. */
  lemma LockDiscipline(make1: nat, make2: nat, moves: seq<Move>)
    requires IsRun(Init(make1, make2), moves)
    ensures var s := After(Init(make1, make2), moves);
            && !s.fault
            && (forall t, u: Thread :: Inside(s, t) && Inside(s, u) ==> t == u)
            && ((forall t: Thread :: !Inside(s, t)) <==> s.lock == Free)
  {
    InitInv(make1, make2);
    RunInv(Init(make1, make2), moves);
    var s := After(Init(make1, make2), moves);
    if s.lock.Held? {
      assert Inside(s, s.lock.owner);
    }
  }

  /** The thread object is deleted only after the event thread has ended, with both windows gone. */
  lemma DeletedOnlyWhenDone(make1: nat, make2: nat, moves: seq<Move>)
    requires IsRun(Init(make1, make2), moves)
    ensures var s := After(Init(make1, make2), moves);
            s.deleted ==> s.event == EDone && !s.w.alive1 && !s.w.alive2
  {
    InitInv(make1, make2);
    RunInv(Init(make1, make2), moves);
  }

  // ----- Rounds -----

  /** How often the event thread has taken a step from this place. */
  function EventVisits(s: State, moves: seq<Move>, e: EventPc): nat
    decreases |moves|
  {
    if moves == [] then 0
    else (if moves[0] == Step(Events) && s.event == e then 1 else 0) + EventVisits(Next(s, moves[0]), moves[1..], e)
  }

  function CreateVisits(s: State, moves: seq<Move>, c: CreatePc): nat
    decreases |moves|
  {
    if moves == [] then 0
    else (if moves[0] == Step(Creator) && s.create == c then 1 else 0) + CreateVisits(Next(s, moves[0]), moves[1..], c)
  }

  /** 1 at this place, else 0. */
  function AtEvent(s: State, e: EventPc): nat {
    if s.event == e then 1 else 0
  }

  function AtCreate(s: State, c: CreatePc): nat {
    if s.create == c then 1 else 0
  }

  /** Whoever comes to one of these places has just been at the one before it. */
  lemma {:induction false} EventRounds(s: State, moves: seq<Move>)
    requires IsRun(s, moves) && (s.create == CStart <==> s.event == ENotStarted)
    ensures var n := After(s, moves);
            && EventVisits(s, moves, EPeek) + AtEvent(s, ELeave) == EventVisits(s, moves, ELeave) + AtEvent(n, ELeave)
            && EventVisits(s, moves, ELeave) + AtEvent(s, ESleep) == EventVisits(s, moves, ESleep) + AtEvent(n, ESleep)
            && EventVisits(s, moves, ESleep) + AtEvent(s, EReenter)
            == EventVisits(s, moves, EReenter) + AtEvent(n, EReenter)
    decreases |moves|
  {
    if moves != [] {
      EventRoundStep(s, moves[0]);
      EventRounds(Next(s, moves[0]), moves[1..]);
    }
  }

  /** One step: 1 for a step of the event thread itself. */
  predicate EventFlow(s: State, n: State, own: nat) {
    && own * AtEvent(s, EPeek) + AtEvent(s, ELeave) == own * AtEvent(s, ELeave) + AtEvent(n, ELeave)
    && own * AtEvent(s, ELeave) + AtEvent(s, ESleep) == own * AtEvent(s, ESleep) + AtEvent(n, ESleep)
    && own * AtEvent(s, ESleep) + AtEvent(s, EReenter) == own * AtEvent(s, EReenter) + AtEvent(n, EReenter)
  }

  lemma EventRoundStep(s: State, m: Move)
    requires Enabled(s, m) && (s.create == CStart <==> s.event == ENotStarted)
    ensures Next(s, m).create == CStart <==> Next(s, m).event == ENotStarted
    ensures EventFlow(s, Next(s, m), if m == Step(Events) then 1 else 0)
  {
    match m
    case GiveUp => NoEventFlow(s, Next(s, m));
    case Step(t) =>
      match t
      case Creator => EventWhileCreating(s);
      case Terminator => EventWhileStopping(s);
      case Events => EventOwnStep(s);
  }

  lemma NoEventFlow(s: State, n: State)
    requires n.event == s.event || (s.event == ENotStarted && n.event == EEnter)
    ensures EventFlow(s, n, 0)
  {
  }

  lemma EventWhileCreating(s: State)
    requires CanCreate(s) && (s.create == CStart <==> s.event == ENotStarted)
    ensures CreateStep(s).create == CStart <==> CreateStep(s).event == ENotStarted
    ensures EventFlow(s, CreateStep(s), 0)
  {
    assert s.create != CStart ==> CreateStep(s).event == s.event && CreateStep(s).create != CStart;
    NoEventFlow(s, CreateStep(s));
  }

  lemma EventWhileStopping(s: State)
    ensures StopStep(s).event == s.event && StopStep(s).create == s.create && EventFlow(s, StopStep(s), 0)
  {
    NoEventFlow(s, StopStep(s));
  }

  lemma EventOwnStep(s: State)
    requires CanRun(s)
    ensures EventStep(s).create == s.create && EventStep(s).event != ENotStarted && EventFlow(s, EventStep(s), 1)
  {
  }

  lemma {:induction false} CreateRounds(s: State, moves: seq<Move>)
    requires IsRun(s, moves)
    ensures var n := After(s, moves);
            && CreateVisits(s, moves, CEnter) + AtCreate(s, CTest) == CreateVisits(s, moves, CTest) + AtCreate(n, CTest)
            && CreateVisits(s, moves, CLeave) + AtCreate(s, CSleep)
            == CreateVisits(s, moves, CSleep) + AtCreate(n, CSleep)
            && CreateVisits(s, moves, CStart) + CreateVisits(s, moves, CSleep) + AtCreate(s, CEnter)
            == CreateVisits(s, moves, CEnter) + AtCreate(n, CEnter)
    decreases |moves|
  {
    if moves != [] {
      CreateRoundStep(s, moves[0]);
      CreateRounds(Next(s, moves[0]), moves[1..]);
    }
  }

  predicate CreateFlow(s: State, n: State, own: nat) {
    && own * AtCreate(s, CEnter) + AtCreate(s, CTest) == own * AtCreate(s, CTest) + AtCreate(n, CTest)
    && own * AtCreate(s, CLeave) + AtCreate(s, CSleep) == own * AtCreate(s, CSleep) + AtCreate(n, CSleep)
    && own * (AtCreate(s, CStart) + AtCreate(s, CSleep)) + AtCreate(s, CEnter)
    == own * AtCreate(s, CEnter) + AtCreate(n, CEnter)
  }

  lemma CreateRoundStep(s: State, m: Move)
    requires Enabled(s, m)
    ensures CreateFlow(s, Next(s, m), if m == Step(Creator) then 1 else 0)
  {
    match m
    case GiveUp =>
    case Step(t) =>
      match t
      case Creator => CreateOwnStep(s);
      case Terminator => assert StopStep(s).create == s.create;
      case Events => assert EventStep(s).create == s.create;
  }

  lemma CreateOwnStep(s: State)
    requires CanCreate(s)
    ensures CreateFlow(s, CreateStep(s), 1)
  {
  }

  /** In every run, each round of EventLoop pumps messages, leaves the section, sleeps and enters again, once each and
      in this order; and each round of CreateWindows enters, tests, leaves and sleeps. */
  lemma RoundsInOrder(make1: nat, make2: nat, moves: seq<Move>)
    requires IsRun(Init(make1, make2), moves)
    ensures var i := Init(make1, make2);
            var n := After(i, moves);
            && EventVisits(i, moves, EPeek) == EventVisits(i, moves, ELeave) + AtEvent(n, ELeave)
            && EventVisits(i, moves, ELeave) == EventVisits(i, moves, ESleep) + AtEvent(n, ESleep)
            && EventVisits(i, moves, ESleep) == EventVisits(i, moves, EReenter) + AtEvent(n, EReenter)
            && CreateVisits(i, moves, CEnter) == CreateVisits(i, moves, CTest) + AtCreate(n, CTest)
            && CreateVisits(i, moves, CLeave) == CreateVisits(i, moves, CSleep) + AtCreate(n, CSleep)
  {
    EventRounds(Init(make1, make2), moves);
    CreateRounds(Init(make1, make2), moves);
  }

  /** A section that can be entered is as it was once it has been left, however often its owner is inside. */
  lemma LeaveUndoesEnter(s: State, t: Thread)
    requires CanEnter(s, t) && (s.lock.Held? ==> s.lock.depth >= 1)
    ensures Leave(Enter(s, t), t) == s && Enter(s, t).lock.owner == t
  {
  }

  // ----- Stopping -----

  /** How many steps the event thread still has once the flag is set. */
  function StepsLeft(e: EventPc): nat {
    match e
    case EEnter => 9
    case ECreate1 => 8
    case ECreate2 => 7
    case EPublish1 => 6
    case EPublish2 => 5
    case EPeek => 8
    case ELeave => 7
    case ESleep => 6
    case EReenter => 5
    case ETest => 4
    case EDestroy1 => 3
    case EDestroy2 => 2
    case ELeaveLast => 1
    case _ => 0
  }

  function StepsOf(t: Thread, moves: seq<Move>): nat {
    if moves == [] then 0 else (if moves[0] == Step(t) then 1 else 0) + StepsOf(t, moves[1..])
  }

  /** Once the flag is set, the event thread takes at most nine more steps in any run, and pumps messages at most once
      more: it finishes the round it is in and starts none. */
  lemma {:induction false} AtMostOneMoreRound(s: State, moves: seq<Move>)
    requires Inv(s) && s.terminate && IsRun(s, moves)
    ensures StepsOf(Events, moves) + StepsLeft(After(s, moves).event) == StepsLeft(s.event) <= 9
    ensures After(s, moves).peeks <= 1
    decreases |moves|
  {
    if moves != [] {
      NextInv(s, moves[0]);
      StepTowardsEnd(s, moves[0]);
      AtMostOneMoreRound(Next(s, moves[0]), moves[1..]);
    }
  }

  lemma StepTowardsEnd(s: State, m: Move)
    requires s.terminate && s.create != CStart && Enabled(s, m)
    ensures Next(s, m).terminate
    ensures StepsLeft(s.event) == StepsLeft(Next(s, m).event) + if m == Step(Events) then 1 else 0
  {
    if m == Step(Events) {
      EventTowardsEnd(s);
    } else if m == Step(Creator) {
      assert CreateStep(s).event == s.event;
    }
  }

  lemma EventTowardsEnd(s: State)
    requires s.terminate && CanRun(s)
    ensures EventStep(s).terminate && StepsLeft(s.event) == StepsLeft(EventStep(s).event) + 1
  {
  }

  // ----- No deadlock -----

  /** Steps of the creator or the terminator until it gives up the lock it holds. */
  function HoldersSteps(s: State): nat {
    if s.create.CTest? || s.stop.TDelete? then 2
    else if s.create.CLeave? || s.create.CLeaveLast? || s.stop.TLeave? then 1
    else 0
  }

  function StopSteps(p: TerminatePc): nat {
    match p
    case TNotAlive => 6
    case TSetFlag => 5
    case TStop => 4
    case TEnter => 3
    case TDelete => 2
    case TLeave => 1
    case TReturned => 0
  }

  /** The move that brings TerminateWindows nearer to its end: its own if it can move, else one of the event thread it
      waits for, else one of the creator that holds the lock. */
  function StopMove(s: State): Move {
    if CanStop(s) then Step(Terminator) else if s.stop == TStop && CanRun(s) then Step(Events) else Step(Creator)
  }

  lemma StopMoveHelps(s: State)
    requires Inv(s) && s.create != CStart && s.stop != TReturned
    ensures Enabled(s, StopMove(s))
    ensures var n := Next(s, StopMove(s));
            || StopSteps(n.stop) < StopSteps(s.stop)
            || (n.stop == s.stop && s.terminate && StepsLeft(n.event) < StepsLeft(s.event))
            || (n.stop == s.stop && n.event == s.event && HoldersSteps(n) < HoldersSteps(s))
  {
  }

  /** Stop has not timed out: TerminateWindows leaves or has returned only with the thread deleted. */
  predicate StoppedProperly(s: State) {
    s.stop == TLeave || s.stop == TReturned ==> s.deleted
  }

  lemma {:induction false} RunStopsProperly(s: State, moves: seq<Move>)
    requires StoppedProperly(s) && IsRun(s, moves) && GiveUp !in moves
    ensures StoppedProperly(After(s, moves))
    decreases |moves|
  {
    if moves != [] {
      assert moves[0] != GiveUp;
      StepStopsProperly(s, moves[0]);
      RunStopsProperly(Next(s, moves[0]), moves[1..]);
    }
  }

  lemma StepStopsProperly(s: State, m: Move)
    requires StoppedProperly(s) && m != GiveUp
    ensures StoppedProperly(Next(s, m))
  {
    match m
    case Step(t) =>
      match t
      case Creator => assert CreateStep(s).stop == s.stop && CreateStep(s).deleted == s.deleted;
      case Terminator =>
      case Events => assert EventStep(s).stop == s.stop && EventStep(s).deleted == s.deleted;
  }

  /** Until Stop times out, each step of TerminateWindows brings it one nearer to its end, which is the sixth. */
  lemma {:induction false} SixSteps(s: State, moves: seq<Move>)
    requires IsRun(s, moves) && GiveUp !in moves
    ensures StepsOf(Terminator, moves) + StopSteps(After(s, moves).stop) == StopSteps(s.stop) <= 6
    decreases |moves|
  {
    if moves != [] {
      assert moves[0] != GiveUp;
      StopsNearer(s, moves[0]);
      SixSteps(Next(s, moves[0]), moves[1..]);
    }
  }

  lemma StopsNearer(s: State, m: Move)
    requires Enabled(s, m) && m != GiveUp
    ensures StopSteps(s.stop) == StopSteps(Next(s, m).stop) + if m == Step(Terminator) then 1 else 0
  {
    match m
    case Step(t) =>
      match t
      case Creator => assert CreateStep(s).stop == s.stop;
      case Terminator =>
      case Events => assert EventStep(s).stop == s.stop;
  }

  /** The thread is deleted only in the last steps of TerminateWindows. */
  predicate DeletedLate(s: State) {
    s.deleted ==> s.stop == TLeave || s.stop == TReturned
  }

  lemma StepKeepsLate(s: State, m: Move)
    requires DeletedLate(s)
    ensures DeletedLate(Next(s, m))
  {
    match m
    case GiveUp =>
    case Step(t) =>
      match t
      case Creator => assert CreateStep(s).stop == s.stop && CreateStep(s).deleted == s.deleted;
      case Terminator =>
      case Events => assert EventStep(s).stop == s.stop && EventStep(s).deleted == s.deleted;
  }

  lemma StepStaysReturned(s: State, m: Move)
    requires Enabled(s, m) && s.stop == TReturned
    ensures Next(s, m).stop == TReturned && Next(s, m).deleted == s.deleted
  {
    match m
    case GiveUp =>
    case Step(t) =>
      match t
      case Creator => assert CreateStep(s).stop == s.stop && CreateStep(s).deleted == s.deleted;
      case Terminator =>
      case Events => assert EventStep(s).stop == s.stop && EventStep(s).deleted == s.deleted;
  }

  lemma {:induction false} StaysReturned(s: State, moves: seq<Move>)
    requires IsRun(s, moves) && s.stop == TReturned
    ensures After(s, moves).stop == TReturned && After(s, moves).deleted == s.deleted
    decreases |moves|
  {
    if moves != [] {
      StepStaysReturned(s, moves[0]);
      StaysReturned(Next(s, moves[0]), moves[1..]);
    }
  }

  lemma {:induction false} GivenUpFrom(s: State, moves: seq<Move>)
    requires IsRun(s, moves) && GiveUp in moves && DeletedLate(s)
    ensures After(s, moves).stop == TReturned && !After(s, moves).deleted
    decreases |moves|
  {
    if moves[0] == GiveUp {
      StaysReturned(Next(s, moves[0]), moves[1..]);
    } else {
      StepKeepsLate(s, moves[0]);
      GivenUpFrom(Next(s, moves[0]), moves[1..]);
    }
  }

  /** When Stop has timed out, TerminateWindows has returned and the thread is never deleted. */
  lemma GivenUp(make1: nat, make2: nat, moves: seq<Move>)
    requires IsRun(Init(make1, make2), moves) && GiveUp in moves
    ensures var s := After(Init(make1, make2), moves);
            s.stop == TReturned && !s.deleted
  {
    GivenUpFrom(Init(make1, make2), moves);
  }

  lemma {:induction false} StopCanFinishFrom(s: State) returns (moves: seq<Move>)
    requires Inv(s) && s.create != CStart && StoppedProperly(s)
    ensures IsRun(s, moves) && GiveUp !in moves
    ensures After(s, moves).stop == TReturned && After(s, moves).event == EDone && After(s, moves).deleted
    decreases StopSteps(s.stop), StepsLeft(s.event), HoldersSteps(s)
  {
    if s.stop == TReturned {
      moves := [];
    } else {
      StopMoveHelps(s);
      var m := StopMove(s);
      NextInv(s, m);
      StepStopsProperly(s, m);
      var rest := StopCanFinishFrom(Next(s, m));
      moves := [m] + rest;
      assert moves[1..] == rest;
    }
  }

  /** Whatever run the three threads have made, as long as Stop has not timed out, TerminateWindows can still be brought
      to its end, with the event thread ended and deleted, without Stop timing out: the handshake never deadlocks. */
  lemma StopCanFinish(make1: nat, make2: nat, moves: seq<Move>) returns (more: seq<Move>)
    requires IsRun(Init(make1, make2), moves) && GiveUp !in moves
    ensures var s := After(Init(make1, make2), moves);
            && IsRun(s, more) && GiveUp !in more
            && After(s, more).stop == TReturned && After(s, more).event == EDone && After(s, more).deleted
  {
    var s := After(Init(make1, make2), moves);
    InitInv(make1, make2);
    RunInv(Init(make1, make2), moves);
    RunStopsProperly(Init(make1, make2), moves);
    if s.create == CStart {
      var start := Step(Creator);
      NextInv(s, start);
      StepStopsProperly(s, start);
      var rest := StopCanFinishFrom(Next(s, start));
      more := [start] + rest;
      assert more[1..] == rest;
    } else {
      more := StopCanFinishFrom(s);
    }
  }

  /** Rounds of CreateWindows to go once the windows are published. */
  function CreateSteps(p: CreatePc): nat {
    match p
    case CStart => 6
    case CLeave => 5
    case CSleep => 4
    case CEnter => 3
    case CTest => 2
    case CLeaveLast => 1
    case CReturned => 0
  }

  /** Steps of the event thread, or the terminator, until it gives up the lock it holds. */
  function ReleaseSteps(s: State): nat {
    match s.event
    case ETest => 4
    case EDestroy1 => 3
    case EPeek => 2
    case EDestroy2 => 2
    case ELeave => 1
    case ELeaveLast => 1
    case _ => HoldersSteps(s)
  }

  /** What CreateWindows still waits for: the handles, or its own turn. */
  function Unpublished(s: State): nat {
    if Progress(s.event) < 6 then 6 - Progress(s.event) else 0
  }

  function CreateMove(s: State): Move {
    if s.create != CStart && Unpublished(s) > 0 && CanRun(s) then Step(Events)
    else if CanCreate(s) then Step(Creator)
    else if s.lock.Held? then Step(s.lock.owner)
    else GiveUp
  }

  lemma CreateMoveHelps(s: State)
    requires Inv(s) && s.w.make1 != 0 && s.create != CReturned
    ensures Enabled(s, CreateMove(s))
    ensures var n := Next(s, CreateMove(s));
            || Unpublished(n) < Unpublished(s)
            || (Unpublished(n) == Unpublished(s) > 0 && HoldersSteps(n) < HoldersSteps(s))
            || (Unpublished(n) == Unpublished(s) == 0 && CreateSteps(n.create) < CreateSteps(s.create))
            || (Unpublished(n) == Unpublished(s) == 0 && n.create == s.create && ReleaseSteps(n) < ReleaseSteps(s))
  {
  }

  lemma {:induction false} CreateCanFinish(s: State) returns (moves: seq<Move>)
    requires Inv(s) && s.w.make1 != 0
    ensures IsRun(s, moves) && After(s, moves).create == CReturned
    decreases Unpublished(s), if Unpublished(s) > 0 then HoldersSteps(s) else CreateSteps(s.create), ReleaseSteps(s)
  {
    if s.create == CReturned {
      moves := [];
    } else {
      CreateMoveHelps(s);
      var m := CreateMove(s);
      NextInv(s, m);
      StepKeepsHandles(s, m);
      var rest := CreateCanFinish(Next(s, m));
      moves := [m] + rest;
      assert moves[1..] == rest;
    }
  }

  /** From any state a run has reached, CreateWindows can still be brought to return exactly when the system gives a
      first window; with none it polls for ever, whatever the schedule. */
  lemma CreateCanReturnExactly(make1: nat, make2: nat, moves: seq<Move>)
    requires IsRun(Init(make1, make2), moves)
    ensures var s := After(Init(make1, make2), moves);
            (exists more :: IsRun(s, more) && After(s, more).create == CReturned) <==> make1 != 0
  {
    var s := After(Init(make1, make2), moves);
    InitInv(make1, make2);
    RunInv(Init(make1, make2), moves);
    KeepsHandles(Init(make1, make2), moves);
    if make1 != 0 {
      var more := CreateCanFinish(s);
    }
    forall more | IsRun(s, more) && After(s, more).create == CReturned
      ensures make1 != 0
    {
      RunInv(s, more);
      KeepsHandles(s, more);
    }
  }
}
