/**
 * What comes of a call to the Agent: which session a start call that returns 0 has brought to life, which callback a
 * schedule call has queued, and that idle flags let a call through to a session that serves.
 */
module AgentProgress {
  import opened HeapModel
  import opened NonceHex
  import opened AgentFlags

  // ---------------------------------------------------------------- whose step it was

  /** An upper bound on the steps that an activity still has to make. */
  function StepsLeft(t: Activity): (n: nat)
    ensures n <= 5
  {
    match t
    case CallbackRunning(_) => 5
    case StartCalled(_, _, _) => 4
    case StartHolding(_, _, _) => 3
    case StartSpawning(_, _) => 2
    case StartReturned(_, _) => 1
    case ScheduleCalled(_, _) => 4
    case ScheduleHolding(_, _) => 3
    case ScheduleCopied(_, _) => 2
    case ScheduleDecoded(_, _) => 1
    case SessionConnecting(_, _) => 3
    case SessionServing(_, _, _) => 2
    case SessionClosing(_, _) => 1
    case Returned(_) => 0
  }

  predicate IsSchedule(t: Activity) {
    t.ScheduleCalled? || t.ScheduleHolding? || t.ScheduleCopied? || t.ScheduleDecoded?
  }

  /** A step of activity `k` brings it nearer to its end and leaves all others as they were. */
  ghost predicate Touches(acts: map<nat, Activity>, k: nat, acts': map<nat, Activity>)
    requires k in acts
  {
    && k in acts' && StepsLeft(acts'[k]) < StepsLeft(acts[k])
    && forall i | i in acts && i != k :: i in acts' && acts'[i] == acts[i]
  }

  lemma StartTouches(s: State, k: nat, s': State)
    requires k in s.acts && StartMoves(s, k, s')
    ensures Touches(s.acts, k, s'.acts)
  {
    hide StartMoves, Touches;
    if s.acts[k].StartSpawning? {
      SpawningTouches(s, k, s');
    } else if s.acts[k].StartHolding? {
      HoldingTouches(s, k, s');
    } else {
      CallTouches(s, k, s');
    }
  }

  lemma SpawningTouches(s: State, k: nat, s': State)
    requires k in s.acts && StartMoves(s, k, s') && s.acts[k].StartSpawning?
    ensures Touches(s.acts, k, s'.acts)
  {
  }

  lemma HoldingTouches(s: State, k: nat, s': State)
    requires k in s.acts && StartMoves(s, k, s') && s.acts[k].StartHolding?
    ensures Touches(s.acts, k, s'.acts)
  {
    hide NonceOf;
  }

  lemma CallTouches(s: State, k: nat, s': State)
    requires k in s.acts && StartMoves(s, k, s') && !s.acts[k].StartSpawning? && !s.acts[k].StartHolding?
    ensures Touches(s.acts, k, s'.acts)
  {
    hide HexOf;
  }

  lemma ScheduleTouches(s: State, k: nat, s': State)
    requires k in s.acts && ScheduleMoves(s, k, s')
    ensures Touches(s.acts, k, s'.acts)
  {
    hide ScheduleMoves, Touches;
    if s.acts[k].ScheduleCopied? {
      CopiedTouches(s, k, s');
    } else {
      OtherwiseTouches(s, k, s');
    }
  }

  lemma CopiedTouches(s: State, k: nat, s': State)
    requires k in s.acts && ScheduleMoves(s, k, s') && s.acts[k].ScheduleCopied?
    ensures Touches(s.acts, k, s'.acts)
  {
    hide NonceOf;
  }

  lemma OtherwiseTouches(s: State, k: nat, s': State)
    requires k in s.acts && ScheduleMoves(s, k, s') && !s.acts[k].ScheduleCopied?
    ensures Touches(s.acts, k, s'.acts)
  {
  }

  lemma SessionTouches(s: State, k: nat, s': State)
    requires k in s.acts && SessionMoves(s, k, s')
    ensures Touches(s.acts, k, s'.acts)
  {
  }

  /** An activity changes only by its own step. */
  lemma OwnStep(s: State, s': State, i: nat)
    requires Moves(s, s') && i in s.acts
    ensures i in s'.acts
    ensures s'.acts[i] != s.acts[i] ==> StartMoves(s, i, s') || ScheduleMoves(s, i, s') || SessionMoves(s, i, s')
    ensures s'.acts[i] != s.acts[i] ==> StepsLeft(s'.acts[i]) < StepsLeft(s.acts[i])
  {
    hide Refused, StartMoves, ScheduleMoves, SessionMoves, StepsLeft;
    if k, path, hex :| Arrives(s, k, path, hex, s') {
    } else if k :| RunsPending(s, k, s') {
    } else {
      var k :| k in s.acts && (StartMoves(s, k, s') || ScheduleMoves(s, k, s') || SessionMoves(s, k, s'));
      if StartMoves(s, k, s') {
        StartTouches(s, k, s');
      } else if ScheduleMoves(s, k, s') {
        ScheduleTouches(s, k, s');
      } else {
        SessionTouches(s, k, s');
      }
    }
  }

  /** A call is refused at once, with 2, unless both arguments are there and the path has at most 107 bytes. */
  lemma ArrivalJudged(s: State, i: nat, path: Option<Text>, hex: Option<Text>, s': State)
    requires Arrives(s, i, path, hex, s')
    ensures i in s'.acts && s' == s.(acts := s'.acts) && s'.acts == s.acts[i := s'.acts[i]]
    ensures if path.Some? && hex.Some? && |path.value| <= 107
            then s'.acts[i] in {StartCalled(path.value, hex.value, None), ScheduleCalled(path.value, hex.value)}
            else s'.acts[i] == Returned(2)
  {
  }

  // ---------------------------------------------------------------- start calls

  /** What can have become of a start call with these arguments. */
  ghost predicate StartLife(t: Activity, path: Text, hex: Text, origin: Option<Args>) {
    match t
    case StartCalled(p, h, o) => p == path && h == hex && o == origin
    case StartHolding(p, h, o) => p == path && h == hex && o == origin
    case StartSpawning(args, o) => args.path == path && Spells(hex, args.nonce) && o == origin
    case StartReturned(_, o) => o == origin
    case Returned(_) => true
    case _ => false
  }

  lemma StartLifeGoesOn(s: State, s': State, i: nat, path: Text, hex: Text, origin: Option<Args>)
    requires i in s.acts && StartLife(s.acts[i], path, hex, origin) && Relies(s.acts[i], s.scheduled) && Moves(s, s')
    ensures i in s'.acts && StartLife(s'.acts[i], path, hex, origin)
  {
    hide Moves, Relies, Spells, HexOf, StartMoves, ScheduleMoves, SessionMoves;
    OwnStep(s, s', i);
    if s'.acts[i] != s.acts[i] {
      NoOtherMachine(s, s', i);
      StartLifeStep(s, s', i, path, hex, origin);
    }
  }

  lemma NoOtherMachine(s: State, s': State, i: nat)
    requires i in s.acts && !IsSession(s.acts[i]) && !IsSchedule(s.acts[i])
    ensures !SessionMoves(s, i, s') && !ScheduleMoves(s, i, s')
  {
  }

  lemma StartLifeStep(s: State, s': State, i: nat, path: Text, hex: Text, origin: Option<Args>)
    requires i in s.acts && StartLife(s.acts[i], path, hex, origin) && Relies(s.acts[i], s.scheduled)
    requires StartMoves(s, i, s')
    ensures i in s'.acts && StartLife(s'.acts[i], path, hex, origin)
  {
    hide StartMoves, Relies, Spells;
    if s.acts[i].StartHolding? {
      HoldingGoesOn(s, s', i);
    } else {
      CallGoesOn(s, s', i, path, hex, origin);
    }
  }

  lemma HoldingGoesOn(s: State, s': State, i: nat)
    requires i in s.acts && s.acts[i].StartHolding? && Relies(s.acts[i], s.scheduled) && StartMoves(s, i, s')
    ensures i in s'.acts && StartLife(s'.acts[i], s.acts[i].path, s.acts[i].hex, s.acts[i].origin)
  {
    hide Spells, HexOf;
    if NonceOf(s.acts[i].hex).Some? {
      NonceInverse(s.acts[i].hex, NonceOf(s.acts[i].hex).value);
    }
  }

  lemma CallGoesOn(s: State, s': State, i: nat, path: Text, hex: Text, origin: Option<Args>)
    requires i in s.acts && StartLife(s.acts[i], path, hex, origin) && !s.acts[i].StartHolding? && StartMoves(s, i, s')
    ensures i in s'.acts && StartLife(s'.acts[i], path, hex, origin)
  {
    hide Spells, HexOf;
  }

  lemma {:induction false} StartLives(trace: seq<State>, scheduled: Args, gcEnabled: bool, m: nat, n: nat, i: nat)
    requires Run(trace, scheduled, gcEnabled) && m <= n < |trace| && i in trace[m].acts && trace[m].acts[i].StartCalled?
    ensures var t := trace[m].acts[i];
            i in trace[n].acts && StartLife(trace[n].acts[i], t.path, t.hex, t.origin)
    decreases n
  {
    hide Moves, Buffered, Tokens, GcKept, Relies;
    if m < n {
      StartLives(trace, scheduled, gcEnabled, m, n - 1, i);
      RunsKeepInv(trace, scheduled, gcEnabled, n - 1);
      var t := trace[m].acts[i];
      assert Relies(trace[n - 1].acts[i], trace[n - 1].scheduled) by {
        BufferedRelies(trace[n - 1], i);
      }
      StartLifeGoesOn(trace[n - 1], trace[n], i, t.path, t.hex, t.origin);
    }
  }

  lemma BufferedRelies(s: State, i: nat)
    requires Buffered(s) && i in s.acts
    ensures Relies(s.acts[i], s.scheduled)
  {
  }

  /** This step has added one session with these arguments, next to the call that returns. */
  ghost predicate OneMoreSession(s: State, i: nat, j: nat, args: Args, origin: Option<Args>, s': State) {
    && j !in s.acts && s'.acts == s.acts[i := StartReturned(0, origin)][j := SessionConnecting(args, origin)]
    && s'.sessionActive
  }

  /** What each result of a start call says. */
  ghost predicate ResultSays(s: State, i: nat, path: Text, hex: Text, origin: Option<Args>, result: nat, s': State) {
    match result
    case 0 => exists j, args: Args ::
      args.path == path && Spells(hex, args.nonce) && OneMoreSession(s, i, j, args, origin, s')
    case 3 => s.sessionActive && s' == With(s, i, StartReturned(3, origin))
    case 5 =>
      && !s'.sessionActive && (forall nonce :: !Spells(hex, nonce))
      && s'.acts == s.acts[i := StartReturned(5, origin)]
    case _ => result in {4, 6} && !s'.sessionActive && s'.acts == s.acts[i := StartReturned(result, origin)]
  }

  lemma StartStepSays(s: State, i: nat, path: Text, hex: Text, origin: Option<Args>, s': State)
    requires Moves(s, s') && i in s.acts && StartLife(s.acts[i], path, hex, origin)
    requires !s.acts[i].StartReturned? && !s.acts[i].Returned?
    requires s.acts[i].StartSpawning? ==> s.sessionActive
    ensures i in s'.acts
    ensures s'.acts[i].StartReturned? ==> ResultSays(s, i, path, hex, origin, s'.acts[i].result, s')
  {
    hide Moves, Spells, HexOf, ScheduleMoves, SessionMoves, StepsLeft;
    OwnStep(s, s', i);
    NoOtherMachine(s, s', i);
    if s.acts[i].StartHolding? && NonceOf(hex).None? {
      forall nonce ensures !Spells(hex, nonce) {
        NonceInverse(hex, nonce);
      }
    }
    if s'.acts[i].StartReturned? && s'.acts[i].result == 0 {
      var args := s.acts[i].args;
      var j :| j !in s.acts && s' == With(With(s, i, StartReturned(0, origin)), j, SessionConnecting(args, origin));
      assert OneMoreSession(s, i, j, args, origin, s');
    }
  }

  /**
   * The step in which a start call comes to its result. With 0 it has added exactly one session, on the call's path
   * and with the nonce that its digits spell, and the session flag stays set. With any other result it has added
   * nothing: 3 says that the flag was set, 5 that the digits spell no nonce, and after 4, 5 and 6 the flag is free.
   */
  lemma StartResultSays(trace: seq<State>, scheduled: Args, gcEnabled: bool, m: nat, n: nat, i: nat)
    requires Run(trace, scheduled, gcEnabled) && m <= n < |trace| - 1
    requires i in trace[m].acts && trace[m].acts[i].StartCalled? && i in trace[n].acts
    requires !trace[n].acts[i].StartReturned? && !trace[n].acts[i].Returned?
    ensures var t := trace[m].acts[i];
            && i in trace[n + 1].acts
            && (trace[n + 1].acts[i].StartReturned? ==>
                  ResultSays(trace[n], i, t.path, t.hex, t.origin, trace[n + 1].acts[i].result, trace[n + 1]))
  {
    hide Moves, Buffered, GcKept, ResultSays, StartLife, OneOwner;
    StartLives(trace, scheduled, gcEnabled, m, n, i);
    RunsKeepInv(trace, scheduled, gcEnabled, n);
    var s, t := trace[n], trace[m].acts[i];
    if s.acts[i].StartSpawning? {
      OnlyOwner(SessionToken, s, i);
    }
    StartStepSays(s, i, t.path, t.hex, t.origin, trace[n + 1]);
  }

  // ---------------------------------------------------------------- schedule calls

  ghost predicate ScheduleLife(t: Activity, path: Text, hex: Text) {
    match t
    case ScheduleCalled(p, h) => p == path && h == hex
    case ScheduleHolding(p, h) => p == path && h == hex
    case ScheduleCopied(p, h) => p == path && h == hex
    case ScheduleDecoded(p, nonce) => p == path && Spells(hex, nonce)
    case Returned(_) => true
    case _ => false
  }

  lemma ScheduleLifeGoesOn(s: State, s': State, i: nat, path: Text, hex: Text)
    requires i in s.acts && ScheduleLife(s.acts[i], path, hex) && Moves(s, s')
    ensures i in s'.acts && ScheduleLife(s'.acts[i], path, hex)
  {
    hide Moves, Spells, HexOf;
    OwnStep(s, s', i);
    if s.acts[i].ScheduleCopied? && NonceOf(hex).Some? {
      NonceInverse(hex, NonceOf(hex).value);
    }
  }

  lemma {:induction false} ScheduleLives(trace: seq<State>, scheduled: Args, gcEnabled: bool, m: nat, n: nat, i: nat)
    requires Run(trace, scheduled, gcEnabled) && m <= n < |trace|
    requires i in trace[m].acts && trace[m].acts[i].ScheduleCalled?
    ensures var t := trace[m].acts[i];
            i in trace[n].acts && ScheduleLife(trace[n].acts[i], t.path, t.hex)
    decreases n
  {
    hide Moves;
    if m < n {
      ScheduleLives(trace, scheduled, gcEnabled, m, n - 1, i);
      var t := trace[m].acts[i];
      ScheduleLifeGoesOn(trace[n - 1], trace[n], i, t.path, t.hex);
    }
  }

  /** What each result of a schedule call says. */
  ghost predicate ScheduleSays(s: State, i: nat, path: Text, hex: Text, result: nat, s': State) {
    && s'.acts == s.acts[i := Returned(result)] && s'.sessionActive == s.sessionActive
    && match result
       case 0 => s.queued == [] && |s'.queued| == 1 && s'.queued[0].path == path && Spells(hex, s'.queued[0].nonce) &&
                 s'.scheduled == s'.queued[0] && s'.scheduleActive
       case 3 => s.scheduleActive && s' == With(s, i, Returned(3))
       case 5 => !s'.scheduleActive && s'.queued == s.queued && forall nonce :: !Spells(hex, nonce)
       case _ => result == 7 && !s'.scheduleActive && s'.queued == s.queued
  }

  lemma ScheduleStepSays(s: State, i: nat, path: Text, hex: Text, s': State)
    requires Moves(s, s') && i in s.acts && ScheduleLife(s.acts[i], path, hex) && !s.acts[i].Returned?
    requires s.acts[i].ScheduleDecoded? ==> s.queued == [] && s.scheduleActive
    requires s.acts[i].ScheduleDecoded? ==> s.scheduled == Args(s.acts[i].path, s.acts[i].nonce)
    ensures i in s'.acts
    ensures s'.acts[i].Returned? ==> ScheduleSays(s, i, path, hex, s'.acts[i].result, s')
  {
    hide Moves, Spells, HexOf;
    OwnStep(s, s', i);
    if s.acts[i].ScheduleCopied? && NonceOf(hex).None? {
      forall nonce ensures !Spells(hex, nonce) {
        NonceInverse(hex, nonce);
      }
    }
  }

  /**
   * The step in which a schedule call returns. With 0 it has queued exactly one callback, for the call's path and the
   * nonce that its digits spell, which the shared buffer holds for it; with any other result it has queued nothing.
   */
  lemma ScheduleResultSays(trace: seq<State>, scheduled: Args, gcEnabled: bool, m: nat, n: nat, i: nat)
    requires Run(trace, scheduled, gcEnabled) && m <= n < |trace| - 1
    requires i in trace[m].acts && trace[m].acts[i].ScheduleCalled? && i in trace[n].acts && !trace[n].acts[i].Returned?
    ensures var t := trace[m].acts[i];
            && i in trace[n + 1].acts
            && (trace[n + 1].acts[i].Returned? ==>
                  ScheduleSays(trace[n], i, t.path, t.hex, trace[n + 1].acts[i].result, trace[n + 1]))
  {
    hide Moves, GcKept, ScheduleSays, ScheduleLife, OneOwner;
    ScheduleLives(trace, scheduled, gcEnabled, m, n, i);
    RunsKeepInv(trace, scheduled, gcEnabled, n);
    var s, t := trace[n], trace[m].acts[i];
    if s.acts[i].ScheduleDecoded? {
      OnlyOwner(ScheduleToken, s, i);
      assert Relies(s.acts[i], s.scheduled);
    }
    ScheduleStepSays(s, i, t.path, t.hex, trace[n + 1]);
  }

  // ---------------------------------------------------------------- nothing gets stuck

  /** Whatever the state, an activity that has not returned can make a step, and each of its steps brings it nearer. */
  lemma NobodyIsStuck(s: State, i: nat)
    requires i in s.acts && !s.acts[i].Returned?
    ensures exists s' :: Moves(s, s') && i in s'.acts && s'.acts[i] != s.acts[i]
    ensures forall s' | Moves(s, s') ::
              i in s'.acts && (s'.acts[i] == s.acts[i] || StepsLeft(s'.acts[i]) < StepsLeft(s.acts[i]))
  {
    hide StartMoves, ScheduleMoves, SessionMoves, StepsLeft, Arrives, RunsPending;
    var next :=
      if IsSession(s.acts[i]) then SessionStep(s, i)
      else if IsSchedule(s.acts[i]) then ScheduleStep(s, i)
      else StartStep(s, i);
    if IsSession(s.acts[i]) {
      SessionSteps(s, i);
    } else if IsSchedule(s.acts[i]) {
      ScheduleSteps(s, i);
    } else {
      StartSteps(s, i);
    }
    assert Moves(s, next);
    forall s' | Moves(s, s')
      ensures i in s'.acts && (s'.acts[i] == s.acts[i] || StepsLeft(s'.acts[i]) < StepsLeft(s.acts[i]))
    {
      OwnStep(s, s', i);
    }
  }

  /** A step that an activity of a start call can always make. */
  ghost function StartStep(s: State, i: nat): State
    requires i in s.acts
  {
    match s.acts[i]
    case StartCalled(path, hex, origin) =>
      if s.sessionActive then With(s, i, StartReturned(3, origin))
      else With(s.(sessionActive := true), i, StartHolding(path, hex, origin))
    case StartHolding(path, hex, origin) => With(s.(sessionActive := false), i, StartReturned(4, origin))
    case StartSpawning(args, origin) => With(s.(sessionActive := false), i, StartReturned(6, origin))
    case StartReturned(result, origin) =>
      With(if origin.Some? then s.(scheduleActive := false) else s, i, Returned(result))
    case CallbackRunning(want) =>
      if |s.scheduled.path| >= PATH_ROOM then With(s, i, StartReturned(2, Some(want)))
      else With(s, i, StartCalled(s.scheduled.path, HexOf(s.scheduled.nonce), Some(want)))
    case _ => s
  }

  lemma StartSteps(s: State, i: nat)
    requires i in s.acts && !s.acts[i].Returned? && !IsSession(s.acts[i]) && !IsSchedule(s.acts[i])
    ensures StartMoves(s, i, StartStep(s, i))
    ensures i in StartStep(s, i).acts && StartStep(s, i).acts[i] != s.acts[i]
  {
    hide NonceOf, HexOf;
  }

  ghost function ScheduleStep(s: State, i: nat): State
    requires i in s.acts
  {
    match s.acts[i]
    case ScheduleCalled(path, hex) =>
      if s.scheduleActive then With(s, i, Returned(3))
      else With(s.(scheduleActive := true), i, ScheduleHolding(path, hex))
    case ScheduleHolding(path, hex) => With(s.(scheduled := s.scheduled.(path := path)), i, ScheduleCopied(path, hex))
    case ScheduleCopied(path, hex) =>
      (match NonceOf(hex)
       case None => With(s.(scheduleActive := false, scheduled := s.scheduled.(nonce := [])), i, Returned(5))
       case Some(nonce) => With(s.(scheduled := s.scheduled.(nonce := nonce)), i, ScheduleDecoded(path, nonce)))
    case ScheduleDecoded(path, nonce) => With(s.(scheduleActive := false), i, Returned(7))
    case _ => s
  }

  lemma ScheduleSteps(s: State, i: nat)
    requires i in s.acts && IsSchedule(s.acts[i])
    ensures ScheduleMoves(s, i, ScheduleStep(s, i))
    ensures i in ScheduleStep(s, i).acts && ScheduleStep(s, i).acts[i] != s.acts[i]
  {
    hide NonceOf, HexOf;
  }

  ghost function SessionStep(s: State, i: nat): State
    requires i in s.acts
  {
    match s.acts[i]
    case SessionConnecting(args, origin) => With(s, i, SessionClosing(args, origin))
    case SessionServing(args, origin, wasEnabled) =>
      With(s.(gcEnabled := if wasEnabled then true else s.gcEnabled), i, SessionClosing(args, origin))
    case SessionClosing(args, origin) => With(s.(sessionActive := false), i, Returned(0))
    case _ => s
  }

  lemma SessionSteps(s: State, i: nat)
    requires i in s.acts && IsSession(s.acts[i])
    ensures SessionMoves(s, i, SessionStep(s, i))
    ensures i in SessionStep(s, i).acts && SessionStep(s, i).acts[i] != s.acts[i]
  {
  }

  // ---------------------------------------------------------------- a way to a session

  /** Steps one after the other. */
  ghost predicate Way(states: seq<State>) {
    forall i, j | 0 <= i && j == i + 1 < |states| :: Moves(states[i], states[j])
  }

  lemma WayOn(states: seq<State>, s: State) returns (longer: seq<State>)
    requires states != [] && Way(states) && Moves(states[|states| - 1], s)
    ensures longer != [] && Way(longer) && longer[0] == states[0] && longer[|longer| - 1] == s
  {
    hide Moves;
    longer := states + [s];
    forall i, j | 0 <= i && j == i + 1 < |longer| ensures Moves(longer[i], longer[j]) {
      if j < |states| {
        assert Moves(states[i], states[j]);
      }
    }
  }

  /** The place of an activity that is not there yet. */
  lemma FreePlace(acts: map<nat, Activity>) returns (j: nat)
    ensures j !in acts
  {
    j := AboveAll(acts.Keys);
  }

  lemma {:induction false} AboveAll(s: set<nat>) returns (j: nat)
    ensures forall x | x in s :: x < j
  {
    if s == {} {
      j := 0;
    } else {
      var x :| x in s;
      var k := AboveAll(s - {x});
      j := if k > x then k else x + 1;
      assert s == s - {x} + {x};
    }
  }

  lemma IsMove(s: State, i: nat, s': State)
    requires i in s.acts && (StartMoves(s, i, s') || ScheduleMoves(s, i, s') || SessionMoves(s, i, s'))
    ensures Moves(s, s')
  {
    hide StartMoves, ScheduleMoves, SessionMoves;
  }

  lemma OneState(s: State)
    ensures Way([s])
  {
  }

  /** A start call takes the free flag, and reads its arguments. */
  lemma CallPrepares(states: seq<State>, i: nat, nonce: Text) returns (all: seq<State>)
    requires states != [] && Way(states)
    requires var s := states[|states| - 1];
             && !s.sessionActive && i in s.acts && s.acts[i].StartCalled? && Spells(s.acts[i].hex, nonce)
             && (s.acts[i].origin.Some? ==> s.scheduled.path == s.acts[i].path)
    ensures all != [] && Way(all) && all[0] == states[0]
    ensures var s, s' := states[|states| - 1], all[|all| - 1];
            s' == With(s.(sessionActive := true), i, StartSpawning(Args(s.acts[i].path, nonce), s.acts[i].origin))
  {
    hide Way, Spells, HexOf, Moves, ScheduleMoves, SessionMoves;
    var s := states[|states| - 1];
    var path, hex, origin := s.acts[i].path, s.acts[i].hex, s.acts[i].origin;
    NonceInverse(hex, nonce);
    var holding := With(s.(sessionActive := true), i, StartHolding(path, hex, origin));
    IsMove(s, i, holding);
    all := WayOn(states, holding);
    var spawning := With(holding, i, StartSpawning(Args(path, nonce), origin));
    IsMove(holding, i, spawning);
    all := WayOn(all, spawning);
  }

  /** The thread is created, and the session connects. */
  lemma SessionComesUp(states: seq<State>, i: nat) returns (all: seq<State>, j: nat)
    requires states != [] && Way(states) && var s := states[|states| - 1]; i in s.acts && s.acts[i].StartSpawning?
    ensures all != [] && Way(all) && all[0] == states[0]
    ensures var s, s' := states[|states| - 1], all[|all| - 1];
            && j !in s.acts
            && s' == s.(gcEnabled := false,
                        acts := s.acts[i := StartReturned(0, s.acts[i].origin)]
                                      [j := SessionServing(s.acts[i].args, s.acts[i].origin, s.gcEnabled)])
  {
    hide Way, Moves, ScheduleMoves;
    var s := states[|states| - 1];
    var args, origin := s.acts[i].args, s.acts[i].origin;
    j := FreePlace(s.acts);
    var spawned := With(With(s, i, StartReturned(0, origin)), j, SessionConnecting(args, origin));
    IsMove(s, i, spawned);
    all := WayOn(states, spawned);
    var serving := With(spawned.(gcEnabled := false), j, SessionServing(args, origin, spawned.gcEnabled));
    IsMove(spawned, j, serving);
    all := WayOn(all, serving);
  }

  /** From a start call that finds the flag free, on to a session that serves. */
  lemma CallServes(states: seq<State>, i: nat, nonce: Text) returns (all: seq<State>, j: nat)
    requires states != [] && Way(states)
    requires var s := states[|states| - 1];
             && !s.sessionActive && i in s.acts && s.acts[i].StartCalled? && Spells(s.acts[i].hex, nonce)
             && (s.acts[i].origin.Some? ==> s.scheduled.path == s.acts[i].path)
    ensures all != [] && Way(all) && all[0] == states[0]
    ensures var s, s' := states[|states| - 1], all[|all| - 1];
            && i in s'.acts && s'.acts[i] == StartReturned(0, s.acts[i].origin) && j in s'.acts && i != j
            && s'.acts[j] == SessionServing(Args(s.acts[i].path, nonce), s.acts[i].origin, s.gcEnabled)
            && s'.sessionActive && !s'.gcEnabled && s'.scheduled == s.scheduled
  {
    hide Way, Spells;
    all := CallPrepares(states, i, nonce);
    all, j := SessionComesUp(all, i);
  }

  /**
   * With the session flag free, a start call can get through: there is a run in which it returns 0 and a session
   * serves, on exactly its path and nonce.
   */
  lemma StartCanServe(s: State, path: Text, hex: Text, nonce: Text) returns (all: seq<State>, i: nat, j: nat)
    requires !s.sessionActive && |path| <= 107 && Spells(hex, nonce)
    ensures all != [] && Way(all) && all[0] == s && i !in s.acts
    ensures var s' := all[|all| - 1];
            && i in s'.acts && s'.acts[i] == StartReturned(0, None)
            && j in s'.acts && s'.acts[j] == SessionServing(Args(path, nonce), None, s.gcEnabled)
  {
    hide Spells, Way, StartMoves, ScheduleMoves, SessionMoves, RunsPending;
    i := FreePlace(s.acts);
    var called := With(s, i, StartCalled(path, hex, None));
    assert Arrives(s, i, Some(path), Some(hex), called);
    OneState(s);
    var states := WayOn([s], called);
    all, j := CallServes(states, i, nonce);
  }

  /** A schedule call takes the free flag and leaves its arguments in the buffer. */
  lemma SchedulePrepares(states: seq<State>, i: nat, nonce: Text) returns (all: seq<State>)
    requires states != [] && Way(states)
    requires var s := states[|states| - 1];
             !s.scheduleActive && i in s.acts && s.acts[i].ScheduleCalled? && Spells(s.acts[i].hex, nonce)
    ensures all != [] && Way(all) && all[0] == states[0]
    ensures var s, s' := states[|states| - 1], all[|all| - 1];
            s' == With(s.(scheduleActive := true, scheduled := Args(s.acts[i].path, nonce)), i,
                       ScheduleDecoded(s.acts[i].path, nonce))
  {
    hide Way, Spells, HexOf, Moves, StartMoves, SessionMoves;
    var s := states[|states| - 1];
    var path, hex := s.acts[i].path, s.acts[i].hex;
    NonceInverse(hex, nonce);
    var holding := With(s.(scheduleActive := true), i, ScheduleHolding(path, hex));
    IsMove(s, i, holding);
    all := WayOn(states, holding);
    var copied := With(holding.(scheduled := holding.scheduled.(path := path)), i, ScheduleCopied(path, hex));
    IsMove(holding, i, copied);
    all := WayOn(all, copied);
    var decoded := With(copied.(scheduled := copied.scheduled.(nonce := nonce)), i, ScheduleDecoded(path, nonce));
    IsMove(copied, i, decoded);
    all := WayOn(all, decoded);
  }

  /** It queues the callback and returns. */
  lemma CallbackIsQueued(states: seq<State>, i: nat) returns (all: seq<State>)
    requires states != [] && Way(states)
    requires var s := states[|states| - 1];
             && s.queued == [] && i in s.acts && s.acts[i].ScheduleDecoded?
             && s.scheduled == Args(s.acts[i].path, s.acts[i].nonce)
    ensures all != [] && Way(all) && all[0] == states[0]
    ensures var s := states[|states| - 1];
            all[|all| - 1] == s.(queued := [s.scheduled], acts := s.acts[i := Returned(0)])
  {
    hide Way, HexOf, Moves, SessionMoves, StartMoves;
    var s := states[|states| - 1];
    var queued := With(s.(queued := [s.scheduled]), i, Returned(0));
    IsMove(s, i, queued);
    all := WayOn(states, queued);
  }

  /** The interpreter runs the callback, which calls start. */
  lemma CallbackRuns(states: seq<State>) returns (all: seq<State>, k: nat)
    requires states != [] && Way(states)
    requires var s := states[|states| - 1];
             s.queued == [s.scheduled] && |s.scheduled.path| <= 107
    ensures all != [] && Way(all) && all[0] == states[0]
    ensures var s, s' := states[|states| - 1], all[|all| - 1];
            && k !in s.acts
            && s' == s.(queued := [],
                        acts := s.acts[k := StartCalled(s.scheduled.path, HexOf(s.scheduled.nonce), Some(s.scheduled))])
  {
    hide Way, HexOf, Moves, SessionMoves, ScheduleMoves;
    var s := states[|states| - 1];
    k := FreePlace(s.acts);
    var running := With(s, k, CallbackRunning(s.scheduled)).(queued := []);
    PendingIsMove(s, k, running);
    all := WayOn(states, running);
    var starting := With(running, k, StartCalled(s.scheduled.path, HexOf(s.scheduled.nonce), Some(s.scheduled)));
    IsMove(running, k, starting);
    all := WayOn(all, starting);
  }

  lemma PendingIsMove(s: State, i: nat, s': State)
    requires RunsPending(s, i, s')
    ensures Moves(s, s')
  {
    hide RunsPending;
  }

  /**
   * With both flags free, so can a schedule call: there is a run in which it returns 0, the interpreter runs the
   * callback, and a session serves that has exactly the call's path and nonce.
   */
  lemma ScheduleCanServe(s: State, path: Text, hex: Text, nonce: Text) returns (all: seq<State>, i: nat, k: nat, j: nat)
    requires !s.sessionActive && !s.scheduleActive && s.queued == [] && |path| <= 107 && Spells(hex, nonce)
    ensures all != [] && Way(all) && all[0] == s && i !in s.acts
    ensures var s', args := all[|all| - 1], Args(path, nonce);
            && k in s'.acts && s'.acts[k] == StartReturned(0, Some(args))
            && j in s'.acts && s'.acts[j] == SessionServing(args, Some(args), s.gcEnabled) && s'.scheduled == args
  {
    hide Way, StartMoves, ScheduleMoves, SessionMoves, RunsPending;
    i := FreePlace(s.acts);
    var called := With(s, i, ScheduleCalled(path, hex));
    assert Arrives(s, i, Some(path), Some(hex), called);
    OneState(s);
    all := WayOn([s], called);
    all := SchedulePrepares(all, i, nonce);
    all := CallbackIsQueued(all, i);
    all, k := CallbackRuns(all);
    all, j := CallServes(all, k, nonce);
  }
}
