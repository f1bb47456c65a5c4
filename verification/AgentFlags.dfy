/**
 * Starting the Agent: any number of start and schedule calls, pending-call callbacks and session threads,
 * interleaved in any way, share two atomic flags, one buffer and the collector switch of the interpreter.
 */
module AgentFlags {
  import opened HeapModel
  import opened Bytes
  import opened Handshake
  import opened NonceHex

  /** The room for a socket path, with its closing zero byte. */
  const PATH_ROOM := 108

  datatype Args = Args(path: Text, nonce: Octets)

  /**
   * Where a call or thread is. `origin` is the schedule call behind a callback and what comes of it; it only
   * labels the activity.
   */
  datatype Activity =
    | StartCalled(path: Text, hex: Text, origin: Option<Args>)
    | StartHolding(path: Text, hex: Text, origin: Option<Args>)
    | StartSpawning(args: Args, origin: Option<Args>)
    | StartReturned(result: nat, origin: Option<Args>)
    | ScheduleCalled(path: Text, hex: Text)
    | ScheduleHolding(path: Text, hex: Text)
    | ScheduleCopied(path: Text, hex: Text)
    | ScheduleDecoded(path: Text, nonce: Octets)
    | CallbackRunning(want: Args)
    | SessionConnecting(args: Args, origin: Option<Args>)
    | SessionServing(args: Args, origin: Option<Args>, wasEnabled: bool)
    | SessionClosing(args: Args, origin: Option<Args>)
    | Returned(result: nat)

  /** `queued` are the pending callbacks, each with the arguments of the call that queued it. */
  datatype State = State(sessionActive: bool, scheduleActive: bool, scheduled: Args, queued: seq<Args>, gcEnabled: bool,
                         acts: map<nat, Activity>)

  function With(s: State, i: nat, t: Activity): State {
    s.(acts := s.acts[i := t])
  }

  ghost function Start(scheduled: Args, gcEnabled: bool): State {
    State(false, false, scheduled, [], gcEnabled, map[])
  }

  predicate Refused(path: Option<Text>, hex: Option<Text>) {
    path.None? || hex.None? || |path.value| >= PATH_ROOM
  }

  /** A new call comes in; a missing argument or a path too long is refused at once. */
  ghost predicate Arrives(s: State, i: nat, path: Option<Text>, hex: Option<Text>, s': State) {
    && i !in s.acts
    && if Refused(path, hex) then s' == With(s, i, Returned(2))
       else s' == With(s, i, StartCalled(path.value, hex.value, None)) ||
            s' == With(s, i, ScheduleCalled(path.value, hex.value))
  }

  /** The interpreter runs a pending call. */
  ghost predicate RunsPending(s: State, i: nat, s': State) {
    && i !in s.acts && s.queued != []
    && s' == With(s, i, CallbackRunning(s.queued[0])).(queued := s.queued[1..])
  }

  ghost predicate StartMoves(s: State, i: nat, s': State)
    requires i in s.acts
  {
    match s.acts[i]
    case StartCalled(path, hex, origin) =>
      if s.sessionActive then s' == With(s, i, StartReturned(3, origin))
      else s' == With(s.(sessionActive := true), i, StartHolding(path, hex, origin))
    case StartHolding(path, hex, origin) =>
      // out of memory, or the path is copied (a callback's from the shared buffer) and the nonce decoded
      || s' == With(s.(sessionActive := false), i, StartReturned(4, origin))
      || (match NonceOf(hex)
          case None => s' == With(s.(sessionActive := false), i, StartReturned(5, origin))
          case Some(nonce) =>
            s' == With(s, i, StartSpawning(Args(if origin.Some? then s.scheduled.path else path, nonce), origin)))
    case StartSpawning(args, origin) =>
      || s' == With(s.(sessionActive := false), i, StartReturned(6, origin))
      || exists j ::
           j !in s.acts && s' == With(With(s, i, StartReturned(0, origin)), j, SessionConnecting(args, origin))
    case StartReturned(result, origin) =>
      s' == With(if origin.Some? then s.(scheduleActive := false) else s, i, Returned(result))
    case CallbackRunning(want) =>
      if |s.scheduled.path| >= PATH_ROOM then s' == With(s, i, StartReturned(2, Some(want)))
      else s' == With(s, i, StartCalled(s.scheduled.path, HexOf(s.scheduled.nonce), Some(want)))
    case _ => false
  }

  ghost predicate ScheduleMoves(s: State, i: nat, s': State)
    requires i in s.acts
  {
    match s.acts[i]
    case ScheduleCalled(path, hex) =>
      if s.scheduleActive then s' == With(s, i, Returned(3))
      else s' == With(s.(scheduleActive := true), i, ScheduleHolding(path, hex))
    case ScheduleHolding(path, hex) => s' == With(s.(scheduled := s.scheduled.(path := path)), i, ScheduleCopied(path, hex))
    case ScheduleCopied(path, hex) =>
      (match NonceOf(hex)
       case None =>
         // part of the nonce may have been overwritten
         exists junk :: s' == With(s.(scheduleActive := false, scheduled := s.scheduled.(nonce := junk)), i, Returned(5))
       case Some(nonce) => s' == With(s.(scheduled := s.scheduled.(nonce := nonce)), i, ScheduleDecoded(path, nonce)))
    case ScheduleDecoded(path, nonce) =>
      || s' == With(s.(scheduleActive := false), i, Returned(7))
      || s' == With(s.(queued := s.queued + [Args(path, nonce)]), i, Returned(0))
    case _ => false
  }

  /** A session switches cyclic collection off while it serves, and back on if it was on. */
  ghost predicate SessionMoves(s: State, i: nat, s': State)
    requires i in s.acts
  {
    match s.acts[i]
    case SessionConnecting(args, origin) =>
      || s' == With(s, i, SessionClosing(args, origin))
      || s' == With(s.(gcEnabled := false), i, SessionServing(args, origin, s.gcEnabled))
    case SessionServing(args, origin, wasEnabled) =>
      s' == With(s.(gcEnabled := if wasEnabled then true else s.gcEnabled), i, SessionClosing(args, origin))
    case SessionClosing(args, origin) => s' == With(s.(sessionActive := false), i, Returned(0))
    case _ => false
  }

  ghost predicate Moves(s: State, s': State) {
    || (exists i, path, hex :: Arrives(s, i, path, hex, s'))
    || (exists i :: RunsPending(s, i, s'))
    || (exists i :: i in s.acts && (StartMoves(s, i, s') || ScheduleMoves(s, i, s') || SessionMoves(s, i, s')))
  }

  // ---------------------------------------------------------------- one token, one owner

  datatype Token = SessionToken | ScheduleToken

  predicate IsSession(t: Activity) {
    t.SessionConnecting? || t.SessionServing? || t.SessionClosing?
  }

  predicate Holds(k: Token, t: Activity) {
    match k
    case SessionToken => t.StartHolding? || t.StartSpawning? || IsSession(t)
    case ScheduleToken =>
      || t.ScheduleHolding? || t.ScheduleCopied? || t.ScheduleDecoded? || t.CallbackRunning?
      || ((t.StartCalled? || t.StartHolding? || t.StartSpawning? || t.StartReturned?) && t.origin.Some?)
  }

  /** The token is with an activity; the schedule token can also be with a queued callback. */
  predicate Out(k: Token, s: State) {
    match k
    case SessionToken => s.sessionActive
    case ScheduleToken => s.scheduleActive && s.queued == []
  }

  ghost function Owners(k: Token, acts: map<nat, Activity>): set<nat> {
    set i | i in acts && Holds(k, acts[i])
  }

  /** A token that is out has one owner; a token that is not has none. */
  ghost predicate OneOwner(k: Token, acts: map<nat, Activity>, out: bool) {
    if out then exists i :: Owners(k, acts) == {i} else Owners(k, acts) == {}
  }

  lemma OwnersAfter(k: Token, acts: map<nat, Activity>, i: nat, t: Activity)
    ensures Owners(k, acts[i := t]) == if Holds(k, t) then Owners(k, acts) + {i} else Owners(k, acts) - {i}
  {
    hide Holds;
  }

  /** An activity changes without touching the token, takes a free one, or gives its own back. */
  predicate TokenStep(k: Token, owned: bool, t: Activity, out: bool, out': bool) {
    || (Holds(k, t) == owned && out' == out)
    || (!out && Holds(k, t) && out')
    || (owned && !Holds(k, t) && !out')
  }

  predicate Owned(k: Token, s: State, i: nat) {
    i in s.acts && Holds(k, s.acts[i])
  }

  lemma OwnerMoves(k: Token, s: State, i: nat, t: Activity, out': bool)
    requires OneOwner(k, s.acts, Out(k, s)) && TokenStep(k, Owned(k, s, i), t, Out(k, s), out')
    ensures OneOwner(k, s.acts[i := t], out')
  {
    hide Holds, Out;
    OwnersAfter(k, s.acts, i, t);
    assert Owned(k, s, i) <==> i in Owners(k, s.acts);
    if Out(k, s) {
      var o :| Owners(k, s.acts) == {o};
      assert Holds(k, t) == Owned(k, s, i) ==> Owners(k, s.acts[i := t]) == {o};
    } else if Holds(k, t) {
      assert Owners(k, s.acts[i := t]) == {i};
    }
  }

  /** An activity hands its token to a new activity. */
  lemma OwnerHandsOver(k: Token, acts: map<nat, Activity>, i: nat, t: Activity, j: nat, u: Activity)
    requires OneOwner(k, acts, true) && i in acts && Holds(k, acts[i]) && !Holds(k, t)
    requires j !in acts && Holds(k, u)
    ensures OneOwner(k, acts[i := t][j := u], true)
  {
    hide Holds;
    OwnersAfter(k, acts, i, t);
    OwnersAfter(k, acts[i := t], j, u);
    var o :| Owners(k, acts) == {o};
    assert i in Owners(k, acts);
    assert Owners(k, acts[i := t][j := u]) == {j};
  }

  /** An activity that does not own the token changes next to its owner. */
  lemma OwnerStays(k: Token, acts: map<nat, Activity>, out: bool, j: nat, u: Activity)
    requires OneOwner(k, acts, out) && j !in acts && !Holds(k, u)
    ensures OneOwner(k, acts[j := u], out)
  {
    hide Holds;
    OwnersAfter(k, acts, j, u);
    assert Owners(k, acts[j := u]) == Owners(k, acts);
  }

  lemma OnlyOwner(k: Token, s: State, i: nat)
    requires OneOwner(k, s.acts, Out(k, s)) && Owned(k, s, i)
    ensures Out(k, s) && forall j | Owned(k, s, j) :: j == i
  {
    hide Holds, Out;
    assert i in Owners(k, s.acts);
    forall j | Owned(k, s, j) ensures j == i {
      assert j in Owners(k, s.acts);
    }
  }

  // ---------------------------------------------------------------- the invariant

  /** What the buffer holds for the activity that owns it. */
  predicate BufferFor(t: Activity, scheduled: Args) {
    match t
    case ScheduleHolding(path, hex) => |path| < PATH_ROOM
    case ScheduleCopied(path, hex) => scheduled.path == path && |path| < PATH_ROOM
    case ScheduleDecoded(path, nonce) => scheduled == Args(path, nonce) && Schedulable(scheduled)
    case CallbackRunning(want) => scheduled == want && Schedulable(want)
    case StartCalled(path, hex, origin) => origin.Some? ==> StartsAs(path, hex, origin.value, scheduled)
    case StartHolding(path, hex, origin) => origin.Some? ==> StartsAs(path, hex, origin.value, scheduled)
    case StartSpawning(args, origin) => origin.Some? ==> args == origin.value == scheduled
    case StartReturned(result, origin) => origin.Some? ==> result in {0, 3, 4, 6}
    case _ => true
  }

  predicate StartsAs(path: Text, hex: Text, want: Args, scheduled: Args) {
    scheduled == want && path == want.path && Schedulable(want) && hex == HexOf(want.nonce)
  }

  predicate Schedulable(a: Args) {
    |a.nonce| == NONCE_SIZE && |a.path| < PATH_ROOM
  }

  /** What a session was asked to be is what it is. */
  predicate SessionAsAsked(t: Activity) {
    IsSession(t) && t.origin.Some? ==> t.args == t.origin.value
  }

  /** The flags are set exactly while somebody owns what they stand for; at most one callback is queued. */
  ghost predicate Tokens(s: State) {
    && OneOwner(SessionToken, s.acts, Out(SessionToken, s)) && OneOwner(ScheduleToken, s.acts, Out(ScheduleToken, s))
    && |s.queued| <= 1 && (s.queued != [] ==> s.scheduleActive)
  }

  /** What each activity relies on. */
  predicate Relies(t: Activity, scheduled: Args) {
    && (Holds(ScheduleToken, t) ==> BufferFor(t, scheduled)) && SessionAsAsked(t)
    && (t.ScheduleCalled? ==> |t.path| < PATH_ROOM)
  }

  ghost predicate Buffered(s: State) {
    && (forall i | i in s.acts :: Relies(s.acts[i], s.scheduled))
    && (s.queued != [] ==> s.queued[0] == s.scheduled && Schedulable(s.scheduled))
  }

  /** Cyclic collection is as it was found, except while a session serves, which knows how it was found. */
  ghost predicate GcKept(s: State, atRest: bool) {
    && (forall i | i in s.acts && s.acts[i].SessionServing? :: s.acts[i].wasEnabled == atRest && !s.gcEnabled)
    && ((forall i | i in s.acts :: !s.acts[i].SessionServing?) ==> s.gcEnabled == atRest)
  }

  ghost predicate FlagsInv(s: State, atRest: bool) {
    Tokens(s) && Buffered(s) && GcKept(s, atRest)
  }

  // ---------------------------------------------------------------- every step keeps it

  ghost predicate Passes(k: Token, s: State, i: nat, s': State)
    requires i in s'.acts
  {
    TokenStep(k, Owned(k, s, i), s'.acts[i], Out(k, s), Out(k, s'))
  }

  /** One activity has changed; the buffer has only if that activity owns it. */
  ghost predicate OneActivity(s: State, i: nat, s': State) {
    && i in s'.acts && s'.acts == s.acts[i := s'.acts[i]]
    && Passes(SessionToken, s, i, s') && Passes(ScheduleToken, s, i, s')
    && (s'.scheduled == s.scheduled || Owned(ScheduleToken, s, i))
    && Relies(s'.acts[i], s'.scheduled)
  }

  lemma OneActivityKeepsTokens(s: State, i: nat, s': State)
    requires Tokens(s) && OneActivity(s, i, s')
    ensures OneOwner(SessionToken, s'.acts, Out(SessionToken, s'))
    ensures OneOwner(ScheduleToken, s'.acts, Out(ScheduleToken, s'))
  {
    hide OneOwner, Out, TokenStep, Owned, Relies;
    OwnerMoves(SessionToken, s, i, s'.acts[i], Out(SessionToken, s'));
    OwnerMoves(ScheduleToken, s, i, s'.acts[i], Out(ScheduleToken, s'));
  }

  lemma UnownedRelies(t: Activity, scheduled: Args, scheduled': Args)
    requires Relies(t, scheduled) && !Holds(ScheduleToken, t)
    ensures Relies(t, scheduled')
  {
  }

  lemma OneActivityKeepsReliance(s: State, i: nat, s': State)
    requires Tokens(s) && Buffered(s) && OneActivity(s, i, s')
    ensures forall j | j in s'.acts :: Relies(s'.acts[j], s'.scheduled)
  {
    hide OneOwner, Out, TokenStep, Relies, Holds;
    forall j | j in s'.acts ensures Relies(s'.acts[j], s'.scheduled) {
      if j != i {
        assert s'.acts[j] == s.acts[j];
        assert Relies(s.acts[j], s.scheduled);
        if s'.scheduled != s.scheduled {
          OnlyOwner(ScheduleToken, s, i);
          assert !Owned(ScheduleToken, s, j);
          UnownedRelies(s.acts[j], s.scheduled, s'.scheduled);
        }
      }
    }
  }

  /** Cyclic collection is untouched, and so is every serving session. */
  lemma GcUntouched(s: State, i: nat, s': State, atRest: bool)
    requires GcKept(s, atRest) && s'.gcEnabled == s.gcEnabled
    requires i in s'.acts && s'.acts == s.acts[i := s'.acts[i]]
    requires !s'.acts[i].SessionServing? && (i in s.acts ==> !s.acts[i].SessionServing?)
    ensures GcKept(s', atRest)
  {
    if forall j | j in s'.acts :: !s'.acts[j].SessionServing? {
      forall j | j in s.acts ensures !s.acts[j].SessionServing? {
        assert j in s'.acts;
      }
    }
  }

  lemma ArrivalKeepsInv(s: State, i: nat, path: Option<Text>, hex: Option<Text>, s': State, atRest: bool)
    requires FlagsInv(s, atRest) && Arrives(s, i, path, hex, s')
    ensures FlagsInv(s', atRest)
  {
    hide OneOwner, GcKept;
    assert OneActivity(s, i, s');
    OneActivityKeepsTokens(s, i, s');
    OneActivityKeepsReliance(s, i, s');
    GcUntouched(s, i, s', atRest);
  }

  lemma PendingKeepsInv(s: State, i: nat, s': State, atRest: bool)
    requires FlagsInv(s, atRest) && RunsPending(s, i, s')
    ensures FlagsInv(s', atRest)
  {
    hide OneOwner, GcKept;
    assert s'.queued == [];
    assert OneActivity(s, i, s');
    OneActivityKeepsTokens(s, i, s');
    OneActivityKeepsReliance(s, i, s');
    GcUntouched(s, i, s', atRest);
  }

  /** The step in which a start call's session comes to life. */
  ghost predicate Spawns(s: State, i: nat, s': State) {
    && i in s.acts && s.acts[i].StartSpawning?
    && exists j :: j !in s.acts && s' == With(With(s, i, StartReturned(0, s.acts[i].origin)), j,
                                               SessionConnecting(s.acts[i].args, s.acts[i].origin))
  }

  lemma HexIsDecoded(t: Activity, scheduled: Args)
    requires t.StartHolding? && t.origin.Some? && Relies(t, scheduled)
    ensures NonceOf(t.hex) == Some(t.origin.value.nonce)
  {
    NonceInverse(t.hex, t.origin.value.nonce);
  }

  /** `g` is the state with its flags and buffer as they are afterwards. */
  lemma ChangesOneActivity(s: State, g: State, i: nat, t: Activity)
    requires g.acts == s.acts
    requires TokenStep(SessionToken, Owned(SessionToken, s, i), t, Out(SessionToken, s), Out(SessionToken, g))
    requires TokenStep(ScheduleToken, Owned(ScheduleToken, s, i), t, Out(ScheduleToken, s), Out(ScheduleToken, g))
    requires g.scheduled == s.scheduled || Owned(ScheduleToken, s, i)
    requires Relies(t, g.scheduled)
    ensures OneActivity(s, i, With(g, i, t))
  {
    hide TokenStep, Relies, Holds;
  }

  /** A start call's step leaves everything alone but its activity and the flags. */
  ghost predicate StartEffect(s: State, i: nat, s': State)
    requires i in s.acts
  {
    && OneActivity(s, i, s') && s'.queued == s.queued && s'.gcEnabled == s.gcEnabled && s'.scheduled == s.scheduled
    && (s.queued != [] ==> s'.scheduleActive == s.scheduleActive)
    && !s'.acts[i].SessionServing? && !s.acts[i].SessionServing?
  }

  lemma StartTakesToken(s: State, i: nat, s': State)
    requires Tokens(s) && i in s.acts && Relies(s.acts[i], s.scheduled) && StartMoves(s, i, s')
    requires s.acts[i].StartCalled? || s.acts[i].CallbackRunning?
    ensures StartEffect(s, i, s')
  {
    hide OneActivity, OneOwner, HexOf;
    if Owned(ScheduleToken, s, i) {
      OnlyOwner(ScheduleToken, s, i);
    }
    ChangesOneActivity(s, s.(sessionActive := s'.sessionActive), i, s'.acts[i]);
  }

  lemma StartReturnsToken(s: State, i: nat, s': State)
    requires Tokens(s) && i in s.acts && Relies(s.acts[i], s.scheduled) && StartMoves(s, i, s') && !Spawns(s, i, s')
    requires s.acts[i].StartHolding? || s.acts[i].StartSpawning? || s.acts[i].StartReturned?
    ensures StartEffect(s, i, s')
  {
    hide OneActivity, NonceOf, OneOwner, Spells, HexOf;
    if Owned(ScheduleToken, s, i) {
      OnlyOwner(ScheduleToken, s, i);
    }
    if s.acts[i].StartHolding? && s.acts[i].origin.Some? {
      HexIsDecoded(s.acts[i], s.scheduled);
    }
    var t := s'.acts[i];
    if s.acts[i].StartReturned? {
      ChangesOneActivity(s, s.(scheduleActive := s'.scheduleActive), i, t);
    } else {
      OnlyOwner(SessionToken, s, i);
      ChangesOneActivity(s, s.(sessionActive := t.StartSpawning?), i, t);
    }
  }

  lemma StartKeepsInv(s: State, i: nat, s': State, atRest: bool)
    requires FlagsInv(s, atRest) && i in s.acts && StartMoves(s, i, s')
    ensures FlagsInv(s', atRest)
  {
    hide OneOwner, GcKept;
    if Spawns(s, i, s') {
      SpawnKeepsInv(s, i, s', atRest);
    } else {
      assert Relies(s.acts[i], s.scheduled);
      if s.acts[i].StartCalled? || s.acts[i].CallbackRunning? {
        StartTakesToken(s, i, s');
      } else {
        StartReturnsToken(s, i, s');
      }
      StartEffectKeepsInv(s, i, s', atRest);
    }
  }

  lemma StartEffectKeepsInv(s: State, i: nat, s': State, atRest: bool)
    requires FlagsInv(s, atRest) && i in s.acts && StartEffect(s, i, s')
    ensures FlagsInv(s', atRest)
  {
    hide OneOwner, GcKept, Relies, OneActivity, Out;
    OneActivityKeepsTokens(s, i, s');
    OneActivityKeepsReliance(s, i, s');
    OneActivityIs(s, i, s');
    GcUntouched(s, i, s', atRest);
  }

  lemma SpawnKeepsInv(s: State, i: nat, s': State, atRest: bool)
    requires FlagsInv(s, atRest) && Spawns(s, i, s')
    ensures FlagsInv(s', atRest)
  {
    hide OneOwner, GcKept;
    var args, origin := s.acts[i].args, s.acts[i].origin;
    var t, u := StartReturned(0, origin), SessionConnecting(args, origin);
    var j :| j !in s.acts && s' == With(With(s, i, t), j, u);
    var mid := With(s, i, t);
    assert Relies(s.acts[i], s.scheduled);
    OnlyOwner(SessionToken, s, i);
    OwnerHandsOver(SessionToken, s.acts, i, t, j, u);
    OwnerMoves(ScheduleToken, s, i, t, Out(ScheduleToken, s));
    OwnerStays(ScheduleToken, mid.acts, Out(ScheduleToken, s), j, u);
    GcUntouched(s, i, mid, atRest);
    GcUntouched(mid, j, s', atRest);
    forall k | k in s'.acts ensures Relies(s'.acts[k], s'.scheduled) {
      assert k in s.acts ==> Relies(s.acts[k], s.scheduled);
    }
  }

  /** A schedule call's step touches the buffer only as its owner, and queues only what it left there. */
  ghost predicate ScheduleEffect(s: State, i: nat, s': State)
    requires i in s.acts
  {
    && OneActivity(s, i, s') && s'.gcEnabled == s.gcEnabled
    && !s'.acts[i].SessionServing? && !s.acts[i].SessionServing?
    && (s'.queued == s.queued || (s.queued == [] && |s'.queued| == 1))
    && (s'.queued != [] ==> s'.scheduleActive)
    && (s'.queued != [] && s.queued == [] ==> s'.queued[0] == s'.scheduled && Schedulable(s'.scheduled))
    && (s.queued != [] ==> s'.scheduled == s.scheduled)
  }

  lemma ScheduleStarts(s: State, i: nat, s': State)
    requires Tokens(s) && i in s.acts && Relies(s.acts[i], s.scheduled) && ScheduleMoves(s, i, s')
    requires s.acts[i].ScheduleCalled? || s.acts[i].ScheduleHolding?
    ensures ScheduleEffect(s, i, s')
  {
    hide OneActivity, OneOwner;
    var t := s'.acts[i];
    if s.acts[i].ScheduleCalled? {
      ChangesOneActivity(s, s.(scheduleActive := true), i, t);
    } else {
      OnlyOwner(ScheduleToken, s, i);
      ChangesOneActivity(s, s.(scheduled := s'.scheduled), i, t);
    }
  }

  lemma ScheduleEnds(s: State, i: nat, s': State)
    requires Tokens(s) && i in s.acts && Relies(s.acts[i], s.scheduled) && ScheduleMoves(s, i, s')
    requires s.acts[i].ScheduleCopied? || s.acts[i].ScheduleDecoded?
    ensures ScheduleEffect(s, i, s')
  {
    hide OneActivity, NonceOf, OneOwner, Spells;
    OnlyOwner(ScheduleToken, s, i);
    var t := s'.acts[i];
    if s.acts[i].ScheduleCopied? {
      if NonceOf(s.acts[i].hex).Some? {
        NonceLength(s.acts[i].hex);
      }
      ChangesOneActivity(s, s.(scheduleActive := t.ScheduleDecoded?, scheduled := s'.scheduled), i, t);
    } else {
      ChangesOneActivity(s, s.(scheduleActive := s'.scheduleActive, queued := s'.queued), i, t);
    }
  }

  lemma NonceLength(hex: Text)
    requires NonceOf(hex).Some?
    ensures |NonceOf(hex).value| == NONCE_SIZE
  {
  }

  lemma ScheduleKeepsInv(s: State, i: nat, s': State, atRest: bool)
    requires FlagsInv(s, atRest) && i in s.acts && ScheduleMoves(s, i, s')
    ensures FlagsInv(s', atRest)
  {
    hide OneOwner, GcKept, Relies, OneActivity, Out, Schedulable;
    if s.acts[i].ScheduleCalled? || s.acts[i].ScheduleHolding? {
      ScheduleStarts(s, i, s');
    } else {
      ScheduleEnds(s, i, s');
    }
    hide ScheduleMoves;
    OneActivityKeepsTokens(s, i, s');
    OneActivityKeepsReliance(s, i, s');
    OneActivityIs(s, i, s');
    GcUntouched(s, i, s', atRest);
  }

  lemma OneActivityIs(s: State, i: nat, s': State)
    requires OneActivity(s, i, s')
    ensures i in s'.acts && s'.acts == s.acts[i := s'.acts[i]]
  {
  }

  lemma SessionIsOneActivity(s: State, i: nat, s': State)
    requires Tokens(s) && i in s.acts && Relies(s.acts[i], s.scheduled) && SessionMoves(s, i, s')
    ensures OneActivity(s, i, s') && s'.queued == s.queued && s'.scheduled == s.scheduled
    ensures s'.scheduleActive == s.scheduleActive && IsSession(s.acts[i])
  {
    hide OneActivity, OneOwner;
    OnlyOwner(SessionToken, s, i);
    var t := s'.acts[i];
    ChangesOneActivity(s, s.(sessionActive := s'.sessionActive, gcEnabled := s'.gcEnabled), i, t);
  }

  lemma SessionKeepsInv(s: State, i: nat, s': State, atRest: bool)
    requires FlagsInv(s, atRest) && i in s.acts && SessionMoves(s, i, s')
    ensures FlagsInv(s', atRest)
  {
    hide OneOwner, GcKept, SessionMoves, Relies, OneActivity, Out;
    SessionIsOneActivity(s, i, s');
    OneActivityKeepsTokens(s, i, s');
    OneActivityKeepsReliance(s, i, s');
    OnlyOwner(SessionToken, s, i);
    SessionKeepsGc(s, i, s', atRest);
  }

  lemma SessionKeepsGc(s: State, i: nat, s': State, atRest: bool)
    requires GcKept(s, atRest) && i in s.acts && SessionMoves(s, i, s')
    requires forall j | Owned(SessionToken, s, j) :: j == i
    ensures GcKept(s', atRest)
  {
    forall j | j in s.acts && s.acts[j].SessionServing? ensures j == i {
      assert Owned(SessionToken, s, j);
    }
    if s'.acts[i].SessionServing? {
      assert s.gcEnabled == atRest;
    }
  }

  /** Every step of every call, callback and session keeps the invariant. */
  lemma MovesKeepInv(s: State, s': State, atRest: bool)
    requires FlagsInv(s, atRest) && Moves(s, s')
    ensures FlagsInv(s', atRest)
  {
    hide FlagsInv, Arrives, RunsPending, StartMoves, ScheduleMoves, SessionMoves;
    if i, path, hex :| Arrives(s, i, path, hex, s') {
      ArrivalKeepsInv(s, i, path, hex, s', atRest);
    } else if i :| RunsPending(s, i, s') {
      PendingKeepsInv(s, i, s', atRest);
    } else {
      var i :| i in s.acts && (StartMoves(s, i, s') || ScheduleMoves(s, i, s') || SessionMoves(s, i, s'));
      if StartMoves(s, i, s') {
        StartKeepsInv(s, i, s', atRest);
      } else if ScheduleMoves(s, i, s') {
        ScheduleKeepsInv(s, i, s', atRest);
      } else {
        SessionKeepsInv(s, i, s', atRest);
      }
    }
  }

  lemma StartInv(scheduled: Args, gcEnabled: bool)
    ensures FlagsInv(Start(scheduled, gcEnabled), gcEnabled)
  {
  }

  ghost predicate Run(trace: seq<State>, scheduled: Args, gcEnabled: bool) {
    && trace != [] && trace[0] == Start(scheduled, gcEnabled)
    && forall i, j | 0 <= i && j == i + 1 < |trace| :: Moves(trace[i], trace[j])
  }

  lemma {:induction false} RunsKeepInv(trace: seq<State>, scheduled: Args, gcEnabled: bool, n: nat)
    requires Run(trace, scheduled, gcEnabled) && n < |trace|
    ensures FlagsInv(trace[n], gcEnabled)
    decreases n
  {
    hide FlagsInv, Moves;
    if n == 0 {
      StartInv(scheduled, gcEnabled);
    } else {
      RunsKeepInv(trace, scheduled, gcEnabled, n - 1);
      MovesKeepInv(trace[n - 1], trace[n], gcEnabled);
    }
  }

  /** At any time there is at most one session, and the session flag is set as long as there is one. */
  lemma AtMostOneSession(trace: seq<State>, scheduled: Args, gcEnabled: bool, n: nat, i: nat, j: nat)
    requires Run(trace, scheduled, gcEnabled) && n < |trace| && i in trace[n].acts && j in trace[n].acts
    requires IsSession(trace[n].acts[i]) && IsSession(trace[n].acts[j])
    ensures i == j && trace[n].sessionActive
  {
    hide Run, Buffered, GcKept, OneOwner;
    RunsKeepInv(trace, scheduled, gcEnabled, n);
    OnlyOwner(SessionToken, trace[n], i);
    assert Owned(SessionToken, trace[n], j);
  }

  /**
   * A session that a schedule call led to has exactly the socket path and nonce of that call, whatever other
   * calls came in between; and its start is never refused for its arguments.
   */
  lemma CallbackStartsAsScheduled(trace: seq<State>, scheduled: Args, gcEnabled: bool, n: nat, i: nat)
    requires Run(trace, scheduled, gcEnabled) && n < |trace| && i in trace[n].acts
    ensures var t := trace[n].acts[i];
            && (IsSession(t) && t.origin.Some? ==> t.args == t.origin.value)
            && (t.StartReturned? && t.origin.Some? ==> t.result in {0, 3, 4, 6})
  {
    hide Run, Tokens, GcKept;
    RunsKeepInv(trace, scheduled, gcEnabled, n);
    assert Relies(trace[n].acts[i], trace[n].scheduled);
  }

  ghost predicate Quiet(s: State) {
    s.queued == [] && forall i | i in s.acts :: s.acts[i].Returned?
  }

  /** When all calls and sessions are over, both flags are free and cyclic collection is as it was at first. */
  lemma EverythingIsReleased(trace: seq<State>, scheduled: Args, gcEnabled: bool, n: nat)
    requires Run(trace, scheduled, gcEnabled) && n < |trace| && Quiet(trace[n])
    ensures !trace[n].sessionActive && !trace[n].scheduleActive && trace[n].gcEnabled == gcEnabled
  {
    hide Run, Buffered;
    RunsKeepInv(trace, scheduled, gcEnabled, n);
    var s := trace[n];
    assert Owners(SessionToken, s.acts) == {} && Owners(ScheduleToken, s.acts) == {};
  }

  /** A session that has stopped serving has put cyclic collection back. */
  lemma CollectionIsRestored(trace: seq<State>, scheduled: Args, gcEnabled: bool, n: nat, i: nat)
    requires Run(trace, scheduled, gcEnabled) && n < |trace| && i in trace[n].acts && trace[n].acts[i].SessionClosing?
    ensures trace[n].gcEnabled == gcEnabled
  {
    hide Run, Buffered, OneOwner;
    RunsKeepInv(trace, scheduled, gcEnabled, n);
    var s := trace[n];
    OnlyOwner(SessionToken, s, i);
    forall k | k in s.acts ensures !s.acts[k].SessionServing? {
      assert Owned(SessionToken, s, k) ==> k == i;
    }
  }
}
