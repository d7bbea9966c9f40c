/** Per-user session limiting (limiter/limiter.go, wcf/user_context.go): the limiter object, and
    sessions that reach it through double-checked context creation, interleaved step by step. */
module Sessions {
  import opened Octets

  // ---------- the limiter ----------

  datatype Limit = Limit(cnt: int, base: int)

  function Acquired(l: Limit): (Limit, bool) {
    if l.cnt > 0 then (l.(cnt := l.cnt - 1), true) else (l, false)
  }

  function Released(l: Limit): Limit {
    if l.cnt < l.base then l.(cnt := l.cnt + 1) else l
  }

  class Limiter {
    var cnt: int
    var base: int

    constructor NewLimiter(n: int)
      ensures Val() == Limit(n, n)
    {
      cnt, base := n, n;
    }

    function Val(): Limit
      reads this
    {
      Limit(cnt, base)
    }

    /** The number of units in use after an acquisition, and whether there was one to take. */
    method TryAcqure() returns (used: int, ok: bool)
      modifies this
      ensures (Val(), ok) == Acquired(old(Val()))
      ensures used == if ok then base - cnt else 0
    {
      if cnt > 0 {
        cnt := cnt - 1;
        return base - cnt, true;
      }
      return 0, false;
    }

    method Release() returns (left: int)
      modifies this
      ensures Val() == Released(old(Val())) && left == cnt
    {
      if cnt < base {
        cnt := cnt + 1;
      }
      return cnt;
    }

    method Reset(cur: int, newBase: int)
      modifies this
      ensures Val() == Limit(cur, newBase)
    {
      cnt, base := cur, newBase;
    }
  }

  /** A unit taken is a unit given back, and nothing is given back twice. */
  lemma ReleaseUndoesAcquire(l: Limit)
    requires l.cnt <= l.base
    ensures Acquired(l).1 ==> Released(Acquired(l).0) == l
    ensures Released(l).cnt <= l.base
  {
  }

  // ---------- sessions ----------

  /** Where a session is: before the unlocked map read, after missing there, inside the lock before
      and after missing again, inside the lock with its context stored, with its context, holding a
      unit, turned away, gone. */
  datatype Pc = Begin | Missed | Locked | Absent | Stored(ctx: nat) | Ready(ctx: nat) | Live(ctx: nat) | TurnedAway | Gone

  /** The account a session runs under, as its own `UserInfo` describes it. */
  datatype Info = Info(user: string, maxConnection: int)

  type Sid = nat

  /** `allctx`, the limiters of the contexts made so far, the mutex, and the sessions. */
  datatype State = State(allctx: map<string, nat>, limits: map<nat, Limit>, holder: Option<Sid>, pcs: map<Sid, Pc>)

  function Init(info: map<Sid, Info>): State {
    State(map[], map[], None, map s | s in info :: Begin)
  }

  /** One step of session `s`; `offered` is the identity a new context would get. A step that cannot be
      taken changes nothing. */
  function Step(info: map<Sid, Info>, st: State, s: Sid, offered: nat): State {
    if s !in info || s !in st.pcs then st
    else
      var user := info[s].user;
      match st.pcs[s]
      case Begin =>
        st.(pcs := st.pcs[s := if user in st.allctx then Ready(st.allctx[user]) else Missed])
      case Missed =>
        if st.holder.Some? then st else st.(holder := Some(s), pcs := st.pcs[s := Locked])
      case Locked =>
        st.(pcs := st.pcs[s := if user in st.allctx then Stored(st.allctx[user]) else Absent])
      case Absent =>
        if offered in st.limits then st
        else
          st.(allctx := st.allctx[user := offered],
              limits := st.limits[offered := Limit(info[s].maxConnection, info[s].maxConnection)],
              pcs := st.pcs[s := Stored(offered)])
      case Stored(c) =>
        st.(holder := None, pcs := st.pcs[s := Ready(c)])
      case Ready(c) =>
        if c !in st.limits then st
        else
          var (l, ok) := Acquired(st.limits[c]);
          st.(limits := st.limits[c := l], pcs := st.pcs[s := if ok then Live(c) else TurnedAway])
      case Live(c) =>
        if c !in st.limits then st
        else st.(limits := st.limits[c := Released(st.limits[c])], pcs := st.pcs[s := Gone])
      case TurnedAway => st
      case Gone => st
  }

  /** Any interleaving: who moves next, and the identity offered for a new context. */
  function Run(info: map<Sid, Info>, schedule: seq<(Sid, nat)>): State {
    if schedule == [] then Init(info)
    else
      var (s, offered) := schedule[|schedule| - 1];
      Step(info, Run(info, schedule[..|schedule| - 1]), s, offered)
  }

  // ---------- the invariant ----------

  ghost function LiveOn(st: State, c: nat): set<Sid> {
    set s | s in st.pcs && st.pcs[s] == Live(c)
  }

  predicate InLock(pc: Pc) {
    pc.Locked? || pc.Absent? || pc.Stored?
  }

  predicate HasContext(pc: Pc) {
    pc.Stored? || pc.Ready? || pc.Live?
  }

  /** A context's limiter accounts for exactly the live sessions on it, and its base was configured
      for a session of the user it belongs to. */
  ghost predicate Accounted(info: map<Sid, Info>, st: State, user: string) {
    user in st.allctx ==>
      var c := st.allctx[user];
      && c in st.limits
      && |LiveOn(st, c)| + st.limits[c].cnt == st.limits[c].base
      && exists s :: s in info && info[s] == Info(user, st.limits[c].base)
  }

  ghost predicate Inv(info: map<Sid, Info>, st: State) {
    && st.pcs.Keys == info.Keys
    && (forall s :: s in st.pcs ==> (InLock(st.pcs[s]) <==> st.holder == Some(s)))
    && (st.holder.Some? ==> st.holder.value in st.pcs)
    && (forall s :: s in st.pcs && st.pcs[s].Absent? ==> info[s].user !in st.allctx)
    && (forall s :: s in st.pcs && HasContext(st.pcs[s]) ==>
          info[s].user in st.allctx && st.pcs[s].ctx == st.allctx[info[s].user])
    && (forall u, v :: u in st.allctx && v in st.allctx && u != v ==> st.allctx[u] != st.allctx[v])
    && (forall u :: u in st.allctx ==> st.allctx[u] in st.limits)
    && (forall u :: Accounted(info, st, u))
  }

  lemma InitInv(info: map<Sid, Info>)
    ensures Inv(info, Init(info))
  {
  }

  /** A step that changes only which session is where, and neither the limiters nor who is live,
      keeps the accounts. */
  lemma QuietStep(info: map<Sid, Info>, st: State, st': State, s: Sid)
    requires Inv(info, st) && s in st.pcs
    requires st'.limits == st.limits && st'.allctx == st.allctx && st'.pcs.Keys == st.pcs.Keys
    requires forall x :: x in st.pcs && x != s ==> st'.pcs[x] == st.pcs[x]
    requires !st.pcs[s].Live? && !st'.pcs[s].Live?
    ensures forall u :: Accounted(info, st', u)
  {
    forall u ensures Accounted(info, st', u) {
      assert Accounted(info, st, u);
      if u in st.allctx { assert LiveOn(st', st.allctx[u]) == LiveOn(st, st.allctx[u]); }
    }
  }

  /** Creating a context: no session is live on it yet. */
  lemma CreateStep(info: map<Sid, Info>, st: State, s: Sid, offered: nat)
    requires Inv(info, st) && s in info && st.pcs[s].Absent? && offered !in st.limits
    ensures Inv(info, Step(info, st, s, offered))
  {
    var st' := Step(info, st, s, offered);
    var user := info[s].user;
    assert LiveOn(st', offered) == {} by {
      forall x | x in st'.pcs && st'.pcs[x] == Live(offered) ensures false {
        assert st.pcs[x] == Live(offered) && HasContext(st.pcs[x]);
      }
    }
    assert info[s] == Info(user, info[s].maxConnection);
    forall u ensures Accounted(info, st', u) {
      assert Accounted(info, st, u);
      if u in st.allctx { assert LiveOn(st', st.allctx[u]) == LiveOn(st, st.allctx[u]); }
    }
  }

  /** The account of a context the step does not touch. */
  lemma Elsewhere(info: map<Sid, Info>, st: State, st': State, s: Sid, c: nat, u: string)
    requires Accounted(info, st, u) && (u in st.allctx ==> st.allctx[u] != c)
    requires st'.allctx == st.allctx && s in st.pcs && st'.pcs.Keys == st.pcs.Keys
    requires forall d :: d in st.limits && d != c ==> d in st'.limits && st'.limits[d] == st.limits[d]
    requires forall x :: x in st.pcs && x != s ==> st'.pcs[x] == st.pcs[x]
    requires (st.pcs[s].Live? ==> st.pcs[s].ctx == c) && (st'.pcs[s].Live? ==> st'.pcs[s].ctx == c)
    ensures Accounted(info, st', u)
  {
    if u in st.allctx {
      assert LiveOn(st', st.allctx[u]) == LiveOn(st, st.allctx[u]);
    }
  }

  /** Taking or giving back a unit moves one session into or out of the live set of its context. */
  lemma OwnAccount(info: map<Sid, Info>, st: State, s: Sid, offered: nat)
    requires Inv(info, st) && s in info && (st.pcs[s].Ready? || st.pcs[s].Live?)
    ensures Accounted(info, Step(info, st, s, offered), info[s].user)
  {
    var st' := Step(info, st, s, offered);
    var c := st.pcs[s].ctx;
    assert HasContext(st.pcs[s]);
    assert Accounted(info, st, info[s].user);
    var live, live' := LiveOn(st, c), LiveOn(st', c);
    if st'.pcs[s].Live? {
      assert live' == live + {s};
    } else if st.pcs[s].Live? {
      assert s in live && live' == live - {s};
    } else {
      assert live' == live;
    }
  }

  lemma UnitStep(info: map<Sid, Info>, st: State, s: Sid, offered: nat)
    requires Inv(info, st) && s in info && (st.pcs[s].Ready? || st.pcs[s].Live?)
    ensures Inv(info, Step(info, st, s, offered))
  {
    hide Accounted;
    var st' := Step(info, st, s, offered);
    var c, user := st.pcs[s].ctx, info[s].user;
    assert HasContext(st.pcs[s]);
    forall u ensures Accounted(info, st', u) {
      if u == user {
        OwnAccount(info, st, s, offered);
      } else {
        Elsewhere(info, st, st', s, c, u);
      }
    }
  }

  lemma StepKeepsInv(info: map<Sid, Info>, st: State, s: Sid, offered: nat)
    requires Inv(info, st)
    ensures Inv(info, Step(info, st, s, offered))
  {
    if s in info && s in st.pcs {
      var st' := Step(info, st, s, offered);
      match st.pcs[s]
      case Absent => if offered !in st.limits { CreateStep(info, st, s, offered); }
      case Ready(_) => UnitStep(info, st, s, offered);
      case Live(_) => UnitStep(info, st, s, offered);
      case _ => QuietStep(info, st, st', s);
    }
  }

  lemma {:induction false} RunKeepsInv(info: map<Sid, Info>, schedule: seq<(Sid, nat)>)
    ensures Inv(info, Run(info, schedule))
  {
    if schedule == [] {
      InitInv(info);
    } else {
      var (s, offered) := schedule[|schedule| - 1];
      RunKeepsInv(info, schedule[..|schedule| - 1]);
      StepKeepsInv(info, Run(info, schedule[..|schedule| - 1]), s, offered);
    }
  }

  /** The live sessions of a user. */
  ghost function LiveOf(info: map<Sid, Info>, st: State, user: string): set<Sid> {
    set s | s in st.pcs && s in info && info[s].user == user && st.pcs[s].Live?
  }

  /** All of them are on the one context the map holds for him. */
  lemma LiveOnHisContext(info: map<Sid, Info>, st: State, user: string)
    requires Inv(info, st) && user in st.allctx
    ensures LiveOf(info, st, user) == LiveOn(st, st.allctx[user])
  {
    forall x | x in st.pcs ensures x in LiveOf(info, st, user) <==> x in LiveOn(st, st.allctx[user]) {
      if st.pcs[x].Live? { assert HasContext(st.pcs[x]); }
    }
  }

  /** A session that asks for a unit gets one exactly when its user has fewer live sessions than the
      base of his context. */
  lemma AdmittedIffRoom(info: map<Sid, Info>, schedule: seq<(Sid, nat)>, s: Sid, offered: nat)
    requires s in info && s in Run(info, schedule).pcs && Run(info, schedule).pcs[s].Ready?
    ensures var st := Run(info, schedule);
            var c := st.pcs[s].ctx;
            && c in st.limits
            && (Step(info, st, s, offered).pcs[s] == Live(c) <==> |LiveOf(info, st, info[s].user)| < st.limits[c].base)
  {
    var st := Run(info, schedule);
    RunKeepsInv(info, schedule);
    assert HasContext(st.pcs[s]) && Accounted(info, st, info[s].user);
    LiveOnHisContext(info, st, info[s].user);
  }

  /** In every reachable state of every interleaving: sessions of one user share one context, its
      units and its live sessions add up to its base, and so no user has more live sessions than a
      limit configured for him (none, if that is not positive). */
  lemma SessionsWithinLimit(info: map<Sid, Info>, schedule: seq<(Sid, nat)>, user: string)
    ensures Run(info, schedule).pcs.Keys == info.Keys
    ensures var st := Run(info, schedule);
            && (forall a, b :: a in info && b in info && info[a].user == info[b].user == user
                    && HasContext(st.pcs[a]) && HasContext(st.pcs[b])
                  ==> st.pcs[a].ctx == st.pcs[b].ctx)
            && (LiveOf(info, st, user) != {} ==>
                  && user in st.allctx && st.allctx[user] in st.limits
                  && var l := st.limits[st.allctx[user]];
                  && |LiveOf(info, st, user)| + l.cnt == l.base
                  && 0 <= l.cnt && |LiveOf(info, st, user)| <= l.base
                  && exists s :: s in info && info[s] == Info(user, l.base))
  {
    var st := Run(info, schedule);
    RunKeepsInv(info, schedule);
    UnitsNeverNegative(info, schedule, user);
    var live := LiveOf(info, st, user);
    if live != {} {
      var s :| s in live;
      assert HasContext(st.pcs[s]);
      assert Accounted(info, st, user);
      LiveOnHisContext(info, st, user);
    }
  }

  /** A limiter that started at or above zero stays there; one configured below admits nobody. */
  ghost predicate UnitsOk(st: State) {
    forall c :: c in st.limits ==> st.limits[c].cnt >= 0 || st.limits[c].cnt == st.limits[c].base
  }

  lemma {:induction false} UnitsRun(info: map<Sid, Info>, schedule: seq<(Sid, nat)>)
    ensures UnitsOk(Run(info, schedule))
  {
    if schedule != [] {
      UnitsRun(info, schedule[..|schedule| - 1]);
    }
  }

  lemma UnitsNeverNegative(info: map<Sid, Info>, schedule: seq<(Sid, nat)>, user: string)
    ensures var st := Run(info, schedule);
            user in st.allctx && st.allctx[user] in st.limits && LiveOn(st, st.allctx[user]) != {} ==>
              st.limits[st.allctx[user]].cnt >= 0
  {
    UnitsRun(info, schedule);
    RunKeepsInv(info, schedule);
    assert Accounted(info, Run(info, schedule), user);
  }

  // ---------- sessions come and go ----------

  /** A run starts with every session before the map read, and takes its steps in order. */
  lemma RunIs(info: map<Sid, Info>, schedule: seq<(Sid, nat)>, s: Sid, offered: nat)
    ensures var st := Run(info, []);
            st.pcs.Keys == info.Keys && (forall x :: x in st.pcs ==> st.pcs[x] == Begin) && st.allctx == map[] && st.limits == map[] && st.holder == None
    ensures Run(info, schedule + [(s, offered)]) == Step(info, Run(info, schedule), s, offered)
  {
    assert (schedule + [(s, offered)])[..|schedule|] == schedule;
  }

  /** No step moves another session, takes away a context or a limiter, or reaches another user's units. */
  lemma OthersStay(info: map<Sid, Info>, st: State, s: Sid, offered: nat)
    requires Inv(info, st)
    ensures var st' := Step(info, st, s, offered);
            && st'.pcs.Keys == st.pcs.Keys && (forall x :: x in st.pcs && x != s ==> st'.pcs[x] == st.pcs[x])
            && (forall u :: u in st.allctx ==> u in st'.allctx && st'.allctx[u] == st.allctx[u])
            && (forall c :: c in st.limits ==> c in st'.limits && st'.limits[c].base == st.limits[c].base)
            && (s in info ==> forall u :: u in st.allctx && u != info[s].user ==> st'.limits[st.allctx[u]] == st.limits[st.allctx[u]])
  {
    if s in info && HasContext(st.pcs[s]) {
      forall u | u in st.allctx && u != info[s].user ensures st.allctx[u] != st.pcs[s].ctx {}
    }
  }

  /** In every reachable state a live session that takes one more step is gone, and with it exactly one of
      its user's live sessions; the unit it held is back. */
  lemma LeavingReleases(info: map<Sid, Info>, schedule: seq<(Sid, nat)>, s: Sid, offered: nat)
    requires s in info && s in Run(info, schedule).pcs && Run(info, schedule).pcs[s].Live?
    ensures var st := Run(info, schedule); var st' := Step(info, st, s, offered); var c, user := st.pcs[s].ctx, info[s].user;
            && s in LiveOf(info, st, user) && st'.pcs[s] == Gone
            && (forall u :: LiveOf(info, st', u) == LiveOf(info, st, u) - if u == user then {s} else {})
            && c in st.limits && st'.limits[c] == Limit(st.limits[c].cnt + 1, st.limits[c].base)
  {
    var st := Run(info, schedule);
    RunKeepsInv(info, schedule);
    assert HasContext(st.pcs[s]) && Accounted(info, st, info[s].user);
    assert s in LiveOn(st, st.pcs[s].ctx);
  }

  /** So a session of the same user that asks next is admitted; asking before that, it would have been
      turned away exactly when all units were out. */
  lemma NextIsAdmitted(info: map<Sid, Info>, schedule: seq<(Sid, nat)>, s: Sid, t: Sid, o: nat, o': nat)
    requires s in info && t in info && info[s].user == info[t].user
    requires var st := Run(info, schedule); s in st.pcs && t in st.pcs && st.pcs[s].Live? && st.pcs[t].Ready?
    ensures var st := Run(info, schedule);
            && Step(info, Step(info, st, s, o), t, o').pcs[t] == Live(st.pcs[t].ctx)
            && st.pcs[t].ctx in st.limits
            && (Step(info, st, t, o').pcs[t] == TurnedAway <==> |LiveOf(info, st, info[s].user)| == st.limits[st.pcs[t].ctx].base)
  {
    var st := Run(info, schedule);
    LeavingReleases(info, schedule, s, o);
    UnitsRun(info, schedule);
    RunKeepsInv(info, schedule);
    UnitsNeverNegative(info, schedule, info[s].user);
    AdmittedIffRoom(info, schedule, t, o');
    SessionsWithinLimit(info, schedule, info[s].user);
    assert HasContext(st.pcs[s]) && HasContext(st.pcs[t]);
    assert s in LiveOn(st, st.allctx[info[s].user]);
  }

  /** A session whose user has a context needs no lock; without one it must look again inside. */
  lemma FirstLook(info: map<Sid, Info>, st: State, s: Sid, offered: nat)
    requires s in info && s in st.pcs && st.pcs[s] == Begin
    ensures var st', user := Step(info, st, s, offered), info[s].user;
            && st' == st.(pcs := st'.pcs)
            && (user in st.allctx ==> st'.pcs[s] == Ready(st.allctx[user]))
            && (user !in st.allctx ==> st'.pcs[s] == Missed)
  {
  }

  // ---------- every session ends ----------

  /** The steps a session has at most before it. */
  function Ahead(pc: Pc): nat {
    match pc
    case Begin => 7
    case Missed => 6
    case Locked => 5
    case Absent => 4
    case Stored(_) => 3
    case Ready(_) => 2
    case Live(_) => 1
    case TurnedAway => 0
    case Gone => 0
  }

  predicate Ended(pc: Pc) {
    pc.TurnedAway? || pc.Gone?
  }

  /** The steps of a schedule in which a session got on. */
  function StepsOf(info: map<Sid, Info>, schedule: seq<(Sid, nat)>, s: Sid): nat {
    if schedule == [] then 0
    else
      var before, last := schedule[..|schedule| - 1], schedule[|schedule| - 1];
      StepsOf(info, before, s) + if last.0 == s && Run(info, schedule) != Run(info, before) then 1 else 0
  }

  /** A step gets its session on, or changes nothing at all. */
  lemma OnOrNothing(info: map<Sid, Info>, st: State, s: Sid, offered: nat)
    requires Inv(info, st)
    ensures var st' := Step(info, st, s, offered);
            st' == st || (s in st.pcs && s in st'.pcs && Ahead(st'.pcs[s]) < Ahead(st.pcs[s]))
  {
  }

  /** Whatever the schedule, no session takes more than seven steps. */
  lemma {:induction false} SevenSteps(info: map<Sid, Info>, schedule: seq<(Sid, nat)>, s: Sid)
    requires s in info
    ensures s in Run(info, schedule).pcs && StepsOf(info, schedule, s) + Ahead(Run(info, schedule).pcs[s]) <= 7
  {
    if schedule != [] {
      var before, last := schedule[..|schedule| - 1], schedule[|schedule| - 1];
      SevenSteps(info, before, s);
      RunKeepsInv(info, before);
      OnOrNothing(info, Run(info, before), last.0, last.1);
      OthersStay(info, Run(info, before), last.0, last.1);
    }
  }

  /** Nobody is stuck: in every reachable state a session that has not ended gets on with its next step,
      offered an unused identity, or it waits for the lock and whoever holds it gets on. */
  lemma NobodyIsStuck(info: map<Sid, Info>, schedule: seq<(Sid, nat)>, s: Sid, offered: nat)
    requires s in info && s in Run(info, schedule).pcs && !Ended(Run(info, schedule).pcs[s])
    requires offered !in Run(info, schedule).limits
    ensures var st := Run(info, schedule);
            var x := if st.pcs[s].Missed? && st.holder.Some? then st.holder.value else s;
            && x in st.pcs && Step(info, st, x, offered).pcs != st.pcs
            && (x != s ==> InLock(st.pcs[x]))
  {
    var st := Run(info, schedule);
    RunKeepsInv(info, schedule);
    var x := if st.pcs[s].Missed? && st.holder.Some? then st.holder.value else s;
    if HasContext(st.pcs[x]) { assert st.pcs[x].ctx in st.limits; }
    assert Step(info, st, x, offered).pcs[x] != st.pcs[x];
  }

  /** Once every session has ended, the lock is free and all units are back. */
  lemma WhenAllHaveEnded(info: map<Sid, Info>, schedule: seq<(Sid, nat)>)
    requires forall s :: s in Run(info, schedule).pcs ==> Ended(Run(info, schedule).pcs[s])
    ensures var st := Run(info, schedule);
            && st.holder == None
            && forall u :: u in st.allctx ==> st.allctx[u] in st.limits && st.limits[st.allctx[u]].cnt == st.limits[st.allctx[u]].base
  {
    var st := Run(info, schedule);
    RunKeepsInv(info, schedule);
    forall u | u in st.allctx ensures st.allctx[u] in st.limits && st.limits[st.allctx[u]].cnt == st.limits[st.allctx[u]].base {
      assert Accounted(info, st, u);
      assert LiveOn(st, st.allctx[u]) == {};
    }
  }
}
