/**
 The session repository: a session lives as long as it is checked again before its time to
 live has passed. Clock readings and session ids are given to the calls.
 */
module Sessions {
  import opened Wrappers

  type SessionId = string

  /** Clock readings, in ticks of the system clock. */
  type Ticks = int

  const TicksPerSecond: int := 1_000_000_000

  datatype Session = Session(userData: string, creationTime: Ticks)

  type SessionMap = map<SessionId, Session>

  // ---------------------------------------------------------------- what the calls do

  /** The conversion to whole seconds, which drops the fraction on either side of zero. */
  function WholeSeconds(ticks: Ticks): int {
    if ticks >= 0 then ticks / TicksPerSecond else -(-ticks / TicksPerSecond)
  }

  predicate Fits(gap: Ticks, ttl: int) {
    WholeSeconds(gap) < ttl
  }

  /** An id that is taken keeps the session it has. */
  function Created(m: SessionMap, id: SessionId, userData: string, now: Ticks): SessionMap {
    if id in m then m else m[id := Session(userData, now)]
  }

  predicate IsValid(m: SessionMap, ttl: int, id: SessionId, now: Ticks) {
    id in m && Fits(now - m[id].creationTime, ttl)
  }

  function Checked(m: SessionMap, ttl: int, id: SessionId, now: Ticks): SessionMap {
    if id in m && !IsValid(m, ttl, id, now) then m - {id} else m
  }

  function Extended(m: SessionMap, id: SessionId, now: Ticks): SessionMap {
    if id in m then m[id := m[id].(creationTime := now)] else m
  }

  // ---------------------------------------------------------------- the repository

  class SessionRepository {
    var sessions: SessionMap
    var sessionTTL: int

    constructor ()
      ensures sessions == map[] && sessionTTL == 1800
    {
      sessions, sessionTTL := map[], 1800;
    }

    method SetSessionTTL(ttl: int)
      modifies this`sessionTTL
      ensures sessionTTL == ttl
    {
      sessionTTL := ttl;
    }

    method CreateSessionID(userData: string, generated: SessionId, now: Ticks) returns (id: SessionId)
      modifies this`sessions
      ensures id == generated && sessions == Created(old(sessions), id, userData, now)
    {
      id := generated;
      if id !in sessions {
        sessions := sessions[id := Session(userData, now)];
      }
    }

    method IsSessionValid(id: SessionId, now: Ticks) returns (valid: bool)
      modifies this`sessions
      ensures valid == IsValid(old(sessions), sessionTTL, id, now)
      ensures sessions == Checked(old(sessions), sessionTTL, id, now)
    {
      if id !in sessions {
        return false;
      }
      var session := sessions[id];
      if WholeSeconds(now - session.creationTime) < sessionTTL {
        return true;
      } else {
        sessions := sessions - {id};
        return false;
      }
    }

    method ExtendSessionTime(id: SessionId, now: Ticks)
      modifies this`sessions
      ensures sessions == Extended(old(sessions), id, now)
    {
      if id in sessions {
        sessions := sessions[id := sessions[id].(creationTime := now)];
      }
    }

    method GetSessionData(id: SessionId) returns (r: Result<Session, string>)
      ensures r.Ok? <==> id in sessions
      ensures r.Ok? ==> r.value == sessions[id]
    {
      if id in sessions {
        return Ok(sessions[id]);
      }
      return Err("no such session");
    }

    /** The check each page makes; the clock is read once to validate and once more to extend. */
    method IsSessionOk(cookies: map<string, string>, now: Ticks, later: Ticks) returns (ok: bool)
      modifies this`sessions
      ensures ok == ("session_id" in cookies && IsValid(old(sessions), sessionTTL, cookies["session_id"], now))
      ensures "session_id" !in cookies ==> sessions == old(sessions)
      ensures "session_id" in cookies ==>
                sessions == After(old(sessions), sessionTTL, Check(Some(cookies["session_id"]), now, later))
    {
      if "session_id" !in cookies {
        return false;
      }
      var id := cookies["session_id"];
      var valid := IsSessionValid(id, now);
      if !valid {
        return false;
      }
      ExtendSessionTime(id, later);
      return true;
    }
  }

  // ---------------------------------------------------------------- runs

  datatype Event =
    | Create(newId: SessionId, userData: string, now: Ticks)
    | Check(id: Option<SessionId>, now: Ticks, later: Ticks)

  function After(m: SessionMap, ttl: int, e: Event): SessionMap {
    match e
    case Create(id, userData, now) => Created(m, id, userData, now)
    case Check(None, _, _) => m
    case Check(Some(id), now, later) =>
      if IsValid(m, ttl, id, now) then Extended(m, id, later) else Checked(m, ttl, id, now)
  }

  function Run(es: seq<Event>, ttl: int): SessionMap {
    if es == [] then map[] else After(Run(es[..|es| - 1], ttl), ttl, es[|es| - 1])
  }

  /** Whether the last event is a check that lets its session through. */
  predicate Accepts(es: seq<Event>, ttl: int)
    requires es != []
  {
    var e := es[|es| - 1];
    e.Check? && e.id.Some? && IsValid(Run(es[..|es| - 1], ttl), ttl, e.id.value, e.now)
  }

  function Finish(e: Event): Ticks {
    if e.Check? then e.later else e.now
  }

  /** The clock never goes back. */
  ghost predicate ClockAdvances(es: seq<Event>) {
    && (forall i | 0 <= i < |es| :: es[i].now <= Finish(es[i]))
    && forall i, j | 0 <= i < j < |es| :: Finish(es[i]) <= es[j].now
  }

  /** A moment that concerns a session: when it was looked at, and the time noted for it. */
  datatype Touch = Touch(looked: Ticks, noted: Ticks)

  /** Each touch comes less than the time to live after the one before. */
  predicate GapsShort(ts: seq<Touch>, ttl: int) {
    forall i | 0 < i < |ts| :: ts[i].looked - ts[i - 1].noted < ttl * TicksPerSecond
  }

  /** The latest session under an id: what it was created with, its creation and every check after that. */
  datatype Life = Never | Lived(userData: string, touches: seq<Touch>) {
    predicate Alive(ttl: int) {
      Lived? && GapsShort(touches, ttl)
    }
  }

  /** An id that is given out again starts a new session if the last one had lapsed, and is its old self if not. */
  function LifeOf(es: seq<Event>, ttl: int, id: SessionId): (r: Life)
    ensures r.Lived? ==> r.touches != []
  {
    if es == [] then Never
    else
      var before, e := LifeOf(es[..|es| - 1], ttl, id), es[|es| - 1];
      match e
      case Create(newId, userData, now) =>
        if newId == id && !before.Alive(ttl) then Lived(userData, [Touch(now, now)]) else before
      case Check(checked, now, later) =>
        if checked == Some(id) && before.Lived? then before.(touches := before.touches + [Touch(now, later)])
        else before
  }

  // ---------------------------------------------------------------- what a run keeps

  lemma FitsExactlyWhenShort(gap: Ticks, ttl: int)
    requires gap >= 0 || ttl > 0
    ensures Fits(gap, ttl) <==> gap < ttl * TicksPerSecond
    ensures TicksPerSecond == 1_000_000_000
  {
  }

  lemma {:induction false} LivedExactlyWhenCreated(es: seq<Event>, ttl: int, id: SessionId)
    ensures LifeOf(es, ttl, id).Lived? <==> exists i :: 0 <= i < |es| && es[i].Create? && es[i].newId == id
  {
    if es != [] {
      var n := |es| - 1;
      LivedExactlyWhenCreated(es[..n], ttl, id);
      if LifeOf(es[..n], ttl, id).Lived? {
        var i :| 0 <= i < n && es[..n][i].Create? && es[..n][i].newId == id;
        assert es[i].Create? && es[i].newId == id;
      }
      if i :| 0 <= i < |es| && es[i].Create? && es[i].newId == id {
        if i < n { assert es[..n][i] == es[i]; }
      }
    }
  }

  lemma {:induction false} LastTouchIsPast(es: seq<Event>, ttl: int, id: SessionId)
    requires ClockAdvances(es) && LifeOf(es, ttl, id).Lived?
    ensures var ts := LifeOf(es, ttl, id).touches;
            exists i :: 0 <= i < |es| && ts[|ts| - 1].noted == Finish(es[i])
  {
    var n := |es| - 1;
    var before := LifeOf(es[..n], ttl, id);
    if LifeOf(es, ttl, id) == before {
      LastTouchIsPast(es[..n], ttl, id);
      var ts := before.touches;
      var i :| 0 <= i < n && ts[|ts| - 1].noted == Finish(es[..n][i]);
      assert es[i] == es[..n][i];
    } else {
      var ts := LifeOf(es, ttl, id).touches;
      assert ts[|ts| - 1].noted == Finish(es[n]);
    }
  }

  /** What the map holds for an id: its session with the time of the last touch, or nothing. */
  ghost predicate Tracks(m: SessionMap, life: Life, ttl: int, id: SessionId)
    requires life.Lived? ==> life.touches != []
  {
    && (id in m <==> life.Alive(ttl))
    && (id in m ==> m[id] == Session(life.userData, life.touches[|life.touches| - 1].noted))
  }

  lemma GapsShortSnoc(ts: seq<Touch>, t: Touch, ttl: int)
    requires ts != []
    ensures GapsShort(ts + [t], ttl) <==> GapsShort(ts, ttl) && t.looked - ts[|ts| - 1].noted < ttl * TicksPerSecond
  {
    var all := ts + [t];
    assert forall i | 0 <= i < |ts| :: all[i] == ts[i];
    if GapsShort(all, ttl) {
      assert all[|ts|].looked - all[|ts| - 1].noted < ttl * TicksPerSecond;
      forall i | 0 < i < |ts| ensures ts[i].looked - ts[i - 1].noted < ttl * TicksPerSecond {
        assert all[i].looked - all[i - 1].noted < ttl * TicksPerSecond;
      }
    }
  }

  /** After any run, ids given out twice included, an id is stored exactly while its session is alive. */
  lemma {:induction false} RunTracks(es: seq<Event>, ttl: int, id: SessionId)
    requires ClockAdvances(es) || ttl > 0
    ensures Tracks(Run(es, ttl), LifeOf(es, ttl, id), ttl, id)
  {
    if es != [] {
      var n := |es| - 1;
      var life, e := LifeOf(es[..n], ttl, id), es[n];
      RunTracks(es[..n], ttl, id);
      match e
      case Create(_, _, _) =>
      case Check(checked, now, later) =>
        if checked == Some(id) && life.Lived? {
          CheckTracks(es, ttl, id);
        }
    }
  }

  /** A check lets a session through exactly when one more touch at its time keeps it alive. */
  lemma CheckTracks(es: seq<Event>, ttl: int, id: SessionId)
    requires es != [] && (ClockAdvances(es) || ttl > 0)
    requires es[|es| - 1].Check? && es[|es| - 1].id == Some(id)
    requires Tracks(Run(es[..|es| - 1], ttl), LifeOf(es[..|es| - 1], ttl, id), ttl, id)
    ensures Accepts(es, ttl) <==> LifeOf(es, ttl, id).Alive(ttl)
  {
    var n := |es| - 1;
    var life, e := LifeOf(es[..n], ttl, id), es[n];
    if life.Lived? {
      var ts := life.touches;
      if ttl <= 0 { LastTouchIsPast(es[..n], ttl, id); }
      FitsExactlyWhenShort(e.now - ts[|ts| - 1].noted, ttl);
      GapsShortSnoc(ts, Touch(e.now, e.later), ttl);
    }
  }

  /**
   A check lets a session through exactly when the id was given out in this run and every gap
   between two touches of its session, up to this very check, is below the time to live.
   */
  lemma {:induction false} AcceptsExactlyWhenGapsShort(es: seq<Event>, ttl: int, id: SessionId)
    requires es != [] && (ClockAdvances(es) || ttl > 0)
    requires es[|es| - 1].Check? && es[|es| - 1].id == Some(id)
    ensures var life := LifeOf(es, ttl, id);
            && (Accepts(es, ttl) <==> life.Lived? && GapsShort(life.touches, ttl))
            && (life.Lived? <==> exists i :: 0 <= i < |es| && es[i].Create? && es[i].newId == id)
  {
    LivedExactlyWhenCreated(es, ttl, id);
    RunTracks(es[..|es| - 1], ttl, id);
    CheckTracks(es, ttl, id);
  }

  /** A session that has lapsed stays lapsed for as long as its id is not given out again. */
  lemma {:induction false} LapsedStaysLapsed(es: seq<Event>, ttl: int, id: SessionId, n: nat)
    requires n <= |es| && !LifeOf(es[..n], ttl, id).Alive(ttl)
    requires forall i | n <= i < |es| && es[i].Create? :: es[i].newId != id
    ensures !LifeOf(es, ttl, id).Alive(ttl)
    decreases |es|
  {
    if n == |es| {
      assert es[..n] == es;
    } else {
      var last := |es| - 1;
      assert es[..last][..n] == es[..n];
      LapsedStaysLapsed(es[..last], ttl, id, n);
      var life, e := LifeOf(es[..last], ttl, id), es[last];
      if life.Lived? && e.Check? { GapsShortSnoc(life.touches, Touch(e.now, e.later), ttl); }
    }
  }

  /**
   Once a check turns an id away, no later check lets it through, unless the id is given out
   only after that.
   */
  lemma TurnedAwayForGood(es: seq<Event>, ttl: int, id: SessionId, n: nat)
    requires 0 < n <= |es| && (ClockAdvances(es) || ttl > 0)
    requires es[n - 1].Check? && es[n - 1].id == Some(id) && !Accepts(es[..n], ttl)
    requires es[|es| - 1].Check? && es[|es| - 1].id == Some(id)
    requires forall i | n <= i < |es| && es[i].Create? :: es[i].newId != id
    ensures !Accepts(es, ttl)
  {
    RunTracks(es[..n][..n - 1], ttl, id);
    CheckTracks(es[..n], ttl, id);
    LapsedStaysLapsed(es, ttl, id, n);
    RunTracks(es[..|es| - 1], ttl, id);
    CheckTracks(es, ttl, id);
  }

  /** The session is one of those created under its id in this run. */
  lemma {:induction false} LifeHoldsUserData(es: seq<Event>, ttl: int, id: SessionId)
    requires LifeOf(es, ttl, id).Lived?
    ensures exists i :: 0 <= i < |es| && es[i].Create? && es[i].newId == id && es[i].userData == LifeOf(es, ttl, id).userData
  {
    var n := |es| - 1;
    var before := LifeOf(es[..n], ttl, id);
    if before.Lived? && before.userData == LifeOf(es, ttl, id).userData {
      LifeHoldsUserData(es[..n], ttl, id);
      var i :| 0 <= i < n && es[..n][i].Create? && es[..n][i].newId == id && es[..n][i].userData == before.userData;
      assert es[i] == es[..n][i];
    } else {
      assert es[n].Create? && es[n].newId == id;
    }
  }

  /**
   After a check has let a session through, its data can be read: it is what the session was
   created with, and the session's time is that of the check.
   */
  lemma {:induction false} DataAfterAcceptance(es: seq<Event>, ttl: int, id: SessionId)
    requires es != [] && (ClockAdvances(es) || ttl > 0) && Accepts(es, ttl) && es[|es| - 1].id == Some(id)
    ensures id in Run(es, ttl)
    ensures LifeOf(es, ttl, id).Lived?
    ensures Run(es, ttl)[id] == Session(LifeOf(es, ttl, id).userData, es[|es| - 1].later)
    ensures exists i :: 0 <= i < |es| && es[i].Create? && es[i].newId == id && es[i].userData == Run(es, ttl)[id].userData
  {
    RunTracks(es, ttl, id);
    LifeHoldsUserData(es, ttl, id);
  }

  /**
   The first owner keeps the session: a second creation under an id that is still stored
   hands out that id, but changes neither data nor time.
   */
  lemma SecondCreationChangesNothing(es: seq<Event>, ttl: int, id: SessionId, userData: string, now: Ticks)
    requires id in Run(es, ttl)
    ensures Run(es + [Create(id, userData, now)], ttl) == Run(es, ttl)
  {
    assert (es + [Create(id, userData, now)])[..|es|] == es;
  }

  // ---------------------------------------------------------------- ids that are never given out twice

  ghost predicate FreshIds(es: seq<Event>) {
    forall i, j | 0 <= i < j < |es| && es[i].Create? && es[j].Create? :: es[i].newId != es[j].newId
  }

  /** The checks of an id. */
  function Checks(es: seq<Event>, id: SessionId): seq<Touch> {
    if es == [] then []
    else
      var before, e := Checks(es[..|es| - 1], id), es[|es| - 1];
      if e.Check? && e.id == Some(id) then before + [Touch(e.now, e.later)] else before
  }

  /** With fresh ids a session is its one creation and all checks after it. */
  lemma {:induction false} FreshIdLivesOnce(es: seq<Event>, ttl: int, id: SessionId, n: nat)
    requires FreshIds(es) && n < |es| && es[n].Create? && es[n].newId == id
    ensures LifeOf(es, ttl, id) == Lived(es[n].userData, [Touch(es[n].now, es[n].now)] + Checks(es[n + 1..], id))
    decreases |es|
  {
    var last := |es| - 1;
    if n == last {
      forall i | 0 <= i < last && es[..last][i].Create? ensures es[..last][i].newId != id {
        assert es[..last][i] == es[i];
      }
      LivedExactlyWhenCreated(es[..last], ttl, id);
      assert es[n + 1..] == [];
    } else {
      FreshIdLivesOnce(es[..last], ttl, id, n);
      var rest := es[n + 1..];
      assert rest[..|rest| - 1] == es[..last][n + 1..] && rest[|rest| - 1] == es[last];
      assert es[last].Create? ==> es[last].newId != id;
    }
  }

  /** So with fresh ids a check succeeds exactly when all gaps since the creation were short. */
  lemma FreshIdAcceptedExactlyWhen(es: seq<Event>, ttl: int, id: SessionId, n: nat)
    requires FreshIds(es) && n < |es| && es[n].Create? && es[n].newId == id
    requires ClockAdvances(es) || ttl > 0
    requires es[|es| - 1].Check? && es[|es| - 1].id == Some(id)
    ensures Accepts(es, ttl) <==> GapsShort([Touch(es[n].now, es[n].now)] + Checks(es[n + 1..], id), ttl)
  {
    FreshIdLivesOnce(es, ttl, id, n);
    AcceptsExactlyWhenGapsShort(es, ttl, id);
  }
}
