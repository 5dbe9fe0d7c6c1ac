/**
 * The session registry of `AgentService` (src/remip_example/services.py): talk
 * sessions filed per user in insertion order, one response queue per session,
 * and the command queue through which the worker thread is told what to do.
 *
 * The worker thread, the agent runs and the queues' contents are not modelled;
 * `uuid.uuid4()` is a parameter.
 */
module Services {
  import opened Wrappers
  import opened OrderedMaps

  /** `TalkSession`. */
  datatype TalkSession = TalkSession(id: string, userId: string, agentMode: bool)

  /** The commands the registry puts on the worker's command queue. */
  datatype Command =
    | CreateAdkSession(sessionId: string, userId: string, agentMode: bool)
    | Terminate

  /** `KeyError(key)`. */
  datatype KeyError = KeyError(key: string)

  /** `_sessions`: user id, then session id, in insertion order. */
  type Registry = map<string, OMap<string, TalkSession>>

  /** `queue.Queue(maxsize=1)`: a session's response queue holds one item at a time. */
  const OutputQueueCapacity := 1

  /** `self._sessions.get(user_id, {})`. */
  function UserSessions(reg: Registry, userId: string): OMap<string, TalkSession> {
    if userId in reg then reg[userId] else []
  }

  /** Lines 45-51: files a new session under its user, creating the user's entry if needed. */
  function Register(reg: Registry, userId: string, sessionId: string, agentMode: bool): Registry {
    reg[userId := Put(UserSessions(reg, userId), sessionId, TalkSession(sessionId, userId, agentMode))]
  }

  /** `get_talk_session` (lines 60-61): `KeyError` names the first key that is missing. */
  function Lookup(reg: Registry, userId: string, sessionId: string): Result<TalkSession, KeyError> {
    if userId !in reg then Failure(KeyError(userId))
    else if !Contains(reg[userId], sessionId) then Failure(KeyError(sessionId))
    else Success(Get(reg[userId], sessionId))
  }

  /** `list_talk_sessions` (lines 63-64). */
  function SessionIds(reg: Registry, userId: string): seq<string> {
    Keys(UserSessions(reg, userId))
  }

  /** Every user's sessions have distinct ids, and each is filed under its own id and user. */
  predicate WellFormed(reg: Registry) {
    forall u :: u in reg ==>
      && Valid(reg[u])
      && (forall i :: 0 <= i < |reg[u]| ==> reg[u][i].1.id == reg[u][i].0 && reg[u][i].1.userId == u)
  }

  /** Every registered session has a response queue and has had its ADK session requested. */
  predicate Queued(reg: Registry, queues: map<string, nat>, commands: seq<Command>) {
    forall u, i :: u in reg && 0 <= i < |reg[u]| ==>
      && reg[u][i].1.id in queues && queues[reg[u][i].1.id] == OutputQueueCapacity
      && CreateAdkSession(reg[u][i].1.id, u, reg[u][i].1.agentMode) in commands
  }

  /** `AgentService`'s bookkeeping. */
  class AgentService {
    var sessions: Registry
    var commands: seq<Command>
    var outputQueues: map<string, nat>
    var isRunning: bool

    /** The registry is well formed and every session in it is queued. */
    ghost predicate Valid()
      reads this
    {
      WellFormed(sessions) && Queued(sessions, outputQueues, commands)
    }

    /** `__init__`, without starting the worker thread. */
    constructor ()
      ensures sessions == map[] && commands == [] && outputQueues == map[] && isRunning
      ensures Valid()
    {
      sessions := map[];
      commands := [];
      outputQueues := map[];
      isRunning := true;
    }

    /**
     * `create_talk_session` with `sessionId` standing for `str(uuid.uuid4())`:
     * files the session, gives it a response queue of capacity 1, and asks the
     * worker to create the matching ADK session.
     */
    method CreateTalkSession(userId: string, isAgentMode: bool, sessionId: string) returns (id: string)
      requires Valid()
      modifies this
      ensures Valid()
      ensures id == sessionId
      ensures sessions == Register(old(sessions), userId, sessionId, isAgentMode)
      ensures outputQueues == old(outputQueues)[sessionId := OutputQueueCapacity]
      ensures commands == old(commands) + [CreateAdkSession(sessionId, userId, isAgentMode)]
      ensures isRunning == old(isRunning)
    {
      if userId !in sessions {
        sessions := sessions[userId := []];
      }
      ghost var before := old(sessions);
      sessions := sessions[userId := Put(sessions[userId], sessionId, TalkSession(sessionId, userId, isAgentMode))];
      assert sessions == Register(before, userId, sessionId, isAgentMode);
      outputQueues := outputQueues[sessionId := OutputQueueCapacity];
      commands := commands + [CreateAdkSession(sessionId, userId, isAgentMode)];
      RegisterWellFormed(before, userId, sessionId, isAgentMode);
      RegisterKeepsQueued(before, userId, sessionId, isAgentMode, old(commands), commands, old(outputQueues), outputQueues);
      id := sessionId;
    }

    /** `get_talk_session`. */
    function GetTalkSession(userId: string, sessionId: string): (r: Result<TalkSession, KeyError>)
      reads this
      ensures r == Lookup(sessions, userId, sessionId)
      ensures Valid() && r.Success? ==> r.value.id == sessionId && r.value.userId == userId
    {
      LookupFinds(sessions, userId, sessionId);
      Lookup(sessions, userId, sessionId)
    }

    /** `list_talk_sessions`: the user's session ids in creation order, none for an unknown user. */
    function ListTalkSessions(userId: string): (ids: seq<string>)
      reads this
      ensures userId !in sessions ==> ids == []
      ensures forall sessionId :: sessionId in ids <==> Lookup(sessions, userId, sessionId).Success?
    {
      ListedIffFound(sessions, userId);
      SessionIds(sessions, userId)
    }

    /** `stop`: the worker is told to terminate; the registry is untouched. */
    method Stop()
      requires Valid()
      modifies this
      ensures Valid()
      ensures !isRunning
      ensures commands == old(commands) + [Terminate]
      ensures sessions == old(sessions) && outputQueues == old(outputQueues)
    {
      isRunning := false;
      commands := commands + [Terminate];
    }
  }

  /** A well-formed registry hands back the session filed under the ids asked for. */
  lemma LookupFinds(reg: Registry, userId: string, sessionId: string)
    ensures WellFormed(reg) && Lookup(reg, userId, sessionId).Success? ==>
      Lookup(reg, userId, sessionId).value.id == sessionId && Lookup(reg, userId, sessionId).value.userId == userId
  {
    if WellFormed(reg) && Lookup(reg, userId, sessionId).Success? {
      var i := IndexOf(reg[userId], sessionId);
      assert reg[userId][i].1 == Get(reg[userId], sessionId);
    }
  }

  /** A session id is listed for a user exactly when it can be looked up. */
  lemma ListedIffFound(reg: Registry, userId: string)
    ensures forall sessionId :: sessionId in SessionIds(reg, userId) <==> Lookup(reg, userId, sessionId).Success?
  {
    forall sessionId
      ensures sessionId in SessionIds(reg, userId) <==> Lookup(reg, userId, sessionId).Success?
    {
      ContainsIffInKeys(UserSessions(reg, userId), sessionId);
    }
  }

  /** Registering keeps the registry well formed. */
  lemma RegisterWellFormed(reg: Registry, userId: string, sessionId: string, agentMode: bool)
    requires WellFormed(reg)
    ensures WellFormed(Register(reg, userId, sessionId, agentMode))
  {
    var m := UserSessions(reg, userId);
    var r := Put(m, sessionId, TalkSession(sessionId, userId, agentMode));
    forall i | 0 <= i < |r|
      ensures r[i].1.id == r[i].0 && r[i].1.userId == userId
    {
      if i < |m| && m[i].0 != sessionId {
        assert r[i] == m[i];
      }
    }
  }

  /** Registering a session and adding its queue and command keeps every session queued. */
  lemma RegisterKeepsQueued(reg: Registry, userId: string, sessionId: string, agentMode: bool,
                            commands: seq<Command>, commands': seq<Command>,
                            queues: map<string, nat>, queues': map<string, nat>)
    requires WellFormed(reg) && Queued(reg, queues, commands)
    requires commands' == commands + [CreateAdkSession(sessionId, userId, agentMode)]
    requires queues' == queues[sessionId := OutputQueueCapacity]
    ensures Queued(Register(reg, userId, sessionId, agentMode), queues', commands')
  {
    var reg': Registry := Register(reg, userId, sessionId, agentMode);
    var m := UserSessions(reg, userId);
    forall u: string, i: int | u in reg' && 0 <= i < |reg'[u]|
      ensures reg'[u][i].1.id in queues' && queues'[reg'[u][i].1.id] == OutputQueueCapacity
      ensures CreateAdkSession(reg'[u][i].1.id, u, reg'[u][i].1.agentMode) in commands'
    {
      if u == userId && (i >= |m| || m[i].0 == sessionId) {
        assert reg'[u][i].1 == TalkSession(sessionId, userId, agentMode);
        assert commands'[|commands|] == CreateAdkSession(sessionId, userId, agentMode);
      } else if u == userId {
        assert reg'[u][i] == m[i];
        assert CreateAdkSession(m[i].1.id, u, m[i].1.agentMode) in commands;
      } else {
        assert reg'[u] == reg[u];
      }
    }
  }

  /** Looking a session up right after creating it returns exactly that session. */
  lemma LookupAfterRegister(reg: Registry, userId: string, sessionId: string, agentMode: bool)
    requires WellFormed(reg)
    ensures Lookup(Register(reg, userId, sessionId, agentMode), userId, sessionId)
         == Success(TalkSession(sessionId, userId, agentMode))
  {
    PutFacts(UserSessions(reg, userId), sessionId, TalkSession(sessionId, userId, agentMode));
  }

  /**
   * Creating a session leaves every other session, of this user or any other,
   * as it was: found exactly when it was found before, with the same value.
   */
  lemma RegisterKeepsOthers(reg: Registry, userId: string, sessionId: string, agentMode: bool, u: string, s: string)
    requires WellFormed(reg) && (u != userId || s != sessionId)
    ensures var reg' := Register(reg, userId, sessionId, agentMode);
      && (Lookup(reg', u, s).Success? <==> Lookup(reg, u, s).Success?)
      && (Lookup(reg, u, s).Success? ==> Lookup(reg', u, s).value == Lookup(reg, u, s).value)
  {
    PutFacts(UserSessions(reg, userId), sessionId, TalkSession(sessionId, userId, agentMode));
  }

  /**
   * The user's list gains the new id at its end, unless the id was already
   * listed; every other user's list is unchanged.
   */
  lemma RegisterLists(reg: Registry, userId: string, sessionId: string, agentMode: bool, u: string)
    requires WellFormed(reg)
    ensures var ids, ids' := SessionIds(reg, u), SessionIds(Register(reg, userId, sessionId, agentMode), u);
      && (u == userId && sessionId !in ids ==> ids' == ids + [sessionId])
      && (u == userId && sessionId in ids ==> ids' == ids)
      && (u != userId ==> ids' == ids)
  {
    var m := UserSessions(reg, userId);
    PutFacts(m, sessionId, TalkSession(sessionId, userId, agentMode));
    ContainsIffInKeys(m, sessionId);
  }
}
