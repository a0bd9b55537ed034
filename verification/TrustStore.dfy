/** Enrolled agents, their keys, and the trail of rotations and revocations. */
module TrustStore {
  import opened Prelude

  /** The UTF-8 bytes of a hex-encoded public key. */
  type Key = seq<byte>

  datatype Agent = Agent(agentId: string, publicKey: Key, version: nat, keyHistory: seq<Key>, revoked: bool)

  datatype Event =
    | Rotated(agentId: string, oldKeyHash: string, newKeyHash: string, version: nat)
    | RevokedNow(agentId: string, oldKeyHash: string, version: nat)

  datatype Store = Store(agents: map<Key, Agent>, log: seq<Event>)

  const Empty := Store(map[], [])

  // ---- Key hashes ------------------------------------------------------------------------------

  function Digit(n: nat): char
    requires n < 16
  {
    if n < 10 then ('0' as int + n) as char else ('a' as int + n - 10) as char
  }

  /** The "hash" of a key in the log is its lower-case hex text. */
  function KeyHash(key: Key): (h: string)
    ensures |h| == 2 * |key|
  {
    if key == [] then "" else KeyHash(Front(key)) + [Digit(Last(key) / 16), Digit(Last(key) % 16)]
  }

  lemma DigitInjective(m: nat, n: nat)
    requires m < 16 && n < 16 && Digit(m) == Digit(n)
    ensures m == n
  {
  }

  /** The number a lower-case hex digit stands for. */
  function DigitValue(c: char): int {
    if '0' <= c <= '9' then c as int - '0' as int else c as int - 'a' as int + 10
  }

  /** Each byte is found in its place, the higher half first, in lower-case digits. */
  lemma {:induction false} KeyHashReadsBack(key: Key, i: nat)
    requires i < |key|
    ensures key[i] == 16 * DigitValue(KeyHash(key)[2 * i]) + DigitValue(KeyHash(key)[2 * i + 1])
    ensures forall j :: 2 * i <= j <= 2 * i + 1 ==> '0' <= KeyHash(key)[j] <= '9' || 'a' <= KeyHash(key)[j] <= 'f'
  {
    if i < |key| - 1 {
      KeyHashReadsBack(Front(key), i);
    }
  }

  /** No two keys share a hash, so an event names its keys. */
  lemma {:induction false} KeyHashInjective(a: Key, b: Key)
    requires KeyHash(a) == KeyHash(b)
    ensures a == b
  {
    if a != [] {
      var x, y := KeyHash(a), KeyHash(b);
      assert x[..|x| - 2] == KeyHash(Front(a)) && y[..|y| - 2] == KeyHash(Front(b));
      KeyHashInjective(Front(a), Front(b));
      DigitInjective(Last(a) / 16, Last(b) / 16);
      DigitInjective(Last(a) % 16, Last(b) % 16);
      assert a == Front(a) + [Last(a)] && b == Front(b) + [Last(b)];
    }
  }

  // ---- Operations -------------------------------------------------------------------------------

  datatype Op =
    | Register(agentId: string, key: Key)
    | Revoke(key: Key)
    | RevokeImmediate(key: Key)
    | RotateKey(oldKey: Key, newKey: Key)

  function Renewed(a: Agent, oldKey: Key, newKey: Key): Agent {
    Agent(a.agentId, newKey, a.version + 1, a.keyHistory + [oldKey], false)
  }

  function Apply(s: Store, op: Op): Store {
    match op
    case Register(id, key) => s.(agents := s.agents[key := Agent(id, key, 1, [], false)])
    case Revoke(key) => s.(agents := s.agents - {key})
    case RevokeImmediate(key) =>
      if key !in s.agents then s
      else
        var a := s.agents[key];
        Store(s.agents[key := a.(revoked := true)], s.log + [RevokedNow(a.agentId, KeyHash(key), a.version)])
    case RotateKey(old', new') =>
      if old' !in s.agents then s
      else
        var a := Renewed(s.agents[old'], old', new');
        Store((s.agents - {old'})[new' := a], s.log + [Rotated(a.agentId, KeyHash(old'), KeyHash(new'), a.version)])
  }

  function Run(s: Store, ops: seq<Op>): Store {
    if ops == [] then s else Apply(Run(s, Front(ops)), Last(ops))
  }

  predicate IsTrusted(s: Store, key: Key) {
    key in s.agents && !s.agents[key].revoked
  }

  // ---- The trail of a key -----------------------------------------------------------------------------

  /**
    * The log holds, in this order, one rotation from each key of `keys` to the next, with versions
    * 2, 3 and so on.
    */
  ghost predicate Trail(log: seq<Event>, agentId: string, keys: seq<Key>)
    decreases |keys|
  {
    |keys| >= 2 ==>
      exists p :: 0 <= p < |log| && LastLink(log[p], agentId, keys) && Trail(log[..p], agentId, Front(keys))
  }

  ghost predicate LastLink(e: Event, agentId: string, keys: seq<Key>)
    requires |keys| >= 2
  {
    e == Rotated(agentId, KeyHash(keys[|keys| - 2]), KeyHash(Last(keys)), |keys|)
  }

  /** An agent is stored under its own key, its version counts its keys, and the log tells how it got there. */
  ghost predicate Documented(log: seq<Event>, key: Key, a: Agent) {
    && a.publicKey == key
    && a.version == 1 + |a.keyHistory|
    && Trail(log, a.agentId, a.keyHistory + [key])
  }

  ghost predicate Inv(s: Store) {
    forall key :: key in s.agents ==> Documented(s.log, key, s.agents[key])
  }

  lemma TrailSurvives(log: seq<Event>, e: Event, agentId: string, keys: seq<Key>)
    requires Trail(log, agentId, keys)
    ensures Trail(log + [e], agentId, keys)
  {
    if |keys| >= 2 {
      var p :| 0 <= p < |log| && LastLink(log[p], agentId, keys) && Trail(log[..p], agentId, Front(keys));
      assert (log + [e])[p] == log[p] && (log + [e])[..p] == log[..p];
    }
  }

  lemma TrailGrows(log: seq<Event>, agentId: string, keys: seq<Key>, newKey: Key)
    requires keys != []
    requires Trail(log, agentId, keys)
    ensures Trail(log + [Rotated(agentId, KeyHash(Last(keys)), KeyHash(newKey), |keys| + 1)], agentId, keys + [newKey])
  {
    var e := Rotated(agentId, KeyHash(Last(keys)), KeyHash(newKey), |keys| + 1);
    assert (log + [e])[|log|] == e && (log + [e])[..|log|] == log;
    assert Front(keys + [newKey]) == keys;
    assert LastLink((log + [e])[|log|], agentId, keys + [newKey]);
  }

  lemma ApplyKeepsInv(s: Store, op: Op)
    requires Inv(s)
    ensures Inv(Apply(s, op))
  {
    hide Trail, KeyHash;
    var s' := Apply(s, op);
    forall key | key in s'.agents ensures Documented(s'.log, key, s'.agents[key]) {
      match op
      case Register(_, _) =>
        if key == op.key {
          NoTrailNeeded(s.log, op.agentId, key);
        }
      case Revoke(_) =>
      case RevokeImmediate(_) =>
        if op.key in s.agents {
          TrailSurvives(s.log, Last(s'.log), s.agents[key].agentId, s.agents[key].keyHistory + [key]);
        }
      case RotateKey(old', new') =>
        if old' in s.agents {
          if key == new' {
            var a := s.agents[old'];
            TrailGrows(s.log, a.agentId, a.keyHistory + [old'], new');
          } else {
            TrailSurvives(s.log, Last(s'.log), s.agents[key].agentId, s.agents[key].keyHistory + [key]);
          }
        }
    }
  }

  lemma NoTrailNeeded(log: seq<Event>, agentId: string, key: Key)
    ensures Trail(log, agentId, [] + [key])
  {
  }

  /** In every run of an in-memory store each agent's key history is documented by the log. */
  lemma {:induction false} EveryRunIsDocumented(ops: seq<Op>)
    ensures Inv(Run(Empty, ops))
  {
    if ops != [] {
      EveryRunIsDocumented(Front(ops));
      ApplyKeepsInv(Run(Empty, Front(ops)), Last(ops));
    }
  }

  /** The log is only ever appended to. */
  lemma {:induction false} LogGrows(s: Store, ops: seq<Op>)
    ensures s.log <= Run(s, ops).log
  {
    if ops != [] {
      LogGrows(s, Front(ops));
    }
  }

  // ---- What the log tells ----------------------------------------------------------------------------

  /** The operation is one that the log records: a rotation or immediate revocation of a stored key. */
  predicate Recorded(s: Store, op: Op) {
    || (op.RotateKey? && op.oldKey in s.agents)
    || (op.RevokeImmediate? && op.key in s.agents)
  }

  /** The event names the agent that was stored, the keys, and the version the agent has afterwards. */
  ghost predicate Tells(s: Store, op: Op, e: Event)
    requires Recorded(s, op)
  {
    if op.RotateKey?
    then
      var a := s.agents[op.oldKey];
      e == Rotated(a.agentId, KeyHash(op.oldKey), KeyHash(op.newKey), a.version + 1)
    else
      var a := s.agents[op.key];
      e == RevokedNow(a.agentId, KeyHash(op.key), a.version)
  }

  function CountRecorded(s: Store, ops: seq<Op>): nat {
    if ops == [] then 0
    else CountRecorded(s, Front(ops)) + if Recorded(Run(s, Front(ops)), Last(ops)) then 1 else 0
  }

  lemma {:induction false} LogCounts(s: Store, ops: seq<Op>)
    ensures |Run(s, ops).log| == |s.log| + CountRecorded(s, ops)
  {
    hide KeyHash;
    if ops != [] {
      LogCounts(s, Front(ops));
    }
  }

  /** In every run the log is the recorded operations, told one after the other: no more, no less, in order. */
  lemma {:induction false} LogTellsEveryRecordedStep(s: Store, ops: seq<Op>, i: nat)
    requires i < |ops| && Recorded(Run(s, ops[..i]), ops[i])
    ensures var j := |s.log| + CountRecorded(s, ops[..i]);
            j < |Run(s, ops).log| && Tells(Run(s, ops[..i]), ops[i], Run(s, ops).log[j])
    decreases |ops|
  {
    hide KeyHash, CountRecorded;
    LogCounts(s, ops[..i]);
    if i == |ops| - 1 {
      assert ops[..i] == Front(ops);
    } else {
      assert Front(ops)[..i] == ops[..i];
      LogTellsEveryRecordedStep(s, Front(ops), i);
      LogGrows(Run(s, Front(ops)), [Last(ops)]);
      assert Run(Run(s, Front(ops)), [Last(ops)]) == Run(s, ops) by {
        assert Front([Last(ops)]) == [];
      }
    }
  }

  /** Conversely every event of the log is told by one recorded operation of the run. */
  lemma {:induction false} EveryEventIsTold(s: Store, ops: seq<Op>, j: nat) returns (i: nat)
    requires |s.log| <= j < |Run(s, ops).log|
    ensures i < |ops| && Recorded(Run(s, ops[..i]), ops[i])
    ensures j == |s.log| + CountRecorded(s, ops[..i])
    ensures Tells(Run(s, ops[..i]), ops[i], Run(s, ops).log[j])
    decreases |ops|
  {
    hide KeyHash;
    var before := Run(s, Front(ops));
    if j < |before.log| {
      i := EveryEventIsTold(s, Front(ops), j);
      assert Front(ops)[..i] == ops[..i];
    } else {
      i := |ops| - 1;
      assert ops[..i] == Front(ops);
      LogCounts(s, Front(ops));
    }
  }

  /** Every agent that is stored as revoked has its revocation in the log, with the key and version it has. */
  ghost predicate RevocationsLogged(s: Store) {
    forall key :: key in s.agents && s.agents[key].revoked ==>
                    RevokedNow(s.agents[key].agentId, KeyHash(key), s.agents[key].version) in s.log
  }

  lemma {:induction false} EveryRevocationIsLogged(ops: seq<Op>)
    ensures RevocationsLogged(Run(Empty, ops))
  {
    hide KeyHash;
    if ops != [] {
      EveryRevocationIsLogged(Front(ops));
      var s, s' := Run(Empty, Front(ops)), Run(Empty, ops);
      assert forall e :: e in s.log ==> e in s'.log;
      if Last(ops).RevokeImmediate? && Last(ops).key in s.agents {
        assert Last(s'.log) in s'.log;
      }
    }
  }

  // ---- Trust ---------------------------------------------------------------------------------------------

  /** Exactly when a key is trusted after an operation. */
  lemma TrustedAfterIff(s: Store, op: Op, key: Key)
    ensures IsTrusted(Apply(s, op), key) <==>
            || Grants(s, op, key)
            || (IsTrusted(s, key) && !Withdraws(op, key))
  {
  }

  /** Enrolment of the key, or rotation of a known key to it. */
  predicate Grants(s: Store, op: Op, key: Key) {
    match op
    case Register(_, k) => k == key
    case RotateKey(old', new') => new' == key && old' in s.agents
    case _ => false
  }

  predicate Withdraws(op: Op, key: Key) {
    match op
    case Register(_, _) => false
    case Revoke(k) => k == key
    case RevokeImmediate(k) => k == key
    case RotateKey(old', _) => old' == key
  }

  // ---- Who leaves the store -----------------------------------------------------------------------------

  /** The key under which the agent now stored under `key` was stored before the operation; none if it is new. */
  function Origin(s: Store, op: Op, key: Key): Option<Key> {
    match op
    case Register(_, k) => if k == key then None else Some(key)
    case RotateKey(old', new') => if new' == key && old' in s.agents then Some(old') else Some(key)
    case _ => Some(key)
  }

  /** An agent carries over as it is, marked as revoked, or under a new key. */
  ghost predicate CarriesOver(op: Op, a: Agent, a': Agent) {
    match op
    case RevokeImmediate(k) => a' == a || a' == a.(revoked := true)
    case RotateKey(old', new') => a' == a || a' == Renewed(a, old', new')
    case _ => a' == a
  }

  /** Every stored agent is new or carries over from its origin. */
  lemma OriginCarriesOver(s: Store, op: Op, key: Key)
    requires key in Apply(s, op).agents
    ensures match Origin(s, op, key)
            case None => op.Register? && Apply(s, op).agents[key] == Agent(op.agentId, key, 1, [], false)
            case Some(k) => k in s.agents && CarriesOver(op, s.agents[k], Apply(s, op).agents[key])
  {
    hide KeyHash;
  }

  /** Removed, enrolled over, or rotated onto by another agent. */
  predicate Drops(s: Store, op: Op, key: Key) {
    match op
    case Register(_, k) => k == key
    case Revoke(k) => k == key
    case RevokeImmediate(_) => false
    case RotateKey(old', new') => new' == key && old' != key && old' in s.agents
  }

  /** Those are exactly the ways in which an agent leaves, and no event of the log tells of it. */
  lemma AgentLeavesIff(s: Store, op: Op, key: Key)
    requires key in s.agents
    ensures Drops(s, op, key) <==>
            forall key' :: key' in Apply(s, op).agents ==> Origin(s, op, key') != Some(key)
    ensures Drops(s, op, key) ==>
            forall i :: |s.log| <= i < |Apply(s, op).log| ==> Apply(s, op).log[i].oldKeyHash != KeyHash(key)
  {
    hide KeyHash;
    var after := Apply(s, op).agents;
    if !Drops(s, op, key) {
      var key' := if op.RotateKey? && op.oldKey == key then op.newKey else key;
      assert key' in after && Origin(s, op, key') == Some(key);
    } else if op.RotateKey? {
      KeysDiffer(op.oldKey, key);
    }
  }

  lemma KeysDiffer(a: Key, b: Key)
    ensures a != b ==> KeyHash(a) != KeyHash(b)
  {
    hide KeyHash;
    if KeyHash(a) == KeyHash(b) {
      KeyHashInjective(a, b);
    }
  }

  /**
    * A key that is not trusted stays untrusted through any run that neither enrols it nor rotates a
    * key to it; in particular a revoked or rotated-away key does not come back on its own.
    */
  lemma {:induction false} UntrustedStaysUntrusted(s: Store, ops: seq<Op>, key: Key)
    requires !IsTrusted(s, key)
    requires forall i :: 0 <= i < |ops| ==>
               !(ops[i].Register? && ops[i].key == key) && !(ops[i].RotateKey? && ops[i].newKey == key)
    ensures !IsTrusted(Run(s, ops), key)
  {
    if ops != [] {
      UntrustedStaysUntrusted(s, Front(ops), key);
      assert Last(ops) == ops[|ops| - 1];
      TrustedAfterIff(Run(s, Front(ops)), Last(ops), key);
    }
  }

  /** After a rotation the new key is trusted, even of a revoked agent, and the old one is not. */
  lemma RotationMovesTrust(s: Store, oldKey: Key, newKey: Key)
    requires oldKey in s.agents
    ensures var s' := Apply(s, RotateKey(oldKey, newKey));
            && IsTrusted(s', newKey)
            && (oldKey != newKey ==> !IsTrusted(s', oldKey))
            && s'.agents[newKey].keyHistory == s.agents[oldKey].keyHistory + [oldKey]
            && s'.agents[newKey].agentId == s.agents[oldKey].agentId
  {
  }

  // ---- The code ----------------------------------------------------------------------------------------------

  class AgentTrustStore {
    var agents: map<Key, Agent>
    var rotationLog: seq<Event>

    function State(): Store
      reads this
    {
      Store(agents, rotationLog)
    }

    ghost predicate Valid()
      reads this
    {
      Inv(State())
    }

    constructor ()
      ensures Valid() && State() == Empty
    {
      agents, rotationLog := map[], [];
    }

    method RegisterAgent(agentId: string, publicKey: Key)
      requires Valid()
      modifies this
      ensures Valid() && State() == Apply(old(State()), Register(agentId, publicKey))
    {
      ApplyKeepsInv(State(), Register(agentId, publicKey));
      agents := agents[publicKey := Agent(agentId, publicKey, 1, [], false)];
    }

    method RevokeAgent(publicKey: Key) returns (existed: bool)
      requires Valid()
      modifies this
      ensures Valid() && State() == Apply(old(State()), Op.Revoke(publicKey))
      ensures existed <==> publicKey in old(agents)
    {
      ApplyKeepsInv(State(), Op.Revoke(publicKey));
      existed := publicKey in agents;
      agents := agents - {publicKey};
    }

    method RevokeAgentImmediately(publicKey: Key) returns (existed: bool)
      requires Valid()
      modifies this
      ensures Valid() && State() == Apply(old(State()), RevokeImmediate(publicKey))
      ensures existed <==> publicKey in old(agents)
      ensures if existed
              then |rotationLog| == |old(rotationLog)| + 1
                   && Tells(old(State()), RevokeImmediate(publicKey), Last(rotationLog))
                   && agents[publicKey].revoked
              else State() == old(State())
    {
      ApplyKeepsInv(State(), RevokeImmediate(publicKey));
      existed := publicKey in agents;
      if existed {
        var agent := agents[publicKey];
        agents := agents[publicKey := agent.(revoked := true)];
        rotationLog := rotationLog + [RevokedNow(agent.agentId, KeyHash(publicKey), agent.version)];
      }
    }

    method Rotate(oldPublicKey: Key, newPublicKey: Key) returns (rotated: bool)
      requires Valid()
      modifies this
      ensures Valid() && State() == Apply(old(State()), RotateKey(oldPublicKey, newPublicKey))
      ensures rotated <==> oldPublicKey in old(agents)
      ensures if rotated
              then |rotationLog| == |old(rotationLog)| + 1
                   && Tells(old(State()), RotateKey(oldPublicKey, newPublicKey), Last(rotationLog))
              else State() == old(State())
    {
      ApplyKeepsInv(State(), RotateKey(oldPublicKey, newPublicKey));
      if oldPublicKey !in agents {
        return false;
      }
      var updated := agents[oldPublicKey];
      agents := agents - {oldPublicKey};
      updated := updated.(
        keyHistory := updated.keyHistory + [oldPublicKey],
        publicKey := newPublicKey,
        version := updated.version + 1,
        revoked := false);
      agents := agents[newPublicKey := updated];
      var event := Rotated(updated.agentId, KeyHash(oldPublicKey), KeyHash(newPublicKey), updated.version);
      rotationLog := rotationLog + [event];
      return true;
    }
  }
}
