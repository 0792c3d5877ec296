/**
 Cache transparency with threads: calls from any threads, interleaved at every lock, answer what the
 uncached selection answers.  Policy loading, lookup and store are each one step under their mutex.
 */
module SelectionRuns {
  import opened LaunchConfigs
  import opened TuningPolicy
  import opened Wrappers
  import opened SelectionCache

  datatype Pc =
    | Idle
    | Called(q: Request)
    | MissedLocal(q: Request)
    | MissedGlobal(q: Request)
    | Loaded(q: Request)
    | Selected(q: Request, config: LaunchConfig)
    | Stored(q: Request, config: LaunchConfig)

  datatype Thread = Thread(pc: Pc, local: Option<Entry>)

  datatype Return = Return(thread: nat, q: Request, config: LaunchConfig)

  datatype State = State(policy: Option<seq<PolicyPoint>>, cache: map<Key, LaunchConfig>, threads: seq<Thread>,
                         returned: seq<Return>)

  /** A thread starts a call, or takes the next step of its call; file is what loading would yield then. */
  datatype Action = Call(t: nat, q: Request) | Advance(t: nat, file: seq<PolicyPoint>)

  function Init(threads: nat): State {
    State(None, map[], seq(threads, t => Thread(Idle, None)), [])
  }

  function SetThread(s: State, t: nat, thread: Thread): State
    requires t < |s.threads|
  {
    s.(threads := s.threads[t := thread])
  }

  function Finish(s: State, t: nat, q: Request, local: Entry): State
    requires t < |s.threads|
  {
    SetThread(s, t, Thread(Idle, Some(local))).(returned := s.returned + [Return(t, q, local.config)])
  }

  ghost function StepThread(caps: Caps, s: State, t: nat, file: seq<PolicyPoint>): State
    requires t < |s.threads|
  {
    var me := s.threads[t];
    match me.pc
    case Idle => s
    case Called(q) =>
      var key := MakeKey(q, caps);
      if me.local.Some? && me.local.value.key == key then Finish(s, t, q, me.local.value)
      else SetThread(s, t, me.(pc := MissedLocal(q)))
    case MissedLocal(q) =>
      var key := MakeKey(q, caps);
      if key in s.cache then Finish(s, t, q, Entry(key, s.cache[key]))
      else SetThread(s, t, me.(pc := MissedGlobal(q)))
    case MissedGlobal(q) =>
      SetThread(s, t, me.(pc := Loaded(q))).(policy := if s.policy.Some? then s.policy else Some(file))
    case Loaded(q) =>
      if s.policy.Some? && ParsedPolicy(s.policy.value) then SetThread(s, t, me.(pc := Selected(q, Answer(s.policy.value, caps, q))))
      else s
    case Selected(q, config) =>
      SetThread(s, t, me.(pc := Stored(q, config))).(cache := s.cache[MakeKey(q, caps) := config])
    case Stored(q, config) => Finish(s, t, q, Entry(MakeKey(q, caps), config))
  }

  ghost predicate Correct(s: State, caps: Caps, q: Request, config: LaunchConfig) {
    s.policy.Some? && ParsedPolicy(s.policy.value) && config == Answer(s.policy.value, caps, q)
  }

  ghost predicate CorrectEntry(s: State, key: Key, config: LaunchConfig) {
    s.policy.Some? && ParsedPolicy(s.policy.value) && config == KeyValue(s.policy.value, key)
  }

  ghost predicate ThreadInv(s: State, caps: Caps, th: Thread) {
    && (th.local.Some? ==> CorrectEntry(s, th.local.value.key, th.local.value.config))
    && (th.pc.Loaded? ==> s.policy.Some?)
    && (th.pc.Selected? || th.pc.Stored? ==> Correct(s, caps, th.pc.q, th.pc.config))
  }

  ghost predicate Inv(caps: Caps, s: State) {
    && (s.policy.Some? ==> ParsedPolicy(s.policy.value))
    && (forall k :: k in s.cache ==> CorrectEntry(s, k, s.cache[k]))
    && (forall t :: 0 <= t < |s.threads| ==> ThreadInv(s, caps, s.threads[t]))
    && (forall i :: 0 <= i < |s.returned| ==> Correct(s, caps, s.returned[i].q, s.returned[i].config))
  }

  predicate Enabled(s: State, a: Action) {
    match a
    case Call(t, q) => t < |s.threads| && s.threads[t].pc.Idle?
    case Advance(t, file) => t < |s.threads|
  }

  ghost predicate ParsedFile(a: Action) {
    a.Advance? ==> ParsedPolicy(a.file)
  }

  ghost function Apply(caps: Caps, s: State, a: Action): State
    requires Enabled(s, a)
  {
    match a
    case Call(t, q) => SetThread(s, t, s.threads[t].(pc := Called(q)))
    case Advance(t, file) => StepThread(caps, s, t, file)
  }

  /** Correctness only looks at the policy, and a loaded policy never changes. */
  lemma InvFrame(caps: Caps, s: State, s': State, t: nat)
    requires Inv(caps, s) && t < |s.threads| && |s'.threads| == |s.threads|
    requires s.policy.Some? ==> s'.policy == s.policy
    requires s'.policy.Some? ==> ParsedPolicy(s'.policy.value)
    requires forall u :: 0 <= u < |s.threads| && u != t ==> s'.threads[u] == s.threads[u]
    requires ThreadInv(s', caps, s'.threads[t])
    requires forall k :: k in s'.cache ==> (k in s.cache && s'.cache[k] == s.cache[k]) || CorrectEntry(s', k, s'.cache[k])
    requires forall i :: 0 <= i < |s'.returned| ==>
               (i < |s.returned| && s'.returned[i] == s.returned[i]) || Correct(s', caps, s'.returned[i].q, s'.returned[i].config)
    ensures Inv(caps, s')
  {
  }

  lemma FinishInv(caps: Caps, s: State, t: nat, q: Request, config: LaunchConfig)
    requires Inv(caps, s) && t < |s.threads| && CorrectEntry(s, MakeKey(q, caps), config)
    ensures Inv(caps, Finish(s, t, q, Entry(MakeKey(q, caps), config)))
  {
    KeyIsFaithful(s.policy.value, caps, q, q);
    InvFrame(caps, s, Finish(s, t, q, Entry(MakeKey(q, caps), config)), t);
  }

  /** The lookups return a correct entry or miss. */
  lemma LookupInv(caps: Caps, s: State, t: nat, file: seq<PolicyPoint>)
    requires Inv(caps, s) && t < |s.threads| && (s.threads[t].pc.Called? || s.threads[t].pc.MissedLocal?)
    ensures Inv(caps, StepThread(caps, s, t, file))
  {
    var me := s.threads[t];
    var q := me.pc.q;
    var key := MakeKey(q, caps);
    assert ThreadInv(s, caps, me);
    if me.pc.Called? && me.local.Some? && me.local.value.key == key {
      FinishInv(caps, s, t, q, me.local.value.config);
    } else if me.pc.MissedLocal? && key in s.cache {
      FinishInv(caps, s, t, q, s.cache[key]);
    } else {
      InvFrame(caps, s, StepThread(caps, s, t, file), t);
    }
  }

  /** Storing and returning a selected configuration. */
  lemma StoreInv(caps: Caps, s: State, t: nat, file: seq<PolicyPoint>)
    requires Inv(caps, s) && t < |s.threads| && (s.threads[t].pc.Selected? || s.threads[t].pc.Stored?)
    ensures Inv(caps, StepThread(caps, s, t, file))
  {
    var me := s.threads[t];
    assert ThreadInv(s, caps, me);
    KeyIsFaithful(s.policy.value, caps, me.pc.q, me.pc.q);
    if me.pc.Selected? {
      InvFrame(caps, s, StepThread(caps, s, t, file), t);
    } else {
      FinishInv(caps, s, t, me.pc.q, me.pc.config);
    }
  }

  lemma StepInv(caps: Caps, s: State, t: nat, file: seq<PolicyPoint>)
    requires Inv(caps, s) && t < |s.threads| && ParsedPolicy(file)
    ensures Inv(caps, StepThread(caps, s, t, file))
  {
    var pc := s.threads[t].pc;
    if pc.Called? || pc.MissedLocal? {
      LookupInv(caps, s, t, file);
    } else if pc.Selected? || pc.Stored? {
      StoreInv(caps, s, t, file);
    } else if !pc.Idle? {
      assert ThreadInv(s, caps, s.threads[t]);
      InvFrame(caps, s, StepThread(caps, s, t, file), t);
    }
  }

  lemma ApplyInv(caps: Caps, s: State, a: Action)
    requires Inv(caps, s) && Enabled(s, a) && ParsedFile(a)
    ensures Inv(caps, Apply(caps, s, a))
  {
    match a
    case Call(t, q) => InvFrame(caps, s, Apply(caps, s, a), t);
    case Advance(t, file) => StepInv(caps, s, t, file);
  }

  /** s is reached from the start by the actions. */
  ghost predicate Reach(caps: Caps, threads: nat, actions: seq<Action>, s: State)
    decreases |actions|
  {
    if actions == [] then s == Init(threads)
    else
      var n := |actions| - 1;
      exists before: State :: Reach(caps, threads, actions[..n], before)
        && Enabled(before, actions[n]) && ParsedFile(actions[n]) && s == Apply(caps, before, actions[n])
  }

  lemma {:induction false} ReachInv(caps: Caps, threads: nat, actions: seq<Action>, s: State)
    requires Reach(caps, threads, actions, s)
    ensures Inv(caps, s)
  {
    if actions != [] {
      var n := |actions| - 1;
      var before: State :| Reach(caps, threads, actions[..n], before)
        && Enabled(before, actions[n]) && ParsedFile(actions[n]) && s == Apply(caps, before, actions[n]);
      ReachInv(caps, threads, actions[..n], before);
      ApplyInv(caps, before, actions[n]);
    }
  }

  /** In every interleaving, every returned value, and every cached one, is the uncached selection's. */
  lemma CacheIsTransparent(caps: Caps, threads: nat, actions: seq<Action>, s: State, i: nat)
    requires Reach(caps, threads, actions, s) && i < |s.returned|
    ensures s.policy.Some? && ParsedPolicy(s.policy.value)
    ensures s.returned[i].config == Answer(s.policy.value, caps, s.returned[i].q)
    ensures forall k :: k in s.cache ==> s.cache[k] == KeyValue(s.policy.value, k)
  {
    ReachInv(caps, threads, actions, s);
    assert Correct(s, caps, s.returned[i].q, s.returned[i].config);
    forall k | k in s.cache ensures s.cache[k] == KeyValue(s.policy.value, k) {
      assert CorrectEntry(s, k, s.cache[k]);
    }
  }

  /** With parsed caps every returned configuration is valid, for its collective and within the caps. */
  lemma ReturnedIsValid(caps: Caps, threads: nat, actions: seq<Action>, s: State, i: nat)
    requires Reach(caps, threads, actions, s) && ParsedCaps(caps) && i < |s.returned|
    ensures LaunchConfigValid(s.returned[i].config) && WithinCaps(s.returned[i].config, caps)
    ensures PlanFor(s.returned[i].config.plan) == s.returned[i].q.collective
  {
    CacheIsTransparent(caps, threads, actions, s, i);
    var q := s.returned[i].q;
    SelectionIsValid(s.policy.value, caps, q.collective, q.worldSize, q.bytes);
  }

  function StepsLeft(pc: Pc): nat {
    match pc
    case Idle => 0
    case Called(_) => 6
    case MissedLocal(_) => 5
    case MissedGlobal(_) => 4
    case Loaded(_) => 3
    case Selected(_, _) => 2
    case Stored(_, _) => 1
  }

  /** A call never waits for another thread: each of its own steps brings it nearer to its return. */
  lemma CallProgresses(caps: Caps, s: State, t: nat, file: seq<PolicyPoint>)
    requires Inv(caps, s) && t < |s.threads| && !s.threads[t].pc.Idle?
    ensures StepsLeft(StepThread(caps, s, t, file).threads[t].pc) < StepsLeft(s.threads[t].pc)
  {
    assert ThreadInv(s, caps, s.threads[t]);
  }

  // ---------- one call on its own ----------

  /** n steps of thread t with nobody else moving. */
  ghost function Alone(caps: Caps, s: State, t: nat, file: seq<PolicyPoint>, n: nat): (s': State)
    requires t < |s.threads|
    ensures |s'.threads| == |s.threads|
  {
    if n == 0 then s else StepThread(caps, Alone(caps, s, t, file, n - 1), t, file)
  }

  lemma {:induction false} AloneAdd(caps: Caps, s: State, t: nat, file: seq<PolicyPoint>, n: nat, m: nat)
    requires t < |s.threads|
    ensures Alone(caps, s, t, file, n + m) == Alone(caps, Alone(caps, s, t, file, n), t, file, m)
  {
    if m > 0 {
      AloneAdd(caps, s, t, file, n, m - 1);
    }
  }

  lemma {:induction false} IdleStays(caps: Caps, s: State, t: nat, file: seq<PolicyPoint>, n: nat)
    requires t < |s.threads| && s.threads[t].pc.Idle?
    ensures Alone(caps, s, t, file, n) == s
  {
    if n > 0 {
      IdleStays(caps, s, t, file, n - 1);
    }
  }

  /** What the selector's code leaves behind: the policy loaded if it was not, the answer stored at both
      levels and returned. */
  ghost predicate SelectorLeaves(caps: Caps, s: State, t: nat, q: Request, file: seq<PolicyPoint>, s': State)
    requires t < |s.threads|
  {
    var key := MakeKey(q, caps);
    && s'.policy.Some? && ParsedPolicy(s'.policy.value) && (s.policy.Some? ==> s'.policy == s.policy)
    && (s.policy.None? ==> s'.policy.value == file)
    && var r := Answer(s'.policy.value, caps, q);
    && s'.cache == s.cache[key := r]
    && s'.threads == s.threads[t := Thread(Idle, Some(Entry(key, r)))]
    && s'.returned == s.returned + [Return(t, q, r)]
  }

  lemma FinishLeaves(caps: Caps, s: State, t: nat, q: Request, file: seq<PolicyPoint>, config: LaunchConfig)
    requires Inv(caps, s) && t < |s.threads| && MakeKey(q, caps) in s.cache && s.cache[MakeKey(q, caps)] == config
    ensures SelectorLeaves(caps, s, t, q, file, Finish(s, t, q, Entry(MakeKey(q, caps), config)))
  {
    var key := MakeKey(q, caps);
    assert CorrectEntry(s, key, s.cache[key]);
    KeyIsFaithful(s.policy.value, caps, q, q);
    assert s.cache[key := s.cache[key]] == s.cache;
  }

  /** Loading and selecting. */
  lemma SelectAlone(caps: Caps, s: State, t: nat, q: Request, file: seq<PolicyPoint>)
    requires Inv(caps, s) && t < |s.threads| && s.threads[t].pc == MissedGlobal(q) && ParsedPolicy(file)
    ensures var p := if s.policy.Some? then s.policy.value else file;
            ParsedPolicy(p) &&
            Alone(caps, s, t, file, 2) ==
              s.(policy := Some(p), threads := s.threads[t := s.threads[t].(pc := Selected(q, Answer(p, caps, q)))])
  {
    var s1 := StepThread(caps, s, t, file);
    assert Alone(caps, s, t, file, 0) == s && Alone(caps, s, t, file, 1) == s1;
    assert s1.policy.Some? && ParsedPolicy(s1.policy.value);
  }

  /** Storing and returning. */
  lemma StoreAlone(caps: Caps, s: State, t: nat, q: Request, file: seq<PolicyPoint>, r: LaunchConfig)
    requires t < |s.threads| && s.threads[t].pc == Selected(q, r)
    ensures Alone(caps, s, t, file, 2) ==
            s.(cache := s.cache[MakeKey(q, caps) := r],
               threads := s.threads[t := Thread(Idle, Some(Entry(MakeKey(q, caps), r)))],
               returned := s.returned + [Return(t, q, r)])
  {
    var s1 := StepThread(caps, s, t, file);
    assert Alone(caps, s, t, file, 0) == s && Alone(caps, s, t, file, 1) == s1;
  }

  lemma MissLeaves(caps: Caps, s: State, t: nat, q: Request, file: seq<PolicyPoint>)
    requires Inv(caps, s) && t < |s.threads| && s.threads[t].pc == MissedGlobal(q) && ParsedPolicy(file)
    ensures SelectorLeaves(caps, s, t, q, file, Alone(caps, s, t, file, 4))
  {
    SelectAlone(caps, s, t, q, file);
    var p := if s.policy.Some? then s.policy.value else file;
    AloneAdd(caps, s, t, file, 2, 2);
    StoreAlone(caps, Alone(caps, s, t, file, 2), t, q, file, Answer(p, caps, q));
  }

  /** A call that runs alone ends within six steps, in the state that the selector's code leaves. */
  lemma AloneIsSelector(caps: Caps, s: State, t: nat, q: Request, file: seq<PolicyPoint>)
    requires Inv(caps, s) && t < |s.threads| && s.threads[t].pc == Called(q) && ParsedPolicy(file)
    requires s.threads[t].local.Some? ==>
               s.threads[t].local.value.key in s.cache &&
               s.cache[s.threads[t].local.value.key] == s.threads[t].local.value.config
    ensures SelectorLeaves(caps, s, t, q, file, Alone(caps, s, t, file, 6))
  {
    var s1 := StepThread(caps, s, t, file);
    StepInv(caps, s, t, file);
    assert Alone(caps, s, t, file, 0) == s && Alone(caps, s, t, file, 1) == s1;
    AloneAdd(caps, s, t, file, 1, 5);
    if s1.threads[t].pc.Idle? {
      IdleStays(caps, s1, t, file, 5);
      FinishLeaves(caps, s, t, q, file, s.threads[t].local.value.config);
    } else {
      AfterLocalMiss(caps, s, s1, t, q, file);
    }
  }

  lemma AfterLocalMiss(caps: Caps, s: State, s1: State, t: nat, q: Request, file: seq<PolicyPoint>)
    requires Inv(caps, s) && Inv(caps, s1) && t < |s.threads| && ParsedPolicy(file)
    requires s1 == SetThread(s, t, s.threads[t].(pc := MissedLocal(q)))
    ensures SelectorLeaves(caps, s, t, q, file, Alone(caps, s1, t, file, 5))
  {
    var s2 := StepThread(caps, s1, t, file);
    StepInv(caps, s1, t, file);
    assert Alone(caps, s1, t, file, 0) == s1 && Alone(caps, s1, t, file, 1) == s2;
    AloneAdd(caps, s1, t, file, 1, 4);
    if s2.threads[t].pc.Idle? {
      IdleStays(caps, s2, t, file, 4);
      FinishLeaves(caps, s, t, q, file, s.cache[MakeKey(q, caps)]);
    } else {
      MissLeaves(caps, s2, t, q, file);
    }
  }
}
