/** The two-level cache in front of the selection, as one thread runs it. */
module SelectionCache {
  import opened LaunchConfigs
  import opened TuningPolicy
  import opened Wrappers
  import opened PolicyLoad

  datatype Preference = BestPerformance | BestEfficiency

  /** What a caller asks for. */
  datatype Request = Request(collective: Collective, worldSize: int, bytes: nat, preference: Preference)

  /** Absent caps are normalised to zero beside their flag. */
  datatype Key = Key(collective: Collective, worldSize: int, bytes: nat, preference: Preference,
                     hasMaxCtas: bool, maxCtas: int, hasMaxCtasPerReduceTask: bool, maxCtasPerReduceTask: int)

  datatype Entry = Entry(key: Key, config: LaunchConfig)

  function MakeKey(q: Request, caps: Caps): Key {
    Key(q.collective, q.worldSize, q.bytes, q.preference,
        caps.maxCtas.Some?, if caps.maxCtas.Some? then caps.maxCtas.value else 0,
        caps.maxCtasPerReduceTask.Some?, if caps.maxCtasPerReduceTask.Some? then caps.maxCtasPerReduceTask.value else 0)
  }

  function KeyCaps(k: Key): Caps {
    Caps(if k.hasMaxCtas then Some(k.maxCtas) else None,
         if k.hasMaxCtasPerReduceTask then Some(k.maxCtasPerReduceTask) else None)
  }

  /** What the selection computes, read off the key alone. */
  ghost function KeyValue(points: seq<PolicyPoint>, k: Key): LaunchConfig
    requires ParsedPolicy(points)
  {
    Uncached(points, KeyCaps(k), k.collective, k.worldSize, k.bytes)
  }

  ghost function Answer(points: seq<PolicyPoint>, caps: Caps, q: Request): LaunchConfig
    requires ParsedPolicy(points)
  {
    Uncached(points, caps, q.collective, q.worldSize, q.bytes)
  }

  /** The key loses nothing that the selection depends on, and requests share a key only if they are equal. */
  lemma KeyIsFaithful(points: seq<PolicyPoint>, caps: Caps, q: Request, q': Request)
    requires ParsedPolicy(points)
    ensures KeyValue(points, MakeKey(q, caps)) == Answer(points, caps, q)
    ensures MakeKey(q, caps) == MakeKey(q', caps) <==> q == q'
  {
  }

  class Selector {
    const caps: Caps
    /** The loaded policy; None until the first miss, no points when neither file has any. */
    var policy: Option<seq<PolicyPoint>>
    var cache: map<Key, LaunchConfig>
    var local: Option<Entry>

    ghost predicate Valid()
      reads this
    {
      && (policy.Some? ==> ParsedPolicy(policy.value))
      && (forall k :: k in cache ==> policy.Some? && cache[k] == KeyValue(policy.value, k))
      && (local.Some? ==> local.value.key in cache && local.value.config == cache[local.value.key])
    }

    constructor (caps: Caps)
      ensures Valid() && this.caps == caps && policy == None && cache == map[] && local == None
    {
      this.caps := caps;
      policy, cache, local := None, map[], None;
    }

    /** The policy is read at the first call only. */
    method EnsurePolicyLoaded(envFile: seq<PolicyPoint>, defaultFile: seq<PolicyPoint>)
      requires Valid() && ParsedPolicy(envFile) && ParsedPolicy(defaultFile)
      modifies `policy
      ensures Valid() && policy.Some?
      ensures old(policy).Some? ==> policy == old(policy)
      ensures old(policy).None? ==> IsLoaded(policy.value, envFile, defaultFile)
    {
      if policy.Some? {
        return;
      }
      var points := LoadPolicy(envFile, defaultFile);
      ArrangementParsed(points, if envFile != [] then envFile else defaultFile);
      policy := Some(points);
    }

    /** The answer is the uncached selection whichever level it comes from; only this request's entries change. */
    method SelectLaunchConfigForCollective(q: Request, envFile: seq<PolicyPoint>, defaultFile: seq<PolicyPoint>)
      returns (r: LaunchConfig)
      requires Valid() && ParsedPolicy(envFile) && ParsedPolicy(defaultFile)
      modifies this
      ensures Valid() && policy.Some?
      ensures old(policy).Some? ==> policy == old(policy)
      ensures old(policy).None? ==> IsLoaded(policy.value, envFile, defaultFile)
      ensures r == Answer(policy.value, caps, q)
      ensures cache == old(cache)[MakeKey(q, caps) := r]
      ensures local == Some(Entry(MakeKey(q, caps), r))
    {
      var key := MakeKey(q, caps);
      if local.Some? && local.value.key == key {
        KeyIsFaithful(policy.value, caps, q, q);
        return local.value.config;
      }
      if key in cache {
        KeyIsFaithful(policy.value, caps, q, q);
        local := Some(Entry(key, cache[key]));
        return cache[key];
      }
      r := SelectAndStore(q, envFile, defaultFile);
    }

    /** The miss path: load, select, store at both levels. */
    method SelectAndStore(q: Request, envFile: seq<PolicyPoint>, defaultFile: seq<PolicyPoint>) returns (r: LaunchConfig)
      requires Valid() && ParsedPolicy(envFile) && ParsedPolicy(defaultFile)
      modifies this
      ensures Valid() && policy.Some?
      ensures old(policy).Some? ==> policy == old(policy)
      ensures old(policy).None? ==> IsLoaded(policy.value, envFile, defaultFile)
      ensures r == Answer(policy.value, caps, q)
      ensures cache == old(cache)[MakeKey(q, caps) := r]
      ensures local == Some(Entry(MakeKey(q, caps), r))
    {
      EnsurePolicyLoaded(envFile, defaultFile);
      r := SelectUncached(policy.value, caps, q.collective, q.worldSize, q.bytes);
      KeyIsFaithful(policy.value, caps, q, q);
      cache := cache[MakeKey(q, caps) := r];
      local := Some(Entry(MakeKey(q, caps), r));
    }
  }
}
