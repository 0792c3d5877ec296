/** The calls that the ranks of a broker make, and where a rank stands in them after so many barriers. */
module BrokerCalls {
  import opened Wrappers

  type byte = x: int | 0 <= x < 256

  const VAULT_SIZE_PER_RANK := 256

  /** A plain `sync`, `exchange_data`, `exchange_fds` and `broadcast_fd`. */
  datatype Call = Plain | Data | Exchange | Broadcast(root: nat)
  {
    predicate PassesFds() { Exchange? || Broadcast? }

    /** The barriers of a call: before, between and after its phases. */
    function Barriers(): nat { if Plain? then 1 else if Data? then 3 else 2 }
  }

  /** The calls all ranks make, and what rank r passes to call k: its bytes, all of one size, or the open
      file behind its descriptor. */
  datatype Script = Script(n: nat, call: nat -> Call, size: nat -> nat, src: (nat, nat) -> seq<byte>,
                           file: (int, nat) -> int)
  {
    ghost predicate Valid() {
      && n > 0
      && (forall k :: 0 < size(k) <= VAULT_SIZE_PER_RANK)
      && (forall r, k :: |src(r, k)| == size(k))
      && (forall k :: call(k).Broadcast? ==> call(k).root < n)
      && (forall r, k :: file(r, k) >= 0)
    }
  }

  /** After `at` of the barriers of call k. */
  datatype Place = Place(k: nat, at: nat)

  function Next(s: Script, p: Place): Place {
    if p.at + 1 < s.call(p.k).Barriers() then Place(p.k, p.at + 1) else Place(p.k + 1, 0)
  }

  /** The place after m barriers. */
  function At(s: Script, m: nat): (p: Place)
    ensures p.at < s.call(p.k).Barriers()
  {
    if m == 0 then Place(0, 0) else Next(s, At(s, m - 1))
  }

  /** The call that comes after, or is interrupted by, the m-th barrier. */
  function Current(s: Script, m: nat): nat {
    At(s, m).k
  }

  /** Between the barriers of `exchange_data`: copying in, then copying out. */
  predicate WriteAt(s: Script, m: nat) {
    s.call(Current(s, m)).Data? && At(s, m).at == 1
  }

  predicate ReadAt(s: Script, m: nat) {
    s.call(Current(s, m)).Data? && At(s, m).at == 2
  }

  /** Between the barriers of a call that passes descriptors. */
  predicate BodyAt(s: Script, m: nat) {
    s.call(Current(s, m)).PassesFds() && At(s, m).at == 1
  }

  lemma NextPlace(s: Script, m: nat)
    ensures At(s, m + 1) == Next(s, At(s, m))
    ensures ReadAt(s, m + 1) <==> WriteAt(s, m)
    ensures WriteAt(s, m) || ReadAt(s, m) || BodyAt(s, m) ==> !WriteAt(s, m + 1) && !BodyAt(s, m + 1)
    ensures WriteAt(s, m) || WriteAt(s, m + 1) || BodyAt(s, m + 1) ==> Current(s, m + 1) == Current(s, m)
    ensures ReadAt(s, m) || BodyAt(s, m) ==> Current(s, m + 1) == Current(s, m) + 1
  {
  }

  /** The last exchange of data that is complete after m barriers. */
  function LastData(s: Script, m: nat): Option<nat> {
    if m == 0 then None
    else if ReadAt(s, m - 1) then Some(Current(s, m - 1))
    else LastData(s, m - 1)
  }

  /** The last call that passes descriptors and is open, or was, after m barriers. */
  function LastFds(s: Script, m: nat): Option<nat> {
    if m == 0 then None
    else if BodyAt(s, m) then Some(Current(s, m))
    else LastFds(s, m - 1)
  }

  /** An open call stays the last one over its closing barrier. */
  lemma OpenFds(s: Script, m: nat)
    requires BodyAt(s, m)
    ensures LastFds(s, m) == Some(Current(s, m)) && !BodyAt(s, m + 1) && LastFds(s, m + 1) == Some(Current(s, m))
  {
    NextPlace(s, m);
  }

  /** The number of barriers before call k. */
  function Start(s: Script, k: nat): nat {
    if k == 0 then 0 else Start(s, k - 1) + s.call(k - 1).Barriers()
  }

  /** A sync is one barrier, an exchange of data three, and a call that passes descriptors two. */
  lemma BarriersOf(s: Script, k: nat)
    ensures s.call(k).Plain? ==> Start(s, k + 1) == Start(s, k) + 1
    ensures s.call(k).Data? ==> Start(s, k + 1) == Start(s, k) + 3
    ensures s.call(k).Exchange? || s.call(k).Broadcast? ==> Start(s, k + 1) == Start(s, k) + 2
    ensures Start(s, 0) == 0
  {
  }

  /** A rank's barriers tell it its call and its phase. */
  lemma {:induction false} PlaceOf(s: Script, k: nat, at: nat)
    requires at < s.call(k).Barriers()
    ensures At(s, Start(s, k) + at) == Place(k, at)
    decreases k, at
  {
    if at > 0 {
      PlaceOf(s, k, at - 1);
    } else if k > 0 {
      PlaceOf(s, k - 1, s.call(k - 1).Barriers() - 1);
    }
  }

  lemma {:induction false} StartOf(s: Script, m: nat)
    ensures m == Start(s, Current(s, m)) + At(s, m).at
  {
    if m > 0 {
      StartOf(s, m - 1);
    }
  }

  lemma {:induction false} StartGrows(s: Script, j: nat, k: nat)
    requires j < k
    ensures Start(s, j) + s.call(j).Barriers() <= Start(s, k)
    ensures Start(s, k) <= 3 * k
  {
    if j < k - 1 {
      StartGrows(s, j, k - 1);
    } else if j > 0 {
      StartGrows(s, j - 1, k - 1);
    }
  }

  /** k calls are over after m barriers exactly if m is at least the number of their barriers. */
  lemma CallsDone(s: Script, m: nat, k: nat)
    ensures k <= Current(s, m) <==> Start(s, k) <= m
  {
    StartOf(s, m);
    var c := Current(s, m);
    if k < c {
      StartGrows(s, k, c);
    } else if c < k {
      StartGrows(s, c, k);
    }
  }

  /** It is what it says: the latest exchange of data among the calls that are over. */
  lemma {:induction false} LastDataMeans(s: Script, m: nat, k: nat)
    ensures LastData(s, m) == Some(k) <==>
            k < Current(s, m) && s.call(k).Data? && forall j :: k < j < Current(s, m) ==> !s.call(j).Data?
  {
    if m > 0 {
      LastDataMeans(s, m - 1, k);
      NextPlace(s, m - 1);
    }
  }

  lemma {:induction false} LastFdsMeans(s: Script, m: nat, k: nat)
    ensures !BodyAt(s, m) ==>
              (LastFds(s, m) == Some(k) <==>
               k < Current(s, m) && s.call(k).PassesFds() && forall j :: k < j < Current(s, m) ==> !s.call(j).PassesFds())
  {
    if m > 0 {
      NextPlace(s, m - 1);
      if !BodyAt(s, m - 1) {
        LastFdsMeans(s, m - 1, k);
      } else if m > 1 {
        NextPlace(s, m - 2);
        LastFdsMeans(s, m - 2, k);
      }
    }
  }
}
