/** Progress of `exchange_data` between two barriers: the bytes a rank has copied. */
module ExchangeDataProgress {
  import opened Arith
  import opened BrokerCalls
  import opened ExchangeData

  /** Bytes that a rank has copied since its last barrier. */
  function Copies(s: Script, st: State, r: nat): nat
    requires |st.b.pc| == |st.b.returned| == |st.written| == |st.dst| == s.n && r < s.n
  {
    if !st.b.pc[r].Outside? then 0
    else if Writing(s, st.b, r) then st.written[r]
    else if Reading(s, st.b, r) then |st.dst[r]|
    else 0
  }

  /** More than any rank copies between two barriers. */
  function Weight(s: Script): nat {
    s.n * VAULT_SIZE_PER_RANK + 1
  }

  lemma CopiesBound(s: Script, st: State, r: nat)
    requires Inv(s, st) && r < s.n
    ensures Copies(s, st, r) < Weight(s)
  {
    assert SlotInv(s, st, r) && DstInv(s, st, r);
    var size := s.size(CallOf(s, st.b, r));
    MulLe(1, s.n, VAULT_SIZE_PER_RANK);
    SizeScales(s.n, size, VAULT_SIZE_PER_RANK);
  }

  lemma SizeScales(n: nat, size: nat, most: nat)
    requires size <= most
    ensures n * size <= n * most
  {
    MulLe(size, most, n);
  }

  /** A copying step brings its rank on and changes no other rank. */
  lemma CopyMoves(s: Script, st: State, step: Step, q: nat)
    requires Inv(s, st) && q < s.n && (step.Write? || step.Read?) && Apply(s, st, step) != st
    ensures Shape(s, Apply(s, st, step))
    ensures Copies(s, Apply(s, st, step), q) >= Copies(s, st, q) + if q == step.rank then 1 else 0
  {
    assert Apply(s, st, step).b == st.b;
  }
}
