/** `rank_partition`: the contiguous share of one rank. */
module CollectiveUtils {
  import opened Arith
  import opened Shares

  /** Writes the two out-parameters; both are zero when the rank number is not valid. */
  method RankPartition(count: nat, rank: int, worldSize: int) returns (ok: bool, outBegin: nat, outCount: nat)
    ensures ok <==> 0 <= rank < worldSize
    ensures ok ==> outBegin == ShareBegin(count, worldSize, rank) && outCount == ShareCount(count, worldSize, rank)
    ensures ok ==> outBegin + outCount <= count && count / worldSize <= outCount <= count / worldSize + 1
    ensures ok ==> forall x :: outBegin <= x < outBegin + outCount <==> InShare(count, worldSize, rank, x)
    ensures !ok ==> outBegin == 0 && outCount == 0
  {
    outBegin, outCount := 0, 0;
    if worldSize <= 0 || rank < 0 || rank >= worldSize {
      return false, 0, 0;
    }
    var base, rem := count / worldSize, count % worldSize;
    DivBounds(count, worldSize);
    MulNonneg(rank, base);
    outBegin := rank * base + if rank < rem then rank else rem;
    outCount := base + if rank < rem then 1 else 0;
    ShareFits(count, worldSize, rank);
    ok := true;
  }
}
