/** An ordered map from 32-bit integers to servers, as the client keeps its shards. */
module OrderedMap {
  const INT32_MIN: int := -0x8000_0000
  const INT32_MAX: int := 0x7FFF_FFFF

  type Ordered = map<int, int>

  function Emplace(m: Ordered, key: int, server: int): Ordered {
    if key in m then m else m[key := server]
  }

  /** The smallest key that is not below the hash. */
  ghost predicate IsLowerBound(m: Ordered, hash: int, key: int) {
    key in m && hash <= key && forall j :: j in m && hash <= j ==> key <= j
  }

  method LowerBound(m: Ordered, hash: int) returns (found: bool, key: int)
    ensures found ==> IsLowerBound(m, hash, key)
    ensures !found ==> forall j :: j in m && j <= INT32_MAX ==> j < hash
  {
    key := hash;
    while key <= INT32_MAX && key !in m
      invariant key >= hash && forall j :: hash <= j < key ==> j !in m
      decreases INT32_MAX - key
    {
      key := key + 1;
    }
    found := key in m;
  }
}
