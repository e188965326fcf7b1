/** What the Thrift and protobuf models share. */
module Tagged {
  /** max_tagged_depth: how deep containers and messages may nest. */
  const MAX_DEPTH := 64

  /** Some of the indices below n, in order. */
  ghost predicate Ascending(pick: seq<nat>, n: nat) {
    && (forall k :: 0 <= k < |pick| ==> pick[k] < n)
    && (forall a, b :: 0 <= a < b < |pick| ==> pick[a] < pick[b])
  }

  ghost function Picked<T>(s: seq<T>, pick: seq<nat>): (r: seq<T>)
    requires Ascending(pick, |s|)
    ensures |r| == |pick| && forall k :: 0 <= k < |pick| ==> r[k] == s[pick[k]]
  {
    seq(|pick|, k requires 0 <= k < |pick| => s[pick[k]])
  }
}
