/** Copying bytes to a place in memory. */
module Copying {
  import opened Checksum

  /** New bytes in one place; in front of it and behind it, all is as it was. */
  ghost predicate Placed(was: seq<byte>, now: seq<byte>, at: nat, bytes: seq<byte>) {
    && |was| == |now| && at + |bytes| <= |was|
    && now[..at] == was[..at] && now[at..at + |bytes|] == bytes && now[at + |bytes|..] == was[at + |bytes|..]
  }

  lemma CopiedIsPlaced(was: seq<byte>, now: seq<byte>, at: nat, bytes: seq<byte>)
    requires at + |bytes| <= |was| && now == was[..at] + bytes + was[at + |bytes|..]
    ensures Placed(was, now, at, bytes)
  {
  }

  method Memcpy(to: array<byte>, at: nat, bytes: seq<byte>)
    requires at + |bytes| <= to.Length
    modifies to
    ensures to[..] == old(to[..at]) + bytes + old(to[at + |bytes|..])
  {
    forall k | 0 <= k < |bytes| { to[at + k] := bytes[k]; }
  }
}
