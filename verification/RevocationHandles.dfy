/** The pool of revocation handles and the list of handles that are not revoked. */
module RevocationHandles {
  import opened Options

  /** The one row of the revocation authority table. */
  datatype Info = Info(epoch: int, next: int, last: int)

  class RevocationAuthority {
    const poolSize: nat
    var info: Info

    /** First initialization: epoch 1, the pool 1..poolSize. */
    constructor (poolSize: nat)
      ensures this.poolSize == poolSize && info == Info(1, 1, poolSize)
    {
      this.poolSize := poolSize;
      info := Info(1, 1, poolSize);
    }

    /** An UPDATE of the row, restricted to an epoch. */
    method Update(next: int, last: int, epoch: int)
      modifies this
      ensures info == if old(info).epoch == epoch then Info(old(info).epoch, next, last) else old(info)
    {
      if info.epoch == epoch {
        info := info.(next := next, last := last);
      }
    }

    /** `getNextRevocationHandleTx`: at the end of the pool the update asks for an epoch that has no row. */
    method GetNextHandle() returns (handle: int)
      modifies this
      ensures handle == old(info).next
      ensures info == if old(info).next == old(info).last then old(info) else old(info).(next := old(info).next + 1)
    {
      handle := info.next;
      var newNext := info.next + 1;
      if handle == info.last {
        Update(newNext, info.last + poolSize, info.epoch + 1);
      } else {
        Update(newNext, info.last, info.epoch);
      }
    }

    /** Handing out `n` handles in a row: the i-th is i as long as the pool lasts, and from its end on every further
        handle is the last one again. */
    method HandOut(n: nat) returns (handles: seq<int>)
      requires info == Info(1, 1, poolSize) && poolSize > 0
      modifies this
      ensures |handles| == n
      ensures forall i :: 0 <= i < n ==> handles[i] == if i + 1 < poolSize then i + 1 else poolSize
      ensures (forall i, j :: 0 <= i < j < n ==> handles[i] != handles[j]) <==> n <= poolSize
    {
      handles := [];
      for k := 0 to n
        invariant |handles| == k && info.epoch == 1 && info.last == poolSize
        invariant info.next == if k + 1 < poolSize then k + 1 else poolSize
        invariant forall i :: 0 <= i < k ==> handles[i] == if i + 1 < poolSize then i + 1 else poolSize
      {
        var h := GetNextHandle();
        handles := handles + [h];
      }
      if n > poolSize {
        assert handles[poolSize - 1] == handles[poolSize];
      }
    }
  }

  /** `isRevokedHandle`: scanning stops, with "no", at a record that does not decode. */
  predicate IsRevoked(h: int, revoked: seq<Option<int>>) {
    revoked != [] && revoked[0].Some? && (revoked[0].value == h || IsRevoked(h, revoked[1..]))
  }

  /** When every record decodes, the scan is membership. */
  lemma {:induction false} RevokedIsMembership(h: int, revoked: seq<Option<int>>)
    requires forall i :: 0 <= i < |revoked| ==> revoked[i].Some?
    ensures IsRevoked(h, revoked) <==> Some(h) in revoked
  {
    if revoked != [] {
      RevokedIsMembership(h, revoked[1..]);
      assert revoked == [revoked[0]] + revoked[1..];
    }
  }

  /** An undecodable record hides every record after it. */
  lemma {:induction false} UndecodableHides(h: int, before: seq<Option<int>>, after: seq<Option<int>>)
    ensures IsRevoked(h, before + [None] + after) == IsRevoked(h, before + [None])
  {
    var all, cut := before + [None] + after, before + [None];
    if before != [] {
      UndecodableHides(h, before[1..], after);
      assert all[1..] == before[1..] + [None] + after;
      assert cut[1..] == before[1..] + [None];
    }
  }

  /** The unrevoked numbers among `lo..hi`, ascending. */
  function Unrevoked(lo: int, hi: int, revoked: seq<Option<int>>): seq<int>
    decreases hi - lo
  {
    if lo > hi then []
    else (if IsRevoked(lo, revoked) then [] else [lo]) + Unrevoked(lo + 1, hi, revoked)
  }

  /** The list is strictly ascending and holds exactly the numbers in range that are not revoked. */
  lemma {:induction false} UnrevokedIsExact(lo: int, hi: int, revoked: seq<Option<int>>)
    ensures forall h :: h in Unrevoked(lo, hi, revoked) <==> lo <= h <= hi && !IsRevoked(h, revoked)
    ensures forall i, j :: 0 <= i < j < |Unrevoked(lo, hi, revoked)| ==>
              Unrevoked(lo, hi, revoked)[i] < Unrevoked(lo, hi, revoked)[j]
    decreases hi - lo
  {
    if lo <= hi {
      UnrevokedIsExact(lo + 1, hi, revoked);
      var rest := Unrevoked(lo + 1, hi, revoked);
      assert forall i :: 0 <= i < |rest| ==> rest[i] in rest;
    }
  }

  /** `getUnRevokedHandles`: the whole pool is listed, then revoked handles are deleted in place from back to front. */
  method GetUnRevokedHandles(last: int, revoked: seq<Option<int>>) returns (handles: seq<int>)
    ensures handles == Unrevoked(1, last, revoked)
  {
    handles := [];
    var n := 1;
    while n <= last
      invariant n >= 1 && (n <= last + 1 || n == 1) && |handles| == n - 1
      invariant forall i :: 0 <= i < |handles| ==> handles[i] == i + 1
    {
      handles := handles + [n];
      n := n + 1;
    }
    ghost var all := handles;
    ghost var top := |all|;
    var i := |handles| - 1;
    assert handles == all[..top] + Unrevoked(top + 1, last, revoked);
    while i >= 0
      invariant -1 <= i < top
      invariant handles == all[..i + 1] + Unrevoked(i + 2, last, revoked)
    {
      assert all[..i + 1] == all[..i] + [i + 1];
      var isRevoked := IsRevoked(handles[i], revoked);
      if isRevoked {
        handles := handles[..i] + handles[i + 1..];
      }
      i := i - 1;
    }
    assert all[..0] == [];
  }

  /** While the first pool lasts, a handle that was handed out is on the list exactly when no revoked credential has
      it. */
  lemma {:induction false} GoodHandlesListed(n: nat, poolSize: nat, revoked: seq<Option<int>>)
    requires n <= poolSize && forall i :: 0 <= i < |revoked| ==> revoked[i].Some?
    ensures forall h :: 1 <= h <= n ==> (h in Unrevoked(1, poolSize, revoked) <==> Some(h) !in revoked)
  {
    UnrevokedIsExact(1, poolSize, revoked);
    forall h | 1 <= h <= n ensures h in Unrevoked(1, poolSize, revoked) <==> Some(h) !in revoked {
      RevokedIsMembership(h, revoked);
    }
  }
}
