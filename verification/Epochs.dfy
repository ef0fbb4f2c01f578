/** Epoch boundaries of a fixed epoch length L: epoch e covers heights e * L up to (e + 1) * L - 1. */
module Epochs {
  import opened Common

  const SHADOW_EPOCH: nat := 1

  function Containing(length: nat, height: nat): nat
    requires length > 0
  {
    height / length
  }

  function Last(length: nat, epoch: nat): nat
    requires length > 0
  {
    (epoch + 1) * length - 1
  }

  function LatestDkgBlock(length: nat, height: nat): nat
    requires length > 0
  {
    var epoch := Containing(length, height);
    if Last(length, epoch) == height then height
    else if epoch == 0 then 0
    else Last(length, epoch - 1)
  }

  function BoundaryForEpoch(length: nat, epoch: nat): nat
    requires length > 0
  {
    if epoch == 0 then 0 else Last(length, epoch - 1)
  }

  /** The epoch length of the shadow chain, unless the fork block has no successor. */
  function ShadowEpochLength(forkBlock: nat): Option<nat> {
    if forkBlock + 1 <= U64_MAX then Some(forkBlock + 1) else None
  }

  lemma LastGrows(length: nat, a: nat, b: nat)
    requires length > 0 && a < b
    ensures Last(length, a) + length <= Last(length, b)
  {
  }

  /** An epoch contains a height exactly when the height is past the previous last and not past its own. */
  lemma ContainingBounds(length: nat, height: nat)
    requires length > 0
    ensures var e := Containing(length, height);
      height <= Last(length, e) < height + length && (e > 0 ==> Last(length, e - 1) < height)
  {
  }

  lemma ContainingUnique(length: nat, height: nat, e: nat)
    requires length > 0 && height <= Last(length, e) && (e > 0 ==> Last(length, e - 1) < height)
    ensures Containing(length, height) == e
  {
    ContainingBounds(length, height);
    var f := Containing(length, height);
    if f < e {
      if f < e - 1 {
        LastGrows(length, f, e - 1);
      }
    } else if e < f {
      if e < f - 1 {
        LastGrows(length, e, f - 1);
      }
    }
  }

  /** The last height of an epoch belongs to it, the next height to the next epoch. */
  lemma LastEndsItsEpoch(length: nat, epoch: nat)
    requires length > 0
    ensures Containing(length, Last(length, epoch)) == epoch
    ensures Containing(length, Last(length, epoch) + 1) == epoch + 1
  {
    if epoch > 0 {
      LastGrows(length, epoch - 1, epoch);
    }
    LastGrows(length, epoch, epoch + 1);
    ContainingUnique(length, Last(length, epoch), epoch);
    ContainingUnique(length, Last(length, epoch) + 1, epoch + 1);
  }

  /** Epoch e covers the heights from e * length up to the one before (e + 1) * length. */
  lemma EpochHeights(length: nat, height: nat, epoch: nat)
    requires length > 0
    ensures Containing(length, height) == epoch <==> epoch * length <= height < (epoch + 1) * length
  {
    ContainingBounds(length, height);
    if epoch * length <= height < (epoch + 1) * length {
      ContainingUnique(length, height, epoch);
    }
  }

  /** The block is the greatest boundary not above the height, or genesis when there is none. */
  lemma LatestDkgBlockIsGreatest(length: nat, height: nat)
    requires length > 0
    ensures LatestDkgBlock(length, height) <= height
    ensures forall e :: Last(length, e) <= height ==> Last(length, e) <= LatestDkgBlock(length, height)
    ensures (exists e :: LatestDkgBlock(length, height) == Last(length, e)) ||
      (LatestDkgBlock(length, height) == 0 && forall e :: Last(length, e) > height)
  {
    var c := Containing(length, height);
    ContainingBounds(length, height);
    forall e | Last(length, e) <= height ensures Last(length, e) <= LatestDkgBlock(length, height) {
      if c < e {
        LastGrows(length, c, e);
      } else if e + 1 < c {
        LastGrows(length, e, c - 1);
      }
    }
    if LatestDkgBlock(length, height) == height {
      if Last(length, c) != height {
        assert c == 0;
        forall e ensures Last(length, e) > height {
          if e > 0 { LastGrows(length, 0, e); }
        }
      }
    } else if c == 0 {
      forall e ensures Last(length, e) > height {
        if e > 0 { LastGrows(length, 0, e); }
      }
    }
  }

  lemma LatestDkgBlockIsMonotone(length: nat, a: nat, b: nat)
    requires length > 0 && a <= b
    ensures LatestDkgBlock(length, a) <= LatestDkgBlock(length, b)
  {
    LatestDkgBlockIsGreatest(length, a);
    LatestDkgBlockIsGreatest(length, b);
  }

  /** The two computations of "the boundary block" agree: the latest outcome at a height is the
      boundary of the epoch that the next height belongs to. */
  lemma BoundariesAgree(length: nat, height: nat)
    requires length > 0
    ensures LatestDkgBlock(length, height) == BoundaryForEpoch(length, Containing(length, height + 1))
  {
    var e := Containing(length, height);
    ContainingBounds(length, height);
    if Last(length, e) == height {
      LastGrows(length, e, e + 1);
      ContainingUnique(length, height + 1, e + 1);
    } else {
      ContainingUnique(length, height + 1, e);
    }
  }

  /** Every fork block has a shadow epoch length but the last u64. */
  lemma OnlyTheLastBlockHasNoShadowEpoch(forkBlock: nat)
    requires forkBlock <= 0xFFFF_FFFF_FFFF_FFFF
    ensures ShadowEpochLength(forkBlock).None? <==> forkBlock == 0xFFFF_FFFF_FFFF_FFFF
  {
  }

  /** With epoch length fork + 1, the fork block is the boundary of the shadow epoch. */
  lemma ForkBlockIsShadowBoundary(forkBlock: nat)
    requires ShadowEpochLength(forkBlock).Some?
    ensures var length := ShadowEpochLength(forkBlock).value;
      BoundaryForEpoch(length, SHADOW_EPOCH) == forkBlock == LatestDkgBlock(length, forkBlock)
  {
  }
}
