/**
 * What `DeviceList::update_last_locations` does to the roster, as functions:
 * every device, slot by slot in index order, takes the position, quality and
 * time of each slot that carries its address and a quality of at most 100.
 * No timestamp is compared.
 */
module LocationMerge {
  import opened Wrappers
  import opened LittleEndian
  import opened Layout
  import opened Devices

  /** Quality above this marks a slot as invalid. */
  const MAX_QUALITY: byte := 100

  predicate Accepts(c: MMCoordinate, address: byte)
  {
    c.address == address && c.q <= MAX_QUALITY
  }

  /** Position, quality and time taken from a slot at once. */
  function Overwrite(d: Device, c: MMCoordinate, t: int): Device
  {
    d.(x := c.x, y := c.y, z := c.z, q := c.q, updateTime := t)
  }

  function ApplySlot(d: Device, c: MMCoordinate, t: int): Device
  {
    if Accepts(c, d.address) then Overwrite(d, c, t) else d
  }

  /** The slots applied to one device in index order. */
  function ApplySlots(d: Device, cs: seq<MMCoordinate>, t: int): (r: Device)
    ensures SameIdentity(d, r)
  {
    if |cs| == 0 then d else ApplySlot(ApplySlots(d, cs[..|cs| - 1], t), cs[|cs| - 1], t)
  }

  ghost predicate HasValidSlot(address: byte, cs: seq<MMCoordinate>)
  {
    exists j :: 0 <= j < |cs| && Accepts(cs[j], address)
  }

  /** The index of the last slot that `address` accepts, if any. */
  function LastValidSlot(address: byte, cs: seq<MMCoordinate>): (r: Option<nat>)
    ensures r.None? <==> !HasValidSlot(address, cs)
    ensures r.Some? ==> r.value < |cs| && Accepts(cs[r.value], address)
    ensures r.Some? ==> forall j :: r.value < j < |cs| ==> !Accepts(cs[j], address)
  {
    if |cs| == 0 then None
    else if Accepts(cs[|cs| - 1], address) then Some(|cs| - 1)
    else LastValidSlot(address, cs[..|cs| - 1])
  }

  /** The slots a device accepts, in index order. */
  function AcceptedSlots(address: byte, cs: seq<MMCoordinate>): (r: seq<MMCoordinate>)
  {
    if |cs| == 0 then []
    else AcceptedSlots(address, cs[..|cs| - 1]) + (if Accepts(cs[|cs| - 1], address) then [cs[|cs| - 1]] else [])
  }

  /**
   * The merged device is the device itself when no slot is valid for it, and
   * otherwise the device overwritten by its last valid slot at the merge time.
   */
  lemma {:induction false} ApplySlotsIsLastValid(d: Device, cs: seq<MMCoordinate>, t: int)
    ensures ApplySlots(d, cs, t) ==
      match LastValidSlot(d.address, cs)
      case None => d
      case Some(j) => Overwrite(d, cs[j], t)
  {
    if |cs| > 0 {
      var prefix := cs[..|cs| - 1];
      ApplySlotsIsLastValid(d, prefix, t);
      if !Accepts(cs[|cs| - 1], d.address) {
        assert LastValidSlot(d.address, cs) == LastValidSlot(d.address, prefix);
        match LastValidSlot(d.address, prefix)
        case None =>
        case Some(j) => assert cs[j] == prefix[j];
      }
    }
  }

  /** Only the slots a device accepts influence it. */
  lemma {:induction false} ApplySlotsOnlyAccepted(d: Device, cs: seq<MMCoordinate>, t: int)
    ensures ApplySlots(d, cs, t) == ApplySlots(d, AcceptedSlots(d.address, cs), t)
  {
    if |cs| > 0 {
      var prefix, last := cs[..|cs| - 1], cs[|cs| - 1];
      ApplySlotsOnlyAccepted(d, prefix, t);
      var acc := AcceptedSlots(d.address, prefix);
      if Accepts(last, d.address) {
        assert (acc + [last])[..|acc|] == acc;
      } else {
        assert acc + [] == acc;
      }
    }
  }

  /** Applying the same slots at the same time a second time changes nothing more. */
  lemma ApplySlotsIdempotent(d: Device, cs: seq<MMCoordinate>, t: int)
    ensures ApplySlots(ApplySlots(d, cs, t), cs, t) == ApplySlots(d, cs, t)
  {
    var once := ApplySlots(d, cs, t);
    ApplySlotsIsLastValid(d, cs, t);
    ApplySlotsIsLastValid(once, cs, t);
  }

  // ---------------------------------------------------------------------------
  // The whole roster

  function MergeRoster(ds: seq<Device>, cs: seq<MMCoordinate>, t: int): (r: seq<Device>)
    ensures |r| == |ds|
    ensures forall i :: 0 <= i < |ds| ==> SameIdentity(ds[i], r[i])
  {
    seq(|ds|, i requires 0 <= i < |ds| => ApplySlots(ds[i], cs, t))
  }

  /** Some device has a slot with its address and a valid quality. */
  ghost predicate AnyUpdate(ds: seq<Device>, cs: seq<MMCoordinate>)
  {
    exists k :: 0 <= k < |ds| && HasValidSlot(ds[k].address, cs)
  }

  /**
   * Each device of the merged roster is its original, or its original overwritten
   * by the last valid slot for its address, stamped with the merge time.
   */
  lemma MergeRosterAt(ds: seq<Device>, cs: seq<MMCoordinate>, t: int, i: nat)
    requires i < |ds|
    ensures !HasValidSlot(ds[i].address, cs) ==> MergeRoster(ds, cs, t)[i] == ds[i]
    ensures HasValidSlot(ds[i].address, cs) ==>
      var j := LastValidSlot(ds[i].address, cs).value;
      MergeRoster(ds, cs, t)[i] == Overwrite(ds[i], cs[j], t)
  {
    ApplySlotsIsLastValid(ds[i], cs, t);
  }

  /** A merge that reports no update leaves the roster exactly as it was. */
  lemma MergeRosterWithoutUpdate(ds: seq<Device>, cs: seq<MMCoordinate>, t: int)
    requires !AnyUpdate(ds, cs)
    ensures MergeRoster(ds, cs, t) == ds
  {
    forall i | 0 <= i < |ds|
      ensures MergeRoster(ds, cs, t)[i] == ds[i]
    {
      MergeRosterAt(ds, cs, t, i);
    }
  }

  /**
   * Merging the same slots at the same time twice gives the roster of one merge,
   * and the second merge reports an update exactly when the first did.
   */
  lemma MergeRosterIdempotent(ds: seq<Device>, cs: seq<MMCoordinate>, t: int)
    ensures MergeRoster(MergeRoster(ds, cs, t), cs, t) == MergeRoster(ds, cs, t)
    ensures AnyUpdate(MergeRoster(ds, cs, t), cs) == AnyUpdate(ds, cs)
  {
    var once := MergeRoster(ds, cs, t);
    forall i | 0 <= i < |ds|
      ensures MergeRoster(once, cs, t)[i] == once[i]
    {
      ApplySlotsIdempotent(ds[i], cs, t);
    }
    assert forall k :: 0 <= k < |ds| ==> once[k].address == ds[k].address;
  }

  /** Quality stays within 0..100 across merges. */
  lemma MergeRosterQualityBounded(ds: seq<Device>, cs: seq<MMCoordinate>, t: int)
    requires QualityBounded(ds)
    ensures QualityBounded(MergeRoster(ds, cs, t))
  {
    forall i | 0 <= i < |ds|
      ensures MergeRoster(ds, cs, t)[i].q <= 100
    {
      MergeRosterAt(ds, cs, t, i);
    }
  }

  /**
   * Timestamps do not decrease across a merge whose time is no earlier than every
   * device's; the merge itself never compares them, so this rests on the clock.
   */
  lemma MergeRosterTimesAdvance(ds: seq<Device>, cs: seq<MMCoordinate>, t: int)
    requires forall i :: 0 <= i < |ds| ==> ds[i].updateTime <= t
    ensures forall i :: 0 <= i < |ds| ==>
      ds[i].updateTime <= MergeRoster(ds, cs, t)[i].updateTime <= t
  {
    forall i | 0 <= i < |ds|
      ensures ds[i].updateTime <= MergeRoster(ds, cs, t)[i].updateTime <= t
    {
      MergeRosterAt(ds, cs, t, i);
    }
  }
}
