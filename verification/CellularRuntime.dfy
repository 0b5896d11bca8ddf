/** The owner and the root-policy effect gate behind their locks (cellular_runtime.rs). */
module CellularRuntime {
  import opened Common
  import opened CellularOwner

  /** Each method is one region under the owner lock, the gate lock, or both. */
  class CellularRuntimeCoordinator {
    const owner: CellularEgress
    var ready: bool
    var inFlight: nat
    ghost var livePermits: nat
    ghost var authorized: Option<Authority>

    /** An open gate names the owner's current admitted generation; `inFlight` counts live permits. */
    ghost predicate Valid()
      reads this, owner
    {
      && Coherent(owner.View())
      && inFlight == livePermits
      && (ready ==> authorized.Some? && Validates(owner.View(), authorized.value))
    }

    constructor ()
      ensures Valid() && fresh(owner) && owner.View() == INITIAL && !ready && livePermits == 0
    {
      owner := new CellularEgress();
      ready, inFlight, livePermits, authorized := false, 0, 0, None;
    }

    method ObserveNetwork(o: Observation) returns (admission: Admission)
      requires Valid()
      modifies this, owner
      ensures Valid() && !ready && livePermits == old(livePermits) && inFlight == old(inFlight)
      ensures owner.View() == Apply(old(owner.View()), Observe(o)) && admission == owner.View().admission
    {
      ready := false;
      var _ := owner.ObserveNetwork(o);
      admission := owner.admission;
    }

    method NetworkLost(sequence: nat, handle: nat) returns (admission: Admission)
      requires Valid()
      modifies this, owner
      ensures Valid() && !ready && livePermits == old(livePermits) && inFlight == old(inFlight)
      ensures owner.View() == Apply(old(owner.View()), Lost(sequence, handle)) && admission == owner.View().admission
    {
      ready := false;
      var _ := owner.NetworkIsLost(sequence, handle);
      admission := owner.admission;
    }

    /** Opens the gate for the owner's current admitted generation and closes it for any other. */
    method AuthorizeRootPolicy(sequence: nat, handle: nat) returns (current: bool)
      requires Valid()
      modifies this
      ensures Valid() && livePermits == old(livePermits) && inFlight == old(inFlight)
      ensures current == ready == Validates(owner.View(), Authority(handle, sequence))
      ensures current ==> authorized == Some(Authority(handle, sequence))
    {
      var snapshot := owner.admission;
      current := snapshot.state.Admitted?
        && snapshot.lastSequence == Some(sequence) && snapshot.network == Some(handle);
      ready := current;
      if current { authorized := Some(Authority(handle, sequence)); }
    }

    method Acquire() returns (granted: bool)
      requires Valid()
      modifies this
      ensures Valid() && ready == old(ready) && authorized == old(authorized)
      ensures granted == old(ready)
      ensures livePermits == old(livePermits) + (if granted then 1 else 0)
    {
      granted := ready;
      if granted { inFlight, livePermits := inFlight + 1, livePermits + 1; }
    }

    /** Dropping a permit; the source never lets the count fall below zero. */
    method DropPermit()
      requires Valid() && livePermits > 0
      modifies this
      ensures Valid() && ready == old(ready) && authorized == old(authorized)
      ensures livePermits == old(livePermits) - 1
    {
      if inFlight != 0 { inFlight := inFlight - 1; }
      livePermits := livePermits - 1;
    }
  }
}
