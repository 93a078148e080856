/** The table of pending approvals, updated in place; its loops find the slots the protocol speaks of. */
module ApprovalTable {
  import opened ApprovalProtocol

  class Table {
    const slots: array<Slot>

    ghost predicate Valid()
      reads this
    {
      slots.Length == SLOTS
    }

    /** approvals_init_once. */
    constructor ()
      ensures Valid() && fresh(slots)
      ensures slots[..] == Init.slots
    {
      slots := new Slot[SLOTS](_ => Slot(false, 0, Undecided));
      new;
      assert slots[..] == Init.slots;
    }

    /** Takes the first free slot for `corr`; -1 when the table is full. */
    method Claim(corr: Corr) returns (slot: int)
      requires Valid()
      modifies slots
      ensures var i := FirstFree(old(slots[..]));
        if i == SLOTS then slot == -1 && slots[..] == old(slots[..])
        else slot == i && slots[..] == old(slots[..])[i := Slot(true, corr, Undecided)]
    {
      slot := -1;
      var i := 0;
      while i < slots.Length && slot == -1
        invariant 0 <= i <= slots.Length
        invariant forall k | 0 <= k < i :: slot == -1 ==> slots[k].inUse
        invariant slot == -1 || (0 <= slot < slots.Length && !slots[slot].inUse)
        invariant forall k | 0 <= k < slot :: slots[k].inUse
        decreases slots.Length - i, if slot == -1 then 1 else 0
      {
        if !slots[i].inUse {
          slot := i;
        } else {
          i := i + 1;
        }
      }
      if slot >= 0 {
        slots[slot] := Slot(true, corr, Undecided);
      }
    }

    /** Decides the slot in use for `corr`, and nothing when there is none. */
    method Notify(corr: Corr, approved: bool)
      requires Valid()
      modifies slots
      ensures var i := FirstFor(old(slots[..]), corr);
        slots[..] == if i == SLOTS then old(slots[..])
                     else old(slots[..])[i := Slot(true, corr, if approved then Approved else Denied)]
    {
      for i := 0 to slots.Length
        invariant slots[..] == old(slots[..])
        invariant forall k | 0 <= k < i :: !(slots[k].inUse && slots[k].corr == corr)
      {
        if slots[i].inUse && slots[i].corr == corr {
          slots[i] := slots[i].(decided := if approved then Approved else Denied);
          return;
        }
      }
    }

    /** The end of bw_request_approval. */
    method Release(slot: nat)
      requires Valid() && slot < SLOTS
      modifies slots
      ensures slots[..] == old(slots[..])[slot := old(slots[slot]).(inUse := false)]
    {
      slots[slot] := slots[slot].(inUse := false);
    }
  }
}
