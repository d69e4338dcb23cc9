/** The 16-bit descriptor of a granule: lock bit 15, state in bits 14:10 and reference count
    in bits 9:0, updated by atomic additions and exclusive-ors on the whole word. */
module GranuleWord {

  type Word16 = bv16

  function Refcount(d: Word16): Word16 { d & 0x3FF }

  function State(d: Word16): Word16 { (d & 0x7C00) >> 10 }

  predicate Locked(d: Word16) { d & 0x8000 != 0 }

  /** granule_set_state: exclusive-or with the difference of the states. */
  function SetState(d: Word16, s: Word16): Word16 { d ^ ((d & 0x7C00) ^ (s << 10)) }

  /** granule_refcount_inc and granule_refcount_dec. */
  function Add(d: Word16, v: Word16): Word16 { d + v }

  function Subtract(d: Word16, v: Word16): Word16 { d + (0 - v) }

  /** Setting the state changes nothing else. */
  lemma SetStateFields(d: Word16, s: Word16)
    requires s < 32
    ensures State(SetState(d, s)) == s && Refcount(SetState(d, s)) == Refcount(d) && Locked(SetState(d, s)) == Locked(d)
  {}

  /** The words agree above the count. */
  predicate SameAbove(d: Word16, e: Word16) { d & 0xFC00 == e & 0xFC00 }

  /** The count can take another `v`. */
  predicate Room(d: Word16, v: Word16) { v <= 0x3FF && (d & 0x3FF) + v <= 0x3FF }

  lemma AddBits(d: Word16, v: Word16)
    requires Room(d, v)
    ensures SameAbove(Add(d, v), d)
  {}

  lemma SubtractHigh(d: Word16, v: Word16)
    requires v <= d & 0x3FF
    ensures Subtract(d, v) & 0xFC00 == d & 0xFC00
  {}

  lemma SubtractBits(d: Word16, v: Word16)
    requires v <= Refcount(d)
    ensures SameAbove(Subtract(d, v), d)
  {
    hide Subtract;
    SubtractHigh(d, v);
  }

  lemma SameHigh(d: Word16, e: Word16)
    requires SameAbove(d, e)
    ensures State(d) == State(e) && Locked(d) == Locked(e)
  {}

  lemma AddKeeps(d: Word16, v: Word16)
    requires Room(d, v)
    ensures State(Add(d, v)) == State(d) && Locked(Add(d, v)) == Locked(d)
  {
    hide Add, State, Locked, SameAbove, Room;
    AddBits(d, v);
    SameHigh(Add(d, v), d);
  }

  lemma SubtractKeeps(d: Word16, v: Word16)
    requires v <= Refcount(d)
    ensures State(Subtract(d, v)) == State(d) && Locked(Subtract(d, v)) == Locked(d)
  {
    hide Subtract, State, Locked, SameAbove, Refcount;
    SubtractBits(d, v);
    SameHigh(Subtract(d, v), d);
  }

  lemma AddCount(d: Word16, v: Word16)
    requires Room(d, v)
    ensures Refcount(Add(d, v)) == Refcount(d) + v
  {}

  lemma SubtractCount(d: Word16, v: Word16)
    requires v <= Refcount(d)
    ensures Refcount(Subtract(d, v)) == Refcount(d) - v
  {
    hide Subtract;
    SubtractLow(d, v);
  }

  lemma SubtractLow(d: Word16, v: Word16)
    requires v <= d & 0x3FF
    ensures Subtract(d, v) & 0x3FF == (d & 0x3FF) - v
  {}

  /** An addition that stays within the field does not carry into the state or the lock,
      and a subtraction that stays at or above zero does not borrow from them. */
  lemma AddFields(d: Word16, v: Word16)
    requires v <= 0x3FF && Refcount(d) + v <= 0x3FF
    ensures Refcount(Add(d, v)) == Refcount(d) + v && State(Add(d, v)) == State(d) && Locked(Add(d, v)) == Locked(d)
  {
    assert Room(d, v);
    hide Add, State, Locked, Refcount, Room;
    AddCount(d, v);
    AddKeeps(d, v);
  }

  lemma SubtractFields(d: Word16, v: Word16)
    requires v <= Refcount(d)
    ensures Refcount(Subtract(d, v)) == Refcount(d) - v && State(Subtract(d, v)) == State(d)
    ensures Locked(Subtract(d, v)) == Locked(d)
  {
    hide Subtract, State, Locked, Refcount;
    SubtractCount(d, v);
    SubtractKeeps(d, v);
  }
}
