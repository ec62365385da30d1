/** Labels: slots with 0 stored as a sentinel, and a zone of labels, each of which may refer back to
  the variable that owns it.
 */
module MacLabel {

  const MAX_SLOTS := 7
  const NULL := 0
  const NULL_SLOT := -1  // all bits set, as a signed word

  function EncodeSlot(p: int): int { if p == 0 then NULL_SLOT else p }
  function DecodeSlot(p: int): int { if p == NULL_SLOT then 0 else p }

  /** The slots of an initialised label. */
  predicate Initialised(slots: seq<int>) {
    |slots| == MAX_SLOTS && forall i :: 0 <= i < MAX_SLOTS ==> slots[i] != 0
  }

  /** What a policy sees: `mac_label_get` on every slot. */
  function Values(slots: seq<int>): (v: seq<int>)
    ensures |v| == |slots| && forall i :: 0 <= i < |slots| ==> v[i] == DecodeSlot(slots[i])
  {
    seq(|slots|, i requires 0 <= i < |slots| => DecodeSlot(slots[i]))
  }

  /** Comparing the raw slots of two initialised labels compares what policies see. */
  lemma RawEqualIffSame(a: seq<int>, b: seq<int>)
    requires Initialised(a) && Initialised(b)
    ensures a == b <==> Values(a) == Values(b)
  {
    if Values(a) == Values(b) {
      forall i | 0 <= i < MAX_SLOTS ensures a[i] == b[i] {
        assert Values(a)[i] == Values(b)[i];
      }
    }
  }

  // ---------- Histories ----------

  /** What was done to the zone.  `ref` is the address of a variable that holds a label pointer, or
      NULL; `at` the storage the zone handed out, or NULL if it had none. */
  datatype Op =
    | Alloc(ref: int, at: int)
    | Set(at: int, slot: int, v: int)
    | FreeOwned(ref: int)
    | Free(at: int)

  /** The label that variable `r` holds after a history: from its last allocation, unless freed since. */
  ghost function Held(ops: seq<Op>, r: int): int {
    if ops == [] then NULL
    else
      var before := ops[..|ops| - 1];
      match ops[|ops| - 1]
      case Alloc(ref, at) => if ref == r then at else Held(before, r)
      case FreeOwned(ref) => if ref == r then NULL else Held(before, r)
      case _ => Held(before, r)
  }

  /** The variable for which the label at `l` was allocated, NULL for none, -1 for no label. */
  ghost function Owner(ops: seq<Op>, l: int): int {
    if ops == [] then -1
    else
      var before := ops[..|ops| - 1];
      match ops[|ops| - 1]
      case Alloc(ref, at) => if at == l then ref else Owner(before, l)
      case FreeOwned(ref) => if Held(before, ref) == l then -1 else Owner(before, l)
      case Free(at) => if at == l then -1 else Owner(before, l)
      case Set(_, _, _) => Owner(before, l)
  }

  /** The value last set in a slot since the label at `l` was allocated, 0 for none. */
  ghost function LastSet(ops: seq<Op>, l: int, slot: int): int {
    if ops == [] then 0
    else
      var before := ops[..|ops| - 1];
      match ops[|ops| - 1]
      case Alloc(_, at) => if at == l then 0 else LastSet(before, l, slot)
      case Set(at, s, v) => if at == l && s == slot then v else LastSet(before, l, slot)
      case _ => LastSet(before, l, slot)
  }

  ghost predicate Live(ops: seq<Op>, l: int) {
    l > 0 && Owner(ops, l) >= 0
  }

  /** What variable `r` holds passes `mac_label_verify`: nothing, or a live label that refers back to it. */
  ghost predicate Passes(ops: seq<Op>, r: int) {
    Held(ops, r) == NULL || (Live(ops, Held(ops, r)) && Owner(ops, Held(ops, r)) == r)
  }

  /** An operation that does not panic, on storage not in use. */
  ghost predicate Legal(ops: seq<Op>, op: Op) {
    match op
    case Alloc(ref, at) => ref >= 0 && at >= 0 && !Live(ops, at) && (at == NULL ==> ref == NULL)
    case Set(at, slot, v) => Live(ops, at) && 0 <= slot < MAX_SLOTS && v != NULL_SLOT
    case FreeOwned(ref) => ref > 0 && Passes(ops, ref)
    case Free(at) => Live(ops, at)
  }

  ghost predicate Unheld(ops: seq<Op>, l: int) {
    forall r :: r > 0 ==> Held(ops, r) != l
  }

  ghost predicate History(ops: seq<Op>) {
    ops == [] || (History(ops[..|ops| - 1]) && Legal(ops[..|ops| - 1], ops[|ops| - 1]))
  }

  /** No label is freed by address while a variable holds it. */
  ghost predicate Careful(ops: seq<Op>) {
    ops == []
    || var before := ops[..|ops| - 1];
       Careful(before) && (ops[|ops| - 1].Free? ==> Unheld(before, ops[|ops| - 1].at))
  }

  ghost predicate Sound(ops: seq<Op>) {
    forall r :: r > 0 ==> Passes(ops, r)
  }

  /** Over every careful history, on any set of variables: what a variable holds passes verification,
      and no two variables hold the same label. */
  lemma {:induction false} HistorySound(ops: seq<Op>)
    requires History(ops) && Careful(ops)
    ensures Sound(ops)
    ensures forall r, q :: 0 < r < q && Held(ops, r) != NULL ==> Held(ops, r) != Held(ops, q)
  {
    if ops == [] {
    } else {
      var before := ops[..|ops| - 1];
      HistorySound(before);
      forall r | r > 0 ensures Passes(ops, r) {
        assert Passes(before, r);
      }
    }
    forall r, q | 0 < r < q && Held(ops, r) != NULL ensures Held(ops, r) != Held(ops, q) {
      assert Passes(ops, r) && Passes(ops, q);
    }
  }

  /** Freeing a live label by address is sound exactly if no variable holds it. */
  lemma FreeIff(ops: seq<Op>, l: int)
    requires Sound(ops) && Live(ops, l)
    ensures Sound(ops + [Free(l)]) <==> Unheld(ops, l)
  {
    var after := ops + [Free(l)];
    assert after[..|ops|] == ops;
    forall r | r > 0 ensures Passes(after, r) <==> Held(ops, r) != l {
      assert Passes(ops, r);
    }
  }

  // ---------- The zone ----------

  datatype Label = Label(owner: int, slots: seq<int>)

  const EMPTY_SLOTS := [NULL_SLOT, NULL_SLOT, NULL_SLOT, NULL_SLOT, NULL_SLOT, NULL_SLOT, NULL_SLOT]

  /** A stored label is the one its history describes. */
  ghost predicate Recorded(ops: seq<Op>, l: int, stored: Label) {
    && Live(ops, l) && stored.owner == Owner(ops, l) && Initialised(stored.slots)
    && forall i :: 0 <= i < MAX_SLOTS ==> DecodeSlot(stored.slots[i]) == LastSet(ops, l, i)
  }

  /** What one more operation changes. */
  lemma OneMore(ops: seq<Op>, op: Op)
    ensures History(ops + [op]) <==> History(ops) && Legal(ops, op)
    ensures forall r ::
      Held(ops + [op], r) == (if Assigns(op, r) then if op.Alloc? then op.at else NULL else Held(ops, r))
    ensures forall l ::
      Live(ops + [op], l) <==>
        (if op.Alloc? && op.at == l then l > 0 && op.ref >= 0 else Live(ops, l) && !Frees(ops, op, l))
  {
    assert (ops + [op])[..|ops|] == ops;
  }

  predicate Assigns(op: Op, r: int) {
    (op.Alloc? || op.FreeOwned?) && op.ref == r
  }

  ghost predicate Frees(ops: seq<Op>, op: Op, l: int) {
    (op.FreeOwned? && Held(ops, op.ref) == l) || (op.Free? && op.at == l)
  }

  /** Labels that an operation does not concern keep their record. */
  lemma RecordStays(ops: seq<Op>, op: Op, l: int, stored: Label)
    requires Recorded(ops, l, stored) && !Frees(ops, op, l) && (op.Alloc? || op.Set? ==> op.at != l)
    ensures Recorded(ops + [op], l, stored)
  {
    assert (ops + [op])[..|ops|] == ops;
  }

  lemma RecordNew(ops: seq<Op>, ref: int, at: int)
    requires at > 0 && ref >= 0
    ensures Recorded(ops + [Alloc(ref, at)], at, Label(ref, EMPTY_SLOTS))
  {
    assert (ops + [Alloc(ref, at)])[..|ops|] == ops;
  }

  lemma RecordSet(ops: seq<Op>, l: int, stored: Label, slot: int, v: int)
    requires Recorded(ops, l, stored) && 0 <= slot < MAX_SLOTS && v != NULL_SLOT
    ensures Recorded(ops + [Set(l, slot, v)], l, stored.(slots := stored.slots[slot := EncodeSlot(v)]))
  {
    assert (ops + [Set(l, slot, v)])[..|ops|] == ops;
  }

  lemma SameReads(ops: seq<Op>, a: int, x: Label, b: int, y: Label)
    requires Recorded(ops, a, x) && Recorded(ops, b, y)
    ensures x.slots == y.slots <==> forall i :: 0 <= i < MAX_SLOTS ==> LastSet(ops, a, i) == LastSet(ops, b, i)
  {
    RawEqualIffSame(x.slots, y.slots);
    if x.slots != y.slots {
      var i :| 0 <= i < MAX_SLOTS && Values(x.slots)[i] != Values(y.slots)[i];
      assert LastSet(ops, a, i) != LastSet(ops, b, i);
    }
  }

  class LabelZone {
    var labels: map<int, Label>
    var refs: map<int, int>
    ghost var ops: seq<Op>

    /** Storage and variables are as the history of operations says. */
    ghost predicate Valid()
      reads this
    {
      && History(ops)
      && (forall l :: l in labels <==> Live(ops, l))
      && (forall l :: l in labels ==> Recorded(ops, l, labels[l]))
      && (forall r :: r > 0 ==> Deref(r) == Held(ops, r))
    }

    /** The pointer stored at `r`. */
    function Deref(r: int): int
      reads this
    {
      if r in refs then refs[r] else NULL
    }

    constructor ()
      ensures Valid() && ops == []
    {
      labels, refs, ops := map[], map[], [];
    }

    /** `mac_labelzone_alloc_owned`, with what the zone's allocator returned.  For an owner, it does not
        look whether it got storage. */
    method AllocOwned(ref: int, at: int) returns (ok: bool)
      requires Valid() && ref >= 0 && at >= 0 && at !in labels
      modifies this
      ensures Valid()
      ensures ok <==> at != NULL || ref == NULL
      ensures ops == if ok then old(ops) + [Alloc(ref, at)] else old(ops)
      ensures old(Careful(ops)) ==> Careful(ops)
    {
      hide Held, Owner, LastSet, Recorded, History;
      OneMore(ops, Alloc(ref, at));
      if ref != NULL {
        if at == NULL {
          return false;
        }
        labels := labels[at := Label(ref, EMPTY_SLOTS)];
        refs := refs[ref := at];
      } else if at != NULL {
        labels := labels[at := Label(NULL, EMPTY_SLOTS)];
      }
      ops := ops + [Alloc(ref, at)];
      assert ops[..|ops| - 1] == old(ops);
      if at != NULL {
        RecordNew(old(ops), ref, at);
      }
      forall l | l in labels && l != at ensures Recorded(ops, l, labels[l]) {
        RecordStays(old(ops), Alloc(ref, at), l, labels[l]);
      }
      return true;
    }

    /** `mac_label_verify`: a label that does not refer back is refused (the source panics), which never
        happens in a careful history. */
    method Verify(ref: int) returns (ok: bool, found: int)
      requires Valid() && ref > 0
      ensures found == Held(ops, ref) && (ok <==> Passes(ops, ref))
      ensures Careful(ops) ==> ok
    {
      if Careful(ops) {
        HistorySound(ops);
      }
      found := Deref(ref);
      ok := found == NULL || (found in labels && labels[found].owner == ref);
    }

    /** `mac_labelzone_free`: NULL and labels not in the zone are refused (the source panics). */
    method Free(l: int) returns (ok: bool)
      requires Valid()
      modifies this
      ensures Valid()
      ensures ok <==> l in old(labels)
      ensures ops == if ok then old(ops) + [Op.Free(l)] else old(ops)
      ensures ok && old(Careful(ops) && Unheld(ops, l)) ==> Careful(ops)
    {
      hide Held, Owner, LastSet, Recorded, History;
      ok := l != NULL && l in labels;
      if ok {
        OneMore(ops, Op.Free(l));
        labels := labels - {l};
        ops := ops + [Op.Free(l)];
        assert ops[..|ops| - 1] == old(ops);
        forall k | k in labels ensures Recorded(ops, k, labels[k]) {
          RecordStays(old(ops), Op.Free(l), k, labels[k]);
        }
      }
    }

    /** `mac_labelzone_free_owned`: clears the variable and frees the label it held. */
    method FreeOwned(ref: int) returns (ok: bool)
      requires Valid() && ref > 0
      modifies this
      ensures Valid()
      ensures ok <==> old(Passes(ops, ref))
      ensures ops == if ok then old(ops) + [Op.FreeOwned(ref)] else old(ops)
      ensures ok ==> Held(old(ops), ref) !in labels
      ensures old(Careful(ops)) ==> ok && Careful(ops)
    {
      hide Held, Owner, LastSet, Recorded, History;
      var found;
      ok, found := Verify(ref);
      if !ok {
        return;
      }
      OneMore(ops, Op.FreeOwned(ref));
      if found != NULL {
        refs := refs[ref := NULL];
        labels := labels - {found};
      }
      ops := ops + [Op.FreeOwned(ref)];
      assert ops[..|ops| - 1] == old(ops);
      forall l | l in labels ensures Recorded(ops, l, labels[l]) {
        RecordStays(old(ops), Op.FreeOwned(ref), l, labels[l]);
      }
    }

    /** `mac_label_get` reads what was last set. */
    method Get(l: int, slot: int) returns (v: int)
      requires Valid() && l in labels && 0 <= slot < MAX_SLOTS
      ensures v == LastSet(ops, l, slot)
    {
      v := DecodeSlot(labels[l].slots[slot]);
    }

    /** `mac_label_set`; a value with all bits set is refused (the source panics). */
    method Set(l: int, slot: int, v: int) returns (ok: bool)
      requires Valid() && l in labels && 0 <= slot < MAX_SLOTS
      modifies this
      ensures Valid()
      ensures ok <==> v != -1
      ensures ops == if ok then old(ops) + [Op.Set(l, slot, v)] else old(ops)
      ensures old(Careful(ops)) ==> Careful(ops)
    {
      hide Held, Owner, LastSet, History;
      ok := v != NULL_SLOT;
      if ok {
        OneMore(ops, Op.Set(l, slot, v));
        RecordSet(ops, l, labels[l], slot, v);
        labels := labels[l := labels[l].(slots := labels[l].slots[slot := EncodeSlot(v)])];
        ops := ops + [Op.Set(l, slot, v)];
        assert ops[..|ops| - 1] == old(ops);
        forall k | k in labels ensures Recorded(ops, k, labels[k]) {
          if k != l {
            RecordStays(old(ops), Op.Set(l, slot, v), k, labels[k]);
          }
        }
      }
    }

    /** `mac_cred_label_is_equal` compares raw slots; that is to compare what was last set in each. */
    method IsEqual(a: int, b: int) returns (same: bool)
      requires Valid() && a in labels && b in labels
      ensures same <==> forall i :: 0 <= i < MAX_SLOTS ==> LastSet(ops, a, i) == LastSet(ops, b, i)
    {
      SameReads(ops, a, labels[a], b, labels[b]);
      same := labels[a].slots == labels[b].slots;
    }
  }
}
