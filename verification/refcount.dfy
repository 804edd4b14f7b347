/**
 * The intrusive reference count of `src/Ref.h`.
 *
 * Every managed object derives from `RefClass`, which carries an unsigned
 * 32-bit `__ref_count` starting at 0. A `ref<T>` is a pointer that bumps the
 * count when it starts sharing an object and drops it when it stops; the
 * drop that finds the count already at 0 deletes the object. So an object
 * handed over with `owning_ref`/`newref` (count 0, one ref) lives exactly as
 * long as the refs to it: the count is "number of refs minus one".
 *
 * The heap is a map from object identities to their counts; a deleted object
 * is absent from it. Each operation takes the heap and the pointers it
 * touches and returns the new heap and the new pointer values.
 */
module RefCount {
  import opened Bits

  /** A raw `T*`, or the `ptr` field of a `ref<T>`. */
  datatype Ptr = Null | Obj(id: nat)

  /** The live objects with their `__ref_count`, and the next identity `new` hands out. */
  datatype Heap = Heap(counts: map<nat, uint32>, nextId: nat)

  /** The value of a ref and the heap after an operation on it. */
  datatype Step = Step(heap: Heap, self: Ptr)

  /** The values of the two refs involved in a move, and the heap after it. */
  datatype MoveStep = MoveStep(heap: Heap, dst: Ptr, src: Ptr)

  /** Identities of live objects were all handed out before. */
  predicate Valid(h: Heap) {
    forall id :: id in h.counts ==> id < h.nextId
  }

  /** A pointer the operations may follow: null, or to an object not yet deleted. */
  predicate Live(h: Heap, p: Ptr) {
    p.Null? || p.id in h.counts
  }

  /** The objects other than `p`'s keep their existence and their counts. */
  predicate OthersKept(h: Heap, h': Heap, p: Ptr) {
    forall id :: id in h.counts && !(p.Obj? && p.id == id) ==> id in h'.counts && h'.counts[id] == h.counts[id]
  }

  /** `new T`: a fresh object whose `RefClass()` constructor sets the count to 0. */
  function New(h: Heap): (r: Step)
    requires Valid(h)
    ensures Valid(r.heap) && r.self.Obj? && r.self.id !in h.counts
    ensures r.self.id in r.heap.counts && r.heap.counts[r.self.id] == 0
    ensures OthersKept(h, r.heap, r.self) && r.heap.counts.Keys == h.counts.Keys + {r.self.id}
  {
    Step(Heap(h.counts[h.nextId := 0], h.nextId + 1), Obj(h.nextId))
  }

  /** `incref()`: `ptr->__ref_count++` on a non-null pointer, wrapping at 2^32. */
  function IncRef(h: Heap, p: Ptr): (h': Heap)
    requires Live(h, p)
    ensures h'.counts.Keys == h.counts.Keys && h'.nextId == h.nextId && OthersKept(h, h', p)
    ensures p.Obj? && h.counts[p.id] < 0xFFFF_FFFF ==> h'.counts[p.id] == h.counts[p.id] + 1
    ensures p.Obj? && h.counts[p.id] == 0xFFFF_FFFF ==> h'.counts[p.id] == 0
  {
    if p.Null? then h else Heap(h.counts[p.id := Wrap32(h.counts[p.id] as int + 1)], h.nextId)
  }

  /**
   * `decref()`: `if (ptr && !ptr->__ref_count--) delete ptr;` The object is
   * deleted exactly when its count was already 0; otherwise the count goes
   * down by one.
   */
  function DecRef(h: Heap, p: Ptr): (h': Heap)
    requires Live(h, p)
    ensures h'.counts.Keys <= h.counts.Keys && h'.nextId == h.nextId && OthersKept(h, h', p)
    ensures p.Obj? ==> (p.id !in h'.counts <==> h.counts[p.id] == 0)
    ensures p.Obj? && h.counts[p.id] > 0 ==> h'.counts[p.id] == h.counts[p.id] - 1
  {
    if p.Null? then h
    else if h.counts[p.id] == 0 then Heap(h.counts - {p.id}, h.nextId)
    else Heap(h.counts[p.id := h.counts[p.id] - 1], h.nextId)
  }

  /** A dropped count is exactly undone by a bump that does not wrap: `decref` inverts `incref`. */
  lemma IncDecRoundTrip(h: Heap, p: Ptr)
    requires Live(h, p) && (p.Obj? ==> h.counts[p.id] < 0xFFFF_FFFF)
    ensures DecRef(IncRef(h, p), p) == h
  {
    if p.Obj? {
      var h' := DecRef(IncRef(h, p), p);
      assert h'.counts == h.counts[p.id := h.counts[p.id]];
      assert h.counts[p.id := h.counts[p.id]] == h.counts;
    }
  }

  /**
   * At 0xFFFFFFFF a bump wraps the count to 0, and the next drop then
   * deletes the object although more than 2^32 refs share it.
   */
  lemma IncRefWraps(h: Heap, p: Ptr)
    requires p.Obj? && p.id in h.counts && h.counts[p.id] == 0xFFFF_FFFF
    ensures p.id !in DecRef(IncRef(h, p), p).counts
  {
  }

  /**
   * `ref(T* eptr, true)`, `owning_ref(obj)` and `newref`: take the pointer
   * over without touching the count, so the count stays "refs minus one":
   * dropping the new ref deletes the object exactly when no other ref held
   * it (its count was 0).
   */
  function OwningRef(h: Heap, e: Ptr): (r: Step)
    requires Live(h, e)
    ensures r.self == e && Live(r.heap, r.self) && r.heap.counts == h.counts
    ensures e.Obj? ==> (e.id !in Destroy(r.heap, r.self).counts <==> h.counts[e.id] == 0)
  {
    Step(h, e)
  }

  /**
   * `explicit ref(T* eptr)`, `mkref(p)` and `thisref`: share an object that
   * something else already owns, so the count goes up.
   */
  function MkRef(h: Heap, e: Ptr): (r: Step)
    requires Live(h, e)
    ensures r.self == e && r.heap.counts.Keys == h.counts.Keys && OthersKept(h, r.heap, e)
    ensures e.Obj? && h.counts[e.id] < 0xFFFF_FFFF ==> r.heap.counts[e.id] == h.counts[e.id] + 1
  {
    Step(IncRef(h, e), e)
  }

  /**
   * `ref(const ref &)` and `ref(const ref<U> &)`: a second ref to the same
   * object, which copying never deletes, even when the count wraps.
   */
  function CopyRef(h: Heap, other: Ptr): (r: Step)
    requires Live(h, other)
    ensures r.self == other && Live(r.heap, r.self) && r.heap.counts.Keys == h.counts.Keys && OthersKept(h, r.heap, other)
    ensures other.Obj? && h.counts[other.id] < 0xFFFF_FFFF ==> r.heap.counts[other.id] == h.counts[other.id] + 1
  {
    // A copy takes a share exactly as `explicit ref(T*)` does.
    MkRef(h, other)
  }

  /**
   * `ref(ref &&temp)`: the pointer changes hands and the source becomes
   * null. The share is handed over intact: destroying the emptied source
   * afterwards changes no count, and the new ref is as live as the old one.
   */
  function MoveRef(h: Heap, temp: Ptr): (r: MoveStep)
    ensures r.dst == temp && r.src.Null? && Destroy(r.heap, r.src) == h
    ensures Live(h, temp) ==> Live(r.heap, r.dst)
  {
    MoveStep(h, temp, Null)
  }

  /** `~ref()`: drop this ref's share. */
  function Destroy(h: Heap, self: Ptr): (h': Heap)
    requires Live(h, self)
    ensures OthersKept(h, h', self) && h'.counts.Keys <= h.counts.Keys
    ensures self.Obj? ==> (self.id !in h'.counts <==> h.counts[self.id] == 0)
  {
    DecRef(h, self)
  }

  /**
   * `operator <<=(T *eptr)`, and through it both copy assignments
   * (`operator =(const ref &)` is `(*this) <<= other.ptr`): bump the new
   * object first, then drop the old one, then repoint.
   */
  function AssignPtr(h: Heap, self: Ptr, e: Ptr): (r: Step)
    requires Live(h, self) && Live(h, e)
    ensures r.self == e
    ensures self.Null? || e.Null? || self.id != e.id || h.counts[e.id] < 0xFFFF_FFFF ==> Live(r.heap, e)
    ensures self.Obj? && e.Obj? && self.id != e.id ==>
              (self.id !in r.heap.counts <==> h.counts[self.id] == 0)
  {
    Step(DecRef(IncRef(h, e), self), e)
  }

  /**
   * Assigning a ref its own object leaves everything as it was, even when
   * the count is 0: the bump comes before the drop, so the drop never sees 0.
   */
  lemma SelfAssignKeeps(h: Heap, p: Ptr)
    requires Live(h, p) && (p.Obj? ==> h.counts[p.id] < 0xFFFF_FFFF)
    ensures AssignPtr(h, p, p) == Step(h, p)
  {
    IncDecRoundTrip(h, p);
  }

  /**
   * Why `<<=` bumps before it drops: on the sole ref to an object (count 0)
   * dropping first would delete the very object about to be stored.
   */
  lemma DropFirstWouldDelete(h: Heap, p: Ptr)
    requires p.Obj? && p.id in h.counts && h.counts[p.id] == 0
    ensures p.id !in DecRef(h, p).counts
    ensures p.id in AssignPtr(h, p, p).heap.counts
  {
  }

  /** `operator =(std::nullptr_t)`: drop the share and become null. */
  function AssignNull(h: Heap, self: Ptr): (r: Step)
    requires Live(h, self)
    ensures r.self.Null? && OthersKept(h, r.heap, self)
    ensures self.Obj? ==> (self.id !in r.heap.counts <==> h.counts[self.id] == 0)
  {
    Step(DecRef(h, self), Null)
  }

  /** `operator =(ref &&temp)` between two distinct refs: drop this ref's share, take `temp`'s pointer, null `temp`. */
  function MoveAssign(h: Heap, self: Ptr, temp: Ptr): (r: MoveStep)
    requires Live(h, self)
    ensures r.dst == temp && r.src.Null? && OthersKept(h, r.heap, self)
    ensures self.Obj? ==> (self.id !in r.heap.counts <==> h.counts[self.id] == 0)
  {
    MoveStep(DecRef(h, self), temp, Null)
  }

  /**
   * `a = std::move(a)`: `this` and `temp` are the same ref, so after the drop
   * the final `temp.ptr = nullptr` empties `a` itself.
   */
  function MoveAssignSelf(h: Heap, self: Ptr): (r: Step)
    requires Live(h, self)
    ensures r.self.Null?
  {
    var m := MoveAssign(h, self, self);
    Step(m.heap, m.src)
  }

  /** Moving a ref into itself loses the object: the ref becomes null and the object loses one share. */
  lemma SelfMoveAssignReleases(h: Heap, p: Ptr)
    requires p.Obj? && p.id in h.counts
    ensures MoveAssignSelf(h, p).self.Null?
    ensures MoveAssignSelf(h, p).heap == DecRef(h, p)
    ensures h.counts[p.id] == 0 ==> p.id !in MoveAssignSelf(h, p).heap.counts
  {
  }

  /** `unmanaged_ptr()`: hand out the raw pointer with one extra share that no ref will ever drop. */
  function UnmanagedPtr(h: Heap, self: Ptr): (r: Step)
    requires Live(h, self)
    ensures r.self == self && r.heap.counts.Keys == h.counts.Keys
    ensures self.Obj? && h.counts[self.id] < 0xFFFF_FFFF ==> r.heap.counts[self.id] == h.counts[self.id] + 1
  {
    Step(IncRef(h, self), self)
  }

  /** `k` more refs to the object of `p`, each made by copying. */
  function CopyTimes(h: Heap, p: Ptr, k: nat): (h': Heap)
    requires Live(h, p)
    ensures h'.counts.Keys == h.counts.Keys
    decreases k
  {
    if k == 0 then h else CopyRef(CopyTimes(h, p, k - 1), p).heap
  }

  /** `j` refs to the live object `p` dropped one after the other. */
  function ReleaseTimes(h: Heap, p: Ptr, j: nat): Heap
    requires p.Obj? && p.id in h.counts && j <= h.counts[p.id]
    decreases j
  {
    if j == 0 then h
    else
      var h1 := DecRef(h, p);
      ReleaseTimes(h1, p, j - 1)
  }

  /** Copying `k` times adds `k` to the count while it does not wrap. */
  lemma {:induction false} CopyTimesCount(h: Heap, p: Ptr, k: nat)
    requires p.Obj? && p.id in h.counts && h.counts[p.id] + k < 0x1_0000_0000
    ensures CopyTimes(h, p, k).counts[p.id] == h.counts[p.id] + k
    decreases k
  {
    if k > 0 {
      CopyTimesCount(h, p, k - 1);
    }
  }

  /** Dropping `j` shares of an object with count `c >= j` leaves it alive with count `c - j`. */
  lemma {:induction false} ReleaseTimesCount(h: Heap, p: Ptr, j: nat)
    requires p.Obj? && p.id in h.counts && j <= h.counts[p.id]
    ensures p.id in ReleaseTimes(h, p, j).counts
    ensures ReleaseTimes(h, p, j).counts[p.id] == h.counts[p.id] - j
    decreases j
  {
    if j > 0 {
      var h1 := DecRef(h, p);
      ReleaseTimesCount(h1, p, j - 1);
    }
  }

  /**
   * The ownership protocol: an object created with `newref`/`owning_ref`
   * and then copied `k` times has `k + 1` refs; it survives the first `k`
   * of them going away and is deleted by the last one.
   */
  lemma OwnedLifetime(h: Heap, k: nat)
    requires Valid(h) && k < 0x1_0000_0000
    ensures var s := OwningRef(New(h).heap, New(h).self);
            var shared := CopyTimes(s.heap, s.self, k);
            s.self.id in shared.counts && shared.counts[s.self.id] == k
            && var before := ReleaseTimes(shared, s.self, k);
            s.self.id in before.counts && before.counts[s.self.id] == 0
            && s.self.id !in DecRef(before, s.self).counts
  {
    var s := OwningRef(New(h).heap, New(h).self);
    CopyTimesCount(s.heap, s.self, k);
    var shared := CopyTimes(s.heap, s.self, k);
    ReleaseTimesCount(shared, s.self, k);
  }

  /**
   * `mkref` on a freshly created object (count 0) makes the count 1, so
   * when that single ref goes away the object is left alive at count 0:
   * a fresh object must be handed over with `owning_ref`/`newref` instead.
   */
  lemma MkRefOnFreshKeepsAlive(h: Heap)
    requires Valid(h)
    ensures var n := New(h); var s := MkRef(n.heap, n.self);
            var after := Destroy(s.heap, s.self);
            s.self.id in after.counts && after.counts[s.self.id] == 0
  {
  }

  /**
   * After `unmanaged_ptr()` on an object shared by `c + 1` refs, all of
   * those refs can go away and the object is still alive at count 0: only
   * a manual `delete` frees it.
   */
  lemma UnmanagedSurvivesRefs(h: Heap, p: Ptr)
    requires p.Obj? && p.id in h.counts && h.counts[p.id] < 0xFFFF_FFFF
    ensures var u := UnmanagedPtr(h, p);
            var c := h.counts[p.id];
            p.id in ReleaseTimes(u.heap, p, c + 1).counts
            && ReleaseTimes(u.heap, p, c + 1).counts[p.id] == 0
  {
    var u := UnmanagedPtr(h, p);
    ReleaseTimesCount(u.heap, p, h.counts[p.id] + 1);
  }
}
