/** The bookkeeping of the ZIP wrapper as values: the table `zip_handles` of
    live session handles, the id counter `next_handle_id`, the static pool of
    handle records with its `pool_used` flags, and the heap records that the
    pool falls back to. The codec calls are not modelled; each operation takes
    their outcome as a parameter. */
module Registry {

  import opened Ints

  /** Capacity of the handle table: ids are 0 .. MAX_HANDLES - 1. */
  const MAX_HANDLES: nat := 100
  /** Number of records in the static pool. */
  const HANDLE_POOL_SIZE: nat := 20

  datatype Option<T> = None | Some(value: T)

  /** The role of a handle: its record's `is_writer` flag. */
  datatype Role = Writer | Reader

  /** What the codec archive inside a record was initialised on; `Unset` is
      the zero-initialised archive of a record never used. */
  datatype Backing = Unset | File(path: string) | Memory

  /** One `zip_handle_t`: its role and, abstractly, its codec archive. */
  datatype HandleRec = HandleRec(role: Role, backing: Backing)

  /** The zero-initialised record of the static pool. */
  const ZeroRec := HandleRec(Reader, Unset)

  /** A value of a `zip_handles` slot: NULL, the address of a pool record, or
      the address of a record obtained from `malloc`. */
  datatype Ptr = Null | Pooled(slot: nat) | Heap(addr: nat)

  /** The wrapper's global state. `heap` holds the allocated heap records by
      address; `nextAddr` is the allocator's next fresh address. */
  datatype RegState = RegState(
    handles: seq<Ptr>,
    next: nat,
    pool: seq<HandleRec>,
    used: seq<bool>,
    heap: map<nat, HandleRec>,
    nextAddr: nat)

  /** The three fixed-size tables have their declared sizes. */
  ghost predicate WellShaped(s: RegState) {
    |s.handles| == MAX_HANDLES && |s.pool| == HANDLE_POOL_SIZE && |s.used| == HANDLE_POOL_SIZE
  }

  /** Some id's slot holds `p`. */
  ghost predicate Held(s: RegState, p: Ptr) {
    exists k :: 0 <= k < |s.handles| && s.handles[k] == p
  }

  /** The invariant the entry points keep. */
  ghost predicate Inv(s: RegState) {
    WellShaped(s) && s.next <= MAX_HANDLES && NeverIssuedEmpty(s) && LiveAllocated(s)
    && AllocatedLive(s) && Unaliased(s)
  }

  /** Ids at or above the counter were never issued, so their slots are NULL. */
  ghost predicate NeverIssuedEmpty(s: RegState)
    requires WellShaped(s)
  {
    forall k :: s.next <= k < MAX_HANDLES ==> s.handles[k] == Null
  }

  /** A live slot points at a taken pool record or at an allocated heap record. */
  ghost predicate LiveAllocated(s: RegState)
    requires WellShaped(s)
  {
    && (forall k :: 0 <= k < MAX_HANDLES && s.handles[k].Pooled? ==>
          s.handles[k].slot < HANDLE_POOL_SIZE && s.used[s.handles[k].slot])
    && (forall k :: 0 <= k < MAX_HANDLES && s.handles[k].Heap? ==> s.handles[k].addr in s.heap)
  }

  /** A pool flag is set, and a heap record allocated, only for a live handle;
      every allocated heap address lies below the allocator's next one. */
  ghost predicate AllocatedLive(s: RegState)
    requires WellShaped(s)
  {
    && (forall i :: 0 <= i < HANDLE_POOL_SIZE && s.used[i] ==> Held(s, Pooled(i)))
    && (forall a :: a in s.heap ==> Held(s, Heap(a)) && a < s.nextAddr)
  }

  /** No record is held by two ids. */
  ghost predicate Unaliased(s: RegState)
    requires WellShaped(s)
  {
    forall j, k :: 0 <= j < k < MAX_HANDLES && s.handles[j] != Null ==> s.handles[j] != s.handles[k]
  }

  /** The process's state before the first call: every slot NULL, counter 0,
      pool zeroed and free, nothing allocated. */
  function Initial(): (s: RegState)
    ensures Inv(s)
  {
    RegState(seq(MAX_HANDLES, _ => Null), 0, seq(HANDLE_POOL_SIZE, _ => ZeroRec),
             seq(HANDLE_POOL_SIZE, _ => false), map[], 0)
  }

  /** The record a pointer designates, if it designates one. */
  function Deref(s: RegState, p: Ptr): Option<HandleRec> {
    match p
    case Null => None
    case Pooled(i) => if i < |s.pool| then Some(s.pool[i]) else None
    case Heap(a) => if a in s.heap then Some(s.heap[a]) else None
  }

  /** The guard of every entry point: the id is in range, its slot is not NULL
      and the record it points at has the role the entry point needs. */
  predicate Admits(s: RegState, id: int, role: Role) {
    && 0 <= id < MAX_HANDLES && id < |s.handles|
    && Deref(s, s.handles[id]).Some?
    && Deref(s, s.handles[id]).value.role == role
  }

  /** Every id live in `s`, other than `except`, keeps its slot and its record. */
  ghost predicate KeepsOthers(s: RegState, s': RegState, except: int)
    requires WellShaped(s) && WellShaped(s')
  {
    forall k :: 0 <= k < MAX_HANDLES && k != except && s.handles[k] != Null ==>
      s'.handles[k] == s.handles[k] && Deref(s', s.handles[k]) == Deref(s, s.handles[k])
  }

  // ---------------------------------------------------------------------
  // The pool allocator

  /** The lowest index whose flag is clear, if any. */
  function FirstFree(used: seq<bool>): (r: Option<nat>)
    ensures r.Some? ==> r.value < |used| && !used[r.value]
    ensures r.Some? ==> forall j :: 0 <= j < r.value ==> used[j]
    ensures r.None? ==> forall j :: 0 <= j < |used| ==> used[j]
  {
    if |used| == 0 then None
    else if !used[0] then Some(0)
    else match FirstFree(used[1..])
      case None => None
      case Some(k) => Some(k + 1)
  }

  /** `get_handle_from_pool`: the first free pool record, taken; when the pool
      is full, a freshly allocated heap record, or NULL when `malloc` fails. */
  function TakeHandle(s: RegState, mallocOk: bool): (r: (RegState, Ptr))
    requires WellShaped(s)
    ensures WellShaped(r.0)
    ensures r.0.handles == s.handles && r.0.next == s.next && r.0.pool == s.pool
    ensures r.1.Pooled? ==>
              && r.1.slot < HANDLE_POOL_SIZE && !s.used[r.1.slot]
              && (forall j :: 0 <= j < r.1.slot ==> s.used[j])
              && (forall j :: 0 <= j < HANDLE_POOL_SIZE ==> r.0.used[j] == (s.used[j] || j == r.1.slot))
              && r.0.heap == s.heap && r.0.nextAddr == s.nextAddr
    ensures !r.1.Pooled? ==> (forall j :: 0 <= j < HANDLE_POOL_SIZE ==> s.used[j]) && r.0.used == s.used
    ensures r.1.Heap? <==> !r.1.Pooled? && mallocOk
    ensures r.1.Heap? ==>
              && r.1.addr == s.nextAddr && r.0.nextAddr == s.nextAddr + 1
              && r.0.heap.Keys == s.heap.Keys + {s.nextAddr}
    ensures r.1 == Null ==> r.0 == s
  {
    match FirstFree(s.used)
    case Some(i) => (s.(used := s.used[i := true]), Pooled(i))
    case None =>
      if mallocOk then
        (s.(heap := s.heap[s.nextAddr := ZeroRec], nextAddr := s.nextAddr + 1), Heap(s.nextAddr))
      else (s, Null)
  }

  /** `return_handle_to_pool`: clears the flag of the pool record `p` points
      at, or frees the heap record. */
  function GiveBack(s: RegState, p: Ptr): (r: RegState)
    requires WellShaped(s)
    ensures WellShaped(r)
    ensures r.handles == s.handles && r.next == s.next && r.pool == s.pool && r.nextAddr == s.nextAddr
    ensures forall j :: 0 <= j < HANDLE_POOL_SIZE ==> r.used[j] == (s.used[j] && p != Pooled(j))
    ensures r.heap.Keys == if p.Heap? then s.heap.Keys - {p.addr} else s.heap.Keys
    ensures forall a :: a in r.heap ==> r.heap[a] == s.heap[a]
  {
    if p.Pooled? && p.slot < HANDLE_POOL_SIZE then s.(used := s.used[p.slot := false])
    else if p.Heap? then s.(heap := s.heap - {p.addr})
    else s
  }

  /** Fills in the record `p` points at. */
  function Store(s: RegState, p: Ptr, rec: HandleRec): (r: RegState)
    requires WellShaped(s)
    ensures WellShaped(r)
    ensures r.handles == s.handles && r.next == s.next && r.used == s.used && r.nextAddr == s.nextAddr
    ensures p != Null && (p.Pooled? ==> p.slot < HANDLE_POOL_SIZE) ==> Deref(r, p) == Some(rec)
    ensures forall q :: q != p ==> Deref(r, q) == Deref(s, q)
    ensures r.heap.Keys == if p.Heap? then s.heap.Keys + {p.addr} else s.heap.Keys
  {
    match p
    case Null => s
    case Pooled(i) => if i < |s.pool| then s.(pool := s.pool[i := rec]) else s
    case Heap(a) => s.(heap := s.heap[a := rec])
  }

  // ---------------------------------------------------------------------
  // The entry points that change the registry

  /** The four creators `create_zip`, `open_zip`, `create_zip_in_memory` and
      `open_zip_from_memory`: refuse at capacity, take a record, fill it in,
      and on a failed codec initialisation give it back; otherwise register
      it under the counter's id and advance the counter. */
  function Create(s: RegState, role: Role, backing: Backing, mallocOk: bool, initOk: bool): (r: (RegState, int))
    requires WellShaped(s)
    ensures WellShaped(r.0)
    ensures s.next >= MAX_HANDLES ==> r == (s, -1)
    ensures r.1 == -1 || r.1 == s.next
    ensures r.1 >= 0 <==> s.next < MAX_HANDLES && initOk && (mallocOk || FirstFree(s.used).Some?)
    ensures r.1 == -1 ==> r.0.handles == s.handles && r.0.next == s.next && r.0.used == s.used
    ensures r.1 >= 0 ==> r.0.next == s.next + 1 && r.0.handles == s.handles[s.next := r.0.handles[s.next]]
    ensures r.1 >= 0 ==> Deref(r.0, r.0.handles[r.1]) == Some(HandleRec(role, backing))
  {
    if s.next >= MAX_HANDLES then (s, -1)
    else
      var (s1, p) := TakeHandle(s, mallocOk);
      if p == Null then (s1, -1)
      else
        var s2 := Store(s1, p, HandleRec(role, backing));
        if !initOk then (GiveBack(s2, p), -1)
        else (s2.(handles := s2.handles[s.next := p], next := s.next + 1), s.next as int)
  }

  /** Empties slot `id` and gives its record back. */
  function Release(s: RegState, id: int): (r: RegState)
    requires WellShaped(s) && 0 <= id < MAX_HANDLES
    ensures WellShaped(r)
    ensures r.handles[id] == Null && r.next == s.next
  {
    GiveBack(s, s.handles[id]).(handles := s.handles[id := Null])
  }

  /** `finalize_zip`: on a writer, releases the handle whatever the codec
      reports, and returns 1 exactly when the codec finalised the archive. */
  function Finalize(s: RegState, id: int, finalizeOk: bool): (r: (RegState, int))
    requires WellShaped(s)
    ensures WellShaped(r.0)
    ensures !Admits(s, id, Writer) ==> r == (s, 0)
    ensures r.1 == 1 <==> Admits(s, id, Writer) && finalizeOk
    ensures r.1 == 0 || r.1 == 1
    ensures Admits(s, id, Writer) ==> r.0 == Release(s, id)
  {
    if Admits(s, id, Writer) then (Release(s, id), if finalizeOk then 1 else 0) else (s, 0)
  }

  /** `close_zip`: on a reader, releases the handle whatever the codec
      reports, and returns 1 exactly when the codec closed the archive. */
  function Close(s: RegState, id: int, endOk: bool): (r: (RegState, int))
    requires WellShaped(s)
    ensures WellShaped(r.0)
    ensures !Admits(s, id, Reader) ==> r == (s, 0)
    ensures r.1 == 1 <==> Admits(s, id, Reader) && endOk
    ensures r.1 == 0 || r.1 == 1
    ensures Admits(s, id, Reader) ==> r.0 == Release(s, id)
  {
    if Admits(s, id, Reader) then (Release(s, id), if endOk then 1 else 0) else (s, 0)
  }

  /** Whether `finalize_zip_in_memory_bytes` copies the archive out: the
      handle is a writer, the codec produced a non-empty archive, and it fits. */
  predicate CopiesOut(s: RegState, id: int, bufferSize: nat, archive: Option<seq<bv8>>) {
    Admits(s, id, Writer) && archive.Some? && 0 < |archive.value| <= bufferSize
  }

  /** `finalize_zip_in_memory_bytes`, where `archive` is what the codec's
      heap finalisation produced (None: it failed or gave no data). */
  function FinalizeInMemory(s: RegState, id: int, bufferSize: nat, archive: Option<seq<bv8>>): (r: (RegState, int))
    requires WellShaped(s)
    ensures WellShaped(r.0)
    ensures !CopiesOut(s, id, bufferSize, archive) ==> r.0 == s
    ensures CopiesOut(s, id, bufferSize, archive) ==> r.0 == Release(s, id)
  {
    if !Admits(s, id, Writer) then (s, -1)
    else if archive.None? || |archive.value| == 0 then (s, -1)
    else if bufferSize < |archive.value| then (s, -2)
    else (Release(s, id), Int32Of(|archive.value|))
  }

  // ---------------------------------------------------------------------
  // Lemmas

  /** The record a successful take hands out is held by no id. */
  lemma TakeHandleUnheld(s: RegState, mallocOk: bool)
    requires Inv(s)
    ensures TakeHandle(s, mallocOk).1 != Null ==> !Held(s, TakeHandle(s, mallocOk).1)
    ensures TakeHandle(s, mallocOk).1.Heap? ==> TakeHandle(s, mallocOk).1.addr !in s.heap
  {
  }

  /** A create keeps the invariant and leaves every live id's slot and record
      alone; a failed one also leaves the pool flags and the heap as they were. */
  lemma CreateKeepsInv(s: RegState, role: Role, backing: Backing, mallocOk: bool, initOk: bool)
    requires Inv(s)
    ensures Inv(Create(s, role, backing, mallocOk, initOk).0)
    ensures KeepsOthers(s, Create(s, role, backing, mallocOk, initOk).0, -1)
    ensures Create(s, role, backing, mallocOk, initOk).1 == -1 ==>
              Create(s, role, backing, mallocOk, initOk).0.heap == s.heap
  {
    if s.next < MAX_HANDLES {
      var (s1, p) := TakeHandle(s, mallocOk);
      if p != Null {
        if !initOk {
          AbandonKeepsInv(s, mallocOk, HandleRec(role, backing));
        } else {
          InstallKeepsInv(s, mallocOk, HandleRec(role, backing));
        }
      }
    }
  }

  /** The failure path of a create: the taken record, filled in, is given back. */
  lemma AbandonKeepsInv(s: RegState, mallocOk: bool, rec: HandleRec)
    requires Inv(s) && TakeHandle(s, mallocOk).1 != Null
    ensures var (s1, p) := TakeHandle(s, mallocOk);
            var s' := GiveBack(Store(s1, p, rec), p);
            Inv(s') && KeepsOthers(s, s', -1) && s'.heap == s.heap && s'.used == s.used
  {
    TakeHandleUnheld(s, mallocOk);
    var (s1, p) := TakeHandle(s, mallocOk);
    var s' := GiveBack(Store(s1, p, rec), p);
    assert s'.heap == s.heap;
    assert s'.used == s.used;
    forall i | 0 <= i < HANDLE_POOL_SIZE && s'.used[i] ensures Held(s', Pooled(i)) {
      var k :| 0 <= k < |s.handles| && s.handles[k] == Pooled(i);
      assert s'.handles[k] == Pooled(i);
    }
    forall a | a in s'.heap ensures Held(s', Heap(a)) {
      var k :| 0 <= k < |s.handles| && s.handles[k] == Heap(a);
      assert s'.handles[k] == Heap(a);
    }
  }

  /** The success path of a create: the taken record, filled in, is stored in
      the slot of the counter's id and the counter advances. */
  lemma InstallKeepsInv(s: RegState, mallocOk: bool, rec: HandleRec)
    requires Inv(s) && s.next < MAX_HANDLES && TakeHandle(s, mallocOk).1 != Null
    ensures var (s1, p) := TakeHandle(s, mallocOk);
            var s2 := Store(s1, p, rec);
            var s' := s2.(handles := s2.handles[s.next := p], next := s.next + 1);
            Inv(s') && KeepsOthers(s, s', -1)
  {
    TakeHandleUnheld(s, mallocOk);
    var (s1, p) := TakeHandle(s, mallocOk);
    var s2 := Store(s1, p, rec);
    Install(s, s2, p);
  }

  /** What `Install` needs: `t` is `s` with the unheld record `p` marked as
      taken (and possibly filled in), and the counter is below capacity. */
  ghost predicate InstallPre(s: RegState, t: RegState, p: Ptr) {
    && Inv(s) && WellShaped(t) && s.next < MAX_HANDLES
    && p != Null && !Held(s, p)
    && t.handles == s.handles && t.next == s.next
    && (p.Pooled? ==> p.slot < HANDLE_POOL_SIZE && t.used == s.used[p.slot := true]
                      && t.heap.Keys == s.heap.Keys && t.nextAddr == s.nextAddr)
    && (p.Heap? ==> t.used == s.used && p.addr == s.nextAddr
                    && t.heap.Keys == s.heap.Keys + {p.addr} && t.nextAddr == s.nextAddr + 1)
    && (forall q :: q != p ==> Deref(t, q) == Deref(s, q))
  }

  /** Storing a record that no id holds, and that `t` marks as taken, in the
      slot of the counter's id gives a state that keeps the invariant. */
  lemma Install(s: RegState, t: RegState, p: Ptr)
    requires InstallPre(s, t, p)
    ensures Inv(t.(handles := t.handles[s.next := p], next := s.next + 1))
    ensures KeepsOthers(s, t.(handles := t.handles[s.next := p], next := s.next + 1), -1)
  {
    InstallLive(s, t, p);
    InstallHeld(s, t, p);
    InstallUnaliased(s, t, p);
    var s' := t.(handles := t.handles[s.next := p], next := s.next + 1);
    forall k | 0 <= k < MAX_HANDLES && k != -1 && s.handles[k] != Null
      ensures s'.handles[k] == s.handles[k] && Deref(s', s.handles[k]) == Deref(s, s.handles[k])
    {
      assert s.handles[k] != p;
    }
  }

  lemma InstallLive(s: RegState, t: RegState, p: Ptr)
    requires InstallPre(s, t, p)
    ensures LiveAllocated(t.(handles := t.handles[s.next := p], next := s.next + 1))
    ensures NeverIssuedEmpty(t.(handles := t.handles[s.next := p], next := s.next + 1))
  {
    var s' := t.(handles := t.handles[s.next := p], next := s.next + 1);
    forall k | 0 <= k < MAX_HANDLES && s'.handles[k].Pooled?
      ensures s'.handles[k].slot < HANDLE_POOL_SIZE && s'.used[s'.handles[k].slot]
    {
      if k != s.next { assert s.handles[k] != p; }
    }
  }

  lemma InstallHeld(s: RegState, t: RegState, p: Ptr)
    requires InstallPre(s, t, p)
    ensures AllocatedLive(t.(handles := t.handles[s.next := p], next := s.next + 1))
  {
    var s' := t.(handles := t.handles[s.next := p], next := s.next + 1);
    forall i | 0 <= i < HANDLE_POOL_SIZE && s'.used[i] ensures Held(s', Pooled(i)) {
      if p == Pooled(i) {
        assert s'.handles[s.next] == Pooled(i);
      } else {
        var k :| 0 <= k < |s.handles| && s.handles[k] == Pooled(i);
        assert s'.handles[k] == Pooled(i);
      }
    }
    forall a | a in s'.heap ensures Held(s', Heap(a)) && a < s'.nextAddr {
      if p == Heap(a) {
        assert s'.handles[s.next] == Heap(a);
      } else {
        var k :| 0 <= k < |s.handles| && s.handles[k] == Heap(a);
        assert s'.handles[k] == Heap(a);
      }
    }
  }

  lemma InstallUnaliased(s: RegState, t: RegState, p: Ptr)
    requires InstallPre(s, t, p)
    ensures Unaliased(t.(handles := t.handles[s.next := p], next := s.next + 1))
  {
    var s' := t.(handles := t.handles[s.next := p], next := s.next + 1);
    forall j, k | 0 <= j < k < MAX_HANDLES && s'.handles[j] != Null ensures s'.handles[j] != s'.handles[k] {
      if j == s.next {
        assert s.handles[k] != p;
      } else if k == s.next {
        assert s.handles[j] != p;
      }
    }
  }

  /** Releasing a live id keeps the invariant and leaves every other live id's
      slot and record alone. */
  lemma ReleaseKeepsInv(s: RegState, id: int)
    requires Inv(s) && 0 <= id < MAX_HANDLES && s.handles[id] != Null
    ensures Inv(Release(s, id))
    ensures KeepsOthers(s, Release(s, id), id)
  {
    var p := s.handles[id];
    var s' := Release(s, id);
    forall i | 0 <= i < HANDLE_POOL_SIZE && s'.used[i] ensures Held(s', Pooled(i)) {
      var k :| 0 <= k < |s.handles| && s.handles[k] == Pooled(i);
      assert s'.handles[k] == Pooled(i);
    }
    forall a | a in s'.heap ensures Held(s', Heap(a)) {
      var k :| 0 <= k < |s.handles| && s.handles[k] == Heap(a);
      assert s'.handles[k] == Heap(a);
    }
    forall k | 0 <= k < MAX_HANDLES && k != id && s.handles[k] != Null
      ensures Deref(s', s.handles[k]) == Deref(s, s.handles[k])
    {
      assert s.handles[k] != p;
    }
  }

  /** A pool flag is set exactly when some id holds that pool record. */
  lemma PoolFlagIffHeld(s: RegState, i: nat)
    requires Inv(s) && i < HANDLE_POOL_SIZE
    ensures s.used[i] <==> Held(s, Pooled(i))
  {
    if Held(s, Pooled(i)) {
      var k :| 0 <= k < |s.handles| && s.handles[k] == Pooled(i);
      assert s.handles[k].Pooled?;
    }
  }

  /** Finalising or closing an id releases it whatever the codec reports, so
      a second finalise or close of the same id fails with 0 and changes
      nothing, and so does an in-memory finalise (with -1). */
  lemma SecondReleaseFails(s: RegState, id: int, role: Role, ok: bool, again: bool,
                           bufferSize: nat, archive: Option<seq<bv8>>)
    requires Inv(s) && Admits(s, id, role)
    ensures var s1 := if role == Writer then Finalize(s, id, ok).0 else Close(s, id, ok).0;
            && Inv(s1)
            && !Admits(s1, id, Writer) && !Admits(s1, id, Reader)
            && Finalize(s1, id, again) == (s1, 0)
            && Close(s1, id, again) == (s1, 0)
            && FinalizeInMemory(s1, id, bufferSize, archive) == (s1, -1)
  {
    ReleaseKeepsInv(s, id);
  }

  /** The three outcomes of `finalize_zip_in_memory_bytes`: -1 with nothing
      changed when the id is not a live writer or the codec gave no archive;
      -2 with nothing changed, the handle still a live writer, when the
      archive does not fit; otherwise the handle is released (and every
      later call on it fails) and the archive's size is returned, exactly
      when it is below 2^31. */
  lemma FinalizeInMemoryOutcomes(s: RegState, id: int, bufferSize: nat, archive: Option<seq<bv8>>)
    requires Inv(s)
    ensures var (s', r) := FinalizeInMemory(s, id, bufferSize, archive);
            && Inv(s')
            && (!Admits(s, id, Writer) || archive.None? || |archive.value| == 0 ==> s' == s && r == -1)
            && (Admits(s, id, Writer) && archive.Some? && bufferSize < |archive.value| ==>
                  s' == s && r == -2 && Admits(s', id, Writer))
            && (CopiesOut(s, id, bufferSize, archive) ==>
                  && !Admits(s', id, Writer) && !Admits(s', id, Reader)
                  && KeepsOthers(s, s', id)
                  && r == Int32Of(|archive.value|)
                  && (|archive.value| < TWO_31 ==> r == |archive.value|))
  {
    if CopiesOut(s, id, bufferSize, archive) {
      ReleaseKeepsInv(s, id);
    }
  }

  /** The size is returned through a 32-bit `int`: an archive of 2^32 - 2
      bytes that fits is copied out and its handle released, yet the call
      returns -2, the value that otherwise says the buffer was too small and
      the handle is still live. */
  lemma HugeArchiveReadsAsTooSmall(s: RegState, id: int, bufferSize: nat, archive: Option<seq<bv8>>)
    requires Inv(s) && Admits(s, id, Writer)
    requires archive.Some? && |archive.value| == TWO_32 - 2 <= bufferSize
    ensures FinalizeInMemory(s, id, bufferSize, archive).1 == -2
    ensures !Admits(FinalizeInMemory(s, id, bufferSize, archive).0, id, Writer)
  {
    assert (TWO_32 - 2) % TWO_32 == TWO_32 - 2;
  }
}
