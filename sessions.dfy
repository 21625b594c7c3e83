/** Sequences of calls into the wrapper. Only the calls that change the
    registry appear: the read-only entry points leave it as it was. Each call
    carries the codec's and the allocator's answers it depends on. */
module Sessions {

  import opened Registry

  datatype Call =
    | CreateZip(filename: string, mallocOk: bool, initOk: bool)
    | OpenZip(filename: string, mallocOk: bool, initOk: bool)
    | CreateZipInMemory(mallocOk: bool, initOk: bool)
    | OpenZipFromMemory(data: seq<bv8>, mallocOk: bool, initOk: bool)
    | FinalizeZip(id: int, finalizeOk: bool)
    | CloseZip(id: int, endOk: bool)
    | FinalizeZipInMemoryBytes(id: int, bufferSize: nat, archive: Option<seq<bv8>>)
  {
    /** One of the four calls that allocate a handle. */
    predicate IsCreator() {
      CreateZip? || OpenZip? || CreateZipInMemory? || OpenZipFromMemory?
    }
  }

  /** One call: the new state and the call's return value. */
  function Apply(s: RegState, c: Call): (r: (RegState, int))
    requires WellShaped(s)
    ensures WellShaped(r.0)
  {
    match c
    case CreateZip(f, m, i) => Create(s, Writer, File(f), m, i)
    case OpenZip(f, m, i) => Create(s, Reader, File(f), m, i)
    case CreateZipInMemory(m, i) => Create(s, Writer, Memory, m, i)
    case OpenZipFromMemory(_, m, i) => Create(s, Reader, Memory, m, i)
    case FinalizeZip(id, ok) => Finalize(s, id, ok)
    case CloseZip(id, ok) => Close(s, id, ok)
    case FinalizeZipInMemoryBytes(id, n, a) => FinalizeInMemory(s, id, n, a)
  }

  /** The state after a sequence of calls. */
  function Run(s: RegState, calls: seq<Call>): (r: RegState)
    requires WellShaped(s)
    ensures WellShaped(r)
    decreases |calls|
  {
    if calls == [] then s else Run(Apply(s, calls[0]).0, calls[1..])
  }

  /** The ids the successful creations among `calls` returned, in order. */
  function Issued(s: RegState, calls: seq<Call>): seq<int>
    requires WellShaped(s)
    decreases |calls|
  {
    if calls == [] then []
    else
      var (s1, r) := Apply(s, calls[0]);
      (if calls[0].IsCreator() && r >= 0 then [r] else []) + Issued(s1, calls[1..])
  }

  /** What one call does to the registry: it keeps the invariant; a creation
      that succeeds returns the counter's old value and advances it by one,
      every other call leaves the counter alone; a slot that is NULL below the
      counter stays NULL; and a live id either keeps its slot and record or
      is emptied. */
  lemma ApplyFacts(s: RegState, c: Call)
    requires Inv(s)
    ensures Inv(Apply(s, c).0)
    ensures c.IsCreator() && Apply(s, c).1 >= 0 ==>
              Apply(s, c).1 == s.next && Apply(s, c).0.next == s.next + 1
    ensures !(c.IsCreator() && Apply(s, c).1 >= 0) ==> Apply(s, c).0.next == s.next
    ensures forall k :: 0 <= k < s.next && s.handles[k] == Null ==> Apply(s, c).0.handles[k] == Null
    ensures forall k :: 0 <= k < MAX_HANDLES && s.handles[k] != Null ==>
              Apply(s, c).0.handles[k] == Null
              || (Apply(s, c).0.handles[k] == s.handles[k]
                  && Deref(Apply(s, c).0, s.handles[k]) == Deref(s, s.handles[k]))
  {
    match c
    case CreateZip(f, m, i) => CreateKeepsInv(s, Writer, File(f), m, i);
    case OpenZip(f, m, i) => CreateKeepsInv(s, Reader, File(f), m, i);
    case CreateZipInMemory(m, i) => CreateKeepsInv(s, Writer, Memory, m, i);
    case OpenZipFromMemory(_, m, i) => CreateKeepsInv(s, Reader, Memory, m, i);
    case FinalizeZip(id, ok) =>
      if Admits(s, id, Writer) { ReleaseKeepsInv(s, id); }
    case CloseZip(id, ok) =>
      if Admits(s, id, Reader) { ReleaseKeepsInv(s, id); }
    case FinalizeZipInMemoryBytes(id, n, a) =>
      if CopiesOut(s, id, n, a) { ReleaseKeepsInv(s, id); }
  }

  /** Every sequence of calls keeps the invariant. */
  lemma {:induction false} RunKeepsInv(s: RegState, calls: seq<Call>)
    requires Inv(s)
    ensures Inv(Run(s, calls))
    decreases |calls|
  {
    if calls != [] {
      ApplyFacts(s, calls[0]);
      RunKeepsInv(Apply(s, calls[0]).0, calls[1..]);
    }
  }

  /** Ids are never reissued: the successful creations of any sequence of
      calls return exactly the consecutive ids from the counter's value on,
      and the counter ends advanced by their number. */
  lemma {:induction false} IdsNeverReissued(s: RegState, calls: seq<Call>)
    requires Inv(s)
    ensures Run(s, calls).next == s.next + |Issued(s, calls)|
    ensures forall j :: 0 <= j < |Issued(s, calls)| ==> Issued(s, calls)[j] == s.next + j
    decreases |calls|
  {
    if calls != [] {
      ApplyFacts(s, calls[0]);
      var s1 := Apply(s, calls[0]).0;
      IdsNeverReissued(s1, calls[1..]);
    }
  }

  /** The capacity bounds the number of creations over the whole life of the
      process, not the number of handles open at once: from any state, at
      most `MAX_HANDLES - next` creations succeed, whatever is released in
      between; once the counter has reached the capacity none does. */
  lemma CreationsBounded(s: RegState, calls: seq<Call>)
    requires Inv(s)
    ensures |Issued(s, calls)| <= MAX_HANDLES - s.next
    ensures s.next == MAX_HANDLES ==> Issued(s, calls) == []
  {
    IdsNeverReissued(s, calls);
    RunKeepsInv(s, calls);
  }

  /** Once an issued id's slot is cleared, it stays cleared whatever follows,
      so every later call on that id fails its guard, whichever role it asks for. */
  lemma {:induction false} ReleasedStaysReleased(s: RegState, calls: seq<Call>, id: int)
    requires Inv(s) && 0 <= id < s.next && s.handles[id] == Null
    ensures Run(s, calls).handles[id] == Null
    ensures !Admits(Run(s, calls), id, Writer) && !Admits(Run(s, calls), id, Reader)
    decreases |calls|
  {
    if calls != [] {
      ApplyFacts(s, calls[0]);
      ReleasedStaysReleased(Apply(s, calls[0]).0, calls[1..], id);
    }
  }

  /** A live handle keeps its record, and so its role, for as long as it is
      live: after any sequence of calls its slot is either cleared or still
      points at the very same record. */
  lemma {:induction false} RecordNeverChanges(s: RegState, calls: seq<Call>, id: int)
    requires Inv(s) && 0 <= id < MAX_HANDLES && s.handles[id] != Null
    ensures Run(s, calls).handles[id] == Null
            || (Run(s, calls).handles[id] == s.handles[id]
                && Deref(Run(s, calls), s.handles[id]) == Deref(s, s.handles[id]))
    decreases |calls|
  {
    if calls != [] {
      ApplyFacts(s, calls[0]);
      var s1 := Apply(s, calls[0]).0;
      if s1.handles[id] == Null {
        assert id < s1.next;
        ReleasedStaysReleased(s1, calls[1..], id);
      } else {
        RecordNeverChanges(s1, calls[1..], id);
      }
    }
  }
}
