/** The entry points of the ZIP wrapper over its global tables. Each method
    follows the C function of the same name step by step and is proved against
    the registry function that gives its meaning. */
module ZipWrapper {

  import opened Ints
  import opened CStrings
  import opened Registry

  /** What the codec reports about one entry: `mz_zip_reader_file_stat`
      together with its directory and encryption queries. The two strings are
      the codec's NUL-terminated buffers. */
  datatype FileStat = FileStat(
    filename: seq<char>,
    comment: seq<char>,
    uncompSize: nat,
    compSize: nat,
    isDirectory: bool,
    isEncrypted: bool)

  /** The caller's `file_info_t` record. */
  class FileInfo {
    const filename: array<char>
    const comment: array<char>
    var uncompressedSize: nat
    var compressedSize: nat
    var isDirectory: int
    var isEncrypted: int

    ghost predicate Valid()
      reads this
    {
      filename.Length == FIELD_SIZE && comment.Length == FIELD_SIZE && filename != comment
    }

    constructor ()
      ensures Valid() && fresh(filename) && fresh(comment)
    {
      filename := new char[FIELD_SIZE](_ => '\0');
      comment := new char[FIELD_SIZE](_ => '\0');
      uncompressedSize, compressedSize, isDirectory, isEncrypted := 0, 0, 0, 0;
    }
  }

  /** The wrapper's static state: `zip_handles`, `next_handle_id`,
      `handle_pool` and `pool_used`, and the records `malloc` handed out. */
  class Wrapper {
    const zipHandles: array<Ptr>
    var nextHandleId: nat
    const handlePool: array<HandleRec>
    const poolUsed: array<bool>
    var heap: map<nat, HandleRec>
    var nextAddr: nat

    /** The state as a registry value. */
    ghost function State(): RegState
      reads this, zipHandles, handlePool, poolUsed
    {
      RegState(zipHandles[..], nextHandleId, handlePool[..], poolUsed[..], heap, nextAddr)
    }

    ghost predicate Shaped()
      reads this
    {
      zipHandles.Length == MAX_HANDLES && handlePool.Length == HANDLE_POOL_SIZE
      && poolUsed.Length == HANDLE_POOL_SIZE
    }

    ghost predicate Valid()
      reads this, zipHandles, handlePool, poolUsed
    {
      Shaped() && Inv(State())
    }

    /** `o` is none of the wrapper's own tables (a caller's buffer). */
    ghost predicate Foreign(o: object)
      reads this
    {
      o != zipHandles && o != handlePool && o != poolUsed
    }

    /** The zero-initialised statics. */
    constructor ()
      ensures Valid() && State() == Initial()
    {
      zipHandles := new Ptr[MAX_HANDLES](_ => Null);
      nextHandleId := 0;
      handlePool := new HandleRec[HANDLE_POOL_SIZE](_ => ZeroRec);
      poolUsed := new bool[HANDLE_POOL_SIZE](_ => false);
      heap := map[];
      nextAddr := 0;
      new;
      assert zipHandles[..] == Initial().handles;
      assert handlePool[..] == Initial().pool;
      assert poolUsed[..] == Initial().used;
    }

    /** The guard every entry point opens with: id in range, slot not NULL,
        record of the wanted role. */
    predicate Guard(handleId: int, role: Role)
      requires Shaped()
      reads this, zipHandles, handlePool, poolUsed
      ensures Guard(handleId, role) == Admits(State(), handleId, role)
    {
      && 0 <= handleId < MAX_HANDLES
      && match zipHandles[handleId]
         case Null => false
         case Pooled(i) => i < handlePool.Length && handlePool[i].role == role
         case Heap(a) => a in heap && heap[a].role == role
    }

    // -------------------------------------------------------------------
    // The pool

    /** `get_handle_from_pool`. */
    method GetHandleFromPool(mallocOk: bool) returns (p: Ptr)
      requires Shaped()
      modifies this`heap, this`nextAddr, poolUsed
      ensures (State(), p) == TakeHandle(old(State()), mallocOk)
    {
      for i := 0 to HANDLE_POOL_SIZE
        invariant forall j :: 0 <= j < i ==> poolUsed[j]
        invariant poolUsed[..] == old(poolUsed[..])
        invariant heap == old(heap) && nextAddr == old(nextAddr)
      {
        if !poolUsed[i] {
          poolUsed[i] := true;
          return Pooled(i);
        }
      }
      if mallocOk {
        p := Heap(nextAddr);
        heap := heap[nextAddr := ZeroRec];
        nextAddr := nextAddr + 1;
      } else {
        p := Null;
      }
    }

    /** `return_handle_to_pool`. */
    method ReturnHandleToPool(p: Ptr)
      requires Shaped()
      modifies this`heap, poolUsed
      ensures State() == GiveBack(old(State()), p)
    {
      for i := 0 to HANDLE_POOL_SIZE
        invariant forall j :: 0 <= j < i ==> p != Pooled(j)
        invariant poolUsed[..] == old(poolUsed[..]) && heap == old(heap)
      {
        if p == Pooled(i) {
          poolUsed[i] := false;
          return;
        }
      }
      if p.Heap? {
        heap := heap - {p.addr};
      }
    }

    /** Fills in the record `p` points at (`handle->is_writer` and
        `handle->archive`). */
    method StoreRecord(p: Ptr, rec: HandleRec)
      requires Shaped()
      modifies this`heap, handlePool
      ensures State() == Store(old(State()), p, rec)
    {
      match p
      case Null =>
      case Pooled(i) =>
        if i < handlePool.Length {
          handlePool[i] := rec;
        }
      case Heap(a) =>
        heap := heap[a := rec];
    }

    /** Empties the slot of a live id, giving its record back first. */
    method ReleaseSlot(handleId: int)
      requires Valid() && 0 <= handleId < MAX_HANDLES && zipHandles[handleId] != Null
      modifies this`heap, poolUsed, zipHandles
      ensures Valid()
      ensures State() == Release(old(State()), handleId)
    {
      ReleaseKeepsInv(State(), handleId);
      ReturnHandleToPool(zipHandles[handleId]);
      zipHandles[handleId] := Null;
    }

    // -------------------------------------------------------------------
    // Creating and opening

    /** The body shared by the four creators. */
    method Register(role: Role, backing: Backing, mallocOk: bool, initOk: bool) returns (id: int)
      requires Valid()
      modifies this, zipHandles, handlePool, poolUsed
      ensures Valid()
      ensures (State(), id) == Create(old(State()), role, backing, mallocOk, initOk)
    {
      ghost var s := State();
      CreateKeepsInv(s, role, backing, mallocOk, initOk);
      if nextHandleId >= MAX_HANDLES {
        return -1;
      }
      var handle := GetHandleFromPool(mallocOk);
      if handle == Null {
        return -1;
      }
      StoreRecord(handle, HandleRec(role, backing));
      if !initOk {
        ReturnHandleToPool(handle);
        return -1;
      }
      zipHandles[nextHandleId] := handle;
      id := nextHandleId;
      nextHandleId := nextHandleId + 1;
    }

    /** `create_zip`: a writer on the file `filename`. */
    method CreateZip(filename: string, mallocOk: bool, initOk: bool) returns (id: int)
      requires Valid()
      modifies this, zipHandles, handlePool, poolUsed
      ensures Valid()
      ensures (State(), id) == Create(old(State()), Writer, File(filename), mallocOk, initOk)
    {
      id := Register(Writer, File(filename), mallocOk, initOk);
    }

    /** `open_zip`: a reader on the file `filename`. */
    method OpenZip(filename: string, mallocOk: bool, initOk: bool) returns (id: int)
      requires Valid()
      modifies this, zipHandles, handlePool, poolUsed
      ensures Valid()
      ensures (State(), id) == Create(old(State()), Reader, File(filename), mallocOk, initOk)
    {
      id := Register(Reader, File(filename), mallocOk, initOk);
    }

    /** `create_zip_in_memory`: a writer building its archive on the heap. */
    method CreateZipInMemory(mallocOk: bool, initOk: bool) returns (id: int)
      requires Valid()
      modifies this, zipHandles, handlePool, poolUsed
      ensures Valid()
      ensures (State(), id) == Create(old(State()), Writer, Memory, mallocOk, initOk)
    {
      id := Register(Writer, Memory, mallocOk, initOk);
    }

    /** `open_zip_from_memory`: a reader on the caller's bytes `data`. */
    method OpenZipFromMemory(data: seq<bv8>, mallocOk: bool, initOk: bool) returns (id: int)
      requires Valid()
      modifies this, zipHandles, handlePool, poolUsed
      ensures Valid()
      ensures (State(), id) == Create(old(State()), Reader, Memory, mallocOk, initOk)
    {
      id := Register(Reader, Memory, mallocOk, initOk);
    }

    // -------------------------------------------------------------------
    // Writer operations

    /** `add_file_to_zip`: 1 exactly when the id names a live writer and the
        codec appended the entry. */
    method AddFileToZip(handleId: int, filename: string, data: seq<bv8>, compressionLevel: int,
                        appendOk: bool) returns (r: int)
      requires Valid()
      ensures r == 0 || r == 1
      ensures r == 1 <==> Admits(State(), handleId, Writer) && appendOk
    {
      if !Guard(handleId, Writer) {
        return 0;
      }
      r := if appendOk then 1 else 0;
    }

    /** `finalize_zip`. */
    method FinalizeZip(handleId: int, finalizeOk: bool) returns (r: int)
      requires Valid()
      modifies this`heap, poolUsed, zipHandles
      ensures Valid()
      ensures (State(), r) == Finalize(old(State()), handleId, finalizeOk)
    {
      if !Guard(handleId, Writer) {
        return 0;
      }
      ReleaseSlot(handleId);
      r := if finalizeOk then 1 else 0;
    }

    /** `finalize_zip_in_memory_bytes`: `archive` is what the codec's heap
        finalisation produced; `output` is the caller's buffer, of which the
        first `bufferSize` bytes are available. */
    method FinalizeZipInMemoryBytes(handleId: int, output: array<bv8>, bufferSize: nat,
                                   archive: Option<seq<bv8>>) returns (r: int)
      requires Valid() && bufferSize <= output.Length && Foreign(output)
      modifies this`heap, poolUsed, zipHandles, output
      ensures Valid()
      ensures (State(), r) == FinalizeInMemory(old(State()), handleId, bufferSize, archive)
      ensures CopiesOut(old(State()), handleId, bufferSize, archive) ==>
                output[..|archive.value|] == archive.value
                && output[|archive.value|..] == old(output[|archive.value|..])
      ensures !CopiesOut(old(State()), handleId, bufferSize, archive) ==> output[..] == old(output[..])
    {
      if !Guard(handleId, Writer) {
        return -1;
      }
      if archive.None? || |archive.value| == 0 {
        return -1;
      }
      var data := archive.value;
      if bufferSize < |data| {
        return -2;
      }
      for j := 0 to |data|
        invariant output[..j] == data[..j]
        invariant forall k :: j <= k < output.Length ==> output[k] == old(output[k])
        invariant unchanged(this, zipHandles, poolUsed)
      {
        output[j] := data[j];
      }
      ReleaseSlot(handleId);
      r := Int32Of(|data|);
    }

    // -------------------------------------------------------------------
    // Reader operations

    /** `get_file_count`: -1 unless the id names a live reader, otherwise the
        codec's entry count converted to `int`. */
    method GetFileCount(handleId: int, numFiles: nat) returns (r: int)
      requires Valid()
      ensures !Admits(State(), handleId, Reader) ==> r == -1
      ensures Admits(State(), handleId, Reader) ==> r == Int32Of(numFiles)
    {
      if !Guard(handleId, Reader) {
        return -1;
      }
      r := Int32Of(numFiles);
    }

    /** `get_file_info`: on a live reader whose codec found the entry, fills
        in `info` with both strings cut to fit their fields and the flags as
        0 or 1, and returns 1; otherwise returns 0 and writes nothing. */
    method GetFileInfo(handleId: int, fileIndex: int, stat: Option<FileStat>, info: FileInfo)
      returns (r: int)
      requires Valid() && info.Valid()
      modifies info, info.filename, info.comment
      ensures r == 0 || r == 1
      ensures r == 1 <==> Admits(State(), handleId, Reader) && stat.Some?
      ensures r == 0 ==> unchanged(info, info.filename, info.comment)
      ensures r == 1 ==>
                && info.filename[..] == PutCString(old(info.filename[..]), stat.value.filename)
                && info.comment[..] == PutCString(old(info.comment[..]), stat.value.comment)
                && info.uncompressedSize == stat.value.uncompSize
                && info.compressedSize == stat.value.compSize
                && info.isDirectory == (if stat.value.isDirectory then 1 else 0)
                && info.isEncrypted == (if stat.value.isEncrypted then 1 else 0)
    {
      if !Guard(handleId, Reader) {
        return 0;
      }
      if stat.None? {
        return 0;
      }
      var st := stat.value;
      StoreCString(info.filename, st.filename);
      StoreCString(info.comment, st.comment);
      info.uncompressedSize := st.uncompSize;
      info.compressedSize := st.compSize;
      info.isDirectory := if st.isDirectory then 1 else 0;
      info.isEncrypted := if st.isEncrypted then 1 else 0;
      r := 1;
    }

    /** `extract_file`: NULL unless the id names a live reader, otherwise
        what the codec extracted (None for its NULL). */
    method ExtractFile(handleId: int, fileIndex: int, extracted: Option<seq<bv8>>)
      returns (r: Option<seq<bv8>>)
      requires Valid()
      ensures !Admits(State(), handleId, Reader) ==> r == None
      ensures Admits(State(), handleId, Reader) ==> r == extracted
    {
      if !Guard(handleId, Reader) {
        return None;
      }
      r := extracted;
    }

    /** `close_zip`. */
    method CloseZip(handleId: int, endOk: bool) returns (r: int)
      requires Valid()
      modifies this`heap, poolUsed, zipHandles
      ensures Valid()
      ensures (State(), r) == Close(old(State()), handleId, endOk)
    {
      if !Guard(handleId, Reader) {
        return 0;
      }
      ReleaseSlot(handleId);
      r := if endOk then 1 else 0;
    }

    /** `find_file`: -1 unless the id names a live reader, otherwise the
        index the codec located (itself -1 when the name is absent). */
    method FindFile(handleId: int, filename: string, located: int) returns (r: int)
      requires Valid()
      ensures !Admits(State(), handleId, Reader) ==> r == -1
      ensures Admits(State(), handleId, Reader) ==> r == located
    {
      if !Guard(handleId, Reader) {
        return -1;
      }
      r := located;
    }

    /** `extract_file_by_name`: NULL unless the id names a live reader and
        the codec located the name; then what the codec extracted. */
    method ExtractFileByName(handleId: int, filename: string, located: int,
                             extracted: Option<seq<bv8>>) returns (r: Option<seq<bv8>>)
      requires Valid()
      ensures r.Some? ==> Admits(State(), handleId, Reader) && located >= 0
      ensures Admits(State(), handleId, Reader) && located >= 0 ==> r == extracted
    {
      if !Guard(handleId, Reader) {
        return None;
      }
      if located < 0 {
        return None;
      }
      r := extracted;
    }

    /** `extract_file_to_buffer`: -1 unless the id names a live reader and the
        codec's extraction succeeded; then the size from a second stat
        converted to `int`, or 0 when that stat fails. */
    method ExtractFileToBuffer(handleId: int, fileIndex: int, bufferSize: nat, extractOk: bool,
                               statSize: Option<nat>) returns (r: int)
      requires Valid()
      ensures !Admits(State(), handleId, Reader) || !extractOk ==> r == -1
      ensures Admits(State(), handleId, Reader) && extractOk ==>
                r == (if statSize.Some? then Int32Of(statSize.value) else 0)
    {
      if !Guard(handleId, Reader) {
        return -1;
      }
      if !extractOk {
        return -1;
      }
      var extractedSize := 0;
      if statSize.Some? {
        extractedSize := statSize.value;
      }
      r := Int32Of(extractedSize);
    }
  }
}
