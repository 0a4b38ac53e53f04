/** A cache of streams on disk: a lock, reader and writer protocol for each resource, accounting of
    sizes and open streams, and eviction when the cache is over its limit.

    A file is its size. What the file system decides is a parameter: whether a file can be opened,
    and which files cannot be deleted. The resource that eviction tries is arbitrary.
 */
module DiskCaches {

  type Id = string

  /** One stream of a resource, and the file that stores it. */
  datatype Key = Key(id: Id, index: nat)

  datatype LockState = Unlocked | Locked | Unlocking

  datatype Entry = Entry(lockState: LockState, accessors: nat, size: nat, streams: nat) {
    predicate Evictable() { lockState == Unlocked && accessors == 0 }

    function WithWriter(index: nat, previous: nat): Entry
      requires previous <= size
    {
      Entry(lockState, accessors + 1, size - previous, if streams > index + 1 then streams else index + 1)
    }

    function WithReader(): Entry { this.(accessors := accessors + 1) }

    /** One stream fewer; unless it was a reader, the size of its file comes back. */
    function WithoutStream(fileSize: nat): Entry
      requires accessors > 0
    {
      var state := if lockState == Unlocking && accessors == 1 then Unlocked else lockState;
      Entry(state, accessors - 1, if lockState == Unlocked then size else size + fileSize, streams)
    }
  }

  /** An open stream. */
  datatype Adapter = Adapter(key: Key, writing: bool)

  // ---------------------------------------------------------------- sums over maps

  ghost function Total<K>(m: map<K, nat>): nat
    decreases |m|
  {
    if m == map[] then 0
    else
      var k :| k in m;
      assert |m - {k}| < |m| by { assert (m - {k}).Keys == m.Keys - {k}; }
      m[k] + Total(m - {k})
  }

  lemma {:induction false} TotalSplit<K>(m: map<K, nat>, k: K)
    requires k in m
    ensures Total(m) == m[k] + Total(m - {k})
    decreases |m|
  {
    var c :| c in m && Total(m) == m[c] + Total(m - {c});
    assert |m - {c}| < |m| by { assert (m - {c}).Keys == m.Keys - {c}; }
    assert |m - {k}| < |m| by { assert (m - {k}).Keys == m.Keys - {k}; }
    if c != k {
      TotalSplit(m - {c}, k);
      TotalSplit(m - {k}, c);
      assert m - {c} - {k} == m - {k} - {c};
    }
  }

  lemma TotalUpdate<K>(m: map<K, nat>, k: K, v: nat)
    ensures Total(m[k := v]) == Total(m - {k}) + v
    ensures k in m ==> Total(m) == Total(m - {k}) + m[k]
    ensures k !in m ==> Total(m - {k}) == Total(m)
  {
    TotalSplit(m[k := v], k);
    assert m[k := v] - {k} == m - {k};
    if k in m {
      TotalSplit(m, k);
    } else {
      assert m - {k} == m;
    }
  }

  ghost function Sizes(entries: map<Id, Entry>): map<Id, nat> {
    map id | id in entries :: entries[id].size
  }

  lemma SizesUpdate(entries: map<Id, Entry>, id: Id, e: Entry)
    ensures Total(Sizes(entries[id := e])) == Total(Sizes(entries - {id})) + e.size
    ensures id in entries ==> Total(Sizes(entries)) == Total(Sizes(entries - {id})) + entries[id].size
    ensures id !in entries ==> Total(Sizes(entries - {id})) == Total(Sizes(entries))
  {
    assert Sizes(entries[id := e]) == Sizes(entries)[id := e.size];
    assert Sizes(entries - {id}) == Sizes(entries) - {id};
    TotalUpdate(Sizes(entries), id, e.size);
  }

  // ---------------------------------------------------------------- invariants

  ghost function HandlesOf(adapters: map<nat, Adapter>, id: Id): set<nat> {
    set h | h in adapters && adapters[h].key.id == id
  }

  /** Each open stream counts once for its entry and once for the total. */
  ghost predicate CountsInv(entries: map<Id, Entry>, adapters: map<nat, Adapter>, totalAccessors: nat) {
    && totalAccessors == |adapters|
    && (forall id :: id in entries ==> entries[id].accessors == |HandlesOf(adapters, id)|)
  }

  /** Every open stream finds its entry; an unlocked entry has only readers and any other only
      writers; and an entry that is unlocking waits for one. */
  ghost predicate ModesInv(entries: map<Id, Entry>, adapters: map<nat, Adapter>) {
    && (forall h :: h in adapters ==>
          adapters[h].key.id in entries
          && (adapters[h].writing <==> entries[adapters[h].key.id].lockState != Unlocked))
    && (forall id :: id in entries && entries[id].lockState == Unlocking ==> entries[id].accessors > 0)
  }

  ghost predicate AccessInv(entries: map<Id, Entry>, adapters: map<nat, Adapter>, totalAccessors: nat) {
    CountsInv(entries, adapters, totalAccessors) && ModesInv(entries, adapters)
  }

  /** What the file system reports; a file that is missing has no size. */
  function FileSize(files: map<Key, nat>, key: Key): nat {
    if key in files then files[key] else 0
  }

  ghost predicate OpenForWriting(adapters: map<nat, Adapter>, key: Key) {
    exists h :: h in adapters && adapters[h] == Adapter(key, true)
  }

  /** The files of a resource that no stream is writing. */
  ghost function ClosedFiles(files: map<Key, nat>, adapters: map<nat, Adapter>, id: Id): map<Key, nat> {
    map key | key in files && key.id == id && !OpenForWriting(adapters, key) :: files[key]
  }

  ghost predicate SingleWriters(adapters: map<nat, Adapter>) {
    forall h, h' :: h in adapters && h' in adapters && adapters[h] == adapters[h'] && adapters[h].writing ==> h == h'
  }

  /** The size of an entry is that of its files which are not open for writing. */
  ghost predicate SizesInv(entries: map<Id, Entry>, files: map<Key, nat>, adapters: map<nat, Adapter>) {
    forall id :: id in entries ==> entries[id].size == Total(ClosedFiles(files, adapters, id))
  }

  /** Every file belongs to an entry. */
  ghost predicate OwnersInv(entries: map<Id, Entry>, files: map<Key, nat>) {
    forall key :: key in files ==> key.id in entries && key.index < entries[key.id].streams
  }

  ghost predicate FilesInv(entries: map<Id, Entry>, files: map<Key, nat>, adapters: map<nat, Adapter>) {
    SizesInv(entries, files, adapters) && OwnersInv(entries, files) && SingleWriters(adapters)
  }

  /** The files left when those of a resource below `streams` are deleted but for the `stuck`. */
  ghost function FilesWithout(files: map<Key, nat>, id: Id, streams: nat, stuck: set<Key>): map<Key, nat> {
    map key | key in files && (key.id == id && key.index < streams ==> key in stuck) :: files[key]
  }

  /** What eviction may do to the entries: drop some that nobody holds, and change no other. */
  ghost predicate Evicted(before: map<Id, Entry>, after: map<Id, Entry>) {
    && (forall id :: id in after ==> id in before && after[id] == before[id])
    && (forall id :: id in before && id !in after ==> before[id].Evictable())
  }

  lemma HandlesRemoved(adapters: map<nat, Adapter>, h: nat, id: Id)
    requires h in adapters
    ensures var rest := adapters - {h};
      && HandlesOf(rest, id) == HandlesOf(adapters, id) - {h}
      && |rest| == |adapters| - 1
      && |HandlesOf(rest, id)| == |HandlesOf(adapters, id)| - if adapters[h].key.id == id then 1 else 0
  {
    var rest := adapters - {h};
    assert rest.Keys == adapters.Keys - {h};
    assert HandlesOf(rest, id) == HandlesOf(adapters, id) - {h};
  }

  lemma OneMoreKey<V>(m: map<nat, V>, h: nat, v: V)
    requires h !in m
    ensures |m[h := v]| == |m| + 1
  {
    assert m[h := v].Keys == m.Keys + {h};
  }

  lemma HandlesAdded(adapters: map<nat, Adapter>, h: nat, a: Adapter, id: Id)
    requires h !in adapters
    ensures |HandlesOf(adapters[h := a], id)| == |HandlesOf(adapters, id)| + if a.key.id == id then 1 else 0
  {
    var more, handles := adapters[h := a], HandlesOf(adapters, id);
    assert h !in handles;
    if a.key.id == id {
      assert HandlesOf(more, id) == handles + {h};
    } else {
      assert HandlesOf(more, id) == handles;
    }
  }

  /** Dropping an entry that nobody holds keeps the accounting of open streams. */
  lemma DropKeepsAccess(entries: map<Id, Entry>, adapters: map<nat, Adapter>, total: nat, id: Id)
    requires AccessInv(entries, adapters, total) && id in entries && entries[id].Evictable()
    ensures AccessInv(entries - {id}, adapters, total)
  {
    forall h | h in adapters
      ensures adapters[h].key.id != id
    {
      assert h !in HandlesOf(adapters, id);
    }
  }

  lemma DropKeepsFiles(entries: map<Id, Entry>, files: map<Key, nat>, adapters: map<nat, Adapter>, id: Id,
        stuck: set<Key>)
    requires FilesInv(entries, files, adapters) && id in entries && stuck !! files.Keys
    ensures FilesInv(entries - {id}, FilesWithout(files, id, entries[id].streams, stuck), adapters)
  {
    var files' := FilesWithout(files, id, entries[id].streams, stuck);
    forall key
      ensures key in files' <==> key in files && key.id != id
    {
    }
    forall other | other in entries && other != id
      ensures ClosedFiles(files', adapters, other) == ClosedFiles(files, adapters, other)
    {
      SameClosedFiles(files, files', adapters, adapters, other);
    }
  }

  lemma OpenStream(entries: map<Id, Entry>, adapters: map<nat, Adapter>, total: nat, h: nat, a: Adapter, e: Entry)
    requires AccessInv(entries, adapters, total) && h !in adapters && a.key.id in entries
    requires var was := entries[a.key.id];
      e.lockState == was.lockState && e.accessors == was.accessors + 1 && (a.writing <==> e.lockState != Unlocked)
    ensures AccessInv(entries[a.key.id := e], adapters[h := a], total + 1)
  {
    OpenCounts(entries, adapters, total, h, a, e);
  }

  lemma OpenCounts(entries: map<Id, Entry>, adapters: map<nat, Adapter>, total: nat, h: nat, a: Adapter, e: Entry)
    requires CountsInv(entries, adapters, total) && h !in adapters && a.key.id in entries
    requires e.accessors == entries[a.key.id].accessors + 1
    ensures CountsInv(entries[a.key.id := e], adapters[h := a], total + 1)
  {
    OneMoreKey(adapters, h, a);
    forall id | id in entries
      ensures |HandlesOf(adapters[h := a], id)| == |HandlesOf(adapters, id)| + if a.key.id == id then 1 else 0
    {
      HandlesAdded(adapters, h, a, id);
    }
  }

  lemma CloseStream(entries: map<Id, Entry>, adapters: map<nat, Adapter>, total: nat, h: nat, e: Entry)
    requires AccessInv(entries, adapters, total) && h in adapters
    requires var was := entries[adapters[h].key.id];
      && was.accessors > 0 && e.accessors == was.accessors - 1
      && e.lockState == if was.lockState == Unlocking && e.accessors == 0 then Unlocked else was.lockState
    ensures total > 0 && AccessInv(entries[adapters[h].key.id := e], adapters - {h}, total - 1)
  {
    CloseCounts(entries, adapters, total, h, e);
    var mine := adapters[h].key.id;
    RestReads(adapters - {h}, mine, e.accessors) by {
      HandlesRemoved(adapters, h, mine);
    }
    CloseModes(entries, adapters, h, e);
  }

  lemma CloseCounts(entries: map<Id, Entry>, adapters: map<nat, Adapter>, total: nat, h: nat, e: Entry)
    requires CountsInv(entries, adapters, total) && h in adapters && adapters[h].key.id in entries
    requires var was := entries[adapters[h].key.id]; was.accessors > 0 && e.accessors == was.accessors - 1
    ensures total > 0 && CountsInv(entries[adapters[h].key.id := e], adapters - {h}, total - 1)
  {
    HandlesRemoved(adapters, h, adapters[h].key.id);
    forall id | id in entries
      ensures |HandlesOf(adapters - {h}, id)| == |HandlesOf(adapters, id)| - if adapters[h].key.id == id then 1 else 0
    {
      HandlesRemoved(adapters, h, id);
    }
  }

  lemma CloseModes(entries: map<Id, Entry>, adapters: map<nat, Adapter>, h: nat, e: Entry)
    requires ModesInv(entries, adapters) && h in adapters
    requires e.accessors == 0 ==> forall g :: g in adapters - {h} ==> (adapters - {h})[g].key.id != adapters[h].key.id
    requires var was := entries[adapters[h].key.id];
      if was.lockState == Unlocking && e.accessors == 0 then e.lockState == Unlocked else e.lockState == was.lockState
    ensures ModesInv(entries[adapters[h].key.id := e], adapters - {h})
  {
    assert forall g :: g in adapters - {h} ==> g in adapters && (adapters - {h})[g] == adapters[g];
  }

  lemma RestReads(rest: map<nat, Adapter>, id: Id, accessors: nat)
    requires accessors == |HandlesOf(rest, id)|
    ensures accessors == 0 ==> forall g :: g in rest ==> rest[g].key.id != id
  {
    if accessors == 0 {
      assert HandlesOf(rest, id) == {};
      forall g | g in rest
        ensures rest[g].key.id != id
      {
        assert g !in HandlesOf(rest, id);
      }
    }
  }

  lemma HolderCounts(entries: map<Id, Entry>, adapters: map<nat, Adapter>, total: nat, h: nat)
    requires AccessInv(entries, adapters, total) && h in adapters
    ensures entries[adapters[h].key.id].accessors > 0 && total > 0
  {
    HandlesRemoved(adapters, h, adapters[h].key.id);
  }

  // ---------------------------------------------------------------- the files of each entry

  lemma SameClosedFiles(files: map<Key, nat>, files': map<Key, nat>, adapters: map<nat, Adapter>,
        adapters': map<nat, Adapter>, id: Id)
    requires forall key: Key :: key.id == id ==>
      (key in files && !OpenForWriting(adapters, key) <==> key in files' && !OpenForWriting(adapters', key))
    requires forall key: Key ::
      key.id == id && key in files && key in files' && !OpenForWriting(adapters, key) ==> files'[key] == files[key]
    ensures ClosedFiles(files', adapters', id) == ClosedFiles(files, adapters, id)
  {
  }

  lemma WriterOpened(adapters: map<nat, Adapter>, h: nat, a: Adapter, key: Key)
    requires h !in adapters
    ensures OpenForWriting(adapters[h := a], key) <==> OpenForWriting(adapters, key) || a == Adapter(key, true)
  {
    if OpenForWriting(adapters, key) {
      var g :| g in adapters && adapters[g] == Adapter(key, true);
      assert g in adapters[h := a] && adapters[h := a][g] == Adapter(key, true);
    }
    if a == Adapter(key, true) {
      assert h in adapters[h := a] && adapters[h := a][h] == Adapter(key, true);
    }
  }

  lemma WriterClosed(adapters: map<nat, Adapter>, h: nat, key: Key)
    requires h in adapters
    requires forall g :: g in adapters && adapters[g] == adapters[h] && adapters[h].writing ==> g == h
    ensures OpenForWriting(adapters - {h}, key) <==> OpenForWriting(adapters, key) && adapters[h] != Adapter(key, true)
  {
    if OpenForWriting(adapters, key) && adapters[h] != Adapter(key, true) {
      var g :| g in adapters && adapters[g] == Adapter(key, true);
      assert g in adapters - {h};
    }
  }

  /** Opening a file for writing takes its size out of its entry's. */
  lemma OpenWriterKeepsFiles(entries: map<Id, Entry>, files: map<Key, nat>, adapters: map<nat, Adapter>, h: nat,
        key: Key, e: Entry)
    requires FilesInv(entries, files, adapters) && key.id in entries && h !in adapters && !OpenForWriting(adapters, key)
    requires e.streams >= entries[key.id].streams && e.streams > key.index
    requires e.size + FileSize(files, key) == entries[key.id].size || FileSize(files, key) > entries[key.id].size
    ensures FilesInv(entries[key.id := e], files[key := 0], adapters[h := Adapter(key, true)])
    ensures FileSize(files, key) <= entries[key.id].size
  {
    OpenWriterSizes(entries, files, adapters, adapters[h := Adapter(key, true)], h, key, e);
    NewWriterIsSingle(adapters, h, key);
  }

  lemma OpenWriterSizes(entries: map<Id, Entry>, files: map<Key, nat>, adapters: map<nat, Adapter>,
        adapters': map<nat, Adapter>, h: nat, key: Key, e: Entry)
    requires SizesInv(entries, files, adapters) && key.id in entries && h !in adapters && !OpenForWriting(adapters, key)
    requires adapters' == adapters[h := Adapter(key, true)]
    requires e.size + FileSize(files, key) == entries[key.id].size || FileSize(files, key) > entries[key.id].size
    ensures SizesInv(entries[key.id := e], files[key := 0], adapters')
    ensures FileSize(files, key) <= entries[key.id].size
  {
    var files' := files[key := 0];
    forall k
      ensures OpenForWriting(adapters', k) <==> OpenForWriting(adapters, k) || k == key
    {
      WriterOpened(adapters, h, Adapter(key, true), k);
    }
    var closed := ClosedFiles(files, adapters, key.id);
    assert ClosedFiles(files', adapters', key.id) == closed - {key};
    TotalUpdate(closed, key, 0);
    forall id | id in entries && id != key.id
      ensures ClosedFiles(files', adapters', id) == ClosedFiles(files, adapters, id)
    {
      SameClosedFiles(files, files', adapters, adapters', id);
    }
  }

  lemma NewWriterIsSingle(adapters: map<nat, Adapter>, h: nat, key: Key)
    requires SingleWriters(adapters) && h !in adapters && !OpenForWriting(adapters, key)
    ensures SingleWriters(adapters[h := Adapter(key, true)])
  {
    assert forall g :: g in adapters ==> adapters[g] != Adapter(key, true);
  }

  /** Closing a writer puts the size of its file back. */
  lemma CloseWriterKeepsFiles(entries: map<Id, Entry>, files: map<Key, nat>, adapters: map<nat, Adapter>,
        h: nat, e: Entry)
    requires FilesInv(entries, files, adapters) && h in adapters && adapters[h].writing && adapters[h].key.id in entries
    requires var key := adapters[h].key;
      e.streams == entries[key.id].streams && e.size == entries[key.id].size + FileSize(files, key)
    ensures FilesInv(entries[adapters[h].key.id := e], files, adapters - {h})
  {
    CloseWriterSizes(entries, files, adapters, adapters - {h}, h, adapters[h].key, e);
  }

  lemma CloseWriterSizes(entries: map<Id, Entry>, files: map<Key, nat>, adapters: map<nat, Adapter>,
        adapters': map<nat, Adapter>, h: nat, key: Key, e: Entry)
    requires SizesInv(entries, files, adapters) && SingleWriters(adapters)
    requires h in adapters && adapters[h] == Adapter(key, true) && key.id in entries && adapters' == adapters - {h}
    requires e.size == entries[key.id].size + FileSize(files, key)
    ensures SizesInv(entries[key.id := e], files, adapters')
  {
    forall k
      ensures OpenForWriting(adapters', k) <==> OpenForWriting(adapters, k) && k != key
    {
      WriterClosed(adapters, h, k);
    }
    assert OpenForWriting(adapters, key);
    var closed := ClosedFiles(files, adapters, key.id);
    assert ClosedFiles(files, adapters', key.id) == if key in files then closed[key := files[key]] else closed;
    TotalUpdate(closed, key, FileSize(files, key));
    forall id | id in entries && id != key.id
      ensures ClosedFiles(files, adapters', id) == ClosedFiles(files, adapters, id)
    {
      SameClosedFiles(files, files, adapters, adapters', id);
    }
  }

  /** Opening or closing a reader, or changing what is neither size nor stream count, is nothing to
      the files. */
  lemma ReaderKeepsFiles(entries: map<Id, Entry>, files: map<Key, nat>, adapters: map<nat, Adapter>,
        adapters': map<nat, Adapter>, id: Id, e: Entry)
    requires FilesInv(entries, files, adapters) && id in entries
    requires e.size == entries[id].size && e.streams == entries[id].streams
    requires forall h :: h in adapters' && adapters'[h].writing ==> h in adapters && adapters[h] == adapters'[h]
    requires forall h :: h in adapters && adapters[h].writing ==> h in adapters' && adapters[h] == adapters'[h]
    ensures FilesInv(entries[id := e], files, adapters')
  {
    forall key
      ensures OpenForWriting(adapters', key) <==> OpenForWriting(adapters, key)
    {
    }
    forall other | other in entries
      ensures ClosedFiles(files, adapters', other) == ClosedFiles(files, adapters, other)
    {
      SameClosedFiles(files, files, adapters, adapters', other);
    }
  }

  lemma GrowKeepsFiles(entries: map<Id, Entry>, files: map<Key, nat>, adapters: map<nat, Adapter>, key: Key, size: nat)
    requires FilesInv(entries, files, adapters) && OpenForWriting(adapters, key) && key in files
    ensures FilesInv(entries, files[key := size], adapters)
  {
    forall id | id in entries
      ensures ClosedFiles(files[key := size], adapters, id) == ClosedFiles(files, adapters, id)
    {
      SameClosedFiles(files, files[key := size], adapters, adapters, id);
    }
  }

  lemma CreateKeepsFiles(entries: map<Id, Entry>, files: map<Key, nat>, adapters: map<nat, Adapter>, id: Id)
    requires FilesInv(entries, files, adapters) && id !in entries
    ensures FilesInv(entries[id := Entry(Unlocked, 0, 0, 0)], files, adapters)
  {
    assert ClosedFiles(files, adapters, id) == map[];
  }

  // ---------------------------------------------------------------- the cache as a value

  datatype Cache = Cache(
    maxCache: nat,
    totalSize: nat,
    totalAccessors: nat,
    entries: map<Id, Entry>,
    files: map<Key, nat>,         // the sizes of the files on disk
    adapters: map<nat, Adapter>,  // the open streams
    stale: nat)                   // size that `Purge` left in the total
  {
    ghost predicate SumInv() { totalSize == Total(Sizes(entries)) + stale }

    ghost predicate Valid() { AccessInv(entries, adapters, totalAccessors) && SumInv() }

    ghost predicate FilesValid() { FilesInv(entries, files, adapters) }

    ghost function Deleted(id: Id, stuck: set<Key>): Cache
      requires SumInv()
    {
      if id !in entries || !entries[id].Evictable() then this
      else
        SizesUpdate(entries, id, entries[id]);
        this.(totalSize := totalSize - entries[id].size,
              entries := entries - {id},
              files := FilesWithout(files, id, entries[id].streams, stuck))
    }

    ghost function DeletedAll(victims: seq<Id>, stuck: set<Key>): (c: Cache)
      requires SumInv()
      ensures c.SumInv()
      decreases |victims|
    {
      if victims == [] then this
      else
        var before := DeletedAll(victims[..|victims| - 1], stuck);
        DeletedKeepsSum(before, victims[|victims| - 1], stuck);
        before.Deleted(victims[|victims| - 1], stuck)
    }

    ghost function Created(id: Id): Cache {
      if id in entries then this else this.(entries := entries[id := Entry(Unlocked, 0, 0, 0)])
    }

    ghost function WithState(id: Id, state: LockState): Cache
      requires id in entries
    {
      this.(entries := entries[id := entries[id].(lockState := state)])
    }

    /** What opening `key` for writing takes off: the size of its file, but no more than there is. */
    function Previous(key: Key): nat
      requires key.id in entries
    {
      if FileSize(files, key) > entries[key.id].size then entries[key.id].size else FileSize(files, key)
    }

    ghost function WriterOpened(key: Key, h: nat): Cache
      requires SumInv() && key.id in entries
    {
      SizesUpdate(entries, key.id, entries[key.id]);
      this.(entries := entries[key.id := entries[key.id].WithWriter(key.index, Previous(key))],
            totalSize := totalSize - Previous(key),
            totalAccessors := totalAccessors + 1,
            files := files[key := 0],
            adapters := adapters[h := Adapter(key, true)])
    }

    ghost function ReaderOpened(key: Key, h: nat): Cache
      requires key.id in entries
    {
      this.(entries := entries[key.id := entries[key.id].WithReader()],
            totalAccessors := totalAccessors + 1,
            adapters := adapters[h := Adapter(key, false)])
    }

    ghost function Closed(h: nat): Cache
      requires AccessInv(entries, adapters, totalAccessors) && h in adapters
    {
      HolderCounts(entries, adapters, totalAccessors, h);
      var key := adapters[h].key;
      var size := if entries[key.id].lockState != Unlocked then FileSize(files, key) else 0;
      this.(entries := entries[key.id := entries[key.id].WithoutStream(FileSize(files, key))],
            totalSize := totalSize + size,
            totalAccessors := totalAccessors - 1,
            adapters := adapters - {h})
    }
  }

  /** The total covers the size of every entry, so it can always be taken off. */
  lemma SumCovers(c: Cache, id: Id)
    requires c.SumInv() && id in c.entries
    ensures c.entries[id].size <= c.totalSize
  {
    SizesUpdate(c.entries, id, c.entries[id]);
  }

  lemma DeletedIs(c: Cache, id: Id, stuck: set<Key>)
    requires c.SumInv() && id in c.entries && c.entries[id].Evictable()
    ensures c.entries[id].size <= c.totalSize
    ensures c.Deleted(id, stuck) == c.(
      totalSize := c.totalSize - c.entries[id].size,
      entries := c.entries - {id},
      files := FilesWithout(c.files, id, c.entries[id].streams, stuck))
  {
    SumCovers(c, id);
  }

  lemma DeletedKeepsSum(c: Cache, id: Id, stuck: set<Key>)
    requires c.SumInv()
    ensures c.Deleted(id, stuck).SumInv()
  {
    if id in c.entries {
      SizesUpdate(c.entries, id, c.entries[id]);
    }
  }

  lemma DeletedKeeps(c: Cache, id: Id, stuck: set<Key>)
    requires c.Valid()
    ensures c.Deleted(id, stuck).Valid() && Evicted(c.entries, c.Deleted(id, stuck).entries)
    ensures c.FilesValid() && stuck !! c.files.Keys ==> c.Deleted(id, stuck).FilesValid()
    ensures c.Deleted(id, stuck).files.Keys <= c.files.Keys
  {
    DeletedKeepsSum(c, id, stuck);
    if id in c.entries && c.entries[id].Evictable() {
      DropKeepsAccess(c.entries, c.adapters, c.totalAccessors, id);
      if c.FilesValid() && stuck !! c.files.Keys {
        DropKeepsFiles(c.entries, c.files, c.adapters, id, stuck);
      }
    }
  }

  /** Evicting any resources, in any order, drops only entries that nobody holds. */
  lemma {:induction false} DeletedAllKeeps(c: Cache, victims: seq<Id>, stuck: set<Key>)
    requires c.Valid()
    ensures var d := c.DeletedAll(victims, stuck);
      && d.Valid() && Evicted(c.entries, d.entries) && d.files.Keys <= c.files.Keys
      && d == c.(totalSize := d.totalSize, entries := d.entries, files := d.files)
      && (c.FilesValid() && stuck !! c.files.Keys ==> d.FilesValid())
    decreases |victims|
  {
    if victims != [] {
      var before := c.DeletedAll(victims[..|victims| - 1], stuck);
      DeletedAllKeeps(c, victims[..|victims| - 1], stuck);
      DeletedKeeps(before, victims[|victims| - 1], stuck);
    }
  }

  lemma CreateKeepsAccess(entries: map<Id, Entry>, adapters: map<nat, Adapter>, total: nat, id: Id)
    requires AccessInv(entries, adapters, total) && id !in entries
    ensures AccessInv(entries[id := Entry(Unlocked, 0, 0, 0)], adapters, total)
  {
    assert HandlesOf(adapters, id) == {};
  }

  lemma CreatedKeeps(c: Cache, id: Id)
    requires c.Valid()
    ensures c.Created(id).Valid()
  {
    if id !in c.entries {
      SizesUpdate(c.entries, id, Entry(Unlocked, 0, 0, 0));
      CreateKeepsAccess(c.entries, c.adapters, c.totalAccessors, id);
    }
  }

  lemma CreatedKeepsFiles(c: Cache, id: Id)
    requires c.FilesValid()
    ensures c.Created(id).FilesValid()
  {
    if id !in c.entries {
      CreateKeepsFiles(c.entries, c.files, c.adapters, id);
    }
  }

  /** The state changes of locking and unlocking: an unlocked entry may be locked only when nobody
      holds it, and a locked one becomes unlocked only when nobody does. */
  predicate MayBecome(e: Entry, state: LockState) {
    match state
    case Locked => e.lockState != Unlocked || e.accessors == 0
    case Unlocking => e.lockState != Unlocked && e.accessors > 0
    case Unlocked => e.lockState == Unlocked || e.accessors == 0
  }

  lemma StateKeepsAccess(entries: map<Id, Entry>, adapters: map<nat, Adapter>, total: nat, id: Id, e: Entry)
    requires AccessInv(entries, adapters, total) && id in entries && MayBecome(entries[id], e.lockState)
    requires e.accessors == entries[id].accessors
    ensures AccessInv(entries[id := e], adapters, total)
  {
    RestReads(adapters, id, e.accessors);
  }

  lemma WithStateKeeps(c: Cache, id: Id, state: LockState)
    requires c.Valid() && id in c.entries && MayBecome(c.entries[id], state)
    ensures c.WithState(id, state).Valid()
  {
    var e := c.entries[id].(lockState := state);
    SizesUpdate(c.entries, id, e);
    StateKeepsAccess(c.entries, c.adapters, c.totalAccessors, id, e);
  }

  lemma WithStateKeepsFiles(c: Cache, id: Id, state: LockState)
    requires c.FilesValid() && id in c.entries
    ensures c.WithState(id, state).FilesValid()
  {
    ReaderKeepsFiles(c.entries, c.files, c.adapters, c.adapters, id, c.entries[id].(lockState := state));
  }

  lemma WriterOpenedKeepsSum(c: Cache, key: Key, h: nat)
    requires c.SumInv() && key.id in c.entries
    ensures c.WriterOpened(key, h).SumInv()
  {
    SizesUpdate(c.entries, key.id, c.entries[key.id].WithWriter(key.index, c.Previous(key)));
  }

  lemma WriterOpenedKeeps(c: Cache, key: Key, h: nat)
    requires c.Valid() && key.id in c.entries && c.entries[key.id].lockState == Locked && h !in c.adapters
    ensures c.WriterOpened(key, h).Valid()
  {
    WriterOpenedKeepsSum(c, key, h);
    OpenStream(c.entries, c.adapters, c.totalAccessors, h, Adapter(key, true),
      c.entries[key.id].WithWriter(key.index, c.Previous(key)));
  }

  /** With one writer a stream, the size taken off is exactly that of the file. */
  lemma WriterOpenedKeepsFiles(c: Cache, key: Key, h: nat)
    requires c.SumInv() && c.FilesValid() && key.id in c.entries && h !in c.adapters && !OpenForWriting(c.adapters, key)
    ensures c.WriterOpened(key, h).FilesValid() && c.Previous(key) == FileSize(c.files, key)
  {
    var e := c.WriterOpened(key, h).entries[key.id];
    OpenWriterKeepsFiles(c.entries, c.files, c.adapters, h, key, e);
  }

  lemma ReaderOpenedKeepsSum(c: Cache, key: Key, h: nat)
    requires c.SumInv() && key.id in c.entries
    ensures c.ReaderOpened(key, h).SumInv()
  {
    SizesUpdate(c.entries, key.id, c.entries[key.id].WithReader());
  }

  lemma ReaderOpenedKeeps(c: Cache, key: Key, h: nat)
    requires c.Valid() && key.id in c.entries && c.entries[key.id].lockState == Unlocked && h !in c.adapters
    ensures c.ReaderOpened(key, h).Valid()
  {
    ReaderOpenedKeepsSum(c, key, h);
    OpenStream(c.entries, c.adapters, c.totalAccessors, h, Adapter(key, false), c.entries[key.id].WithReader());
  }

  lemma ReaderOpenedKeepsFiles(c: Cache, key: Key, h: nat)
    requires c.FilesValid() && key.id in c.entries && h !in c.adapters
    ensures c.ReaderOpened(key, h).FilesValid()
  {
    var e := c.ReaderOpened(key, h).entries[key.id];
    ReaderKeepsFiles(c.entries, c.files, c.adapters, c.adapters[h := Adapter(key, false)], key.id, e);
  }

  lemma ClosedKeeps(c: Cache, h: nat)
    requires c.Valid() && h in c.adapters
    ensures c.Closed(h).Valid()
  {
    HolderCounts(c.entries, c.adapters, c.totalAccessors, h);
    var id := c.adapters[h].key.id;
    var e := c.Closed(h).entries[id];
    SizesUpdate(c.entries, id, e);
    CloseStream(c.entries, c.adapters, c.totalAccessors, h, e);
  }

  lemma ClosedKeepsFiles(c: Cache, h: nat)
    requires c.Valid() && c.FilesValid() && h in c.adapters
    ensures c.Closed(h).FilesValid()
  {
    HolderCounts(c.entries, c.adapters, c.totalAccessors, h);
    var id := c.adapters[h].key.id;
    var e := c.Closed(h).entries[id];
    if c.adapters[h].writing {
      CloseWriterKeepsFiles(c.entries, c.files, c.adapters, h, e);
    } else {
      ReaderKeepsFiles(c.entries, c.files, c.adapters, c.adapters - {h}, id, e);
    }
  }

  // ---------------------------------------------------------------- runs

  /** What the owner may ask for, with what the file system and the eviction loop do about it:
      `victims` are the resources that eviction tries, one after the other, `stuck` the files that
      cannot be deleted, `overfull` that eviction did not get below the limit. Handles are new
      adapters. */
  datatype Op =
    | Lock(id: Id, victims: seq<Id>, stuck: set<Key>, overfull: bool)
    | Write(key: Key, canOpen: bool, h: nat)
    | Unlock(id: Id, victims: seq<Id>, stuck: set<Key>)
    | Read(key: Key, canOpen: bool, h: nat)
    | Delete(id: Id, stuck: set<Key>)
    | Close(h: nat, victims: seq<Id>, stuck: set<Key>)
    | Grow(h: nat, size: nat)
    | Purge(purged: bool)

  predicate MayLock(e: Entry) { e.lockState == Unlocking || e.Evictable() }

  predicate MayWrite(c: Cache, key: Key, canOpen: bool, h: nat) {
    key.id in c.entries && c.entries[key.id].lockState == Locked && canOpen && h !in c.adapters
  }

  predicate MayRead(c: Cache, key: Key, canOpen: bool, h: nat) {
    && key.id in c.entries && c.entries[key.id].lockState == Unlocked
    && key.index < c.entries[key.id].streams && canOpen && h !in c.adapters
  }

  predicate LastWriter(c: Cache, h: nat)
    requires h in c.adapters && c.adapters[h].key.id in c.entries
  {
    c.entries[c.adapters[h].key.id].lockState == Unlocking && c.entries[c.adapters[h].key.id].accessors == 1
  }

  /** An entry that may be locked is, unless eviction fails or takes it. */
  ghost function LockedAfter(c: Cache, id: Id, victims: seq<Id>, stuck: set<Key>, overfull: bool): Cache
    requires c.SumInv()
  {
    var d := c.DeletedAll(victims, stuck);
    if overfull || id !in d.entries then d else d.WithState(id, Locked)
  }

  ghost function Apply(c: Cache, op: Op): Cache
    requires c.Valid()
  {
    match op
    case Lock(id, victims, stuck, overfull) =>
      CreatedKeeps(c, id);
      var d := c.Created(id);
      if MayLock(d.entries[id]) then LockedAfter(d, id, victims, stuck, overfull) else d
    case Write(key, canOpen, h) => if MayWrite(c, key, canOpen, h) then c.WriterOpened(key, h) else c
    case Unlock(id, victims, stuck) =>
      if id !in c.entries || c.entries[id].lockState != Locked then c
      else if c.entries[id].accessors > 0 then c.WithState(id, Unlocking)
      else
        WithStateKeeps(c, id, Unlocked);
        c.WithState(id, Unlocked).DeletedAll(victims, stuck)
    case Read(key, canOpen, h) => if MayRead(c, key, canOpen, h) then c.ReaderOpened(key, h) else c
    case Delete(id, stuck) => c.Deleted(id, stuck)
    case Close(h, victims, stuck) =>
      if h !in c.adapters then c
      else
        ClosedKeeps(c, h);
        if LastWriter(c, h) then c.Closed(h).DeletedAll(victims, stuck) else c.Closed(h)
    case Grow(h, size) =>
      if h in c.adapters && c.adapters[h].writing && c.adapters[h].key in c.files
      then c.(files := c.files[c.adapters[h].key := size])
      else c
    case Purge(purged) =>
      if c.totalAccessors > 0 || !purged then c else c.(entries := map[], files := map[], stale := c.totalSize)
  }

  lemma PurgedKeeps(c: Cache)
    requires c.Valid() && c.totalAccessors == 0
    ensures c.(entries := map[], files := map[], stale := c.totalSize).Valid()
    ensures c.FilesValid() ==> c.(entries := map[], files := map[], stale := c.totalSize).FilesValid()
  {
    assert c.adapters == map[];
    assert Sizes(map[]) == map[];
  }

  lemma LockKeeps(c: Cache, id: Id, victims: seq<Id>, stuck: set<Key>, overfull: bool)
    requires c.Valid()
    ensures Apply(c, Lock(id, victims, stuck, overfull)).Valid()
    ensures Apply(c, Lock(id, victims, stuck, overfull)).stale == c.stale
  {
    CreatedKeeps(c, id);
    var c1 := c.Created(id);
    var c2 := c1.DeletedAll(victims, stuck);
    DeletedAllKeeps(c1, victims, stuck);
    if MayLock(c1.entries[id]) && id in c2.entries {
      WithStateKeeps(c2, id, Locked);
    }
  }

  lemma UnlockKeeps(c: Cache, id: Id, victims: seq<Id>, stuck: set<Key>)
    requires c.Valid()
    ensures Apply(c, Unlock(id, victims, stuck)).Valid() && Apply(c, Unlock(id, victims, stuck)).stale == c.stale
  {
    if id in c.entries && c.entries[id].lockState == Locked {
      if c.entries[id].accessors > 0 {
        WithStateKeeps(c, id, Unlocking);
      } else {
        WithStateKeeps(c, id, Unlocked);
        DeletedAllKeeps(c.WithState(id, Unlocked), victims, stuck);
      }
    }
  }

  lemma CloseKeeps(c: Cache, h: nat, victims: seq<Id>, stuck: set<Key>)
    requires c.Valid()
    ensures Apply(c, Close(h, victims, stuck)).Valid() && Apply(c, Close(h, victims, stuck)).stale == c.stale
  {
    if h in c.adapters {
      ClosedKeeps(c, h);
      DeletedAllKeeps(c.Closed(h), victims, stuck);
    }
  }

  lemma LockUnfolds(c: Cache, id: Id, victims: seq<Id>, stuck: set<Key>, overfull: bool, d: Cache)
    requires c.Valid() && d == c.Created(id) && d.SumInv()
    ensures Apply(c, Lock(id, victims, stuck, overfull)) ==
      if MayLock(d.entries[id]) then LockedAfter(d, id, victims, stuck, overfull) else d
  {
  }

  lemma CloseUnfolds(c: Cache, h: nat, victims: seq<Id>, stuck: set<Key>, d: Cache)
    requires c.Valid() && h in c.adapters && d == c.Closed(h) && d.SumInv()
    ensures Apply(c, Close(h, victims, stuck)) == if LastWriter(c, h) then d.DeletedAll(victims, stuck) else d
  {
  }

  lemma ApplyKeeps(c: Cache, op: Op)
    requires c.Valid()
    ensures Apply(c, op).Valid()
  {
    match op
    case Lock(id, victims, stuck, overfull) => LockKeeps(c, id, victims, stuck, overfull);
    case Write(key, canOpen, h) => if MayWrite(c, key, canOpen, h) { WriterOpenedKeeps(c, key, h); }
    case Unlock(id, victims, stuck) => UnlockKeeps(c, id, victims, stuck);
    case Read(key, canOpen, h) => if MayRead(c, key, canOpen, h) { ReaderOpenedKeeps(c, key, h); }
    case Delete(id, stuck) => DeletedKeeps(c, id, stuck);
    case Close(h, victims, stuck) => CloseKeeps(c, h, victims, stuck);
    case Grow(_, _) =>
    case Purge(purged) => if c.totalAccessors == 0 { PurgedKeeps(c); }
  }

  /** At most one writer a stream, and every file can be deleted. */
  ghost predicate Careful(c: Cache, op: Op) {
    match op
    case Lock(_, _, stuck, _) => stuck !! c.files.Keys
    case Write(key, _, _) => !OpenForWriting(c.adapters, key)
    case Unlock(_, _, stuck) => stuck !! c.files.Keys
    case Delete(_, stuck) => stuck !! c.files.Keys
    case Close(_, _, stuck) => stuck !! c.files.Keys
    case _ => true
  }

  lemma LockKeepsFiles(c: Cache, id: Id, victims: seq<Id>, stuck: set<Key>, overfull: bool)
    requires c.Valid() && c.FilesValid() && stuck !! c.files.Keys
    ensures Apply(c, Lock(id, victims, stuck, overfull)).FilesValid()
  {
    CreatedKeeps(c, id);
    CreatedKeepsFiles(c, id);
    var c1 := c.Created(id);
    var c2 := c1.DeletedAll(victims, stuck);
    DeletedAllKeeps(c1, victims, stuck);
    if id in c2.entries {
      WithStateKeepsFiles(c2, id, Locked);
    }
  }

  lemma ApplyKeepsFiles(c: Cache, op: Op)
    requires c.Valid() && c.FilesValid() && Careful(c, op)
    ensures Apply(c, op).FilesValid()
  {
    match op
    case Lock(id, victims, stuck, overfull) => LockKeepsFiles(c, id, victims, stuck, overfull);
    case Write(key, canOpen, h) => if MayWrite(c, key, canOpen, h) { WriterOpenedKeepsFiles(c, key, h); }
    case Unlock(id, victims, stuck) =>
      if id in c.entries && c.entries[id].lockState == Locked {
        WithStateKeepsFiles(c, id, Unlocking);
        WithStateKeepsFiles(c, id, Unlocked);
        if c.entries[id].accessors == 0 {
          WithStateKeeps(c, id, Unlocked);
          DeletedAllKeeps(c.WithState(id, Unlocked), victims, stuck);
        }
      }
    case Read(key, canOpen, h) => if MayRead(c, key, canOpen, h) { ReaderOpenedKeepsFiles(c, key, h); }
    case Delete(id, stuck) => DeletedKeeps(c, id, stuck);
    case Close(h, victims, stuck) =>
      if h in c.adapters {
        ClosedKeeps(c, h);
        ClosedKeepsFiles(c, h);
        DeletedAllKeeps(c.Closed(h), victims, stuck);
      }
    case Grow(h, size) =>
      if h in c.adapters && c.adapters[h].writing && c.adapters[h].key in c.files {
        assert OpenForWriting(c.adapters, c.adapters[h].key);
        GrowKeepsFiles(c.entries, c.files, c.adapters, c.adapters[h].key, size);
      }
    case Purge(purged) => if c.totalAccessors == 0 { PurgedKeeps(c); }
  }

  ghost function After(c: Cache, ops: seq<Op>): (d: Cache)
    requires c.Valid()
    ensures d.Valid()
    decreases |ops|
  {
    if ops == [] then c
    else
      ApplyKeeps(c, ops[0]);
      After(Apply(c, ops[0]), ops[1..])
  }

  ghost predicate CarefulRun(c: Cache, ops: seq<Op>)
    requires c.Valid()
    decreases |ops|
  {
    ops == [] || (ApplyKeeps(c, ops[0]); Careful(c, ops[0]) && CarefulRun(Apply(c, ops[0]), ops[1..]))
  }

  function Empty(maxCache: nat): Cache { Cache(maxCache, 0, 0, map[], map[], map[], 0) }

  lemma EmptyValid(maxCache: nat)
    ensures Empty(maxCache).Valid() && Empty(maxCache).FilesValid()
  {
    assert Sizes(map[]) == map[];
  }

  lemma {:induction false} RunKeepsFiles(c: Cache, ops: seq<Op>)
    requires c.Valid() && c.FilesValid() && CarefulRun(c, ops)
    ensures After(c, ops).FilesValid()
    decreases |ops|
  {
    if ops != [] {
      ApplyKeeps(c, ops[0]);
      ApplyKeepsFiles(c, ops[0]);
      RunKeepsFiles(Apply(c, ops[0]), ops[1..]);
    }
  }

  /** Whether a purge in the run left a size in the total. */
  ghost predicate LeavesSize(c: Cache, ops: seq<Op>)
    requires c.Valid()
    decreases |ops|
  {
    ops != [] && (ApplyKeeps(c, ops[0]);
      (ops[0].Purge? && ops[0].purged && c.totalAccessors == 0 && c.totalSize > 0)
      || LeavesSize(Apply(c, ops[0]), ops[1..]))
  }

  lemma StaleStep(c: Cache, op: Op)
    requires c.Valid()
    ensures Apply(c, op).stale >= c.stale
    ensures Apply(c, op).stale == (if op.Purge? && op.purged && c.totalAccessors == 0 then c.totalSize else c.stale)
  {
    match op
    case Lock(id, victims, stuck, overfull) => LockKeeps(c, id, victims, stuck, overfull);
    case Unlock(id, victims, stuck) => UnlockKeeps(c, id, victims, stuck);
    case Close(h, victims, stuck) => CloseKeeps(c, h, victims, stuck);
    case _ =>
  }

  lemma {:induction false} StaleInRun(c: Cache, ops: seq<Op>)
    requires c.Valid()
    ensures After(c, ops).stale >= c.stale
    ensures c.stale == 0 ==> (After(c, ops).stale > 0 <==> LeavesSize(c, ops))
    decreases |ops|
  {
    if ops != [] {
      ApplyKeeps(c, ops[0]);
      StaleStep(c, ops[0]);
      StaleInRun(Apply(c, ops[0]), ops[1..]);
    }
  }

  /** In every run the total size is the sum of the entry sizes, exactly when no purge came while
      the total was not zero; what such a purge left behind stays in it for ever. */
  lemma TotalSizeInEveryRun(maxCache: nat, ops: seq<Op>)
    ensures Empty(maxCache).Valid()
    ensures var c := After(Empty(maxCache), ops);
      c.totalSize == Total(Sizes(c.entries)) <==> !LeavesSize(Empty(maxCache), ops)
  {
    EmptyValid(maxCache);
    StaleInRun(Empty(maxCache), ops);
  }

  /** In every run with one writer a stream and files that can be deleted, the size of each entry is
      that of its files not open for writing. */
  lemma EntrySizesInEveryRun(maxCache: nat, ops: seq<Op>)
    requires Empty(maxCache).Valid() && CarefulRun(Empty(maxCache), ops)
    ensures var c := After(Empty(maxCache), ops);
      forall id :: id in c.entries ==> c.entries[id].size == Total(ClosedFiles(c.files, c.adapters, id))
  {
    EmptyValid(maxCache);
    RunKeepsFiles(Empty(maxCache), ops);
  }

  /** In every run the open streams are counted, a stream that is closed finds its entry, readers
      are on unlocked entries only and writers on the others only. */
  lemma AccessInEveryRun(maxCache: nat, ops: seq<Op>)
    ensures Empty(maxCache).Valid()
    ensures var c := After(Empty(maxCache), ops);
      && c.totalAccessors == |c.adapters|
      && (forall h :: h in c.adapters ==>
            var e := c.adapters[h].key.id;
            e in c.entries && c.entries[e].accessors > 0
            && (c.adapters[h].writing <==> c.entries[e].lockState != Unlocked))
      && (forall id :: id in c.entries && c.entries[id].lockState == Unlocking ==>
            exists h :: h in c.adapters && c.adapters[h].key.id == id && c.adapters[h].writing)
  {
    EmptyValid(maxCache);
    var c := After(Empty(maxCache), ops);
    forall h | h in c.adapters
      ensures c.entries[c.adapters[h].key.id].accessors > 0
    {
      HolderCounts(c.entries, c.adapters, c.totalAccessors, h);
    }
    forall id | id in c.entries && c.entries[id].lockState == Unlocking
      ensures exists h :: h in c.adapters && c.adapters[h].key.id == id && c.adapters[h].writing
    {
      assert HandlesOf(c.adapters, id) != {};
      var h :| h in HandlesOf(c.adapters, id);
    }
  }

  // ---------------------------------------------------------------- what each call answers

  ghost predicate HasStream(adapters: map<nat, Adapter>, id: Id, writing: bool) {
    exists h :: h in adapters && adapters[h].key.id == id && adapters[h].writing == writing
  }

  /** A resource is held exactly while it has an open stream, a reader when it is unlocked and a writer
      when it is not. */
  lemma HeldExactly(c: Cache, id: Id)
    requires c.Valid()
    ensures id !in c.entries ==> !HasStream(c.adapters, id, false) && !HasStream(c.adapters, id, true)
    ensures id in c.entries ==>
      var writing := c.entries[id].lockState != Unlocked;
      (c.entries[id].accessors > 0 <==> HasStream(c.adapters, id, writing)) && !HasStream(c.adapters, id, !writing)
  {
    if id in c.entries && c.entries[id].accessors > 0 {
      assert HandlesOf(c.adapters, id) != {};
      var h :| h in HandlesOf(c.adapters, id);
    }
    RestReads(c.adapters, id, |HandlesOf(c.adapters, id)|);
  }

  /** Within the limit a resource is locked after the call exactly when nobody is reading it: a new
      one, one that is unlocking and one locked before included. */
  lemma LockExactly(c: Cache, id: Id)
    requires c.Valid()
    ensures
      var d := Apply(c, Lock(id, [], {}, false));
      var was := if id in c.entries then c.entries[id] else Entry(Unlocked, 0, 0, 0);
      d == c.(entries := c.entries[id := if HasStream(c.adapters, id, false) then was else was.(lockState := Locked)])
  {
    HeldExactly(c, id);
    if id in c.entries {
      LockKnown(c, id);
    } else {
      LockFresh(c, id);
    }
  }

  lemma LockKnown(c: Cache, id: Id)
    requires c.Valid() && id in c.entries
    ensures Apply(c, Lock(id, [], {}, false)) ==
      var e := c.entries[id];
      c.(entries := c.entries[id := if e.lockState == Unlocked && e.accessors > 0 then e else e.(lockState := Locked)])
  {
    assert c.Created(id) == c && c.DeletedAll([], {}) == c;
    assert c.entries[id := c.entries[id]] == c.entries;
  }

  /** A stream is opened for writing exactly on a locked resource; its file is empty then, and the
      resource has as many streams as its indices ask for. */
  lemma WriteExactly(c: Cache, key: Key, h: nat)
    requires c.Valid() && key.id in c.entries && h !in c.adapters
    ensures
      var d := Apply(c, Write(key, true, h));
      if c.entries[key.id].lockState == Locked
      then
        && d.adapters == c.adapters[h := Adapter(key, true)] && d.files == c.files[key := 0]
        && key.id in d.entries && d.entries[key.id].lockState == Locked
        && d.entries[key.id].streams > key.index && d.entries[key.id].streams >= c.entries[key.id].streams
        && (d.entries[key.id].streams == key.index + 1 || d.entries[key.id].streams == c.entries[key.id].streams)
      else d == c
  {
  }

  /** Unlocking waits for the writers there are, and for nothing else. */
  lemma UnlockExactly(c: Cache, id: Id)
    requires c.Valid() && id in c.entries && c.entries[id].lockState == Locked
    ensures
      var state := if HasStream(c.adapters, id, true) then Unlocking else Unlocked;
      Apply(c, Unlock(id, [], {})) == c.(entries := c.entries[id := c.entries[id].(lockState := state)])
  {
    HeldExactly(c, id);
    if c.entries[id].accessors == 0 {
      WithStateKeeps(c, id, Unlocked);
      var d := c.WithState(id, Unlocked);
      assert d.DeletedAll([], {}) == d;
    }
  }

  /** The last writer to go unlocks a resource that is unlocking; no other close changes a lock. */
  lemma CloseExactly(c: Cache, h: nat)
    requires c.Valid() && h in c.adapters && c.adapters[h].key.id in c.entries
    ensures
      var d, id := Apply(c, Close(h, [], {})), c.adapters[h].key.id;
      && d.adapters == c.adapters - {h} && d.files == c.files && d.entries.Keys == c.entries.Keys
      && d.entries[id].lockState ==
           if c.entries[id].lockState == Unlocking && !HasStream(d.adapters, id, true) then Unlocked
           else c.entries[id].lockState
  {
    var id := c.adapters[h].key.id;
    ClosedKeeps(c, h);
    var d := c.Closed(h);
    CloseUnfolds(c, h, [], {}, d);
    assert d.DeletedAll([], {}) == d;
    HolderCounts(c.entries, c.adapters, c.totalAccessors, h);
    assert d.entries.Keys == c.entries.Keys;
    HeldExactly(d, id);
  }

  /** A resource survives an attempt to delete it exactly when it is locked, unlocking or read. */
  lemma DeleteExactly(c: Cache, id: Id, stuck: set<Key>)
    requires c.Valid()
    ensures id in Apply(c, Delete(id, stuck)).entries
      <==> id in c.entries && (c.entries[id].lockState != Unlocked || HasStream(c.adapters, id, false))
  {
    HeldExactly(c, id);
  }

  /** The stream count of a resource is the least above the indices of its files. */
  ghost predicate TopInv(entries: map<Id, Entry>, files: map<Key, nat>) {
    forall id :: id in entries && entries[id].streams > 0 ==> Key(id, entries[id].streams - 1) in files
  }

  lemma DeletedKeepsTop(c: Cache, id: Id, stuck: set<Key>)
    requires c.SumInv() && TopInv(c.entries, c.files)
    ensures TopInv(c.Deleted(id, stuck).entries, c.Deleted(id, stuck).files)
  {
    if id in c.entries && c.entries[id].Evictable() {
      DeletedIs(c, id, stuck);
    }
  }

  lemma {:induction false} DeletedAllKeepsTop(c: Cache, victims: seq<Id>, stuck: set<Key>)
    requires c.SumInv() && TopInv(c.entries, c.files)
    ensures TopInv(c.DeletedAll(victims, stuck).entries, c.DeletedAll(victims, stuck).files)
    decreases |victims|
  {
    if victims != [] {
      DeletedAllKeepsTop(c, victims[..|victims| - 1], stuck);
      DeletedKeepsTop(c.DeletedAll(victims[..|victims| - 1], stuck), victims[|victims| - 1], stuck);
    }
  }

  lemma LockKeepsTop(c: Cache, id: Id, victims: seq<Id>, stuck: set<Key>, overfull: bool)
    requires c.Valid() && TopInv(c.entries, c.files)
    ensures var d := Apply(c, Lock(id, victims, stuck, overfull)); TopInv(d.entries, d.files)
  {
    CreatedKeeps(c, id);
    var d := c.Created(id);
    assert TopInv(d.entries, d.files);
    LockUnfolds(c, id, victims, stuck, overfull, d);
    LockedKeepsTop(d, id, victims, stuck, overfull);
  }

  lemma LockedKeepsTop(c: Cache, id: Id, victims: seq<Id>, stuck: set<Key>, overfull: bool)
    requires c.SumInv() && TopInv(c.entries, c.files)
    ensures var d := LockedAfter(c, id, victims, stuck, overfull); TopInv(d.entries, d.files)
  {
    DeletedAllKeepsTop(c, victims, stuck);
  }

  lemma UnlockKeepsTop(c: Cache, id: Id, victims: seq<Id>, stuck: set<Key>)
    requires c.Valid() && TopInv(c.entries, c.files)
    ensures var d := Apply(c, Unlock(id, victims, stuck)); TopInv(d.entries, d.files)
  {
    if id in c.entries && c.entries[id].lockState == Locked && c.entries[id].accessors == 0 {
      WithStateKeeps(c, id, Unlocked);
      DeletedAllKeepsTop(c.WithState(id, Unlocked), victims, stuck);
    }
  }

  lemma CloseKeepsTop(c: Cache, h: nat, victims: seq<Id>, stuck: set<Key>)
    requires c.Valid() && TopInv(c.entries, c.files)
    ensures var d := Apply(c, Close(h, victims, stuck)); TopInv(d.entries, d.files)
  {
    if h in c.adapters {
      var d := c.Closed(h);
      ClosedKeeps(c, h);
      ClosedKeepsTop(c, h);
      CloseUnfolds(c, h, victims, stuck, d);
      DeletedAllKeepsTop(d, victims, stuck);
    }
  }

  lemma ClosedKeepsTop(c: Cache, h: nat)
    requires c.Valid() && TopInv(c.entries, c.files) && h in c.adapters
    ensures TopInv(c.Closed(h).entries, c.Closed(h).files)
  {
    HolderCounts(c.entries, c.adapters, c.totalAccessors, h);
  }

  lemma WriteKeepsTop(c: Cache, key: Key, canOpen: bool, h: nat)
    requires c.Valid() && TopInv(c.entries, c.files)
    ensures var d := Apply(c, Write(key, canOpen, h)); TopInv(d.entries, d.files)
  {
  }

  lemma GrowKeepsTop(c: Cache, h: nat, size: nat)
    requires c.Valid() && TopInv(c.entries, c.files)
    ensures var d := Apply(c, Grow(h, size)); TopInv(d.entries, d.files)
  {
  }

  lemma ApplyKeepsTop(c: Cache, op: Op)
    requires c.Valid() && TopInv(c.entries, c.files)
    ensures TopInv(Apply(c, op).entries, Apply(c, op).files)
  {
    match op
    case Lock(id, victims, stuck, overfull) => LockKeepsTop(c, id, victims, stuck, overfull);
    case Unlock(id, victims, stuck) => UnlockKeepsTop(c, id, victims, stuck);
    case Delete(id, stuck) => DeletedKeepsTop(c, id, stuck);
    case Close(h, victims, stuck) => CloseKeepsTop(c, h, victims, stuck);
    case Write(key, canOpen, h) => WriteKeepsTop(c, key, canOpen, h);
    case Grow(h, size) => GrowKeepsTop(c, h, size);
    case _ =>
  }

  lemma {:induction false} RunKeepsTop(c: Cache, ops: seq<Op>)
    requires c.Valid() && TopInv(c.entries, c.files)
    ensures TopInv(After(c, ops).entries, After(c, ops).files)
    decreases |ops|
  {
    if ops != [] {
      ApplyKeeps(c, ops[0]);
      ApplyKeepsTop(c, ops[0]);
      RunKeepsTop(Apply(c, ops[0]), ops[1..]);
    }
  }

  ghost predicate FileFrom(files: map<Key, nat>, id: Id, index: nat) {
    exists i: nat :: i >= index && Key(id, i) in files
  }

  /** What is stored can be read: no file of an unlocked resource is refused. */
  lemma StoredIsReadable(c: Cache, key: Key, h: nat)
    requires c.Valid() && c.FilesValid() && key in c.files && key.id in c.entries && h !in c.adapters
    requires c.entries[key.id].lockState == Unlocked
    ensures Apply(c, Read(key, true, h)).adapters == c.adapters[h := Adapter(key, false)]
  {
  }

  lemma StreamsExactly(c: Cache, key: Key)
    requires OwnersInv(c.entries, c.files) && TopInv(c.entries, c.files) && key.id in c.entries
    ensures key.index < c.entries[key.id].streams <==> FileFrom(c.files, key.id, key.index)
  {
    var streams := c.entries[key.id].streams;
    if key.index < streams {
      assert Key(key.id, streams - 1) in c.files;
    }
    if FileFrom(c.files, key.id, key.index) {
      var i: nat :| i >= key.index && Key(key.id, i) in c.files;
      assert i < streams;
    }
  }

  /** In every run with one writer a stream and files that can be deleted, a stream that can be opened
      is granted to a reader exactly when its resource is unlocked and has a file of that index or a
      higher one. */
  lemma ReadGrantedInEveryRun(maxCache: nat, ops: seq<Op>, key: Key, h: nat)
    requires Empty(maxCache).Valid() && CarefulRun(Empty(maxCache), ops)
    requires var c := After(Empty(maxCache), ops); key.id in c.entries && h !in c.adapters
    ensures
      var c := After(Empty(maxCache), ops);
      if c.entries[key.id].lockState == Unlocked && FileFrom(c.files, key.id, key.index)
      then Apply(c, Read(key, true, h)).adapters == c.adapters[h := Adapter(key, false)]
      else Apply(c, Read(key, true, h)) == c
  {
    EmptyValid(maxCache);
    RunKeepsFiles(Empty(maxCache), ops);
    RunKeepsTop(Empty(maxCache), ops);
    var c := After(Empty(maxCache), ops);
    StreamsExactly(c, key);
    ReadExactly(c, key, h);
  }

  lemma ReadExactly(c: Cache, key: Key, h: nat)
    requires c.Valid() && key.id in c.entries && h !in c.adapters
    ensures if c.entries[key.id].lockState == Unlocked && key.index < c.entries[key.id].streams
      then Apply(c, Read(key, true, h)).adapters == c.adapters[h := Adapter(key, false)]
      else Apply(c, Read(key, true, h)) == c
  {
  }

  /** Nobody who did not have a stream of the resource open for writing has one now, and it is not
      locked. */
  ghost predicate Draining(c: Cache, id: Id, d: Cache) {
    && (id in d.entries ==> d.entries[id].lockState != Locked)
    && (forall h :: h in d.adapters && d.adapters[h].key.id == id && d.adapters[h].writing ==>
          h in c.adapters && c.adapters[h] == d.adapters[h])
  }

  lemma {:induction false} DeletedAllUnlocks(c: Cache, victims: seq<Id>, stuck: set<Key>, id: Id)
    requires c.Valid() && (id in c.entries ==> c.entries[id].lockState != Locked)
    ensures var d := c.DeletedAll(victims, stuck);
      d.adapters == c.adapters && (id in d.entries ==> d.entries[id].lockState != Locked)
  {
    DeletedAllKeeps(c, victims, stuck);
  }

  lemma LockDrains(c: Cache, other: Id, victims: seq<Id>, stuck: set<Key>, overfull: bool, id: Id)
    requires c.Valid() && (id in c.entries ==> c.entries[id].lockState != Locked) && other != id
    ensures Draining(c, id, Apply(c, Lock(other, victims, stuck, overfull)))
  {
    CreatedKeeps(c, other);
    var d := c.Created(other);
    LockUnfolds(c, other, victims, stuck, overfull, d);
    LockedDrains(d, other, victims, stuck, overfull, id);
  }

  lemma LockedDrains(c: Cache, other: Id, victims: seq<Id>, stuck: set<Key>, overfull: bool, id: Id)
    requires c.Valid() && (id in c.entries ==> c.entries[id].lockState != Locked) && other != id
    ensures Draining(c, id, LockedAfter(c, other, victims, stuck, overfull))
  {
    DeletedAllUnlocks(c, victims, stuck, id);
  }

  lemma UnlockDrains(c: Cache, other: Id, victims: seq<Id>, stuck: set<Key>, id: Id)
    requires c.Valid() && (id in c.entries ==> c.entries[id].lockState != Locked)
    ensures Draining(c, id, Apply(c, Unlock(other, victims, stuck)))
  {
    if other in c.entries && c.entries[other].lockState == Locked && c.entries[other].accessors == 0 {
      WithStateKeeps(c, other, Unlocked);
      DeletedAllUnlocks(c.WithState(other, Unlocked), victims, stuck, id);
    }
  }

  lemma CloseDrains(c: Cache, h: nat, victims: seq<Id>, stuck: set<Key>, id: Id)
    requires c.Valid() && (id in c.entries ==> c.entries[id].lockState != Locked)
    ensures Draining(c, id, Apply(c, Close(h, victims, stuck)))
  {
    if h in c.adapters {
      ClosedKeeps(c, h);
      HolderCounts(c.entries, c.adapters, c.totalAccessors, h);
      DeletedAllUnlocks(c.Closed(h), victims, stuck, id);
    }
  }

  lemma ApplyDrains(c: Cache, op: Op, id: Id)
    requires c.Valid() && (id in c.entries ==> c.entries[id].lockState != Locked)
    requires op.Lock? ==> op.id != id
    ensures Draining(c, id, Apply(c, op))
  {
    match op
    case Lock(other, victims, stuck, overfull) => LockDrains(c, other, victims, stuck, overfull, id);
    case Unlock(other, victims, stuck) => UnlockDrains(c, other, victims, stuck, id);
    case Close(h, victims, stuck) => CloseDrains(c, h, victims, stuck, id);
    case _ =>
  }

  /** A resource that is not locked drains: until it is locked again no writer is added to those it
      has, and once they are closed it is unlocked, if it is still there. */
  lemma {:induction false} UnlockingDrains(c: Cache, ops: seq<Op>, id: Id)
    requires c.Valid() && (id in c.entries ==> c.entries[id].lockState != Locked)
    requires forall op :: op in ops && op.Lock? ==> op.id != id
    ensures var d := After(c, ops);
      && Draining(c, id, d)
      && (id in d.entries && !HasStream(d.adapters, id, true) ==> d.entries[id].lockState == Unlocked)
    decreases |ops|
  {
    if ops == [] {
      HeldExactly(c, id);
    } else {
      ApplyKeeps(c, ops[0]);
      ApplyDrains(c, ops[0], id);
      UnlockingDrains(Apply(c, ops[0]), ops[1..], id);
    }
  }

  // ---------------------------------------------------------------- eviction

  /** Nobody holds the resource and all of its files can be deleted. */
  ghost predicate Removable(c: Cache, id: Id, stuck: set<Key>) {
    && id in c.entries && c.entries[id].Evictable()
    && forall index: nat :: index < c.entries[id].streams && Key(id, index) in c.files ==> Key(id, index) !in stuck
  }

  ghost function RemovableSizes(c: Cache, stuck: set<Key>): map<Id, nat> {
    map id | id in c.entries && Removable(c, id, stuck) :: c.entries[id].size
  }

  /** Some of a resource is left: its entry or one of its files. */
  ghost predicate Remains(c: Cache, id: Id) { id in c.entries || exists index: nat :: Key(id, index) in c.files }

  /** No victim is evicted once the total is within the limit. */
  ghost predicate OnlyWhileOver(c: Cache, victims: seq<Id>, stuck: set<Key>)
    requires c.SumInv()
  {
    forall i {:trigger victims[..i]} :: 0 <= i < |victims| ==>
      c.DeletedAll(victims[..i], stuck).totalSize > c.maxCache
  }

  /** Each victim is entirely removed. */
  ghost predicate AllRemoved(c: Cache, victims: seq<Id>, stuck: set<Key>)
    requires c.SumInv()
    decreases |victims|
  {
    victims == []
    || (AllRemoved(c, victims[..|victims| - 1], stuck)
        && Removable(c.DeletedAll(victims[..|victims| - 1], stuck), victims[|victims| - 1], stuck))
  }

  /** What checking the limit may do: evict until the total is within it; or else until nothing can
      be evicted, or a victim is not entirely removed. */
  ghost predicate Settled(c: Cache, victims: seq<Id>, stuck: set<Key>, within: bool)
    requires c.SumInv()
  {
    var d := c.DeletedAll(victims, stuck);
    && OnlyWhileOver(c, victims, stuck)
    && (within ==> AllRemoved(c, victims, stuck) && d.totalSize <= c.maxCache)
    && (!within ==>
          || (AllRemoved(c, victims, stuck) && d.totalSize > c.maxCache
              && forall id :: id in d.entries ==> !d.entries[id].Evictable())
          || (victims != [] && AllRemoved(c, victims[..|victims| - 1], stuck) && Remains(d, victims[|victims| - 1])))
  }

  /** The limit is checked only if the total is over it. */
  ghost predicate Checked(c: Cache, victims: seq<Id>, stuck: set<Key>, within: bool)
    requires c.SumInv()
  {
    Settled(c, victims, stuck, within) && (c.totalSize <= c.maxCache ==> within && victims == [])
  }

  lemma CheckedWithin(c: Cache, stuck: set<Key>)
    requires c.SumInv()
    ensures c.totalSize <= c.maxCache ==> Checked(c, [], stuck, true)
  {
  }

  lemma OneMoreVictim(c: Cache, victims: seq<Id>, victim: Id, stuck: set<Key>)
    requires c.SumInv() && OnlyWhileOver(c, victims, stuck) && c.DeletedAll(victims, stuck).totalSize > c.maxCache
    ensures OnlyWhileOver(c, victims + [victim], stuck)
    ensures c.DeletedAll(victims + [victim], stuck) == c.DeletedAll(victims, stuck).Deleted(victim, stuck)
    ensures (victims + [victim])[..|victims|] == victims
    ensures AllRemoved(c, victims, stuck) && Removable(c.DeletedAll(victims, stuck), victim, stuck) ==>
      AllRemoved(c, victims + [victim], stuck)
  {
    var more := victims + [victim];
    assert more[..|victims|] == victims;
    forall i {:trigger more[..i]} | 0 <= i < |more| ensures c.DeletedAll(more[..i], stuck).totalSize > c.maxCache {
      assert i < |victims| ==> more[..i] == victims[..i];
    }
  }

  /** Where the check of the limit stands: what it evicted so far from `c`, and what is left. */
  ghost predicate Evicting(c: Cache, victims: seq<Id>, stuck: set<Key>, d: Cache) {
    && c.SumInv() && d == c.DeletedAll(victims, stuck)
    && OnlyWhileOver(c, victims, stuck) && AllRemoved(c, victims, stuck)
  }

  lemma StartEvicting(c: Cache, stuck: set<Key>)
    requires c.SumInv()
    ensures Evicting(c, [], stuck, c)
  {
  }

  lemma EvictFurther(c: Cache, victims: seq<Id>, stuck: set<Key>, d: Cache, victim: Id, next: Cache, removed: bool)
    requires Evicting(c, victims, stuck, d) && d.totalSize > c.maxCache
    requires d.SumInv() && next == d.Deleted(victim, stuck)
    requires if removed then Removable(d, victim, stuck) else Remains(next, victim)
    ensures if removed
      then Evicting(c, victims + [victim], stuck, next)
      else Settled(c, victims + [victim], stuck, false)
    ensures next == c.DeletedAll(victims + [victim], stuck)
  {
    OneMoreVictim(c, victims, victim, stuck);
  }

  lemma EvictEnds(c: Cache, victims: seq<Id>, stuck: set<Key>, d: Cache)
    requires Evicting(c, victims, stuck, d)
    ensures d == c.DeletedAll(victims, stuck)
    ensures d.totalSize <= c.maxCache ==> Settled(c, victims, stuck, true)
    ensures d.totalSize > c.maxCache && (forall id :: id in d.entries ==> !d.entries[id].Evictable()) ==>
      Settled(c, victims, stuck, false)
  {
  }

  /** Removing a resource takes its own size off what can be removed and touches no other. */
  lemma RemovedOne(c: Cache, id: Id, stuck: set<Key>)
    requires c.SumInv() && Removable(c, id, stuck)
    ensures var d := c.Deleted(id, stuck);
      && d.maxCache == c.maxCache && d.entries == c.entries - {id}
      && RemovableSizes(d, stuck) == RemovableSizes(c, stuck) - {id}
      && d.totalSize - Total(RemovableSizes(d, stuck)) == c.totalSize - Total(RemovableSizes(c, stuck))
  {
    DeletedIs(c, id, stuck);
    var d := c.Deleted(id, stuck);
    assert RemovableSizes(d, stuck) == RemovableSizes(c, stuck) - {id};
    TotalSplit(RemovableSizes(c, stuck), id);
  }

  /** Evictions in which each victim is removed lose only what could be removed at first. */
  lemma {:induction false} RemovedAll(c: Cache, victims: seq<Id>, stuck: set<Key>)
    requires c.SumInv() && AllRemoved(c, victims, stuck)
    ensures var d := c.DeletedAll(victims, stuck);
      && d.SumInv() && d.maxCache == c.maxCache
      && d.totalSize - Total(RemovableSizes(d, stuck)) == c.totalSize - Total(RemovableSizes(c, stuck))
      && RemovableSizes(d, stuck).Keys <= RemovableSizes(c, stuck).Keys
      && (forall id :: id in c.entries && id !in d.entries ==> Removable(c, id, stuck))
    decreases |victims|
  {
    if victims != [] {
      var before := victims[..|victims| - 1];
      var between, last := c.DeletedAll(before, stuck), victims[|victims| - 1];
      RemovedAll(c, before, stuck);
      RemovedOne(between, last, stuck);
      assert last in RemovableSizes(between, stuck).Keys && last in RemovableSizes(c, stuck).Keys;
    }
  }

  /** Whether locking an entry can lose it: the total is over the limit, the entry can be removed, and
      with everything else that can be removed it is enough to get within the limit. */
  ghost predicate MayDangle(c: Cache, id: Id, stuck: set<Key>) {
    && c.totalSize > c.maxCache && Removable(c, id, stuck)
    && c.totalSize - Total(RemovableSizes(c, stuck)) <= c.maxCache
  }

  /** Evicts until the total is within the limit. */
  lemma RemoveMore(c: Cache, victims: seq<Id>, stuck: set<Key>) returns (all: seq<Id>)
    requires c.SumInv() && AllRemoved(c, victims, stuck) && OnlyWhileOver(c, victims, stuck)
    requires c.totalSize - Total(RemovableSizes(c, stuck)) <= c.maxCache
    ensures Settled(c, all, stuck, true)
    ensures c.DeletedAll(all, stuck).entries.Keys <= c.DeletedAll(victims, stuck).entries.Keys
    decreases |RemovableSizes(c.DeletedAll(victims, stuck), stuck)|
  {
    var d := c.DeletedAll(victims, stuck);
    RemovedAll(c, victims, stuck);
    if d.totalSize <= c.maxCache {
      all := victims;
    } else {
      var sizes := RemovableSizes(d, stuck);
      assert sizes != map[];
      var id :| id in sizes;
      OneMoreVictim(c, victims, id, stuck);
      RemovedOne(d, id, stuck);
      assert (sizes - {id}).Keys == sizes.Keys - {id};
      all := RemoveMore(c, victims + [id], stuck);
    }
  }

  /** Checking the limit can end within it and without an entry exactly then. */
  lemma DanglesExactly(c: Cache, id: Id, stuck: set<Key>)
    requires c.SumInv() && id in c.entries
    ensures (exists victims :: Settled(c, victims, stuck, true) && id !in c.DeletedAll(victims, stuck).entries)
      <==> MayDangle(c, id, stuck)
  {
    forall victims | Settled(c, victims, stuck, true) && id !in c.DeletedAll(victims, stuck).entries
      ensures MayDangle(c, id, stuck)
    {
      SettledWithout(c, victims, id, stuck);
    }
    if MayDangle(c, id, stuck) {
      OneMoreVictim(c, [], id, stuck);
      RemovedOne(c, id, stuck);
      assert [] + [id] == [id];
      var victims := RemoveMore(c, [id], stuck);
    }
  }

  lemma SettledWithout(c: Cache, victims: seq<Id>, id: Id, stuck: set<Key>)
    requires c.SumInv() && id in c.entries
    requires Settled(c, victims, stuck, true) && id !in c.DeletedAll(victims, stuck).entries
    ensures MayDangle(c, id, stuck)
  {
    RemovedAll(c, victims, stuck);
    assert victims[..0] == [];
    assert c.DeletedAll(victims[..0], stuck) == c;
  }

  /** The same for a lock: some way of settling the limit makes it lose its entry exactly then. */
  lemma LockDanglesExactly(c: Cache, id: Id, stuck: set<Key>)
    requires c.Valid() && c.Created(id).Valid()
    ensures (exists victims ::
               Settled(c.Created(id), victims, stuck, true) && id !in Apply(c, Lock(id, victims, stuck, false)).entries)
      <==> MayDangle(c.Created(id), id, stuck)
  {
    var d := c.Created(id);
    DanglesExactly(d, id, stuck);
    forall victims | Settled(d, victims, stuck, true)
      ensures id !in Apply(c, Lock(id, victims, stuck, false)).entries <==> id !in d.DeletedAll(victims, stuck).entries
    {
      LockGone(c, id, victims, stuck);
    }
  }

  lemma LockGone(c: Cache, id: Id, victims: seq<Id>, stuck: set<Key>)
    requires c.Valid() && c.Created(id).Valid() && Settled(c.Created(id), victims, stuck, true)
    ensures id !in Apply(c, Lock(id, victims, stuck, false)).entries
      <==> id !in c.Created(id).DeletedAll(victims, stuck).entries
  {
    RemovedAll(c.Created(id), victims, stuck);
  }

  // ---------------------------------------------------------------- runs that show the conditions

  lemma AfterOne(c: Cache, op: Op)
    requires c.Valid()
    ensures Apply(c, op).Valid() && After(c, [op]) == Apply(c, op)
  {
    ApplyKeeps(c, op);
  }

  lemma {:induction false} AfterBoth(c: Cache, first: seq<Op>, second: seq<Op>)
    requires c.Valid()
    ensures After(c, first + second) == After(After(c, first), second)
    decreases |first|
  {
    if first == [] {
      assert first + second == second;
    } else {
      ApplyKeeps(c, first[0]);
      assert (first + second)[1..] == first[1..] + second;
      AfterBoth(Apply(c, first[0]), first[1..], second);
    }
  }

  lemma AfterMore(c: Cache, ops: seq<Op>, op: Op)
    requires c.Valid()
    ensures Apply(After(c, ops), op).Valid() && After(c, ops + [op]) == Apply(After(c, ops), op)
  {
    AfterBoth(c, ops, [op]);
    AfterOne(After(c, ops), op);
  }

  /** Locks a new resource, writes a file of the given size and closes it again. */
  function Storing(id: Id, h: nat, size: nat): seq<Op> {
    [Lock(id, [], {}, false), Write(Key(id, 0), true, h), Grow(h, size), Close(h, [], {})]
  }

  lemma LockFresh(c: Cache, id: Id)
    requires c.Valid() && id !in c.entries
    ensures Apply(c, Lock(id, [], {}, false)) == c.(entries := c.entries[id := Entry(Locked, 0, 0, 0)])
  {
    CreatedKeeps(c, id);
    var d := c.Created(id);
    assert d.DeletedAll([], {}) == d;
    assert d.entries[id := Entry(Locked, 0, 0, 0)] == c.entries[id := Entry(Locked, 0, 0, 0)];
  }

  /** Opens a stream for writing, its file being empty or not there. */
  lemma WriteEmpty(c: Cache, key: Key, h: nat)
    requires c.Valid() && key.id in c.entries && c.entries[key.id].lockState == Locked
    requires FileSize(c.files, key) == 0 && h !in c.adapters
    ensures Apply(c, Write(key, true, h)) ==
      c.(entries := c.entries[key.id := c.entries[key.id].WithWriter(key.index, 0)],
         files := c.files[key := 0],
         totalAccessors := c.totalAccessors + 1,
         adapters := c.adapters[h := Adapter(key, true)])
  {
    assert c.Previous(key) == 0;
  }

  lemma CloseLocked(c: Cache, h: nat)
    requires c.Valid() && h in c.adapters && c.adapters[h].key.id in c.entries
    requires c.entries[c.adapters[h].key.id].lockState == Locked && c.entries[c.adapters[h].key.id].accessors > 0
    requires c.totalAccessors > 0
    ensures var key := c.adapters[h].key;
      Apply(c, Close(h, [], {})) ==
        c.(entries := c.entries[key.id := c.entries[key.id].WithoutStream(FileSize(c.files, key))],
           totalSize := c.totalSize + FileSize(c.files, key),
           totalAccessors := c.totalAccessors - 1,
           adapters := c.adapters - {h})
  {
    HolderCounts(c.entries, c.adapters, c.totalAccessors, h);
  }

  ghost predicate Leads(c: Cache, ops: seq<Op>, d: Cache) { c.Valid() && After(c, ops) == d }

  lemma LeadsMore(c: Cache, ops: seq<Op>, d: Cache, op: Op, next: Cache)
    requires Leads(c, ops, d) && Apply(d, op) == next
    ensures Leads(c, ops + [op], next)
  {
    AfterMore(c, ops, op);
  }

  lemma TwoSteps(c: Cache, ops: seq<Op>, d: Cache, op: Op, d': Cache, op': Op, d'': Cache)
    requires Leads(c, ops, d) && Apply(d, op) == d' && d'.Valid() && Apply(d', op') == d''
    ensures Leads(c, ops + [op, op'], d'')
  {
    LeadsMore(c, ops, d, op, d');
    LeadsMore(c, ops + [op], d', op', d'');
    assert ops + [op] + [op'] == ops + [op, op'];
  }

  lemma FourSteps(c: Cache, ops: seq<Op>, d: Cache, op1: Op, d1: Cache, op2: Op, d2: Cache, op3: Op, d3: Cache, op4: Op,
        d4: Cache)
    requires Leads(c, ops, d) && d1.Valid() && d2.Valid() && d3.Valid()
    requires Apply(d, op1) == d1 && Apply(d1, op2) == d2 && Apply(d2, op3) == d3 && Apply(d3, op4) == d4
    ensures Leads(c, ops + [op1, op2, op3, op4], d4)
  {
    TwoSteps(c, ops, d, op1, d1, op2, d2);
    TwoSteps(c, ops + [op1, op2], d2, op3, d3, op4, d4);
    assert ops + [op1, op2] + [op3, op4] == ops + [op1, op2, op3, op4];
  }

  /** A new entry, locked; then with its first stream open and written; then closed again. */
  function JustLocked(c: Cache, id: Id): Cache { c.(entries := c.entries[id := Entry(Locked, 0, 0, 0)]) }

  function Writing(c: Cache, id: Id, h: nat, size: nat): Cache {
    c.(entries := c.entries[id := Entry(Locked, 1, 0, 1)],
       files := c.files[Key(id, 0) := size],
       totalAccessors := c.totalAccessors + 1,
       adapters := c.adapters[h := Adapter(Key(id, 0), true)])
  }

  function Stored(c: Cache, id: Id, size: nat): Cache {
    c.(entries := c.entries[id := Entry(Locked, 0, size, 1)],
       files := c.files[Key(id, 0) := size],
       totalSize := c.totalSize + size)
  }

  ghost predicate Unknown(c: Cache, id: Id, h: nat) {
    c.Valid() && id !in c.entries && Key(id, 0) !in c.files && h !in c.adapters
  }

  lemma OpenStored(c: Cache, id: Id, h: nat)
    requires Unknown(c, id, h)
    ensures JustLocked(c, id).Valid()
    ensures Apply(JustLocked(c, id), Write(Key(id, 0), true, h)) == Writing(c, id, h, 0)
  {
    LockFresh(c, id);
    ApplyKeeps(c, Lock(id, [], {}, false));
    WriteEmpty(JustLocked(c, id), Key(id, 0), h);
    assert JustLocked(c, id).entries[id := Entry(Locked, 1, 0, 1)] == c.entries[id := Entry(Locked, 1, 0, 1)];
  }

  lemma FilesDoNotMatter(c: Cache, files: map<Key, nat>)
    requires c.Valid()
    ensures c.(files := files).Valid()
  {
  }

  lemma WritingValid(c: Cache, id: Id, h: nat, size: nat)
    requires Unknown(c, id, h)
    ensures Writing(c, id, h, size).Valid()
  {
    OpenStored(c, id, h);
    ApplyKeeps(JustLocked(c, id), Write(Key(id, 0), true, h));
    FilesDoNotMatter(Writing(c, id, h, 0), c.files[Key(id, 0) := size]);
  }

  lemma GrowFile(c: Cache, key: Key, h: nat, size: nat)
    requires c.Valid() && h in c.adapters && c.adapters[h] == Adapter(key, true) && key in c.files
    ensures Apply(c, Grow(h, size)) == c.(files := c.files[key := size])
  {
  }

  lemma GrowStored(c: Cache, id: Id, h: nat, size: nat)
    requires Unknown(c, id, h) && Writing(c, id, h, 0).Valid()
    ensures Apply(Writing(c, id, h, 0), Grow(h, size)) == Writing(c, id, h, size)
  {
    GrowFile(Writing(c, id, h, 0), Key(id, 0), h, size);
    assert c.files[Key(id, 0) := 0][Key(id, 0) := size] == c.files[Key(id, 0) := size];
  }

  lemma CloseStored(c: Cache, id: Id, h: nat, size: nat)
    requires Unknown(c, id, h) && Writing(c, id, h, size).Valid()
    ensures Apply(Writing(c, id, h, size), Close(h, [], {})) == Stored(c, id, size)
  {
    CloseLocked(Writing(c, id, h, size), h);
    assert Writing(c, id, h, size).adapters - {h} == c.adapters;
    assert Writing(c, id, h, size).entries[id := Entry(Locked, 0, size, 1)]
        == c.entries[id := Entry(Locked, 0, size, 1)];
  }

  lemma LeadsToStored(c: Cache, ops: seq<Op>, d: Cache, id: Id, h: nat, size: nat)
    requires Leads(c, ops, d) && Unknown(d, id, h)
    ensures Leads(c, ops + Storing(id, h, size), Stored(d, id, size)) && Stored(d, id, size).Valid()
  {
    var lock, write := Lock(id, [], {}, false), Write(Key(id, 0), true, h);
    var grow, close := Grow(h, size), Close(h, [], {});
    LockFresh(d, id);
    OpenStored(d, id, h);
    WritingValid(d, id, h, 0);
    WritingValid(d, id, h, size);
    GrowStored(d, id, h, size);
    CloseStored(d, id, h, size);
    FourSteps(c, ops, d, lock, JustLocked(d, id), write, Writing(d, id, h, 0), grow, Writing(d, id, h, size),
      close, Stored(d, id, size));
  }

  lemma TotalOne<K>(k: K, v: nat)
    ensures Total(map[k := v]) == v
  {
    var none: map<K, nat> := map[];
    TotalUpdate(none, k, v);
    assert none[k := v] == map[k := v];
    assert none - {k} == none;
  }

  /** A purge at a total that is not zero, for every limit: the entry is gone and its size is not. */
  lemma PurgeLeavesSize(maxCache: nat, size: nat) returns (ops: seq<Op>)
    requires size > 0
    ensures Empty(maxCache).Valid() && LeavesSize(Empty(maxCache), ops)
    ensures var c := After(Empty(maxCache), ops); c.entries == map[] && c.totalSize == size
  {
    var c := Empty(maxCache);
    var d := Stored(c, "a", size);
    EmptyValid(maxCache);
    LeadsToStored(c, [], c, "a", 0, size);
    var stored := [] + Storing("a", 0, size);
    PurgedKeeps(d);
    LeadsMore(c, stored, d, Purge(true), d.(entries := map[], files := map[], stale := d.totalSize));
    ops := stored + [Purge(true)];
    StaleInRun(c, ops);
  }

  /** `Careful` without the part about writers, and without the part about files. */
  ghost predicate NothingStuck(ops: seq<Op>) {
    forall op :: op in ops ==> !op.Delete? && (op.Lock? || op.Unlock? || op.Close? ==> op.stuck == {})
  }

  /** A resource with one stream, and as many writers of it as `adapters` has. */
  function Shared(maxCache: nat, total: nat, size: nat, file: nat, adapters: map<nat, Adapter>): Cache {
    Cache(maxCache, total, |adapters|,
          map["a" := Entry(Locked, |adapters|, size, 1)], map[Key("a", 0) := file], adapters, 0)
  }

  function TwoWriterRun(size: nat): (ops: seq<Op>)
    ensures NothingStuck(ops)
  {
    [Lock("a", [], {}, false), Write(Key("a", 0), true, 0), Write(Key("a", 0), true, 1), Grow(0, size),
     Close(0, [], {}), Close(1, [], {})]
  }

  /** Two writers of one stream: each adds the size of the one file when it is closed. */
  lemma TwoWritersCountTwice(maxCache: nat, size: nat)
    requires size > 0
    ensures Empty(maxCache).Valid()
    ensures var c := After(Empty(maxCache), TwoWriterRun(size));
      "a" in c.entries && c.entries["a"].size == 2 * size && Total(ClosedFiles(c.files, c.adapters, "a")) == size
  {
    EmptyValid(maxCache);
    LeadsToBothClosed(Empty(maxCache), maxCache, size);
    LeftOver(Shared(maxCache, 2 * size, 2 * size, size, map[]), Key("a", 0), size);
  }

  lemma LeadsToBothClosed(c: Cache, maxCache: nat, size: nat)
    requires c == Empty(maxCache) && c.Valid()
    ensures Leads(c, TwoWriterRun(size), Shared(maxCache, 2 * size, 2 * size, size, map[]))
  {
    LeadsToBoth(c, [], OpeningTwice(size), maxCache, size);
    LeadsClosing(c, OpeningTwice(size), maxCache, size, TwoWriterRun(size));
  }

  lemma LeadsClosing(c: Cache, opening: seq<Op>, maxCache: nat, size: nat, ops: seq<Op>)
    requires var both := Shared(maxCache, 0, 0, size, map[0 := WRITER, 1 := WRITER]);
      Leads(c, opening, both) && both.Valid()
    requires ops == opening + [Close(0, [], {}), Close(1, [], {})]
    ensures Leads(c, ops, Shared(maxCache, 2 * size, 2 * size, size, map[]))
  {
    CloseOneOfTwo(maxCache, size);
    CloseTheOther(maxCache, size);
    TwoSteps(c, opening, Shared(maxCache, 0, 0, size, map[0 := WRITER, 1 := WRITER]),
      Close(0, [], {}), Shared(maxCache, size, size, size, map[1 := WRITER]),
      Close(1, [], {}), Shared(maxCache, 2 * size, 2 * size, size, map[]));
  }

  const WRITER: Adapter := Adapter(Key("a", 0), true)

  lemma SharedByTwo(one: Cache, two: Cache, maxCache: nat, key: Key)
    requires one == Shared(maxCache, 0, 0, 0, map[0 := WRITER]) && key == Key("a", 0)
    requires two == Shared(maxCache, 0, 0, 0, map[0 := WRITER, 1 := WRITER])
    ensures key.id in one.entries
    ensures two ==
      one.(entries := one.entries[key.id := one.entries[key.id].WithWriter(key.index, 0)],
           files := one.files[key := 0],
           totalAccessors := one.totalAccessors + 1,
           adapters := one.adapters[1 := Adapter(key, true)])
  {
    assert one.adapters[1 := WRITER] == two.adapters;
    assert |one.adapters| == 1 && |two.adapters| == 2;
    assert one.entries["a" := Entry(Locked, 2, 0, 1)] == two.entries;
    assert one.files[key := 0] == two.files;
  }

  lemma OpenTwice(maxCache: nat)
    requires Shared(maxCache, 0, 0, 0, map[0 := WRITER]).Valid()
    ensures var two := Shared(maxCache, 0, 0, 0, map[0 := WRITER, 1 := WRITER]);
      two.Valid() && Apply(Shared(maxCache, 0, 0, 0, map[0 := WRITER]), Write(Key("a", 0), true, 1)) == two
  {
    var one := Shared(maxCache, 0, 0, 0, map[0 := WRITER]);
    SharedByTwo(one, Shared(maxCache, 0, 0, 0, map[0 := WRITER, 1 := WRITER]), maxCache, Key("a", 0));
    WriteEmpty(one, Key("a", 0), 1);
    ApplyKeeps(one, Write(Key("a", 0), true, 1));
  }

  lemma OpenOnce(maxCache: nat)
    requires Empty(maxCache).Valid()
    ensures var locked, one := JustLocked(Empty(maxCache), "a"), Shared(maxCache, 0, 0, 0, map[0 := WRITER]);
      && Apply(Empty(maxCache), Lock("a", [], {}, false)) == locked && locked.Valid()
      && Apply(locked, Write(Key("a", 0), true, 0)) == one && one.Valid()
  {
    LockFresh(Empty(maxCache), "a");
    OpenStored(Empty(maxCache), "a", 0);
    WritingValid(Empty(maxCache), "a", 0, 0);
    assert Writing(Empty(maxCache), "a", 0, 0) == Shared(maxCache, 0, 0, 0, map[0 := WRITER]);
  }

  function OpeningTwice(size: nat): seq<Op> { TwoWriterRun(size)[..4] }

  lemma LeadsToBoth(c: Cache, before: seq<Op>, ops: seq<Op>, maxCache: nat, size: nat)
    requires Empty(maxCache).Valid() && Leads(c, before, Empty(maxCache))
    requires ops == before +
      [Lock("a", [], {}, false), Write(Key("a", 0), true, 0), Write(Key("a", 0), true, 1), Grow(0, size)]
    ensures var both := Shared(maxCache, 0, 0, size, map[0 := WRITER, 1 := WRITER]);
      Leads(c, ops, both) && both.Valid()
  {
    var key := Key("a", 0);
    OpenOnce(maxCache);
    OpenTwice(maxCache);
    GrowBoth(maxCache, size);
    FourSteps(c, before, Empty(maxCache), Lock("a", [], {}, false), JustLocked(Empty(maxCache), "a"),
      Write(key, true, 0), Shared(maxCache, 0, 0, 0, map[0 := WRITER]),
      Write(key, true, 1), Shared(maxCache, 0, 0, 0, map[0 := WRITER, 1 := WRITER]),
      Grow(0, size), Shared(maxCache, 0, 0, size, map[0 := WRITER, 1 := WRITER]));
  }

  lemma GrowBoth(maxCache: nat, size: nat)
    requires Shared(maxCache, 0, 0, 0, map[0 := WRITER, 1 := WRITER]).Valid()
    ensures var both := Shared(maxCache, 0, 0, size, map[0 := WRITER, 1 := WRITER]);
      Apply(Shared(maxCache, 0, 0, 0, map[0 := WRITER, 1 := WRITER]), Grow(0, size)) == both && both.Valid()
  {
    var two := Shared(maxCache, 0, 0, 0, map[0 := WRITER, 1 := WRITER]);
    var both := Shared(maxCache, 0, 0, size, map[0 := WRITER, 1 := WRITER]);
    GrowFile(two, Key("a", 0), 0, size);
    assert two.files[Key("a", 0) := size] == both.files;
    FilesDoNotMatter(two, both.files);
  }

  lemma CloseOneOfTwo(maxCache: nat, size: nat)
    requires Shared(maxCache, 0, 0, size, map[0 := WRITER, 1 := WRITER]).Valid()
    ensures var both, one := Shared(maxCache, 0, 0, size, map[0 := WRITER, 1 := WRITER]),
                             Shared(maxCache, size, size, size, map[1 := WRITER]);
      Apply(both, Close(0, [], {})) == one && one.Valid()
  {
    var both := Shared(maxCache, 0, 0, size, map[0 := WRITER, 1 := WRITER]);
    CloseLocked(both, 0);
    assert map[0 := WRITER, 1 := WRITER] - {0} == map[1 := WRITER];
    ApplyKeeps(both, Close(0, [], {}));
  }

  lemma CloseTheOther(maxCache: nat, size: nat)
    requires Shared(maxCache, size, size, size, map[1 := WRITER]).Valid()
    ensures Apply(Shared(maxCache, size, size, size, map[1 := WRITER]), Close(1, [], {})) ==
      Shared(maxCache, 2 * size, 2 * size, size, map[])
  {
    CloseLocked(Shared(maxCache, size, size, size, map[1 := WRITER]), 1);
    assert map[1 := WRITER] - {1} == map[];
  }

  lemma UnlockQuiet(c: Cache, id: Id)
    requires c.Valid() && id in c.entries && c.entries[id].lockState == Locked && c.entries[id].accessors == 0
    ensures Apply(c, Unlock(id, [], {})) == c.WithState(id, Unlocked) && c.WithState(id, Unlocked).Valid()
  {
    WithStateKeeps(c, id, Unlocked);
    assert c.WithState(id, Unlocked).DeletedAll([], {}) == c.WithState(id, Unlocked);
  }

  /** A resource stored and unlocked. */
  function Shelved(c: Cache, id: Id, size: nat): Cache {
    c.(entries := c.entries[id := Entry(Unlocked, 0, size, 1)],
       files := c.files[Key(id, 0) := size],
       totalSize := c.totalSize + size)
  }

  lemma UnlockStored(c: Cache, id: Id, size: nat)
    requires Stored(c, id, size).Valid()
    ensures Apply(Stored(c, id, size), Unlock(id, [], {})) == Shelved(c, id, size) && Shelved(c, id, size).Valid()
  {
    UnlockQuiet(Stored(c, id, size), id);
    ShelvedIs(c, id, size);
  }

  lemma ShelvedIs(c: Cache, id: Id, size: nat)
    ensures Stored(c, id, size).WithState(id, Unlocked) == Shelved(c, id, size)
  {
    assert Stored(c, id, size).WithState(id, Unlocked).entries == Shelved(c, id, size).entries;
  }

  lemma LeadsToShelved(c: Cache, ops: seq<Op>, d: Cache, id: Id, h: nat, size: nat)
    requires Leads(c, ops, d) && Unknown(d, id, h)
    ensures Leads(c, ops + Storing(id, h, size) + [Unlock(id, [], {})], Shelved(d, id, size))
    ensures Shelved(d, id, size).Valid()
  {
    LeadsToStored(c, ops, d, id, h, size);
    UnlockStored(d, id, size);
    LeadsMore(c, ops + Storing(id, h, size), Stored(d, id, size), Unlock(id, [], {}), Shelved(d, id, size));
  }

  lemma DeleteStuck(maxCache: nat, size: nat)
    requires Shelved(Empty(maxCache), "a", size).Valid()
    ensures var left := Empty(maxCache).(files := map[Key("a", 0) := size]);
      Apply(Shelved(Empty(maxCache), "a", size), Delete("a", {Key("a", 0)})) == left
  {
    var c := Shelved(Empty(maxCache), "a", size);
    DeletedIs(c, "a", {Key("a", 0)});
    assert c.entries - {"a"} == map[];
    assert FilesWithout(c.files, "a", 1, {Key("a", 0)}) == map[Key("a", 0) := size];
  }

  function StuckRun(size: nat): (ops: seq<Op>)
    ensures forall i, j :: 0 <= i < |ops| && 0 <= j < |ops| && ops[i].Write? && ops[j].Write? ==> i == j
  {
    [Lock("a", [], {}, false), Write(Key("a", 0), true, 0), Grow(0, size), Close(0, [], {}), Unlock("a", [], {}),
     Delete("a", {Key("a", 0)}), Lock("a", [], {}, false)]
  }

  /** A file that could not be deleted belongs to the resource again when that is locked anew, but
      its size does not. There is one writer in the run. */
  lemma StuckFileIsNotCounted(maxCache: nat, size: nat)
    requires 0 < size <= maxCache
    ensures Empty(maxCache).Valid()
    ensures var c := After(Empty(maxCache), StuckRun(size));
      "a" in c.entries && c.entries["a"].size == 0 && Total(ClosedFiles(c.files, c.adapters, "a")) == size
  {
    var c, key := Empty(maxCache), Key("a", 0);
    EmptyValid(maxCache);
    LeadsToShelved(c, [], c, "a", 0, size);
    var shelving := [] + Storing("a", 0, size) + [Unlock("a", [], {})];
    var left := c.(files := map[key := size]);
    DeleteStuck(maxCache, size);
    FilesDoNotMatter(c, left.files);
    LockFresh(left, "a");
    TwoSteps(c, shelving, Shelved(c, "a", size),
      Delete("a", {key}), left, Lock("a", [], {}, false), JustLocked(left, "a"));
    assert shelving + [Delete("a", {key}), Lock("a", [], {}, false)] == StuckRun(size);
    LeftOver(JustLocked(left, "a"), key, size);
  }

  lemma LeftOver(c: Cache, key: Key, size: nat)
    requires c.files == map[key := size] && c.adapters == map[]
    ensures Total(ClosedFiles(c.files, c.adapters, key.id)) == size
  {
    assert ClosedFiles(c.files, c.adapters, key.id) == map[key := size];
    TotalOne(key, size);
  }

  /** A lock that loses its entry: two resources fit the limit but not together, and the one that is
      to be locked is evicted for the other, which leaves the total within the limit. It comes first in
      the order of the map and was stored first. */
  lemma LockCanDangle(maxCache: nat, x: nat, y: nat) returns (ops: seq<Op>)
    requires x <= maxCache && y <= maxCache < x + y
    ensures Empty(maxCache).Valid()
    ensures var c := After(Empty(maxCache), ops);
      var d := Apply(c, Lock("a", ["a"], {}, false));
      && "a" in c.entries && c.totalSize == x + y > maxCache && c.SumInv() && Checked(c, ["a"], {}, true)
      && "a" !in d.entries && d.totalSize == y <= maxCache
  {
    var c := Empty(maxCache);
    EmptyValid(maxCache);
    LeadsToShelved(c, [], c, "a", 0, x);
    var first := [] + Storing("a", 0, x) + [Unlock("a", [], {})];
    var one := Shelved(c, "a", x);
    LeadsToStored(c, first, one, "b", 0, y);
    ops := first + Storing("b", 0, y);
    LockEvicts(Stored(one, "b", y), "a");
  }

  lemma LockEvicts(c: Cache, id: Id)
    requires c.Valid() && id in c.entries && c.entries[id].Evictable() && c.totalSize > c.maxCache
    ensures c.entries[id].size <= c.totalSize
    ensures c.totalSize - c.entries[id].size <= c.maxCache ==> Checked(c, [id], {}, true)
    ensures var d := Apply(c, Lock(id, [id], {}, false));
      id !in d.entries && d.totalSize == c.totalSize - c.entries[id].size
  {
    DeletedIs(c, id, {});
    OneMoreVictim(c, [], id, {});
    assert [] + [id] == [id];
  }

  // ---------------------------------------------------------------- the class

  /** `Dangling`: the entry to be locked was evicted on the way, and the lock went to freed memory. */
  datatype LockOutcome = Refused | Acquired | Dangling

  class DiskCache {
    var maxCache: nat
    var totalSize: nat
    var totalAccessors: nat
    var entries: map<Id, Entry>
    var files: map<Key, nat>
    var adapters: map<nat, Adapter>
    ghost var stale: nat

    ghost function View(): Cache
      reads this
    {
      Cache(maxCache, totalSize, totalAccessors, entries, files, adapters, stale)
    }

    constructor (maxCache: nat)
      ensures View() == Empty(maxCache) && View().Valid() && View().FilesValid()
    {
      this.maxCache, totalSize, totalAccessors, stale := maxCache, 0, 0, 0;
      entries, files, adapters := map[], map[], map[];
      EmptyValid(maxCache);
    }

    method DeleteFiles(id: Id, streams: nat, stuck: set<Key>) returns (ok: bool)
      modifies this`files
      ensures files == FilesWithout(old(files), id, streams, stuck)
      ensures ok <==> forall index: nat :: index < streams ==> Key(id, index) !in files
    {
      ok := true;
      var index := 0;
      while index < streams
        invariant index <= streams
        invariant files == FilesWithout(old(files), id, index, stuck)
        invariant ok <==> forall i: nat :: i < index ==> Key(id, i) !in files
      {
        var file := Key(id, index);
        if file in files {
          if file in stuck {
            ok := false;
          } else {
            files := files - {file};
          }
        }
        index := index + 1;
      }
    }

    /** Deletes the files and the entry of a resource nobody holds. */
    method RemoveEntry(id: Id, stuck: set<Key>) returns (ok: bool)
      requires View().SumInv() && id in entries && entries[id].Evictable()
      modifies this`entries, this`files, this`totalSize
      ensures View() == old(View()).Deleted(id, stuck)
      ensures ok <==> forall index: nat :: index < old(entries)[id].streams ==> Key(id, index) !in files
    {
      ghost var d := View().Deleted(id, stuck);
      var entry := entries[id];
      DeletedIs(View(), id, stuck);
      ok := DeleteFiles(id, entry.streams, stuck);
      totalSize, entries := totalSize - entry.size, entries - {id};
      assert View() == d;
    }

    /** Deletes a resource nobody holds; an entry goes even when one of its files cannot. */
    method DeleteResource(id: Id, stuck: set<Key>) returns (ok: bool)
      requires View().Valid()
      modifies this`entries, this`files, this`totalSize
      ensures View() == old(View()).Deleted(id, stuck) && View().Valid()
      ensures ok <==>
        (id !in entries
         && (id in old(entries) ==> forall index: nat :: index < old(entries)[id].streams ==> Key(id, index) !in files))
    {
      DeletedKeeps(View(), id, stuck);
      if id !in entries {
        return true;
      }
      if entries[id].lockState != Unlocked || entries[id].accessors > 0 {
        return false;
      }
      ok := RemoveEntry(id, stuck);
    }

    /** Evicts one resource after another until the total is within the limit. It gives up when
        nothing can be evicted, when the resource it picks is held after all, or when a file cannot
        be deleted. What it picks is arbitrary. */
    method CheckLimit(stuck: set<Key>) returns (ok: bool, ghost victims: seq<Id>)
      requires View().Valid()
      modifies this`entries, this`files, this`totalSize
      ensures View() == old(View()).DeletedAll(victims, stuck) && View().Valid()
      ensures Checked(old(View()), victims, stuck, ok)
      ensures Evicted(old(entries), entries)
      ensures ok ==> totalSize <= maxCache
      ensures old(totalSize) <= maxCache ==> ok && View() == old(View())
      ensures stale > maxCache ==> !ok
    {
      ghost var c := View();
      victims := [];
      StartEvicting(c, stuck);
      while totalSize > maxCache
        invariant View().Valid() && Evicting(c, victims, stuck, View())
        invariant old(totalSize) <= maxCache ==> victims == []
        decreases |entries|
      {
        ghost var d := View();
        if forall id :: id in entries ==> !entries[id].Evictable() {
          EvictEnds(c, victims, stuck, d);
          DeletedAllKeeps(c, victims, stuck);
          return false, victims;
        }
        var victim :| victim in entries;
        var deleted := Evict(victim, stuck);
        EvictFurther(c, victims, stuck, d, victim, View(), deleted);
        victims := victims + [victim];
        if !deleted {
          DeletedAllKeeps(c, victims, stuck);
          return false, victims;
        }
      }
      EvictEnds(c, victims, stuck, View());
      DeletedAllKeeps(c, victims, stuck);
      ok := true;
    }

    method Evict(victim: Id, stuck: set<Key>) returns (deleted: bool)
      requires View().Valid() && victim in entries
      modifies this`entries, this`files, this`totalSize
      ensures View() == old(View()).Deleted(victim, stuck) && View().Valid()
      ensures deleted ==> |entries| < |old(entries)| && Removable(old(View()), victim, stuck)
      ensures !deleted ==> Remains(View(), victim)
    {
      DeletedKeeps(View(), victim, stuck);
      deleted := DeleteResource(victim, stuck);
      if deleted {
        FewerEntries(old(entries), entries, victim);
      }
    }

    static lemma FewerEntries(before: map<Id, Entry>, after: map<Id, Entry>, id: Id)
      requires id in before && id !in after && after.Keys <= before.Keys
      ensures |after| < |before|
    {
      assert after.Keys <= before.Keys - {id};
      SubsetSize(after.Keys, before.Keys - {id});
    }

    static lemma {:induction false} SubsetSize<T>(a: set<T>, b: set<T>)
      requires a <= b
      ensures |a| <= |b|
      decreases b
    {
      if a != {} {
        var x :| x in a;
        SubsetSize(a - {x}, b - {x});
      }
    }

    method CreateEntry(id: Id)
      requires View().Valid()
      modifies this`entries
      ensures View() == old(View()).Created(id) && View().Valid()
    {
      CreatedKeeps(View(), id);
      if id !in entries {
        entries := entries[id := Entry(Unlocked, 0, 0, 0)];
      }
    }

    /** The limit is checked on the way if the total is over it. That may take the very entry that is
        being locked, but not unless `MayDangle` says so. */
    method LockResource(id: Id, stuck: set<Key>)
      returns (outcome: LockOutcome, ghost victims: seq<Id>, ghost overfull: bool)
      requires View().Valid()
      modifies this`entries, this`files, this`totalSize
      ensures View() == Apply(old(View()), Lock(id, victims, stuck, overfull)) && View().Valid()
      ensures outcome == Acquired ==> id in entries && entries[id].lockState == Locked
      ensures outcome == Dangling ==> id !in entries && MayDangle(old(View()).Created(id), id, stuck)
      ensures outcome != Refused ==> totalSize <= maxCache
      ensures old(View()).Created(id).SumInv()
      ensures if MayLock(old(View()).Created(id).entries[id])
        then Checked(old(View()).Created(id), victims, stuck, !overfull) && (outcome == Refused <==> overfull)
        else outcome == Refused && View() == old(View()).Created(id)
      ensures old(totalSize) <= maxCache ==>
        (outcome == Acquired <==>
           !HasStream(old(adapters), id, false) && (id in old(entries) ==> old(entries)[id].lockState != Locked))
    {
      ghost var c := View();
      CreateEntry(id);
      ghost var c1 := View();
      victims, overfull := [], false;
      if entries[id].lockState == Locked {
        return Refused, [], false;
      }
      if entries[id].lockState == Unlocked && entries[id].accessors > 0 {
        return Refused, [], false;
      }
      outcome, victims, overfull := LockEntry(id, stuck);
      assert View() == LockedAfter(c1, id, victims, stuck, overfull);
    }

    method LockEntry(id: Id, stuck: set<Key>)
      returns (outcome: LockOutcome, ghost victims: seq<Id>, ghost overfull: bool)
      requires View().Valid() && id in entries && MayLock(entries[id])
      modifies this`entries, this`files, this`totalSize
      ensures View() == LockedAfter(old(View()), id, victims, stuck, overfull) && View().Valid()
      ensures outcome == Acquired ==> id in entries && entries[id].lockState == Locked
      ensures outcome == Dangling ==> id !in entries && MayDangle(old(View()), id, stuck)
      ensures outcome != Refused ==> totalSize <= maxCache
      ensures Checked(old(View()), victims, stuck, !overfull) && (outcome == Refused <==> overfull)
      ensures old(totalSize) <= maxCache ==> outcome == Acquired
    {
      ghost var c := View();
      victims, overfull := [], false;
      CheckedWithin(c, stuck);
      if totalSize > maxCache {
        var ok;
        ok, victims := CheckLimit(stuck);
        if !ok {
          return Refused, victims, true;
        }
      }
      if id !in entries {
        SettledWithout(c, victims, id, stuck);
        return Dangling, victims, false;
      }
      WithStateKeeps(View(), id, Locked);
      entries := entries[id := entries[id].(lockState := Locked)];
      outcome := Acquired;
    }

    /** Opens a stream of a locked resource for writing; `h` is the new adapter. */
    method WriteResource(key: Key, canOpen: bool, h: nat) returns (granted: bool)
      requires View().Valid() && key.id in entries && h !in adapters
      modifies this
      ensures View() == Apply(old(View()), Write(key, canOpen, h)) && View().Valid()
      ensures granted <==> MayWrite(old(View()), key, canOpen, h)
    {
      var entry := entries[key.id];
      if entry.lockState != Locked {
        return false;
      }
      var previous := FileSize(files, key);
      if previous > entry.size {
        previous := entry.size;
      }
      if !canOpen {
        return false;
      }
      ghost var c := View();
      ghost var d := c.WriterOpened(key, h);
      SumCovers(View(), key.id);
      assert previous == View().Previous(key);
      ghost var was := entry;
      entry := entry.(streams := if entry.streams > key.index + 1 then entry.streams else key.index + 1);
      entry := entry.(size := entry.size - previous);
      entry := entry.(accessors := entry.accessors + 1);
      assert entry == was.WithWriter(key.index, previous);
      entries, totalSize, files := entries[key.id := entry], totalSize - previous, files[key := 0];
      totalAccessors, adapters := totalAccessors + 1, adapters[h := Adapter(key, true)];
      assert View() == d;
      WriterOpenedKeeps(c, key, h);
      granted := true;
    }

    /** Checks the limit when nobody writes; what comes of that is not reported to the caller. */
    method UnlockResource(id: Id, stuck: set<Key>) returns (ok: bool, ghost victims: seq<Id>, ghost within: bool)
      requires View().Valid() && id in entries
      modifies this
      ensures View() == Apply(old(View()), Unlock(id, victims, stuck)) && View().Valid()
      ensures ok <==> old(entries)[id].lockState == Locked
      ensures ok && old(entries)[id].accessors == 0 ==>
        var c := old(View()).WithState(id, Unlocked);
        c.SumInv() && Checked(c, victims, stuck, within) && (within ==> totalSize <= maxCache)
    {
      ghost var c := View();
      victims, within := [], true;
      UnlockKeeps(c, id, [], stuck);
      if entries[id].lockState != Locked {
        return false, [], true;
      }
      if entries[id].accessors > 0 {
        entries := entries[id := entries[id].(lockState := Unlocking)];
      } else {
        entries := entries[id := entries[id].(lockState := Unlocked)];
        WithStateKeeps(c, id, Unlocked);
        var checked;
        checked, victims := CheckLimit(stuck);
        within := checked;
      }
      ok := true;
    }

    method ReadResource(key: Key, canOpen: bool, h: nat) returns (granted: bool)
      requires View().Valid() && key.id in entries && h !in adapters
      modifies this
      ensures View() == Apply(old(View()), Read(key, canOpen, h)) && View().Valid()
      ensures granted <==> MayRead(old(View()), key, canOpen, h)
    {
      var entry := entries[key.id];
      if entry.lockState != Unlocked || key.index >= entry.streams || !canOpen {
        return false;
      }
      ghost var d := View().ReaderOpened(key, h);
      ReaderOpenedKeeps(View(), key, h);
      entries := entries[key.id := entry.(accessors := entry.accessors + 1)];
      totalAccessors, adapters := totalAccessors + 1, adapters[h := Adapter(key, false)];
      assert View() == d;
      granted := true;
    }

    /** Takes a stream off the accounts; `last` when it was the last writer of an entry that is
        unlocking, which is thereby unlocked. */
    method CloseStreamOf(h: nat) returns (last: bool)
      requires View().Valid() && h in adapters
      modifies this
      ensures View() == old(View()).Closed(h)
      ensures last <==> LastWriter(old(View()), h)
    {
      ghost var d := View().Closed(h);
      HolderCounts(entries, adapters, totalAccessors, h);
      var key := adapters[h].key;
      var entry := entries[key.id];
      ghost var was := entry;
      var size := totalSize;
      last := false;
      entry := entry.(accessors := entry.accessors - 1);
      if entry.lockState != Unlocked {
        var newSize := FileSize(files, key);
        entry := entry.(size := entry.size + newSize);
        size := size + newSize;
        if entry.lockState == Unlocking && entry.accessors == 0 {
          entry := entry.(lockState := Unlocked);
          last := true;
        }
      }
      assert entry == was.WithoutStream(FileSize(files, key));
      entries, totalSize := entries[key.id := entry], size;
      totalAccessors, adapters := totalAccessors - 1, adapters - {h};
      assert View() == d;
    }

    /** What the destructor of an open stream does; it always finds its entry. The last writer of a
        resource that is unlocking has the limit checked. */
    method ReleaseResource(h: nat, stuck: set<Key>) returns (ghost victims: seq<Id>, ghost within: bool)
      requires View().Valid() && h in adapters
      modifies this
      ensures View() == Apply(old(View()), Close(h, victims, stuck)) && View().Valid()
      ensures LastWriter(old(View()), h) ==>
        var c := old(View()).Closed(h);
        c.SumInv() && Checked(c, victims, stuck, within) && (within ==> totalSize <= maxCache)
    {
      ghost var c := View();
      ClosedKeeps(c, h);
      ghost var d := c.Closed(h);
      victims, within := [], true;
      var last := CloseStreamOf(h);
      if last {
        var checked;
        checked, victims := CheckLimit(stuck);
        within := checked;
      }
      CloseUnfolds(c, h, victims, stuck, d);
      assert last ==> View() == d.DeletedAll(victims, stuck);
      assert !last ==> View() == d;
    }

    /** Forgets every resource when no stream is open; the total keeps their sizes. */
    method PurgeAll(purged: bool) returns (ok: bool)
      requires View().Valid()
      modifies this
      ensures View() == Apply(old(View()), Purge(purged)) && View().Valid()
      ensures ok <==> old(totalAccessors) == 0 && purged
    {
      ApplyKeeps(View(), Purge(purged));
      if totalAccessors > 0 || !purged {
        return false;
      }
      files := map[];
      entries := map[];
      stale := totalSize;
      ok := true;
    }
  }
}
