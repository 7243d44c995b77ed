/** The process-wide, content-addressed block store of package fileshare:
    a map from content address (CID) to raw bytes, created lazily on first use.
    The hash behind a CID (SHA-256, wrapped as a multihash) is kept abstract:
    it is a parameter `hash` that maps bytes to a digest. */
module FileShare {
  import opened Common

  /** The multihash digest of a block's bytes. */
  type Hasher = Bytes -> Bytes

  /** A content address. `Undef` is Go's zero value cid.Cid{}, which the add
      returns on failure; `V0` is the address block.NewBlock derives. */
  datatype Cid = Undef | V0(multihash: Bytes)

  /** A block: an address and the bytes it addresses. */
  datatype Block = Block(cid: Cid, raw: Bytes)

  /** The three ways the package reports failure, one per error wrapper
      ("error reading file", "error storing block", "error retrieving block").
      A missing block and a failing datastore both surface as GetFailed. */
  datatype StoreError = ReadFailed | PutFailed | GetFailed

  /** The package's state: whether `once` has run, and the blocks held by the
      in-memory blockstore it created. */
  datatype Store = Store(initialised: bool, blocks: map<Cid, Bytes>)

  /** block.NewBlock: the address is a function of the bytes alone. */
  function NewBlock(hash: Hasher, data: Bytes): (b: Block)
    ensures b.raw == data && b.cid != Undef
  {
    Block(V0(hash(data)), data)
  }

  /** Every entry is stored under the address of its own bytes. */
  ghost predicate ContentAddressed(hash: Hasher, blocks: map<Cid, Bytes>) {
    forall c :: c in blocks ==> c == V0(hash(blocks[c]))
  }

  /** Before `once` has run there is no blockstore, so nothing is held. */
  ghost predicate WellFormed(hash: Hasher, s: Store) {
    (!s.initialised ==> s.blocks == map[]) && ContentAddressed(hash, s.blocks)
  }

  /** initBlockstore: the first call creates an empty in-memory blockstore;
      every later call hands back the same one. */
  function Init(s: Store): (r: Store)
    ensures r.initialised
    ensures s.initialised ==> r == s
    ensures !s.initialised ==> r.blocks == map[]
  {
    if s.initialised then s else Store(true, map[])
  }

  /** Blockstore.Put: the block is held under its address afterwards, and no
      other entry appears, disappears or changes. */
  function Put(blocks: map<Cid, Bytes>, b: Block): (r: map<Cid, Bytes>)
    ensures r.Keys == blocks.Keys + {b.cid}
    ensures r[b.cid] == b.raw
    ensures forall c :: c in blocks && c != b.cid ==> r[c] == blocks[c]
  {
    blocks[b.cid := b.raw]
  }

  /** Blockstore.Get: the bytes held under c, or a failure when nothing is. */
  function Get(blocks: map<Cid, Bytes>, c: Cid): (r: Result<Bytes, StoreError>)
    ensures r.Success? <==> c in blocks
    ensures r.Success? ==> r.value == blocks[c]
    ensures r.Failure? ==> r.error == GetFailed
  {
    if c in blocks then Success(blocks[c]) else Failure(GetFailed)
  }

  /** What AddFileToOfflineStore returns (the CID and the error) and the
      package state it leaves. */
  datatype AddOutcome = AddOutcome(cid: Cid, err: Option<StoreError>, store: Store)

  /** AddFileToOfflineStore, with the outcome of os.ReadFile (`file`) and of
      the blockstore's Put (`putOk`) given as inputs. */
  function Add(s: Store, hash: Hasher, file: Option<Bytes>, putOk: bool): (r: AddOutcome)
    ensures file.None? ==> r == AddOutcome(Undef, Some(ReadFailed), s)
    ensures file.Some? && !putOk ==> r == AddOutcome(Undef, Some(PutFailed), Init(s))
    ensures r.err.None? <==> file.Some? && putOk
    ensures r.err.None? ==> r.cid == NewBlock(hash, file.value).cid
    ensures r.err.None? ==> r.store.blocks.Keys == Init(s).blocks.Keys + {r.cid}
  {
    if file.None? then
      AddOutcome(Undef, Some(ReadFailed), s)
    else
      var store := Init(s);
      var blk := NewBlock(hash, file.value);
      if !putOk then
        AddOutcome(Undef, Some(PutFailed), store)
      else
        AddOutcome(blk.cid, None, store.(blocks := Put(store.blocks, blk)))
  }

  /** RetrieveFileFromStore: initialises the store if need be, then looks the
      address up. */
  function Retrieve(s: Store, c: Cid): (r: (Result<Bytes, StoreError>, Store))
    ensures r.1 == Init(s)
    ensures r.0.Success? <==> c in Init(s).blocks
    ensures r.0.Success? ==> r.0.value == Init(s).blocks[c]
    ensures r.0.Failure? ==> r.0.error == GetFailed
  {
    var store := Init(s);
    (Get(store.blocks, c), store)
  }

  /** Adding bytes and then retrieving the returned address gives back exactly
      those bytes. */
  lemma AddThenRetrieve(s: Store, hash: Hasher, data: Bytes)
    ensures var a := Add(s, hash, Some(data), true);
            a.err.None? && Retrieve(a.store, a.cid).0 == Success(data)
  {
  }

  /** The address depends on the bytes only: two successful adds of the same
      bytes, from any two store states, return the same address. */
  lemma AddDeterministic(s1: Store, s2: Store, hash: Hasher, data: Bytes)
    ensures Add(s1, hash, Some(data), true).cid == Add(s2, hash, Some(data), true).cid
    ensures Add(s1, hash, Some(data), true).cid != Undef
  {
  }

  /** Re-adding bytes that are already held leaves the store as it was. */
  lemma {:induction false} ReAddUnchanged(s: Store, hash: Hasher, data: Bytes)
    requires WellFormed(hash, s)
    requires data in s.blocks.Values
    ensures Add(s, hash, Some(data), true).store == s
  {
    var c :| c in s.blocks && s.blocks[c] == data;
    assert c == V0(hash(data));
    assert s.initialised;
    assert Put(s.blocks, NewBlock(hash, data)) == s.blocks;
  }

  /** A successful add touches only the entry at the returned address. */
  lemma AddFrame(s: Store, hash: Hasher, data: Bytes, c: Cid)
    requires c != V0(hash(data))
    ensures var a := Add(s, hash, Some(data), true);
            (c in a.store.blocks <==> c in Init(s).blocks) &&
            (c in a.store.blocks ==> a.store.blocks[c] == Init(s).blocks[c])
  {
  }

  /** Every add, whatever its outcome, keeps every entry stored under the
      address of its own bytes. */
  lemma {:induction false} AddWellFormed(s: Store, hash: Hasher, file: Option<Bytes>, putOk: bool)
    requires WellFormed(hash, s)
    ensures WellFormed(hash, Add(s, hash, file, putOk).store)
  {
    if file.Some? && putOk {
      var blocks := Add(s, hash, file, putOk).store.blocks;
      forall c | c in blocks
        ensures c == V0(hash(blocks[c]))
      {
        if c != V0(hash(file.value)) {
          assert c in Init(s).blocks;
        }
      }
    }
  }

  /** A retrieve keeps the store well formed, and the bytes it hands back
      always hash to the address that was asked for. */
  lemma RetrieveIntegrity(s: Store, hash: Hasher, c: Cid)
    requires WellFormed(hash, s)
    ensures WellFormed(hash, Retrieve(s, c).1)
    ensures Retrieve(s, c).0.Success? ==> c == V0(hash(Retrieve(s, c).0.value))
  {
  }

  /** One call made on the store by the node, with the outcomes of the file
      read and of Put given for an add. */
  datatype Request = AddReq(file: Option<Bytes>, putOk: bool) | RetrieveReq(cid: Cid)

  /** The store after a run of calls. */
  function Apply(s: Store, hash: Hasher, reqs: seq<Request>): (r: Store)
    decreases |reqs|
  {
    if reqs == [] then s
    else
      var next := match reqs[0]
        case AddReq(file, putOk) => Add(s, hash, file, putOk).store
        case RetrieveReq(c) => Retrieve(s, c).1;
      Apply(next, hash, reqs[1..])
  }

  /** The address a request added, if it added one. */
  function Added(hash: Hasher, req: Request): Option<Cid> {
    match req
    case AddReq(file, putOk) =>
      if file.Some? && putOk then Some(NewBlock(hash, file.value).cid) else None
    case RetrieveReq(_) => None
  }

  /** The addresses a run of calls added. */
  function AddedCids(hash: Hasher, reqs: seq<Request>): set<Cid>
    decreases |reqs|
  {
    if reqs == [] then {}
    else
      (if Added(hash, reqs[0]).Some? then {Added(hash, reqs[0]).value} else {})
      + AddedCids(hash, reqs[1..])
  }

  /** The store belongs to one process: starting from a fresh store, an
      address can be retrieved after a run of calls exactly when one of those
      calls successfully added bytes with that address. In particular a
      process that never added some bytes cannot retrieve their address. */
  lemma {:induction false} RetrievableIffAdded(s: Store, hash: Hasher, reqs: seq<Request>, c: Cid)
    requires !s.initialised
    requires WellFormed(hash, s)
    ensures Retrieve(Apply(s, hash, reqs), c).0.Success? <==>
            exists i :: 0 <= i < |reqs| && Added(hash, reqs[i]) == Some(c)
  {
    ApplyKeys(s, hash, reqs);
    AddedCidsMembers(hash, reqs, c);
  }

  /** The addresses held after a run of calls: those held before, plus the
      ones the run added. */
  lemma {:induction false} ApplyKeys(s: Store, hash: Hasher, reqs: seq<Request>)
    ensures Init(Apply(s, hash, reqs)).blocks.Keys == Init(s).blocks.Keys + AddedCids(hash, reqs)
    decreases |reqs|
  {
    if reqs != [] {
      var next := match reqs[0]
        case AddReq(file, putOk) => Add(s, hash, file, putOk).store
        case RetrieveReq(c) => Retrieve(s, c).1;
      ApplyKeys(next, hash, reqs[1..]);
    }
  }

  lemma {:induction false} AddedCidsMembers(hash: Hasher, reqs: seq<Request>, c: Cid)
    ensures c in AddedCids(hash, reqs) <==> exists i :: 0 <= i < |reqs| && Added(hash, reqs[i]) == Some(c)
    decreases |reqs|
  {
    if reqs != [] {
      AddedCidsMembers(hash, reqs[1..], c);
      if exists i :: 0 <= i < |reqs| && Added(hash, reqs[i]) == Some(c) {
        var i :| 0 <= i < |reqs| && Added(hash, reqs[i]) == Some(c);
        if i > 0 {
          assert reqs[1..][i - 1] == reqs[i];
        }
      }
      if exists i :: 0 <= i < |reqs| - 1 && Added(hash, reqs[1..][i]) == Some(c) {
        var i :| 0 <= i < |reqs| - 1 && Added(hash, reqs[1..][i]) == Some(c);
        assert reqs[i + 1] == reqs[1..][i];
      }
    }
  }

  /** The package-level globals `store` and `once`, updated in place. The
      hash is fixed for the life of the process. */
  class BlockStore {
    const hash: Hasher
    var initialised: bool
    var blocks: map<Cid, Bytes>
    /** How many times the body of once.Do has run, that is, how many
        blockstores were ever created. */
    ghost var creations: nat

    ghost predicate Valid()
      reads this
    {
      && WellFormed(hash, State())
      && creations == (if initialised then 1 else 0)
    }

    function State(): Store
      reads this
    {
      Store(initialised, blocks)
    }

    /** The package as loaded: no blockstore yet. */
    constructor (hash: Hasher)
      ensures Valid()
      ensures this.hash == hash && State() == Store(false, map[])
    {
      this.hash := hash;
      initialised := false;
      blocks := map[];
      creations := 0;
    }

    /** initBlockstore: creates the blockstore at most once; a later call
        changes nothing. */
    method InitBlockstore()
      requires Valid()
      modifies this
      ensures Valid()
      ensures State() == Init(old(State()))
      ensures creations <= 1
      ensures old(initialised) ==> creations == old(creations) && blocks == old(blocks)
    {
      if !initialised {
        blocks := map[];
        initialised := true;
        creations := creations + 1;
      }
    }

    /** AddFileToOfflineStore, given the outcome of reading the file and of
        storing the block. A failed read returns before the store is touched. */
    method AddFileToOfflineStore(file: Option<Bytes>, putOk: bool) returns (c: Cid, err: Option<StoreError>)
      requires Valid()
      modifies this
      ensures Valid()
      ensures AddOutcome(c, err, State()) == Add(old(State()), hash, file, putOk)
      ensures err.None? ==> blocks[c] == file.value
      ensures file.None? ==> unchanged(this)
    {
      if file.None? {
        return Undef, Some(ReadFailed);
      }
      AddWellFormed(State(), hash, file, putOk);
      InitBlockstore();
      var blk := NewBlock(hash, file.value);
      if !putOk {
        return Undef, Some(PutFailed);
      }
      blocks := Put(blocks, blk);
      return blk.cid, None;
    }

    /** RetrieveFileFromStore: the bytes held under c, or GetFailed. What it
        hands back always hashes to c. */
    method RetrieveFileFromStore(c: Cid) returns (r: Result<Bytes, StoreError>)
      requires Valid()
      modifies this
      ensures Valid()
      ensures (r, State()) == Retrieve(old(State()), c)
      ensures r.Success? ==> c == V0(hash(r.value))
    {
      InitBlockstore();
      r := Get(blocks, c);
    }
  }
}
