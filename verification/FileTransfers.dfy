/**
 Chunked file transfer into a staging file that survives crashes. `hash` stands for SHA-256: any
 function of the bytes, and where a result needs it, one without collisions.
 */
module FileTransfers {
  import opened Options
  import opened Sets

  type Byte = x: int | 0 <= x < 256
  type Bytes = seq<Byte>
  type Digest = nat
  type Hash = Bytes -> Digest

  const MAXIMUM_CHUNK_SIZE := 4 * 1024 * 1024

  datatype Chunk = Chunk(index: nat, offset: nat, size: nat, digest: Digest) {
    function End(): nat { offset + size }
  }

  /** `named` says that the identifier, the path and the digests are well formed, which is checked elsewhere. */
  datatype Plan = Plan(named: bool, total: nat, digest: Digest, chunks: seq<Chunk>)

  /** Chunks are numbered in order and lie one behind the other from `from` to `to`. */
  predicate Layout(chunks: seq<Chunk>, from: nat, to: nat) {
    if chunks == [] then from == to
    else
      var last := chunks[|chunks| - 1];
      && last.index == |chunks| - 1 && 0 < last.size <= MAXIMUM_CHUNK_SIZE && from <= last.offset && last.End() == to
      && Layout(chunks[..|chunks| - 1], from, last.offset)
  }

  predicate ValidPlan(plan: Plan) {
    plan.named && plan.total > 0 && plan.chunks != [] && Layout(plan.chunks, 0, plan.total)
  }

  lemma {:induction false} LayoutAt(chunks: seq<Chunk>, from: nat, to: nat, i: nat)
    requires Layout(chunks, from, to) && i < |chunks|
    ensures chunks[i].index == i && 0 < chunks[i].size <= MAXIMUM_CHUNK_SIZE
    ensures from <= chunks[i].offset && chunks[i].End() <= to
    decreases |chunks|
  {
    if i == |chunks| - 1 {
    } else {
      LayoutAt(chunks[..|chunks| - 1], from, chunks[|chunks| - 1].offset, i);
    }
  }

  /** Different chunks cover different bytes. */
  lemma {:induction false} LayoutApart(chunks: seq<Chunk>, from: nat, to: nat, i: nat, j: nat)
    requires Layout(chunks, from, to) && i < j < |chunks|
    ensures chunks[i].End() <= chunks[j].offset
    decreases |chunks|
  {
    var last := |chunks| - 1;
    if j < last {
      LayoutApart(chunks[..last], from, chunks[last].offset, i, j);
    } else {
      LayoutAt(chunks[..last], from, chunks[last].offset, i);
    }
  }

  /** Every byte belongs to some chunk. */
  lemma {:induction false} LayoutCovers(chunks: seq<Chunk>, from: nat, to: nat, k: nat) returns (i: nat)
    requires Layout(chunks, from, to) && from <= k < to
    ensures i < |chunks| && chunks[i].offset <= k < chunks[i].End()
    decreases |chunks|
  {
    var last := |chunks| - 1;
    if k >= chunks[last].offset {
      i := last;
    } else {
      i := LayoutCovers(chunks[..last], from, chunks[last].offset, k);
    }
  }

  // ------------------------------------------------------------- the staging file

  function Zeros(n: nat): (z: Bytes)
    ensures |z| == n
  {
    seq(n, _ => 0)
  }

  /** Writing at an offset keeps what lies before and behind it; a gap reads as zeros. */
  function WriteAt(file: Bytes, offset: nat, bytes: Bytes): (w: Bytes)
    ensures |w| == if |file| < offset + |bytes| then offset + |bytes| else |file|
  {
    var padded := if |file| < offset then file + Zeros(offset - |file|) else file;
    padded[..offset] + bytes + (if offset + |bytes| < |padded| then padded[offset + |bytes|..] else [])
  }

  predicate Holds(hash: Hash, file: Bytes, c: Chunk) {
    c.End() <= |file| && hash(file[c.offset..c.End()]) == c.digest
  }

  lemma WriteKeepsApart(file: Bytes, offset: nat, bytes: Bytes, from: nat, to: nat)
    requires from <= to <= |file| && (to <= offset || offset + |bytes| <= from)
    ensures to <= |WriteAt(file, offset, bytes)| && WriteAt(file, offset, bytes)[from..to] == file[from..to]
  {
  }

  lemma WriteWrites(file: Bytes, offset: nat, bytes: Bytes)
    ensures WriteAt(file, offset, bytes)[offset..offset + |bytes|] == bytes
  {
  }

  // ---------------------------------------------------------------- transfers

  datatype Transfer = Transfer(plan: Plan, staging: Option<Bytes>, confirmed: set<nat>)

  /** Opening looks at what an earlier process left behind and keeps the chunks that still match. */
  function Recovered(hash: Hash, plan: Plan, staging: Option<Bytes>): set<nat> {
    set i | 0 <= i < |plan.chunks| && staging.Some? && Holds(hash, staging.value, plan.chunks[i])
  }

  function Open(hash: Hash, plan: Plan, staging: Option<Bytes>): Transfer {
    Transfer(plan, staging, Recovered(hash, plan, staging))
  }

  predicate Acceptable(hash: Hash, plan: Plan, index: nat, bytes: Bytes) {
    index < |plan.chunks| && |bytes| == plan.chunks[index].size && hash(bytes) == plan.chunks[index].digest
  }

  function Accept(hash: Hash, t: Transfer, index: nat, bytes: Bytes): Transfer {
    if !Acceptable(hash, t.plan, index, bytes) then t
    else t.(staging := Some(WriteAt(t.staging.GetOr([]), t.plan.chunks[index].offset, bytes)),
            confirmed := t.confirmed + {index})
  }

  /** Every confirmed chunk is one of the plan's and its staged bytes match its descriptor. */
  predicate Confirmed(hash: Hash, t: Transfer) {
    forall i <- t.confirmed :: i < |t.plan.chunks| && t.staging.Some? && Holds(hash, t.staging.value, t.plan.chunks[i])
  }

  /** A chunk may arrive at any time, and a crash may leave anything behind. */
  datatype Action = Arrive(index: nat, bytes: Bytes) | Reopen(found: Option<Bytes>)

  function Run(hash: Hash, plan: Plan, found: Option<Bytes>, actions: seq<Action>): Transfer {
    if actions == [] then Open(hash, plan, found)
    else
      var before := Run(hash, plan, found, actions[..|actions| - 1]);
      match actions[|actions| - 1]
      case Arrive(index, bytes) => Accept(hash, before, index, bytes)
      case Reopen(left) => Open(hash, plan, left)
  }

  lemma AcceptKeeps(hash: Hash, t: Transfer, index: nat, bytes: Bytes)
    requires ValidPlan(t.plan) && Confirmed(hash, t)
    ensures Confirmed(hash, Accept(hash, t, index, bytes))
  {
    if Acceptable(hash, t.plan, index, bytes) {
      var file, offset := t.staging.GetOr([]), t.plan.chunks[index].offset;
      var written := WriteAt(file, offset, bytes);
      LayoutAt(t.plan.chunks, 0, t.plan.total, index);
      WriteWrites(file, offset, bytes);
      forall i | i in t.confirmed && i != index ensures Holds(hash, written, t.plan.chunks[i]) {
        if i < index {
          LayoutApart(t.plan.chunks, 0, t.plan.total, i, index);
        } else {
          LayoutApart(t.plan.chunks, 0, t.plan.total, index, i);
        }
        WriteKeepsApart(file, offset, bytes, t.plan.chunks[i].offset, t.plan.chunks[i].End());
      }
    }
  }

  /** Whatever arrives, is repeated or is lost in crashes, confirmed chunks match what is staged. */
  lemma {:induction false} ConfirmedChunksMatch(hash: Hash, plan: Plan, found: Option<Bytes>, actions: seq<Action>)
    requires ValidPlan(plan)
    ensures Run(hash, plan, found, actions).plan == plan && Confirmed(hash, Run(hash, plan, found, actions))
  {
    if actions == [] {
    } else {
      var before, a := actions[..|actions| - 1], actions[|actions| - 1];
      ConfirmedChunksMatch(hash, plan, found, before);
      if a.Arrive? {
        AcceptKeeps(hash, Run(hash, plan, found, before), a.index, a.bytes);
      }
    }
  }

  // --------------------------------------------------------------- completion

  function Indices(n: nat): set<nat> { if n == 0 then {} else Indices(n - 1) + {n - 1} }

  lemma {:induction false} IndicesCount(n: nat)
    ensures |Indices(n)| == n && forall i: nat :: i in Indices(n) <==> i < n
  {
    if n == 0 {
    } else {
      IndicesCount(n - 1);
    }
  }

  predicate Complete(t: Transfer) { |t.confirmed| == |t.plan.chunks| }

  /** Counting the confirmed chunks is enough: as many as the plan has are all of them. */
  lemma CompleteIsAll(hash: Hash, t: Transfer)
    requires Confirmed(hash, t)
    ensures Complete(t) <==> forall i | 0 <= i < |t.plan.chunks| :: i in t.confirmed
  {
    IndicesCount(|t.plan.chunks|);
    SubsetCount(t.confirmed, Indices(|t.plan.chunks|));
    if forall i | 0 <= i < |t.plan.chunks| :: i in t.confirmed {
      assert t.confirmed == Indices(|t.plan.chunks|);
    }
  }

  /** Publishing checks the size and the digest of the whole staging file. */
  predicate Publishable(hash: Hash, t: Transfer) {
    Complete(t) && t.staging.Some? && |t.staging.value| == t.plan.total && hash(t.staging.value) == t.plan.digest
  }

  ghost predicate CollisionFree(hash: Hash) { forall x, y :: hash(x) == hash(y) ==> x == y }

  /** The plan describes this source. */
  predicate Describes(hash: Hash, plan: Plan, source: Bytes) {
    && plan.total == |source| && plan.digest == hash(source)
    && forall i | 0 <= i < |plan.chunks| ::
         plan.chunks[i].End() <= |source| &&
         plan.chunks[i].digest == hash(source[plan.chunks[i].offset..plan.chunks[i].End()])
  }

  /** Without collisions only the exact source is ever published. */
  lemma PublishedIsSource(hash: Hash, t: Transfer, source: Bytes)
    requires CollisionFree(hash) && t.plan.digest == hash(source) && Publishable(hash, t)
    ensures t.staging == Some(source)
  {
    assert hash(t.staging.value) == hash(source);
  }

  /** A complete staging file agrees with the source on every byte the plan covers. */
  lemma CompleteHoldsSource(hash: Hash, t: Transfer, source: Bytes)
    requires CollisionFree(hash) && ValidPlan(t.plan) && Describes(hash, t.plan, source) && Confirmed(hash, t) &&
             Complete(t)
    ensures t.staging.Some? && |t.staging.value| >= |source| && t.staging.value[..|source|] == source
  {
    CompleteIsAll(hash, t);
    LastIsStaged(hash, t);
    var file := t.staging.value;
    forall k | 0 <= k < |source| ensures file[k] == source[k] {
      var i := LayoutCovers(t.plan.chunks, 0, t.plan.total, k);
      HeldByte(hash, t, source, i, k);
    }
  }

  /** One byte of one confirmed chunk. */
  lemma HeldByte(hash: Hash, t: Transfer, source: Bytes, i: nat, k: nat)
    requires CollisionFree(hash) && Describes(hash, t.plan, source) && Confirmed(hash, t) && i in t.confirmed
    requires i < |t.plan.chunks| && t.plan.chunks[i].offset <= k < t.plan.chunks[i].End()
    ensures t.staging.Some? && k < |t.staging.value| && k < |source| && t.staging.value[k] == source[k]
  {
    var c, file := t.plan.chunks[i], t.staging.value;
    var x, y := file[c.offset..c.End()], source[c.offset..c.End()];
    assert hash(x) == hash(y);
    assert x[k - c.offset] == y[k - c.offset];
  }

  lemma LastIsStaged(hash: Hash, t: Transfer)
    requires ValidPlan(t.plan) && Confirmed(hash, t) && forall i | 0 <= i < |t.plan.chunks| :: i in t.confirmed
    ensures t.staging.Some? && |t.staging.value| >= t.plan.total
  {
    var last := |t.plan.chunks| - 1;
    assert last in t.confirmed && t.plan.chunks[last].End() == t.plan.total;
  }

  /** A complete transfer can be published exactly when nothing is left over behind the source. */
  lemma CompletePublishesWhen(hash: Hash, t: Transfer, source: Bytes)
    requires CollisionFree(hash) && ValidPlan(t.plan) && Describes(hash, t.plan, source) && Confirmed(hash, t) &&
             Complete(t)
    ensures t.staging.Some? && (Publishable(hash, t) <==> |t.staging.value| <= t.plan.total)
  {
    CompleteHoldsSource(hash, t, source);
    if |t.staging.value| <= t.plan.total {
      assert t.staging.value == t.staging.value[..|source|];
    }
  }

  // ------------------------------------------------------------------ the plan

  lemma LayoutMore(chunks: seq<Chunk>, from: nat, to: nat, c: Chunk)
    requires Layout(chunks, from, to) && c.index == |chunks| && c.offset == to && 0 < c.size <= MAXIMUM_CHUNK_SIZE &&
             from <= to
    ensures Layout(chunks + [c], from, c.End())
  {
    assert (chunks + [c])[..|chunks|] == chunks;
  }

  /** Some chunks are those of the source, each with its own digest. */
  predicate Cuts(hash: Hash, source: Bytes, chunks: seq<Chunk>) {
    forall c <- chunks :: c.End() <= |source| && c.digest == hash(source[c.offset..c.End()])
  }

  /** Plans the transfer of a file; refused for an empty file or a bad chunk size. */
  method PlanFile(hash: Hash, source: Bytes, named: bool, chunkSize: nat) returns (plan: Option<Plan>)
    ensures plan.Some? <==> 0 < chunkSize <= MAXIMUM_CHUNK_SIZE && source != []
    ensures plan.Some? ==> Describes(hash, plan.value, source) && plan.value.named == named
    ensures plan.Some? && named ==> ValidPlan(plan.value)
  {
    if chunkSize == 0 || chunkSize > MAXIMUM_CHUNK_SIZE || source == [] { return None; }
    var chunks: seq<Chunk> := [];
    var offset := 0;
    while offset < |source|
      invariant offset <= |source| && (offset > 0 ==> chunks != [])
      invariant Layout(chunks, 0, offset) && Cuts(hash, source, chunks)
    {
      var remaining := |source| - offset;
      var count := if remaining < chunkSize then remaining else chunkSize;
      var c := Chunk(|chunks|, offset, count, hash(source[offset..offset + count]));
      LayoutMore(chunks, 0, offset, c);
      chunks := chunks + [c];
      offset := offset + count;
    }
    plan := Some(Plan(named, |source|, hash(source), chunks));
  }

  // ------------------------------------------------------------------- the class

  /** What is on the disk: the staging file and the file it replaces. */
  class Disk {
    var staging: Option<Bytes>
    var destination: Option<Bytes>

    constructor (left: Option<Bytes>, file: Option<Bytes>)
      ensures staging == left && destination == file
    {
      staging, destination := left, file;
    }
  }

  class FileTransfer {
    const hash: Hash
    const plan: Plan
    const disk: Disk
    var confirmed: set<nat>

    function Value(): Transfer
      reads this, disk
    {
      Transfer(plan, disk.staging, confirmed)
    }

    predicate Valid()
      reads this, disk
    {
      ValidPlan(plan) && Confirmed(hash, Value())
    }

    /** Opens a transfer whose plan has been checked, keeping the chunks already staged. */
    constructor (h: Hash, p: Plan, d: Disk)
      requires ValidPlan(p)
      ensures Valid() && hash == h && plan == p && disk == d && Value() == Open(h, p, d.staging)
    {
      hash, plan, disk, confirmed := h, p, d, {};
      new;
      if d.staging.Some? {
        for index := 0 to |p.chunks|
          invariant confirmed == set i | 0 <= i < index && Holds(h, d.staging.value, p.chunks[i])
        {
          var chunk := p.chunks[index];
          if chunk.End() <= |d.staging.value| && h(d.staging.value[chunk.offset..chunk.End()]) == chunk.digest {
            confirmed := confirmed + {index};
          }
        }
      }
    }

    /** Refuses a chunk that is not the planned one; otherwise writes it in place. */
    method AcceptChunk(index: nat, bytes: Bytes) returns (ok: bool)
      requires Valid()
      modifies this, disk`staging
      ensures Valid() && ok == Acceptable(hash, plan, index, bytes)
      ensures Value() == Accept(hash, old(Value()), index, bytes)
    {
      AcceptKeeps(hash, Value(), index, bytes);
      if index >= |plan.chunks| || |bytes| != plan.chunks[index].size || hash(bytes) != plan.chunks[index].digest {
        return false;
      }
      if disk.staging.None? {
        disk.staging := Some([]);
      }
      disk.staging := Some(WriteAt(disk.staging.value, plan.chunks[index].offset, bytes));
      confirmed := confirmed + {index};
      ok := true;
    }

    method MissingChunks() returns (missing: seq<nat>)
      requires Valid()
      ensures forall i :: i in missing <==> 0 <= i < |plan.chunks| && i !in confirmed
    {
      missing := [];
      for index := 0 to |plan.chunks|
        invariant forall i :: i in missing <==> 0 <= i < index && i !in confirmed
      {
        if index !in confirmed {
          missing := missing + [index];
        }
      }
    }

    predicate IsComplete()
      reads this
    {
      |confirmed| == |plan.chunks|
    }

    /** Publishes the staging file, or refuses and changes nothing. */
    method Finalize() returns (ok: bool)
      requires Valid()
      modifies this, disk
      ensures ok == Publishable(hash, old(Value()))
      ensures ok ==> disk.destination == old(disk.staging) && disk.staging.None?
      ensures !ok ==> Valid() && Value() == old(Value()) && disk.destination == old(disk.destination)
    {
      if !IsComplete() || disk.staging.None? || |disk.staging.value| != plan.total ||
         hash(disk.staging.value) != plan.digest {
        return false;
      }
      disk.destination, disk.staging := disk.staging, None;
      ok := true;
    }
  }

  /** Accepts every missing chunk of the source. */
  method AcceptMissing(transfer: FileTransfer, source: Bytes)
    requires transfer.Valid() && Describes(transfer.hash, transfer.plan, source)
    modifies transfer, transfer.disk`staging
    ensures transfer.Valid() && Complete(transfer.Value())
    ensures var before, after := old(transfer.Value()).staging, transfer.Value().staging;
            after.Some? && |after.value| == Longer(|before.GetOr([])|, transfer.plan.total)
  {
    var missing := transfer.MissingChunks();
    var plan := transfer.plan;
    ghost var before := |transfer.disk.staging.GetOr([])|;
    for k := 0 to |plan.chunks|
      invariant transfer.Valid()
      invariant forall i | 0 <= i < |plan.chunks| :: i in transfer.confirmed <==> i !in missing || i < k
      invariant |transfer.disk.staging.GetOr([])| <= Longer(before, plan.total) &&
                before <= |transfer.disk.staging.GetOr([])|
    {
      var chunk := plan.chunks[k];
      LayoutAt(plan.chunks, 0, plan.total, k);
      if chunk.index in missing {
        var ok := transfer.AcceptChunk(chunk.index, source[chunk.offset..chunk.End()]);
      }
    }
    CompleteIsAll(transfer.hash, transfer.Value());
    LastIsStaged(transfer.hash, transfer.Value());
  }

  function Longer(a: nat, b: nat): nat { if a < b then b else a }

  /**
   Drives a transfer to its end. With a collision-free hash it succeeds exactly when whatever an
   earlier process left in the staging file is no longer than the source, and then the destination
   is the source; otherwise the destination is untouched.
   */
  method TransferFile(hash: Hash, source: Bytes, plan: Plan, disk: Disk) returns (ok: bool)
    requires ValidPlan(plan) && Describes(hash, plan, source) && CollisionFree(hash)
    modifies disk
    ensures ok <==> |old(disk.staging).GetOr([])| <= |source|
    ensures disk.destination == if ok then Some(source) else old(disk.destination)
  {
    var transfer := new FileTransfer(hash, plan, disk);
    if !transfer.IsComplete() {
      AcceptMissing(transfer, source);
    }
    CompletePublishesWhen(hash, transfer.Value(), source);
    CompleteHoldsSource(hash, transfer.Value(), source);
    ghost var staged := transfer.Value();
    ok := transfer.Finalize();
    if ok {
      PublishedIsSource(hash, staged, source);
    }
  }
}
