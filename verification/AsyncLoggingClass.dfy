/** The logger as an object that hands buffers around
    (muduo/base/AsyncLogging.cc). Each method is one atomic part and takes the
    step of AsyncLogging.dfy it stands for; in all of them every buffer has one
    owner. Buffers are named by numbers, `store` has their texts. */
module AsyncLoggingClass {
  import opened Wrappers
  import Spec = AsyncLoggings
  import opened AsyncLoggings
  import opened Chunks

  type BufferId = nat

  /** An owning pointer as the buffers it owns. */
  function Owned(p: Option<BufferId>): seq<BufferId> {
    if p.None? then [] else [p.value]
  }

  function Texts(store: map<BufferId, string>, ids: seq<BufferId>): seq<string>
    requires forall id :: id in ids ==> id in store
  {
    seq(|ids|, i requires 0 <= i < |ids| => store[ids[i]])
  }

  lemma TextsAgree(store: map<BufferId, string>, store': map<BufferId, string>, ids: seq<BufferId>)
    requires forall id :: id in ids ==> id in store && id in store' && store[id] == store'[id]
    ensures Texts(store, ids) == Texts(store', ids)
  {
  }

  lemma TextsAppend(store: map<BufferId, string>, ids: seq<BufferId>, id: BufferId)
    requires (forall i :: i in ids ==> i in store) && id in store
    ensures forall i :: i in ids + [id] ==> i in store
    ensures Texts(store, ids + [id]) == Texts(store, ids) + [store[id]]
  {
  }

  function PoolOf(
    current: BufferId, next: Option<BufferId>, buffers: seq<BufferId>,
    spare1: Option<BufferId>, spare2: Option<BufferId>, batch: seq<BufferId>): multiset<BufferId>
  {
    multiset{current} + multiset(Owned(next)) + multiset(buffers)
    + multiset(Owned(spare1)) + multiset(Owned(spare2)) + multiset(batch)
  }

  /** Handing the next buffer, or a new one, to the front end. */
  lemma PoolNext(
    c: BufferId, n: BufferId, bs: seq<BufferId>, s1: Option<BufferId>, s2: Option<BufferId>, batch: seq<BufferId>)
    ensures PoolOf(n, None, bs + [c], s1, s2, batch) == PoolOf(c, Some(n), bs, s1, s2, batch)
    ensures PoolOf(n, None, bs + [c], s1, s2, batch) == PoolOf(c, None, bs, s1, s2, batch) + multiset{n}
  {
  }

  lemma PoolSwap(c: BufferId, n: Option<BufferId>, bs: seq<BufferId>, s1: BufferId, s2: Option<BufferId>)
    ensures PoolOf(s1, n, [], None, s2, bs + [c]) == PoolOf(c, n, bs, Some(s1), s2, [])
    ensures PoolOf(s1, s2, [], None, None, bs + [c]) == PoolOf(c, None, bs, Some(s1), s2, [])
  {
  }

  /** What one owner each means for the parts. */
  lemma PoolApart(
    c: BufferId, n: Option<BufferId>, bs: seq<BufferId>, s1: Option<BufferId>, s2: Option<BufferId>,
    batch: seq<BufferId>)
    requires Once(PoolOf(c, n, bs, s1, s2, batch))
    ensures c !in bs && c !in batch && n != Some(c) && s1 != Some(c) && s2 != Some(c)
  {
    var pool := PoolOf(c, n, bs, s1, s2, batch);
    assert c in pool;
    assert forall id :: id in bs ==> multiset(bs)[id] >= 1;
    assert forall id :: id in batch ==> multiset(batch)[id] >= 1;
    assert n == Some(c) ==> multiset(Owned(n))[c] == 1;
    assert s1 == Some(c) ==> multiset(Owned(s1))[c] == 1;
    assert s2 == Some(c) ==> multiset(Owned(s2))[c] == 1;
  }

  /** A buffer that nobody owned joins the pool. */
  lemma OnceMore(pool: multiset<BufferId>, id: BufferId)
    requires Once(pool) && id !in pool
    ensures Once(pool + multiset{id})
  {
  }

  /** No buffer has two owners. */
  predicate Once(pool: multiset<BufferId>) {
    forall id :: id in pool ==> pool[id] == 1
  }

  class AsyncLogging {
    var store: map<BufferId, string>

    // under the mutex
    var currentBuffer: BufferId
    var nextBuffer: Option<BufferId>
    var buffers: seq<BufferId>
    // the writing thread's own
    var newBuffer1: Option<BufferId>
    var newBuffer2: Option<BufferId>
    var buffersToWrite: seq<BufferId>

    // what `output` received, and what was dropped
    ghost var file: seq<Piece>
    ghost var phase: Phase
    ghost var appended: string

    ghost function Pool(): multiset<BufferId>
      reads this
    {
      PoolOf(currentBuffer, nextBuffer, buffers, newBuffer1, newBuffer2, buffersToWrite)
    }

    ghost predicate IsEmpty(p: Option<BufferId>)
      reads this
    {
      p.Some? ==> p.value in store && store[p.value] == ""
    }

    ghost predicate Stored(ids: seq<BufferId>)
      reads this
    {
      forall id :: id in ids ==> id in store
    }

    /** Every buffer has one owner, spare and next buffers are empty. */
    ghost predicate Usable()
      reads this
    {
      && Once(Pool())
      && currentBuffer in store && Stored(buffers) && Stored(buffersToWrite)
      && IsEmpty(nextBuffer) && IsEmpty(newBuffer1) && IsEmpty(newBuffer2)
    }

    ghost function State(): Logger
      requires Usable()
      reads this
    {
      Logger(store[currentBuffer], nextBuffer.Some?, Texts(store, buffers), newBuffer1.Some?, newBuffer2.Some?,
             Texts(store, buffersToWrite), phase, file, appended)
    }

    ghost predicate Valid()
      reads this
    {
      Usable() && Inv(State())
    }

    constructor ()
      ensures Valid() && State() == STARTED
    {
      hide Once, PoolOf, Texts, Inv;
      store := map[0 := "", 1 := "", 2 := "", 3 := ""];
      currentBuffer, nextBuffer, buffers := 0, Some(1), [];
      newBuffer1, newBuffer2, buffersToWrite := Some(2), Some(3), [];
      phase, file, appended := AtHead, [], "";
      new;
      PoolStarts();
      NothingStored(store);
      StartedInv();
    }

    lemma Apart()
      requires Once(Pool())
      ensures currentBuffer !in buffers && currentBuffer !in buffersToWrite
      ensures nextBuffer != Some(currentBuffer)
      ensures newBuffer1 != Some(currentBuffer) && newBuffer2 != Some(currentBuffer)
    {
      PoolApart(currentBuffer, nextBuffer, buffers, newBuffer1, newBuffer2, buffersToWrite);
    }

    /** Owned buffers are in the store. */
    lemma OwnedIsStored(id: BufferId)
      requires Usable() && id !in store
      ensures id !in Pool()
    {
    }

    /** A buffer that is given text in place. */
    method PutLine(line: string)
      requires currentBuffer in store && currentBuffer !in buffers && currentBuffer !in buffersToWrite
      requires Stored(buffers) && Stored(buffersToWrite)
      modifies this`store
      ensures store == old(store)[currentBuffer := Put(old(store)[currentBuffer], line)]
      ensures Stored(buffers) && Stored(buffersToWrite)
      ensures Texts(store, buffers) == Texts(old(store), buffers)
      ensures Texts(store, buffersToWrite) == Texts(old(store), buffersToWrite)
    {
      store := store[currentBuffer := Put(store[currentBuffer], line)];
      TextsAgree(old(store), store, buffers);
      TextsAgree(old(store), store, buffersToWrite);
    }

    /** The full buffer goes to `buffers`, the next or a new one takes its place;
        `id` is where the allocator would put a new one. */
    method NextBuffer(id: BufferId)
      requires Usable() && id !in store
      modifies this`store, this`currentBuffer, this`nextBuffer, this`buffers
      ensures Usable()
      ensures State() == old(State()).(buffers := old(State()).buffers + [old(State()).current],
                                       hasNext := false, current := "")
    {
      hide Once, PoolOf, Texts;
      Apart();
      OwnedIsStored(id);
      OnceMore(Pool(), id);
      PoolNext(currentBuffer, if nextBuffer.Some? then nextBuffer.value else id, buffers,
               newBuffer1, newBuffer2, buffersToWrite);
      TextsAppend(store, buffers, currentBuffer);
      buffers := buffers + [currentBuffer];
      if nextBuffer.Some? {
        currentBuffer := nextBuffer.value;
        nextBuffer := None;
      } else {
        currentBuffer := id;
        store := store[id := ""];
      }
      TextsAgree(old(store), store, buffers);
      TextsAgree(old(store), store, buffersToWrite);
    }

    method Append(line: string, id: BufferId)
      requires Valid() && id !in store
      modifies this
      ensures Valid() && State() == Spec.Append(old(State()), line)
    {
      hide Inv, Once, PoolOf, Texts;
      StepKeeps(State(), AppendStep(line));
      Apart();
      if CAPACITY - |store[currentBuffer]| > |line| {
        PutLine(line);
      } else {
        NextBuffer(id);
        Apart();
        PutLine(line);
      }
      appended := appended + if |line| < CAPACITY then line else "";
    }

    /** The critical section at the loop head. Waiting there only lets other
        threads append first. */
    method SwapBuffers()
      requires Valid() && phase == AtHead
      modifies this
      ensures Valid() && State() == Spec.Swap(old(State()))
      ensures Pool() == old(Pool())
    {
      hide Inv, Once, PoolOf, Texts;
      StepKeeps(State(), SwapStep);
      HeadIsSupplied(State());
      BatchIsEmpty(store, buffersToWrite);
      PoolSwap(currentBuffer, nextBuffer, buffers, newBuffer1.value, newBuffer2);
      TextsAppend(store, buffers, currentBuffer);
      buffers := buffers + [currentBuffer];
      currentBuffer := newBuffer1.value;
      newBuffer1 := None;
      buffersToWrite, buffers := buffers, buffersToWrite;
      if nextBuffer.None? {
        nextBuffer := newBuffer2;
        newBuffer2 := None;
      }
      phase := Writing;
    }

    /** `output.append` for every buffer of the batch. */
    method OutputAll()
      requires Stored(buffersToWrite)
      modifies this`file
      ensures file == old(file) + Pieces(Texts(store, buffersToWrite))
    {
      ghost var texts := Texts(store, buffersToWrite);
      for i := 0 to |buffersToWrite|
        invariant file == old(file) + Pieces(texts[..i])
      {
        assert Pieces(texts[..i + 1]) == Pieces(texts[..i]) + [Written(texts[i])];
        file := file + [Written(store[buffersToWrite[i]])];
      }
      assert texts[..|buffersToWrite|] == texts;
    }

    /** The last buffer of the batch, emptied, becomes the first spare. */
    method RefillFirst()
      requires Usable() && newBuffer1.None? && buffersToWrite != []
      modifies this`store, this`newBuffer1, this`buffersToWrite
      ensures Usable() && Pool() == old(Pool())
      ensures newBuffer1.Some? && buffersToWrite == old(buffersToWrite)[..|old(buffersToWrite)| - 1]
      ensures store[currentBuffer] == old(store)[currentBuffer]
      ensures Texts(store, buffers) == Texts(old(store), buffers)
    {
      hide Once, PoolOf, Texts;
      var n := |buffersToWrite| - 1;
      var last := buffersToWrite[n];
      assert buffersToWrite == buffersToWrite[..n] + [last];
      PoolFirst(currentBuffer, nextBuffer, buffers, newBuffer2, buffersToWrite[..n], last);
      FirstApart(currentBuffer, nextBuffer, buffers, last, newBuffer2, buffersToWrite[..n]);
      newBuffer1 := Some(last);
      buffersToWrite := buffersToWrite[..n];
      store := store[last := ""];
      TextsAgree(old(store), store, buffers);
    }

    /** The same for the second spare. */
    method RefillSecond()
      requires Usable() && newBuffer2.None? && buffersToWrite != []
      modifies this`store, this`newBuffer2, this`buffersToWrite
      ensures Usable() && Pool() == old(Pool())
      ensures newBuffer2.Some? && buffersToWrite == old(buffersToWrite)[..|old(buffersToWrite)| - 1]
      ensures store[currentBuffer] == old(store)[currentBuffer]
      ensures Texts(store, buffers) == Texts(old(store), buffers)
    {
      hide Once, PoolOf, Texts;
      var n := |buffersToWrite| - 1;
      var last := buffersToWrite[n];
      assert buffersToWrite == buffersToWrite[..n] + [last];
      PoolSecond(currentBuffer, nextBuffer, buffers, newBuffer1, buffersToWrite[..n], last);
      SecondApart(currentBuffer, nextBuffer, buffers, newBuffer1, last, buffersToWrite[..n]);
      newBuffer2 := Some(last);
      buffersToWrite := buffersToWrite[..n];
      store := store[last := ""];
      TextsAgree(old(store), store, buffers);
    }

    /** Buffers of the batch after the first `n` are freed. */
    method Resize(n: nat)
      requires Usable() && n <= |buffersToWrite|
      modifies this`buffersToWrite
      ensures Usable() && Pool() <= old(Pool())
      ensures buffersToWrite == old(buffersToWrite)[..n]
    {
      hide Once, PoolOf, Texts;
      PoolCut(currentBuffer, nextBuffer, buffers, newBuffer1, newBuffer2, buffersToWrite, n);
      buffersToWrite := buffersToWrite[..n];
    }

    /** The end of the loop body: at most two buffers of the batch are kept, as
        the spares that are missing; the others are freed. */
    method Recycle()
      requires Usable() && newBuffer1.None? && buffersToWrite != [] && (newBuffer2.None? ==> |buffersToWrite| >= 2)
      modifies this`store, this`newBuffer1, this`newBuffer2, this`buffersToWrite
      ensures Usable() && newBuffer1.Some? && newBuffer2.Some? && buffersToWrite == []
      ensures Pool() <= old(Pool())
      ensures store[currentBuffer] == old(store)[currentBuffer]
      ensures Texts(store, buffers) == Texts(old(store), buffers)
    {
      hide Usable, Once, PoolOf, Texts;
      if |buffersToWrite| > 2 {
        Resize(2);
      }
      if newBuffer1.None? {
        RefillFirst();
      }
      if newBuffer2.None? {
        RefillSecond();
      }
      Resize(0);
    }

    method WriteBatch()
      requires Valid() && phase == Writing
      modifies this
      ensures Valid() && State() == Spec.Write(old(State()))
      ensures Pool() <= old(Pool())
    {
      hide Inv, Once, PoolOf, Texts, Output;
      ghost var l := State();
      StepKeeps(l, WriteStep);
      BatchIsSupplied(l);
      OutputWhole(l.file, l.batch);
      ghost var lost := [];
      TextsCut(store, buffersToWrite);
      TextsLength(store, buffersToWrite);
      if |buffersToWrite| > 25 {
        file := file + [Notice(|buffersToWrite| - 2)];
        lost := [Lost(Concat(l.batch[2..]))];
        Resize(2);
      }
      OutputAll();
      file := file + lost;
      Recycle();
      phase := AtHead;
      NothingStored(store);
    }
  }

  /** The pieces of a batch one after another behind what is in the file. */
  lemma OutputWhole(file: seq<Piece>, batch: seq<string>)
    ensures |batch| > MAX_BATCH ==>
              file + Output(batch) == file + [Notice(|batch| - 2)] + Pieces(batch[..2]) + [Lost(Concat(batch[2..]))]
    ensures |batch| <= MAX_BATCH ==> file + Output(batch) == file + Pieces(batch) + []
  {
  }

  lemma PoolStarts()
    ensures Once(PoolOf(0, Some(1), [], Some(2), Some(3), []))
  {
    assert PoolOf(0, Some(1), [], Some(2), Some(3), []) == multiset{0, 1, 2, 3};
  }

  lemma BatchIsEmpty(store: map<BufferId, string>, ids: seq<BufferId>)
    requires (forall id :: id in ids ==> id in store) && Texts(store, ids) == []
    ensures ids == []
  {
  }

  lemma HeadIsSupplied(l: Logger)
    requires Inv(l) && l.phase == AtHead
    ensures l.spare1 && l.spare2 && l.batch == []
  {
  }

  lemma BatchIsSupplied(l: Logger)
    requires Inv(l) && l.phase == Writing
    ensures !l.spare1 && l.batch != [] && (!l.spare2 ==> |l.batch| >= 2)
  {
  }

  lemma TextsLength(store: map<BufferId, string>, ids: seq<BufferId>)
    requires forall id :: id in ids ==> id in store
    ensures |Texts(store, ids)| == |ids|
  {
  }

  lemma TextsCut(store: map<BufferId, string>, ids: seq<BufferId>)
    requires forall id :: id in ids ==> id in store
    ensures |ids| >= 2 ==> (forall id :: id in ids[..2] ==> id in store)
    ensures |ids| >= 2 ==> |Texts(store, ids)| >= 2 && Texts(store, ids[..2]) == Texts(store, ids)[..2]
  {
  }

  lemma NothingStored(store: map<BufferId, string>)
    ensures Texts(store, []) == []
  {
  }

  lemma CutMultiset(ids: seq<BufferId>, n: nat)
    requires n <= |ids|
    ensures multiset(ids[..n]) + multiset(ids[n..]) == multiset(ids)
  {
    assert ids[..n] + ids[n..] == ids;
  }

  /** Freeing all but the first `k` buffers of a batch. */
  lemma PoolCut(
    c: BufferId, n: Option<BufferId>, bs: seq<BufferId>, s1: Option<BufferId>, s2: Option<BufferId>,
    batch: seq<BufferId>, k: nat)
    requires k <= |batch|
    ensures PoolOf(c, n, bs, s1, s2, batch[..k]) <= PoolOf(c, n, bs, s1, s2, batch)
    ensures Once(PoolOf(c, n, bs, s1, s2, batch)) ==> Once(PoolOf(c, n, bs, s1, s2, batch[..k]))
  {
    hide Once;
    CutMultiset(batch, k);
    SmallerOnce(PoolOf(c, n, bs, s1, s2, batch[..k]), PoolOf(c, n, bs, s1, s2, batch));
  }

  lemma SmallerOnce(small: multiset<BufferId>, pool: multiset<BufferId>)
    requires small <= pool
    ensures Once(pool) ==> Once(small)
  {
    if Once(pool) {
      forall id | id in small
        ensures small[id] == 1
      {
        assert id in pool && small[id] <= pool[id];
      }
    }
  }

  /** From the batch to the spares. */
  lemma PoolFirst(
    c: BufferId, n: Option<BufferId>, bs: seq<BufferId>, s2: Option<BufferId>, batch: seq<BufferId>, last: BufferId)
    ensures PoolOf(c, n, bs, Some(last), s2, batch) == PoolOf(c, n, bs, None, s2, batch + [last])
  {
  }

  lemma PoolSecond(
    c: BufferId, n: Option<BufferId>, bs: seq<BufferId>, s1: Option<BufferId>, batch: seq<BufferId>, last: BufferId)
    ensures PoolOf(c, n, bs, s1, Some(last), batch) == PoolOf(c, n, bs, s1, None, batch + [last])
  {
  }

  lemma FirstApart(
    c: BufferId, n: Option<BufferId>, bs: seq<BufferId>, a: BufferId, s2: Option<BufferId>, batch: seq<BufferId>)
    requires Once(PoolOf(c, n, bs, Some(a), s2, batch))
    ensures a != c && n != Some(a) && a !in bs && s2 != Some(a) && a !in batch
  {
    var pool := PoolOf(c, n, bs, Some(a), s2, batch);
    assert multiset(Owned(Some(a)))[a] == 1;
    assert a in pool;
    assert a in bs ==> multiset(bs)[a] >= 1;
    assert a in batch ==> multiset(batch)[a] >= 1;
    assert n == Some(a) ==> multiset(Owned(n))[a] == 1;
    assert s2 == Some(a) ==> multiset(Owned(s2))[a] == 1;
  }

  lemma SecondApart(
    c: BufferId, n: Option<BufferId>, bs: seq<BufferId>, s1: Option<BufferId>, b: BufferId, batch: seq<BufferId>)
    requires Once(PoolOf(c, n, bs, s1, Some(b), batch))
    ensures b != c && n != Some(b) && b !in bs && s1 != Some(b) && b !in batch
  {
    assert PoolOf(c, n, bs, s1, Some(b), batch) == PoolOf(c, n, bs, Some(b), s1, batch);
    FirstApart(c, n, bs, b, s1, batch);
  }
}
