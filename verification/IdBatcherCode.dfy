/** The code of the id batcher. As in TailSamplerProcessor, the fields are always where a schedule of the state
    machine leads; the methods run their atomic regions in program order, with the filler goroutine scheduled where
    `Stop` waits for it. */
module IdBatcherCode {
  import opened IdBatcher

  datatype NewError = InvalidNumBatches | InvalidBatchChannelSize
  datatype Created = Created(batcher: Batcher) | Failed(error: NewError)

  class Batcher {
    const numBatches: nat
    const channelSize: nat
    var pendingIds: seq<Id>
    var batches: seq<Batch>
    var currentBatch: Batch
    var stopped: bool
    ghost var filler: Filler
    ghost var stopper: Stopper
    ghost var reader: Reader
    ghost var added: seq<Id>
    ghost var closed: seq<Batch>
    ghost var taken: seq<Batch>
    ghost var finals: seq<Batch>
    ghost const start: State
    ghost var history: seq<Event>

    ghost function View(): State
      reads this
    {
      State(numBatches, channelSize, pendingIds, batches, currentBatch, stopped, filler, stopper, reader,
            added, closed, taken, finals)
    }

    ghost predicate Valid()
      reads this
    {
      Initial(start) && Run(start, history) == Reached(View()) && start.numBatches == numBatches
    }

    constructor (numBatches: nat, batchChannelSize: nat)
      requires numBatches >= 1 && batchChannelSize >= 1
      ensures Valid() && Initial(View()) && history == []
      ensures this.numBatches == numBatches && channelSize == batchChannelSize
    {
      this.numBatches, channelSize := numBatches, batchChannelSize;
      pendingIds, batches, currentBatch, stopped := [], [], [], false;
      filler, stopper, reader := Ranging, Running, Outside;
      added, closed, taken, finals, history := [], [], [], [], [];
      start := State(numBatches, batchChannelSize, [], seq(numBatches, _ => []), [], false, Ranging, Running, Outside,
                     [], [], [], []);
      new;
      for i := 0 to numBatches
        invariant View() == start.(batches := seq(i, _ => [])) && history == []
      {
        batches := batches + [[]];
      }
    }

    static method New(numBatches: nat, batchChannelSize: nat) returns (r: Created)
      ensures r.Failed? <==> numBatches < 1 || batchChannelSize < 1
      ensures r.Failed? ==> r.error == if numBatches < 1 then InvalidNumBatches else InvalidBatchChannelSize
      ensures r.Created? ==> fresh(r.batcher) && r.batcher.Valid() && Initial(r.batcher.View())
                             && r.batcher.numBatches == numBatches && r.batcher.channelSize == batchChannelSize
    {
      if numBatches < 1 {
        return Failed(InvalidNumBatches);
      }
      if batchChannelSize < 1 {
        return Failed(InvalidBatchChannelSize);
      }
      var b := new Batcher(numBatches, batchChannelSize);
      r := Created(b);
    }

    ghost method Record(e: Event)
      requires Initial(start) && Run(start, history).Reached? && Enabled(Run(start, history).state, e)
      requires View() == Next(Run(start, history).state, e) && start.numBatches == numBatches
      modifies this`history
      ensures Valid() && history == old(history) + [e]
    {
      RunSnoc(start, history, e);
      history := history + [e];
    }

    lemma Sound()
      requires Valid()
      ensures Inv(View())
    {
      InitialInv(start);
      RunInv(start, history);
    }

    method AddToCurrentBatch(id: Id)
      requires Valid() && stopper.Running? && |pendingIds| < channelSize
      modifies this`pendingIds, this`added, this`history
      ensures Valid() && history == old(history) + [Add(id)]
      ensures added == old(added) + [id]
    {
      pendingIds := pendingIds + [id];
      added := added + [id];
      Record(Add(id));
    }

    /** One round of the filler goroutine: receive an id, and append it under the batch lock. */
    method Transfer()
      requires Valid() && filler.Ranging? && pendingIds != []
      modifies this`pendingIds, this`currentBatch, this`filler, this`history
      ensures Valid() && history == old(history) + [Receive, Append] && filler.Ranging?
      ensures pendingIds == old(pendingIds)[1..] && currentBatch == old(currentBatch) + [old(pendingIds)[0]]
    {
      var id := pendingIds[0];
      pendingIds := pendingIds[1..];
      filler := Moving(id);
      Record(Receive);
      currentBatch := currentBatch + [id];
      filler := Ranging;
      Record(Append);
    }

    /** The filler goroutine, until the channel is empty. */
    method Fill()
      requires Valid() && filler.Ranging?
      modifies this`pendingIds, this`currentBatch, this`filler, this`history
      ensures Valid() && old(history) <= history && filler.Ranging?
      ensures pendingIds == [] && currentBatch == old(currentBatch + pendingIds)
    {
      hide Valid, View;
      while pendingIds != []
        invariant Valid() && old(history) <= history && filler.Ranging?
        invariant currentBatch + pendingIds == old(currentBatch + pendingIds)
        decreases |pendingIds|
      {
        assert currentBatch + pendingIds == (currentBatch + [pendingIds[0]]) + pendingIds[1..];
        Transfer();
      }
    }

    method CloseCurrentAndTakeFirstBatch() returns (readBatch: Batch, ok: bool)
      requires Valid() && reader.Outside? && !stopper.Locked? && (batches != [] || stopper.Finished?)
      modifies this`batches, this`currentBatch, this`reader, this`closed, this`taken, this`finals,
        this`history
      ensures Valid() && old(history) <= history && reader.Outside?
      ensures ok == (old(batches) != [])
      ensures if ok then taken == old(taken) + [readBatch] && finals == old(finals)
              else finals == old(finals) + [readBatch] && taken == old(taken)
      ensures ok ==> readBatch == old(batches)[0]
      ensures ok && stopped ==> batches == old(batches)[1..] && currentBatch == old(currentBatch)
      ensures ok && !stopped ==> batches == old(batches)[1..] + [old(currentBatch)] && currentBatch == []
      ensures !ok ==> readBatch == old(currentBatch) && currentBatch == [] && batches == []
    {
      if batches != [] {
        readBatch := batches[0];
        ok := true;
        batches := batches[1..];
        reader := Took(readBatch);
        Record(TakeFirst);
        PushOrSkip(readBatch);
      } else {
        readBatch := currentBatch;
        ok := false;
        currentBatch := [];
        finals := finals + [readBatch];
        Record(TakeCurrent);
      }
    }

    /** The part of a take under stopLock.RLock(). */
    method PushOrSkip(ghost readBatch: Batch)
      requires Valid() && reader == Took(readBatch) && !stopper.Locked?
      modifies this`batches, this`currentBatch, this`reader, this`closed, this`taken, this`history
      ensures Valid() && old(history) <= history && reader.Outside? && taken == old(taken) + [readBatch]
      ensures if stopped then batches == old(batches) && currentBatch == old(currentBatch)
              else batches == old(batches) + [old(currentBatch)] && currentBatch == []
    {
      Sound();
      NeverPanicsNorBlocks(start, history);
      taken := taken + [readBatch];
      reader := Outside;
      if !stopped {
        batches := batches + [currentBatch];
        closed := closed + [currentBatch];
        currentBatch := [];
      }
      Record(PushCurrent);
    }

    /** Stop: close the id channel, take the lock, and let the filler finish. */
    method CloseIds()
      requires Valid() && stopper.Running? && filler.Ranging?
      modifies this`pendingIds, this`currentBatch, this`filler, this`stopper, this`history
      ensures Valid() && old(history) <= history && stopper.Locked? && filler.Ranging?
      ensures pendingIds == [] && currentBatch == old(currentBatch + pendingIds)
    {
      stopper := WantLock;
      Record(ClosePending);
      stopper := Locked;
      Record(AcquireLock);
      Fill();
    }

    /** Stop: wait for the filler's signal, release the lock, and close the batches channel. */
    method CloseBatchesChannel()
      requires Valid() && stopper.Locked? && filler.Signalling?
      modifies this`stopped, this`filler, this`stopper, this`history
      ensures Valid() && old(history) <= history && stopper.Finished? && stopped
    {
      stopped := true;
      filler := Ended;
      stopper := Released;
      Record(Handshake);
      stopper := Finished;
      Record(CloseBatches);
    }

    method Stop()
      requires Valid() && stopper.Running? && filler.Ranging?
      modifies this`pendingIds, this`currentBatch, this`stopped, this`filler, this`stopper, this`history
      ensures Valid() && old(history) <= history && stopper.Finished?
      ensures stopped && pendingIds == [] && currentBatch == old(currentBatch + pendingIds)
    {
      CloseIds();
      filler := Signalling;
      Record(EndOfIds);
      CloseBatchesChannel();
    }

    lemma AfterStop()
      requires Valid() && stopper.Finished?
      ensures stopped
      ensures finals != [] ==> Concat(taken) + Concat(finals) == added
    {
      Sound();
      if finals != [] {
        DrainReturnsEverything(start, history);
      }
    }

    /** All that takes have returned so far. */
    ghost function Returned(): seq<Id>
      reads this`taken, this`finals
    {
      Concat(taken) + Concat(finals)
    }

    static lemma ReturnedGrows(bs: seq<Batch>, b: Batch)
      ensures Concat(bs + [b]) + Concat([]) == Concat(bs) + Concat([]) + b
      ensures Concat(bs) + Concat([b]) == Concat(bs) + Concat([]) + b
    {
      ConcatSnoc(bs, b);
    }

    method TakeAfterStop() returns (batch: Batch, ok: bool)
      requires Valid() && stopper.Finished? && reader.Outside? && finals == []
      modifies this`batches, this`currentBatch, this`reader, this`closed, this`taken, this`finals,
        this`history
      ensures Valid() && reader.Outside? && Returned() == old(Returned()) + batch
      ensures if ok then finals == [] && |batches| < |old(batches)| else Returned() == added
    {
      hide View, Valid, Concat;
      AfterStop();
      batch, ok := CloseCurrentAndTakeFirstBatch();
      assert !ok ==> finals == [batch];
      ReturnedGrows(old(taken), batch);
      AfterStop();
    }

    /** What a client does after Stop: take until `false` is returned. It gets all that was added and not taken yet. */
    method Drain() returns (got: seq<Id>)
      requires Valid() && stopper.Finished? && reader.Outside? && finals == []
      modifies this`batches, this`currentBatch, this`reader, this`closed, this`taken, this`finals,
        this`history
      ensures Valid() && old(Returned()) + got == added
    {
      hide Valid, View, Returned;
      got := [];
      var batch, ok := [], true;
      assert Returned() == old(Returned()) + got;
      while ok
        invariant Valid() && reader.Outside? && Returned() == old(Returned()) + got
        invariant if ok then finals == [] else Returned() == added
        decreases ok, |batches|
      {
        batch, ok := TakeAfterStop();
        got := got + batch;
      }
    }
  }
}
