/**
 * BranchPredictor: a one-bit predictor. For every conditional branch (keyed by its program
 * counter) it remembers the last outcome, which is also the next prediction, how often the
 * branch was resolved and how often the prediction was right.
 */
module Branching {
  import opened JavaInt
  import opened Wrappers

  const NotTaken := false  // BRANCH_NOT_TAKEN
  const Taken := true      // BRANCH_TAKEN

  class BranchPredictor {
    var history: map<int, bool>        // branchHistoryTable
    var descriptor: map<int, string>   // branchDescriptorTable
    var count: map<int, int>           // branchCountTable
    var accuracy: map<int, int>        // branchAccuracyTable

    /** The tables setBranchDescriptor fills together, with accuracy never above count. */
    ghost predicate Valid()
      reads this
    {
      count.Keys == accuracy.Keys &&
      forall pc :: pc in count ==> 0 <= accuracy[pc] <= count[pc] <= IntMax
    }

    constructor ()
      ensures Valid()
      ensures history == map[] && descriptor == map[] && count == map[] && accuracy == map[]
    {
      history := map[];
      descriptor := map[];
      count := map[];
      accuracy := map[];
    }

    /** branchTaken: the branch at pc was taken. The prediction was right, and the accuracy
        grows, exactly when the history said taken; the count grows and the history then
        says taken. Unboxing a missing entry throws; the counters are Java ints and wrap. */
    method BranchTaken(pc: int) returns (r: Result<()>)
      requires Valid()
      modifies this
      ensures descriptor == old(descriptor)
      ensures r.Ok? <==> pc in old(history) && pc in old(count)
      ensures r.Ok? ==>
        history == old(history)[pc := Taken] &&
        count == old(count)[pc := ToInt32(old(count[pc]) + 1)] &&
        accuracy == if old(history[pc]) == Taken then old(accuracy)[pc := ToInt32(old(accuracy[pc]) + 1)]
                    else old(accuracy)
      ensures r.Ok? && old(count[pc]) < IntMax ==> Valid()
      ensures r.Err? ==> r.error == NullPointerException && Valid() &&
                         history == old(history) && count == old(count) && accuracy == old(accuracy)
    {
      if pc !in history {
        return Err(NullPointerException);
      }
      if history[pc] == Taken {
        if pc !in accuracy {
          return Err(NullPointerException);
        }
        var accurateCount := accuracy[pc];
        accuracy := accuracy[pc := ToInt32(accurateCount + 1)];
      }
      if pc !in count {
        return Err(NullPointerException);
      }
      var branches := count[pc];
      count := count[pc := ToInt32(branches + 1)];
      history := history[pc := Taken];
      return Ok(());
    }

    /** branchNotTaken: the branch at pc fell through; the mirror image of BranchTaken. */
    method BranchNotTaken(pc: int) returns (r: Result<()>)
      requires Valid()
      modifies this
      ensures descriptor == old(descriptor)
      ensures r.Ok? <==> pc in old(history) && pc in old(count)
      ensures r.Ok? ==>
        history == old(history)[pc := NotTaken] &&
        count == old(count)[pc := ToInt32(old(count[pc]) + 1)] &&
        accuracy == if old(history[pc]) == NotTaken then old(accuracy)[pc := ToInt32(old(accuracy[pc]) + 1)]
                    else old(accuracy)
      ensures r.Ok? && old(count[pc]) < IntMax ==> Valid()
      ensures r.Err? ==> r.error == NullPointerException && Valid() &&
                         history == old(history) && count == old(count) && accuracy == old(accuracy)
    {
      if pc !in history {
        return Err(NullPointerException);
      }
      if history[pc] == NotTaken {
        if pc !in accuracy {
          return Err(NullPointerException);
        }
        var accurateCount := accuracy[pc];
        accuracy := accuracy[pc := ToInt32(accurateCount + 1)];
      }
      if pc !in count {
        return Err(NullPointerException);
      }
      var branches := count[pc];
      count := count[pc := ToInt32(branches + 1)];
      history := history[pc := NotTaken];
      return Ok(());
    }

    /** setBranchDescriptor: record the descriptor, and start the count and the accuracy at
        0 unless they already exist. */
    method SetBranchDescriptor(pc: int, d: string)
      requires Valid()
      modifies this
      ensures Valid() && history == old(history)
      ensures descriptor == old(descriptor)[pc := d]
      ensures count == if pc in old(count) then old(count) else old(count)[pc := 0]
      ensures accuracy == if pc in old(accuracy) then old(accuracy) else old(accuracy)[pc := 0]
    {
      descriptor := descriptor[pc := d];
      if pc !in count {
        count := count[pc := 0];
      }
      if pc !in accuracy {
        accuracy := accuracy[pc := 0];
      }
    }

    /** setInitialStatus: predict "taken" for a branch that has no prediction yet. */
    method SetInitialStatus(pc: int)
      requires Valid()
      modifies this
      ensures Valid() && descriptor == old(descriptor) && count == old(count) && accuracy == old(accuracy)
      ensures history == if pc in old(history) then old(history) else old(history)[pc := Taken]
    {
      if pc !in history {
        history := history[pc := Taken];
      }
    }

    /** The pair of calls the memory scan makes for each conditional jump it finds: describe
        it, then set its first prediction. Registering a branch again with the same
        descriptor changes nothing. */
    method Register(pc: int, d: string)
      requires Valid()
      modifies this
      ensures Valid() && pc in history && pc in count && pc in accuracy
      ensures descriptor == old(descriptor)[pc := d]
      ensures pc !in old(history) ==> history[pc] == Taken
      ensures old(pc in history && pc in count && pc in descriptor && descriptor[pc] == d) ==>
        history == old(history) && count == old(count) && accuracy == old(accuracy) &&
        descriptor == old(descriptor)
      ensures forall q :: q != pc ==>
        (q in history <==> q in old(history)) && (q in history ==> history[q] == old(history[q])) &&
        (q in count <==> q in old(count)) && (q in count ==> count[q] == old(count[q])) &&
        (q in accuracy <==> q in old(accuracy)) && (q in accuracy ==> accuracy[q] == old(accuracy[q]))
    {
      SetBranchDescriptor(pc, d);
      SetInitialStatus(pc);
    }
  }
}
