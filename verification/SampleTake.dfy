/** Taking one sample from a reader. The FFI call pops the sample before it looks at its
    size, so a sample that does not fit the caller's buffer is gone; the caller then
    grows the buffer to that size and asks again. */
module SampleTake {
  import opened Common
  import opened Bytes

  type Sample = seq<Byte>

  datatype Status = HddsOk | NotFound | OutOfMemory | OperationFailed

  class Reader {
    var queue: seq<Sample>

    constructor (samples: seq<Sample>)
      ensures queue == samples
    {
      queue := samples;
    }

    /** `hdds_reader_take`; `fails` is the reader's own error. */
    method Take(buffer: array<Byte>, maxLen: nat, fails: bool) returns (status: Status, len: nat)
      requires maxLen <= buffer.Length
      modifies this, buffer
      ensures fails ==> status == OperationFailed && queue == old(queue)
      ensures !fails && old(queue) == [] ==> status == NotFound && queue == []
      ensures !fails && old(queue) != [] ==>
                && queue == old(queue)[1..]
                && len == |old(queue)[0]|
                && (len > maxLen ==> status == OutOfMemory)
                && (len <= maxLen ==> status == HddsOk && buffer[..len] == old(queue)[0])
    {
      len := 0;
      if fails {
        return OperationFailed, len;
      }
      if queue == [] {
        return NotFound, len;
      }
      var payload := queue[0];
      queue := queue[1..];
      len := |payload|;
      if len > maxLen {
        return OutOfMemory, len;
      }
      for i := 0 to len
        invariant queue == old(queue)[1..]
        invariant buffer[..i] == payload[..i]
      {
        buffer[i] := payload[i];
        assert buffer[..i + 1] == buffer[..i] + [payload[i]];
      }
      return HddsOk, len;
    }
  }

  // ----------------------------------------------------------- specification

  /** The sample the retry loop delivers when it starts with room for `cap` bytes. */
  function DeliverIndex(q: seq<Sample>, cap: nat): (r: Option<nat>)
    ensures r.Some? ==> r.value < |q|
  {
    if q == [] then None
    else if |q[0]| <= cap then Some(0)
    else match DeliverIndex(q[1..], |q[0]|)
      case Some(k) => Some(k + 1)
      case None => None
  }

  /** Sample k is no longer than the initial buffer or some sample before it. */
  predicate Fits(q: seq<Sample>, cap: nat, k: nat)
    requires k < |q|
  {
    |q[k]| <= cap || exists j :: 0 <= j < k && |q[k]| <= |q[j]|
  }

  /** Once the first sample was too long, the rest is judged against its length. */
  lemma FitsTail(q: seq<Sample>, cap: nat, k: nat)
    requires 0 < k < |q| && |q[0]| > cap
    ensures Fits(q, cap, k) <==> Fits(q[1..], |q[0]|, k - 1)
  {
    if j :| 0 <= j < k && |q[k]| <= |q[j]| {
      if j > 0 { assert q[1..][j - 1] == q[j]; }
    }
    if j :| 0 <= j < k - 1 && |q[1..][k - 1]| <= |q[1..][j]| {
      assert q[j + 1] == q[1..][j];
    }
  }

  /** Sample k is the first that fits. */
  ghost predicate IsFirst(q: seq<Sample>, cap: nat, k: nat) {
    k < |q| && Fits(q, cap, k) && forall j :: 0 <= j < k ==> !Fits(q, cap, j)
  }

  lemma IsFirstTail(q: seq<Sample>, cap: nat, k: nat)
    requires 0 < k < |q| && |q[0]| > cap
    ensures IsFirst(q, cap, k) <==> IsFirst(q[1..], |q[0]|, k - 1)
  {
    var tail, cap' := q[1..], |q[0]|;
    FitsTail(q, cap, k);
    if IsFirst(q, cap, k) {
      forall j | 0 <= j < k - 1 ensures !Fits(tail, cap', j) {
        FitsTail(q, cap, j + 1);
        assert !Fits(q, cap, j + 1);
      }
    }
    if IsFirst(tail, cap', k - 1) {
      forall j | 0 <= j < k ensures !Fits(q, cap, j) {
        if j > 0 {
          FitsTail(q, cap, j);
          assert !Fits(tail, cap', j - 1);
        }
      }
    }
  }

  lemma {:induction false} DeliverIs(q: seq<Sample>, cap: nat, k: nat)
    ensures DeliverIndex(q, cap) == Some(k) <==> IsFirst(q, cap, k)
    decreases |q|
  {
    if q != [] {
      if |q[0]| <= cap {
        assert Fits(q, cap, 0);
      } else {
        assert !Fits(q, cap, 0);
        if 0 < k < |q| {
          DeliverIs(q[1..], |q[0]|, k - 1);
          IsFirstTail(q, cap, k);
        }
      }
    }
  }

  /** The loop delivers exactly the first sample no longer than the initial buffer or
      some earlier sample, and nothing only when there is no such sample. Hence the
      skipped samples are exactly those before it, each longer than all before. */
  lemma DeliverIndexIff(q: seq<Sample>, cap: nat)
    ensures forall k: nat :: DeliverIndex(q, cap) == Some(k) <==> IsFirst(q, cap, k)
    ensures DeliverIndex(q, cap) == None <==> forall k :: 0 <= k < |q| ==> !Fits(q, cap, k)
  {
    forall k: nat ensures DeliverIndex(q, cap) == Some(k) <==> IsFirst(q, cap, k) { DeliverIs(q, cap, k); }
    if DeliverIndex(q, cap) == None {
      NoFirst(q, cap, |q|);
    }
  }

  lemma {:induction false} NoFirst(q: seq<Sample>, cap: nat, n: nat)
    requires n <= |q| && forall k: nat :: !IsFirst(q, cap, k)
    ensures forall k :: 0 <= k < n ==> !Fits(q, cap, k)
  {
    if n > 0 {
      NoFirst(q, cap, n - 1);
      assert !IsFirst(q, cap, n - 1);
    }
  }

  // ------------------------------------------------------------ the C loop

  /** The first k samples are all too long to be delivered. */
  ghost predicate Skipped(q: seq<Sample>, initial: nat, k: nat) {
    k <= |q| && forall j :: 0 <= j < k ==> !Fits(q, initial, j)
  }

  /** After i pops the loop still has to deliver what the whole queue prescribes. */
  ghost predicate Searching(q: seq<Sample>, initial: nat, i: nat, capacity: nat) {
    && Skipped(q, initial, i)
    && DeliverIndex(q, initial) ==
       match DeliverIndex(q[i..], capacity) case Some(k) => Some(i + k) case None => None
  }

  lemma SearchStep(q: seq<Sample>, initial: nat, i: nat, capacity: nat)
    requires i < |q| && Searching(q, initial, i, capacity)
    ensures q[i..][0] == q[i] && q[i..][1..] == q[i + 1..]
    ensures |q[i]| <= capacity ==> DeliverIndex(q, initial) == Some(i)
    ensures |q[i]| > capacity ==> Searching(q, initial, i + 1, |q[i]|)
  {
    assert q[i..][0] == q[i] && q[i..][1..] == q[i + 1..];
    if |q[i]| > capacity {
      DeliverIndexIff(q, initial);
      var d := DeliverIndex(q, initial);
      assert d.Some? ==> d.value > i;
    }
  }

  /** Outcomes the loop cannot control: the first buffer, and reader errors and buffer growth
      per iteration. */
  datatype Oracle = Oracle(firstFails: bool, takeFails: nat -> bool, growFails: nat -> bool)

  ghost predicate NoFailure(o: Oracle) { !o.firstFails && forall i :: !o.takeFails(i) && !o.growFails(i) }

  /** The loop ended early, after popping k samples that were all too long, because just then
      the allocator or the reader failed. */
  ghost predicate Interrupted(o: Oracle, before: seq<Sample>, after: seq<Sample>, initial: nat) {
    exists k: nat :: Skipped(before, initial, k) && after == before[k..] && FailsAfter(o, k)
  }

  predicate FailsAfter(o: Oracle, k: nat) {
    if o.firstFails then k == 0 else o.takeFails(k) || (k > 0 && o.growFails(k - 1))
  }

  datatype Outcome = Taken(data: Sample) | Empty | NoMemory | Failed

  /** The buffer loop shared by `rmw_take`, `rmw_take_serialized_message`,
      `rmw_take_request` and `rmw_take_response`; the latter two start with more room.
      Only an error of the reader or of the allocator ends it early, and then it has
      consumed nothing but samples that were too long. */
  method TakeGrowing(reader: Reader, initial: nat, o: Oracle) returns (r: Outcome)
    modifies reader
    ensures r.Taken? ==>
              var k := DeliverIndex(old(reader.queue), initial);
              k.Some? && r.data == old(reader.queue)[k.value] && reader.queue == old(reader.queue)[k.value + 1..]
    ensures r.Empty? ==> DeliverIndex(old(reader.queue), initial) == None && reader.queue == []
    ensures r.NoMemory? || r.Failed? ==> Interrupted(o, old(reader.queue), reader.queue, initial)
  {
    ghost var q := reader.queue;
    if o.firstFails {
      assert Skipped(q, initial, 0) && q == q[0..] && FailsAfter(o, 0);
      return NoMemory;
    }
    var buffer := new Byte[initial](_ => 0);
    var capacity := initial;
    var i: nat := 0;
    assert q[0..] == q;
    while true
      invariant Searching(q, initial, i, capacity) && reader.queue == q[i..]
      invariant fresh(buffer) && buffer.Length == capacity
      decreases |q| - i
    {
      if i < |q| { SearchStep(q, initial, i, capacity); }
      var status, len := reader.Take(buffer, capacity, o.takeFails(i));
      match status {
        case HddsOk =>
          return Taken(buffer[..len]);
        case NotFound =>
          return Empty;
        case OutOfMemory =>
          if o.growFails(i) {
            assert Skipped(q, initial, i + 1) && FailsAfter(o, i + 1);
            return NoMemory;
          }
          buffer := new Byte[len](_ => 0);
          capacity := len;
          i := i + 1;
        case OperationFailed =>
          assert FailsAfter(o, i);
          return Failed;
      }
    }
  }

  /** Samples within the initial buffer are delivered one per call, in order. */
  lemma DeliverSmall(q: seq<Sample>, cap: nat)
    requires forall s :: s in q ==> |s| <= cap
    ensures DeliverIndex(q, cap) == if q == [] then None else Some(0)
  {
    if q != [] { assert q[0] in q; }
  }
}
