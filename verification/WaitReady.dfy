/** From the readers that became ready to the slots a caller of `rmw_wait` sees. */
module WaitReady {
  import opened Common

  type Reader = nat

  /** A subscription, service or client as seen by a wait: the reader that feeds it, whether
      it has a callback, and the topic to look up in shared memory when it has raw messages. */
  datatype Entity = Entity(reader: Option<Reader>, callback: bool, shm: Option<string>)

  type Slots = seq<Option<Entity>>

  function ReaderOf(slot: Option<Entity>): Option<Reader> {
    match slot case None => None case Some(e) => e.reader
  }

  function Readers(slots: Slots): seq<Option<Reader>> {
    seq(|slots|, i requires 0 <= i < |slots| => ReaderOf(slots[i]))
  }

  predicate FirstAt(readers: seq<Option<Reader>>, rr: Reader, j: nat) {
    j < |readers| && readers[j] == Some(rr) && forall k :: 0 <= k < j ==> readers[k] != Some(rr)
  }

  /** A slot is reported when its reader is ready and no earlier slot has that reader. */
  predicate ReadyAt(readers: seq<Option<Reader>>, ready: seq<Reader>, j: nat) {
    j < |readers| && readers[j].Some? && readers[j].value in ready && FirstAt(readers, readers[j].value, j)
  }

  function Bitmap(readers: seq<Option<Reader>>, ready: seq<Reader>): seq<bool> {
    seq(|readers|, j requires 0 <= j < |readers| => ReadyAt(readers, ready, j))
  }

  function CountTrue(s: seq<bool>): nat {
    if s == [] then 0 else CountTrue(s[..|s| - 1]) + if s[|s| - 1] then 1 else 0
  }

  lemma {:induction false} CountTrueSet(s: seq<bool>, j: nat)
    requires j < |s| && !s[j]
    ensures CountTrue(s[j := true]) == CountTrue(s) + 1
  {
    var n := |s| - 1;
    if j == n {
      assert s[j := true][..n] == s[..n];
    } else {
      assert s[j := true][..n] == s[..n][j := true];
      CountTrueSet(s[..n], j);
    }
  }

  lemma {:induction false} CountTrueNone(n: nat)
    ensures CountTrue(seq(n, _ => false)) == 0
  {
    if n > 0 {
      assert seq(n, _ => false)[..n - 1] == seq(n - 1, _ => false);
      CountTrueNone(n - 1);
    }
  }

  /** What one more ready reader adds: the first slot that has it. */
  lemma BitmapSnoc(readers: seq<Option<Reader>>, ready: seq<Reader>, rr: Reader)
    ensures forall j: nat | FirstAt(readers, rr, j) ::
              Bitmap(readers, ready + [rr]) == Bitmap(readers, ready)[j := true]
    ensures Some(rr) !in readers ==> Bitmap(readers, ready + [rr]) == Bitmap(readers, ready)
  {
    forall j: nat | FirstAt(readers, rr, j)
      ensures Bitmap(readers, ready + [rr]) == Bitmap(readers, ready)[j := true]
    {
      forall k | 0 <= k < |readers| && k != j
        ensures ReadyAt(readers, ready + [rr], k) <==> ReadyAt(readers, ready, k)
      {}
    }
  }

  /** One inner loop of the matching: mark the first slot of `rr`, and stop there. */
  method MarkFirst(readers: seq<Option<Reader>>, triggered: array<bool>, rr: Reader, ghost ready: seq<Reader>)
    returns (added: nat)
    requires triggered.Length == |readers| && triggered[..] == Bitmap(readers, ready)
    modifies triggered
    ensures triggered[..] == Bitmap(readers, ready + [rr])
    ensures CountTrue(triggered[..]) == old(CountTrue(triggered[..])) + added
  {
    BitmapSnoc(readers, ready, rr);
    added := 0;
    for j := 0 to |readers|
      invariant triggered[..] == Bitmap(readers, ready) && added == 0
      invariant forall k :: 0 <= k < j ==> readers[k] != Some(rr)
    {
      if readers[j] == Some(rr) {
        assert FirstAt(readers, rr, j);
        if !triggered[j] {
          CountTrueSet(triggered[..], j);
          triggered[j] := true;
          added := 1;
          assert triggered[..] == Bitmap(readers, ready)[j := true];
        } else {
          assert Bitmap(readers, ready)[j := true] == Bitmap(readers, ready);
        }
        return;
      }
    }
  }

  method NewBitmap(readers: seq<Option<Reader>>) returns (b: array<bool>)
    ensures fresh(b) && b.Length == |readers| && b[..] == Bitmap(readers, []) && CountTrue(b[..]) == 0
  {
    b := new bool[|readers|](_ => false);
    CountTrueNone(|readers|);
    assert b[..] == seq(|readers|, _ => false);
    assert b[..] == Bitmap(readers, []);
  }

  /** The matching: every ready reader is looked up among the subscriptions, then the
      services, then the clients. */
  method Match(subs: seq<Option<Reader>>, services: seq<Option<Reader>>, clients: seq<Option<Reader>>,
               ready: seq<Reader>)
    returns (s: array<bool>, v: array<bool>, c: array<bool>, readyLen: nat)
    ensures fresh(s) && s[..] == Bitmap(subs, ready)
    ensures fresh(v) && v[..] == Bitmap(services, ready)
    ensures fresh(c) && c[..] == Bitmap(clients, ready)
    ensures readyLen == CountTrue(s[..]) + CountTrue(v[..]) + CountTrue(c[..])
  {
    s := NewBitmap(subs);
    v := NewBitmap(services);
    c := NewBitmap(clients);
    readyLen := 0;
    for i := 0 to |ready|
      invariant fresh(s) && fresh(v) && fresh(c) && s != v && s != c && v != c
      invariant s.Length == |subs| && v.Length == |services| && c.Length == |clients|
      invariant s[..] == Bitmap(subs, ready[..i])
      invariant v[..] == Bitmap(services, ready[..i])
      invariant c[..] == Bitmap(clients, ready[..i])
      invariant readyLen == CountTrue(s[..]) + CountTrue(v[..]) + CountTrue(c[..])
    {
      assert ready[..i + 1] == ready[..i] + [ready[i]];
      var a1 := MarkFirst(subs, s, ready[i], ready[..i]);
      var a2 := MarkFirst(services, v, ready[i], ready[..i]);
      var a3 := MarkFirst(clients, c, ready[i], ready[..i]);
      readyLen := readyLen + a1 + a2 + a3;
    }
    assert ready[..|ready|] == ready;
  }

  // -------------------------------------------------------------- reporting

  predicate Increasing(log: seq<nat>) { forall i, j :: 0 <= i < j < |log| ==> log[i] < log[j] }

  /** Call back once for every triggered slot that has a callback; `log` lists the slots. */
  method CallBack(slots: seq<Option<Entity>>, triggered: seq<bool>) returns (log: seq<nat>)
    requires |slots| == |triggered|
    ensures Increasing(log)
    ensures forall i: nat :: i in log <==> i < |slots| && triggered[i] && slots[i].Some? && slots[i].value.callback
  {
    log := [];
    for i := 0 to |slots|
      invariant Increasing(log) && forall k :: 0 <= k < |log| ==> log[k] < i
      invariant forall k: nat :: k in log <==> k < i && triggered[k] && slots[k].Some? && slots[k].value.callback
    {
      if triggered[i] && slots[i].Some? && slots[i].value.callback { log := log + [i]; }
    }
  }

  function Keep(slots: Slots, kept: seq<bool>): (r: Slots)
    requires |slots| == |kept|
    ensures |r| == |slots|
  {
    seq(|slots|, i requires 0 <= i < |slots| => if kept[i] then slots[i] else None)
  }

  /** Null out in place every slot that is not kept. */
  method NullOut(slots: array<Option<Entity>>, kept: seq<bool>)
    requires slots.Length == |kept|
    modifies slots
    ensures slots[..] == Keep(old(slots[..]), kept)
  {
    for i := 0 to slots.Length
      invariant forall k :: 0 <= k < i ==> slots[k] == if kept[k] then old(slots[k]) else None
      invariant forall k :: i <= k < slots.Length ==> slots[k] == old(slots[k])
    {
      if !kept[i] { slots[i] := None; }
    }
  }

  /** What the caller sees: a slot survives exactly when its reader is among the ready ones
      and no lower slot has the same reader, and surviving slots are untouched. */
  lemma SurvivesIffReady(slots: Slots, ready: seq<Reader>, j: nat)
    requires j < |slots|
    ensures var out := Keep(slots, Bitmap(Readers(slots), ready));
            && (out[j].Some? <==> slots[j].Some? && slots[j].value.reader.Some?
                                  && slots[j].value.reader.value in ready
                                  && forall k :: 0 <= k < j ==> ReaderOf(slots[k]) != slots[j].value.reader)
            && (out[j].Some? ==> out[j] == slots[j])
  {
    var readers := Readers(slots);
    assert readers[j] == ReaderOf(slots[j]);
    assert forall k :: 0 <= k < j ==> readers[k] == ReaderOf(slots[k]);
  }

  /** So every ready reader that a slot has is reported, by exactly one slot. */
  lemma ReportedOnce(slots: Slots, ready: seq<Reader>, rr: Reader)
    requires rr in ready && Some(rr) in Readers(slots)
    ensures var out := Keep(slots, Bitmap(Readers(slots), ready));
            exists j :: 0 <= j < |out| && ReaderOf(out[j]) == Some(rr)
                        && forall k :: 0 <= k < |out| && k != j ==> ReaderOf(out[k]) != Some(rr)
  {
    var readers := Readers(slots);
    var j := FirstIndex(readers, rr);
    var out := Keep(slots, Bitmap(readers, ready));
    assert ReadyAt(readers, ready, j) && ReaderOf(out[j]) == Some(rr);
    forall k | 0 <= k < |out| && k != j ensures ReaderOf(out[k]) != Some(rr) {
      if readers[k] == Some(rr) { assert !ReadyAt(readers, ready, k); }
    }
  }

  function FirstIndex(readers: seq<Option<Reader>>, rr: Reader): (j: nat)
    requires Some(rr) in readers
    ensures FirstAt(readers, rr, j)
  {
    if readers[0] == Some(rr) then 0 else FirstIndex(readers[1..], rr) + 1
  }
}
