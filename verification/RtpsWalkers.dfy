/** The packet walkers of the discovery validator: submessages of an RTPS message and
    parameters of a parameter list. They are total on arbitrary bytes. */
module RtpsWalkers {
  import opened Bytes

  type Packet = seq<Byte>

  function U16(data: Packet, o: nat): nat
    requires o + 2 <= |data|
  {
    LeValue(data[o..o + 2])
  }

  /** A Python slice: bounds beyond the end are cut off. */
  function Slice(data: Packet, lo: nat, hi: nat): Packet {
    if lo >= |data| || lo >= hi then [] else data[lo..if hi <= |data| then hi else |data|]
  }

  // ------------------------------------------------------------ submessages

  datatype Submessage = Submessage(id: Byte, flags: Byte, length: nat, data: Packet, offset: nat)

  function SubmessageAt(data: Packet, o: nat): Submessage
    requires o + 4 <= |data|
  {
    var length := U16(data, o + 2);
    Submessage(data[o], data[o + 1], length, Slice(data, o + 4, o + 4 + length), o)
  }

  /** What a submessage would be at every offset that has room for a header. */
  type Table = seq<Submessage>

  function TableUpTo(data: Packet, n: nat): (t: Table)
    requires n == 0 || n + 3 <= |data|
    ensures |t| == n
  {
    if n == 0 then [] else TableUpTo(data, n - 1) + [SubmessageAt(data, n - 1)]
  }

  function TableOf(data: Packet): (t: Table)
    ensures |t| == if |data| < 4 then 0 else |data| - 3
  {
    TableUpTo(data, if |data| < 4 then 0 else |data| - 3)
  }

  function Submessages(t: Table, o: nat): seq<Submessage>
    decreases |t| - o
  {
    if o >= |t| then []
    else if t[o].length == 0 then [t[o]]
    else [t[o]] + Submessages(t, o + 4 + t[o].length)
  }

  predicate Reads(t: Table, s: Submessage) { s.offset < |t| && s == t[s.offset] }

  predicate Follows(s: Submessage, next: Submessage) { s.length > 0 && next.offset == s.offset + 4 + s.length }

  /** Nothing more can follow `s`. */
  predicate Ends(t: Table, s: Submessage) { s.length == 0 || s.offset + 4 + s.length >= |t| }

  /** What the walk is for, without a walk: the submessages stand end to end from the start
      offset, each read from its own offset, only the last may have length zero, and they go
      on until one has or fewer than four bytes are left. */
  ghost predicate Tiles(t: Table, start: nat, subs: seq<Submessage>) {
    && (forall i :: 0 <= i < |subs| ==> Reads(t, subs[i]))
    && (forall i, j :: 0 <= i < j < |subs| && j == i + 1 ==> Follows(subs[i], subs[j]))
    && (if subs == [] then start >= |t| else subs[0].offset == start && Ends(t, subs[|subs| - 1]))
  }

  lemma {:induction false} SubmessagesTile(t: Table, o: nat)
    requires forall i :: 0 <= i < |t| ==> t[i].offset == i
    ensures Tiles(t, o, Submessages(t, o))
    decreases |t| - o
  {
    if o < |t| && t[o].length > 0 { SubmessagesTile(t, o + 4 + t[o].length); }
  }

  /** The same said from the front. */
  predicate Chain(t: Table, o: nat, subs: seq<Submessage>)
    decreases |subs|
  {
    if subs == [] then o >= |t|
    else
      && o < |t| && t[o] == subs[0]
      && if |subs| == 1 then subs[0].length == 0 || o + 4 + subs[0].length >= |t|
         else subs[0].length > 0 && Chain(t, o + 4 + subs[0].length, subs[1..])
  }

  lemma {:induction false} TilesChain(t: Table, o: nat, subs: seq<Submessage>)
    requires Tiles(t, o, subs)
    ensures Chain(t, o, subs)
    decreases |subs|
  {
    if subs != [] {
      TilesHead(t, o, subs);
      if |subs| > 1 { TilesChain(t, o + 4 + subs[0].length, subs[1..]); }
    }
  }

  lemma {:induction false} ChainUnique(t: Table, o: nat, subs: seq<Submessage>)
    requires Chain(t, o, subs)
    ensures subs == Submessages(t, o)
    decreases |subs|
  {
    if subs == [] {
      SubmessagesEnd(t, o);
    } else {
      if |subs| > 1 {
        ChainUnique(t, o + 4 + subs[0].length, subs[1..]);
      } else if subs[0].length > 0 {
        SubmessagesEnd(t, o + 4 + subs[0].length);
      }
      SubmessagesCons(t, o, subs);
    }
  }

  /** There is only one such tiling, so the walk finds exactly the submessages. */
  lemma TilesUnique(t: Table, o: nat, subs: seq<Submessage>)
    requires Tiles(t, o, subs)
    ensures subs == Submessages(t, o)
  {
    TilesChain(t, o, subs);
    ChainUnique(t, o, subs);
  }

  lemma SubmessagesCons(t: Table, o: nat, subs: seq<Submessage>)
    requires o < |t| && subs != [] && t[o] == subs[0]
    requires subs[1..] == if subs[0].length == 0 then [] else Submessages(t, o + 4 + subs[0].length)
    ensures subs == Submessages(t, o)
  {
    SubmessagesStep(t, o, subs[0]);
    assert subs == [subs[0]] + subs[1..];
  }

  lemma TilesHead(t: Table, o: nat, subs: seq<Submessage>)
    requires Tiles(t, o, subs) && subs != []
    ensures o < |t| && t[o] == subs[0]
    ensures |subs| == 1 ==> subs[0].length == 0 || o + 4 + subs[0].length >= |t|
    ensures |subs| > 1 ==> subs[0].length > 0 && Tiles(t, o + 4 + subs[0].length, subs[1..])
  {
    assert Reads(t, subs[0]);
    if |subs| > 1 { assert Follows(subs[0], subs[1]); }
  }

  lemma SubmessagesStep(t: Table, o: nat, s: Submessage)
    requires o < |t| && t[o] == s
    ensures Submessages(t, o) == if s.length == 0 then [s] else [s] + Submessages(t, o + 4 + s.length)
  {
  }

  lemma SubmessagesEnd(t: Table, o: nat)
    requires o >= |t|
    ensures Submessages(t, o) == []
  {
  }

  lemma {:induction false} TableUpToAt(data: Packet, n: nat, o: nat)
    requires o < n && n + 3 <= |data|
    ensures TableUpTo(data, n)[o] == SubmessageAt(data, o)
  {
    var t := TableUpTo(data, n - 1);
    assert TableUpTo(data, n) == t + [SubmessageAt(data, n - 1)];
    if o < n - 1 { TableUpToAt(data, n - 1, o); }
  }

  /** For every packet and offset, the walk is the one tiling of the rest of the packet. */
  lemma WalkIff(data: Packet, start: nat, subs: seq<Submessage>)
    ensures subs == Submessages(TableOf(data), start) <==> Tiles(TableOf(data), start, subs)
  {
    var t := TableOf(data);
    forall i | 0 <= i < |t| ensures t[i].offset == i { TableUpToAt(data, |t|, i); }
    SubmessagesTile(t, start);
    if Tiles(t, start, subs) { TilesUnique(t, start, subs); }
  }

  /** One header and its payload. */
  method ParseOne(data: Packet, offset: nat) returns (s: Submessage)
    requires offset + 4 <= |data|
    ensures s == TableOf(data)[offset]
  {
    var length := U16(data, offset + 2);
    s := Submessage(data[offset], data[offset + 1], length, Slice(data, offset + 4, offset + 4 + length), offset);
    TableUpToAt(data, |data| - 3, offset);
  }

  /** `parse_submessages`. */
  method ParseSubmessages(data: Packet, start: nat) returns (subs: seq<Submessage>)
    ensures subs == Submessages(TableOf(data), start)
  {
    subs := [];
    var offset := start;
    ghost var t := TableOf(data);
    while offset < |data|
      invariant Submessages(t, start) == subs + Submessages(t, offset)
      decreases |data| - offset
    {
      if offset + 4 > |data| { break; }
      var s := ParseOne(data, offset);
      if s.length == 0 { return subs + [s]; }
      subs := subs + [s];
      offset := offset + 4 + s.length;
    }
  }

  /** A submessage that the packet cuts off has the rest of the packet as its data. */
  lemma DataIs(data: Packet, o: nat)
    requires o + 4 <= |data|
    ensures var s := SubmessageAt(data, o);
            && s.length == LeValue(data[o + 2..o + 4])
            && s.data == if o + 4 + s.length <= |data| then data[o + 4..o + 4 + s.length] else data[o + 4..]
  {
    if U16(data, o + 2) == 0 { assert data[o + 4..o + 4] == []; }
    if o + 4 == |data| { assert data[o + 4..] == []; }
  }

  // ------------------------------------------------------- writing submessages

  datatype Chunk = Chunk(id: Byte, flags: Byte, payload: Packet)

  function EncodeChunk(c: Chunk): Packet {
    [c.id, c.flags] + LeBytes(|c.payload|, 2) + c.payload
  }

  function EncodeChunks(cs: seq<Chunk>): Packet {
    if cs == [] then [] else EncodeChunk(cs[0]) + EncodeChunks(cs[1..])
  }

  /** Payloads fit their length field, and only the last may be empty. */
  predicate Writable(cs: seq<Chunk>) {
    cs == [] || (|cs[0].payload| < 0x10000 && (cs[0].payload == [] ==> |cs| == 1) && Writable(cs[1..]))
  }

  function Located(cs: seq<Chunk>, o: nat): seq<Submessage> {
    if cs == [] then [] else
      var n := |cs[0].payload|;
      [Submessage(cs[0].id, cs[0].flags, n, cs[0].payload, o)] + Located(cs[1..], o + 4 + n)
  }

  lemma LengthField(n: nat)
    requires n < 0x10000
    ensures LeValue(LeBytes(n, 2)) == n
  {
    assert Pow256(2) == 256 * Pow256(1) && Pow256(1) == 256 * Pow256(0);
    LeValueOfBytes(n, 2);
  }

  /** A slice of the middle of a packet. */
  lemma Middle(before: Packet, mid: Packet, after: Packet, a: nat, b: nat)
    requires a <= b <= |mid|
    ensures (before + (mid + after))[|before| + a..|before| + b] == mid[a..b]
  {
  }

  lemma ChunkParts(c: Chunk)
    ensures var e := EncodeChunk(c);
            && |e| == 4 + |c.payload| && e[0] == c.id && e[1] == c.flags
            && e[2..4] == LeBytes(|c.payload|, 2) && e[4..4 + |c.payload|] == c.payload
  {
  }

  lemma ReadChunk(before: Packet, c: Chunk, after: Packet, data: Packet)
    requires |c.payload| < 0x10000 && data == before + (EncodeChunk(c) + after)
    ensures |data| >= |before| + 4
    ensures SubmessageAt(data, |before|) == Submessage(c.id, c.flags, |c.payload|, c.payload, |before|)
  {
    var e, n, o := EncodeChunk(c), |c.payload|, |before|;
    ChunkParts(c);
    LengthField(n);
    assert data[o] == e[0] && data[o + 1] == e[1];
    Middle(before, e, after, 2, 4);
    Middle(before, e, after, 4, 4 + n);
  }

  lemma Regroup(a: Packet, b: Packet, c: Packet)
    ensures a + (b + c) == (a + b) + c
  {
  }

  function SubmessageOf(c: Chunk, o: nat): Submessage {
    Submessage(c.id, c.flags, |c.payload|, c.payload, o)
  }

  /** Every payload fits its length field. */
  predicate Encodable(cs: seq<Chunk>) { cs == [] || (|cs[0].payload| < 0x10000 && Encodable(cs[1..])) }

  /** The chunks stand one after the other in the packet from `o` to its end. */
  predicate Stand(data: Packet, o: nat, cs: seq<Chunk>)
    decreases cs
  {
    if cs == [] then o == |data| else
      o + 4 <= |data| && SubmessageAt(data, o) == SubmessageOf(cs[0], o)
      && Stand(data, o + 4 + |cs[0].payload|, cs[1..])
  }

  lemma {:induction false} EncodedStand(before: Packet, cs: seq<Chunk>, data: Packet)
    requires Encodable(cs) && data == before + EncodeChunks(cs)
    ensures Stand(data, |before|, cs)
    decreases |cs|
  {
    if cs != [] {
      var c, after := cs[0], EncodeChunks(cs[1..]);
      ReadChunk(before, c, after, data);
      ChunkParts(c);
      Regroup(before, EncodeChunk(c), after);
      EncodedStand(before + EncodeChunk(c), cs[1..], data);
    }
  }

  /** The same in a table of what stands at every offset. */
  predicate Tabled(t: Table, o: nat, cs: seq<Chunk>)
    decreases cs
  {
    if cs == [] then o >= |t| else
      o < |t| && t[o] == SubmessageOf(cs[0], o) && Tabled(t, o + 4 + |cs[0].payload|, cs[1..])
  }

  lemma {:induction false} StandTabled(data: Packet, o: nat, cs: seq<Chunk>)
    requires Stand(data, o, cs)
    ensures Tabled(TableOf(data), o, cs)
    decreases cs
  {
    if cs != [] {
      TableUpToAt(data, |data| - 3, o);
      StandTabled(data, o + 4 + |cs[0].payload|, cs[1..]);
    }
  }

  lemma {:induction false} LocatedLength(cs: seq<Chunk>, o: nat)
    ensures |Located(cs, o)| == |cs|
  {
    if cs != [] { LocatedLength(cs[1..], o + 4 + |cs[0].payload|); }
  }

  /** The walk over such a table finds the chunks if and only if none but the last is empty. */
  lemma {:induction false} TabledWalk(t: Table, o: nat, cs: seq<Chunk>)
    requires Tabled(t, o, cs) && Encodable(cs)
    ensures Submessages(t, o) == Located(cs, o) <==> Writable(cs)
    decreases cs
  {
    if cs != [] {
      var s, next := SubmessageOf(cs[0], o), o + 4 + |cs[0].payload|;
      SubmessagesStep(t, o, s);
      LocatedStep(cs, o);
      if cs[0].payload == [] {
        LocatedOne(cs, o);
      } else {
        TabledWalk(t, next, cs[1..]);
        SameTail(s, Submessages(t, next), Located(cs[1..], next));
      }
    }
  }

  lemma LocatedStep(cs: seq<Chunk>, o: nat)
    requires cs != []
    ensures Located(cs, o) == [SubmessageOf(cs[0], o)] + Located(cs[1..], o + 4 + |cs[0].payload|)
  {
  }

  lemma LocatedOne(cs: seq<Chunk>, o: nat)
    requires cs != [] && cs[0].payload == []
    ensures Located(cs, o) == [SubmessageOf(cs[0], o)] <==> |cs| == 1
    ensures Writable(cs) <==> |cs| == 1
  {
    LocatedLength(cs, o);
    if |cs| == 1 { assert cs[1..] == []; }
  }

  lemma SameTail(s: Submessage, a: seq<Submessage>, b: seq<Submessage>)
    ensures [s] + a == [s] + b <==> a == b
  {
    assert ([s] + a)[1..] == a && ([s] + b)[1..] == b;
  }

  /** Writing submessages after any header and walking from there gives them back if and only
      if none but the last is empty. */
  lemma SubmessageRoundTrip(header: Packet, cs: seq<Chunk>)
    requires Encodable(cs)
    ensures Submessages(TableOf(header + EncodeChunks(cs)), |header|) == Located(cs, |header|) <==> Writable(cs)
  {
    var data := header + EncodeChunks(cs);
    EncodedStand(header, cs, data);
    StandTabled(data, |header|, cs);
    TabledWalk(TableOf(data), |header|, cs);
  }

  // -------------------------------------------------------- parameter lists

  const SENTINEL := 1
  const ENCAPSULATION := 4

  datatype Parameter = Parameter(pid: nat, length: nat, value: Packet, offset: nat)

  function Padded(n: nat): nat { (n + 3) / 4 * 4 }

  /** The next multiple of four. */
  lemma PaddedIs(n: nat, m: nat)
    ensures m == Padded(n) <==> n <= m < n + 4 && m % 4 == 0
  {
  }

  /** A value that would reach beyond the end is reported as empty. */
  function ParameterAt(data: Packet, o: nat): Parameter
    requires o + 4 <= |data|
  {
    var length := U16(data, o + 2);
    Parameter(U16(data, o), length, if o + 4 + length <= |data| then data[o + 4..o + 4 + length] else [], o)
  }

  /** A parameter that goes beyond the end has no value. */
  lemma ValueIs(data: Packet, o: nat)
    requires o + 4 <= |data|
    ensures var p := ParameterAt(data, o);
            && p.pid == LeValue(data[o..o + 2]) && p.length == LeValue(data[o + 2..o + 4]) && p.offset == o
            && |p.value| == (if o + 4 + p.length <= |data| then p.length else 0) && p.value <= data[o + 4..]
  {
  }

  function ParametersUpTo(data: Packet, n: nat): (t: seq<Parameter>)
    requires n == 0 || n + 3 <= |data|
    ensures |t| == n
  {
    if n == 0 then [] else ParametersUpTo(data, n - 1) + [ParameterAt(data, n - 1)]
  }

  function ParametersOf(data: Packet): (t: seq<Parameter>)
    ensures |t| == if |data| < 4 then 0 else |data| - 3
  {
    ParametersUpTo(data, if |data| < 4 then 0 else |data| - 3)
  }

  lemma {:induction false} ParametersUpToAt(data: Packet, n: nat, o: nat)
    requires o < n && n + 3 <= |data|
    ensures ParametersUpTo(data, n)[o] == ParameterAt(data, o)
  {
    var t := ParametersUpTo(data, n - 1);
    assert ParametersUpTo(data, n) == t + [ParameterAt(data, n - 1)];
    if o < n - 1 { ParametersUpToAt(data, n - 1, o); }
  }

  function Parameters(t: seq<Parameter>, o: nat): seq<Parameter>
    decreases |t| - o
  {
    if o >= |t| || t[o].pid == SENTINEL then [] else [t[o]] + Parameters(t, After(t[o], o))
  }

  function After(p: Parameter, o: nat): (next: nat)
    ensures next > o
  {
    o + 4 + Padded(p.length)
  }

  /** The parameters stand end to end, padded to four bytes; none is a sentinel, and they go
      on until a sentinel stands next or fewer than four bytes are left. */
  ghost predicate Lists(t: seq<Parameter>, start: nat, ps: seq<Parameter>) {
    && (forall i :: 0 <= i < |ps| ==> Stands(t, ps[i]))
    && (forall i, j :: 0 <= i < j < |ps| && j == i + 1 ==> ps[j].offset == After(ps[i], ps[i].offset))
    && (ps != [] ==> ps[0].offset == start)
    && (var end := if ps == [] then start else After(ps[|ps| - 1], ps[|ps| - 1].offset);
        end >= |t| || t[end].pid == SENTINEL)
  }

  predicate Stands(t: seq<Parameter>, p: Parameter) {
    p.offset < |t| && p == t[p.offset] && p.pid != SENTINEL
  }

  lemma {:induction false} ParametersList(t: seq<Parameter>, o: nat)
    requires forall i :: 0 <= i < |t| ==> t[i].offset == i
    ensures Lists(t, o, Parameters(t, o))
    decreases |t| - o
  {
    if o < |t| && t[o].pid != SENTINEL { ParametersList(t, After(t[o], o)); }
  }

  lemma {:induction false} ListsUnique(t: seq<Parameter>, o: nat, ps: seq<Parameter>)
    requires Lists(t, o, ps)
    ensures ps == Parameters(t, o)
    decreases |ps|
  {
    if ps != [] {
      assert Stands(t, ps[0]);
      if |ps| == 1 {
        assert Parameters(t, After(ps[0], o)) == [];
      } else {
        ListsUnique(t, ps[1].offset, ps[1..]);
      }
    }
  }

  /** For every byte string, the walk is the one such list after the encapsulation header. */
  lemma ParametersIff(data: Packet, ps: seq<Parameter>)
    ensures ps == Parameters(ParametersOf(data), ENCAPSULATION) <==> Lists(ParametersOf(data), ENCAPSULATION, ps)
  {
    var t := ParametersOf(data);
    forall i | 0 <= i < |t| ensures t[i].offset == i { ParametersUpToAt(data, |t|, i); }
    ParametersList(t, ENCAPSULATION);
    if Lists(t, ENCAPSULATION, ps) { ListsUnique(t, ENCAPSULATION, ps); }
  }

  method ParseParameter(data: Packet, offset: nat) returns (p: Parameter)
    requires offset + 4 <= |data|
    ensures p == ParametersOf(data)[offset]
  {
    var pid := U16(data, offset);
    var length := U16(data, offset + 2);
    var value := if offset + 4 + length <= |data| then data[offset + 4..offset + 4 + length] else [];
    p := Parameter(pid, length, value, offset);
    ParametersUpToAt(data, |data| - 3, offset);
  }

  /** `parse_cdr_parameter_list`. */
  method ParseParameterList(data: Packet) returns (ps: seq<Parameter>)
    ensures ps == Parameters(ParametersOf(data), ENCAPSULATION)
  {
    ps := [];
    if |data| < 4 { return; }
    var offset := ENCAPSULATION;
    ghost var t := ParametersOf(data);
    while offset + 4 <= |data|
      invariant Parameters(t, ENCAPSULATION) == ps + Parameters(t, offset)
      decreases |data| - offset
    {
      var p := ParseParameter(data, offset);
      if p.pid == SENTINEL { return; }
      ps := ps + [p];
      offset := After(p, offset);
    }
  }

  // -------------------------------------------------------- writing parameters

  /** A parameter to write; the padding bytes are arbitrary. */
  datatype Item = Item(pid: nat, value: Packet, padding: Packet) {
    predicate Writable() {
      pid < 0x10000 && pid != SENTINEL && |value| < 0x10000 && |value| + |padding| == Padded(|value|)
    }
  }

  function EncodeItem(p: Item): Packet {
    LeBytes(p.pid, 2) + LeBytes(|p.value|, 2) + p.value + p.padding
  }

  function EncodeItems(ps: seq<Item>): Packet {
    if ps == [] then [] else EncodeItem(ps[0]) + EncodeItems(ps[1..])
  }

  function LocatedItems(ps: seq<Item>, o: nat): seq<Parameter> {
    if ps == [] then [] else
      [Parameter(ps[0].pid, |ps[0].value|, ps[0].value, o)] + LocatedItems(ps[1..], o + 4 + Padded(|ps[0].value|))
  }

  lemma ItemParts(p: Item)
    ensures var e, n := EncodeItem(p), |p.value|;
            && |e| == 4 + n + |p.padding| && e[0..2] == LeBytes(p.pid, 2)
            && e[2..4] == LeBytes(n, 2) && e[4..4 + n] == p.value
  {
  }

  lemma ReadItem(before: Packet, p: Item, after: Packet, data: Packet)
    requires p.Writable() && data == before + (EncodeItem(p) + after)
    ensures |data| >= |before| + 4
    ensures ParameterAt(data, |before|) == Parameter(p.pid, |p.value|, p.value, |before|)
  {
    var e, n := EncodeItem(p), |p.value|;
    ItemParts(p);
    LengthField(n);
    LengthField(p.pid);
    Middle(before, e, after, 0, 2);
    Middle(before, e, after, 2, 4);
    Middle(before, e, after, 4, 4 + n);
  }

  /** The list stops here: fewer than four bytes, or a sentinel and then anything. */
  predicate Stops(tail: Packet) { |tail| < 4 || U16(tail, 0) == SENTINEL }

  predicate AllWritable(ps: seq<Item>) { ps == [] || (ps[0].Writable() && AllWritable(ps[1..])) }

  function ParameterOf(p: Item, o: nat): Parameter { Parameter(p.pid, |p.value|, p.value, o) }

  /** The parameters stand one after the other from `o`, and then the list stops. */
  predicate ItemsStand(data: Packet, o: nat, ps: seq<Item>)
    decreases ps
  {
    if ps == [] then o + 4 > |data| || U16(data, o) == SENTINEL else
      o + 4 <= |data| && ParameterAt(data, o) == ParameterOf(ps[0], o)
      && ItemsStand(data, o + 4 + Padded(|ps[0].value|), ps[1..])
  }

  lemma {:induction false} EncodedItemsStand(before: Packet, ps: seq<Item>, tail: Packet, data: Packet)
    requires AllWritable(ps) && Stops(tail) && data == before + (EncodeItems(ps) + tail)
    ensures ItemsStand(data, |before|, ps)
    decreases |ps|
  {
    if ps == [] {
      assert data == before + tail;
      TailStops(before, tail, data);
    } else {
      var p, after := ps[0], EncodeItems(ps[1..]) + tail;
      EncodeItemsStep(ps, tail);
      NextItem(before, p, after, data);
      EncodedItemsStand(before + EncodeItem(p), ps[1..], tail, data);
    }
  }

  lemma EncodeItemsStep(ps: seq<Item>, tail: Packet)
    requires ps != []
    ensures EncodeItems(ps) + tail == EncodeItem(ps[0]) + (EncodeItems(ps[1..]) + tail)
  {
    Regroup(EncodeItem(ps[0]), EncodeItems(ps[1..]), tail);
  }

  lemma TailStops(before: Packet, tail: Packet, data: Packet)
    requires Stops(tail) && data == before + tail
    ensures |before| + 4 > |data| || U16(data, |before|) == SENTINEL
  {
    if |tail| >= 4 { assert data[|before|..|before| + 2] == tail[0..2]; }
  }

  lemma NextItem(before: Packet, p: Item, after: Packet, data: Packet)
    requires p.Writable() && data == before + (EncodeItem(p) + after)
    ensures |data| >= |before| + 4 && ParameterAt(data, |before|) == ParameterOf(p, |before|)
    ensures data == (before + EncodeItem(p)) + after
    ensures |before + EncodeItem(p)| == |before| + 4 + Padded(|p.value|)
  {
    ReadItem(before, p, after, data);
    ItemParts(p);
    Regroup(before, EncodeItem(p), after);
  }

  predicate ItemsTabled(t: seq<Parameter>, o: nat, ps: seq<Item>)
    decreases ps
  {
    if ps == [] then o >= |t| || t[o].pid == SENTINEL else
      o < |t| && t[o] == ParameterOf(ps[0], o) && ps[0].pid != SENTINEL
      && ItemsTabled(t, o + 4 + Padded(|ps[0].value|), ps[1..])
  }

  lemma {:induction false} ItemsStandTabled(data: Packet, o: nat, ps: seq<Item>)
    requires ItemsStand(data, o, ps) && AllWritable(ps)
    ensures ItemsTabled(ParametersOf(data), o, ps)
    decreases ps
  {
    TabledAt(data, o);
    if ps != [] { ItemsStandTabled(data, o + 4 + Padded(|ps[0].value|), ps[1..]); }
  }

  lemma TabledAt(data: Packet, o: nat)
    ensures o < |ParametersOf(data)| <==> o + 4 <= |data|
    ensures o + 4 <= |data| ==> ParametersOf(data)[o] == ParameterAt(data, o)
  {
    if o + 4 <= |data| { ParametersUpToAt(data, |data| - 3, o); }
  }

  lemma {:induction false} ItemsTabledWalk(t: seq<Parameter>, o: nat, ps: seq<Item>)
    requires ItemsTabled(t, o, ps)
    ensures Parameters(t, o) == LocatedItems(ps, o)
    decreases ps
  {
    if ps != [] { ItemsTabledWalk(t, o + 4 + Padded(|ps[0].value|), ps[1..]); }
  }

  /** Writing parameters, whatever the padding and whatever follows the sentinel, and
      walking the list gives them back. */
  lemma ParameterRoundTrip(header: Packet, ps: seq<Item>, tail: Packet)
    requires |header| == ENCAPSULATION && AllWritable(ps) && Stops(tail)
    ensures Parameters(ParametersOf(header + (EncodeItems(ps) + tail)), ENCAPSULATION) ==
            LocatedItems(ps, ENCAPSULATION)
  {
    var data := header + (EncodeItems(ps) + tail);
    EncodedItemsStand(header, ps, tail, data);
    ItemsStandTabled(data, ENCAPSULATION, ps);
    ItemsTabledWalk(ParametersOf(data), ENCAPSULATION, ps);
  }
}
