/**
 The tensor store of layer_manager.cpp: every layer gets five regions of one flat disk,
 and reads and writes of a tensor go to its region.
 */
module LayerStores {
  import opened Memory
  import opened Crc32

  const BLOCK: nat := 512
  const MAX_LAYER_SIZE: nat := 750
  const CHUNK: nat := 4096 // blocks in one command of the transfer loop
  const UNLINKED := "-1"

  datatype Option<T> = None | Some(value: T)

  datatype Kind = Param16 | Param32 | Gradient32 | Momentum32 | Variance32

  /** LBAMgr: the first block of each tensor. */
  datatype Regions = Regions(param16: nat, param32: nat, gradient32: nat, momentum32: nat, variance32: nat)

  datatype Layer = Layer(paramNum: string, hashId: string, lba: Regions, crc: map<Kind, bv32>)

  datatype Error =
    | BadName | NotANumber | LayerTooLarge | NoLayerForHash | NameMismatch | NotInMap
    | BadType | BadUnit | BadOp | IoFailed | CrcMismatch

  datatype Outcome = Done | Failed(error: Error)

  predicate Digit(c: char) {
    '0' <= c <= '9'
  }

  /** stoull: the number that the leading digits spell, if there are any. */
  function Number(s: string): Option<nat> {
    if s == "" || !Digit(s[0]) then None else Some(Leading(s, 0))
  }

  function Leading(s: string, acc: nat): nat {
    if s == "" || !Digit(s[0]) then acc else Leading(s[1..], 10 * acc + (s[0] - '0') as nat)
  }

  predicate AllDigits(s: string) {
    forall k :: 0 <= k < |s| ==> Digit(s[k])
  }

  /** Decimal notation: one more digit is ten times the number and the digit; anything else ends the number. */
  lemma {:induction false} NumberIsDecimal(s: string, d: char, rest: string)
    requires AllDigits(s)
    ensures Digit(d) ==>
      && Number([d]) == Some((d - '0') as nat)
      && (s != "" ==> Number(s + [d]) == Some(10 * Number(s).value + (d - '0') as nat))
    ensures !Digit(d) ==> Number([d] + rest) == None && Number(s + [d] + rest) == Number(s)
  {
    assert [d][0] == d && [d][1..] == "";
    if s != "" {
      assert (s + [d])[0] == s[0] && (s + [d] + rest)[0] == s[0];
    } else {
      assert s + [d] + rest == [d] + rest;
    }
    if Digit(d) {
      LeadingMore(s, d, 0);
      LeadingMore("", d, 0);
      assert "" + [d] == [d];
    } else {
      LeadingStops(s, d, rest, 0);
    }
  }

  lemma {:induction false} LeadingMore(s: string, d: char, acc: nat)
    requires AllDigits(s) && Digit(d)
    ensures Leading(s + [d], acc) == 10 * Leading(s, acc) + (d - '0') as nat
  {
    if s == "" {
      assert s + [d] == [d] && [d][1..] == "";
    } else {
      assert (s + [d])[1..] == s[1..] + [d];
      LeadingMore(s[1..], d, 10 * acc + (s[0] - '0') as nat);
    }
  }

  lemma {:induction false} LeadingStops(s: string, d: char, rest: string, acc: nat)
    requires AllDigits(s) && !Digit(d)
    ensures Leading(s + [d] + rest, acc) == Leading(s, acc)
  {
    if s != "" {
      assert (s + [d] + rest)[1..] == s[1..] + [d] + rest;
      LeadingStops(s[1..], d, rest, 10 * acc + (s[0] - '0') as nat);
    }
  }

  /** The order of std::map<string, ...>. */
  predicate Less(a: string, b: string) {
    b != "" && (a == "" || a[0] < b[0] || (a[0] == b[0] && Less(a[1..], b[1..])))
  }

  /** It is the lexicographic one: the first difference decides, and a name comes before its continuations. */
  lemma {:induction false} LessAtDifference(p: string, a: string, b: string)
    ensures Less(p + a, p + b) <==>
      if a == "" || b == "" then a == "" && b != "" else a[0] < b[0] || (a[0] == b[0] && Less(a[1..], b[1..]))
    ensures a != b ==> Less(a, b) || Less(b, a)
  {
    if p == "" {
      assert p + a == a && p + b == b;
      LessTotal(a, b);
    } else {
      assert (p + a)[1..] == p[1..] + a && (p + b)[1..] == p[1..] + b;
      LessAtDifference(p[1..], a, b);
    }
  }

  lemma {:induction false} LessTotal(a: string, b: string)
    ensures a != b ==> Less(a, b) || Less(b, a)
  {
    if a != "" && b != "" && a[0] == b[0] {
      LessTotal(a[1..], b[1..]);
      assert a == [a[0]] + a[1..] && b == [b[0]] + b[1..];
    }
  }

  lemma {:induction false} LessTransitive(a: string, b: string, c: string)
    requires Less(a, b) && Less(b, c)
    ensures Less(a, c)
  {
    if a != "" && a[0] == b[0] == c[0] {
      LessTransitive(a[1..], b[1..], c[1..]);
    }
  }

  lemma {:induction false} LessOneWay(a: string, b: string)
    requires Less(a, b)
    ensures !Less(b, a)
  {
    if a != "" && a[0] == b[0] {
      LessOneWay(a[1..], b[1..]);
    }
  }

  /** ALIGN_LAYER_PARAM. */
  function Aligned(params: nat): nat {
    (params + 4095) / 4096 * 4096
  }

  function Width(k: Kind): nat {
    if k == Param16 then 2 else 4
  }

  /** Blocks from the start of a tensor to the start of the next one. */
  function Blocks(params: nat, k: Kind): nat {
    Aligned(params) * Width(k) / BLOCK + 8
  }

  function Lba(r: Regions, k: Kind): nat {
    match k
    case Param16 => r.param16
    case Param32 => r.param32
    case Gradient32 => r.gradient32
    case Momentum32 => r.momentum32
    case Variance32 => r.variance32
  }

  /** getTempLBAMgr, as a function of the offset it starts from. */
  function Place(start: nat, params: nat): Regions {
    var param32 := start + Blocks(params, Param16);
    var gradient32 := param32 + Blocks(params, Param32);
    var momentum32 := gradient32 + Blocks(params, Gradient32);
    Regions(start, param32, gradient32, momentum32, momentum32 + Blocks(params, Momentum32))
  }

  function PlaceEnd(start: nat, params: nat): nat {
    Place(start, params).variance32 + Blocks(params, Variance32)
  }

  /** Bytes that belong to a tensor of a layer registered with `params` parameters. */
  function Capacity(params: nat, k: Kind): nat {
    Blocks(params, k) * BLOCK
  }

  /** A tensor's own size fits its region when the layer was registered with at least its parameter count. */
  lemma OwnSizeFits(params: nat, count: nat, k: Kind)
    requires count <= params
    ensures count * Width(k) <= Capacity(params, k)
  {
    var units := (params + 4095) / 4096;
    assert count <= units * 4096 == Aligned(params);
    assert Aligned(params) * Width(k) / BLOCK == units * (8 * Width(k));
  }

  function Params(l: Layer): nat {
    match Number(l.paramNum) case Some(p) => p case None => 0
  }

  predicate LayerOk(l: Layer, next: nat) {
    && l.lba == Place(l.lba.param16, Params(l)) && PlaceEnd(l.lba.param16, Params(l)) <= next
    && forall k: Kind :: k in l.crc
  }

  /** The layers lie one behind the other, below the next offset to hand out. */
  ghost predicate LayersOk(layers: map<string, Layer>, next: nat) {
    && (forall n :: n in layers ==> LayerOk(layers[n], next))
    && (forall m, n :: m in layers && n in layers && m != n ==>
          Behind(layers[m], layers[n]) || Behind(layers[n], layers[m]))
    && forall n :: n in layers ==> Followed(layers, next, layers[n])
  }

  /** Right behind a layer lies another one, or the blocks that the next one will get. */
  ghost predicate Followed(layers: map<string, Layer>, next: nat, l: Layer) {
    EndBlock(l) == next || exists m :: m in layers && layers[m].lba.param16 == EndBlock(l)
  }

  function EndBlock(l: Layer): nat {
    PlaceEnd(l.lba.param16, Params(l))
  }

  predicate Behind(a: Layer, b: Layer) {
    PlaceEnd(a.lba.param16, Params(a)) <= b.lba.param16
  }

  function FrontByte(l: Layer, k: Kind): nat {
    Lba(l.lba, k) * BLOCK
  }

  function EndByte(l: Layer, k: Kind): nat {
    FrontByte(l, k) + Capacity(Params(l), k)
  }

  /** The regions of one layer follow each other, from its first block to its end. */
  lemma RegionsInOrder(l: Layer, next: nat)
    requires LayerOk(l, next)
    ensures FrontByte(l, Param16) == l.lba.param16 * BLOCK
    ensures EndByte(l, Param16) == FrontByte(l, Param32) && EndByte(l, Param32) == FrontByte(l, Gradient32)
    ensures EndByte(l, Gradient32) == FrontByte(l, Momentum32) && EndByte(l, Momentum32) == FrontByte(l, Variance32)
    ensures EndByte(l, Variance32) == PlaceEnd(l.lba.param16, Params(l)) * BLOCK
  {
    hide Blocks;
  }

  /** No two tensors of the store share a byte, and all lie below the next offset. */
  lemma {:induction false} RegionsDisjoint(layers: map<string, Layer>, next: nat, m: string, j: Kind, n: string,
                                           k: Kind)
    requires LayersOk(layers, next) && m in layers && n in layers && (m, j) != (n, k)
    ensures EndByte(layers[m], j) <= FrontByte(layers[n], k) || EndByte(layers[n], k) <= FrontByte(layers[m], j)
    ensures EndByte(layers[m], j) <= next * BLOCK
  {
    hide Blocks, PlaceEnd, Place, Lba, Capacity, FrontByte, EndByte;
    WithinLayer(layers[m], next, j);
    WithinLayer(layers[n], next, k);
    if m == n {
      SameLayer(layers[m], next, j, k);
    }
  }

  lemma WithinLayer(l: Layer, next: nat, k: Kind)
    requires LayerOk(l, next)
    ensures l.lba.param16 * BLOCK <= FrontByte(l, k) <= EndByte(l, k) <= PlaceEnd(l.lba.param16, Params(l)) * BLOCK
  {
    RegionsInOrder(l, next);
    hide Capacity, PlaceEnd, Place, Lba, FrontByte;
  }

  lemma SameLayer(l: Layer, next: nat, j: Kind, k: Kind)
    requires LayerOk(l, next) && j != k
    ensures EndByte(l, j) <= FrontByte(l, k) || EndByte(l, k) <= FrontByte(l, j)
  {
    RegionsInOrder(l, next);
    hide Capacity, PlaceEnd, Place, Lba, FrontByte;
  }

  type Tensors = map<(string, Kind), seq<Byte>>

  /** The disk holds the tensors, and the stored checksums are theirs. */
  ghost predicate Holds(layers: map<string, Layer>, disk: seq<Byte>, tensors: Tensors) {
    forall t :: t in tensors ==> HoldsOne(layers, disk, t, tensors[t])
  }

  ghost predicate HoldsOne(layers: map<string, Layer>, disk: seq<Byte>, t: (string, Kind), data: seq<Byte>) {
    && t.0 in layers
    && var l, at := layers[t.0], FrontByte(layers[t.0], t.1);
    && at + |data| <= EndByte(l, t.1) && at + |data| <= |disk| && disk[at..at + |data|] == data
    && (data != [] ==> |data| >= 8 && t.1 in l.crc && l.crc[t.1] == DataCrc(data))
  }

  /** A write of n bytes to tensor t does not reach the len bytes held of tensor u. */
  predicate Spared(layers: map<string, Layer>, t: (string, Kind), n: nat, u: (string, Kind), len: nat) {
    && t.0 in layers && u.0 in layers
    && (FrontByte(layers[u.0], u.1) + len <= FrontByte(layers[t.0], t.1)
        || FrontByte(layers[t.0], t.1) + n <= FrontByte(layers[u.0], u.1))
  }

  /**
   What a write of the first n bytes of the buffer leaves of what the store holds: the
   tensor itself as far as its region goes, and every other one that the write spares.
   */
  ghost function Remembered(layers: map<string, Layer>, was: Tensors, t: (string, Kind), data: seq<Byte>,
                            n: nat): Tensors
    requires t.0 in layers && n <= |data|
  {
    if n == 0 then was - {t} else
      var own := data[..Smaller(n, Capacity(Params(layers[t.0]), t.1))];
      (map u | u in was && Spared(layers, t, n, u, |was[u]|) :: was[u])[t := own]
  }

  function Smaller(a: nat, b: nat): nat {
    if a <= b then a else b
  }

  /** A write within its region replaces that tensor and spares every other one. */
  lemma {:induction false} RememberedFits(layers: map<string, Layer>, next: nat, disk: seq<Byte>, was: Tensors,
                                          t: (string, Kind), data: seq<Byte>, n: nat)
    requires LayersOk(layers, next) && Holds(layers, disk, was) && t.0 in layers && 0 < n <= |data|
    requires n <= Capacity(Params(layers[t.0]), t.1)
    ensures Remembered(layers, was, t, data, n) == was[t := data[..n]]
  {
    hide LayersOk, FrontByte, EndByte, Capacity, DataCrc;
    forall u | u in was && u != t ensures Spared(layers, t, n, u, |was[u]|) {
      assert HoldsOne(layers, disk, u, was[u]);
      RegionsDisjoint(layers, next, t.0, t.1, u.0, u.1);
      LastIs(layers[t.0], t.1);
    }
  }

  /** After a write the disk holds what is remembered, with the checksums stored for it. */
  lemma {:induction false} WriteHolds(layers: map<string, Layer>, disk: seq<Byte>, was: Tensors, t: (string, Kind),
                                      data: seq<Byte>, n: nat, layers': map<string, Layer>, disk': seq<Byte>)
    requires Holds(layers, disk, was) && t.0 in layers && 8 <= n <= |data|
    requires Transferred(true, disk, disk', data, data, FrontByte(layers[t.0], t.1), n)
    requires layers' == layers[t.0 := layers[t.0].(crc := layers[t.0].crc[t.1 := DataCrc(data)])]
    ensures Holds(layers', disk', Remembered(layers, was, t, data, n))
  {
    hide HoldsOne, DataCrc, FrontByte, Transferred;
    var now := Remembered(layers, was, t, data, n);
    forall u | u in now ensures HoldsOne(layers', disk', u, now[u]) {
      if u == t {
        ThisHolds(layers, disk, t, data, n, layers', disk');
      } else {
        OtherHolds(layers, disk, t, data, n, layers', disk', u, was[u]);
      }
    }
  }

  lemma {:induction false} ThisHolds(layers: map<string, Layer>, disk: seq<Byte>, t: (string, Kind), data: seq<Byte>,
                                     n: nat, layers': map<string, Layer>, disk': seq<Byte>)
    requires t.0 in layers && 8 <= n <= |data|
    requires Transferred(true, disk, disk', data, data, FrontByte(layers[t.0], t.1), n)
    requires layers' == layers[t.0 := layers[t.0].(crc := layers[t.0].crc[t.1 := DataCrc(data)])]
    ensures HoldsOne(layers', disk', t, data[..Smaller(n, Capacity(Params(layers[t.0]), t.1))])
  {
    SameLba(layers[t.0], layers'[t.0], t.1);
    LastIs(layers[t.0], t.1);
    CapacityPositive(Params(layers[t.0]), t.1);
    hide FrontByte, EndByte, DataCrc, Capacity, Transferred;
    var m := Smaller(n, Capacity(Params(layers[t.0]), t.1));
    FirstEight(data, m);
    WrittenPart(disk, disk', data, FrontByte(layers[t.0], t.1), n, m);
  }

  lemma WrittenPart(disk: seq<Byte>, disk': seq<Byte>, data: seq<Byte>, at: nat, n: nat, m: nat)
    requires m <= n <= |data| && 0 < n && Transferred(true, disk, disk', data, data, at, n)
    ensures at + m <= |disk'| && disk'[at..at + m] == data[..m]
  {
    assert disk'[at..at + n] == data[..n];
    assert disk'[at..at + m] == disk'[at..at + n][..m];
  }

  lemma {:induction false} OtherHolds(layers: map<string, Layer>, disk: seq<Byte>, t: (string, Kind), data: seq<Byte>,
                                      n: nat, layers': map<string, Layer>, disk': seq<Byte>, u: (string, Kind),
                                      other: seq<Byte>)
    requires HoldsOne(layers, disk, u, other) && t.0 in layers && u != t && 8 <= n <= |data|
    requires Spared(layers, t, n, u, |other|)
    requires Transferred(true, disk, disk', data, data, FrontByte(layers[t.0], t.1), n)
    requires layers' == layers[t.0 := layers[t.0].(crc := layers[t.0].crc[t.1 := DataCrc(data)])]
    ensures HoldsOne(layers', disk', u, other)
  {
    hide FrontByte, EndByte, DataCrc;
    SameLba(layers[u.0], layers'[u.0], u.1);
    Elsewhere(disk, disk', FrontByte(layers[t.0], t.1), data[..n], FrontByte(layers[u.0], u.1), |other|);
  }

  lemma SameLba(l: Layer, l': Layer, k: Kind)
    requires l'.lba == l.lba && l'.paramNum == l.paramNum
    ensures FrontByte(l', k) == FrontByte(l, k) && EndByte(l', k) == EndByte(l, k)
  {
  }

  lemma Elsewhere(disk: seq<Byte>, disk': seq<Byte>, at: nat, data: seq<Byte>, from: nat, n: nat)
    requires at + |data| <= |disk| && disk' == disk[..at] + data + disk[at + |data|..] && from + n <= |disk|
    requires from + n <= at || at + |data| <= from
    ensures disk'[from..from + n] == disk[from..from + n]
  {
  }

  /** More layers, or other links, change nothing about the data. */
  lemma {:induction false} HoldsKept(layers: map<string, Layer>, layers': map<string, Layer>, disk: seq<Byte>,
                                     tensors: Tensors)
    requires Holds(layers, disk, tensors)
    requires forall n :: n in layers ==>
      && n in layers' && layers'[n].lba == layers[n].lba
      && layers'[n].paramNum == layers[n].paramNum && layers'[n].crc == layers[n].crc
    ensures Holds(layers', disk, tensors)
  {
    hide FrontByte, EndByte, DataCrc;
    forall t | t in tensors ensures HoldsOne(layers', disk, t, tensors[t]) {
      assert HoldsOne(layers, disk, t, tensors[t]);
      SameLba(layers[t.0], layers'[t.0], t.1);
    }
  }

  const NO_CRCS: map<Kind, bv32> := map[Param16 := 0, Param32 := 0, Gradient32 := 0, Momentum32 := 0, Variance32 := 0]

  /** Which tensor the last two parts of a file name mean, and the unit's width. */
  function KindOf(currentType: string, dataUnit: string): (r: (Outcome, Kind)) {
    if currentType == "param" then
      if dataUnit == "bfloat16" then (Done, Param16)
      else if dataUnit == "float32" then (Done, Param32)
      else (Failed(BadUnit), Param16)
    else if currentType == "gradient" then (Done, Gradient32)
    else if currentType == "momentum" then (Done, Momentum32)
    else if currentType == "variance" then (Done, Variance32)
    else (Failed(BadType), Param16)
  }

  /** The i-th tensor of a layer, in the order of the disk, by the last two parts of its file's name. */
  predicate Names(i: nat, currentType: string, dataUnit: string) {
    match i
    case 0 => currentType == "param" && dataUnit == "bfloat16"
    case 1 => currentType == "param" && dataUnit == "float32"
    case 2 => currentType == "gradient"
    case 3 => currentType == "momentum"
    case 4 => currentType == "variance"
    case _ => false
  }

  /** Blocks of a layer before its i-th tensor: each has its aligned parameters and eight blocks more. */
  function BlocksBefore(params: nat, i: nat): nat {
    if i == 0 then 0 else Aligned(params) * 2 / BLOCK + 8 + (i - 1) * (Aligned(params) * 4 / BLOCK + 8)
  }

  /**
   Exactly the five names mean a tensor, and each one lies where its place in the layer says:
   after the blocks of those before it, two bytes a parameter for the first and four for the others.
   */
  lemma {:induction false} TensorByName(l: Layer, next: nat, a: string, b: string)
    requires LayerOk(l, next)
    ensures KindOf(a, b).0.Done? <==> exists i: nat :: i < 5 && Names(i, a, b)
    ensures forall i: nat :: i < 5 && Names(i, a, b) ==>
      && FrontByte(l, KindOf(a, b).1) == (l.lba.param16 + BlocksBefore(Params(l), i)) * BLOCK
      && Width(KindOf(a, b).1) == if i == 0 then 2 else 4
  {
    hide Aligned;
    if KindOf(a, b).0.Done? {
      assert Names(0, a, b) || Names(1, a, b) || Names(2, a, b) || Names(3, a, b) || Names(4, a, b);
    }
  }

  /** Two files of a layer are one tensor exactly when their types agree, and for parameters their units. */
  lemma {:induction false} KindsDiffer(a: string, b: string, c: string, d: string)
    requires KindOf(a, b).0.Done? && KindOf(c, d).0.Done?
    ensures KindOf(a, b).1 == KindOf(c, d).1 <==> !OtherType(a, b, c, d)
  {
  }

  predicate OtherType(a: string, b: string, c: string, d: string) {
    a != c || (a == "param" && b != d)
  }

  /** A layer registered at `next`. */
  function NewLayer(count: string, params: nat, next: nat): Layer {
    Layer(count, UNLINKED, Place(next, params), NO_CRCS)
  }

  lemma {:induction false} RegisterOk(layers: map<string, Layer>, next: nat, id: string, count: string, params: nat)
    requires LayersOk(layers, next) && id !in layers && Number(count) == Some(params)
    ensures LayersOk(layers[id := NewLayer(count, params, next)], PlaceEnd(next, params))
  {
    hide Place, PlaceEnd, Number;
    var l, layers' := NewLayer(count, params, next), layers[id := NewLayer(count, params, next)];
    var next' := PlaceEnd(next, params);
    assert l.lba.param16 == next && Params(l) == params && next' >= next by { PlaceFrom(next, params); }
    assert LayerOk(l, next') by { AllKinds(); }
    forall n | n in layers' ensures LayerOk(layers'[n], next') && Followed(layers', next', layers'[n]) {
      if n != id {
        assert Followed(layers, next, layers[n]);
        if EndBlock(layers[n]) == next {
          assert layers'[id].lba.param16 == EndBlock(layers[n]);
        } else {
          var m :| m in layers && layers[m].lba.param16 == EndBlock(layers[n]);
          assert layers'[m].lba.param16 == EndBlock(layers[n]);
        }
      }
    }
  }

  lemma AllKinds()
    ensures forall k: Kind :: k in NO_CRCS
  {
    forall k: Kind ensures k in NO_CRCS {
      match k case Param16 => case Param32 => case Gradient32 => case Momentum32 => case Variance32 =>
    }
  }

  lemma AllCrcs(layers: map<string, Layer>, next: nat)
    requires LayersOk(layers, next)
    ensures forall n, k: Kind :: n in layers ==> k in layers[n].crc
  {
    hide Place, PlaceEnd, Number;
    forall n, k: Kind | n in layers ensures k in layers[n].crc {
      assert LayerOk(layers[n], next);
    }
  }

  /** Links and checksums do not move a layer. */
  lemma {:induction false} SameLayout(layers: map<string, Layer>, layers': map<string, Layer>, next: nat)
    requires LayersOk(layers, next) && layers'.Keys == layers.Keys
    requires forall n :: n in layers ==>
      && layers'[n].lba == layers[n].lba && layers'[n].paramNum == layers[n].paramNum
      && forall k: Kind :: k in layers'[n].crc
    ensures LayersOk(layers', next)
  {
    hide Place, PlaceEnd, Number;
    forall n | n in layers' ensures LayerOk(layers'[n], next) && Followed(layers', next, layers'[n]) {
      assert LayerOk(layers[n], next) && Followed(layers, next, layers[n]);
      if EndBlock(layers[n]) != next {
        var m :| m in layers && layers[m].lba.param16 == EndBlock(layers[n]);
        assert layers'[m].lba.param16 == EndBlock(layers'[n]);
      }
    }
    forall m, n | m in layers' && n in layers' && m != n
      ensures Behind(layers'[m], layers'[n]) || Behind(layers'[n], layers'[m])
    {
      assert Behind(layers[m], layers[n]) || Behind(layers[n], layers[m]);
    }
  }

  lemma PlaceFrom(next: nat, params: nat)
    ensures Place(next, params).param16 == next && next <= PlaceEnd(next, params)
  {
    hide Blocks;
  }

  lemma CrcKnown(layers: map<string, Layer>, next: nat, n: string, k: Kind)
    requires LayersOk(layers, next) && n in layers
    ensures k in layers[n].crc
  {
    assert LayerOk(layers[n], next);
  }

  lemma OneOf(layers: map<string, Layer>, disk: seq<Byte>, tensors: Tensors, t: (string, Kind))
    requires Holds(layers, disk, tensors) && t in tensors
    ensures HoldsOne(layers, disk, t, tensors[t])
  {
  }

  /** What was written last is what comes back, and its checksum is the stored one. */
  lemma {:induction false} ReadBack(layers: map<string, Layer>, disk: seq<Byte>, t: (string, Kind), was: seq<Byte>,
                                    b0: seq<Byte>, b: seq<Byte>, n: nat)
    requires HoldsOne(layers, disk, t, was) && 8 <= n
    requires Transferred(false, disk, disk, b0, b, FrontByte(layers[t.0], t.1), n)
    ensures n <= |was| ==> n <= |b0| && b == was[..n] + b0[n..]
    ensures was != [] ==> |b| >= 8 && t.1 in layers[t.0].crc && layers[t.0].crc[t.1] == DataCrc(b)
  {
    hide DataCrc, FrontByte, EndByte;
    var at := FrontByte(layers[t.0], t.1);
    if n <= |was| {
      assert disk[at..at + n] == disk[at..at + |was|][..n];
    }
    if was != [] {
      assert disk[at..at + 8] == disk[at..at + |was|][..8];
      SameEight(was, b);
    }
  }

  lemma SameEight(a: seq<Byte>, b: seq<Byte>)
    requires |a| >= 8 && |b| >= 8 && a[..8] == b[..8]
    ensures DataCrc(a) == DataCrc(b)
  {
  }

  lemma Forgotten(layers: map<string, Layer>, was: Tensors, t: (string, Kind), data: seq<Byte>)
    requires t.0 in layers
    ensures Remembered(layers, was, t, data, 0) == was - {t}
  {
  }

  /** What is remembered depends on the blocks of the layers only. */
  lemma {:induction false} SameRemembered(layers: map<string, Layer>, layers': map<string, Layer>, was: Tensors,
                                          t: (string, Kind), data: seq<Byte>, n: nat)
    requires t.0 in layers && t.0 in layers' && n <= |data|
    requires layers' == layers[t.0 := layers[t.0].(crc := layers'[t.0].crc)]
    ensures Remembered(layers', was, t, data, n) == Remembered(layers, was, t, data, n)
  {
    hide FrontByte, Capacity;
    forall u | u in was ensures Spared(layers', t, n, u, |was[u]|) <==> Spared(layers, t, n, u, |was[u]|) {
      SameLba(layers[t.0], layers'[t.0], t.1);
      if u.0 in layers {
        SameLba(layers[u.0], layers'[u.0], u.1);
      }
    }
  }

  lemma NothingHeld()
    ensures forall layers: map<string, Layer>, disk: seq<Byte> :: Holds(layers, disk, map[])
  {
  }

  lemma LastIs(l: Layer, k: Kind)
    ensures EndByte(l, k) == FrontByte(l, k) + Capacity(Params(l), k)
  {
  }

  /** The checksum looks at the first eight bytes only. */
  lemma FirstEight(data: seq<Byte>, n: nat)
    requires 8 <= n <= |data|
    ensures DataCrc(data[..n]) == DataCrc(data)
  {
    hide Crc;
    assert data[..n][..8] == data[..8];
  }

  lemma Untransferred(d0: seq<Byte>, d: seq<Byte>, b: seq<Byte>, at: nat)
    requires Transferred(true, d0, d, b, b, at, 0)
    ensures d == d0
  {
  }

  /** A new checksum moves no region, and unsettles only its own tensor. */
  lemma CrcOk(layers: map<string, Layer>, next: nat, t: (string, Kind), crc: bv32)
    requires LayersOk(layers, next) && t.0 in layers
    ensures LayersOk(layers[t.0 := layers[t.0].(crc := layers[t.0].crc[t.1 := crc])], next)
  {
    hide LayersOk, Place, PlaceEnd, Number;
    AllCrcs(layers, next);
    SameLayout(layers, layers[t.0 := layers[t.0].(crc := layers[t.0].crc[t.1 := crc])], next);
  }

  lemma {:induction false} CrcForgotten(layers: map<string, Layer>, disk: seq<Byte>, tensors: Tensors,
                                        t: (string, Kind), crc: bv32)
    requires Holds(layers, disk, tensors) && t.0 in layers
    ensures Holds(layers[t.0 := layers[t.0].(crc := layers[t.0].crc[t.1 := crc])], disk, tensors - {t})
  {
    hide FrontByte, EndByte, DataCrc;
    var layers' := layers[t.0 := layers[t.0].(crc := layers[t.0].crc[t.1 := crc])];
    forall u | u in tensors && u != t ensures HoldsOne(layers', disk, u, tensors[u]) {
      assert HoldsOne(layers, disk, u, tensors[u]);
      SameLba(layers[u.0], layers'[u.0], u.1);
    }
  }

  /** The bytes of `size` that fill whole blocks. */
  function Whole(size: nat): nat {
    size / BLOCK * BLOCK
  }

  /** The first n bytes of the buffer and n bytes of the disk from `at` on have become the same. */
  ghost predicate Transferred(write: bool, d0: seq<Byte>, d: seq<Byte>, b0: seq<Byte>, b: seq<Byte>, at: nat, n: nat) {
    if n == 0 then d == d0 && b == b0 else
      && at + n <= |d0| && n <= |b0|
      && if write then b == b0 && d == d0[..at] + b0[..n] + d0[at + n..]
         else d == d0 && b == d0[at..at + n] + b0[n..]
  }

  lemma TransferredNothing(write: bool, d: seq<Byte>, b: seq<Byte>, at: nat)
    ensures Transferred(write, d, d, b, b, at, 0)
  {
  }

  /** How the loop cuts what is left after `done` bytes of whole blocks. */
  lemma WholeOf(size: nat, done: nat)
    requires done % BLOCK == 0 && done <= size
    ensures Whole(size) == done + (size - done) / BLOCK * BLOCK <= size
    ensures (size - done) / BLOCK > CHUNK ==> size - done >= (CHUNK + 1) * BLOCK && (done + CHUNK * BLOCK) % BLOCK == 0
    ensures size == 0 ==> Whole(size) == 0
    ensures size >= BLOCK ==> Whole(size) >= BLOCK
  {
  }

  lemma TransferredMore(write: bool, d0: seq<Byte>, d1: seq<Byte>, d2: seq<Byte>, b0: seq<Byte>, b1: seq<Byte>,
                        b2: seq<Byte>, at: nat, done: nat, n: nat)
    requires Transferred(write, d0, d1, b0, b1, at, done) && n > 0
    requires at + done + n <= |d1| && done + n <= |b1|
    requires if write then b2 == b1 && d2 == d1[..at + done] + b1[done..done + n] + d1[at + done + n..]
             else d2 == d1 && b2 == b1[..done] + d1[at + done..at + done + n] + b1[done + n..]
    ensures Transferred(write, d0, d2, b0, b2, at, done + n)
  {
    if write {
      assert b0[..done] + b0[done..done + n] == b0[..done + n];
    } else {
      assert d0[at..at + done] + d0[at + done..at + done + n] == d0[at..at + done + n];
    }
  }

  function Linked(layers: map<string, Layer>, name: string, hash: string): map<string, Layer>
    requires name in layers
  {
    layers[name := layers[name].(hashId := hash)]
  }

  lemma LinkedOk(layers: map<string, Layer>, next: nat, name: string, hash: string)
    requires LayersOk(layers, next) && name in layers
    ensures LayersOk(Linked(layers, name, hash), next)
  {
    hide LayersOk, Place, PlaceEnd, Number;
    AllCrcs(layers, next);
    SameLayout(layers, Linked(layers, name, hash), next);
  }

  /** A new first match comes before everything the old one came before. */
  lemma {:induction false} StillFirst(layers: map<string, Layer>, todo: set<string>, hash: string, n: string,
                                      found: bool, name: string)
    requires found ==> forall m :: m in layers && m !in todo && layers[m].hashId == hash ==> !Less(m, name)
    requires if found then Less(n, name) else forall m :: m in layers && m !in todo ==> layers[m].hashId != hash
    ensures forall m :: m in layers && m !in todo && layers[m].hashId == hash ==> !Less(m, n)
    ensures !Less(n, n)
  {
    if Less(n, n) {
      LessOneWay(n, n);
    }
    if found {
      forall m | m in layers && m !in todo && layers[m].hashId == hash ensures !Less(m, n) {
        if Less(m, n) {
          LessTransitive(m, n, name);
        }
      }
    }
  }

  /** No hash stands for two layers. */
  ghost predicate OneToOne(layers: map<string, Layer>) {
    forall m, n :: m in layers && n in layers && m != n && layers[m].hashId == layers[n].hashId ==>
      layers[m].hashId == UNLINKED
  }

  /** Linking keeps hashes one-to-one exactly when the hash is new; the code does not look. */
  lemma {:induction false} LinkOneToOneIff(layers: map<string, Layer>, name: string, hash: string)
    requires OneToOne(layers) && name in layers && layers[name].hashId == UNLINKED && hash != UNLINKED
    ensures OneToOne(Linked(layers, name, hash)) <==> forall n :: n in layers ==> layers[n].hashId != hash
  {
    var layers' := Linked(layers, name, hash);
    if n :| n in layers && layers[n].hashId == hash {
      assert layers'[n].hashId == layers'[name].hashId && n != name;
    }
  }

  /**
   While hashes are one-to-one, an optimizer file with a given hash means the same
   layer, and so the same blocks, for ever: whatever layers and links came in between.
   */
  lemma {:induction false} HashKeepsLayer(before: map<string, Layer>, after: map<string, Layer>, m: string, n: string)
    requires m in before && n in after && before[m].hashId == after[n].hashId != UNLINKED && OneToOne(after)
    requires m in after && after[m].lba == before[m].lba && after[m].hashId == before[m].hashId
    ensures m == n && after[n].lba == before[m].lba
  {
  }

  /** Whether getTempLBAMgr can make a layer of a name: a count and a layer number, in this order. */
  function RegisterVerdict(id: string, count: string): Outcome {
    if Number(count).None? || Number(id).None? then Failed(NotANumber)
    else if Number(id).value >= MAX_LAYER_SIZE then Failed(LayerTooLarge)
    else Done
  }

  /** What the last parts of a name and the operation come to, once the layer is found. */
  function ActVerdict(name: seq<string>, op: nat): (r: Outcome)
    requires |name| > 1
    ensures r != Failed(CrcMismatch)
  {
    var verdict := KindOf(name[|name| - 2], name[|name| - 1]).0;
    if !verdict.Done? then verdict
    else if Number(name[1]).None? then Failed(NotANumber)
    else if op > 1 then Failed(BadOp)
    else Done
  }

  class LayerStore {
    var layers: map<string, Layer>
    var next: nat                // allocLBAoffset
    var prevName: seq<string>
    var prevOp: nat
    const disk: array<Byte>
    ghost var tensors: Tensors   // what was written, and is still there

    /** clearMap. */
    constructor (disk: array<Byte>)
      ensures Valid() && layers == map[] && next == 0 && tensors == map[] && this.disk == disk && prevName == []
    {
      this.disk, layers, next, prevName, prevOp, tensors := disk, map[], 0, [], 3, map[];
    }

    ghost predicate Valid()
      reads this, disk
    {
      && LayersOk(layers, next) && Holds(layers, disk[..], tensors)
      && (prevOp == 0 ==> 4 <= |prevName| <= 5)
    }

    /** Once a layer is known, its blocks and its link stay. */
    twostate predicate LayersKept()
      reads this
    {
      forall n :: n in old(layers) ==>
        && n in layers && layers[n].lba == old(layers)[n].lba && layers[n].paramNum == old(layers)[n].paramNum
        && (old(layers)[n].hashId != UNLINKED ==> layers[n].hashId == old(layers)[n].hashId)
    }

    /** A layer's first file: getTempLBAMgr gives it its blocks, if the name makes sense. */
    method Register(id: string, count: string) returns (r: Outcome)
      requires Valid() && id !in layers
      modifies `layers, `next
      ensures Valid() && LayersKept()
      ensures r == RegisterVerdict(id, count)
      ensures r.Done? ==>
        && layers == old(layers)[id := NewLayer(count, Number(count).value, old(next))]
        && next == PlaceEnd(old(next), Number(count).value)
      ensures !r.Done? ==> layers == old(layers) && next == old(next)
    {
      hide LayersOk, Holds, Place, PlaceEnd, Number;
      match Number(count) {
        case None =>
          return Failed(NotANumber);
        case Some(params) =>
          if Number(id) == None {
            return Failed(NotANumber);
          }
          if Number(id).value >= MAX_LAYER_SIZE {
            return Failed(LayerTooLarge);
          }
          RegisterOk(layers, next, id, count, params);
          HoldsKept(layers, layers[id := NewLayer(count, params, next)], disk[..], tensors);
          layers := layers[id := NewLayer(count, params, next)];
          next := PlaceEnd(next, params);
          return Done;
      }
    }

    /** The first layer, in the order of the map, whose link is `hash`. */
    method FindByHash(hash: string) returns (found: bool, name: string)
      ensures found <==> exists n :: n in layers && layers[n].hashId == hash
      ensures found ==> name in layers && layers[name].hashId == hash
      ensures found ==> forall n :: n in layers && layers[n].hashId == hash ==> !Less(n, name)
    {
      found, name := false, "";
      var todo := layers.Keys;
      while todo != {}
        invariant todo <= layers.Keys
        invariant found <==> exists n :: n in layers && n !in todo && layers[n].hashId == hash
        invariant found ==> name in layers && name !in todo && layers[name].hashId == hash
        invariant found ==> forall n :: n in layers && n !in todo && layers[n].hashId == hash ==> !Less(n, name)
        decreases |todo|
      {
        var n :| n in todo;
        if layers[n].hashId == hash && (!found || Less(n, name)) {
          StillFirst(layers, todo, hash, n, found, name);
          found, name := true, n;
        }
        todo := todo - {n};
      }
    }

    /** The operation before was a read of a file whose name begins with a layer number. */
    predicate AfterLayerRead()
      requires prevOp == 0 ==> prevName != []
      reads this
    {
      prevOp == 0 && Number(prevName[0]).Some? && Number(prevName[0]).value < MAX_LAYER_SIZE
    }

    /** That layer has no link yet, and as many parameters as the file at hand. */
    predicate CanLink(count: string)
      requires prevOp == 0 ==> |prevName| >= 2
      reads this
    {
      && AfterLayerRead() && prevName[0] in layers && layers[prevName[0]].hashId == UNLINKED
      && prevName[1] == count
    }

    /** Which assertion or conversion fails on the way, if one does. */
    function LinkVerdict(count: string): Outcome
      requires prevOp == 0 ==> |prevName| >= 2
      reads this
    {
      if prevOp == 0 && Number(prevName[0]).None? then Failed(NotANumber)
      else if AfterLayerRead() && prevName[0] !in layers then Failed(NoLayerForHash)
      else if AfterLayerRead() && layers[prevName[0]].hashId == UNLINKED && prevName[1] != count then
        Failed(NameMismatch)
      else Done
    }

    /**
     The optimizer's files carry a hash, not a layer. The first one read or written right
     after a read of a layer links that layer to the hash.
     */
    method Link(hash: string, count: string) returns (r: Outcome)
      requires Valid()
      modifies `layers
      ensures Valid() && LayersKept() && r != Failed(CrcMismatch)
      ensures layers == if old(CanLink(count)) then Linked(old(layers), prevName[0], hash) else old(layers)
      ensures r == old(LinkVerdict(count))
    {
      hide LayersOk, Holds, Number;
      if prevOp != 0 {
        return Done;
      }
      if Number(prevName[0]) == None {
        return Failed(NotANumber);
      }
      if Number(prevName[0]).value >= MAX_LAYER_SIZE {
        return Done;
      }
      if prevName[0] !in layers {
        return Failed(NoLayerForHash);
      }
      if layers[prevName[0]].hashId == UNLINKED {
        if prevName[1] != count {
          return Failed(NameMismatch);
        }
        LinkedOk(layers, next, prevName[0], hash);
        HoldsKept(layers, Linked(layers, prevName[0], hash), disk[..], tensors);
        layers := Linked(layers, prevName[0], hash);
      }
      return Done;
    }

    /** The layers and the next free block, after a file's layer was looked for. */
    function Located(directory: string, name: seq<string>): (map<string, Layer>, nat)
      requires |name| > 1 && (prevOp == 0 ==> |prevName| >= 2)
      reads this
    {
      if directory == "bfloat16params" && name[0] !in layers && RegisterVerdict(name[0], name[1]).Done? then
        var params := Number(name[1]).value;
        (layers[name[0] := NewLayer(name[1], params, next)], PlaceEnd(next, params))
      else if directory == "optimizer" && CanLink(name[1]) then (Linked(layers, prevName[0], name[0]), next)
      else (layers, next)
    }

    /** Which assertion or conversion fails while the layer is looked for, if one does. */
    ghost function LocateVerdict(directory: string, name: seq<string>): (r: Outcome)
      requires |name| > 1 && (prevOp == 0 ==> |prevName| >= 2)
      reads this
      ensures r != Failed(CrcMismatch)
    {
      if directory == "bfloat16params" then
        if name[0] in layers then Done else RegisterVerdict(name[0], name[1])
      else if directory == "optimizer" then
        if !LinkVerdict(name[1]).Done? then LinkVerdict(name[1])
        else
          var found := Located(directory, name).0;
          if exists n :: n in found && found[n].hashId == name[0] then Done else Failed(NotInMap)
      else Failed(NotInMap)
    }

    /** The same for a whole call; what is left to fail then is the transfer, or a read's checksum. */
    ghost function AccessVerdict(path: seq<string>, name: seq<string>, op: nat): Outcome
      requires prevOp == 0 ==> |prevName| >= 2
      reads this
    {
      if |path| != 6 || !(4 <= |name| <= 5) then Failed(BadName)
      else if !LocateVerdict(path[4], name).Done? then LocateVerdict(path[4], name)
      else ActVerdict(name, op)
    }

    /** Which layer a file belongs to; its directory says how to find out. */
    method Locate(directory: string, name: seq<string>) returns (r: Outcome, layer: string)
      requires Valid() && 4 <= |name| <= 5
      modifies `layers, `next
      ensures Valid() && LayersKept() && r == old(LocateVerdict(directory, name))
      ensures (layers, next) == old(Located(directory, name))
      ensures r.Done? ==> layer in layers
      ensures directory == "bfloat16params" ==> layer == name[0]
      ensures r.Done? && directory != "bfloat16params" ==>
        && directory == "optimizer" && layers[layer].hashId == name[0]
        && forall n :: n in layers && layers[n].hashId == name[0] ==> !Less(n, layer)
    {
      hide LayersOk, Holds, Number, Less, Place, PlaceEnd;
      hide RegisterVerdict;
      layer := name[0];
      if directory == "bfloat16params" {
        r := Done;
        if layer !in layers {
          r := Register(layer, name[1]);
        }
      } else if directory == "optimizer" {
        r := Link(name[0], name[1]);
        if r.Done? {
          var found;
          found, layer := FindByHash(name[0]);
          r := if found then Done else Failed(NotInMap);
        }
      } else {
        r := Failed(NotInMap);
      }
    }

    /**
     The transfer loop of nvme_operation_handler, one command at a time: as many whole
     blocks as fit in `size` bytes, to or from block `lba` on. A block that the disk does
     not have fails its command, and the program stops there.
     */
    method Transfer(lba: nat, size: nat, write: bool, data: array<Byte>) returns (ok: bool)
      requires data != disk && size <= data.Length
      modifies if write then {disk} else {data}
      ensures ok == (size == 0 || (BLOCK <= size && lba * BLOCK + Whole(size) <= disk.Length))
      ensures ok ==> Transferred(write, old(disk[..]), disk[..], old(data[..]), data[..], lba * BLOCK, Whole(size))
    {
      hide Transferred, Whole;
      WholeOf(size, 0);
      TransferredNothing(write, disk[..], data[..], lba * BLOCK);
      if 0 < size < BLOCK {
        return false;
      }
      var left, done := size, 0;
      ghost var at, d0, b0 := lba * BLOCK, disk[..], data[..];
      while left > 0
        invariant if left > 0 then left >= BLOCK && left == size - done && done % BLOCK == 0 else done == Whole(size)
        invariant Transferred(write, d0, disk[..], b0, data[..], at, done) && (done > 0 ==> at + done <= disk.Length)
        decreases left
      {
        WholeOf(size, done);
        var blocks := if left / BLOCK > CHUNK then CHUNK else left / BLOCK;
        left := if left / BLOCK > CHUNK then left - blocks * BLOCK else 0;
        if lba * BLOCK + done + blocks * BLOCK > disk.Length {
          return false;
        }
        Command(lba * BLOCK, done, blocks * BLOCK, write, data, d0, b0);
        done := done + blocks * BLOCK;
      }
      ok := true;
    }

    /** One read or write command, after `done` bytes of the transfer. */
    method Command(at: nat, done: nat, bytes: nat, write: bool, data: array<Byte>, ghost d0: seq<Byte>,
                   ghost b0: seq<Byte>)
      requires data != disk && at + done + bytes <= disk.Length && done + bytes <= data.Length && bytes > 0
      requires Transferred(write, d0, disk[..], b0, data[..], at, done)
      modifies if write then {disk} else {data}
      ensures Transferred(write, d0, disk[..], b0, data[..], at, done + bytes)
    {
      hide Transferred;
      ghost var d1, b1 := disk[..], data[..];
      if write {
        Blit(data, done, disk, at + done, bytes);
      } else {
        Blit(disk, at + done, data, done, bytes);
      }
      TransferredMore(write, d0, d1, disk[..], b0, b1, data[..], at, done, bytes);
    }

    /** The write half of parsefromFileName: the checksum is stored, then the data goes out. */
    method WriteTensor(t: (string, Kind), data: array<Byte>, size: nat) returns (r: Outcome)
      requires Valid() && t.0 in layers && data != disk && size <= data.Length && 8 <= data.Length
      modifies `layers, `tensors, disk
      ensures Valid() && LayersKept() && data[..] == old(data[..])
      ensures layers == old(layers)[t.0 := old(layers)[t.0].(crc := old(layers)[t.0].crc[t.1 := DataCrc(data[..])])]
      ensures r == Done || r == Failed(IoFailed)
      ensures r == Done <==>
        size == 0 || (BLOCK <= size && FrontByte(layers[t.0], t.1) + Whole(size) <= disk.Length)
      ensures Whole(size) <= size
      ensures r == Done ==> tensors == Remembered(layers, old(tensors), t, data[..], Whole(size))
      ensures r == Done && 0 < Whole(size) <= Capacity(Params(layers[t.0]), t.1) ==>
        tensors == old(tensors)[t := data[..Whole(size)]]
    {
      hide LayersOk, DataCrc, Transferred, Whole, Capacity, EndByte, Place, PlaceEnd, Lba, Holds, Remembered;
      WholeOf(size, 0);
      ghost var l0, d0, was := layers, disk[..], tensors;
      tensors := map[];
      NothingHeld();
      var crc := GenCrcFromData(data);
      layers := layers[t.0 := layers[t.0].(crc := layers[t.0].crc[t.1 := crc])];
      CrcOk(l0, next, t, crc);
      SameLba(l0[t.0], layers[t.0], t.1);
      var ok := Transfer(Lba(layers[t.0].lba, t.1), size, true, data);
      if !ok {
        return Failed(IoFailed);
      }
      ghost var n := Whole(size);
      SameRemembered(l0, layers, was, t, data[..], n);
      tensors := Remembered(l0, was, t, data[..], n);
      if n == 0 {
        CrcForgotten(l0, d0, was, t, crc);
        Forgotten(l0, was, t, data[..]);
        assert disk[..] == d0 by { Untransferred(d0, disk[..], data[..], FrontByte(l0[t.0], t.1)); }
      } else {
        WriteHolds(l0, d0, was, t, data[..], n, layers, disk[..]);
        if n <= Capacity(Params(l0[t.0]), t.1) {
          RememberedFits(l0, next, d0, was, t, data[..], n);
        }
      }
      return Done;
    }

    /** What a read of `size` bytes of tensor t does when that many were written to it last. */
    twostate predicate Delivered(t: (string, Kind), data: array<Byte>, size: nat)
      reads this, data
    {
      t in tensors && BLOCK <= size && Whole(size) <= |tensors[t]| && data.Length >= size ==>
        data[..] == tensors[t][..Whole(size)] + old(data[..])[Whole(size)..]
    }

    /** The read half of parsefromFileName: the data comes in, then its checksum is compared. */
    method ReadTensor(t: (string, Kind), data: array<Byte>, size: nat) returns (r: Outcome)
      requires Valid() && t.0 in layers && t.1 in layers[t.0].crc && data != disk && size <= data.Length
      requires 8 <= data.Length
      modifies data
      ensures Valid() && Whole(size) <= size
      ensures r != Failed(IoFailed) ==> Delivered(t, data, size)
      ensures r == Done || r == Failed(IoFailed) || r == Failed(CrcMismatch)
      ensures r == Failed(CrcMismatch) <==> r != Failed(IoFailed) && layers[t.0].crc[t.1] != DataCrc(data[..])
      ensures r == Failed(IoFailed) <==>
        !(size == 0 || (BLOCK <= size && FrontByte(layers[t.0], t.1) + Whole(size) <= disk.Length))
      ensures BLOCK <= size && t in tensors && tensors[t] != [] ==> r != Failed(CrcMismatch)
    {
      hide LayersOk, DataCrc, Transferred, Whole, Capacity, EndByte, Place, PlaceEnd, Lba, Holds;
      WholeOf(size, 0);
      ghost var b0 := data[..];
      var ok := Transfer(Lba(layers[t.0].lba, t.1), size, false, data);
      if !ok {
        return Failed(IoFailed);
      }
      if t in tensors && BLOCK <= size {
        assert HoldsOne(layers, disk[..], t, tensors[t]) by { OneOf(layers, disk[..], tensors, t); }
        ReadBack(layers, disk[..], t, tensors[t], b0, data[..], Whole(size));
      }
      var crc := GenCrcFromData(data);
      r := if layers[t.0].crc[t.1] == crc then Done else Failed(CrcMismatch);
    }

    /** The books of the store after a call: only the layer looked for, the last operation and checksums can change. */
    twostate predicate Booked(path: seq<string>, name: seq<string>, op: nat)
      requires old(prevOp) == 0 ==> |old(prevName)| >= 2
      reads this
    {
      if |path| != 6 || !(4 <= |name| <= 5) then
        layers == old(layers) && next == old(next) && prevName == old(prevName) && prevOp == old(prevOp)
      else
        && var (found, free) := old(Located(path[4], name));
        && next == free && layers.Keys == found.Keys && (op != 1 ==> layers == found)
        && (forall n :: n in found ==> layers[n] == found[n].(crc := layers[n].crc))
        && (if old(LocateVerdict(path[4], name)).Done? then prevName == name && prevOp == op
            else prevName == old(prevName) && prevOp == old(prevOp))
    }

    /** A write leaves its data's checksum; a read that comes through is refused exactly if it has another one. */
    ghost predicate CrcKept(t: (string, Kind), op: nat, data: array<Byte>, r: Outcome)
      reads this, data
    {
      && t.0 in layers && t.1 in layers[t.0].crc && 8 <= data.Length
      && (op == 1 ==> layers[t.0].crc[t.1] == DataCrc(data[..]))
      && (op == 0 && r != Failed(IoFailed) ==> (r == Done <==> layers[t.0].crc[t.1] == DataCrc(data[..])))
    }

    /** Tensor t is what the file names: the first layer in the map's order, if it names it by a hash. */
    predicate Found(path: seq<string>, name: seq<string>, t: (string, Kind), size: nat, size0: nat)
      reads this
    {
      && |path| == 6 && 4 <= |name| <= 5 && Number(name[1]).Some? && t.0 in layers
      && KindOf(name[|name| - 2], name[|name| - 1]) == (Done, t.1) && size == TensorSize(name, size0)
      && (if path[4] == "bfloat16params" then t.0 == name[0] else
            && path[4] == "optimizer" && layers[t.0].hashId == name[0]
            && forall n :: n in layers && layers[n].hashId == name[0] ==> !Less(n, t.0))
    }

    /**
     parsefromFileName on the parts of a path: the layer is found or registered, then the
     tensor is written (op 1) or read (op 0). A size of 0 stands for the tensor's own size.
     */
    method Access(path: seq<string>, name: seq<string>, op: nat, data: array<Byte>, size0: nat)
      returns (r: Outcome, ghost t: (string, Kind), ghost size: nat)
      requires Valid() && data != disk && size0 <= data.Length && 8 <= data.Length
      requires size0 == 0 && |name| > 1 && Number(name[1]).Some? ==> 4 * Number(name[1]).value <= data.Length
      modifies this, disk, data
      ensures Valid() && LayersKept()
      ensures Booked(path, name, op)
      ensures old(AccessVerdict(path, name, op)) != Done ==> r == old(AccessVerdict(path, name, op))
      ensures old(AccessVerdict(path, name, op)) == Done ==>
        && Found(path, name, t, size, size0) && Whole(size) <= size <= data.Length && CrcKept(t, op, data, r)
        && (r == Done || r == Failed(IoFailed) || (op == 0 && r == Failed(CrcMismatch)))
        && (r == Failed(IoFailed) <==>
              !(size == 0 || (BLOCK <= size && FrontByte(layers[t.0], t.1) + Whole(size) <= disk.Length)))
      ensures op != 1 || (r != Done && r != Failed(IoFailed)) ==> tensors == old(tensors)
      ensures r.Done? && op == 1 ==>
        && data[..] == old(data[..]) && tensors == Remembered(layers, old(tensors), t, data[..], Whole(size))
        && (0 < Whole(size) <= Capacity(Params(layers[t.0]), t.1) ==> tensors == old(tensors)[t := data[..Whole(size)]])
      ensures op == 0 ==> disk[..] == old(disk[..])
      ensures r.Done? && op == 0 ==> Delivered(t, data, size)
      ensures r == Failed(CrcMismatch) ==> op == 0 && (size < BLOCK || t !in old(tensors) || old(tensors)[t] == [])
    {
      hide LayersOk, Holds, Number, Less, Whole, Capacity, FrontByte, Remembered, KindOf, TensorSize, ActVerdict,
           LayerStore.Located, LayerStore.LocateVerdict;
      t, size := ("", Param16), 0;
      if |path| != 6 || !(4 <= |name| <= 5) {
        return Failed(BadName), t, size;
      }
      var layer;
      r, layer := Locate(path[4], name);
      if !r.Done? {
        return;
      }
      prevName, prevOp := name, op;
      r, t, size := Act(layer, name, op, data, size0);
    }

    /** The part of parsefromFileName that the layer is found for. */
    method Act(layer: string, name: seq<string>, op: nat, data: array<Byte>, size0: nat)
      returns (r: Outcome, ghost t: (string, Kind), ghost size: nat)
      requires Valid() && data != disk && size0 <= data.Length && 8 <= data.Length
      requires 4 <= |name| <= 5 && layer in layers
      requires size0 == 0 && Number(name[1]).Some? ==> 4 * Number(name[1]).value <= data.Length
      modifies `layers, `tensors, disk, data
      ensures Valid() && LayersKept() && t == (layer, KindOf(name[|name| - 2], name[|name| - 1]).1)
      ensures layers == old(layers)[layer := old(layers)[layer].(crc := layers[layer].crc)]
      ensures op != 1 ==> layers == old(layers)
      ensures ActVerdict(name, op) == Done ==> CrcKept(t, op, data, r)
      ensures ActVerdict(name, op) != Done ==> r == ActVerdict(name, op)
      ensures ActVerdict(name, op) == Done ==>
        && Number(name[1]).Some? && KindOf(name[|name| - 2], name[|name| - 1]) == (Done, t.1)
        && size == TensorSize(name, size0) && Whole(size) <= size <= data.Length
        && (r == Done || r == Failed(IoFailed) || (op == 0 && r == Failed(CrcMismatch)))
        && (r == Failed(IoFailed) <==>
              !(size == 0 || (BLOCK <= size && FrontByte(layers[layer], t.1) + Whole(size) <= disk.Length)))
      ensures op != 1 || (r != Done && r != Failed(IoFailed)) ==> tensors == old(tensors)
      ensures r.Done? && op == 1 ==>
        && data[..] == old(data[..]) && tensors == Remembered(layers, old(tensors), t, data[..], Whole(size))
        && (0 < Whole(size) <= Capacity(Params(layers[layer]), t.1) ==>
              tensors == old(tensors)[t := data[..Whole(size)]])
      ensures op == 0 ==> disk[..] == old(disk[..])
      ensures r.Done? && op == 0 ==> Delivered(t, data, size)
      ensures r == Failed(CrcMismatch) ==> op == 0 && (size < BLOCK || t !in old(tensors) || old(tensors)[t] == [])
    {
      hide LayersOk, Holds, Number, Less, Whole, Capacity, FrontByte, Remembered;
      var verdict := KindOf(name[|name| - 2], name[|name| - 1]);
      r := verdict.0;
      t, size := (layer, verdict.1), 0;
      if !r.Done? {
        return;
      }
      if Number(name[1]) == None {
        return Failed(NotANumber), t, size;
      }
      var n := TensorSize(name, size0);
      size := n;
      if op == 1 {
        r := WriteTensor((layer, verdict.1), data, n);
      } else if op == 0 {
        CrcKnown(layers, next, layer, verdict.1);
        r := ReadTensor((layer, verdict.1), data, n);
      } else {
        r := Failed(BadOp);
      }
    }
  }

  /** How many bytes a call is about: those asked for, or the tensor's own. */
  function TensorSize(name: seq<string>, size0: nat): nat
    requires |name| > 1 && Number(name[1]).Some?
  {
    if size0 == 0 then Number(name[1]).value * Width(KindOf(name[|name| - 2], name[|name| - 1]).1) else size0
  }

  /** One call of parsefromFileName, with the buffer it is given. */
  datatype Call = Call(path: seq<string>, name: seq<string>, op: nat, data: array<Byte>, size: nat)

  /** The buffer is the caller's own, and large enough. */
  predicate CallOk(c: Call, disk: array<Byte>) {
    && c.data != disk && c.size <= c.data.Length && 8 <= c.data.Length
    && (c.size == 0 && |c.name| > 1 && Number(c.name[1]).Some? ==> 4 * Number(c.name[1]).value <= c.data.Length)
  }

  /** What became of a call: its verdict, the tensor it went to, and the number of bytes it was about. */
  datatype Deed = Did(op: nat, r: Outcome, t: (string, Kind), size: nat)

  /**
   The call wrote nothing, or wrote another tensor than u and did not reach the len bytes
   held of u.
   */
  ghost predicate Leaves(layers: map<string, Layer>, d: Deed, u: (string, Kind), len: nat) {
    || d.op != 1 || (d.r != Done && d.r != Failed(IoFailed))
    || (d.r == Done && d.t != u && (Whole(d.size) == 0 || Spared(layers, d.t, Whole(d.size), u, len)))
  }

  /** A write within its region leaves every other tensor that the store holds. */
  lemma {:induction false} FittingLeaves(layers: map<string, Layer>, next: nat, disk: seq<Byte>, tensors: Tensors,
                                         d: Deed, u: (string, Kind))
    requires LayersOk(layers, next) && Holds(layers, disk, tensors) && u in tensors && d.t != u && d.r == Done
    requires d.t.0 in layers && Whole(d.size) <= Capacity(Params(layers[d.t.0]), d.t.1)
    ensures Leaves(layers, d, u, |tensors[u]|)
  {
    hide LayersOk, FrontByte, EndByte, Capacity, DataCrc, Whole;
    assert HoldsOne(layers, disk, u, tensors[u]);
    RegionsDisjoint(layers, next, d.t.0, d.t.1, u.0, u.1);
    LastIs(layers[d.t.0], d.t.1);
  }

  ghost predicate AllLeave(layers: map<string, Layer>, deeds: seq<Deed>, u: (string, Kind), len: nat) {
    forall k :: 0 <= k < |deeds| ==> Leaves(layers, deeds[k], u, len)
  }

  /** The call went to the tensor that its file names, with the size asked for. */
  predicate Named(c: Call, d: Deed) {
    && |c.path| == 6 && 4 <= |c.name| <= 5 && ActVerdict(c.name, c.op).Done?
    && d.t.1 == KindOf(c.name[|c.name| - 2], c.name[|c.name| - 1]).1 && d.size == TensorSize(c.name, c.size)
    && (c.path[4] == "bfloat16params" ==> d.t.0 == c.name[0])
  }

  /** Its file names another tensor than f's: another type, or another layer's number. */
  predicate OtherFile(c: Call, f: Call) {
    && |c.path| == |f.path| == 6 && 4 <= |c.name| && 4 <= |f.name|
    && (OtherType(c.name[|c.name| - 2], c.name[|c.name| - 1], f.name[|f.name| - 2], f.name[|f.name| - 1])
        || (c.path[4] == f.path[4] == "bfloat16params" && c.name[0] != f.name[0]))
  }

  /**
   None of the calls is about f's file: it reads, or fails before anything is written, or has
   written another file's data within that tensor's region.
   */
  ghost predicate NoneAbout(layers: map<string, Layer>, f: Call, calls: seq<Call>, deeds: seq<Deed>)
    requires |deeds| == |calls|
  {
    forall k :: 0 <= k < |calls| ==>
      || calls[k].op != 1 || (deeds[k].r != Done && deeds[k].r != Failed(IoFailed))
      || (&& deeds[k].r == Done && OtherFile(calls[k], f) && deeds[k].t.0 in layers
          && Whole(deeds[k].size) <= Capacity(Params(layers[deeds[k].t.0]), deeds[k].t.1))
  }

  /** Such calls leave f's tensor, as far as its region goes. */
  lemma {:induction false} NoneAboutLeaves(layers: map<string, Layer>, next: nat, f: Call, g: Deed, n: nat,
                                           calls: seq<Call>, deeds: seq<Deed>)
    requires LayersOk(layers, next) && g.t.0 in layers && n <= Capacity(Params(layers[g.t.0]), g.t.1)
    requires Named(f, g) && |deeds| == |calls|
    requires forall k :: 0 <= k < |calls| ==>
      deeds[k].op == calls[k].op && (deeds[k].r == Done ==> Named(calls[k], deeds[k]))
    requires NoneAbout(layers, f, calls, deeds)
    ensures AllLeave(layers, deeds, g.t, n)
  {
    var t := g.t;
    hide LayersOk, FrontByte, EndByte, Capacity, Whole, KindOf, OtherType, TensorSize, Params;
    forall k | 0 <= k < |deeds| ensures Leaves(layers, deeds[k], t, n) {
      var c, d := calls[k], deeds[k];
      if c.op == 1 && d.r == Done {
        KindsDiffer(c.name[|c.name| - 2], c.name[|c.name| - 1], f.name[|f.name| - 2], f.name[|f.name| - 1]);
        RegionsDisjoint(layers, next, d.t.0, d.t.1, t.0, t.1);
        LastIs(layers[d.t.0], d.t.1);
        LastIs(layers[t.0], t.1);
      }
    }
  }

  /** Every tensor that all of the calls leave is still held as it was. */
  ghost predicate Survived(layers: map<string, Layer>, was: Tensors, now: Tensors, deeds: seq<Deed>) {
    forall u :: u in was && AllLeave(layers, deeds, u, |was[u]|) ==> u in now && now[u] == was[u]
  }

  /** The calls that succeeded went to layers that are known. */
  ghost predicate AtKnown(layers: map<string, Layer>, deeds: seq<Deed>) {
    forall k :: 0 <= k < |deeds| && deeds[k].r == Done ==> deeds[k].t.0 in layers
  }

  ghost predicate SameBlocks(layers: map<string, Layer>, layers': map<string, Layer>) {
    forall n :: n in layers ==>
      n in layers' && layers'[n].lba == layers[n].lba && layers'[n].paramNum == layers[n].paramNum
  }

  /** Where layers are does not change, and so neither what a call leaves. */
  lemma {:induction false} LeavesLater(layers: map<string, Layer>, layers': map<string, Layer>, d: Deed,
                                       u: (string, Kind), len: nat)
    requires SameBlocks(layers, layers') && u.0 in layers && (d.r == Done ==> d.t.0 in layers)
    requires Leaves(layers', d, u, len)
    ensures Leaves(layers, d, u, len)
  {
    hide FrontByte, Whole;
    if d.r == Done {
      SameLba(layers[d.t.0], layers'[d.t.0], d.t.1);
      SameLba(layers[u.0], layers'[u.0], u.1);
    }
  }

  lemma {:induction false} SurvivedMore(layers: map<string, Layer>, layers': map<string, Layer>, was: Tensors,
                                        mid: Tensors, now: Tensors, deeds: seq<Deed>, d: Deed)
    requires Survived(layers, was, mid, deeds) && AtKnown(layers, deeds) && SameBlocks(layers, layers')
    requires d.r == Done ==> d.t.0 in layers'
    requires forall u :: u in mid && Leaves(layers', d, u, |mid[u]|) ==> u in now && now[u] == mid[u]
    requires forall u :: u in was ==> u.0 in layers
    ensures Survived(layers', was, now, deeds + [d]) && AtKnown(layers', deeds + [d])
  {
    hide Leaves;
    var all := deeds + [d];
    forall u | u in was && AllLeave(layers', all, u, |was[u]|)
      ensures u in now && now[u] == was[u]
    {
      assert all[|deeds|] == d;
      forall k | 0 <= k < |deeds| ensures Leaves(layers, deeds[k], u, |was[u]|) {
        assert all[k] == deeds[k];
        LeavesLater(layers, layers', deeds[k], u, |was[u]|);
      }
    }
  }

  /**
   Any sequence of calls keeps the store in order, every known layer's blocks and link, and
   every tensor that no call writes or reaches.
   */
  method AccessAll(store: LayerStore, calls: seq<Call>) returns (ghost deeds: seq<Deed>)
    requires store.Valid() && forall c :: c in calls ==> CallOk(c, store.disk)
    modifies store, store.disk, set c | c in calls :: c.data
    ensures store.Valid() && store.LayersKept()
    ensures |deeds| == |calls| && forall k :: 0 <= k < |deeds| ==>
      deeds[k].op == calls[k].op && (deeds[k].r == Done ==> Named(calls[k], deeds[k]))
    ensures Survived(store.layers, old(store.tensors), store.tensors, deeds) && AtKnown(store.layers, deeds)
  {
    hide LayersOk, Holds, Number, CallOk, Survived, AtKnown, SameBlocks, Leaves, Named;
    deeds := [];
    SurvivedNothing(store.layers, store.tensors);
    HeldKnown(store.layers, store.disk[..], store.tensors);
    var k := 0;
    while k < |calls|
      invariant 0 <= k <= |calls| && store.Valid() && store.LayersKept()
      invariant |deeds| == k && forall j :: 0 <= j < k ==>
        deeds[j].op == calls[j].op && (deeds[j].r == Done ==> Named(calls[j], deeds[j]))
      invariant AtKnown(store.layers, deeds) && Survived(store.layers, old(store.tensors), store.tensors, deeds)
    {
      var c := calls[k];
      assert c in calls && c.data in set c | c in calls :: c.data;
      assert CallOk(c, store.disk);
      ghost var layers, tensors := store.layers, store.tensors;
      var r;
      ghost var d;
      r, d := AccessOne(store, c);
      BlocksKept(layers, store.layers);
      SurvivedMore(layers, store.layers, old(store.tensors), tensors, store.tensors, deeds, d);
      deeds := deeds + [d];
      k := k + 1;
    }
  }

  lemma SurvivedNothing(layers: map<string, Layer>, tensors: Tensors)
    ensures Survived(layers, tensors, tensors, []) && AtKnown(layers, [])
  {
  }

  lemma HeldKnown(layers: map<string, Layer>, disk: seq<Byte>, tensors: Tensors)
    requires Holds(layers, disk, tensors)
    ensures forall u :: u in tensors ==> u.0 in layers
  {
    forall u | u in tensors ensures u.0 in layers {
      assert HoldsOne(layers, disk, u, tensors[u]);
    }
  }

  lemma BlocksKept(layers: map<string, Layer>, layers': map<string, Layer>)
    requires forall n :: n in layers ==>
      n in layers' && layers'[n].lba == layers[n].lba && layers'[n].paramNum == layers[n].paramNum
    ensures SameBlocks(layers, layers')
  {
  }

  method AccessOne(store: LayerStore, c: Call) returns (r: Outcome, ghost d: Deed)
    requires store.Valid() && CallOk(c, store.disk)
    modifies store, store.disk, c.data
    ensures store.Valid() && store.LayersKept() && d.r == r && d.op == c.op
    ensures old(store.AccessVerdict(c.path, c.name, c.op)) != Done ==>
      r == old(store.AccessVerdict(c.path, c.name, c.op))
    ensures old(store.AccessVerdict(c.path, c.name, c.op)) == Done ==>
      r == Done || r == Failed(IoFailed) || (c.op == 0 && r == Failed(CrcMismatch))
    ensures r.Done? ==> Named(c, d) && d.t.0 in store.layers
    ensures r.Done? && c.path[4] != "bfloat16params" ==> store.layers[d.t.0].hashId == c.name[0]
    ensures forall u :: u in old(store.tensors) && Leaves(store.layers, d, u, |old(store.tensors)[u]|) ==>
      u in store.tensors && store.tensors[u] == old(store.tensors)[u]
  {
    hide LayersOk, Holds, Number, Less, FrontByte, Capacity, Whole, KindOf, TensorSize;
    ghost var t, size;
    r, t, size := store.Access(c.path, c.name, c.op, c.data, c.size);
    d := Did(c.op, r, t, size);
  }

  /**
   A file means the same blocks for ever: two successful calls whose names begin alike,
   whatever calls come in between, go to the same layer at the same place. For the
   optimizer's files this takes hashes that are one-to-one.
   */
  method SameNameSameBlocks(store: LayerStore, first: Call, between: seq<Call>, last: Call)
    returns (r: Outcome, r': Outcome, ghost layer: string, ghost layer': string, ghost lba: Regions)
    requires store.Valid() && CallOk(first, store.disk) && CallOk(last, store.disk)
    requires forall c :: c in between ==> CallOk(c, store.disk)
    requires first.name != [] && last.name != [] && first.name[0] == last.name[0] && first.path == last.path
    modifies store, store.disk, first.data, last.data, set c | c in between :: c.data
    ensures store.Valid() && store.LayersKept()
    ensures r.Done? ==> |first.path| == 6
    ensures
      && r.Done? && r'.Done?
      && (first.path[4] == "bfloat16params" || (first.name[0] != UNLINKED && OneToOne(store.layers)))
      ==> layer' == layer && layer' in store.layers && store.layers[layer'].lba == lba
  {
    hide LayersOk, Holds, Number, CallOk, OneToOne;
    ghost var d, d';
    r, d := AccessOne(store, first);
    layer := d.t.0;
    lba := if r.Done? then store.layers[layer].lba else Regions(0, 0, 0, 0, 0);
    ghost var before := store.layers;
    ghost var deeds := AccessAll(store, between);
    r', d' := AccessOne(store, last);
    layer' := d'.t.0;
    if r.Done? && r'.Done? && first.path[4] != "bfloat16params" && first.name[0] != UNLINKED && OneToOne(store.layers) {
      HashKeepsLayer(before, store.layers, layer, layer');
    }
  }

  /** The two files name the same layer: by its number, or by a hash while hashes are one-to-one. */
  ghost predicate OneLayer(c: Call, layers: map<string, Layer>)
    requires |c.path| == 6 && c.name != []
  {
    c.path[4] == "bfloat16params" || (c.name[0] != UNLINKED && OneToOne(layers))
  }

  /**
   Reading a tensor returns the data last written to it, and its checksum is accepted,
   whatever calls come in between that neither write the tensor nor reach it; so in
   particular when their files have other names and their sizes fit. The read of a
   layer's tensor succeeds; one by hash may fail because the optimizer's layer is not found.
   */
  method WriteRunRead(store: LayerStore, first: Call, between: seq<Call>, last: Call)
    returns (r: Outcome, r': Outcome, ghost t: (string, Kind), ghost n: nat, ghost deeds: seq<Deed>)
    requires store.Valid() && CallOk(first, store.disk) && CallOk(last, store.disk)
    requires forall c :: c in between ==> CallOk(c, store.disk)
    requires first.op == 1 && last == first.(op := 0, data := last.data)
    modifies store, store.disk, first.data, last.data, set c | c in between :: c.data
    ensures var verdict := old(store.AccessVerdict(first.path, first.name, 1));
            if verdict == Done then r == Done || r == Failed(IoFailed) else r == verdict
    ensures store.Valid() && |deeds| == |between|
    ensures forall k :: 0 <= k < |deeds| ==>
      deeds[k].op == between[k].op && (deeds[k].r == Done ==> Named(between[k], deeds[k]))
    ensures r.Done? ==>
      && |first.path| == 6 && 4 <= |first.name| <= 5 && t.0 in store.layers
      && Number(first.name[1]).Some? && n == Whole(TensorSize(first.name, first.size)) <= first.data.Length
    ensures
      && r.Done? && 0 < n <= Capacity(Params(store.layers[t.0]), t.1)
      && (AllLeave(store.layers, deeds, t, n) || NoneAbout(store.layers, first, between, deeds))
      && OneLayer(first, store.layers)
      ==>
      && r' != Failed(CrcMismatch)
      && (first.path[4] == "bfloat16params" ==> r' == Done)
      && (r' == Done ==> n <= last.data.Length && last.data[..n] == old(first.data[..])[..n])
  {
    hide LayersOk, Holds, Number, OneToOne, Leaves, AllLeave, NoneAbout, Survived, Capacity, FrontByte, Whole, Less,
         Remembered, KindOf, TensorSize, LayerStore.LocateVerdict, LayerStore.Located;
    ghost var size;
    r, t, size := store.Access(first.path, first.name, first.op, first.data, first.size);
    n := if r.Done? then Whole(size) else 0;
    ghost var d := Did(first.op, r, t, size);
    ghost var layers, tensors := store.layers, store.tensors;
    deeds := AccessAll(store, between);
    ghost var layers', held := store.layers, store.tensors;
    if r.Done? {
      SameLba(layers[t.0], layers'[t.0], t.1);
      WholeSome(size);
    }
    r' := ReadHeld(store, last, t, n, r.Done?);
    if r.Done? && 0 < n <= Capacity(Params(store.layers[t.0]), t.1) {
      BlocksKept(layers, layers');
      BlocksKept(layers', store.layers);
      assert tensors[t] == old(first.data[..])[..n];
      KeptByRun(layers', store.layers, store.next, tensors, held, first, d, n, between, deeds);
    }
  }

  /** Tensor t is read again, by the name that it was written under. */
  method ReadHeld(store: LayerStore, c: Call, ghost t: (string, Kind), ghost n: nat, ghost known: bool)
    returns (r: Outcome)
    requires store.Valid() && CallOk(c, store.disk) && c.op == 0
    requires known ==>
      && |c.path| == 6 && 4 <= |c.name| <= 5 && Number(c.name[1]).Some? && t.0 in store.layers
      && t.1 == KindOf(c.name[|c.name| - 2], c.name[|c.name| - 1]).1 && n == Whole(TensorSize(c.name, c.size))
      && ActVerdict(c.name, 0).Done?
      && (n > 0 ==> FrontByte(store.layers[t.0], t.1) + n <= store.disk.Length)
      && (if c.path[4] == "bfloat16params" then t.0 == c.name[0]
          else c.name[0] != UNLINKED ==> store.layers[t.0].hashId == c.name[0])
    modifies store, store.disk, c.data
    ensures store.Valid() && store.LayersKept()
    ensures known && n > 0 && t in old(store.tensors) && |old(store.tensors)[t]| == n && OneLayer(c, store.layers) ==>
      && r != Failed(CrcMismatch)
      && (c.path[4] == "bfloat16params" ==> r == Done)
      && (r == Done ==> n <= c.data.Length && c.data[..n] == old(store.tensors)[t])
  {
    hide LayersOk, Holds, Number, OneToOne, Capacity, FrontByte, Whole, Less, Remembered, KindOf, TensorSize, Params,
         ActVerdict;
    ghost var t', size;
    ghost var layers, verdict := store.layers, store.AccessVerdict(c.path, c.name, c.op);
    r, t', size := store.Access(c.path, c.name, c.op, c.data, c.size);
    if known && n > 0 && verdict == Done {
      SameLba(layers[t.0], store.layers[t.0], t.1);
      WholeSome(TensorSize(c.name, c.size));
      if OneLayer(c, store.layers) {
        HashNamesOne(store.layers, c, t.0, t'.0);
      }
    }
  }

  lemma WholeSome(size: nat)
    ensures Whole(size) > 0 <==> size >= BLOCK
  {
  }

  /** What a run leaves of tensor g.t, by what its calls did or by what their files are called. */
  lemma {:induction false} KeptByRun(layers: map<string, Layer>, layers': map<string, Layer>, next: nat, was: Tensors,
                                     now: Tensors, f: Call, g: Deed, n: nat, calls: seq<Call>, deeds: seq<Deed>)
    requires Survived(layers, was, now, deeds) && AtKnown(layers, deeds) && SameBlocks(layers, layers')
    requires g.t in was && |was[g.t]| == n && g.t.0 in layers && |deeds| == |calls| && LayersOk(layers', next)
    requires Named(f, g) && forall k :: 0 <= k < |calls| ==>
      deeds[k].op == calls[k].op && (deeds[k].r == Done ==> Named(calls[k], deeds[k]))
    requires n <= Capacity(Params(layers'[g.t.0]), g.t.1)
    ensures AllLeave(layers', deeds, g.t, n) || NoneAbout(layers', f, calls, deeds) ==>
      g.t in now && now[g.t] == was[g.t]
  {
    hide LayersOk, Named, NoneAbout, AllLeave, Survived, AtKnown, Capacity;
    if NoneAbout(layers', f, calls, deeds) {
      NoneAboutLeaves(layers', next, f, g, n, calls, deeds);
    }
    if AllLeave(layers', deeds, g.t, n) {
      StillThere(layers, layers', was, now, deeds, g.t, n);
    }
  }

  lemma HashNamesOne(layers: map<string, Layer>, c: Call, m: string, n: string)
    requires |c.path| == 6 && c.name != [] && OneLayer(c, layers) && m in layers && n in layers
    requires if c.path[4] == "bfloat16params" then m == n == c.name[0]
             else layers[m].hashId == layers[n].hashId == c.name[0]
    ensures m == n
  {
  }

  lemma {:induction false} StillThere(layers: map<string, Layer>, layers': map<string, Layer>, was: Tensors,
                                      now: Tensors, deeds: seq<Deed>, t: (string, Kind), n: nat)
    requires Survived(layers, was, now, deeds) && AtKnown(layers, deeds) && SameBlocks(layers, layers')
    requires t in was && |was[t]| == n && t.0 in layers
    requires AllLeave(layers', deeds, t, n)
    ensures t in now && now[t] == was[t]
  {
    hide Leaves;
    forall k | 0 <= k < |deeds| ensures Leaves(layers, deeds[k], t, n) {
      LeavesLater(layers, layers', deeds[k], t, n);
    }
  }

  /** Without that, two layers read one after the other can be linked to one hash, and the later link wins. */
  lemma {:induction false} SharedHash(a: Layer, b: Layer)
    requires a.hashId == UNLINKED && b.hashId == UNLINKED
    ensures var layers := map["1" := b, "2" := a];
            var linked := Linked(layers, "2", "77");
            var twice := Linked(linked, "1", "77");
            && (forall n :: n in linked && linked[n].hashId == "77" ==> n == "2")
            && twice["1"].hashId == "77" == twice["2"].hashId && Less("1", "2") && !OneToOne(twice)
  {
    var twice := Linked(Linked(map["1" := b, "2" := a], "2", "77"), "1", "77");
    assert twice["1"].hashId == twice["2"].hashId && "1" in twice && "2" in twice;
    assert "1"[0] != "2"[0];
  }

  /**
   A write that is too long for its region runs into the next tensor: of the same layer,
   or after the last one of the layer behind it, or into blocks that a new layer will get.
   */
  lemma {:induction false} OverflowHitsNext(layers: map<string, Layer>, next: nat, name: string, k: Kind, n: nat)
    requires LayersOk(layers, next) && name in layers
    ensures var l := layers[name];
            n <= Capacity(Params(l), k) <==>
              && FrontByte(l, k) + n <= next * BLOCK
              && forall m, j: Kind :: m in layers && FrontByte(l, k) < FrontByte(layers[m], j) ==>
                  FrontByte(l, k) + n <= FrontByte(layers[m], j)
  {
    hide Capacity, EndByte, FrontByte, Lba, Place, PlaceEnd;
    var l := layers[name];
    LastIs(l, k);
    CapacityPositive(Params(l), k);
    if n <= Capacity(Params(l), k) {
      RegionsDisjoint(layers, next, name, k, name, if k == Param16 then Param32 else Param16);
      forall m, j: Kind | m in layers && FrontByte(l, k) < FrontByte(layers[m], j)
        ensures FrontByte(l, k) + n <= FrontByte(layers[m], j)
      {
        RegionsDisjoint(layers, next, name, k, m, j);
        LastIs(layers[m], j);
      }
    } else {
      NextAfter(layers, next, name, k);
    }
  }

  /** What lies right behind a tensor. */
  lemma {:induction false} NextAfter(layers: map<string, Layer>, next: nat, name: string, k: Kind)
    requires LayersOk(layers, next) && name in layers
    ensures EndByte(layers[name], k) == next * BLOCK
            || exists m, j: Kind :: m in layers && FrontByte(layers[m], j) == EndByte(layers[name], k)
  {
    var l := layers[name];
    RegionsInOrder(l, next);
    hide FrontByte, EndByte, Capacity, Place, PlaceEnd, Lba;
    match k
    case Param16 => assert FrontByte(layers[name], Param32) == EndByte(l, k);
    case Param32 => assert FrontByte(layers[name], Gradient32) == EndByte(l, k);
    case Gradient32 => assert FrontByte(layers[name], Momentum32) == EndByte(l, k);
    case Momentum32 => assert FrontByte(layers[name], Variance32) == EndByte(l, k);
    case Variance32 =>
      assert Followed(layers, next, l);
      if EndBlock(l) != next {
        var m :| m in layers && layers[m].lba.param16 == EndBlock(l);
        RegionsInOrder(layers[m], next);
        assert FrontByte(layers[m], Param16) == EndByte(l, k);
      }
  }

  lemma CapacityPositive(params: nat, k: Kind)
    ensures Capacity(params, k) > 0
  {
  }
}
