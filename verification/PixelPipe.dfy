/** The pixel pipe itself, changed in place: one call of `place`, `finish`, `receive` or
    `fail`, proved against the transitions the machine interleaves. */
module PixelPipes {
  import opened Arithmetic
  import opened Coverage
  import opened Options
  import opened MemoryAccounting
  import opened Pixels
  import opened PixelModel
  import opened PixelStrip

  // ---- A whole call as a function of the producer and the queue ---------------------------

  /** Hands over complete strips for as long as the next one is complete. */
  ghost function PublishReady<E>(c: Canvas, p: Producer, q: Queue<E>): (r: (Producer, Queue<E>))
    requires Geometry(c, p)
    ensures Geometry(c, r.0) && !NextReady(r.0)
    decreases c.height - p.nextRow
  {
    if !NextReady(p) then (p, q)
    else
      PublishGeometry(c, p, q);
      var (p', q') := Publish(c, p, q);
      PublishReady(c, p', q')
  }

  /** Places the tile's part of the strip of row `y`. */
  ghost function PlaceOne<E>(c: Canvas, p: Producer, q: Queue<E>, t: Tile, y: nat): (r: (Producer, Queue<E>))
    requires Geometry(c, p) && t.Valid() && t.y <= y < TileEnd(c, t)
    ensures Geometry(c, r.0)
  {
    InCanvas(c, t, y);
    SegmentGeometry(c, p, t, y);
    var painted := Segment(c, p, t, y);
    if StripOf(y) < p.nextRow then (painted, q) else PublishReady(c, painted, q)
  }

  /** Places rows `y` onwards of the tile, strip by strip. */
  ghost function PlaceFrom<E>(c: Canvas, p: Producer, q: Queue<E>, t: Tile, y: nat): (Producer, Queue<E>)
    requires Geometry(c, p) && t.Valid() && y >= t.y
    decreases TileEnd(c, t) - y
  {
    if y >= TileEnd(c, t) then (p, q)
    else
      SegmentAdvances(c, t, y);
      var (p', q') := PlaceOne(c, p, q, t, y);
      PlaceFrom(c, p', q', t, SegmentEnd(c, t, y))
  }

  lemma PlaceFromUnfolds<E>(c: Canvas, p: Producer, q: Queue<E>, t: Tile, y: nat)
    requires Geometry(c, p) && t.Valid() && y >= t.y
    ensures y >= TileEnd(c, t) ==> PlaceFrom(c, p, q, t, y) == (p, q)
    ensures y < TileEnd(c, t) ==>
      && y < SegmentEnd(c, t, y)
      && var (p', q') := PlaceOne(c, p, q, t, y);
      PlaceFrom(c, p, q, t, y) == PlaceFrom(c, p', q', t, SegmentEnd(c, t, y))
  {
    if y < TileEnd(c, t) { SegmentAdvances(c, t, y); }
  }

  /** A call that stopped at the strip of row `y`: everything above is placed, and the blank strip
      needed there does not fit. */
  ghost predicate RefusedAt<E>(c: Canvas, was: Producer, wasQueue: Queue<E>, p: Producer, q: Queue<E>, t: Tile, y: nat,
                               used: nat, cap: nat)
    requires Geometry(c, was) && Geometry(c, p) && t.Valid()
  {
    && t.y <= y < TileEnd(c, t) && PlaceFrom(c, was, wasQueue, t, t.y) == PlaceFrom(c, p, q, t, y)
    && NeedsBlank(p, y) && used + BlankCharge(c, StripOf(y)) > cap
  }

  ghost predicate Refused<E>(c: Canvas, was: Producer, wasQueue: Queue<E>, p: Producer, q: Queue<E>, t: Tile,
                             used: nat, cap: nat)
    requires Geometry(c, was) && Geometry(c, p) && t.Valid()
  {
    exists y: nat :: RefusedAt(c, was, wasQueue, p, q, t, y, used, cap)
  }

  /** The producer with a strip at the next row, blank if nothing was placed there. */
  function Filled(c: Canvas, p: Producer): Producer {
    if p.nextRow in p.pending then p else p.(pending := p.pending[p.nextRow := Blank(c, p.nextRow)])
  }

  /** Hands over every remaining strip, blank where nothing was placed. */
  ghost function PublishAll<E>(c: Canvas, p: Producer, q: Queue<E>): (Producer, Queue<E>)
    requires Geometry(c, p)
    decreases c.height - p.nextRow
  {
    if p.nextRow >= c.height then (p, q)
    else
      FilledGeometry(c, p);
      var filled := Filled(c, p);
      PublishGeometry(c, filled, q);
      var (p', q') := Publish(c, filled, q);
      PublishAll(c, p', q')
  }

  lemma FilledGeometry(c: Canvas, p: Producer)
    requires Geometry(c, p) && p.nextRow < c.height
    ensures Geometry(c, Filled(c, p)) && Filled(c, p).nextRow == p.nextRow && p.nextRow in Filled(c, p).pending
  {
  }

  lemma SegmentOfBlank(c: Canvas, p: Producer, t: Tile, y: nat)
    requires Geometry(c, p) && t.Valid() && NeedsBlank(p, y)
    ensures Segment(c, p.(pending := p.pending[StripOf(y) := Blank(c, StripOf(y))]), t, y) == Segment(c, p, t, y)
  {
    var k := StripOf(y);
    var painted := Paint(c, Blank(c, k), t);
    hide Paint, Blank;
    assert p.pending[k := Blank(c, k)][k := painted] == p.pending[k := painted];
  }

  // ---- Reservations held by a pipe ------------------------------------------------------------

  ghost function Bag(m: map<nat, nat>): multiset<nat>
    decreases |m|
  {
    if m == map[] then multiset{} else var k :| k in m; multiset{m[k]} + Bag(m - {k})
  }

  lemma BagStep(m: map<nat, nat>) returns (k: nat)
    requires m != map[]
    ensures k in m && Bag(m) == multiset{m[k]} + Bag(m - {k})
  {
    k :| k in m && Bag(m) == multiset{m[k]} + Bag(m - {k});
  }

  lemma {:induction false} BagRemove(m: map<nat, nat>, k: nat)
    requires k in m
    ensures Bag(m) == multiset{m[k]} + Bag(m - {k})
    decreases |m|
  {
    hide Bag;
    var j := BagStep(m);
    if j != k {
      BagRemove(m - {j}, k);
      BagRemove(m - {k}, j);
      assert m - {j} - {k} == m - {k} - {j};
      var rest := Bag(m - {k} - {j});
      assert multiset{m[j]} + (multiset{m[k]} + rest) == multiset{m[k]} + (multiset{m[j]} + rest);
    }
  }

  lemma BagAdd(m: map<nat, nat>, k: nat, v: nat)
    requires k !in m
    ensures Bag(m[k := v]) == Bag(m) + multiset{v}
  {
    BagRemove(m[k := v], k);
    assert m[k := v] - {k} == m;
  }

  lemma OthersShrink(live: multiset<nat>, held: multiset<nat>, from: nat, to: multiset<nat>)
    requires held <= live && from in live - held
    ensures held <= live - multiset{from} + to
    ensures live - multiset{from} + to - held == live - held - multiset{from} + to
  {
  }

  lemma HoldMore(live: multiset<nat>, held: multiset<nat>, bytes: nat)
    requires held <= live && bytes in live - held
    ensures held + multiset{bytes} <= live
    ensures live - (held + multiset{bytes}) == live - held - multiset{bytes}
  {
  }

  lemma HoldLess(live: multiset<nat>, held: multiset<nat>, bytes: nat)
    requires held + multiset{bytes} <= live
    ensures live - held == live - (held + multiset{bytes}) + multiset{bytes}
  {
  }

  /** Reservations of blank or partly painted strips at the given rows. */
  ghost function StripBag(c: Canvas, rows: set<nat>): multiset<nat> {
    Bag(map k | k in rows :: BlankCharge(c, k))
  }

  lemma StripBagAdd(c: Canvas, rows: set<nat>, k: nat)
    requires k !in rows
    ensures StripBag(c, rows + {k}) == StripBag(c, rows) + multiset{BlankCharge(c, k)}
  {
    var charges := map j | j in rows :: BlankCharge(c, j);
    var grown := map j | j in rows + {k} :: BlankCharge(c, j);
    assert grown.Keys == charges[k := BlankCharge(c, k)].Keys;
    assert grown == charges[k := BlankCharge(c, k)];
    BagAdd(charges, k, BlankCharge(c, k));
  }

  lemma StripBagRemove(c: Canvas, rows: set<nat>, k: nat)
    requires k in rows
    ensures StripBag(c, rows) == StripBag(c, rows - {k}) + multiset{BlankCharge(c, k)}
  {
    StripBagAdd(c, rows - {k}, k);
    assert rows - {k} + {k} == rows;
  }

  lemma BlankGeometry(c: Canvas, p: Producer, k: nat)
    requires Geometry(c, p) && k % STRIP_ROWS == 0 && p.nextRow <= k < c.height
    ensures Geometry(c, p.(pending := p.pending[k := Blank(c, k)]))
  {
  }

  ghost function BagOf(strips: seq<Strip>): multiset<nat> {
    if strips == [] then multiset{} else BagOf(strips[..|strips| - 1]) + multiset{strips[|strips| - 1].charge}
  }

  lemma BagAppend(strips: seq<Strip>, strip: Strip)
    ensures BagOf(strips + [strip]) == BagOf(strips) + multiset{strip.charge}
  {
    assert (strips + [strip])[..|strips|] == strips;
  }

  lemma {:induction false} BagPrepend(strips: seq<Strip>)
    requires strips != []
    ensures BagOf(strips) == multiset{strips[0].charge} + BagOf(strips[1..])
  {
    var n := |strips| - 1;
    if n == 0 {
      assert strips[..0] == [] && strips[1..] == [];
    } else {
      hide *;
      var first, last := multiset{strips[0].charge}, multiset{strips[n].charge};
      BagPrepend(strips[..n]);
      Slices(strips);
      BagAppend(strips[..n], strips[n]);
      BagAppend(strips[1..n], strips[n]);
      Associates(first, BagOf(strips[1..n]), last);
    }
  }

  lemma Slices(strips: seq<Strip>)
    requires |strips| > 1
    ensures var n := |strips| - 1;
      && strips[..n][1..] == strips[1..n] && strips[..n][0] == strips[0]
      && strips[..n] + [strips[n]] == strips && strips[1..n] + [strips[n]] == strips[1..]
  {
  }

  lemma Associates(a: multiset<nat>, b: multiset<nat>, c: multiset<nat>)
    ensures a + b + c == a + (b + c)
  {
  }

  // ---- The strips a producer owns ------------------------------------------------------------

  type StripMap = map<nat, PendingStrip>

  ghost function Objects(strips: StripMap): set<object> {
    (set k | k in strips :: strips[k])
    + (set k | k in strips :: strips[k].rgba)
    + (set k | k in strips :: strips[k].coverage)
  }

  predicate Apart(a: PendingStrip, b: PendingStrip) {
    a.rgba != b.rgba && a.coverage != b.coverage
  }

  /** Each strip is in order, sits at its own first row, and shares no memory with another. */
  ghost predicate StripsOk(c: Canvas, strips: StripMap)
    reads Objects(strips)
  {
    && (forall k :: k in strips ==> strips[k].Valid() && strips[k].canvas == c && strips[k].firstRow == k)
    && (forall j, k {:trigger Apart(strips[j], strips[k])} ::
          j in strips && k in strips && j != k ==> Apart(strips[j], strips[k]))
  }

  ghost function Values(c: Canvas, strips: StripMap): map<nat, Pending>
    requires StripsOk(c, strips)
    reads Objects(strips)
  {
    map k | k in strips :: strips[k].Value()
  }

  lemma GrownStrips(c: Canvas, strips: StripMap, k: nat, strip: PendingStrip)
    requires StripsOk(c, strips) && k !in strips
    requires strip.Valid() && strip.canvas == c && strip.firstRow == k
    requires forall j :: j in strips ==> Apart(strips[j], strip) && Apart(strip, strips[j])
    ensures StripsOk(c, strips[k := strip])
    ensures Values(c, strips[k := strip]) == Values(c, strips)[k := strip.Value()]
  {
    hide PendingStrip.Valid, PendingStrip.Value;
  }

  /** The strips with a blank one at row `k`. */
  method WithBlank(c: Canvas, strips: StripMap, k: nat) returns (grown: StripMap)
    requires c.Valid() && StripsOk(c, strips) && k !in strips
    requires k < c.height && k % STRIP_ROWS == 0
    ensures grown.Keys == strips.Keys + {k}
    ensures forall o :: o in Objects(grown) ==> o in Objects(strips) || fresh(o)
    ensures StripsOk(c, grown) && Values(c, grown) == old(Values(c, strips))[k := Blank(c, k)]
  {
    hide Blank, PendingOk, PendingStrip.Valid, PendingStrip.Value, StripsOk, Values;
    ghost var objects := Objects(strips);
    var strip := new PendingStrip(c, k);
    assert StripsOk(c, strips) && Values(c, strips) == old(Values(c, strips));
    forall j | j in strips
      ensures Apart(strips[j], strip) && Apart(strip, strips[j])
    {
      assert strips[j].rgba in objects && strips[j].coverage in objects;
    }
    GrownStrips(c, strips, k, strip);
    grown := strips[k := strip];
  }

  lemma StripAt(c: Canvas, strips: StripMap, k: nat)
    requires StripsOk(c, strips) && k in strips
    ensures strips[k].Valid() && strips[k].canvas == c && strips[k].firstRow == k
    ensures Values(c, strips)[k] == strips[k].Value()
  {
  }

  /** Taking the next strip away keeps the producer in order. */
  lemma StripTaken(c: Canvas, p: Producer)
    requires Geometry(c, p) && p.nextRow in p.pending
    ensures var strip := p.pending[p.nextRow].strip;
      && Geometry(c, p.(pending := p.pending - {p.nextRow}, nextRow := p.nextRow + strip.rows))
      && |strip.rgba| * 4 <= strip.charge == BlankCharge(c, p.nextRow)
  {
    var q: Queue<Error> := Queue([], false, None);
    PublishGeometry(c, p, q);
  }

  /** Handing over takes the next strip away and queues it with its reservation shrunk. */
  lemma PublishIs<E>(c: Canvas, p: Producer, q: Queue<E>, strip: Strip)
    requires p.nextRow in p.pending && strip == p.pending[p.nextRow].strip
    ensures var p', pixels := Producer(p.pending - {p.nextRow}, p.nextRow + strip.rows, p.late), |strip.rgba| * 4;
      Publish(c, p, q) ==
        (p', q.(ready := q.ready + [strip.(charge := pixels)], closed := p'.nextRow == c.height))
  {
  }

  lemma WithoutStrip(c: Canvas, strips: StripMap, k: nat)
    requires StripsOk(c, strips) && k in strips
    ensures StripsOk(c, strips - {k}) && Values(c, strips - {k}) == Values(c, strips) - {k}
    ensures Objects(strips - {k}) <= Objects(strips)
  {
    hide PendingStrip.Valid, PendingStrip.Value;
  }

  lemma OneChanged(c: Canvas, strips: StripMap, k: nat, before: map<nat, Pending>)
    requires k in strips && StripsOk(c, strips) && before.Keys == strips.Keys
    requires forall j :: j in strips && j != k ==> strips[j].Value() == before[j]
    ensures Values(c, strips) == before[k := strips[k].Value()]
  {
    hide PendingStrip.Valid, PendingStrip.Value;
  }

  /** Composites the tile's rows `y` to `until` onto the strip at row `k`. */
  method PaintAt(c: Canvas, strips: StripMap, k: nat, t: Tile, y: nat, until: nat)
    requires c.Valid() && StripsOk(c, strips) && k in strips && t.Valid() && t.Width(c) > 0
    requires y == (if t.y > k then t.y else k) < until == Min(t.y + t.Height(c), k + STRIP_ROWS)
    modifies Objects(strips)
    ensures StripsOk(c, strips)
    ensures Values(c, strips) == old(Values(c, strips))[k := Paint(c, old(Values(c, strips))[k], t)]
  {
    hide Paint, PendingOk, PendingStrip.Valid, PendingStrip.Value, Tile.Width, Tile.Height;
    ghost var before := Values(c, strips);
    assert forall j :: j in strips && j != k ==> Apart(strips[j], strips[k]);
    assert forall j :: j in strips ==> strips[j].Value() == before[j];
    hide Values;
    var strip := strips[k];
    strip.PaintTile(t, y, until);
    assert forall j :: j in strips && j != k ==> strips[j].Valid() && strips[j].Value() == before[j];
    OneChanged(c, strips, k, before);
  }

  class PixelPipe {
    const canvas: Canvas
    const budget: MemoryBudget
    var pending: StripMap
    var nextRow: nat
    var late: nat
    /** Reservation of each tile's metadata. */
    var metadata: map<nat, nat>
    var ready: seq<Strip>
    var closed: bool
    var failure: Option<Error>

    ghost predicate Valid()
      reads this, budget, Objects(pending)
      ensures Valid() ==> StripsOk(canvas, pending)
    {
      && canvas.Valid() && budget.Valid()
      && this !in Objects(pending) && budget !in Objects(pending)
      && StripsOk(canvas, pending)
      && Geometry(canvas, TheProducer())
      && Holdings() <= budget.live
    }

    ghost function TheProducer(): Producer
      requires StripsOk(canvas, pending)
      reads this, Objects(pending)
    {
      Producer(Values(canvas, pending), nextRow, late)
    }

    ghost function TheQueue(): Queue<Error>
      reads this
    {
      Queue(ready, closed, failure)
    }

    /** Reservations of the pending strips, the metadata and the queue. */
    ghost function Holdings(): multiset<nat>
      reads this
    {
      StripBag(canvas, pending.Keys) + Bag(metadata) + BagOf(ready)
    }

    /** Live reservations that belong to somebody else. */
    ghost function Others(): multiset<nat>
      reads this, budget
    {
      budget.live - Holdings()
    }

    constructor (canvas: Canvas, budget: MemoryBudget)
      requires canvas.Valid() && budget.Valid()
      ensures Valid() && this.canvas == canvas && this.budget == budget
      ensures TheProducer() == Producer(map[], 0, 0) && TheQueue() == Queue([], false, None)
      ensures metadata == map[]
    {
      this.canvas, this.budget := canvas, budget;
      pending, nextRow, late, metadata := map[], 0, 0, map[];
      ready, closed, failure := [], false, None;
      new;
      assert StripBag(canvas, pending.Keys) == multiset{};
    }

    lemma NextRowFacts()
      requires Valid()
      ensures nextRow <= canvas.height && (nextRow < canvas.height ==> nextRow % STRIP_ROWS == 0)
      ensures TheProducer().nextRow == nextRow && TheProducer().late == late
      ensures TheProducer().pending.Keys == pending.Keys
      ensures Geometry(canvas, TheProducer()) && this !in Objects(pending) && budget !in Objects(pending)
    {
    }

    /** Takes a reservation for somebody else; the pipe itself is unchanged. */
    method ReserveBytes(bytes: nat) returns (ok: bool)
      requires Valid()
      modifies budget
      ensures Valid() && TheProducer() == old(TheProducer())
      ensures ok <==> old(budget.current) + bytes <= budget.cap
      ensures !ok ==> budget.current == old(budget.current)
      ensures Others() == old(Others()) + (if ok then multiset{bytes} else multiset{})
    {
      hide Bag, StripBag, Geometry, Total, Values, StripsOk;
      ok := budget.Reserve(bytes);
    }

    /** Adds a blank strip whose bytes have been reserved. */
    method InsertBlank(k: nat)
      requires Valid() && k % STRIP_ROWS == 0 && nextRow <= k < canvas.height && k !in pending
      requires BlankCharge(canvas, k) in Others()
      modifies this`pending
      ensures Valid() && Others() == old(Others()) - multiset{BlankCharge(canvas, k)}
      ensures pending.Keys == old(pending.Keys) + {k}
      ensures forall o :: o in Objects(pending) ==> o in Objects(old(pending)) || fresh(o)
      ensures TheProducer() == old(TheProducer()).(pending := old(TheProducer()).pending[k := Blank(canvas, k)])
    {
      hide Bag, BagOf, StripBag, Geometry, Total, Blank, PendingOk, Values, StripsOk, BlankCharge;
      ghost var held := Holdings();
      BlankGeometry(canvas, TheProducer(), k);
      StripBagAdd(canvas, pending.Keys, k);
      HoldMore(budget.live, held, BlankCharge(canvas, k));
      assert canvas.Valid();
      var grown := WithBlank(canvas, pending, k);
      assert this !in Objects(grown) && budget !in Objects(grown);
      ghost var values := Values(canvas, grown);
      assert StripBag(canvas, grown.Keys) + Bag(metadata) + BagOf(ready) == held + multiset{BlankCharge(canvas, k)};
      hide Objects;
      pending := grown;
      assert StripsOk(canvas, pending) && Values(canvas, pending) == values;
      assert Holdings() == held + multiset{BlankCharge(canvas, k)};
    }

    /** Reserves and adds a blank strip. */
    method AddBlank(k: nat) returns (ok: bool)
      requires Valid() && k % STRIP_ROWS == 0 && nextRow <= k < canvas.height && k !in pending
      modifies this`pending, budget
      ensures Valid() && Others() == old(Others())
      ensures ok <==> old(budget.current) + BlankCharge(canvas, k) <= budget.cap
      ensures !ok ==> budget.current == old(budget.current)
      ensures pending.Keys == if ok then old(pending.Keys) + {k} else old(pending.Keys)
      ensures forall o :: o in Objects(pending) ==> o in Objects(old(pending)) || fresh(o)
      ensures TheProducer() == if ok
        then old(TheProducer()).(pending := old(TheProducer()).pending[k := Blank(canvas, k)])
        else old(TheProducer())
    {
      hide Valid, TheProducer, Others, Blank, StripsOk, Values, BlankCharge, Objects;
      ok := ReserveBytes(BlankCharge(canvas, k));
      if ok {
        InsertBlank(k);
      }
    }

    /** Gives back part of a reservation that is not the pipe's. */
    method ShrinkBytes(from: nat, to: nat)
      requires Valid() && from in Others() && to <= from
      modifies budget
      ensures Valid() && TheProducer() == old(TheProducer())
      ensures Others() == old(Others()) - multiset{from} + multiset{to}
    {
      hide Bag, StripBag, BagOf, Geometry, Total, Values, StripsOk;
      OthersShrink(budget.live, Holdings(), from, multiset{to});
      hide Holdings;
      budget.Shrink(from, to);
    }

    /** Ends a reservation that is not the pipe's. */
    method DropBytes(bytes: nat)
      requires Valid() && bytes in Others()
      modifies budget
      ensures Valid() && TheProducer() == old(TheProducer())
      ensures Others() == old(Others()) - multiset{bytes} && budget.current == old(budget.current) - bytes
    {
      hide Bag, StripBag, BagOf, Geometry, Total, Values, StripsOk;
      OthersShrink(budget.live, Holdings(), bytes, multiset{});
      hide Holdings;
      budget.Drop(bytes);
    }

    /** Takes the next strip out of the producer's hands. */
    method TakeNext() returns (strip: Strip)
      requires Valid() && nextRow in pending
      modifies this`pending, this`nextRow
      ensures Valid()
      ensures strip == old(TheProducer()).pending[old(nextRow)].strip
      ensures TheProducer() == Producer(old(TheProducer()).pending - {old(nextRow)}, old(nextRow) + strip.rows, late)
      ensures Objects(pending) <= Objects(old(pending)) && |strip.rgba| * 4 <= strip.charge
      ensures Others() == old(Others()) + multiset{strip.charge}
    {
      hide Others, Geometry, StripsOk, Values, Holdings, PendingOk, Total, BlankCharge;
      NextStripFacts();
      var next := pending[nextRow];
      strip := Strip(next.firstRow, next.rows, next.rgba[..], BlankCharge(canvas, next.firstRow));
      ForgetPending(nextRow);
      MoveOn(strip.rows);
    }

    /** The next strip as a value, and what is left without it. */
    lemma NextStripFacts()
      requires Valid() && nextRow in pending
      ensures var p, next := TheProducer(), pending[nextRow];
        var strip := Strip(next.firstRow, next.rows, next.rgba[..], BlankCharge(canvas, next.firstRow));
        && p.nextRow == nextRow && p.late == late && nextRow in p.pending && strip == p.pending[nextRow].strip
        && Geometry(canvas, p.(pending := p.pending - {nextRow}, nextRow := nextRow + strip.rows))
        && |strip.rgba| * 4 <= strip.charge == BlankCharge(canvas, nextRow)
    {
      hide Bag, BagOf, StripBag, Total, PendingOk, Geometry, StripsOk, Values, BlankCharge, Publish, Holdings;
      NextRowFacts();
      StripAt(canvas, pending, nextRow);
      StripTaken(canvas, TheProducer());
    }

    /** The next row moves past a strip that has been taken away. */
    method MoveOn(rows: nat)
      requires Valid() && Geometry(canvas, TheProducer().(nextRow := nextRow + rows))
      modifies this`nextRow
      ensures Valid() && Others() == old(Others()) && nextRow == old(nextRow) + rows && pending == old(pending)
      ensures TheProducer() == old(TheProducer()).(nextRow := nextRow)
    {
      hide Bag, BagOf, StripBag, Total, PendingOk, Geometry, StripsOk, Values;
      nextRow := nextRow + rows;
    }

    /** What is held without one pending strip, and what belongs to others then. */
    lemma HeldWithout(k: nat)
      requires Valid() && k in pending
      ensures var held := StripBag(canvas, pending.Keys - {k}) + Bag(metadata) + BagOf(ready);
        && Holdings() == held + multiset{BlankCharge(canvas, k)} && held <= budget.live
        && budget.live - held == Others() + multiset{BlankCharge(canvas, k)}
    {
      hide Bag, BagOf, StripBag, Total, Geometry, StripsOk, Values, BlankCharge;
      var held := StripBag(canvas, pending.Keys - {k}) + Bag(metadata) + BagOf(ready);
      StripBagRemove(canvas, pending.Keys, k);
      assert Holdings() == held + multiset{BlankCharge(canvas, k)};
      HoldLess(budget.live, held, BlankCharge(canvas, k));
    }

    /** Puts a strip that has been taken out into the reader's queue. */
    method QueueStrip(strip: Strip)
      requires Valid() && strip.charge in Others()
      modifies this`ready, this`closed
      ensures Valid() && TheProducer() == old(TheProducer())
      ensures TheQueue() == old(TheQueue()).(ready := old(ready) + [strip], closed := nextRow == canvas.height)
      ensures Others() == old(Others()) - multiset{strip.charge}
    {
      hide Bag, BagOf, StripBag, Geometry, Total, Values, StripsOk;
      BagAppend(ready, strip);
      HoldMore(budget.live, Holdings(), strip.charge);
      ghost var held := Holdings();
      assert StripBag(canvas, pending.Keys) + Bag(metadata) + (BagOf(ready) + multiset{strip.charge})
          == held + multiset{strip.charge};
      ready, closed := ready + [strip], nextRow == canvas.height;
    }

    /** Moves the next strip to the queue and shrinks its reservation to its pixels. */
    method HandOverNext()
      requires Valid() && nextRow in pending && failure.None?
      modifies this`pending, this`nextRow, this`ready, this`closed, budget
      ensures Valid() && Others() == old(Others())
      ensures Objects(pending) <= Objects(old(pending))
      ensures (TheProducer(), TheQueue()) == Publish(canvas, old(TheProducer()), old(TheQueue()))
    {
      hide Valid, Others, Objects, BlankCharge, Holdings, Values, StripsOk, TheProducer, Geometry, Publish;
      NextRowFacts();
      ghost var others, p, q := Others(), TheProducer(), TheQueue();
      var strip := TakeNext();
      NextRowFacts();
      PublishIs(canvas, p, q, strip);
      var pixels := |strip.rgba| * 4;
      ShrinkBytes(strip.charge, pixels);
      assert Others() == others + multiset{pixels};
      QueueStrip(strip.(charge := pixels));
    }

    /** Hands the next strip over, adding a blank one first if nothing was placed there. It fails
        exactly if a blank is needed and does not fit, or if the pipe has failed. */
    method PublishNext() returns (r: Result<(), Error>)
      requires Valid() && nextRow < canvas.height
      modifies this`pending, this`nextRow, this`ready, this`closed, budget
      ensures Valid() && Others() == old(Others())
      ensures forall o :: o in Objects(pending) ==> o in Objects(old(pending)) || fresh(o)
      ensures r.Ok? ==>
        (TheProducer(), TheQueue()) == Publish(canvas, Filled(canvas, old(TheProducer())), old(TheQueue()))
      ensures r.Err? ==> TheQueue() == old(TheQueue()) && nextRow == old(nextRow)
      ensures r.Err? ==>
        TheProducer() == if nextRow in pending then Filled(canvas, old(TheProducer())) else old(TheProducer())
      ensures var row := old(nextRow);
        var fits := row in old(pending) || old(budget.current) + BlankCharge(canvas, row) <= budget.cap;
        && (r.Ok? <==> fits && failure.None?)
        && (r.Err? ==> Some(r.error) == if fits then failure else Some(MemoryLimit))
        && (r.Err? ==> (nextRow in pending <==> fits))
        && (r.Err? && !fits ==> budget.current == old(budget.current))
      ensures r.Ok? && old(nextRow) in old(pending) ==> Objects(pending) <= Objects(old(pending))
    {
      hide Valid, Others, Blank, BlankCharge, Objects, Publish, TheProducer, StripsOk, Values;
      NextRowFacts();
      if nextRow !in pending {
        var ok := AddBlank(nextRow);
        if !ok { return Err(MemoryLimit); }
        NextRowFacts();
      }
      if failure.Some? { return Err(failure.value); }
      HandOverNext();
      r := Ok(());
    }

    lemma NextIsReady()
      requires Valid()
      ensures NextReady(TheProducer()) <==> nextRow in pending && pending[nextRow].uncovered == 0
    {
      if nextRow in pending {
        var next := pending[nextRow];
        StripAt(canvas, pending, nextRow);
        NoneUnmarked(Bits(next.coverage[..], next.rgba.Length), 0, next.rgba.Length);
      }
    }

    /** Hands over complete strips for as long as the next one is complete. */
    method PublishComplete()
      requires Valid() && failure.None?
      modifies this`pending, this`nextRow, this`ready, this`closed, budget
      ensures Valid() && Others() == old(Others()) && failure.None?
      ensures Objects(pending) <= Objects(old(pending))
      ensures (TheProducer(), TheQueue()) == PublishReady(canvas, old(TheProducer()), old(TheQueue()))
    {
      hide Valid, Others, Objects, Publish, TheProducer, Geometry, StripsOk, Values;
      NextRowFacts();
      NextIsReady();
      while nextRow in pending && pending[nextRow].uncovered == 0
        invariant Valid() && Others() == old(Others()) && failure.None?
        invariant nextRow <= canvas.height && Geometry(canvas, TheProducer())
        invariant Objects(pending) <= Objects(old(pending))
        invariant NextReady(TheProducer()) <==> nextRow in pending && pending[nextRow].uncovered == 0
        invariant TheProducer().nextRow == nextRow && TheProducer().pending.Keys == pending.Keys
        invariant PublishReady(canvas, TheProducer(), TheQueue())
               == PublishReady(canvas, old(TheProducer()), old(TheQueue()))
        decreases canvas.height - nextRow
      {
        PublishGeometry(canvas, TheProducer(), TheQueue());
        var r := PublishNext();
        NextRowFacts();
        NextIsReady();
      }
    }

    /** Composites the tile onto the strip of row `y`, which is pending. */
    method PaintSegment(t: Tile, y: nat)
      requires Valid() && t.Valid() && t.y <= y < TileEnd(canvas, t) && (y == t.y || y % STRIP_ROWS == 0)
      requires nextRow <= StripOf(y) && StripOf(y) in pending
      modifies Objects(pending)
      ensures Valid() && Others() == old(Others())
      ensures TheProducer() == Segment(canvas, old(TheProducer()), t, y)
    {
      hide Bag, BagOf, StripBag, Total, Paint, PendingOk, StripsOk, Values, Holdings, Tile.Width, Tile.Height;
      NextRowFacts();
      InCanvas(canvas, t, y);
      SegmentGeometry(canvas, TheProducer(), t, y);
      hide Geometry;
      PaintAt(canvas, pending, StripOf(y), t, y, SegmentEnd(canvas, t, y));
    }

    /** Composites one strip's part of the tile, or counts it late. */
    method PlaceSegment(t: Tile, y: nat) returns (ok: bool)
      requires Valid() && t.Valid() && t.y <= y < TileEnd(canvas, t) && (y == t.y || y % STRIP_ROWS == 0)
      modifies this`pending, this`late, budget, Objects(pending)
      ensures Valid() && Others() == old(Others())
      ensures forall o :: o in Objects(pending) ==> o in Objects(old(pending)) || fresh(o)
      ensures ok ==> TheProducer() == Segment(canvas, old(TheProducer()), t, y)
      ensures ok <==>
        !NeedsBlank(old(TheProducer()), y) || old(budget.current) + BlankCharge(canvas, StripOf(y)) <= budget.cap
      ensures !ok ==> TheProducer() == old(TheProducer()) && budget.current == old(budget.current)
    {
      hide Valid, Others, Geometry, Paint, BlankCharge, Blank, StripsOk, Values, TheProducer, PendingOk;
      var k := StripOf(y);
      ok := true;
      NextRowFacts();
      IsPaintable(canvas, TheProducer(), k);
      if k < nextRow {
        CountLate();
      } else {
        ghost var before := TheProducer();
        IsPaintable(canvas, before, k);
        if k !in pending {
          SegmentOfBlank(canvas, before, t, y);
          ok := AddBlank(k);
          NextRowFacts();
        }
        if ok {
          ghost var filled := TheProducer();
          IsPaintable(canvas, filled, k);
          PaintSegment(t, y);
          assert TheProducer() == Segment(canvas, filled, t, y) == Segment(canvas, before, t, y);
        }
      }
    }

    method CountLate()
      requires Valid()
      modifies this`late
      ensures Valid() && Others() == old(Others())
      ensures TheProducer() == old(TheProducer()).(late := old(late) + 1)
    {
      hide Bag, StripBag, Total, Values, StripsOk, PendingOk;
      late := late + 1;
    }

    /** Places one strip's part of the tile and hands over every strip that completes. */
    method PlaceStrip(t: Tile, y: nat) returns (ok: bool)
      requires Valid() && t.Valid() && failure.None?
      requires t.y <= y < TileEnd(canvas, t) && (y == t.y || y % STRIP_ROWS == 0)
      modifies this`pending, this`nextRow, this`late, this`ready, this`closed, budget, Objects(pending)
      ensures Valid() && Others() == old(Others())
      ensures Geometry(canvas, old(TheProducer())) && Geometry(canvas, TheProducer())
      ensures forall o :: o in Objects(pending) ==> o in Objects(old(pending)) || fresh(o)
      ensures ok ==> (TheProducer(), TheQueue()) == PlaceOne(canvas, old(TheProducer()), old(TheQueue()), t, y)
      ensures ok <==>
        !NeedsBlank(old(TheProducer()), y) || old(budget.current) + BlankCharge(canvas, StripOf(y)) <= budget.cap
      ensures !ok ==>
        TheProducer() == old(TheProducer()) && TheQueue() == old(TheQueue()) && budget.current == old(budget.current)
    {
      hide Valid, Others, Publish, TheProducer, Geometry, StripsOk, Values, Segment, BlankCharge;
      NextRowFacts();
      InCanvas(canvas, t, y);
      SegmentGeometry(canvas, TheProducer(), t, y);
      var isLate := StripOf(y) < nextRow;
      ok := PlaceSegment(t, y);
      if ok && !isLate { PublishComplete(); }
      NextRowFacts();
    }

    /** Places every row of the tile, strip by strip. */
    method PlaceRows(t: Tile) returns (ok: bool)
      requires Valid() && t.Valid() && failure.None?
      modifies this`pending, this`nextRow, this`late, this`ready, this`closed, budget, Objects(pending)
      ensures Valid() && Others() == old(Others()) && Geometry(canvas, old(TheProducer()))
      ensures forall o :: o in Objects(pending) ==> o in Objects(old(pending)) || fresh(o)
      ensures ok ==> (TheProducer(), TheQueue()) == PlaceFrom(canvas, old(TheProducer()), old(TheQueue()), t, t.y)
      ensures !ok ==>
        && Geometry(canvas, TheProducer())
        && Refused(canvas, old(TheProducer()), old(TheQueue()), TheProducer(), TheQueue(), t,
                   budget.current, budget.cap)
    {
      hide Valid, Others, Publish, TheProducer, Geometry, StripsOk, Values, Segment, PlaceOne, BlankCharge, PlaceFrom;
      var y := t.y;
      NextRowFacts();
      while y < TileEnd(canvas, t)
        invariant Valid() && Others() == old(Others()) && failure.None?
        invariant t.y <= y && (y == t.y || y % STRIP_ROWS == 0 || y == TileEnd(canvas, t))
        invariant forall o :: o in Objects(pending) ==> o in Objects(old(pending)) || fresh(o)
        invariant Geometry(canvas, TheProducer())
        invariant PlaceFrom(canvas, TheProducer(), TheQueue(), t, y)
               == PlaceFrom(canvas, old(TheProducer()), old(TheQueue()), t, t.y)
      {
        SegmentAdvances(canvas, t, y);
        PlaceFromUnfolds(canvas, TheProducer(), TheQueue(), t, y);
        ok := PlaceStrip(t, y);
        if !ok {
          assert RefusedAt(canvas, old(TheProducer()), old(TheQueue()), TheProducer(), TheQueue(), t, y,
                           budget.current, budget.cap);
          return;
        }
        y := SegmentEnd(canvas, t, y);
      }
      PlaceFromUnfolds(canvas, TheProducer(), TheQueue(), t, y);
      ok := true;
    }

    /** Stores the reservation of the tile's metadata; a replaced one is given back. */
    method StoreMetadata(id: nat, bytes: nat)
      requires Valid() && bytes in Others()
      modifies this`metadata, budget
      ensures Valid() && TheProducer() == old(TheProducer())
      ensures Others() == old(Others()) - multiset{bytes} && metadata == old(metadata)[id := bytes]
    {
      hide Valid, Others, TheProducer, StripsOk, Values, Objects;
      if id in metadata { RemoveMetadata(id); }
      AddMetadata(id, bytes);
    }

    method AddMetadata(id: nat, bytes: nat)
      requires Valid() && bytes in Others() && id !in metadata
      modifies this`metadata
      ensures Valid() && TheProducer() == old(TheProducer())
      ensures Others() == old(Others()) - multiset{bytes} && metadata == old(metadata)[id := bytes]
    {
      hide Bag, BagOf, StripBag, Geometry, Total, Values, StripsOk;
      BagAdd(metadata, id, bytes);
      HoldMore(budget.live, Holdings(), bytes);
      ghost var held := Holdings();
      assert StripBag(canvas, pending.Keys) + (Bag(metadata) + multiset{bytes}) + BagOf(ready)
          == held + multiset{bytes};
      metadata := metadata[id := bytes];
    }

    method RemoveMetadata(id: nat)
      requires Valid() && id in metadata
      modifies this`metadata, budget
      ensures Valid() && TheProducer() == old(TheProducer())
      ensures Others() == old(Others()) && metadata == old(metadata) - {id}
    {
      hide Valid, Others, TheProducer, StripsOk, Values, Objects;
      var bytes := metadata[id];
      ForgetMetadata(id);
      DropBytes(bytes);
    }

    method ForgetMetadata(id: nat)
      requires Valid() && id in metadata
      modifies this`metadata
      ensures Valid() && TheProducer() == old(TheProducer())
      ensures Others() == old(Others()) + multiset{old(metadata)[id]} && metadata == old(metadata) - {id}
    {
      hide Bag, BagOf, StripBag, Geometry, Total, Values, StripsOk;
      var bytes := metadata[id];
      ghost var held := StripBag(canvas, pending.Keys) + Bag(metadata - {id}) + BagOf(ready);
      BagRemove(metadata, id);
      assert Holdings() == held + multiset{bytes};
      HoldLess(budget.live, held, bytes);
      metadata := metadata - {id};
      assert Holdings() == held;
    }

    lemma TwoOfOthers(a: nat, b: nat)
      requires multiset{a, b} <= Others()
      ensures b in Others() && a in Others() - multiset{b}
      ensures Others() - multiset{b} - multiset{a} == Others() - multiset{a, b}
    {
      hide Holdings;
    }

    /** The part of `place` after the check for failure. */
    method PlaceAccepted(t: Tile) returns (ok: bool)
      requires Valid() && t.Valid() && failure.None? && t.metadataBytes in Others()
      modifies this`pending, this`nextRow, this`late, this`metadata, this`ready, this`closed, budget, Objects(pending)
      ensures Valid() && Others() == old(Others()) - multiset{t.metadataBytes}
      ensures Geometry(canvas, old(TheProducer()))
      ensures metadata == if t.metadataBytes > 0 then old(metadata)[t.id := t.metadataBytes] else old(metadata)
      ensures ok ==> (TheProducer(), TheQueue()) == PlaceFrom(canvas, old(TheProducer()), old(TheQueue()), t, t.y)
      ensures !ok ==>
        && Geometry(canvas, TheProducer())
        && Refused(canvas, old(TheProducer()), old(TheQueue()), TheProducer(), TheQueue(), t,
                   budget.current, budget.cap)
    {
      hide Valid, Others, TheProducer, Geometry, StripsOk, Values, Objects, Refused, PlaceFrom;
      NextRowFacts();
      if t.metadataBytes > 0 {
        StoreMetadata(t.id, t.metadataBytes);
      } else {
        DropBytes(0);
      }
      ok := PlaceRows(t);
    }

    /** One whole `place` call. Its two reservations end, or move into the metadata map. It fails only
        if the pipe has failed, or at the first strip whose blank does not fit beside the tile. */
    method Place(t: Tile) returns (r: Result<(), Error>)
      requires Valid() && t.Valid() && multiset{t.bytes, t.metadataBytes} <= Others()
      modifies this`pending, this`nextRow, this`late, this`metadata, this`ready, this`closed, budget, Objects(pending)
      ensures Valid() && Others() == old(Others()) - multiset{t.bytes, t.metadataBytes}
      ensures Geometry(canvas, old(TheProducer()))
      ensures failure.Some? ==>
        && r == Err(failure.value) && TheProducer() == old(TheProducer()) && TheQueue() == old(TheQueue())
        && metadata == old(metadata)
      ensures failure.None? ==>
        && metadata == (if t.metadataBytes > 0 then old(metadata)[t.id := t.metadataBytes] else old(metadata))
        && r in {Ok(()), Err(MemoryLimit)}
      ensures r.Ok? ==> (TheProducer(), TheQueue()) == PlaceFrom(canvas, old(TheProducer()), old(TheQueue()), t, t.y)
      ensures failure.None? && r.Err? ==>
        && Geometry(canvas, TheProducer())
        && Refused(canvas, old(TheProducer()), old(TheQueue()), TheProducer(), TheQueue(), t,
                   budget.current + t.bytes, budget.cap)
    {
      hide Valid, Others, TheProducer, Geometry, StripsOk, Values, Objects, PlaceFrom, Refused;
      NextRowFacts();
      TwoOfOthers(t.bytes, t.metadataBytes);
      if failure.Some? {
        DropBytes(t.metadataBytes);
        r := Err(failure.value);
      } else {
        var ok := PlaceAccepted(t);
        r := if ok then Ok(()) else Err(MemoryLimit);
      }
      DropBytes(t.bytes);
    }

    /** One whole `finish` call: every remaining strip is handed over, up to the first whose blank
        does not fit, unless the pipe has failed. */
    method Finish() returns (r: Result<(), Error>)
      requires Valid()
      modifies this`pending, this`nextRow, this`ready, this`closed, budget
      ensures Valid() && Others() == old(Others()) && Geometry(canvas, old(TheProducer()))
      ensures r.Ok? ==> (TheProducer(), TheQueue()) == PublishAll(canvas, old(TheProducer()), old(TheQueue()))
      ensures r.Err? ==> nextRow < canvas.height
      ensures r.Err? && nextRow in pending ==> failure == Some(r.error)
      ensures r.Err? && nextRow !in pending ==>
        && r.error == MemoryLimit && budget.current + BlankCharge(canvas, nextRow) > budget.cap
        && Geometry(canvas, TheProducer())
        && PublishAll(canvas, TheProducer(), TheQueue()) == PublishAll(canvas, old(TheProducer()), old(TheQueue()))
      ensures failure.Some? && old(nextRow) < canvas.height ==> r.Err? && TheQueue() == old(TheQueue())
    {
      hide Valid, Others, Publish, TheProducer, Geometry, StripsOk, Values, Filled, BlankCharge;
      NextRowFacts();
      r := Ok(());
      while nextRow < canvas.height
        invariant Valid() && Others() == old(Others()) && r.Ok?
        invariant nextRow <= canvas.height && TheProducer().nextRow == nextRow
        invariant Geometry(canvas, TheProducer())
        invariant failure.Some? ==> nextRow == old(nextRow) && TheQueue() == old(TheQueue())
        invariant PublishAll(canvas, TheProducer(), TheQueue())
               == PublishAll(canvas, old(TheProducer()), old(TheQueue()))
        decreases canvas.height - nextRow
      {
        FilledGeometry(canvas, TheProducer());
        PublishGeometry(canvas, Filled(canvas, TheProducer()), TheQueue());
        r := PublishNext();
        if r.Err? { return; }
        NextRowFacts();
      }
    }

    /** The reader takes the oldest strip, with its reservation; a call that would have to
        wait is not a step. */
    method Receive() returns (r: Result<Option<Strip>, Error>)
      requires Valid() && (failure.Some? || ready != [] || closed)
      modifies this`ready
      ensures Valid() && TheProducer() == old(TheProducer())
      ensures failure.Some? ==> r == Err(failure.value) && ready == old(ready)
      ensures failure.None? && old(ready) != [] ==> r == Ok(Some(old(ready)[0])) && ready == old(ready)[1..]
      ensures failure.None? && old(ready) == [] ==> r == Ok(None) && ready == []
      ensures Others() == old(Others())
        + (if r.Ok? && r.value.Some? then multiset{r.value.value.charge} else multiset{})
    {
      hide Valid, Others, TheProducer, StripsOk, Values, Objects;
      if failure.Some? { return Err(failure.value); }
      if ready != [] {
        var strip := TakeQueued();
        return Ok(Some(strip));
      }
      r := Ok(None);
    }

    method DropQueue()
      requires Valid() && failure.Some?
      modifies this`ready, budget
      ensures Valid() && TheProducer() == old(TheProducer()) && Others() == old(Others()) && ready == []
    {
      hide Valid, Others, TheProducer, StripsOk, Values, Objects;
      while ready != []
        invariant Valid() && TheProducer() == old(TheProducer()) && Others() == old(Others())
        decreases |ready|
      {
        var strip := TakeQueued();
        DropBytes(strip.charge);
      }
    }

    method TakeQueued() returns (strip: Strip)
      requires Valid() && ready != []
      modifies this`ready
      ensures Valid() && TheProducer() == old(TheProducer())
      ensures strip == old(ready)[0] && ready == old(ready)[1..]
      ensures Others() == old(Others()) + multiset{strip.charge}
    {
      hide Bag, BagOf, StripBag, Geometry, Total, Values, StripsOk;
      strip := ready[0];
      ghost var held := StripBag(canvas, pending.Keys) + Bag(metadata) + BagOf(ready[1..]);
      BagPrepend(ready);
      assert Holdings() == held + multiset{strip.charge};
      HoldLess(budget.live, held, strip.charge);
      ready := ready[1..];
      assert Holdings() == held;
    }

    /** Drops a pending strip with its reservation. */
    method DropPending(k: nat)
      requires Valid() && k in pending
      modifies this`pending, budget
      ensures Valid() && TheProducer() == old(TheProducer()).(pending := old(TheProducer()).pending - {k})
      ensures Others() == old(Others()) && pending.Keys == old(pending.Keys) - {k}
    {
      hide Valid, Others, TheProducer, StripsOk, Values, Objects, BlankCharge;
      ForgetPending(k);
      DropBytes(BlankCharge(canvas, k));
    }

    method ForgetPending(k: nat)
      requires Valid() && k in pending
      modifies this`pending
      ensures Valid() && TheProducer() == old(TheProducer()).(pending := old(TheProducer()).pending - {k})
      ensures Others() == old(Others()) + multiset{BlankCharge(canvas, k)} && pending.Keys == old(pending.Keys) - {k}
      ensures Objects(pending) <= Objects(old(pending))
    {
      hide Bag, BagOf, StripBag, Total, PendingOk, StripsOk, Values, BlankCharge;
      ghost var held := StripBag(canvas, pending.Keys - {k}) + Bag(metadata) + BagOf(ready);
      HeldWithout(k);
      WithoutStrip(canvas, pending, k);
      var rest := pending - {k};
      assert rest.Keys == pending.Keys - {k};
      assert this !in Objects(rest) && budget !in Objects(rest);
      ghost var values := Values(canvas, rest);
      pending := rest;
      assert StripsOk(canvas, pending) && Values(canvas, pending) == values;
      assert Holdings() == held;
    }

    method SetFailure(error: Error)
      requires Valid()
      modifies this`failure
      ensures Valid() && TheProducer() == old(TheProducer()) && Others() == old(Others())
      ensures failure == if old(failure).Some? then old(failure) else Some(error)
    {
      hide Bag, BagOf, StripBag, Geometry, Total, Values, StripsOk;
      if failure.None? { failure := Some(error); }
    }

    /** One whole `fail` call: the first error stays, and everything the pipe holds is given
        back. */
    method Fail(error: Error)
      requires Valid()
      modifies this`failure, this`ready, this`pending, this`metadata, budget
      ensures Valid() && Others() == old(Others())
      ensures failure == if old(failure).Some? then old(failure) else Some(error)
      ensures ready == [] && pending == map[] && metadata == map[] && Holdings() == multiset{}
    {
      hide Valid, Others, TheProducer, StripsOk, Values, Objects;
      SetFailure(error);
      DropQueue();
      DropAllPending();
      DropAllMetadata();
      NothingHeld();
    }

    lemma NothingHeld()
      requires ready == [] && pending == map[] && metadata == map[]
      ensures Holdings() == multiset{}
    {
      assert (map k | k in pending.Keys :: BlankCharge(canvas, k)) == map[];
    }

    method DropAllPending()
      requires Valid()
      modifies this`pending, budget
      ensures Valid() && Others() == old(Others()) && pending == map[]
    {
      hide Valid, Others, TheProducer, StripsOk, Values, Objects;
      while pending.Keys != {}
        invariant Valid() && Others() == old(Others())
        decreases |pending.Keys|
      {
        var k :| k in pending.Keys;
        DropPending(k);
      }
    }

    method DropAllMetadata()
      requires Valid()
      modifies this`metadata, budget
      ensures Valid() && Others() == old(Others()) && metadata == map[]
    {
      hide Valid, Others, TheProducer, StripsOk, Values, Objects;
      while metadata.Keys != {}
        invariant Valid() && Others() == old(Others())
        decreases |metadata.Keys|
      {
        var id :| id in metadata.Keys;
        assert (metadata - {id}).Keys == metadata.Keys - {id};
        RemoveMetadata(id);
      }
    }
  }
}
