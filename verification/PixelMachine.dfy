/** The pixel pipe as interleaved locked sections. Tile tasks place tiles, one task
    finishes, the encoder receives and drops strips, and any thread may fail the pipe
    between two sections. Every reservation is in exactly one place: a pending strip, tile
    metadata, the queue, the encoder, or `outside` (decoders, workspace, a tile being
    placed, and anything dropped but not yet given back). */
module PixelMachine {
  import opened Arithmetic
  import opened Options
  import opened MemoryAccounting
  import opened Pixels
  import opened PixelModel

  datatype Holder =
    | Idle
    | Placing(tile: Tile, y: nat, publishing: bool)
    | Finishing

  /** One accepted contribution: the part of tile number `index` in one strip. */
  datatype Part = Part(index: nat, tile: Tile, firstRow: nat)

  datatype Config = Config(canvas: Canvas, cap: nat) {
    ghost predicate Valid() {
      canvas.Valid() && cap < U64_MAX
    }
  }

  datatype Machine = Machine(
    usage: Usage, outside: nat,
    producer: Producer, metadata: map<nat, nat>, holder: Holder,
    queue: Queue<Error>, held: seq<Strip>,
    begun: seq<Tile>, log: seq<Part>, emitted: seq<Strip>, received: seq<Strip>,
    failedCalls: nat, finishes: nat)

  datatype Action =
    | Reserve(bytes: nat)
    | Release(bytes: nat)
    | BeginPlace(tile: Tile)
    | PlaceSegment
    | PlacePublish
    | EndPlace
    | BeginFinish
    | FinishBlank
    | FinishPublish
    | EndFinish
    | Fail(error: Error)
    | ClearAfterFail
    | Receive
    | DropStrip(index: nat)

  function Start(): Machine {
    Machine(Usage(0, 0), 0, Producer(map[], 0, 0), map[], Idle, Queue([], false, None), [],
            [], [], [], [], 0, 0)
  }

  /** Sums of reservations. */
  ghost function SumMap(m: map<nat, nat>): nat
    decreases |m|
  {
    if m == map[] then 0 else var k :| k in m; m[k] + SumMap(m - {k})
  }

  lemma {:induction false} SumMapRemove(m: map<nat, nat>, k: nat)
    requires k in m
    ensures SumMap(m) == m[k] + SumMap(m - {k})
    decreases |m|
  {
    var j :| j in m && SumMap(m) == m[j] + SumMap(m - {j});
    if j != k {
      SumMapRemove(m - {j}, k);
      SumMapRemove(m - {k}, j);
      assert m - {j} - {k} == m - {k} - {j};
    }
  }

  lemma SumMapUpdate(m: map<nat, nat>, k: nat, v: nat)
    ensures SumMap(m[k := v]) == (if k in m then SumMap(m) - m[k] else SumMap(m)) + v
  {
    SumMapRemove(m[k := v], k);
    if k in m {
      SumMapRemove(m, k);
      assert m[k := v] - {k} == m - {k};
    } else {
      assert m[k := v] - {k} == m;
    }
  }

  ghost function Charges(pending: map<nat, Pending>): map<nat, nat> {
    map k | k in pending :: pending[k].strip.charge
  }

  ghost function SumStrips(strips: seq<Strip>): nat {
    if strips == [] then 0 else SumStrips(strips[..|strips| - 1]) + strips[|strips| - 1].charge
  }

  lemma {:induction false} SumStripsConcat(a: seq<Strip>, b: seq<Strip>)
    ensures SumStrips(a + b) == SumStrips(a) + SumStrips(b)
  {
    if b == [] {
      assert a + b == a;
    } else {
      SumStripsConcat(a, b[..|b| - 1]);
      assert (a + b)[..|a + b| - 1] == a + b[..|b| - 1];
    }
  }

  /** Everything that is reserved right now. */
  ghost function LiveBytes(s: Machine): nat {
    s.outside + SumMap(Charges(s.producer.pending)) + SumMap(s.metadata)
    + SumStrips(s.queue.ready) + SumStrips(s.held)
  }

  /** Which action may run next. Only one task holds the producer lock. */
  ghost predicate Enabled(c: Config, s: Machine, a: Action) {
    match a
    case Reserve(_) => true
    case Release(bytes) => bytes <= s.outside
    case BeginPlace(tile) => s.holder.Idle? && tile.Valid() && tile.metadataBytes <= s.outside
    case PlaceSegment => s.holder.Placing? && !s.holder.publishing && s.holder.y < TileEnd(c.canvas, s.holder.tile)
    case PlacePublish => s.holder.Placing? && s.holder.publishing
    case EndPlace => s.holder.Placing? && !s.holder.publishing && s.holder.y >= TileEnd(c.canvas, s.holder.tile)
    case BeginFinish => s.holder.Idle?
    case FinishBlank =>
      s.holder.Finishing? && s.producer.nextRow < c.canvas.height && s.producer.nextRow !in s.producer.pending
    case FinishPublish =>
      s.holder.Finishing? && s.producer.nextRow < c.canvas.height && s.producer.nextRow in s.producer.pending
    case EndFinish => s.holder.Finishing? && s.producer.nextRow >= c.canvas.height
    case Fail(_) => true
    case ClearAfterFail => s.holder.Idle? && s.queue.failure.Some?
    case Receive => s.queue.failure.Some? || s.queue.ready != [] || s.queue.closed
    case DropStrip(i) => i < |s.held|
  }

  ghost predicate WellFormed(c: Config, s: Machine) {
    && c.Valid()
    && (forall k :: k in s.producer.pending ==> PendingOk(c.canvas, s.producer.pending[k]))
    && (s.holder.Placing? ==>
          && s.holder.tile.Valid() && s.holder.y >= s.holder.tile.y
          && s.begun != [] && s.begun[|s.begun| - 1] == s.holder.tile)
  }

  /** Hands the next strip over, unless the pipe has failed. */
  function PublishNext(c: Config, s: Machine, next: Holder): Machine
    requires s.producer.nextRow in s.producer.pending
  {
    if s.queue.failure.Some? then s.(holder := Idle, failedCalls := s.failedCalls + 1)
    else
      var strip := s.producer.pending[s.producer.nextRow];
      var (p, q) := Publish(c.canvas, s.producer, s.queue);
      s.(producer := p, queue := q, holder := next,
         outside := s.outside + SaturatingSub(strip.strip.charge, HandOver(strip).charge),
         emitted := s.emitted + [HandOver(strip)])
  }

  /** Adds a blank strip at row `k` if its bytes can be reserved. */
  function AddBlank(c: Config, s: Machine, k: nat): Option<Machine> {
    match Reserved(c.cap, s.usage, BlankCharge(c.canvas, k))
    case None => None
    case Some(usage) =>
      Some(s.(usage := usage,
              producer := s.producer.(pending := s.producer.pending[k := Blank(c.canvas, k)])))
  }

  function Place(c: Config, s: Machine): Machine
    requires c.canvas.width > 0 && s.holder.Placing? && s.holder.tile.Valid() && s.begun != []
    requires Paintable(s.producer, StripOf(s.holder.y))
  {
    var Placing(t, y, _) := s.holder;
    var until := SegmentEnd(c.canvas, t, y);
    var late := StripOf(y) < s.producer.nextRow;
    match if NeedsBlank(s.producer, y) then AddBlank(c, s, StripOf(y)) else Some(s)
    case None => s.(holder := Idle, failedCalls := s.failedCalls + 1)
    case Some(s') =>
      s'.(producer := Segment(c.canvas, s'.producer, t, y),
          holder := Placing(t, until, !late),
          log := if late then s.log else s.log + [Part(|s.begun| - 1, t, StripOf(y))])
  }

  ghost function Apply(c: Config, s: Machine, a: Action): Machine
    requires WellFormed(c, s) && Enabled(c, s, a)
  {
    match a
    case Reserve(bytes) =>
      (match Reserved(c.cap, s.usage, bytes)
       case None => s
       case Some(usage) => s.(usage := usage, outside := s.outside + bytes))
    case Release(bytes) =>
      s.(usage := s.usage.(current := SaturatingSub(s.usage.current, bytes)), outside := s.outside - bytes)
    case BeginPlace(tile) =>
      if s.queue.failure.Some? then s.(failedCalls := s.failedCalls + 1)
      else
        var s' := s.(begun := s.begun + [tile], holder := Placing(tile, tile.y, false));
        if tile.metadataBytes == 0 then s'
        else
          s'.(metadata := s.metadata[tile.id := tile.metadataBytes],
              outside := s.outside - tile.metadataBytes
                         + (if tile.id in s.metadata then s.metadata[tile.id] else 0))
    case PlaceSegment => Place(c, s)
    case PlacePublish =>
      if NextReady(s.producer) then PublishNext(c, s, s.holder)
      else s.(holder := s.holder.(publishing := false))
    case EndPlace => s.(holder := Idle)
    case BeginFinish => s.(holder := Finishing, finishes := s.finishes + 1)
    case FinishBlank =>
      (match AddBlank(c, s, s.producer.nextRow)
       case None => s.(holder := Idle, failedCalls := s.failedCalls + 1)
       case Some(s') => s')
    case FinishPublish => PublishNext(c, s, Finishing)
    case EndFinish => s.(holder := Idle)
    case Fail(error) =>
      s.(queue := s.queue.(failure := if s.queue.failure.Some? then s.queue.failure else Some(error), ready := []),
         outside := s.outside + SumStrips(s.queue.ready))
    case ClearAfterFail =>
      s.(producer := s.producer.(pending := map[]), metadata := map[],
         outside := s.outside + SumMap(Charges(s.producer.pending)) + SumMap(s.metadata))
    case Receive =>
      if s.queue.failure.Some? || s.queue.ready == [] then s
      else
        s.(queue := s.queue.(ready := s.queue.ready[1..]),
           held := s.held + [s.queue.ready[0]], received := s.received + [s.queue.ready[0]])
    case DropStrip(i) =>
      s.(held := s.held[..i] + s.held[i + 1..], outside := s.outside + s.held[i].charge)
  }

  // ---- What every section keeps -------------------------------------------------------

  ghost predicate GeometryInv(c: Config, s: Machine) {
    Geometry(c.canvas, s.producer)
  }

  /** The accounted bytes are the live reservations and stay under the cap. */
  ghost predicate BudgetInv(c: Config, s: Machine) {
    s.usage.current == LiveBytes(s) <= c.cap && s.usage.current <= s.usage.peak <= c.cap
  }

  /** Strips come out whole and in row order, and the reader sees a prefix of them. */
  ghost predicate OrderInv(c: Config, s: Machine) {
    && s.producer.nextRow == Min(STRIP_ROWS * |s.emitted|, c.canvas.height)
    && (s.emitted != [] ==> STRIP_ROWS * (|s.emitted| - 1) < c.canvas.height)
    && (forall k :: 0 <= k < |s.emitted| ==> IsWholeStrip(c.canvas, s.emitted[k], STRIP_ROWS * k))
    && (s.queue.closed <==> s.producer.nextRow == c.canvas.height)
    && (if s.queue.failure.None? then s.received + s.queue.ready == s.emitted
        else s.queue.ready == [] && s.received <= s.emitted)
  }

  ghost predicate IsWholeStrip(c: Canvas, strip: Strip, firstRow: nat) {
    && strip.firstRow == firstRow < c.height
    && strip.rows == StripRows(c, firstRow)
    && |strip.rgba| == StripPixels(c, firstRow)
    && strip.charge == 4 * |strip.rgba|
  }

  ghost predicate Inv1(c: Config, s: Machine) {
    WellFormed(c, s) && GeometryInv(c, s) && BudgetInv(c, s) && OrderInv(c, s)
  }

  lemma StartBudget(c: Config)
    ensures BudgetInv(c, Start())
  {
    assert Charges(Start().producer.pending) == map[];
  }

  lemma StartInv1(c: Config)
    requires c.Valid()
    ensures Inv1(c, Start())
  {
    StartBudget(c);
    hide BudgetInv;
    assert GeometryInv(c, Start());
  }

  // ---- Adding, painting and handing over one strip -----------------------------------

  lemma BlankBudget(c: Config, s: Machine, k: nat)
    requires c.Valid() && BudgetInv(c, s) && k !in s.producer.pending
    ensures match AddBlank(c, s, k) case None => true case Some(s') => BudgetInv(c, s')
  {
    var pending, blank := s.producer.pending, Blank(c.canvas, k);
    ReserveIsExact(c.cap, s.usage, BlankCharge(c.canvas, k));
    assert Charges(pending[k := blank]) == Charges(pending)[k := blank.strip.charge];
    SumMapUpdate(Charges(pending), k, blank.strip.charge);
    hide Charges, StripPixels, DivCeil;
  }

  lemma BlankFacts(c: Config, s: Machine, k: nat)
    requires WellFormed(c, s) && GeometryInv(c, s)
    requires k % STRIP_ROWS == 0 && s.producer.nextRow <= k < c.canvas.height && k !in s.producer.pending
    ensures match AddBlank(c, s, k)
      case None => true
      case Some(s') =>
        && WellFormed(c, s') && GeometryInv(c, s')
        && (BudgetInv(c, s) ==> BudgetInv(c, s'))
  {
    if BudgetInv(c, s) { BlankBudget(c, s, k); }
    BlankOk(c.canvas, k);
    hide BudgetInv, Blank, PendingOk, BlankCharge, Reserved, Canvas.Valid, TileEnd;
  }

  lemma BlankOk(c: Canvas, k: nat)
    requires k < c.height
    ensures PendingOk(c, Blank(c, k)) && Blank(c, k).strip.firstRow == k
  {
    hide StripPixels;
  }

  lemma PaintFacts(c: Config, s: Machine, t: Tile, y: nat)
    requires WellFormed(c, s) && GeometryInv(c, s) && t.Valid()
    requires y < c.canvas.height && StripOf(y) in s.producer.pending
    ensures var p := Segment(c.canvas, s.producer, t, y);
      && WellFormed(c, s.(producer := p)) && GeometryInv(c, s.(producer := p))
      && Charges(p.pending) == Charges(s.producer.pending)
  {
    var k := StripOf(y);
    var painted := Paint(c.canvas, s.producer.pending[k], t);
    hide Paint;
    assert Segment(c.canvas, s.producer, t, y).pending == s.producer.pending[k := painted];
  }

  lemma PublishFacts(c: Config, s: Machine, next: Holder)
    requires WellFormed(c, s) && GeometryInv(c, s) && s.producer.nextRow in s.producer.pending
    requires next == s.holder || !next.Placing?
    ensures var s' := PublishNext(c, s, next);
      WellFormed(c, s') && GeometryInv(c, s')
  {
    PublishGeometry(c.canvas, s.producer, s.queue);
  }

  lemma PublishOrder(c: Config, s: Machine, next: Holder)
    requires WellFormed(c, s) && GeometryInv(c, s) && OrderInv(c, s) && s.producer.nextRow in s.producer.pending
    ensures OrderInv(c, PublishNext(c, s, next))
  {
    if s.queue.failure.None? {
      var s' := PublishNext(c, s, next);
      var strip := s.producer.pending[s.producer.nextRow];
      assert s.producer.nextRow == STRIP_ROWS * |s.emitted|;
      assert PendingOk(c.canvas, strip);
      assert IsWholeStrip(c.canvas, HandOver(strip), STRIP_ROWS * |s.emitted|);
      assert s'.received + s'.queue.ready == s.emitted + [HandOver(strip)];
    }
  }

  lemma PublishBudget(c: Config, s: Machine, next: Holder)
    requires WellFormed(c, s) && BudgetInv(c, s) && s.producer.nextRow in s.producer.pending
    ensures BudgetInv(c, PublishNext(c, s, next))
  {
    if s.queue.failure.None? {
      var pending, k := s.producer.pending, s.producer.nextRow;
      var given := HandOver(pending[k]);
      assert Charges(pending - {k}) == Charges(pending) - {k};
      SumMapRemove(Charges(pending), k);
      SumStripsConcat(s.queue.ready, [given]);
      SumOne(given);
    }
  }

  lemma PlaceFacts(c: Config, s: Machine)
    requires WellFormed(c, s) && GeometryInv(c, s) && Enabled(c, s, PlaceSegment)
    ensures WellFormed(c, Place(c, s)) && GeometryInv(c, Place(c, s))
    ensures BudgetInv(c, s) ==> BudgetInv(c, Place(c, s))
  {
    hide Paint;
    hide Blank;
    var Placing(t, y, _) := s.holder;
    var k := StripOf(y);
    assert y < c.canvas.height;
    if k >= s.producer.nextRow {
      if NeedsBlank(s.producer, y) {
        BlankFacts(c, s, k);
        match AddBlank(c, s, k)
        case None =>
        case Some(s') => PaintFacts(c, s', t, y);
      } else {
        PaintFacts(c, s, t, y);
      }
    }
  }

  lemma SumStripsRemove(strips: seq<Strip>, i: nat)
    requires i < |strips|
    ensures SumStrips(strips) == SumStrips(strips[..i] + strips[i + 1..]) + strips[i].charge
  {
    hide SumStrips;
    var front, back := strips[..i], strips[i + 1..];
    assert strips == front + ([strips[i]] + back);
    SumStripsConcat(front, [strips[i]] + back);
    SumStripsConcat([strips[i]], back);
    SumStripsConcat(front, back);
    SumOne(strips[i]);
  }

  lemma SumOne(strip: Strip)
    ensures SumStrips([strip]) == strip.charge
  {
    assert [strip][..0] == [];
  }

  // ---- The three invariants over every action ----------------------------------------

  lemma GeometryKept(c: Config, s: Machine, a: Action)
    requires WellFormed(c, s) && GeometryInv(c, s) && OrderInv(c, s) && Enabled(c, s, a)
    ensures WellFormed(c, Apply(c, s, a)) && GeometryInv(c, Apply(c, s, a))
  {
    match a
    case PlaceSegment => PlaceFacts(c, s);
    case PlacePublish => if NextReady(s.producer) { PublishFacts(c, s, s.holder); }
    case FinishBlank => BlankFacts(c, s, s.producer.nextRow);
    case FinishPublish => PublishFacts(c, s, Finishing);
    case _ =>
  }

  lemma ReceiveOrder(c: Config, s: Machine)
    requires WellFormed(c, s) && OrderInv(c, s) && Enabled(c, s, Receive)
    ensures OrderInv(c, Apply(c, s, Receive))
  {
    if s.queue.failure.None? && s.queue.ready != [] {
      assert s.received + s.queue.ready == s.received + [s.queue.ready[0]] + s.queue.ready[1..];
    }
  }

  lemma OrderKept(c: Config, s: Machine, a: Action)
    requires WellFormed(c, s) && GeometryInv(c, s) && OrderInv(c, s) && Enabled(c, s, a)
    ensures OrderInv(c, Apply(c, s, a))
  {
    hide Paint, Blank;
    match a
    case PlacePublish => if NextReady(s.producer) { PublishOrder(c, s, s.holder); }
    case FinishPublish => PublishOrder(c, s, Finishing);
    case Receive => ReceiveOrder(c, s);
    case _ =>
  }

  lemma MetadataBudget(c: Config, s: Machine, tile: Tile)
    requires WellFormed(c, s) && BudgetInv(c, s) && Enabled(c, s, BeginPlace(tile))
    ensures BudgetInv(c, Apply(c, s, BeginPlace(tile)))
  {
    SumMapUpdate(s.metadata, tile.id, tile.metadataBytes);
    if tile.id in s.metadata { SumMapRemove(s.metadata, tile.id); }
  }

  lemma ReceiveBudget(c: Config, s: Machine)
    requires WellFormed(c, s) && BudgetInv(c, s) && Enabled(c, s, Receive)
    ensures BudgetInv(c, Apply(c, s, Receive))
  {
    if s.queue.failure.None? && s.queue.ready != [] {
      var first, rest := s.queue.ready[..1], s.queue.ready[1..];
      assert s.queue.ready == first + rest && first == [s.queue.ready[0]];
      SumStripsConcat(first, rest);
      SumStripsConcat(s.held, first);
    }
  }

  /** A section that touches no strip, no metadata and no reservation but those outside. */
  lemma OthersBudget(c: Config, s: Machine, a: Action)
    requires WellFormed(c, s) && BudgetInv(c, s) && Enabled(c, s, a)
    requires a.Reserve? || a.Release? || a.EndPlace? || a.BeginFinish? || a.EndFinish? || a.Fail? || a.ClearAfterFail?
             || (a.PlacePublish? && !NextReady(s.producer))
    ensures BudgetInv(c, Apply(c, s, a))
  {
    assert c.Valid();
    if a.ClearAfterFail? { NothingPending(); }
    hide WellFormed, TileEnd, BlankCharge, Blank, Charges;
    if a.Reserve? { ReserveIsExact(c.cap, s.usage, a.bytes); }
  }

  lemma NothingPending()
    ensures SumMap(Charges(map[])) == 0 && SumMap(map[]) == 0
  {
    assert Charges(map[]) == map[];
  }

  lemma BudgetKept(c: Config, s: Machine, a: Action)
    requires WellFormed(c, s) && GeometryInv(c, s) && BudgetInv(c, s) && Enabled(c, s, a)
    ensures BudgetInv(c, Apply(c, s, a))
  {
    hide BudgetInv;
    match a
    case BeginPlace(tile) => MetadataBudget(c, s, tile);
    case PlaceSegment => PlaceFacts(c, s);
    case PlacePublish => if NextReady(s.producer) { PublishBudget(c, s, s.holder); } else { OthersBudget(c, s, a); }
    case FinishBlank => FinishBlankBudget(c, s);
    case FinishPublish => PublishBudget(c, s, Finishing);
    case Receive => ReceiveBudget(c, s);
    case DropStrip(i) => DropBudget(c, s, i);
    case _ => OthersBudget(c, s, a);
  }

  lemma FinishBlankBudget(c: Config, s: Machine)
    requires WellFormed(c, s) && BudgetInv(c, s) && Enabled(c, s, FinishBlank)
    ensures BudgetInv(c, Apply(c, s, FinishBlank))
  {
    BlankBudget(c, s, s.producer.nextRow);
    hide WellFormed, AddBlank, SumMap, SumStrips, Charges;
  }

  lemma DropBudget(c: Config, s: Machine, i: nat)
    requires WellFormed(c, s) && BudgetInv(c, s) && i < |s.held|
    ensures BudgetInv(c, Apply(c, s, DropStrip(i)))
  {
    SumStripsRemove(s.held, i);
    hide WellFormed, SumMap, SumStrips, Charges;
  }
}
