/**
 * The occupancy store of app/parking_state.py: a fixed table of twelve
 * spots, each a mutable record holding a status text and an optional plate,
 * and two running counters. Every method of the class is one atomic step
 * (the source holds a lock around the batch update and the queries).
 */
module ParkingStore {
  import opened Wrappers
  import opened PyStr

  /** The number of spots, and the counter value `available` is reset to. */
  const TotalSpots: int := 12

  /** The spot ids, `range(1, 13)`. */
  function SpotIds(): (ids: set<int>)
    ensures forall i :: i in ids <==> 1 <= i <= TotalSpots
  {
    {1, 2, 3, 4, 5, 6, 7, 8, 9, 10, 11, 12}
  }

  /** The value held in one spot's record. */
  datatype Spot = Spot(status: string, plate: Option<string>)

  /**
   * One value of a batch: a dictionary with optional `status` and `plate`
   * keys (`status == None` is the missing key; `plate == None` is a missing
   * key or an explicit `None`), or a bare status text (the older format).
   */
  datatype Entry = Fields(status: Option<string>, plate: Option<string>) | Bare(text: string)

  /** A batch in dictionary iteration order: spot id and value. */
  type Batch = seq<(int, Entry)>

  /** Python truthiness of an optional plate: present and non-empty. */
  predicate Truthy(p: Option<string>) {
    p.Some? && p.value != ""
  }

  /** What one batch value does to the record of a spot that is in the table. */
  function ApplyEntry(s: Spot, e: Entry): Spot {
    match e
    case Fields(st, pl) =>
      Spot(st.GetOr("empty"),
           if Truthy(pl) then pl else if st == Some("empty") then None else s.plate)
    case Bare(t) =>
      Spot(t, if t == "empty" then None else s.plate)
  }

  /** Whether a batch value adds one to `occupied`. */
  predicate CountsOccupied(e: Entry) {
    match e
    case Fields(st, _) => st == Some("occupied")
    case Bare(t) => t == "occupied"
  }

  /** The table after applying a batch entry by entry; ids not in the table are skipped. */
  function ApplyBatch(v: map<int, Spot>, b: Batch): (r: map<int, Spot>)
    ensures r.Keys == v.Keys
  {
    if b == [] then v
    else
      var w := ApplyBatch(v, b[..|b| - 1]);
      var (id, e) := b[|b| - 1];
      if id in w then w[id := ApplyEntry(w[id], e)] else w
  }

  /** The number of entries of `b` with an id in `ids` that count as occupied. */
  function OccupiedIn(ids: set<int>, b: Batch): nat {
    if b == [] then 0
    else
      OccupiedIn(ids, b[..|b| - 1])
      + (if b[|b| - 1].0 in ids && CountsOccupied(b[|b| - 1].1) then 1 else 0)
  }

  /** Applying a batch with one more entry at its end. */
  lemma ApplyBatchSnoc(v: map<int, Spot>, b: Batch, id: int, e: Entry)
    ensures var w := ApplyBatch(v, b);
            ApplyBatch(v, b + [(id, e)]) == if id in w then w[id := ApplyEntry(w[id], e)] else w
    ensures OccupiedIn(SpotIds(), b + [(id, e)])
            == OccupiedIn(SpotIds(), b) + (if id in SpotIds() && CountsOccupied(e) then 1 else 0)
  {
    assert (b + [(id, e)])[..|b|] == b;
  }

  /** The prefix of a batch one entry longer. */
  lemma BatchStep(v: map<int, Spot>, b: Batch, k: nat)
    requires k < |b|
    ensures var w := ApplyBatch(v, b[..k]);
            var (id, e) := b[k];
            ApplyBatch(v, b[..k + 1]) == if id in w then w[id := ApplyEntry(w[id], e)] else w
    ensures OccupiedIn(SpotIds(), b[..k + 1])
            == OccupiedIn(SpotIds(), b[..k]) + (if b[k].0 in SpotIds() && CountsOccupied(b[k].1) then 1 else 0)
  {
    assert b[..k + 1] == b[..k] + [b[k]];
    ApplyBatchSnoc(v, b[..k], b[k].0, b[k].1);
  }

  /** Dictionary keys are distinct. */
  predicate DistinctIds(b: Batch) {
    forall i, j :: 0 <= i < j < |b| ==> b[i].0 != b[j].0
  }

  /** The value the batch holds for `id`, if any. */
  function Lookup(b: Batch, id: int): (r: Option<Entry>)
    ensures r.None? <==> forall k :: 0 <= k < |b| ==> b[k].0 != id
  {
    if b == [] then None
    else if b[|b| - 1].0 == id then Some(b[|b| - 1].1)
    else Lookup(b[..|b| - 1], id)
  }

  /** The initial table: every spot empty with no plate. */
  function EmptyTable(): (v: map<int, Spot>)
    ensures v.Keys == SpotIds()
  {
    map i | i in SpotIds() :: Spot("empty", None)
  }

  /**
   * A batch changes exactly the spots it names: a spot of the table with a
   * value in the batch gets that value applied once, every other spot keeps
   * its record, and entries for ids outside the table do nothing.
   */
  lemma {:induction false} ApplyBatchAt(v: map<int, Spot>, b: Batch, id: int)
    requires DistinctIds(b) && id in v
    ensures ApplyBatch(v, b)[id] == match Lookup(b, id)
                                    case None => v[id]
                                    case Some(e) => ApplyEntry(v[id], e)
  {
    if b != [] {
      var init := b[..|b| - 1];
      assert DistinctIds(init);
      ApplyBatchAt(v, init, id);
      if b[|b| - 1].0 == id {
        assert Lookup(init, id).None? by {
          forall k | 0 <= k < |init| ensures init[k].0 != id {
            assert b[k].0 != b[|b| - 1].0;
          }
        }
      }
    }
  }

  /** The ids of a batch that lie in `ids`. */
  function IdsIn(ids: set<int>, b: Batch): set<int> {
    set k | 0 <= k < |b| && b[k].0 in ids :: b[k].0
  }

  /** With distinct keys, `occupied` never exceeds the number of table ids the batch names. */
  lemma {:induction false} OccupiedAtMostIds(ids: set<int>, b: Batch)
    requires DistinctIds(b)
    ensures OccupiedIn(ids, b) <= |IdsIn(ids, b)|
  {
    if b != [] {
      var init := b[..|b| - 1];
      assert DistinctIds(init);
      OccupiedAtMostIds(ids, init);
      var last := b[|b| - 1].0;
      if last in ids {
        assert last !in IdsIn(ids, init) by {
          forall k | 0 <= k < |init| ensures init[k].0 != last {
            assert b[k].0 != b[|b| - 1].0;
          }
        }
        assert IdsIn(ids, b) == IdsIn(ids, init) + {last};
      } else {
        assert IdsIn(ids, b) == IdsIn(ids, init);
      }
    }
  }

  /** After a batch with distinct keys, both counters lie in 0..12. */
  lemma CountersInRange(b: Batch)
    requires DistinctIds(b)
    ensures 0 <= OccupiedIn(SpotIds(), b) <= TotalSpots
    ensures 0 <= TotalSpots - OccupiedIn(SpotIds(), b) <= TotalSpots
  {
    OccupiedAtMostIds(SpotIds(), b);
    SubsetSize(IdsIn(SpotIds(), b), SpotIds());
    assert |SpotIds()| == TotalSpots;
  }

  lemma {:induction false} SubsetSize<T>(a: set<T>, b: set<T>)
    requires a <= b
    ensures |a| <= |b|
  {
    if |a| > 0 {
      var x :| x in a;
      SubsetSize(a - {x}, b - {x});
    }
  }

  /**
   * A dictionary value without a status key sets the status to `'empty'` but,
   * unlike an explicit `'empty'`, keeps the stored plate; and a truthy plate is
   * stored whatever the status says, so a spot can be `'empty'` with a plate.
   */
  lemma MissingStatusKeepsPlate(s: Spot)
    ensures ApplyEntry(s, Fields(None, None)) == Spot("empty", s.plate)
    ensures ApplyEntry(s, Fields(Some("empty"), None)) == Spot("empty", None)
    ensures ApplyEntry(s, Fields(Some("empty"), Some("AB12CD"))) == Spot("empty", Some("AB12CD"))
  {
  }

  /** One mutable spot record: the inner dictionary `{'status': ..., 'plate': ...}`. */
  class SpotRecord {
    var status: string
    var plate: Option<string>

    constructor (status: string, plate: Option<string>)
      ensures this.status == status && this.plate == plate
    {
      this.status := status;
      this.plate := plate;
    }
  }

  /** The status record served to the web layer by `get_status`. */
  datatype SpotView = SpotView(id: int, status: string, plate: Option<string>)
  datatype StatusReport = StatusReport(totalSpots: int, available: int, occupied: int, spots: seq<SpotView>)

  /** What one line of recognised text asks for. */
  datatype LineAction =
    | Skip                            // blank, or not exactly two parts around ':'
    | NotANumber                      // int() raises ValueError
    | Mark(spot: int, plate: string)  // "Spot X: Plate Y"

  /** How `update_spots_from_image` reads one line of recognised text. */
  function ParseLine(line: string): LineAction {
    if Strip(line) == [] then Skip
    else
      var parts := Split(line, ':');
      if |parts| != 2 then Skip
      else
        match ParseInt(Strip(RemoveAll(parts[0], "Spot")))
        case None => NotANumber
        case Some(n) => Mark(n, Strip(parts[1]))
  }

  /** Only a non-blank line with exactly one ':' does anything. */
  lemma ParseLineShape(line: string)
    ensures ParseLine(line) != Skip ==> Strip(line) != [] && Count(line, ':') == 1
    ensures ParseLine(line).Mark? ==>
              var i := IndexOf(line, ':');
              i < |line| && ParseLine(line).plate == Strip(line[i + 1..])
  {
    SplitCount(line, ':');
    if |Split(line, ':')| == 2 {
      SplitTwo(line, ':');
    }
  }

  /** How each line of a text is read. */
  function Actions(lines: seq<string>): (acts: seq<LineAction>)
    ensures |acts| == |lines|
    ensures forall k :: 0 <= k < |lines| ==> acts[k] == ParseLine(lines[k])
  {
    seq(|lines|, k requires 0 <= k < |lines| => ParseLine(lines[k]))
  }

  /** The actions from line `i` on start with the action of line `i`. */
  lemma ActionsFrom(lines: seq<string>, i: nat)
    requires i < |lines|
    ensures Actions(lines)[i..] == [ParseLine(lines[i])] + Actions(lines)[i + 1..]
  {
    var acts := Actions(lines);
    assert acts[i..][0] == ParseLine(lines[i]);
    assert acts[i..][1..] == acts[i + 1..];
  }

  /** The outcome of reading lines: the table, the number of spots marked, and whether no ValueError was raised. */
  datatype LinesOutcome = LinesOutcome(table: map<int, Spot>, marked: nat, ok: bool)

  /** The line actions applied in order; the first unreadable spot number stops the loop with an error. */
  function ApplyActions(v: map<int, Spot>, acts: seq<LineAction>): (r: LinesOutcome)
    ensures r.table.Keys == v.Keys
    decreases |acts|
  {
    if acts == [] then LinesOutcome(v, 0, true)
    else if acts[0].NotANumber? then LinesOutcome(v, 0, false)
    else if acts[0].Mark? && acts[0].spot in v then
      var r := ApplyActions(v[acts[0].spot := Spot("occupied", Some(acts[0].plate))], acts[1..]);
      LinesOutcome(r.table, r.marked + 1, r.ok)
    else ApplyActions(v, acts[1..])
  }

  /** Reading one more line in front of the others. */
  lemma ApplyActionsCons(v: map<int, Spot>, a: LineAction, rest: seq<LineAction>)
    ensures ApplyActions(v, [a] + rest)
            == if a.NotANumber? then LinesOutcome(v, 0, false)
               else if a.Mark? && a.spot in v then
                 var r := ApplyActions(v[a.spot := Spot("occupied", Some(a.plate))], rest);
                 LinesOutcome(r.table, r.marked + 1, r.ok)
               else ApplyActions(v, rest)
  {
    assert ([a] + rest)[1..] == rest;
  }

  /** The plate of the last action that marks spot `s` before any unreadable line. */
  function LastMark(acts: seq<LineAction>, s: int): Option<string>
    decreases |acts|
  {
    if acts == [] || acts[0].NotANumber? then None
    else
      var later := LastMark(acts[1..], s);
      if acts[0].Mark? && acts[0].spot == s && later.None? then Some(acts[0].plate) else later
  }

  /**
   * Reading lines marks a spot of the table occupied with the plate of the
   * last line naming it (up to the first unreadable line) and leaves every
   * other spot, including all spots when only out-of-range numbers occur,
   * as it was.
   */
  lemma {:induction false} ApplyActionsAt(v: map<int, Spot>, acts: seq<LineAction>, s: int)
    requires s in v
    ensures ApplyActions(v, acts).table[s] == match LastMark(acts, s)
                                              case None => v[s]
                                              case Some(p) => Spot("occupied", Some(p))
    decreases |acts|
  {
    if acts != [] && !acts[0].NotANumber? {
      if acts[0].Mark? && acts[0].spot in v {
        ApplyActionsAt(v[acts[0].spot := Spot("occupied", Some(acts[0].plate))], acts[1..], s);
      } else {
        ApplyActionsAt(v, acts[1..], s);
      }
    }
  }

  /** The line `Spot X: Plate Y` in the format the text path expects, as `f"Spot {n}: {plate}"` writes it. */
  function SpotLine(n: nat, plate: string): string {
    "Spot " + Decimal(n) + ": " + plate
  }

  /** The part before ':' of a spot line. */
  function SpotLineHead(n: nat): string {
    "Spot" + ([' '] + Decimal(n))
  }

  /** A spot line splits in its head and the plate after ':'. */
  lemma SpotLineParts(n: nat, plate: string)
    requires Free(plate, ':')
    ensures Split(SpotLine(n, plate), ':') == [SpotLineHead(n), [' '] + plate]
  {
    var head := SpotLineHead(n);
    DecimalDigits(n);
    assert SpotLine(n, plate) == head + [':'] + ([' '] + plate);
    assert Free(head, ':');
    SplitAfter(head, ':', [' '] + plate);
    SplitFree([' '] + plate, ':');
  }

  /** Removing "Spot" from the head and stripping leaves the number's digits, which `int()` reads back. */
  lemma SpotLineNumber(n: nat)
    ensures ParseInt(Strip(RemoveAll(SpotLineHead(n), "Spot"))) == Some(n)
  {
    var d := Decimal(n);
    DecimalDigits(n);
    RemoveLeading("Spot", [' '] + d);
    RemoveAbsent([' '] + d, "Spot");
    StripSpace(d);
    StripDecimal(n);
    ParseDecimal(n);
  }

  /**
   * Reading a well-formed line gives back its spot number and its plate,
   * for every number and every plate without ':' and without surrounding
   * white space.
   */
  lemma ParseSpotLine(n: nat, plate: string)
    requires Free(plate, ':') && Strip(plate) == plate
    ensures ParseLine(SpotLine(n, plate)) == Mark(n, plate)
  {
    var line := SpotLine(n, plate);
    StripEmpty(line);
    assert !IsSpace(line[0]);
    SpotLineParts(n, plate);
    SpotLineNumber(n);
    StripSpace(plate);
  }

  /**
   * The counters of the text path count lines, not spots: two lines for the
   * same spot add two to `occupied` although one spot changed.
   */
  lemma MarkedCountsLines(v: map<int, Spot>, n: nat, plate: string)
    requires n in v && Free(plate, ':') && Strip(plate) == plate
    ensures ApplyActions(v, Actions([SpotLine(n, plate), SpotLine(n, plate)])).marked == 2
  {
    ParseSpotLine(n, plate);
    var acts := Actions([SpotLine(n, plate), SpotLine(n, plate)]);
    assert acts == [Mark(n, plate), Mark(n, plate)];
    var v1 := v[n := Spot("occupied", Some(plate))];
    assert acts[1..][1..] == [];
    assert ApplyActions(v1, acts[1..][1..]).marked == 0;
    assert ApplyActions(v1, acts[1..]).marked == 1;
  }

  /** The twelve-spot table of `ParkingState`. */
  class ParkingState {
    const spots: map<int, SpotRecord>
    var available: int
    var occupied: int

    /** The table covers ids 1..12 with one record each, and the counters sum to 12. */
    ghost predicate Valid()
      reads this
    {
      Table() && available + occupied == TotalSpots
    }

    /** The table covers ids 1..12 with a distinct record for each. */
    ghost predicate Table() {
      && (forall i :: i in spots <==> 1 <= i <= TotalSpots)
      && (forall i, j :: i in spots && j in spots && i != j ==> spots[i] != spots[j])
    }

    /** The values currently held by the records. */
    ghost function View(): (v: map<int, Spot>)
      reads spots.Values
      ensures v.Keys == spots.Keys
    {
      map i | i in spots :: Spot(spots[i].status, spots[i].plate)
    }

    /** Twelve empty spots without plates; 12 available, 0 occupied. */
    constructor ()
      ensures Valid() && fresh(spots.Values)
      ensures View() == EmptyTable()
      ensures available == TotalSpots && occupied == 0
    {
      var m: map<int, SpotRecord> := map[];
      var i := 1;
      while i <= TotalSpots
        invariant 1 <= i <= TotalSpots + 1
        invariant forall j :: j in m <==> 1 <= j < i
        invariant forall j :: j in m ==> fresh(m[j]) && m[j].status == "empty" && m[j].plate == None
        invariant forall j, k :: j in m && k in m && j != k ==> m[j] != m[k]
      {
        var r := new SpotRecord("empty", None);
        m := m[i := r];
        i := i + 1;
      }
      spots := m;
      available := TotalSpots;
      occupied := 0;
      new;
      assert spots.Keys == SpotIds();
      forall i | i in spots
        ensures View()[i] == EmptyTable()[i]
      {
      }
    }

    /** Write both fields of one record; the other records are distinct objects and keep their values. */
    method SetRecord(id: int, status: string, plate: Option<string>)
      requires Table() && id in spots
      modifies spots[id]
      ensures View() == old(View())[id := Spot(status, plate)]
    {
      ghost var before := old(View());
      spots[id].status := status;
      spots[id].plate := plate;
      ghost var after := before[id := Spot(status, plate)];
      forall i | i in spots
        ensures View()[i] == after[i]
      {
        if i != id {
          assert spots[i] != spots[id];
        }
      }
      assert View().Keys == after.Keys;
    }

    /** The record writes for a dictionary value. */
    method ApplyFields(id: int, st: Option<string>, pl: Option<string>)
      requires Table() && id in spots
      modifies spots[id]
      ensures View() == old(View())[id := ApplyEntry(old(View())[id], Fields(st, pl))]
    {
      var r := spots[id];
      assert old(View())[id].plate == r.plate;
      var plate := r.plate;
      if Truthy(pl) {
        plate := pl;
      } else if st == Some("empty") {
        plate := None;
      }
      SetRecord(id, st.GetOr("empty"), plate);
    }

    /** The record writes for a bare status text. */
    method ApplyBare(id: int, t: string)
      requires Table() && id in spots
      modifies spots[id]
      ensures View() == old(View())[id := ApplyEntry(old(View())[id], Bare(t))]
    {
      var r := spots[id];
      assert old(View())[id].plate == r.plate;
      var plate := r.plate;
      if t == "empty" {
        plate := None;
      }
      SetRecord(id, t, plate);
    }

    /** The body of the batch loop for one entry: the record writes, then the count. */
    method ApplyBatchEntry(id: int, data: Entry)
      requires Valid()
      modifies this, spots.Values
      ensures Valid()
      ensures View() == if id in old(View()) then old(View())[id := ApplyEntry(old(View())[id], data)] else old(View())
      ensures occupied == old(occupied) + if id in spots && CountsOccupied(data) then 1 else 0
    {
      if id in spots {
        match data {
          case Fields(st, pl) =>
            ApplyFields(id, st, pl);
          case Bare(t) =>
            ApplyBare(id, t);
        }
        if CountsOccupied(data) {
          occupied := occupied + 1;
          available := available - 1;
        }
      }
    }

    /**
     * `update_spots_from_detection`: reset the counters, then apply the batch
     * entry by entry. Afterwards the table is the batch applied to the old
     * table and `occupied` is the number of in-table entries whose status is
     * `'occupied'` (not the number of occupied spots in the table).
     */
    method UpdateSpotsFromDetection(batch: Batch)
      requires Valid()
      modifies this, spots.Values
      ensures Valid()
      ensures View() == ApplyBatch(old(View()), batch)
      ensures occupied == OccupiedIn(SpotIds(), batch) && available == TotalSpots - occupied
    {
      available := TotalSpots;
      occupied := 0;
      var k := 0;
      assert batch[..0] == [];
      while k < |batch|
        invariant 0 <= k <= |batch|
        invariant Valid()
        invariant View() == ApplyBatch(old(View()), batch[..k])
        invariant occupied == OccupiedIn(SpotIds(), batch[..k])
      {
        var (id, data) := batch[k];
        BatchStep(old(View()), batch, k);
        ApplyBatchEntry(id, data);
        k := k + 1;
      }
      assert batch[..|batch|] == batch;
    }

    /** `get_spot_status`: the live record of a spot, or a new `'unknown'` record for any other id. */
    method GetSpotStatus(id: int) returns (r: SpotRecord)
      requires Valid()
      ensures id in SpotIds() ==> r == spots[id]
      ensures id !in SpotIds() ==> fresh(r) && r.status == "unknown" && r.plate == None
    {
      if id in spots {
        r := spots[id];
      } else {
        r := new SpotRecord("unknown", None);
      }
    }

    /** `get_all_spots`: a shallow copy, a new table sharing the records themselves. */
    method GetAllSpots() returns (copy: map<int, SpotRecord>)
      requires Valid()
      ensures copy.Keys == SpotIds()
      ensures forall i :: i in copy ==> copy[i] == spots[i]
    {
      copy := map i | i in spots :: spots[i];
    }

    /** `get_status`: the total, the counters, and the twelve spots by ascending id. */
    method GetStatus() returns (report: StatusReport)
      requires Valid()
      ensures report.totalSpots == TotalSpots
      ensures report.available == available && report.occupied == occupied
      ensures report.available + report.occupied == report.totalSpots
      ensures |report.spots| == TotalSpots
      ensures forall k :: 0 <= k < |report.spots| ==>
                report.spots[k].id == k + 1
                && Spot(report.spots[k].status, report.spots[k].plate) == View()[k + 1]
    {
      var views: seq<SpotView> := [];
      var i := 1;
      while i <= TotalSpots
        invariant 1 <= i <= TotalSpots + 1
        invariant |views| == i - 1
        invariant forall k :: 0 <= k < |views| ==>
                    views[k].id == k + 1
                    && Spot(views[k].status, views[k].plate) == View()[k + 1]
      {
        views := views + [SpotView(i, spots[i].status, spots[i].plate)];
        i := i + 1;
      }
      report := StatusReport(TotalSpots, available, occupied, views);
    }

    /** The body of the line loop for one line. */
    method ApplyTextLine(line: string) returns (raised: bool)
      requires Valid()
      modifies this, spots.Values
      ensures Valid()
      ensures var action := ParseLine(line);
              && raised == action.NotANumber?
              && if action.Mark? && action.spot in old(View()) then
                   && View() == old(View())[action.spot := Spot("occupied", Some(action.plate))]
                   && occupied == old(occupied) + 1
                 else
                   View() == old(View()) && occupied == old(occupied)
    {
      raised := false;
      if Strip(line) != [] {
        var parts := Split(line, ':');
        if |parts| == 2 {
          var n := ParseInt(Strip(RemoveAll(parts[0], "Spot")));
          if n.None? {
            return true;
          }
          var plate := Strip(parts[1]);
          if n.value in spots {
            SetRecord(n.value, "occupied", Some(plate));
            occupied := occupied + 1;
            available := available - 1;
          }
        }
      }
    }

    /** One line of the loop, related to the outcome of reading it and the lines after it. */
    method TextStep(line: string, ghost rest: seq<LineAction>) returns (raised: bool)
      requires Valid()
      modifies this, spots.Values
      ensures Valid()
      ensures var r := ApplyActions(old(View()), [ParseLine(line)] + rest);
              if raised then
                r == LinesOutcome(View(), 0, false) && occupied == old(occupied) && available == old(available)
              else
                var r' := ApplyActions(View(), rest);
                && r.table == r'.table && r.ok == r'.ok
                && r.marked == r'.marked + (occupied - old(occupied))
                && available == old(available) - (occupied - old(occupied))
    {
      ApplyActionsCons(View(), ParseLine(line), rest);
      raised := ApplyTextLine(line);
    }

    /**
     * The line loop of `update_spots_from_image`, over the text the OCR
     * produced. Each `Spot X: Plate Y` line with X in the table marks X
     * occupied with plate Y and moves one unit from `available` to
     * `occupied`; the counters are not reset first. An unreadable spot number
     * raises (`ok` false) and leaves the earlier lines applied.
     */
    method UpdateSpotsFromText(text: string) returns (ok: bool)
      requires Valid()
      modifies this, spots.Values
      ensures Valid()
      ensures var r := ApplyActions(old(View()), Actions(SplitLines(text)));
              View() == r.table && ok == r.ok
              && occupied == old(occupied) + r.marked && available == old(available) - r.marked
    {
      var lines := SplitLines(text);
      ghost var acts := Actions(lines);
      ghost var goal := ApplyActions(old(View()), acts);
      ghost var o0 := occupied;
      ghost var a0 := available;
      var i := 0;
      while i < |lines|
        invariant 0 <= i <= |lines|
        invariant Valid()
        invariant var rest := ApplyActions(View(), acts[i..]);
                  && rest.table == goal.table && rest.ok == goal.ok
                  && occupied - o0 + rest.marked == goal.marked
        invariant available == a0 - (occupied - o0)
      {
        ActionsFrom(lines, i);
        var raised := TextStep(lines[i], acts[i + 1..]);
        if raised {
          return false;
        }
        i := i + 1;
      }
      assert acts[i..] == [];
      ok := true;
    }
  }
}
