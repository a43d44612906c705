/**
 * The reading ledger of server/index.js: the `meters` projection and the
 * `meter_readings_history` table, the append path (POST
 * /update-meter-reading) and the correction path (PUT
 * /update-meter-reading/:meterId/:readingId), as functions on the tables.
 * The database object that applies them in place is `Server.Database`.
 *
 * Readings are exact reals; times are integers (milliseconds), supplied by
 * the caller in place of `NOW()`.
 */
module Ledger {
  import opened Results
  import opened Sequences

  /** A row of the `meters` table. */
  datatype Meter = Meter(
    id: int,
    number: string,
    campusId: int,
    location: string,
    meterType: Option<string>,
    brand: Option<string>,
    displayUnit: Option<string>,
    ctValue: Option<string>,
    wiringMethod: Option<string>,
    lastReading: Option<real>,
    lastReadingTime: Option<int>,
    currentReading: Option<real>,
    currentReadingTime: Option<int>,
    difference: Option<real>,
    photoUrl: Option<string>)

  /** A row of `meter_readings_history`; `meterId` holds the meter NUMBER. */
  datatype Reading = Reading(
    id: int,
    meterId: string,
    value: real,
    time: int,
    photoUrl: Option<string>,
    difference: real,
    meterType: Option<string>)

  /** `WHERE meter_number = number` */
  function HasNumber(number: string): Meter -> bool
  {
    (m: Meter) => m.number == number
  }

  /** `WHERE id = id` on the meters table */
  function HasMeterId(id: int): Meter -> bool
  {
    (m: Meter) => m.id == id
  }

  /** `WHERE id = id` on the history table */
  function HasId(id: int): Reading -> bool
  {
    (r: Reading) => r.id == id
  }

  /** The first meters row with this number (`meterInfo[0]`), if any. */
  function FindMeter(ms: seq<Meter>, number: string): Option<nat>
  {
    FindFirst(ms, HasNumber(number))
  }

  /** The first history row with this id (`originalReading[0]`), if any. */
  function FindReading(h: seq<Reading>, id: int): Option<nat>
  {
    FindFirst(h, HasId(id))
  }

  /** `current_reading || 0`: the value a new reading is measured against. */
  function Baseline(m: Meter): real
  {
    m.currentReading.GetOr(0.0)
  }

  /**
   * The live projection agrees with itself: `difference` is the current
   * reading minus the last one (0 when there is no last one).
   */
  predicate ProjectionConsistent(m: Meter)
  {
    m.currentReading.Some? && m.difference == Some(m.currentReading.value - m.lastReading.GetOr(0.0))
  }

  // ---------------------------------------------------------------------
  // Append path
  // ---------------------------------------------------------------------

  /** The `UPDATE meters SET last_* = current_*, current_* = new ...` of one row. */
  function ShiftProjection(m: Meter, value: real, now: int, photo: Option<string>, diff: real): Meter
  {
    m.(lastReading := m.currentReading, lastReadingTime := m.currentReadingTime,
       currentReading := Some(value), currentReadingTime := Some(now),
       photoUrl := photo, difference := Some(diff))
  }

  function Shifter(value: real, now: int, photo: Option<string>, diff: real): Meter -> Meter
  {
    (m: Meter) => ShiftProjection(m, value, now, photo, diff)
  }

  /** The meters table after the append path's UPDATE (every row with that number). */
  function AppendMeters(ms: seq<Meter>, number: string, value: real, now: int, photo: Option<string>, diff: real): seq<Meter>
  {
    UpdateWhere(ms, HasNumber(number), Shifter(value, now, photo, diff))
  }

  /** The difference the append path stores: the new value minus the found row's `current_reading || 0`. */
  function AppendDifference(ms: seq<Meter>, number: string, value: real): real
    requires FindMeter(ms, number).Some?
  {
    value - Baseline(ms[FindMeter(ms, number).value])
  }

  /** The history row the append path inserts, with the found row's meter type. */
  function AppendedReading(ms: seq<Meter>, number: string, value: real, now: int, photo: Option<string>, id: int): Reading
    requires FindMeter(ms, number).Some?
  {
    Reading(id, number, value, now, photo, AppendDifference(ms, number, value), ms[FindMeter(ms, number).value].meterType)
  }

  /**
   * The append path on the found meter row: the difference is the new
   * value minus `current_reading` (0 when unset), `last_*` takes the old
   * `current_*`, `current_*` the new reading, and the row's projection is
   * consistent afterwards whatever it was before. Rows of other meters are
   * untouched.
   */
  lemma AppendShiftsProjection(ms: seq<Meter>, number: string, value: real, now: int, photo: Option<string>)
    requires FindMeter(ms, number).Some?
    ensures var i := FindMeter(ms, number).value;
      var d := value - Baseline(ms[i]);
      var after := AppendMeters(ms, number, value, now, photo, d);
      && |after| == |ms|
      && (ms[i].currentReading.None? ==> d == value)
      && (ms[i].currentReading.Some? ==> d == value - ms[i].currentReading.value)
      && after[i].lastReading == ms[i].currentReading
      && after[i].lastReadingTime == ms[i].currentReadingTime
      && after[i].currentReading == Some(value)
      && after[i].currentReadingTime == Some(now)
      && after[i].photoUrl == photo
      && ProjectionConsistent(after[i])
      && (forall j :: 0 <= j < |ms| && ms[j].number != number ==> after[j] == ms[j])
  {
  }

  // ---------------------------------------------------------------------
  // Correction path: the queries
  // ---------------------------------------------------------------------

  /** A reading of meter `m` strictly earlier than time `t`. */
  predicate EarlierOf(r: Reading, m: string, t: int)
  {
    r.meterId == m && r.time < t
  }

  /** A reading of meter `m` strictly later than time `t`. */
  predicate LaterOf(r: Reading, m: string, t: int)
  {
    r.meterId == m && r.time > t
  }

  /**
   * Among the first `n` rows, a latest reading of `m` strictly earlier than
   * `t`; of rows with equal times the earliest in table order.
   */
  function LatestBefore(h: seq<Reading>, m: string, t: int, n: nat): (p: Option<nat>)
    requires n <= |h|
    ensures p.Some? ==> p.value < n && EarlierOf(h[p.value], m, t)
  {
    if n == 0 then None
    else
      var best := LatestBefore(h, m, t, n - 1);
      if EarlierOf(h[n - 1], m, t) && (best.None? || h[n - 1].time > h[best.value].time) then Some(n - 1)
      else best
  }

  /**
   * `LatestBefore` finds a reading exactly when there is an earlier reading
   * of `m`, and no earlier reading of `m` is later than the one it finds.
   */
  lemma {:induction false} LatestBeforeSpec(h: seq<Reading>, m: string, t: int, n: nat)
    requires n <= |h|
    ensures LatestBefore(h, m, t, n).Some? ==>
      forall i :: 0 <= i < n && EarlierOf(h[i], m, t) ==> h[i].time <= h[LatestBefore(h, m, t, n).value].time
    ensures LatestBefore(h, m, t, n).None? <==> forall i :: 0 <= i < n ==> !EarlierOf(h[i], m, t)
  {
    if n > 0 {
      LatestBeforeSpec(h, m, t, n - 1);
    }
  }

  /**
   * `SELECT ... WHERE meter_id = m AND reading_time < t ORDER BY reading_time
   * DESC LIMIT 1`: the chronological predecessor of time `t` for meter `m`.
   */
  function Predecessor(h: seq<Reading>, m: string, t: int): Option<nat>
  {
    LatestBefore(h, m, t, |h|)
  }

  /** The value of the predecessor, or 0 when there is none. */
  function PreviousValue(h: seq<Reading>, m: string, t: int): real
  {
    match Predecessor(h, m, t)
    case None => 0.0
    case Some(j) => if j < |h| then h[j].value else 0.0
  }

  /**
   * The corrected record's new difference: the new value minus its
   * predecessor's value, or the new value itself when it has none.
   */
  function CorrectionDifference(h: seq<Reading>, m: string, t: int, v: real): (d: real)
    ensures Predecessor(h, m, t).None? ==> d == v
    ensures Predecessor(h, m, t).Some? ==> d == v - h[Predecessor(h, m, t).value].value
  {
    match Predecessor(h, m, t)
    case None => v
    case Some(j) => v - h[j].value
  }

  /** Ascending indices below `n` of the readings of `m` strictly later than `t`. */
  function LaterIn(h: seq<Reading>, m: string, t: int, n: nat): (s: seq<nat>)
    requires n <= |h|
    ensures forall p :: 0 <= p < |s| ==> s[p] < n && LaterOf(h[s[p]], m, t)
    ensures forall i :: 0 <= i < n && LaterOf(h[i], m, t) ==> i in s
    ensures Distinct(s)
    ensures forall p, q :: 0 <= p < q < |s| ==> s[p] < s[q]
  {
    if n == 0 then []
    else LaterIn(h, m, t, n - 1) + (if LaterOf(h[n - 1], m, t) then [n - 1] else [])
  }

  /** Every index of `s` is a row of `h`. */
  predicate InRange(h: seq<Reading>, s: seq<nat>)
  {
    forall p :: 0 <= p < |s| ==> s[p] < |h|
  }

  /** The rows `s` of `h` are in ascending `reading_time` order. */
  predicate SortedByTime(h: seq<Reading>, s: seq<nat>)
    requires InRange(h, s)
  {
    forall p, q :: 0 <= p < q < |s| ==> h[s[p]].time <= h[s[q]].time
  }

  /** Inserts row `x` before the first row of `s` that is not earlier than it. */
  function InsertByTime(h: seq<Reading>, x: nat, s: seq<nat>): (r: seq<nat>)
    requires x < |h| && InRange(h, s) && SortedByTime(h, s)
    ensures |r| == |s| + 1 && InRange(h, r) && SortedByTime(h, r)
    ensures forall y :: y in r <==> y == x || y in s
    ensures Distinct(s) && x !in s ==> Distinct(r)
  {
    if s == [] then [x]
    else if h[x].time <= h[s[0]].time then
      assert forall q :: 0 <= q < |s| ==> h[x].time <= h[s[q]].time;
      [x] + s
    else
      var rest := InsertByTime(h, x, s[1..]);
      HeadNotLater(h, x, s, rest);
      assert Distinct(s) && x !in s ==> s[0] !in rest by {
        if Distinct(s) && x !in s {
          assert s[0] !in s[1..];
        }
      }
      [s[0]] + rest
  }

  /** The first of a sorted list is no later than the list's tail with one later row inserted. */
  lemma HeadNotLater(h: seq<Reading>, x: nat, s: seq<nat>, rest: seq<nat>)
    requires s != [] && x < |h| && InRange(h, s) && SortedByTime(h, s) && h[x].time > h[s[0]].time
    requires InRange(h, rest) && forall y :: y in rest <==> y == x || y in s[1..]
    ensures forall q :: 0 <= q < |rest| ==> h[s[0]].time <= h[rest[q]].time
  {
    forall q | 0 <= q < |rest| ensures h[s[0]].time <= h[rest[q]].time {
      assert rest[q] in rest;
      if rest[q] != x {
        var p :| 0 <= p < |s[1..]| && s[1..][p] == rest[q];
        assert s[p + 1] == rest[q];
      }
    }
  }

  /** Stable insertion sort of the rows `s` by `reading_time`. */
  function SortByTime(h: seq<Reading>, s: seq<nat>): (r: seq<nat>)
    requires InRange(h, s)
    ensures |r| == |s| && InRange(h, r) && SortedByTime(h, r)
    ensures forall y :: y in r <==> y in s
    ensures Distinct(s) ==> Distinct(r)
  {
    if s == [] then []
    else
      assert s[0] !in s[1..] || !Distinct(s);
      InsertByTime(h, s[0], SortByTime(h, s[1..]))
  }

  /**
   * `SELECT ... WHERE meter_id = m AND reading_time > t ORDER BY
   * reading_time ASC`: every later reading of `m`, once each, in ascending
   * time order (rows with equal times in table order).
   */
  function Later(h: seq<Reading>, m: string, t: int): (order: seq<nat>)
    ensures InRange(h, order)
  {
    SortByTime(h, LaterIn(h, m, t, |h|))
  }

  /**
   * `Later` lists exactly the readings of `m` later than `t`, each once, in
   * ascending time order.
   */
  lemma LaterSpec(h: seq<Reading>, m: string, t: int)
    ensures SortedByTime(h, Later(h, m, t)) && Distinct(Later(h, m, t))
    ensures forall p :: 0 <= p < |Later(h, m, t)| ==> LaterOf(h[Later(h, m, t)[p]], m, t)
    ensures forall i :: 0 <= i < |h| && LaterOf(h[i], m, t) ==> i in Later(h, m, t)
  {
    var s := LaterIn(h, m, t, |h|);
    var r := SortByTime(h, s);
    assert forall p :: 0 <= p < |r| ==> r[p] in s;
  }

  /** A row is listed by `Later` exactly when it is a reading of `m` later than `t`. */
  lemma LaterMember(h: seq<Reading>, m: string, t: int, i: nat)
    requires i < |h|
    ensures i in Later(h, m, t) <==> LaterOf(h[i], m, t)
  {
    LaterSpec(h, m, t);
    if i in Later(h, m, t) {
      var p :| 0 <= p < |Later(h, m, t)| && Later(h, m, t)[p] == i;
    }
  }

  // ---------------------------------------------------------------------
  // Correction path: the writes
  // ---------------------------------------------------------------------

  /** `COALESCE(new_photo, photo_url)` */
  function Coalesce(photo: Option<string>, old_: Option<string>): Option<string>
  {
    if photo.Some? then photo else old_
  }

  /**
   * Step 3: the target row `k` takes the new value, its recomputed
   * difference and, when one is supplied, the new photo.
   */
  function CorrectTarget(h: seq<Reading>, m: string, k: nat, v: real, photo: Option<string>): seq<Reading>
    requires k < |h|
  {
    h[k := h[k].(value := v,
                 difference := CorrectionDifference(h, m, h[k].time, v),
                 photoUrl := Coalesce(photo, h[k].photoUrl))]
  }

  /**
   * The replay loop: walk `order` with a running previous value, rewriting
   * each row's difference and nothing else.
   */
  function Replay(h: seq<Reading>, order: seq<nat>, prev: real): (r: seq<Reading>)
    requires InRange(h, order)
    ensures |r| == |h|
    decreases |order|
  {
    if order == [] then h
    else
      var j := order[0];
      Replay(h[j := h[j].(difference := h[j].value - prev)], order[1..], h[j].value)
  }

  /**
   * The history table after a successful correction of row `k` of meter
   * `m`. The source queries the later readings after updating the target;
   * `CorrectionReplays` shows that this gives the same list.
   */
  function Corrected(h: seq<Reading>, m: string, k: nat, v: real, photo: Option<string>): seq<Reading>
    requires k < |h|
  {
    Replay(CorrectTarget(h, m, k, v, photo), Later(h, m, h[k].time), v)
  }

  function CurrentSetter(v: real): Meter -> Meter
  {
    (r: Meter) => r.(currentReading := Some(v))
  }

  /**
   * Step 6: `UPDATE meters SET current_reading = v WHERE meter_number = m`,
   * issued only when there were no later readings.
   */
  function CorrectedMeters(ms: seq<Meter>, m: string, v: real, noLater: bool): (r: seq<Meter>)
    ensures |r| == |ms|
  {
    if noLater then UpdateWhere(ms, HasNumber(m), CurrentSetter(v)) else ms
  }

  // ---------------------------------------------------------------------
  // Correction path: what it does
  // ---------------------------------------------------------------------

  /** Two tables agree on every row's meter and time (what the queries read). */
  predicate SameKeys(h: seq<Reading>, g: seq<Reading>)
  {
    |h| == |g| && forall i :: 0 <= i < |h| ==> h[i].meterId == g[i].meterId && h[i].time == g[i].time
  }

  lemma {:induction false} LatestBeforeFrame(h: seq<Reading>, g: seq<Reading>, m: string, t: int, n: nat)
    requires n <= |h| && n <= |g|
    requires forall i :: 0 <= i < n ==> h[i].meterId == g[i].meterId && h[i].time == g[i].time
    ensures LatestBefore(h, m, t, n) == LatestBefore(g, m, t, n)
  {
    if n > 0 {
      LatestBeforeFrame(h, g, m, t, n - 1);
    }
  }

  lemma {:induction false} LaterInFrame(h: seq<Reading>, g: seq<Reading>, m: string, t: int, n: nat)
    requires n <= |h| && SameKeys(h, g)
    ensures LaterIn(h, m, t, n) == LaterIn(g, m, t, n)
  {
    if n > 0 {
      LaterInFrame(h, g, m, t, n - 1);
    }
  }

  lemma {:induction false} InsertFrame(h: seq<Reading>, g: seq<Reading>, x: nat, s: seq<nat>)
    requires SameKeys(h, g) && x < |h| && InRange(h, s) && SortedByTime(h, s)
    ensures InRange(g, s) && SortedByTime(g, s)
    ensures InsertByTime(h, x, s) == InsertByTime(g, x, s)
  {
    if s != [] && h[x].time > h[s[0]].time {
      InsertFrame(h, g, x, s[1..]);
    }
  }

  lemma {:induction false} SortFrame(h: seq<Reading>, g: seq<Reading>, s: seq<nat>)
    requires SameKeys(h, g) && InRange(h, s)
    ensures InRange(g, s) && SortByTime(h, s) == SortByTime(g, s)
  {
    if s != [] {
      SortFrame(h, g, s[1..]);
      InsertFrame(h, g, s[0], SortByTime(h, s[1..]));
    }
  }

  /** The predecessor query reads only meters and times. */
  lemma PredecessorFrame(h: seq<Reading>, g: seq<Reading>, m: string, t: int)
    requires SameKeys(h, g)
    ensures Predecessor(h, m, t) == Predecessor(g, m, t)
  {
    LatestBeforeFrame(h, g, m, t, |h|);
  }

  /** The queries of the correction path read only meters and times. */
  lemma QueriesFrame(h: seq<Reading>, g: seq<Reading>, m: string, t: int)
    requires SameKeys(h, g)
    ensures Predecessor(h, m, t) == Predecessor(g, m, t)
    ensures Later(h, m, t) == Later(g, m, t)
  {
    LatestBeforeFrame(h, g, m, t, |h|);
    LaterInFrame(h, g, m, t, |h|);
    SortFrame(h, g, LaterIn(h, m, t, |h|));
  }

  /** The replay leaves a row outside `order` alone. */
  lemma {:induction false} ReplayOutside(h: seq<Reading>, order: seq<nat>, prev: real, i: nat)
    requires InRange(h, order) && i < |h| && i !in order
    decreases |order|
    ensures Replay(h, order, prev)[i] == h[i]
  {
    if order != [] {
      var j := order[0];
      ReplayOutside(h[j := h[j].(difference := h[j].value - prev)], order[1..], h[j].value, i);
    }
  }

  /** The replay rewrites nothing but differences. */
  lemma {:induction false} ReplayKeeps(h: seq<Reading>, order: seq<nat>, prev: real, i: nat)
    requires InRange(h, order) && i < |h|
    decreases |order|
    ensures Replay(h, order, prev)[i] == h[i].(difference := Replay(h, order, prev)[i].difference)
  {
    if order != [] {
      var j := order[0];
      ReplayKeeps(h[j := h[j].(difference := h[j].value - prev)], order[1..], h[j].value, i);
    }
  }

  /**
   * The row at position `p` of `order` gets its value minus the value of
   * the row before it in `order`, or minus `prev` for the first.
   */
  lemma {:induction false} ReplayAt(h: seq<Reading>, order: seq<nat>, prev: real, p: nat)
    requires InRange(h, order) && Distinct(order) && p < |order|
    decreases |order|
    ensures Replay(h, order, prev)[order[p]].difference ==
      h[order[p]].value - (if p == 0 then prev else h[order[p - 1]].value)
  {
    var j := order[0];
    var h1 := h[j := h[j].(difference := h[j].value - prev)];
    var rest := order[1..];
    assert InRange(h1, rest) && Distinct(rest);
    if p == 0 {
      assert j !in rest;
      ReplayOutside(h1, rest, h[j].value, j);
    } else {
      ReplayAt(h1, rest, h[j].value, p - 1);
      assert order[p] == rest[p - 1] && order[p] != j;
      if p > 1 {
        assert order[p - 1] == rest[p - 2] && order[p - 1] != j;
      }
    }
  }

  /**
   * The corrected row after a correction: it takes the new value, its
   * difference against the latest strictly earlier reading of the meter (or
   * the new value itself when there is none) and the new photo when one is
   * supplied.
   */
  lemma CorrectedTarget(h: seq<Reading>, m: string, k: nat, v: real, photo: Option<string>)
    requires k < |h|
    ensures Corrected(h, m, k, v, photo)[k] == h[k].(value := v,
      difference := CorrectionDifference(h, m, h[k].time, v),
      photoUrl := if photo.Some? then photo else h[k].photoUrl)
  {
    var order := Later(h, m, h[k].time);
    assert k !in order;
    ReplayOutside(CorrectTarget(h, m, k, v, photo), order, v, k);
  }

  /** A correction moves no row to another meter or time. */
  lemma CorrectedKeys(h: seq<Reading>, m: string, k: nat, v: real, photo: Option<string>, i: nat)
    requires k < |h| && i < |h|
    ensures Corrected(h, m, k, v, photo)[i].meterId == h[i].meterId
    ensures Corrected(h, m, k, v, photo)[i].time == h[i].time
    ensures i != k ==> Corrected(h, m, k, v, photo)[i].value == h[i].value
  {
    ReplayKeeps(CorrectTarget(h, m, k, v, photo), Later(h, m, h[k].time), v, i);
  }

  /** Rows that are neither the target nor later readings of the meter are untouched. */
  lemma CorrectedUntouched(h: seq<Reading>, m: string, k: nat, v: real, photo: Option<string>, i: nat)
    requires k < |h| && i < |h| && i != k && i !in Later(h, m, h[k].time)
    ensures Corrected(h, m, k, v, photo)[i] == h[i]
  {
    ReplayOutside(CorrectTarget(h, m, k, v, photo), Later(h, m, h[k].time), v, i);
  }

  /** A replayed reading is the original with its difference from the one replayed before it. */
  lemma ReplayedAt(h: seq<Reading>, order: seq<nat>, prev: real, p: nat)
    requires InRange(h, order) && Distinct(order) && p < |order|
    ensures Replay(h, order, prev)[order[p]] ==
      h[order[p]].(difference := h[order[p]].value - (if p == 0 then prev else h[order[p - 1]].value))
  {
    ReplayAt(h, order, prev, p);
    ReplayKeeps(h, order, prev, order[p]);
  }

  /**
   * Each strictly later reading of the meter, taken in ascending time
   * order, gets its own value minus its predecessor's in that order, the
   * first being measured against the new value; it keeps its value and
   * photo.
   */
  lemma CorrectedLater(h: seq<Reading>, m: string, k: nat, v: real, photo: Option<string>, p: nat)
    requires k < |h| && p < |Later(h, m, h[k].time)|
    ensures Corrected(h, m, k, v, photo)[Later(h, m, h[k].time)[p]] ==
      h[Later(h, m, h[k].time)[p]].(difference := h[Later(h, m, h[k].time)[p]].value -
        (if p == 0 then v else h[Later(h, m, h[k].time)[p - 1]].value))
  {
    var order := Later(h, m, h[k].time);
    var h1 := CorrectTarget(h, m, k, v, photo);
    LaterSpec(h, m, h[k].time);
    ReplayedAt(h1, order, v, p);
    assert order[p] != k;
    if p > 0 {
      assert order[p - 1] != k;
    }
  }

  /** The later readings are the same whether queried before or after the target is updated. */
  lemma CorrectionReplays(h: seq<Reading>, m: string, k: nat, v: real, photo: Option<string>)
    requires k < |h|
    ensures Later(CorrectTarget(h, m, k, v, photo), m, h[k].time) == Later(h, m, h[k].time)
  {
    var h1 := CorrectTarget(h, m, k, v, photo);
    assert SameKeys(h, h1);
    QueriesFrame(h, h1, m, h[k].time);
  }

  /** Meter rows after a correction: only `current_reading`, and only when nothing is later. */
  lemma CorrectionMetersEffect(ms: seq<Meter>, m: string, v: real, noLater: bool)
    ensures forall i :: 0 <= i < |ms| && noLater && ms[i].number == m ==>
      CorrectedMeters(ms, m, v, noLater)[i] == ms[i].(currentReading := Some(v))
    ensures forall i :: 0 <= i < |ms| && (!noLater || ms[i].number != m) ==>
      CorrectedMeters(ms, m, v, noLater)[i] == ms[i]
  {
  }

  // ---------------------------------------------------------------------
  // The ledger invariant
  // ---------------------------------------------------------------------

  /**
   * Every reading of `m` has as difference its value minus its
   * chronological predecessor's (its own value when it is the first).
   */
  predicate ChainConsistent(h: seq<Reading>, m: string)
  {
    forall i :: 0 <= i < |h| && h[i].meterId == m ==> h[i].difference == h[i].value - PreviousValue(h, m, h[i].time)
  }

  /** No two readings of `m` share a `reading_time`. */
  predicate DistinctTimes(h: seq<Reading>, m: string)
  {
    forall i, j :: 0 <= i < |h| && 0 <= j < |h| && i != j && h[i].meterId == m && h[j].meterId == m ==>
      h[i].time != h[j].time
  }

  /**
   * Every reading of `m` is before `bound`, and every meters row of `m`
   * holds as baseline the value of the chronologically last reading (0
   * when there is none): the projection tracks the ledger's tail.
   */
  predicate TracksTail(h: seq<Reading>, ms: seq<Meter>, m: string, bound: int)
  {
    && (forall i :: 0 <= i < |h| && h[i].meterId == m ==> h[i].time < bound)
    && (forall r :: 0 <= r < |ms| && ms[r].number == m ==> Baseline(ms[r]) == PreviousValue(h, m, bound))
  }

  /** The ledger of meter `m` is consistent, with every reading before `bound`. */
  predicate LedgerConsistent(h: seq<Reading>, ms: seq<Meter>, m: string, bound: int)
  {
    ChainConsistent(h, m) && DistinctTimes(h, m) && TracksTail(h, ms, m, bound)
  }

  /** With distinct times, a reading that is latest among those before `t` is the predecessor. */
  lemma PredecessorIs(h: seq<Reading>, m: string, t: int, j: nat)
    requires DistinctTimes(h, m)
    requires j < |h| && EarlierOf(h[j], m, t)
    requires forall i :: 0 <= i < |h| && EarlierOf(h[i], m, t) ==> h[i].time <= h[j].time
    ensures Predecessor(h, m, t) == Some(j)
  {
    LatestBeforeSpec(h, m, t, |h|);
  }

  /** Readings not later than an appended row see the same predecessor. */
  lemma AppendPredecessor(h: seq<Reading>, row: Reading, m: string, t: int)
    requires t <= row.time
    ensures Predecessor(h + [row], m, t) == Predecessor(h, m, t)
  {
    LatestBeforeFrame(h + [row], h, m, t, |h|);
  }

  /** An appended reading of `m`, later than all others, is the predecessor of any later bound. */
  lemma AppendTail(h: seq<Reading>, row: Reading, m: string, bound: int)
    requires row.meterId == m && row.time < bound && DistinctTimes(h, m)
    requires forall i :: 0 <= i < |h| && h[i].meterId == m ==> h[i].time < row.time
    ensures DistinctTimes(h + [row], m)
    ensures Predecessor(h + [row], m, bound) == Some(|h|)
  {
    var h' := h + [row];
    forall i, j | 0 <= i < |h'| && 0 <= j < |h'| && i != j && h'[i].meterId == m && h'[j].meterId == m
      ensures h'[i].time != h'[j].time
    {
      if i < |h| {
        assert h'[i] == h[i];
      }
      if j < |h| {
        assert h'[j] == h[j];
      }
    }
    forall i | 0 <= i < |h'| && EarlierOf(h'[i], m, bound)
      ensures h'[i].time <= h'[|h|].time
    {
      if i < |h| {
        assert h'[i] == h[i];
      }
    }
    PredecessorIs(h', m, bound, |h|);
  }

  /**
   * Appending a reading at time `now`, later than every reading of meter
   * `m`, keeps the ledger of `m` consistent: the new row's difference is
   * measured against the last reading, and the projection then holds the
   * new tail.
   */
  lemma AppendKeepsLedger(h: seq<Reading>, ms: seq<Meter>, m: string, value: real, now: int,
                          photo: Option<string>, id: int, bound: int)
    requires FindMeter(ms, m).Some?
    requires LedgerConsistent(h, ms, m, now)
    requires now < bound
    ensures LedgerConsistent(h + [AppendedReading(ms, m, value, now, photo, id)],
                             AppendMeters(ms, m, value, now, photo, AppendDifference(ms, m, value)), m, bound)
  {
    var i := FindMeter(ms, m).value;
    var added := AppendedReading(ms, m, value, now, photo, id);
    assert Baseline(ms[i]) == PreviousValue(h, m, now) by {
      assert TracksTail(h, ms, m, now);
    }
    AppendChain(h, added, m);
    AppendTail(h, added, m, bound);
    AppendTracks(h, ms, added, m, bound);
  }

  /** A row measured against the last reading before it extends a consistent chain. */
  lemma AppendChain(h: seq<Reading>, added: Reading, m: string)
    requires ChainConsistent(h, m) && added.meterId == m
    requires forall i :: 0 <= i < |h| && h[i].meterId == m ==> h[i].time < added.time
    requires added.difference == added.value - PreviousValue(h, m, added.time)
    ensures ChainConsistent(h + [added], m)
  {
    var h' := h + [added];
    forall i | 0 <= i < |h'| && h'[i].meterId == m
      ensures h'[i].difference == h'[i].value - PreviousValue(h', m, h'[i].time)
    {
      if i < |h| {
        assert h'[i] == h[i];
        AppendPredecessor(h, added, m, h'[i].time);
      } else {
        AppendPredecessor(h, added, m, added.time);
      }
    }
  }

  /** Once the appended reading is the tail, the shifted projection tracks it. */
  lemma AppendTracks(h: seq<Reading>, ms: seq<Meter>, added: Reading, m: string, bound: int)
    requires added.meterId == m && added.time < bound
    requires forall i :: 0 <= i < |h| && h[i].meterId == m ==> h[i].time < bound
    requires Predecessor(h + [added], m, bound) == Some(|h|)
    ensures TracksTail(h + [added], AppendMeters(ms, m, added.value, added.time, added.photoUrl, added.difference), m, bound)
  {
    var h' := h + [added];
    var ms' := AppendMeters(ms, m, added.value, added.time, added.photoUrl, added.difference);
    assert PreviousValue(h', m, bound) == added.value;
    forall i | 0 <= i < |h'| && h'[i].meterId == m
      ensures h'[i].time < bound
    {
      if i < |h| {
        assert h'[i] == h[i];
      }
    }
    forall r | 0 <= r < |ms'| && ms'[r].number == m
      ensures Baseline(ms'[r]) == PreviousValue(h', m, bound)
    {
      assert ms'[r].currentReading == Some(added.value);
    }
  }

  /** A correction keeps every row's meter and time. */
  lemma CorrectedSameKeys(h: seq<Reading>, m: string, k: nat, v: real, photo: Option<string>)
    requires k < |h|
    ensures SameKeys(h, Corrected(h, m, k, v, photo))
  {
    forall i | 0 <= i < |h|
      ensures Corrected(h, m, k, v, photo)[i].meterId == h[i].meterId
      ensures Corrected(h, m, k, v, photo)[i].time == h[i].time
    {
      CorrectedKeys(h, m, k, v, photo, i);
    }
  }

  /** After a correction only the target's value has changed. */
  lemma CorrectedValue(h: seq<Reading>, m: string, k: nat, v: real, photo: Option<string>, i: nat)
    requires k < |h| && i < |h|
    ensures Corrected(h, m, k, v, photo)[i].value == if i == k then v else h[i].value
  {
    if i == k {
      CorrectedTarget(h, m, k, v, photo);
    } else {
      CorrectedKeys(h, m, k, v, photo, i);
    }
  }

  /** Positions in a time-sorted list of rows and their times agree in order. */
  lemma SortedOrder(h: seq<Reading>, s: seq<nat>, p: nat, q: nat)
    requires InRange(h, s) && SortedByTime(h, s) && p < |s| && q < |s|
    ensures q <= p ==> h[s[q]].time <= h[s[p]].time
    ensures h[s[q]].time < h[s[p]].time ==> q < p
  {
  }

  /**
   * For a list `order` of exactly the readings of `m` later than `h[k]`,
   * ascending in time: a reading of `m` earlier than the one at position
   * `p` is no later than the one before it in `order` (than `h[k]` for the
   * first).
   */
  lemma EarlierThanPrevious(h: seq<Reading>, m: string, k: nat, order: seq<nat>, p: nat, j: nat)
    requires k < |h| && InRange(h, order) && SortedByTime(h, order)
    requires forall q :: 0 <= q < |order| ==> LaterOf(h[order[q]], m, h[k].time)
    requires forall i :: 0 <= i < |h| && LaterOf(h[i], m, h[k].time) ==> i in order
    requires p < |order| && j < |h| && EarlierOf(h[j], m, h[order[p]].time)
    ensures h[j].time <= h[if p == 0 then k else order[p - 1]].time
  {
    if h[j].time > h[k].time {
      assert j in order;
      var q :| 0 <= q < |order| && order[q] == j;
      SortedOrder(h, order, p, q);
      SortedOrder(h, order, p - 1, q);
    } else if p > 0 {
      assert LaterOf(h[order[p - 1]], m, h[k].time);
    }
  }

  /**
   * With distinct times, the predecessor of the later reading at position
   * `p` of the replay order is the one before it in that order, or the
   * target itself for the first.
   */
  lemma LaterPredecessor(h: seq<Reading>, m: string, k: nat, p: nat)
    requires k < |h| && h[k].meterId == m && DistinctTimes(h, m)
    requires p < |Later(h, m, h[k].time)|
    ensures Predecessor(h, m, h[Later(h, m, h[k].time)[p]].time) ==
      Some(if p == 0 then k else Later(h, m, h[k].time)[p - 1])
  {
    var order := Later(h, m, h[k].time);
    var i := order[p];
    var c := if p == 0 then k else order[p - 1];
    LaterSpec(h, m, h[k].time);
    assert EarlierOf(h[c], m, h[i].time) by {
      if p > 0 {
        assert order[p - 1] != i && h[c].meterId == m && h[i].meterId == m;
        assert h[c].time <= h[i].time;
      }
    }
    forall j | 0 <= j < |h| && EarlierOf(h[j], m, h[i].time)
      ensures h[j].time <= h[c].time
    {
      EarlierThanPrevious(h, m, k, order, p, j);
    }
    PredecessorIs(h, m, h[i].time, c);
  }

  /**
   * With distinct times and every reading before `bound`, the tail of the
   * ledger of `m` is the last later reading of the target, or the target
   * itself when nothing is later.
   */
  lemma TailPredecessor(h: seq<Reading>, m: string, k: nat, bound: int)
    requires k < |h| && h[k].meterId == m && DistinctTimes(h, m)
    requires forall i :: 0 <= i < |h| && h[i].meterId == m ==> h[i].time < bound
    ensures Predecessor(h, m, bound) ==
      Some(if Later(h, m, h[k].time) == [] then k else Later(h, m, h[k].time)[|Later(h, m, h[k].time)| - 1])
  {
    var t := h[k].time;
    var order := Later(h, m, t);
    LaterSpec(h, m, t);
    if order == [] {
      forall j | 0 <= j < |h| && EarlierOf(h[j], m, bound)
        ensures h[j].time <= h[k].time
      {
      }
      PredecessorIs(h, m, bound, k);
    } else {
      var last := order[|order| - 1];
      forall j | 0 <= j < |h| && EarlierOf(h[j], m, bound)
        ensures h[j].time <= h[last].time
      {
        if h[j].time > t {
          assert j in order;
          var q :| 0 <= q < |order| && order[q] == j;
          if q < |order| - 1 {
            assert h[order[q]].time <= h[order[|order| - 1]].time;
          }
        } else {
          assert LaterOf(h[last], m, t);
        }
      }
      PredecessorIs(h, m, bound, last);
    }
  }

  /** The chain condition at the corrected row. */
  lemma ChainAtTarget(h: seq<Reading>, m: string, k: nat, v: real, photo: Option<string>)
    requires k < |h| && h[k].meterId == m
    ensures Corrected(h, m, k, v, photo)[k].difference ==
      Corrected(h, m, k, v, photo)[k].value - PreviousValue(Corrected(h, m, k, v, photo), m, h[k].time)
  {
    var h' := Corrected(h, m, k, v, photo);
    CorrectedSameKeys(h, m, k, v, photo);
    PredecessorFrame(h, h', m, h[k].time);
    CorrectedTarget(h, m, k, v, photo);
    match Predecessor(h, m, h[k].time)
    case None =>
    case Some(j) =>
      CorrectedValue(h, m, k, v, photo, j);
  }

  /** The chain condition at a reading earlier than the corrected one. */
  lemma ChainBefore(h: seq<Reading>, m: string, k: nat, v: real, photo: Option<string>, i: nat)
    requires k < |h| && ChainConsistent(h, m)
    requires i < |h| && h[i].meterId == m && h[i].time < h[k].time
    ensures Corrected(h, m, k, v, photo)[i].difference ==
      Corrected(h, m, k, v, photo)[i].value - PreviousValue(Corrected(h, m, k, v, photo), m, h[i].time)
  {
    var h' := Corrected(h, m, k, v, photo);
    LaterMember(h, m, h[k].time, i);
    CorrectedUntouched(h, m, k, v, photo, i);
    CorrectedSameKeys(h, m, k, v, photo);
    PredecessorFrame(h, h', m, h[i].time);
    match Predecessor(h, m, h[i].time)
    case None =>
    case Some(j) =>
      CorrectedValue(h, m, k, v, photo, j);
  }

  /** The chain condition at the later reading at position `p` of the replay order. */
  lemma ChainAfter(h: seq<Reading>, m: string, k: nat, v: real, photo: Option<string>, p: nat)
    requires k < |h| && h[k].meterId == m && DistinctTimes(h, m)
    requires p < |Later(h, m, h[k].time)|
    ensures Corrected(h, m, k, v, photo)[Later(h, m, h[k].time)[p]].difference ==
      Corrected(h, m, k, v, photo)[Later(h, m, h[k].time)[p]].value -
        PreviousValue(Corrected(h, m, k, v, photo), m, h[Later(h, m, h[k].time)[p]].time)
  {
    var order := Later(h, m, h[k].time);
    var h' := Corrected(h, m, k, v, photo);
    var i := order[p];
    var c := if p == 0 then k else order[p - 1];
    CorrectedLater(h, m, k, v, photo, p);
    LaterPredecessor(h, m, k, p);
    CorrectedSameKeys(h, m, k, v, photo);
    PredecessorFrame(h, h', m, h[i].time);
    CorrectedValue(h, m, k, v, photo, c);
    LaterSpec(h, m, h[k].time);
    assert order[p] != k;
  }

  /** The chain condition at one row after a correction. */
  lemma ChainStep(h: seq<Reading>, m: string, k: nat, v: real, photo: Option<string>, i: nat)
    requires k < |h| && h[k].meterId == m
    requires ChainConsistent(h, m) && DistinctTimes(h, m)
    requires i < |h| && h[i].meterId == m
    ensures Corrected(h, m, k, v, photo)[i].difference ==
      Corrected(h, m, k, v, photo)[i].value - PreviousValue(Corrected(h, m, k, v, photo), m, h[i].time)
  {
    var order := Later(h, m, h[k].time);
    if i == k {
      ChainAtTarget(h, m, k, v, photo);
    } else if h[i].time < h[k].time {
      ChainBefore(h, m, k, v, photo, i);
    } else {
      assert i in order;
      var p :| 0 <= p < |order| && order[p] == i;
      ChainAfter(h, m, k, v, photo, p);
    }
  }

  /** With nothing later than the corrected reading, it is the tail, so the tail's value is the new value. */
  lemma TailValueAtTarget(h: seq<Reading>, m: string, k: nat, v: real, photo: Option<string>, bound: int)
    requires k < |h| && h[k].meterId == m && DistinctTimes(h, m)
    requires forall i :: 0 <= i < |h| && h[i].meterId == m ==> h[i].time < bound
    requires Later(h, m, h[k].time) == []
    ensures PreviousValue(Corrected(h, m, k, v, photo), m, bound) == v
  {
    var h' := Corrected(h, m, k, v, photo);
    CorrectedSameKeys(h, m, k, v, photo);
    PredecessorFrame(h, h', m, bound);
    TailPredecessor(h, m, k, bound);
    assert Predecessor(h', m, bound) == Some(k);
    CorrectedValue(h, m, k, v, photo, k);
    assert PreviousValue(h', m, bound) == h'[k].value;
  }

  /** With a later reading, the tail is another reading, whose value the correction keeps. */
  lemma TailValueKept(h: seq<Reading>, m: string, k: nat, v: real, photo: Option<string>, bound: int)
    requires k < |h| && h[k].meterId == m && DistinctTimes(h, m)
    requires forall i :: 0 <= i < |h| && h[i].meterId == m ==> h[i].time < bound
    requires Later(h, m, h[k].time) != []
    ensures PreviousValue(Corrected(h, m, k, v, photo), m, bound) == PreviousValue(h, m, bound)
  {
    var order := Later(h, m, h[k].time);
    var h' := Corrected(h, m, k, v, photo);
    var c := order[|order| - 1];
    CorrectedSameKeys(h, m, k, v, photo);
    PredecessorFrame(h, h', m, bound);
    TailPredecessor(h, m, k, bound);
    assert Predecessor(h', m, bound) == Some(c) && Predecessor(h, m, bound) == Some(c);
    assert c in order;
    LaterMember(h, m, h[k].time, c);
    assert c != k;
    CorrectedValue(h, m, k, v, photo, c);
    assert PreviousValue(h', m, bound) == h'[c].value;
    assert PreviousValue(h, m, bound) == h[c].value;
  }

  /** The tail's value after a correction: the new value when nothing is later, else unchanged. */
  lemma TailValue(h: seq<Reading>, m: string, k: nat, v: real, photo: Option<string>, bound: int)
    requires k < |h| && h[k].meterId == m && DistinctTimes(h, m)
    requires forall i :: 0 <= i < |h| && h[i].meterId == m ==> h[i].time < bound
    ensures PreviousValue(Corrected(h, m, k, v, photo), m, bound) ==
      if Later(h, m, h[k].time) == [] then v else PreviousValue(h, m, bound)
  {
    if Later(h, m, h[k].time) == [] {
      TailValueAtTarget(h, m, k, v, photo, bound);
    } else {
      TailValueKept(h, m, k, v, photo, bound);
    }
  }

  /** The tail condition after a correction. */
  lemma TailStep(h: seq<Reading>, ms: seq<Meter>, m: string, k: nat, v: real, photo: Option<string>, bound: int)
    requires k < |h| && h[k].meterId == m
    requires DistinctTimes(h, m) && TracksTail(h, ms, m, bound)
    ensures TracksTail(Corrected(h, m, k, v, photo), CorrectedMeters(ms, m, v, Later(h, m, h[k].time) == []), m, bound)
  {
    var noLater := Later(h, m, h[k].time) == [];
    var h' := Corrected(h, m, k, v, photo);
    var ms' := CorrectedMeters(ms, m, v, noLater);
    CorrectedSameKeys(h, m, k, v, photo);
    TailValue(h, m, k, v, photo, bound);
    forall i | 0 <= i < |h'| && h'[i].meterId == m
      ensures h'[i].time < bound
    {
      assert h'[i].meterId == h[i].meterId && h'[i].time == h[i].time;
    }
    forall r | 0 <= r < |ms'| && ms'[r].number == m
      ensures Baseline(ms'[r]) == PreviousValue(h', m, bound)
    {
      if noLater {
        assert ms'[r] == ms[r].(currentReading := Some(v));
      } else {
        assert ms'[r] == ms[r];
      }
    }
  }

  /**
   * A correction of a reading of meter `m` keeps the ledger of `m`
   * consistent when the readings of `m` have distinct times: the recomputed
   * differences agree with the chronological chain through the new value,
   * and the projection still holds the tail's value.
   */
  lemma CorrectionKeepsLedger(h: seq<Reading>, ms: seq<Meter>, m: string, k: nat, v: real,
                              photo: Option<string>, bound: int)
    requires k < |h| && h[k].meterId == m
    requires LedgerConsistent(h, ms, m, bound)
    ensures LedgerConsistent(Corrected(h, m, k, v, photo), CorrectedMeters(ms, m, v, Later(h, m, h[k].time) == []), m, bound)
  {
    var h' := Corrected(h, m, k, v, photo);
    CorrectedSameKeys(h, m, k, v, photo);
    assert DistinctTimes(h', m);
    assert ChainConsistent(h', m) by {
      forall i | 0 <= i < |h'| && h'[i].meterId == m
        ensures h'[i].difference == h'[i].value - PreviousValue(h', m, h'[i].time)
      {
        ChainStep(h, m, k, v, photo, i);
      }
    }
    TailStep(h, ms, m, k, v, photo, bound);
  }

  /**
   * The requirement `h[k].meterId == m` of `CorrectionKeepsLedger` matters:
   * the target reading is looked up by its id alone, so correcting meter B's
   * only reading through meter A's URL gives it A's predecessor (5) and the
   * difference 4 - 5, while B's own chain requires 4 - 0.
   */
  lemma MismatchedTargetBreaksChain()
    ensures var h := [Reading(1, "A", 5.0, 0, None, 5.0, None), Reading(2, "B", 3.0, 1, None, 3.0, None)];
      LedgerConsistent(h, [], "B", 2) && !ChainConsistent(Corrected(h, "A", 1, 4.0, None), "B")
  {
    var h := [Reading(1, "A", 5.0, 0, None, 5.0, None), Reading(2, "B", 3.0, 1, None, 3.0, None)];
    TwoMeterLedger(h);
    TwoMeterCorrection(h);
    var h' := h[1 := Reading(2, "B", 4.0, 1, None, -1.0, None)];
    assert LatestBefore(h', "B", 1, 1) == None;
    assert Predecessor(h', "B", 1) == None;
    assert h'[1].difference != h'[1].value - PreviousValue(h', "B", h'[1].time);
  }

  /** The two-meter example ledger is consistent for meter B. */
  lemma TwoMeterLedger(h: seq<Reading>)
    requires h == [Reading(1, "A", 5.0, 0, None, 5.0, None), Reading(2, "B", 3.0, 1, None, 3.0, None)]
    ensures LedgerConsistent(h, [], "B", 2)
  {
    assert LatestBefore(h, "B", 1, 1) == None;
    assert Predecessor(h, "B", 1) == None;
    assert LatestBefore(h, "B", 2, 1) == None;
    assert Predecessor(h, "B", 2) == Some(1);
  }

  /** Correcting B's reading through A's URL measures it against A's reading. */
  lemma TwoMeterCorrection(h: seq<Reading>)
    requires h == [Reading(1, "A", 5.0, 0, None, 5.0, None), Reading(2, "B", 3.0, 1, None, 3.0, None)]
    ensures Corrected(h, "A", 1, 4.0, None) == h[1 := Reading(2, "B", 4.0, 1, None, -1.0, None)]
  {
    assert LatestBefore(h, "A", 1, 1) == Some(0);
    assert Predecessor(h, "A", 1) == Some(0);
    assert LaterIn(h, "A", 1, 1) == [];
    assert LaterIn(h, "A", 1, 2) == [];
    assert Later(h, "A", 1) == [];
  }
}
