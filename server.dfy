/**
 * The database of server/index.js as one object whose tables its request
 * handlers rewrite in place: the reading ledger (append and correction),
 * the meter catalog (add, delete and update meter) and the users. Every
 * handler is all-or-nothing: it computes the new tables and assigns them
 * only when it succeeds, so a refused or failed request leaves every table
 * as it was (the transaction's rollback).
 */
module Server {
  import opened Results
  import opened Sequences
  import opened Csv
  import opened Text
  import opened Ledger
  import opened Catalog
  import opened Identity

  /** The primary keys of the four tables. */
  const MeterKey: Meter -> int := (m: Meter) => m.id
  const ReadingKey: Reading -> int := (r: Reading) => r.id
  const LocationKey: LocationType -> int := (lt: LocationType) => lt.id
  const UserKey: User -> int := (u: User) => u.id

  /** `INSERT INTO meters (meter_number, location, campus_id)`: every other column NULL. */
  function NewMeter(id: int, number: string, campus: int, location: string): Meter
  {
    Meter(id, number, campus, location, None, None, None, None, None, None, None, None, None, None, None)
  }

  /** `SET reading_value = v, difference = d, photo_url = COALESCE(photo, photo_url)` */
  function TargetSetter(v: real, d: real, photo: Option<string>): Reading -> Reading
  {
    (r: Reading) => r.(value := v, difference := d, photoUrl := Coalesce(photo, r.photoUrl))
  }

  /** `SET difference = d` */
  function DifferenceSetter(d: real): Reading -> Reading
  {
    (r: Reading) => r.(difference := d)
  }

  /** `WHERE meter_id = number` on the history */
  function OfMeter(number: string): Reading -> bool
  {
    (r: Reading) => r.meterId == number
  }

  /** With unique ids, an `UPDATE ... WHERE id = h[j].id` rewrites row `j` alone. */
  lemma UpdateById(h: seq<Reading>, j: nat, f: Reading -> Reading)
    requires UniqueKeys(h, ReadingKey) && j < |h|
    ensures UpdateWhere(h, HasId(h[j].id), f) == h[j := f(h[j])]
  {
    forall i | 0 <= i < |h| && i != j ensures !HasId(h[j].id)(h[i]) {
      if i < j {
        assert ReadingKey(h[i]) != ReadingKey(h[j]);
      } else {
        assert ReadingKey(h[j]) != ReadingKey(h[i]);
      }
    }
    UpdateWhereSingle(h, HasId(h[j].id), f, j);
  }

  /** One turn of the replay loop is one step of `Replay`. */
  lemma ReplayStep(h: seq<Reading>, order: seq<nat>, i: nat, prev: real)
    requires InRange(h, order) && i < |order|
    ensures var j := order[i];
      Replay(h, order[i..], prev) ==
        Replay(h[j := h[j].(difference := h[j].value - prev)], order[i + 1..], h[j].value)
  {
    assert order[i..][0] == order[i];
    assert order[i..][1..] == order[i + 1..];
  }

  /** Two tables whose rows differ at most in `difference`. */
  ghost predicate SameButDifferences(h: seq<Reading>, g: seq<Reading>)
  {
    |h| == |g| && forall x :: 0 <= x < |h| ==> h[x] == g[x].(difference := h[x].difference)
  }

  /** Rewriting differences keeps ids unique. */
  lemma SameIdsUnique(h: seq<Reading>, g: seq<Reading>)
    requires SameButDifferences(h, g) && UniqueKeys(g, ReadingKey)
    ensures UniqueKeys(h, ReadingKey)
  {
    forall i, j | 0 <= i < j < |h| ensures ReadingKey(h[i]) != ReadingKey(h[j]) {
      assert h[i].id == g[i].id && h[j].id == g[j].id;
      assert ReadingKey(g[i]) != ReadingKey(g[j]);
    }
  }

  /**
   * Step 3 of the correction: with unique ids, the UPDATE by the target's
   * id is `CorrectTarget`.
   */
  lemma TargetUpdate(h: seq<Reading>, m: string, k: nat, v: real, photo: Option<string>)
    requires UniqueKeys(h, ReadingKey) && k < |h|
    ensures UpdateWhere(h, HasId(h[k].id), TargetSetter(v, CorrectionDifference(h, m, h[k].time, v), photo)) ==
      CorrectTarget(h, m, k, v, photo)
    ensures UniqueKeys(CorrectTarget(h, m, k, v, photo), ReadingKey)
  {
    UpdateById(h, k, TargetSetter(v, CorrectionDifference(h, m, h[k].time, v), photo));
    var h1 := CorrectTarget(h, m, k, v, photo);
    forall i, j | 0 <= i < j < |h1| ensures ReadingKey(h1[i]) != ReadingKey(h1[j]) {
      assert h1[i].id == h[i].id && h1[j].id == h[j].id;
      assert ReadingKey(h[i]) != ReadingKey(h[j]);
    }
  }

  /** A correction keeps every row's id. */
  lemma CorrectedIds(h: seq<Reading>, m: string, k: nat, v: real, photo: Option<string>)
    requires k < |h|
    ensures |Corrected(h, m, k, v, photo)| == |h|
    ensures forall i :: 0 <= i < |h| ==> ReadingKey(Corrected(h, m, k, v, photo)[i]) == ReadingKey(h[i])
  {
    var h1 := CorrectTarget(h, m, k, v, photo);
    forall i | 0 <= i < |h| ensures ReadingKey(Corrected(h, m, k, v, photo)[i]) == ReadingKey(h[i]) {
      ReplayKeeps(h1, Later(h, m, h[k].time), v, i);
    }
  }

  /**
   * Steps 4 and 5 of the correction: the later readings, queried once, are
   * walked in order with a running `previousValue` that starts at the new
   * value; each gets `UPDATE ... SET difference = value - previousValue
   * WHERE id = its id`, and `previousValue` becomes its value. The result
   * is `Replay`.
   */
  method ReplayLater(h0: seq<Reading>, later: seq<nat>, newValue: real) returns (h: seq<Reading>)
    requires UniqueKeys(h0, ReadingKey) && InRange(h0, later)
    ensures h == Replay(h0, later, newValue)
  {
    h := h0;
    var subsequent := seq(|later|, p requires 0 <= p < |later| => h0[later[p]]);
    var previousValue := newValue;
    var i := 0;
    while i < |later|
      invariant 0 <= i <= |later|
      invariant SameButDifferences(h, h0)
      invariant Replay(h, later[i..], previousValue) == Replay(h0, later, newValue)
    {
      var reading := subsequent[i];
      var newDifference := reading.value - previousValue;
      SameIdsUnique(h, h0);
      ReplayStep(h, later, i, previousValue);
      UpdateById(h, later[i], DifferenceSetter(newDifference));
      h := UpdateWhere(h, HasId(reading.id), DifferenceSetter(newDifference));
      previousValue := reading.value;
      i := i + 1;
    }
    assert later[i..] == [];
  }

  /**
   * The writes of a successful correction of row `k` (whose id `readingId`
   * names it), computed on a copy of the history: the target update, the
   * query of the later readings, and the replay loop. `noLater` tells
   * whether the query came back empty.
   */
  method CorrectHistory(h0: seq<Reading>, meterId: string, k: nat, newValue: real, photo: Option<string>, bound: int)
    returns (h: seq<Reading>, noLater: bool)
    requires UniqueKeys(h0, ReadingKey) && KeysBelow(h0, ReadingKey, bound) && k < |h0|
    ensures h == Corrected(h0, meterId, k, newValue, photo)
    ensures noLater == (Later(h0, meterId, h0[k].time) == [])
    ensures UniqueKeys(h, ReadingKey) && KeysBelow(h, ReadingKey, bound)
  {
    var target := h0[k];
    var difference := CorrectionDifference(h0, meterId, target.time, newValue);
    TargetUpdate(h0, meterId, k, newValue, photo);
    h := UpdateWhere(h0, HasId(target.id), TargetSetter(newValue, difference, photo));
    var later := Later(h, meterId, target.time);
    CorrectionReplays(h0, meterId, k, newValue, photo);
    h := ReplayLater(h, later, newValue);
    CorrectedIds(h0, meterId, k, newValue, photo);
    KeysKept(h0, h, ReadingKey, bound);
    noLater := |later| == 0;
  }

  /** Adding a meter to the membership lists keeps location ids a primary key. */
  lemma EnrollKeys(lts: seq<LocationType>, name: string, campus: int, number: string, freshId: int)
    requires UniqueKeys(lts, LocationKey) && KeysBelow(lts, LocationKey, freshId)
    ensures var r := Enroll(lts, name, campus, number, freshId);
      UniqueKeys(r, LocationKey) && KeysBelow(r, LocationKey, freshId + 1)
  {
    var r := Enroll(lts, name, campus, number, freshId);
    match FindFirst(lts, IsLocation(name, campus))
    case Some(i) =>
      KeysKept(lts, r, LocationKey, freshId);
    case None =>
      AppendUniqueKeys(lts, LocationType(freshId, name, campus, Some(AddMember(None, number))), LocationKey, freshId);
  }

  /** Deleting a meter from the membership lists keeps location ids a primary key. */
  lemma UnenrollKeys(lts: seq<LocationType>, name: string, number: string, bound: int)
    requires UniqueKeys(lts, LocationKey) && KeysBelow(lts, LocationKey, bound)
    ensures var r := Unenroll(lts, name, number);
      UniqueKeys(r, LocationKey) && KeysBelow(r, LocationKey, bound)
  {
    match FindFirst(lts, Named(name))
    case None =>
    case Some(i) =>
      var rest := RemoveMember(lts[i].meterNumbers, number);
      if rest == [] {
        FilterUniqueKeys(lts, Negate(Named(name)), LocationKey);
      } else {
        KeysKept(lts, UpdateWhere(lts, Named(name), MembersSetter(Join(rest))), LocationKey, bound);
      }
  }

  /** The append path keeps the ids of meters and history primary keys below their auto-increment values. */
  lemma AppendKeys(ms: seq<Meter>, h: seq<Reading>, m: string, value: real, now: int, photo: Option<string>,
                   meterBound: int, readingBound: int)
    requires FindMeter(ms, m).Some?
    requires UniqueKeys(ms, MeterKey) && KeysBelow(ms, MeterKey, meterBound)
    requires UniqueKeys(h, ReadingKey) && KeysBelow(h, ReadingKey, readingBound)
    ensures var ms' := AppendMeters(ms, m, value, now, photo, AppendDifference(ms, m, value));
      UniqueKeys(ms', MeterKey) && KeysBelow(ms', MeterKey, meterBound)
    ensures var h' := h + [AppendedReading(ms, m, value, now, photo, readingBound)];
      UniqueKeys(h', ReadingKey) && KeysBelow(h', ReadingKey, readingBound + 1)
  {
    AppendUniqueKeys(h, AppendedReading(ms, m, value, now, photo, readingBound), ReadingKey, readingBound);
    KeysKept(ms, AppendMeters(ms, m, value, now, photo, AppendDifference(ms, m, value)), MeterKey, meterBound);
  }

  /** Setting `current_reading` on the rows of one meter number keeps the meter ids a primary key. */
  lemma CorrectedMetersKeys(ms: seq<Meter>, m: string, v: real, noLater: bool, bound: int)
    requires UniqueKeys(ms, MeterKey) && KeysBelow(ms, MeterKey, bound)
    ensures var ms' := CorrectedMeters(ms, m, v, noLater);
      UniqueKeys(ms', MeterKey) && KeysBelow(ms', MeterKey, bound)
  {
    KeysKept(ms, CorrectedMeters(ms, m, v, noLater), MeterKey, bound);
  }

  /** The next location-type id after adding to the lists: one more when a location type was created. */
  function EnrollBound(lts: seq<LocationType>, name: string, campus: int, bound: int): (next: int)
    ensures next == bound || next == bound + 1
    ensures next == bound + 1 <==> FindFirst(lts, IsLocation(name, campus)).None?
  {
    if FindFirst(lts, IsLocation(name, campus)).None? then bound + 1 else bound
  }

  /** Adding a meter keeps the ids of meters and location types primary keys below the next ids. */
  lemma AddMeterKeys(ms: seq<Meter>, lts: seq<LocationType>, number: string, location: string, campus: int,
                     meterBound: int, locationBound: int)
    requires UniqueKeys(ms, MeterKey) && KeysBelow(ms, MeterKey, meterBound)
    requires UniqueKeys(lts, LocationKey) && KeysBelow(lts, LocationKey, locationBound)
    ensures var ms' := ms + [NewMeter(meterBound, number, campus, location)];
      UniqueKeys(ms', MeterKey) && KeysBelow(ms', MeterKey, meterBound + 1)
    ensures var lts' := Enroll(lts, location, campus, number, locationBound);
      UniqueKeys(lts', LocationKey) && KeysBelow(lts', LocationKey, EnrollBound(lts, location, campus, locationBound))
  {
    AppendUniqueKeys(ms, NewMeter(meterBound, number, campus, location), MeterKey, meterBound);
    EnrollKeys(lts, location, campus, number, locationBound);
    if FindFirst(lts, IsLocation(location, campus)).Some? {
      KeysKept(lts, Enroll(lts, location, campus, number, locationBound), LocationKey, locationBound);
    }
  }

  /** The meter row with this id (the first, as `meterResult[0]`). */
  function MeterWithId(ms: seq<Meter>, id: int): (m: Meter)
    requires FindFirst(ms, HasMeterId(id)).Some?
    ensures m in ms && m.id == id
  {
    ms[FindFirst(ms, HasMeterId(id)).value]
  }

  /** The location types after deleting meter `gone`: its number leaves the lists only when it has a location. */
  function UnenrollMeter(lts: seq<LocationType>, gone: Meter): seq<LocationType>
  {
    if gone.location != "" then Unenroll(lts, gone.location, gone.number) else lts
  }

  /** Deleting a meter keeps the ids of the three tables it touches primary keys. */
  lemma DeleteMeterKeys(ms: seq<Meter>, h: seq<Reading>, lts: seq<LocationType>, gone: Meter, id: int,
                        meterBound: int, readingBound: int, locationBound: int)
    requires UniqueKeys(ms, MeterKey) && KeysBelow(ms, MeterKey, meterBound)
    requires UniqueKeys(h, ReadingKey) && KeysBelow(h, ReadingKey, readingBound)
    requires UniqueKeys(lts, LocationKey) && KeysBelow(lts, LocationKey, locationBound)
    ensures var ms' := DeleteWhere(ms, HasMeterId(id));
      UniqueKeys(ms', MeterKey) && KeysBelow(ms', MeterKey, meterBound)
    ensures var h' := DeleteWhere(h, OfMeter(gone.number));
      UniqueKeys(h', ReadingKey) && KeysBelow(h', ReadingKey, readingBound)
    ensures var lts' := UnenrollMeter(lts, gone);
      UniqueKeys(lts', LocationKey) && KeysBelow(lts', LocationKey, locationBound)
  {
    FilterUniqueKeys(h, Negate(OfMeter(gone.number)), ReadingKey);
    FilterUniqueKeys(ms, Negate(HasMeterId(id)), MeterKey);
    if gone.location != "" {
      UnenrollKeys(lts, gone.location, gone.number, locationBound);
    }
  }

  class Database {
    var meters: seq<Meter>
    var history: seq<Reading>
    var locationTypes: seq<LocationType>
    var users: seq<User>
    var nextMeterId: int
    var nextReadingId: int
    var nextLocationId: int
    var nextUserId: int

    /** Every table's id is a primary key below the table's next auto-increment value. */
    ghost predicate Valid()
      reads this
    {
      && UniqueKeys(meters, MeterKey) && KeysBelow(meters, MeterKey, nextMeterId)
      && UniqueKeys(history, ReadingKey) && KeysBelow(history, ReadingKey, nextReadingId)
      && UniqueKeys(locationTypes, LocationKey) && KeysBelow(locationTypes, LocationKey, nextLocationId)
      && UniqueKeys(users, UserKey) && KeysBelow(users, UserKey, nextUserId)
    }

    /** An empty database. */
    constructor ()
      ensures Valid()
      ensures meters == [] && history == [] && locationTypes == [] && users == []
    {
      meters, history, locationTypes, users := [], [], [], [];
      nextMeterId, nextReadingId, nextLocationId, nextUserId := 1, 1, 1, 1;
    }

    /**
     * POST /update-meter-reading at time `now`: an unknown meter number is
     * NotFound and writes nothing; otherwise the meters rows of that number
     * shift their projection and one history row is appended, with the
     * difference against `current_reading` (0 when unset) and the meter's
     * stored type.
     */
    method AppendReading(meterId: string, value: real, photo: Option<string>, now: int) returns (outcome: Outcome)
      requires Valid()
      modifies this
      ensures Valid()
      ensures FindMeter(old(meters), meterId).None? ==> outcome == NotFound && unchanged(this)
      ensures FindMeter(old(meters), meterId).Some? ==>
        && outcome == Ok
        && meters == AppendMeters(old(meters), meterId, value, now, photo, AppendDifference(old(meters), meterId, value))
        && history == old(history) + [AppendedReading(old(meters), meterId, value, now, photo, old(nextReadingId))]
        && nextReadingId == old(nextReadingId) + 1
      ensures locationTypes == old(locationTypes) && users == old(users)
      ensures nextMeterId == old(nextMeterId) && nextLocationId == old(nextLocationId) && nextUserId == old(nextUserId)
    {
      var found := FindMeter(meters, meterId);
      if found.None? {
        return NotFound;
      }
      var difference := AppendDifference(meters, meterId, value);
      var added := AppendedReading(meters, meterId, value, now, photo, nextReadingId);
      AppendKeys(meters, history, meterId, value, now, photo, nextMeterId, nextReadingId);
      meters := AppendMeters(meters, meterId, value, now, photo, difference);
      history := history + [added];
      nextReadingId := nextReadingId + 1;
      outcome := Ok;
    }

    /**
     * PUT /update-meter-reading/:meterId/:readingId by a user of role
     * `role`: roles other than data manager and reader are Forbidden; an
     * unknown reading id throws and rolls back (Failed); otherwise the
     * history becomes `Corrected` and, when no reading of `meterId` is
     * later than the target, the meters rows of `meterId` take the new
     * value as `current_reading`.
     */
    method CorrectReading(role: string, meterId: string, readingId: int, newValue: real, photo: Option<string>)
      returns (outcome: Outcome)
      requires Valid()
      modifies this
      ensures Valid()
      ensures !Authorize(CorrectionRoles, role) ==> outcome == Forbidden && unchanged(this)
      ensures Authorize(CorrectionRoles, role) && FindReading(old(history), readingId).None? ==>
        outcome == Failed && unchanged(this)
      ensures Authorize(CorrectionRoles, role) && FindReading(old(history), readingId).Some? ==>
        && outcome == Ok
        && history == Corrected(old(history), meterId, FindReading(old(history), readingId).value, newValue, photo)
        && meters == CorrectedMeters(old(meters), meterId, newValue,
             Later(old(history), meterId, old(history)[FindReading(old(history), readingId).value].time) == [])
      ensures locationTypes == old(locationTypes) && users == old(users)
      ensures nextMeterId == old(nextMeterId) && nextReadingId == old(nextReadingId)
      ensures nextLocationId == old(nextLocationId) && nextUserId == old(nextUserId)
    {
      if !Authorize(CorrectionRoles, role) {
        return Forbidden;
      }
      var original := FindReading(history, readingId);
      if original.None? {
        return Failed;
      }
      var h, noLater := CorrectHistory(history, meterId, original.value, newValue, photo, nextReadingId);
      CorrectedMetersKeys(meters, meterId, newValue, noLater, nextMeterId);
      history := h;
      meters := CorrectedMeters(meters, meterId, newValue, noLater);
      outcome := Ok;
    }

    /**
     * POST /meters: roles other than data manager and admin are Forbidden;
     * an existing meter number is a Conflict and writes nothing; otherwise
     * the meter row is inserted with every other column NULL, and its number
     * is pushed on the list of the (location, campus) location type, which
     * is created first when there is none.
     */
    method AddMeter(role: string, number: string, location: string, campus: int) returns (outcome: Outcome)
      requires Valid()
      modifies this
      ensures Valid()
      ensures !Authorize(CatalogRoles, role) ==> outcome == Forbidden && unchanged(this)
      ensures Authorize(CatalogRoles, role) && FindMeter(old(meters), number).Some? ==>
        outcome == Conflict && unchanged(this)
      ensures Authorize(CatalogRoles, role) && FindMeter(old(meters), number).None? ==>
        && outcome == Ok
        && meters == old(meters) + [NewMeter(old(nextMeterId), number, campus, location)]
        && nextMeterId == old(nextMeterId) + 1
        && locationTypes == Enroll(old(locationTypes), location, campus, number, old(nextLocationId))
        && nextLocationId == EnrollBound(old(locationTypes), location, campus, old(nextLocationId))
      ensures history == old(history) && users == old(users)
      ensures nextReadingId == old(nextReadingId) && nextUserId == old(nextUserId)
    {
      if !Authorize(CatalogRoles, role) {
        return Forbidden;
      }
      if FindMeter(meters, number).Some? {
        return Conflict;
      }
      AddMeterKeys(meters, locationTypes, number, location, campus, nextMeterId, nextLocationId);
      meters := meters + [NewMeter(nextMeterId, number, campus, location)];
      nextMeterId := nextMeterId + 1;
      var next := EnrollBound(locationTypes, location, campus, nextLocationId);
      locationTypes := Enroll(locationTypes, location, campus, number, nextLocationId);
      nextLocationId := next;
      outcome := Ok;
    }

    /**
     * DELETE /meters/:id: roles other than data manager and admin are
     * Forbidden; an unknown id is NotFound and writes nothing; otherwise the
     * meter's history rows and the meter row are deleted and, when the
     * meter has a location, its number leaves the membership lists of the
     * location types of that name.
     */
    method DeleteMeter(role: string, id: int) returns (outcome: Outcome)
      requires Valid()
      modifies this
      ensures Valid()
      ensures !Authorize(CatalogRoles, role) ==> outcome == Forbidden && unchanged(this)
      ensures Authorize(CatalogRoles, role) && FindFirst(old(meters), HasMeterId(id)).None? ==>
        outcome == NotFound && unchanged(this)
      ensures Authorize(CatalogRoles, role) && FindFirst(old(meters), HasMeterId(id)).Some? ==>
        && outcome == Ok
        && history == DeleteWhere(old(history), OfMeter(MeterWithId(old(meters), id).number))
        && meters == DeleteWhere(old(meters), HasMeterId(id))
        && locationTypes == UnenrollMeter(old(locationTypes), MeterWithId(old(meters), id))
      ensures users == old(users)
      ensures nextMeterId == old(nextMeterId) && nextReadingId == old(nextReadingId)
      ensures nextLocationId == old(nextLocationId) && nextUserId == old(nextUserId)
    {
      if !Authorize(CatalogRoles, role) {
        return Forbidden;
      }
      if FindFirst(meters, HasMeterId(id)).None? {
        return NotFound;
      }
      var gone := MeterWithId(meters, id);
      DeleteMeterKeys(meters, history, locationTypes, gone, id, nextMeterId, nextReadingId, nextLocationId);
      history := DeleteWhere(history, OfMeter(gone.number));
      meters := DeleteWhere(meters, HasMeterId(id));
      locationTypes := UnenrollMeter(locationTypes, gone);
      outcome := Ok;
    }

    /**
     * PUT /meters/:meter_number: roles other than data manager and admin
     * are Forbidden; when no row has that number nothing is written and the
     * answer is NotFound; otherwise every row of that number takes the
     * kind-specific update.
     */
    method UpdateMeter(role: string, number: string, u: MeterUpdate) returns (outcome: Outcome)
      requires Valid()
      modifies this
      ensures Valid()
      ensures !Authorize(CatalogRoles, role) ==> outcome == Forbidden && unchanged(this)
      ensures Authorize(CatalogRoles, role) && FindMeter(old(meters), number).None? ==>
        outcome == NotFound && unchanged(this)
      ensures Authorize(CatalogRoles, role) && FindMeter(old(meters), number).Some? ==>
        outcome == Ok && meters == UpdateMeters(old(meters), number, u)
      ensures history == old(history) && locationTypes == old(locationTypes) && users == old(users)
      ensures nextMeterId == old(nextMeterId) && nextReadingId == old(nextReadingId)
      ensures nextLocationId == old(nextLocationId) && nextUserId == old(nextUserId)
    {
      if !Authorize(CatalogRoles, role) {
        return Forbidden;
      }
      if FindMeter(meters, number).None? {
        return NotFound;
      }
      meters := UpdateMeters(meters, number, u);
      KeysKept(old(meters), meters, MeterKey, nextMeterId);
      outcome := Ok;
    }

    /**
     * POST /users by a user of role `role`: only admins pass; the answer is
     * `CreateVerdict`, and only on Ok is the user inserted with its
     * password hashed.
     */
    method CreateUser(role: string, username: Option<string>, password: Option<string>, newRole: Option<string>)
      returns (outcome: Outcome)
      requires Valid()
      modifies this
      ensures Valid()
      ensures !Authorize(UserRoles, role) ==> outcome == Forbidden && unchanged(this)
      ensures Authorize(UserRoles, role) ==> outcome == CreateVerdict(old(users), username, password, newRole)
      ensures Authorize(UserRoles, role) && outcome != Ok ==> unchanged(this)
      ensures Authorize(UserRoles, role) && outcome == Ok ==>
        && users == CreatedUsers(old(users), username.value, password.value, newRole.value, old(nextUserId))
        && nextUserId == old(nextUserId) + 1
      ensures meters == old(meters) && history == old(history) && locationTypes == old(locationTypes)
      ensures nextMeterId == old(nextMeterId) && nextReadingId == old(nextReadingId) && nextLocationId == old(nextLocationId)
    {
      if !Authorize(UserRoles, role) {
        return Forbidden;
      }
      outcome := CreateVerdict(users, username, password, newRole);
      if outcome != Ok {
        return;
      }
      var added := User(nextUserId, username.value, Hashed(password.value), newRole.value);
      AppendUniqueKeys(users, added, UserKey, nextUserId);
      users := users + [added];
      nextUserId := nextUserId + 1;
    }

    /**
     * PUT /users/:id: only admins pass; the answer is `UpdateVerdict`, and
     * only on Ok are the supplied fields written.
     */
    method UpdateUser(role: string, id: int, username: Option<string>, newRole: Option<string>, password: Option<string>)
      returns (outcome: Outcome)
      requires Valid()
      modifies this
      ensures Valid()
      ensures !Authorize(UserRoles, role) ==> outcome == Forbidden && unchanged(this)
      ensures Authorize(UserRoles, role) ==> outcome == UpdateVerdict(old(users), id, username, newRole, password)
      ensures Authorize(UserRoles, role) && outcome != Ok ==> unchanged(this)
      ensures Authorize(UserRoles, role) && outcome == Ok ==>
        users == UpdatedUsers(old(users), id, username, newRole, password)
      ensures meters == old(meters) && history == old(history) && locationTypes == old(locationTypes)
      ensures nextMeterId == old(nextMeterId) && nextReadingId == old(nextReadingId)
      ensures nextLocationId == old(nextLocationId) && nextUserId == old(nextUserId)
    {
      if !Authorize(UserRoles, role) {
        return Forbidden;
      }
      outcome := UpdateVerdict(users, id, username, newRole, password);
      if outcome != Ok {
        return;
      }
      users := UpdatedUsers(users, id, username, newRole, password);
      KeysKept(old(users), users, UserKey, nextUserId);
    }

    /** DELETE /users/:id: only admins pass; the answer is `DeleteVerdict`, and only on Ok is the user deleted. */
    method DeleteUser(role: string, id: int) returns (outcome: Outcome)
      requires Valid()
      modifies this
      ensures Valid()
      ensures !Authorize(UserRoles, role) ==> outcome == Forbidden && unchanged(this)
      ensures Authorize(UserRoles, role) ==> outcome == DeleteVerdict(old(users), id)
      ensures Authorize(UserRoles, role) && outcome != Ok ==> unchanged(this)
      ensures Authorize(UserRoles, role) && outcome == Ok ==> users == DeletedUsers(old(users), id)
      ensures meters == old(meters) && history == old(history) && locationTypes == old(locationTypes)
      ensures nextMeterId == old(nextMeterId) && nextReadingId == old(nextReadingId)
      ensures nextLocationId == old(nextLocationId) && nextUserId == old(nextUserId)
    {
      if !Authorize(UserRoles, role) {
        return Forbidden;
      }
      outcome := DeleteVerdict(users, id);
      if outcome != Ok {
        return;
      }
      FilterUniqueKeys(users, Negate(HasUserId(id)), UserKey);
      users := DeletedUsers(users, id);
    }
  }
}
