/**
 * The catalog bookkeeping of server/index.js: the comma-joined membership
 * list a location type keeps of its meters (add and delete meter), the
 * listing of meters with their display labels (GET /meters/:type/:id), and
 * the kind-specific meter update (PUT /meters/:meter_number), as functions
 * on the tables. `Server.Database` applies them in place.
 */
module Catalog {
  import opened Results
  import opened Sequences
  import opened Csv
  import opened Text
  import opened Ledger

  /** A row of `location_types`; `meterNumbers` is the comma-joined membership list. */
  datatype LocationType = LocationType(id: int, name: string, campusId: int, meterNumbers: Option<string>)

  // ---------------------------------------------------------------------
  // The membership list
  // ---------------------------------------------------------------------

  /**
   * Add meter, steps 4 and 5: the stored list read back (`split(',')`, or
   * `[]` when NULL or empty), the number pushed, the list re-joined. The
   * column text grows by a comma and the number, or becomes the number when
   * the list was empty, and read back it is the old list plus the number.
   */
  function AddMember(column: Option<string>, number: string): (c: string)
    ensures ParseList(column) == [] ==> c == number
    ensures ParseList(column) != [] ==> c == column.value + [Comma] + number
    ensures Comma !in number && number != "" ==> ParseList(Some(c)) == ParseList(column) + [number]
  {
    var items := ParseList(column);
    JoinSnoc(items, number);
    JoinParseList(column);
    StoredAppend(items, number);
    Join(items + [number])
  }

  /** A comma-free list with a non-empty comma-free item appended reads back as itself. */
  lemma StoredAppend(items: seq<string>, number: string)
    requires forall p :: p in items ==> Comma !in p
    ensures Comma !in number && number != "" ==> ParseList(Some(Join(items + [number]))) == items + [number]
  {
    if Comma !in number && number != "" {
      assert (items + [number])[|items|] == number;
      ParseListJoin(items + [number]);
    }
  }

  /**
   * Delete meter: the stored list read back with every occurrence of the
   * number filtered out; the other numbers keep their order.
   */
  function RemoveMember(column: Option<string>, number: string): (rest: seq<string>)
    ensures forall x :: x in rest <==> x in ParseList(column) && x != number
    ensures forall p :: p in rest ==> Comma !in p
  {
    RemoveAll(ParseList(column), number)
  }

  /** Removing a number that was just added to a list not holding it gives the list back. */
  lemma RemoveAddedMember(column: Option<string>, number: string)
    requires Comma !in number && number != "" && number !in ParseList(column)
    ensures RemoveMember(Some(AddMember(column, number)), number) == ParseList(column)
  {
    RemoveAllAppended(ParseList(column), number);
  }

  /** `WHERE name = name AND campus_id = campus` */
  function IsLocation(name: string, campus: int): LocationType -> bool
  {
    (lt: LocationType) => lt.name == name && lt.campusId == campus
  }

  /** `WHERE name = name` */
  function Named(name: string): LocationType -> bool
  {
    (lt: LocationType) => lt.name == name
  }

  /** `WHERE id = id` on the location types */
  function HasLocationId(id: int): LocationType -> bool
  {
    (lt: LocationType) => lt.id == id
  }

  /**
   * Add meter on the location types: the first (name, campus) location
   * type, or a new one with id `freshId` when there is none, gets the
   * number pushed on its list.
   */
  function Enroll(lts: seq<LocationType>, name: string, campus: int, number: string, freshId: int): seq<LocationType>
  {
    match FindFirst(lts, IsLocation(name, campus))
    case Some(i) => lts[i := lts[i].(meterNumbers := Some(AddMember(lts[i].meterNumbers, number)))]
    case None => lts + [LocationType(freshId, name, campus, Some(AddMember(None, number)))]
  }

  /**
   * Adding a meter: when a (name, campus) location type exists, the first
   * one lists the number at the end and nothing else changes; otherwise a
   * location type for (name, campus) is created, listing just the number,
   * after the untouched old rows.
   */
  lemma EnrollEffect(lts: seq<LocationType>, name: string, campus: int, number: string, freshId: int)
    requires Comma !in number && number != ""
    ensures var r := Enroll(lts, name, campus, number, freshId);
      match FindFirst(lts, IsLocation(name, campus))
      case Some(i) =>
        && |r| == |lts|
        && r[i] == lts[i].(meterNumbers := r[i].meterNumbers)
        && ParseList(r[i].meterNumbers) == ParseList(lts[i].meterNumbers) + [number]
        && (forall j :: 0 <= j < |lts| && j != i ==> r[j] == lts[j])
      case None =>
        && r[..|lts|] == lts
        && |r| == |lts| + 1
        && r[|lts|].id == freshId && r[|lts|].name == name && r[|lts|].campusId == campus
        && ParseList(r[|lts|].meterNumbers) == [number]
  {
    assert ParseList(None) == [];
  }

  /** `SET meter_numbers = column` */
  function MembersSetter(column: string): LocationType -> LocationType
  {
    (lt: LocationType) => lt.(meterNumbers := Some(column))
  }

  /**
   * Delete meter on the location types: the list of the first location
   * type NAMED `name` (any campus) without the number; when that list is
   * empty every location type of that name is deleted, otherwise every one
   * of that name is given the re-joined list.
   */
  function Unenroll(lts: seq<LocationType>, name: string, number: string): seq<LocationType>
  {
    match FindFirst(lts, Named(name))
    case None => lts
    case Some(i) =>
      var rest := RemoveMember(lts[i].meterNumbers, number);
      if rest == [] then DeleteWhere(lts, Named(name))
      else UpdateWhere(lts, Named(name), MembersSetter(Join(rest)))
  }

  /**
   * Deleting a meter from the membership lists: with no location type of
   * that name nothing changes; when the first one's list held nothing but
   * the number, no location type of that name is left and the others stay;
   * otherwise every location type of that name, whatever its campus, lists
   * the first one's other numbers in their order, and the number no more.
   */
  lemma UnenrollEffect(lts: seq<LocationType>, name: string, number: string)
    ensures var r := Unenroll(lts, name, number);
      match FindFirst(lts, Named(name))
      case None => r == lts
      case Some(i) =>
        var rest := RemoveMember(lts[i].meterNumbers, number);
        && (rest == [] ==>
              (forall lt :: lt in r <==> lt in lts && lt.name != name))
        && (rest != [] ==>
              && |r| == |lts|
              && (forall j :: 0 <= j < |lts| && lts[j].name != name ==> r[j] == lts[j])
              && (forall j :: 0 <= j < |lts| && lts[j].name == name ==>
                    && r[j] == lts[j].(meterNumbers := Some(Join(rest)))
                    && number !in ParseList(r[j].meterNumbers)
                    && (rest != [""] ==> ParseList(r[j].meterNumbers) == rest)))
  {
    match FindFirst(lts, Named(name))
    case None =>
    case Some(i) =>
      var rest := RemoveMember(lts[i].meterNumbers, number);
      if rest != [] {
        if rest == [""] {
          assert Join(rest) == "";
        } else {
          ParseListJoin(rest);
        }
      }
  }

  // ---------------------------------------------------------------------
  // Listing meters with their labels
  // ---------------------------------------------------------------------

  const Digital: string := "digital"
  const Mechanical: string := "mechanical"
  const NotSet: string := "未設定"

  /** The `meter_type_display` CASE. */
  function MeterTypeDisplay(meterType: Option<string>): (shown: string)
    ensures shown == "數位式" <==> meterType == Some(Digital)
    ensures shown == "機械式" <==> meterType == Some(Mechanical)
    ensures shown == NotSet <==> meterType != Some(Digital) && meterType != Some(Mechanical)
  {
    if meterType == Some(Digital) then "數位式"
    else if meterType == Some(Mechanical) then "機械式"
    else NotSet
  }

  /** The inner CASE on a code column: '1' and '2' named, anything else (NULL too) passed through. */
  function DecodeCode(code: Option<string>, one: string, two: string): Option<string>
  {
    if code == Some("1") then Some(one)
    else if code == Some("2") then Some(two)
    else code
  }

  /**
   * The `type_specific_info` CASE followed by `|| '未設定'`: digital meters
   * show their brand, mechanical meters their CT value, either decoded from
   * its code, and a NULL or empty result shows as 未設定.
   */
  function TypeSpecificInfo(meterType: Option<string>, brand: Option<string>, ctValue: Option<string>): (info: string)
    ensures info != ""
    ensures meterType == Some(Digital) && brand == Some("1") ==> info == "施耐德"
    ensures meterType == Some(Digital) && brand == Some("2") ==> info == "其他"
    ensures meterType == Some(Digital) && Truthy(brand) && brand != Some("1") && brand != Some("2") ==>
      info == brand.value
    ensures meterType == Some(Digital) && !Truthy(brand) ==> info == NotSet
    ensures meterType == Some(Mechanical) && ctValue == Some("1") ==> info == "有裝電比值"
    ensures meterType == Some(Mechanical) && ctValue == Some("2") ==> info == "沒有"
    ensures meterType == Some(Mechanical) && Truthy(ctValue) && ctValue != Some("1") && ctValue != Some("2") ==>
      info == ctValue.value
    ensures meterType == Some(Mechanical) && !Truthy(ctValue) ==> info == NotSet
    ensures meterType != Some(Digital) && meterType != Some(Mechanical) ==> info == NotSet
  {
    var decoded :=
      if meterType == Some(Digital) then DecodeCode(brand, "施耐德", "其他")
      else if meterType == Some(Mechanical) then DecodeCode(ctValue, "有裝電比值", "沒有")
      else Some(NotSet);
    if Truthy(decoded) then decoded.value else NotSet
  }

  /** A meters row as listed, with its two labels. */
  datatype ListedMeter = ListedMeter(meter: Meter, typeDisplay: string, typeInfo: string)

  function Labelled(m: Meter): ListedMeter
  {
    ListedMeter(m, MeterTypeDisplay(m.meterType), TypeSpecificInfo(m.meterType, m.brand, m.ctValue))
  }

  /** `WHERE meter_number IN (numbers)` */
  function InList(numbers: seq<string>): Meter -> bool
  {
    (m: Meter) => m.number in numbers
  }

  /**
   * The listing query: every meters row whose number is among `numbers`,
   * in table order, each with its labels.
   */
  function ListMeters(ms: seq<Meter>, numbers: seq<string>): (r: seq<ListedMeter>)
    ensures |r| <= |ms|
    ensures forall p :: 0 <= p < |r| ==> r[p] == Labelled(r[p].meter) && r[p].meter in ms && r[p].meter.number in numbers
    ensures forall m :: m in ms && m.number in numbers ==> Labelled(m) in r
  {
    var rows := Filter(ms, InList(numbers));
    var r := seq(|rows|, p requires 0 <= p < |rows| => Labelled(rows[p]));
    assert forall p :: 0 <= p < |r| ==> r[p].meter == rows[p] && rows[p] in rows;
    assert forall m :: m in rows ==> Labelled(m) in r by {
      forall m | m in rows ensures Labelled(m) in r {
        var p :| 0 <= p < |rows| && rows[p] == m;
        assert r[p] == Labelled(m);
      }
    }
    r
  }

  /** The meter rows of a listing, in its order. */
  function ListedRows(r: seq<ListedMeter>): (rows: seq<Meter>)
    ensures |rows| == |r|
    ensures forall p :: 0 <= p < |r| ==> rows[p] == r[p].meter
  {
    seq(|r|, p requires 0 <= p < |r| => r[p].meter)
  }

  /**
   * `IN` neither drops nor repeats rows: every requested meter row appears in
   * the listing as often as in the table, every other row not at all.
   */
  lemma ListMetersCounts(ms: seq<Meter>, numbers: seq<string>, m: Meter)
    ensures multiset(ListedRows(ListMeters(ms, numbers)))[m] == if m.number in numbers then multiset(ms)[m] else 0
  {
    var rows := Filter(ms, InList(numbers));
    assert ListedRows(ListMeters(ms, numbers)) == rows;
    FilterMultiset(ms, InList(numbers), m);
  }

  /**
   * The de-duplication of the numbers before the query is harmless: `IN`
   * tests membership, so duplicated numbers give the same rows once each.
   */
  lemma ListDedupHarmless(ms: seq<Meter>, numbers: seq<string>)
    ensures ListMeters(ms, Dedup(numbers)) == ListMeters(ms, numbers)
  {
    FilterAgree(ms, InList(Dedup(numbers)), InList(numbers));
  }

  /** The meter numbers a listing request selects, or why it is refused. */
  datatype Selection = Selected(numbers: seq<string>) | Refused(outcome: Outcome)

  /** `WHERE campus_id = campus` on the location types */
  function InCampus(campus: int): LocationType -> bool
  {
    (lt: LocationType) => lt.campusId == campus
  }

  /** Location type `lt` has a list, and `x` is one of its items. */
  predicate Lists(lt: LocationType, x: string)
  {
    lt.meterNumbers.Some? && x in Split(lt.meterNumbers.value)
  }

  function ListsNumber(x: string): LocationType -> bool
  {
    (lt: LocationType) => Lists(lt, x)
  }

  /** `meter_numbers IS NULL` */
  function HasNullList(): LocationType -> bool
  {
    (lt: LocationType) => lt.meterNumbers.None?
  }

  function Always(): LocationType -> bool
  {
    (lt: LocationType) => true
  }

  /** `locations.flatMap(l => l.meter_numbers.split(','))`, or None when some list is NULL (a TypeError). */
  function SplitAll(lts: seq<LocationType>): (r: Option<seq<string>>)
    ensures r.None? <==> exists i :: 0 <= i < |lts| && lts[i].meterNumbers.None?
    ensures r.Some? ==> forall x :: x in r.value <==> exists i :: 0 <= i < |lts| && Lists(lts[i], x)
  {
    if lts == [] then Some([])
    else if lts[0].meterNumbers.None? then None
    else
      match SplitAll(lts[1..])
      case None =>
        assert exists i :: 0 <= i < |lts[1..]| && lts[1..][i].meterNumbers.None?;
        var i :| 0 <= i < |lts[1..]| && lts[1..][i].meterNumbers.None?;
        assert lts[i + 1].meterNumbers.None?;
        None
      case Some(tail) =>
        assert forall i :: 0 < i < |lts| ==> lts[i] == lts[1..][i - 1];
        var head := Split(lts[0].meterNumbers.value);
        forall x | x in head + tail
          ensures exists i :: 0 <= i < |lts| && Lists(lts[i], x)
        {
          if x !in head {
            var j :| 0 <= j < |lts[1..]| && Lists(lts[1..][j], x);
            assert lts[j + 1] == lts[1..][j];
          } else {
            assert Lists(lts[0], x);
          }
        }
        forall x, i | 0 <= i < |lts| && Lists(lts[i], x)
          ensures x in head + tail
        {
          if i > 0 {
            assert lts[1..][i - 1] == lts[i];
          }
        }
        Some(head + tail)
  }

  /**
   * Step 2 for `campus`: the lists of all location types of the campus,
   * concatenated. No location type of the campus is NotFound, a NULL list
   * a thrown error (Failed); otherwise the numbers are exactly the items of
   * the campus's lists.
   */
  function CampusSelection(lts: seq<LocationType>, id: int): (s: Selection)
    ensures (forall i :: 0 <= i < |lts| ==> lts[i].campusId != id) ==> s == Refused(NotFound)
    ensures (exists i :: 0 <= i < |lts| && lts[i].campusId == id && lts[i].meterNumbers.None?) ==> s == Refused(Failed)
    ensures ((exists i :: 0 <= i < |lts| && lts[i].campusId == id) &&
             (forall i :: 0 <= i < |lts| && lts[i].campusId == id ==> lts[i].meterNumbers.Some?)) ==>
      s.Selected?
    ensures s.Selected? ==> Some(s.numbers) == SplitAll(Filter(lts, InCampus(id)))
    ensures s.Selected? ==> forall x :: x in s.numbers <==>
      exists i :: 0 <= i < |lts| && lts[i].campusId == id && Lists(lts[i], x)
  {
    var rows := Filter(lts, InCampus(id));
    FilterExists(lts, InCampus(id), Always());
    FilterExists(lts, InCampus(id), HasNullList());
    if rows == [] then
      Refused(NotFound)
    else
      match SplitAll(rows)
      case None => Refused(Failed)
      case Some(numbers) =>
        assert forall x :: x in numbers <==> exists i :: 0 <= i < |lts| && lts[i].campusId == id && Lists(lts[i], x) by {
          forall x
            ensures x in numbers <==> exists i :: 0 <= i < |lts| && lts[i].campusId == id && Lists(lts[i], x)
          {
            FilterExists(lts, InCampus(id), ListsNumber(x));
          }
        }
        Selected(numbers)
  }

  /**
   * Steps 1 and 2 of GET /meters/:type/:id: for `location`, the list of the
   * location type with that id (NotFound when there is none, Failed when
   * its list is NULL); for `campus`, `CampusSelection`; any other type is
   * Invalid.
   */
  function SelectNumbers(lts: seq<LocationType>, kind: string, id: int): (s: Selection)
    ensures kind != "location" && kind != "campus" ==> s == Refused(Invalid)
    ensures kind == "location" && FindFirst(lts, HasLocationId(id)).None? ==> s == Refused(NotFound)
    ensures kind == "location" && FindFirst(lts, HasLocationId(id)).Some? ==>
      (s.Selected? <==> lts[FindFirst(lts, HasLocationId(id)).value].meterNumbers.Some?) &&
      (s.Refused? ==> s == Refused(Failed))
    ensures s.Selected? && kind == "location" ==>
      exists i :: 0 <= i < |lts| && lts[i].id == id && lts[i].meterNumbers.Some? && s.numbers == Split(lts[i].meterNumbers.value)
    ensures kind == "campus" && (forall i :: 0 <= i < |lts| ==> lts[i].campusId != id) ==> s == Refused(NotFound)
    ensures kind == "campus" && (exists i :: 0 <= i < |lts| && lts[i].campusId == id && lts[i].meterNumbers.None?) ==>
      s == Refused(Failed)
    ensures (kind == "campus" && (exists i :: 0 <= i < |lts| && lts[i].campusId == id) &&
             (forall i :: 0 <= i < |lts| && lts[i].campusId == id ==> lts[i].meterNumbers.Some?)) ==>
      s.Selected?
    ensures kind == "campus" && s.Selected? ==> forall x :: x in s.numbers <==>
      exists i :: 0 <= i < |lts| && lts[i].campusId == id && Lists(lts[i], x)
  {
    if kind == "location" then
      match FindFirst(lts, HasLocationId(id))
      case None => Refused(NotFound)
      case Some(i) =>
        if lts[i].meterNumbers.None? then Refused(Failed) else Selected(Split(lts[i].meterNumbers.value))
    else if kind == "campus" then
      CampusSelection(lts, id)
    else
      Refused(Invalid)
  }

  /**
   * GET /meters/:type/:id: the selected numbers, de-duplicated, listed
   * with their labels.
   */
  function MetersListing(lts: seq<LocationType>, ms: seq<Meter>, kind: string, id: int): (r: Result<seq<ListedMeter>>)
    ensures SelectNumbers(lts, kind, id).Refused? <==> r.Failure?
    ensures r.Success? ==> r.value == ListMeters(ms, SelectNumbers(lts, kind, id).numbers)
  {
    match SelectNumbers(lts, kind, id)
    case Refused(o) => Failure(o)
    case Selected(numbers) =>
      ListDedupHarmless(ms, numbers);
      Success(ListMeters(ms, Dedup(numbers)))
  }

  // ---------------------------------------------------------------------
  // Kind-specific meter update
  // ---------------------------------------------------------------------

  /** The body of PUT /meters/:meter_number; a missing field is NULL. */
  datatype MeterUpdate = MeterUpdate(
    meterType: Option<string>,
    brand: Option<string>,
    displayUnit: Option<string>,
    ctValue: Option<string>,
    wiringMethod: Option<string>)

  /**
   * The row UPDATE: `digital` sets type, brand and display unit; any other
   * type (NULL too) takes the mechanical branch and sets type, CT value and
   * wiring method.
   */
  function ApplyMeterUpdate(m: Meter, u: MeterUpdate): Meter
  {
    if u.meterType == Some(Digital) then m.(meterType := u.meterType, brand := u.brand, displayUnit := u.displayUnit)
    else m.(meterType := u.meterType, ctValue := u.ctValue, wiringMethod := u.wiringMethod)
  }

  /**
   * The update writes only the fields of its branch: the other branch's
   * fields and everything that is not a descriptive field are kept.
   */
  lemma MeterUpdateFields(m: Meter, u: MeterUpdate)
    ensures var r := ApplyMeterUpdate(m, u);
      && r.meterType == u.meterType
      && (u.meterType == Some(Digital) ==>
            r.brand == u.brand && r.displayUnit == u.displayUnit &&
            r.ctValue == m.ctValue && r.wiringMethod == m.wiringMethod)
      && (u.meterType != Some(Digital) ==>
            r.ctValue == u.ctValue && r.wiringMethod == u.wiringMethod &&
            r.brand == m.brand && r.displayUnit == m.displayUnit)
      && r == m.(meterType := r.meterType, brand := r.brand, displayUnit := r.displayUnit,
                 ctValue := r.ctValue, wiringMethod := r.wiringMethod)
  {
  }

  function Updater(u: MeterUpdate): Meter -> Meter
  {
    (m: Meter) => ApplyMeterUpdate(m, u)
  }

  /** `UPDATE meters SET ... WHERE meter_number = number` */
  function UpdateMeters(ms: seq<Meter>, number: string, u: MeterUpdate): (r: seq<Meter>)
    ensures |r| == |ms|
    ensures forall i :: 0 <= i < |ms| && ms[i].number != number ==> r[i] == ms[i]
    ensures forall i :: 0 <= i < |ms| && ms[i].number == number ==> r[i] == ApplyMeterUpdate(ms[i], u)
  {
    UpdateWhere(ms, HasNumber(number), Updater(u))
  }
}
