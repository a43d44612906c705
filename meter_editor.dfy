/**
 * client/src/components/DataManagerView.js: the meter edit form. Selecting
 * a meter fills the form, the display-unit checkboxes toggle units in and
 * out of a list, and saving builds the kind-specific body of PUT
 * /meters/:meter_number.
 */
module MeterEditor {
  import opened Results
  import opened Sequences
  import opened Csv
  import opened Text
  import opened Ledger
  import opened Catalog

  /** `editedMeterInfo`: the form's fields, the display units as a list. */
  datatype EditedInfo = EditedInfo(
    meterType: string,
    brand: string,
    displayUnit: seq<string>,
    ctValue: string,
    wiringMethod: string)

  /**
   * `handleDisplayUnitChange` on the unit list: a unit that is present is
   * filtered out (every occurrence), one that is absent is appended.
   */
  function ToggleUnit(units: seq<string>, unit: string): (r: seq<string>)
    ensures unit !in units ==> r == units + [unit]
    ensures unit in units ==> unit !in r && forall u :: u in r <==> u in units && u != unit
    ensures (unit in r) <==> (unit !in units)
  {
    if unit in units then RemoveAll(units, unit) else units + [unit]
  }

  /** Removing a present unit keeps the others in their relative order. */
  lemma ToggleKeepsOrder(before: seq<string>, unit: string, after: seq<string>)
    requires unit in before + after
    ensures ToggleUnit(before + after, unit) == RemoveAll(before, unit) + RemoveAll(after, unit)
  {
    FilterConcat(before, after, Unequal(unit));
  }

  /** Toggling an absent unit twice gives back the original list. */
  lemma ToggleTwice(units: seq<string>, unit: string)
    requires unit !in units
    ensures ToggleUnit(ToggleUnit(units, unit), unit) == units
  {
    RemoveAllAppended(units, unit);
  }

  /** `handleDisplayUnitChange(unit)` on the whole form: nothing but the units change. */
  function ToggleDisplayUnit(info: EditedInfo, unit: string): (r: EditedInfo)
    ensures r == info.(displayUnit := r.displayUnit)
    ensures r.displayUnit == ToggleUnit(info.displayUnit, unit)
  {
    info.(displayUnit := ToggleUnit(info.displayUnit, unit))
  }

  /**
   * `handleEditMeter`'s body: a digital meter sends its type, brand and
   * units joined with ','; any other type sends its type, CT value and
   * wiring method. The two field sets never mix.
   */
  function EditPayload(info: EditedInfo): (u: MeterUpdate)
    ensures u.meterType == Some(info.meterType)
    ensures info.meterType == Digital ==>
      u.brand == Some(info.brand) && u.displayUnit == Some(Join(info.displayUnit)) &&
      u.ctValue.None? && u.wiringMethod.None?
    ensures info.meterType != Digital ==>
      u.ctValue == Some(info.ctValue) && u.wiringMethod == Some(info.wiringMethod) &&
      u.brand.None? && u.displayUnit.None?
  {
    if info.meterType == Digital then
      MeterUpdate(Some(info.meterType), Some(info.brand), Some(Join(info.displayUnit)), None, None)
    else
      MeterUpdate(Some(info.meterType), None, None, Some(info.ctValue), Some(info.wiringMethod))
  }

  /**
   * `handleMeterSelect` on the found meter: every missing field becomes
   * '', a missing or empty `display_unit` the empty list, any other one is
   * split at ','.
   */
  function EditedInfoOf(m: Meter): (info: EditedInfo)
    ensures info.meterType == OrEmpty(m.meterType) && info.brand == OrEmpty(m.brand)
    ensures info.ctValue == OrEmpty(m.ctValue) && info.wiringMethod == OrEmpty(m.wiringMethod)
    ensures !Truthy(m.displayUnit) <==> info.displayUnit == []
    ensures Join(info.displayUnit) == OrEmpty(m.displayUnit)
  {
    JoinParseList(m.displayUnit);
    EditedInfo(OrEmpty(m.meterType), OrEmpty(m.brand), ParseList(m.displayUnit), OrEmpty(m.ctValue), OrEmpty(m.wiringMethod))
  }

  /** `meters.find(m => m.id === id)`; selecting an id no meter has throws, here None. */
  function SelectMeter(ms: seq<Meter>, id: int): (r: Option<EditedInfo>)
    ensures r.None? <==> forall i :: 0 <= i < |ms| ==> ms[i].id != id
    ensures r.Some? ==> exists i :: 0 <= i < |ms| && ms[i].id == id && r.value == EditedInfoOf(ms[i])
  {
    match FindFirst(ms, HasMeterId(id))
    case None => None
    case Some(i) => Some(EditedInfoOf(ms[i]))
  }

  /** A list of comma-free units, saved and selected again, comes back unchanged. */
  lemma UnitsRoundTrip(units: seq<string>)
    requires forall u :: u in units ==> Comma !in u
    requires units != [""]
    ensures ParseList(Some(Join(units))) == units
  {
    ParseListJoin(units);
  }

  /**
   * Selecting a meter and saving the form unchanged writes back what was
   * read: the server's update sets the fields of the meter's branch to
   * their old values, NULLs turned into ''.
   */
  lemma EditRoundTrip(m: Meter)
    ensures var r := ApplyMeterUpdate(m, EditPayload(EditedInfoOf(m)));
      && (m.meterType == Some(Digital) ==>
            r == m.(brand := Some(OrEmpty(m.brand)), displayUnit := Some(OrEmpty(m.displayUnit))))
      && (m.meterType != Some(Digital) ==>
            r == m.(meterType := Some(OrEmpty(m.meterType)), ctValue := Some(OrEmpty(m.ctValue)),
                    wiringMethod := Some(OrEmpty(m.wiringMethod))))
  {
    var info := EditedInfoOf(m);
    assert info.meterType == Digital <==> m.meterType == Some(Digital);
  }
}
