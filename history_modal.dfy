/**
 * client/src/components/MeterHistoryModal.js: which history records show
 * an edit button. Times are milliseconds since the epoch; a reading time
 * the browser cannot parse (an invalid `Date`, whose arithmetic gives NaN)
 * is `None`.
 */
module HistoryModal {
  import opened Results
  import opened Identity

  /** One hour and one day, in milliseconds. */
  const HourMs: int := 1000 * 60 * 60
  const DayMs: int := 24 * HourMs

  /**
   * `canEdit(readingTime)`: data managers may always edit; anyone else
   * while at most 24 hours have passed since the reading, computed as
   * `(now - readingDate) / (1000 * 60 * 60) <= 24`. The window is checked
   * only here, never by the server.
   */
  function CanEdit(role: string, now: int, readingTime: Option<int>): (ok: bool)
    ensures role == DataManager ==> ok
    ensures role != DataManager ==> (ok <==> readingTime.Some? && now - readingTime.value <= DayMs)
  {
    if role == DataManager then true
    else
      match readingTime
      case None => false
      case Some(t) =>
        var hoursSinceReading := (now - t) as real / (HourMs as real);
        hoursSinceReading <= 24.0
  }

  /** The window is inclusive: exactly 24 hours is still editable, one millisecond more is not. */
  lemma CanEditBoundary(role: string, t: int)
    requires role != DataManager
    ensures CanEdit(role, t + DayMs, Some(t))
    ensures !CanEdit(role, t + DayMs + 1, Some(t))
  {
  }

  /**
   * Editability only depends on the elapsed time and is monotone in it: a
   * reading editable after some elapsed time is editable after any
   * smaller one, a future-dated reading included.
   */
  lemma CanEditMonotone(role: string, now: int, t: int, now': int, t': int)
    requires CanEdit(role, now, Some(t))
    requires now' - t' <= now - t
    ensures CanEdit(role, now', Some(t'))
  {
  }

  /** Every role but the data manager is bound by the window, admins included. */
  lemma WindowBindsAdmins(now: int, t: int)
    requires now - t > DayMs
    ensures !CanEdit(Admin, now, Some(t)) && !CanEdit(Reader, now, Some(t))
    ensures CanEdit(DataManager, now, Some(t))
  {
  }

  /**
   * An admin sees the edit button on a fresh reading, but the correction
   * route turns admins away.
   */
  lemma AdminButtonRefused(now: int)
    ensures CanEdit(Admin, now, Some(now))
    ensures !Authorize(CorrectionRoles, Admin)
  {
    RouteGates(Admin);
  }

  /**
   * The rows of the history table that render the edit button: `{canEdit(
   * record.reading_time) && <button>}` for each record, by position.
   */
  function EditButtons(role: string, now: int, times: seq<Option<int>>): (shown: seq<bool>)
    ensures |shown| == |times|
    ensures forall i :: 0 <= i < |times| ==> (shown[i] <==> CanEdit(role, now, times[i]))
  {
    if times == [] then [] else [CanEdit(role, now, times[0])] + EditButtons(role, now, times[1..])
  }
}
