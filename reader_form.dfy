/**
 * client/src/components/ReaderView.js: the meter list a reader chooses
 * from, de-duplicated by meter number, and the guard in front of a reading
 * submission.
 */
module ReaderForm {
  import opened Results
  import opened Sequences
  import opened Ledger

  /** `meters.map(m => m.meter_number)` */
  function Numbers(ms: seq<Meter>): (ns: seq<string>)
    ensures |ns| == |ms| && forall i :: 0 <= i < |ms| ==> ns[i] == ms[i].number
  {
    seq(|ms|, i requires 0 <= i < |ms| => ms[i].number)
  }

  /** `meters.find(m => m.meter_number === n)` for a number that occurs. */
  function FirstWithNumber(ms: seq<Meter>, n: string): Meter
    requires n in Numbers(ms)
  {
    ms[FirstIndex(Numbers(ms), n)]
  }

  /**
   * `Array.from(new Set(numbers)).map(n => meters.find(...))`: one meter
   * per number, each the first meter with it, in the order in which the
   * numbers first occur.
   */
  function DedupMeters(ms: seq<Meter>): (r: seq<Meter>)
    ensures |r| == |Dedup(Numbers(ms))|
    ensures forall j :: 0 <= j < |r| ==> r[j].number == Dedup(Numbers(ms))[j]
    ensures forall j :: 0 <= j < |r| ==> r[j] == FirstWithNumber(ms, r[j].number)
  {
    var unique := Dedup(Numbers(ms));
    seq(|unique|, j requires 0 <= j < |unique| => FirstWithNumber(ms, unique[j]))
  }

  /** No two meters of the de-duplicated list share a number. */
  lemma DedupMetersUnique(ms: seq<Meter>)
    ensures var r := DedupMeters(ms);
      forall a, b :: 0 <= a < b < |r| ==> r[a].number != r[b].number
  {
    var unique := Dedup(Numbers(ms));
    assert Distinct(unique);
  }

  /** Every number of the response is still offered, and the list is never longer. */
  lemma DedupMetersComplete(ms: seq<Meter>)
    ensures var r := DedupMeters(ms);
      |r| <= |ms| && forall i :: 0 <= i < |ms| ==> exists j :: 0 <= j < |r| && r[j].number == ms[i].number
  {
    var r := DedupMeters(ms);
    var ns := Numbers(ms);
    var unique := Dedup(ns);
    forall i | 0 <= i < |ms| ensures exists j :: 0 <= j < |r| && r[j].number == ms[i].number {
      assert ns[i] in ns;
      var j :| 0 <= j < |unique| && unique[j] == ns[i];
      assert r[j].number == ms[i].number;
    }
  }

  /** Each kept meter is a meter of the response that no earlier meter shares a number with. */
  lemma DedupMetersFirst(ms: seq<Meter>, j: int)
    requires 0 <= j < |DedupMeters(ms)|
    ensures var r := DedupMeters(ms);
      exists i :: 0 <= i < |ms| && r[j] == ms[i] && (forall k :: 0 <= k < i ==> ms[k].number != ms[i].number)
  {
    var r := DedupMeters(ms);
    var ns := Numbers(ms);
    var i := FirstIndex(ns, r[j].number);
    assert r[j] == ms[i];
    assert forall k :: 0 <= k < i ==> ns[k] != ns[i];
  }

  /** Kept meters follow the order in which their numbers first occur. */
  lemma DedupMetersOrder(ms: seq<Meter>)
    ensures var r := DedupMeters(ms);
      forall a, b :: 0 <= a < b < |r| ==>
        FirstIndex(Numbers(ms), r[a].number) < FirstIndex(Numbers(ms), r[b].number)
  {
    DedupFirstOccurrenceOrder(Numbers(ms));
  }

  /** When the numbers are already distinct the list is kept as it is. */
  lemma DedupMetersDistinct(ms: seq<Meter>)
    requires forall a, b :: 0 <= a < b < |ms| ==> ms[a].number != ms[b].number
    ensures DedupMeters(ms) == ms
  {
    var ns := Numbers(ms);
    assert Distinct(ns);
    DedupDistinct(ns);
    var r := DedupMeters(ms);
    forall j | 0 <= j < |ms| ensures r[j] == ms[j] {
      var i := FirstIndex(ns, ns[j]);
      assert i == j;
    }
  }

  /** What `handleReadingSubmit` posts: the meter number, the reading and, when one is chosen, a photo. */
  datatype Submission = Submission(meterId: string, reading: string, photo: Option<string>)

  /**
   * `handleReadingSubmit`: with no selected meter or an empty reading the
   * form alerts and sends nothing (None); otherwise it posts the selected
   * meter's number with the reading as typed.
   */
  function Submit(selected: Option<Meter>, reading: string, photo: Option<string>): (s: Option<Submission>)
    ensures s.None? <==> selected.None? || reading == ""
    ensures s.Some? ==> s.value == Submission(selected.value.number, reading, photo)
  {
    if selected.None? || reading == "" then None
    else Some(Submission(selected.value.number, reading, photo))
  }
}
