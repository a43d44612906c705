/**
 * client/src/components/AddMeterForm.js: the add-meter form's state, the
 * location suggestions drawn from the campus's location types as the user
 * types, a click on a suggestion, and the reset that follows a change of
 * campus. Each handler is a function from the old form to the new one.
 */
module AddMeterForm {
  import opened Results
  import opened Sequences
  import opened Text
  import opened Catalog

  /** `meterData`: the select's campus id (a string, '' for none) and the two text inputs. */
  datatype FormData = FormData(campusId: string, location: string, meterNumber: string)

  /** The component's state: the data, the shown suggestions, the fetched location types and the error banner. */
  datatype Form = Form(data: FormData, suggestions: seq<string>, locationTypes: seq<LocationType>, error: string)

  /** The banner shown when the location types cannot be fetched. */
  const FetchError: string := "無法獲取位置類型，請稍後再試。"

  /** The form as first rendered: everything empty. */
  const Initial: Form := Form(FormData("", "", ""), [], [], "")

  /** `lt => lt.name.toLowerCase().includes(value.toLowerCase())` */
  function Matches(value: string): LocationType -> bool
  {
    (lt: LocationType) => Contains(Lower(lt.name), Lower(value))
  }

  /** `.map(lt => lt.name)` */
  function Names(lts: seq<LocationType>): (ns: seq<string>)
    ensures |ns| == |lts|
    ensures forall i :: 0 <= i < |lts| ==> ns[i] == lts[i].name
  {
    seq(|lts|, i requires 0 <= i < |lts| => lts[i].name)
  }

  /**
   * The suggestions `handleLocationChange` computes: none while the input
   * is empty or no campus is chosen; otherwise the names of the location
   * types whose name contains the input, ignoring case. Every suggestion
   * is such a name and every such name is suggested.
   */
  function Suggestions(lts: seq<LocationType>, value: string, campusId: string): (r: seq<string>)
    ensures value == "" || campusId == "" ==> r == []
    ensures forall s :: s in r ==> exists i :: 0 <= i < |lts| && lts[i].name == s && Contains(Lower(s), Lower(value))
    ensures value != "" && campusId != "" ==>
      forall i :: 0 <= i < |lts| && Contains(Lower(lts[i].name), Lower(value)) ==> lts[i].name in r
  {
    if |value| > 0 && campusId != "" then
      var kept := Filter(lts, Matches(value));
      var r := Names(kept);
      forall s | s in r
        ensures exists i :: 0 <= i < |lts| && lts[i].name == s && Contains(Lower(s), Lower(value))
      {
        var j :| 0 <= j < |kept| && kept[j].name == s;
        assert kept[j] in kept;
        var i :| 0 <= i < |lts| && lts[i] == kept[j];
      }
      assert forall i :: 0 <= i < |lts| && Matches(value)(lts[i]) ==> lts[i] in kept;
      r
    else []
  }

  /** An independent statement of the matching names, element by element in list order. */
  function MatchingNames(lts: seq<LocationType>, value: string): seq<string>
  {
    if lts == [] then []
    else (if Contains(Lower(lts[0].name), Lower(value)) then [lts[0].name] else []) + MatchingNames(lts[1..], value)
  }

  /** The names of a concatenation are the concatenated names. */
  lemma NamesConcat(a: seq<LocationType>, b: seq<LocationType>)
    ensures Names(a + b) == Names(a) + Names(b)
  {
  }

  /** Filtering and then naming is the element-by-element reference. */
  lemma {:induction false} NamesFilter(lts: seq<LocationType>, value: string)
    ensures Names(Filter(lts, Matches(value))) == MatchingNames(lts, value)
  {
    if lts != [] {
      var head := if Matches(value)(lts[0]) then [lts[0]] else [];
      NamesFilter(lts[1..], value);
      NamesConcat(head, Filter(lts[1..], Matches(value)));
    }
  }

  /** With a campus and a non-empty input the suggestions are the matching names in the fetched order. */
  lemma SuggestionsInOrder(lts: seq<LocationType>, value: string, campusId: string)
    requires value != "" && campusId != ""
    ensures Suggestions(lts, value, campusId) == MatchingNames(lts, value)
  {
    NamesFilter(lts, value);
  }

  /** The filter ignores case: inputs equal up to case give the same suggestions. */
  lemma SuggestionsIgnoreCase(lts: seq<LocationType>, v1: string, v2: string, campusId: string)
    requires Lower(v1) == Lower(v2)
    ensures Suggestions(lts, v1, campusId) == Suggestions(lts, v2, campusId)
  {
    FilterAgree(lts, Matches(v1), Matches(v2));
  }

  /** Typing a location type's exact name (in any case) suggests it. */
  lemma ExactNameSuggested(lts: seq<LocationType>, i: int, value: string, campusId: string)
    requires 0 <= i < |lts| && lts[i].name != "" && Lower(value) == Lower(lts[i].name)
    requires campusId != ""
    ensures lts[i].name in Suggestions(lts, value, campusId)
  {
    assert OccursAt(Lower(lts[i].name), Lower(value), 0);
  }

  /** `handleLocationChange(value)`: the location becomes the input and the suggestions are recomputed. */
  function ChangeLocation(f: Form, value: string): (r: Form)
    ensures r.data == f.data.(location := value)
    ensures r.suggestions == Suggestions(f.locationTypes, value, f.data.campusId)
    ensures r.locationTypes == f.locationTypes && r.error == f.error
  {
    f.(data := f.data.(location := value), suggestions := Suggestions(f.locationTypes, value, f.data.campusId))
  }

  /** `handleSuggestionClick(s)`: the location becomes the suggestion and the list closes. */
  function ClickSuggestion(f: Form, s: string): (r: Form)
    ensures r.data == f.data.(location := s) && r.suggestions == []
    ensures r.locationTypes == f.locationTypes && r.error == f.error
  {
    f.(data := f.data.(location := s), suggestions := [])
  }

  /**
   * Choosing campus `c` in the select: the location is cleared. When the
   * campus changed the effect on `campus_id` runs: no campus empties the
   * location types; a campus loads them (`fetched`), or on a failed fetch
   * (None) keeps the old ones and shows the banner. Shown suggestions are
   * not cleared.
   */
  function ChangeCampus(f: Form, c: string, fetched: Option<seq<LocationType>>): (r: Form)
    ensures r.data == f.data.(campusId := c, location := "")
    ensures r.suggestions == f.suggestions
    ensures c == f.data.campusId ==> r.locationTypes == f.locationTypes && r.error == f.error
    ensures c != f.data.campusId && c == "" ==> r.locationTypes == [] && r.error == f.error
    ensures c != f.data.campusId && c != "" && fetched.Some? ==> r.locationTypes == fetched.value && r.error == f.error
    ensures c != f.data.campusId && c != "" && fetched.None? ==> r.locationTypes == f.locationTypes && r.error == FetchError
  {
    var picked := f.(data := f.data.(campusId := c, location := ""));
    if c == f.data.campusId then picked
    else if c == "" then picked.(locationTypes := [])
    else
      match fetched
      case Some(lts) => picked.(locationTypes := lts)
      case None => picked.(error := FetchError)
  }

  /**
   * After a new campus's types are loaded, typing a non-empty location
   * suggests exactly the matching names of that campus, in order.
   */
  lemma SuggestionsFollowCampus(f: Form, c: string, lts: seq<LocationType>, value: string)
    requires c != f.data.campusId && c != "" && value != ""
    ensures ChangeLocation(ChangeCampus(f, c, Some(lts)), value).suggestions == MatchingNames(lts, value)
  {
    SuggestionsInOrder(lts, value, c);
  }

  /** Once no campus is chosen, typing suggests nothing whatever was loaded before. */
  lemma NoCampusNoSuggestions(f: Form, fetched: Option<seq<LocationType>>, value: string)
    ensures ChangeLocation(ChangeCampus(f, "", fetched), value).suggestions == []
  {
  }

  /** Clicking a suggestion offered for the typed text puts a location type's name into the form. */
  lemma ClickedSuggestionIsName(f: Form, value: string, s: string)
    requires s in ChangeLocation(f, value).suggestions
    ensures var r := ClickSuggestion(ChangeLocation(f, value), s);
      r.suggestions == [] &&
      exists i :: 0 <= i < |f.locationTypes| && f.locationTypes[i].name == r.data.location
  {
  }
}
