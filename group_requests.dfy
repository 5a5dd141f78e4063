/** The three AJAX handlers behind the viewer-group picker:
    `ajax_get_groups` (the groups assigned to a post, as detail records),
    `ajax_set_groups` (store a submitted list) and `ajax_search_groups`
    (validate the search text and mark which results are assigned). Nonce
    checks and JSON transport are left to the host; each handler returns the
    `Reply` it would send. */
module GroupRequests {
  import opened Wrappers
  import opened PhpValues
  import opened PostMeta

  const InvalidPostMessage := "Invalid post ID."
  const NoChangesMessage := "No changes."
  const SavedMessage := "Changes saved."
  const EmptySearchMessage := "Empty search text was submitted."
  const ShortSearchMessage := "Please provide more than one character."

  /** The key that marks a record as assigned, and its value when it is. */
  const SelectedClassKey := "selected_class"
  const SelectedClass := "visibility-group-selected"

  /** The two checks on the sanitized search text, in the source's order:
      `empty()` first, then `mb_strlen( $search_text ) === 1`. A Dafny
      `char` is one Unicode code point, as `mb_strlen` counts. */
  function SearchTextError(text: string): (e: Option<string>)
    ensures e == Some(EmptySearchMessage) <==> text == "" || text == "0"
    ensures e == Some(ShortSearchMessage) <==> |text| == 1 && text != "0"
    ensures e.None? <==> |text| >= 2
  {
    if !Truthy(text) then Some(EmptySearchMessage)
    else if |text| == 1 then Some(ShortSearchMessage)
    else None
  }

  /** The post's current groups as the search compares them: none for post
      0, otherwise `(array) get_post_meta( ... )`. A missing row reads as ''
      and `(array) ''` is `array( '' )`. So for post 0 no record is
      selected, for a post with a row a record is selected exactly when its id
      is in the row, and for a post without one exactly when its id is the
      empty string. */
  function CurrentGroups(postId: nat, meta: map<int, seq<string>>): (current: seq<string>)
    ensures postId == 0 ==> forall g :: !IdIn(g, current)
    ensures postId != 0 && postId in meta ==> forall g :: IdIn(g, current) <==> IdIn(g, meta[postId])
    ensures postId != 0 && postId !in meta ==> forall g :: IdIn(g, current) <==> "id" in g && g["id"] == Str("")
  {
    if postId == 0 then []
    else match Lookup(meta, postId)
      case None => [""]
      case Some(groups) => groups
  }

  /** `in_array( $group['id'], $current, true )`: the record has a string id
      that is one of the current groups. A missing id reads as null, which
      is never strictly equal to a string. */
  predicate IdIn(group: Record, current: seq<string>)
  {
    "id" in group && group["id"].Str? && group["id"].s in current
  }

  /** `r` is `groups` with each record's `selected_class` set: same count and
      order, every other field kept, and the class present exactly for the
      records whose id is among `current`. */
  predicate IsAnnotationOf(r: seq<Record>, groups: seq<Record>, current: seq<string>)
  {
    && |r| == |groups|
    && forall i :: 0 <= i < |r| ==>
      && r[i] - {SelectedClassKey} == groups[i] - {SelectedClassKey}
      && SelectedClassKey in r[i]
      && r[i][SelectedClassKey] == Str(if IdIn(groups[i], current) then SelectedClass else "")
  }

  /** The annotation loop of `ajax_search_groups`. */
  method AnnotateSearchResults(groups: seq<Record>, current: seq<string>) returns (r: seq<Record>)
    ensures IsAnnotationOf(r, groups, current)
  {
    r := [];
    for i := 0 to |groups|
      invariant IsAnnotationOf(r, groups[..i], current)
    {
      var group := groups[i];
      group := group[SelectedClassKey := Str(if IdIn(group, current) then SelectedClass else "")];
      assert group - {SelectedClassKey} == groups[i] - {SelectedClassKey};
      r := r + [group];
    }
    assert groups[..|groups|] == groups;
  }

  /** `ajax_search_groups`. `sanitize` stands for `sanitize_text_field`,
      `search` for the `content_visibility_group_search` filter, called with
      the search text and the post id; result caching is not modelled. */
  method AjaxSearchGroups(rawText: string, sanitize: string -> string, rawPostId: int,
                          meta: map<int, seq<string>>, search: (string, nat) -> seq<Record>)
    returns (reply: Reply<seq<Record>>)
    ensures SearchTextError(sanitize(rawText)).Some? ==> reply == Error(SearchTextError(sanitize(rawText)).value)
    ensures SearchTextError(sanitize(rawText)).None? ==>
      && reply.Success?
      && IsAnnotationOf(reply.data, search(sanitize(rawText), Absint(rawPostId)), CurrentGroups(Absint(rawPostId), meta))
  {
    var searchText := sanitize(rawText);
    var error := SearchTextError(searchText);
    if error.Some? {
      return Error(error.value);
    }
    var postId := Absint(rawPostId);
    var current := CurrentGroups(postId, meta);
    var groups := search(searchText, postId);
    var annotated := AnnotateSearchResults(groups, current);
    reply := Success(annotated);
  }

  /** Two search results for a post without a group row: the current list
      is `[""]`, so neither result is marked selected and each gains an empty
      `selected_class`; the first result's member list is passed through. */
  lemma UnassignedSearchScenario()
    ensures IsAnnotationOf(
      [map["id" := Str("test_group_1"), "display_name" := Str("Test Group 1"), "member_count" := Int(1),
           "member_list" := List([Str("user_id_1"), Str("user_id_2")]), "selected_class" := Str("")],
       map["id" := Str("test_group_2"), "selected_class" := Str("")]],
      [map["id" := Str("test_group_1"), "display_name" := Str("Test Group 1"), "member_count" := Int(1),
           "member_list" := List([Str("user_id_1"), Str("user_id_2")])],
       map["id" := Str("test_group_2")]],
      CurrentGroups(5, map[]))
  {
  }

  /** The record built for an assigned group before the
      `content_visibility_group_details` filter runs. */
  function BasicDetails(group: string): (details: Record)
    ensures details.Keys == {"id", "display_name", "member_count", "member_list"}
    ensures details["id"] == Str(group) && details["display_name"] == Str(group)
    ensures details["member_count"] == Str("") && details["member_list"] == Str("")
  {
    map["id" := Str(group), "display_name" := Str(group), "member_count" := Str(""), "member_list" := Str("")]
  }

  /** The record returned for an assigned group: the filtered details with
      the selected class forced on. */
  function AssignedDetails(group: string, detailsFilter: Record -> Record): (details: Record)
    ensures SelectedClassKey in details && details[SelectedClassKey] == Str(SelectedClass)
    ensures details - {SelectedClassKey} == detailsFilter(BasicDetails(group)) - {SelectedClassKey}
  {
    var filtered := detailsFilter(BasicDetails(group));
    assert filtered[SelectedClassKey := Str(SelectedClass)] - {SelectedClassKey} == filtered - {SelectedClassKey};
    filtered[SelectedClassKey := Str(SelectedClass)]
  }

  /** `ajax_get_groups`: the post id must be non-zero after `absint`; a post
      without groups gives an empty list; otherwise one detail record per
      stored group, in stored order. */
  method AjaxGetGroups(rawPostId: int, meta: map<int, seq<string>>, detailsFilter: Record -> Record)
    returns (reply: Reply<seq<Record>>)
    ensures Absint(rawPostId) == 0 ==> reply == Error(InvalidPostMessage)
    ensures Absint(rawPostId) != 0 && IsEmptyMeta(Lookup(meta, Absint(rawPostId))) ==> reply == Success([])
    ensures Absint(rawPostId) != 0 && !IsEmptyMeta(Lookup(meta, Absint(rawPostId))) ==>
      && reply.Success?
      && |reply.data| == |meta[Absint(rawPostId)]|
      && forall i :: 0 <= i < |reply.data| ==> reply.data[i] == AssignedDetails(meta[Absint(rawPostId)][i], detailsFilter)
  {
    var postId := Absint(rawPostId);
    if postId == 0 {
      return Error(InvalidPostMessage);
    }
    var stored := Lookup(meta, postId);
    if IsEmptyMeta(stored) {
      return Success([]);
    }
    var groups := stored.value;
    var returnGroups: seq<Record> := [];
    for i := 0 to |groups|
      invariant |returnGroups| == i
      invariant forall j :: 0 <= j < i ==> returnGroups[j] == AssignedDetails(groups[j], detailsFilter)
    {
      var details := detailsFilter(BasicDetails(groups[i]));
      details := details[SelectedClassKey := Str(SelectedClass)];
      returnGroups := returnGroups + [details];
    }
    reply := Success(returnGroups);
  }

  /** With no details filter, an assigned group's record carries the group's
      name as id and display name, empty member fields and the selected class. */
  lemma UnfilteredDetailsScenario()
    ensures AssignedDetails("saved_group_1", (details: Record) => details)
      == map["id" := Str("saved_group_1"), "display_name" := Str("saved_group_1"),
             "member_count" := Str(""), "member_list" := Str(""),
             "selected_class" := Str("visibility-group-selected")]
  {
  }

  /** `array_filter( $values, 'sanitize_text_field' )`: the ORIGINAL values
      whose sanitized form is truthy, in order. */
  function KeepSanitized(values: seq<string>, sanitize: string -> string): (kept: seq<string>)
    ensures forall v :: v in kept ==> v in values && Truthy(sanitize(v))
    decreases |values|
  {
    if values == [] then []
    else (if Truthy(sanitize(values[0])) then [values[0]] else []) + KeepSanitized(values[1..], sanitize)
  }

  /** Each value with a truthy sanitized form is kept as often as it was
      submitted; every other value is dropped. */
  lemma {:induction false} KeepSanitizedCounts(values: seq<string>, sanitize: string -> string, v: string)
    ensures multiset(KeepSanitized(values, sanitize))[v] == if Truthy(sanitize(v)) then multiset(values)[v] else 0
    decreases |values|
  {
    if values != [] {
      KeepSanitizedCounts(values[1..], sanitize, v);
      assert values == [values[0]] + values[1..];
    }
  }

  /** Filtering works value by value, so the kept values stay in submission
      order: filtering a concatenation is concatenating the filtered parts. */
  lemma {:induction false} KeepSanitizedAppend(a: seq<string>, b: seq<string>, sanitize: string -> string)
    ensures KeepSanitized(a + b, sanitize) == KeepSanitized(a, sanitize) + KeepSanitized(b, sanitize)
    decreases |a|
  {
    if a != [] {
      assert (a + b)[0] == a[0] && (a + b)[1..] == a[1..] + b;
      KeepSanitizedAppend(a[1..], b, sanitize);
    } else {
      assert a + b == b;
    }
  }

  /** `ajax_set_groups`: `rawPostId` and `submitted` are the request's
      `post_id` and `visibility_groups` fields (None when not sent). The
      filtered list is stored as it is, even when it is empty, and without
      any check against a registry. */
  method AjaxSetGroups(store: MetaTable, rawPostId: Option<int>, submitted: Option<seq<string>>,
                       sanitize: string -> string)
    returns (reply: Reply<string>)
    requires store.key == GroupsKey
    modifies store
    ensures rawPostId.None? || Absint(rawPostId.value) == 0 ==>
      reply == Error(InvalidPostMessage) && store.entries == old(store.entries)
    ensures rawPostId.Some? && Absint(rawPostId.value) != 0 && (submitted.None? || submitted.value == []) ==>
      reply == Success(NoChangesMessage) && store.entries == old(store.entries)
    ensures rawPostId.Some? && Absint(rawPostId.value) != 0 && submitted.Some? && submitted.value != [] ==>
      && reply == Success(SavedMessage)
      && store.entries == old(store.entries)[Absint(rawPostId.value) := KeepSanitized(submitted.value, sanitize)]
  {
    if rawPostId.None? || Absint(rawPostId.value) == 0 {
      return Error(InvalidPostMessage);
    }
    if submitted.None? || submitted.value == [] {
      return Success(NoChangesMessage);
    }
    var postId := Absint(rawPostId.value);
    var groupIds := KeepSanitized(submitted.value, sanitize);
    store.Update(postId, groupIds);
    reply := Success(SavedMessage);
  }
}
