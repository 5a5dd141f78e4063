/** The REST endpoints of the group picker: `Api::get_groups` reads a post's
    viewer groups back together with the group registry, and
    `Api::update_groups` stores a submission after dropping every id the
    registry does not know. The registry is the
    `content_visibility_default_groups` filter's result, a parameter here. */
module Api {
  import opened Wrappers
  import opened PostMeta

  /** One registry entry, `array( 'id' => ..., 'name' => ... )`. */
  datatype GroupOption = GroupOption(id: string, name: string)

  /** The answer of `get_groups`; `selectedGroupIds` is None when the post
      has no row (PHP sends an empty string or false there). */
  datatype GroupsReply = GroupsReply(groupOptions: seq<GroupOption>, selectedGroupIds: Option<seq<string>>)

  /** `wp_list_pluck( $default_groups, 'id' )`: a string is among the ids
      exactly when some registry entry carries it, and the ids come in
      registry order. */
  function RegistryIds(registry: seq<GroupOption>): (ids: seq<string>)
    ensures forall g :: g in ids <==> exists e :: e in registry && e.id == g
    ensures |ids| == |registry|
    ensures forall i :: 0 <= i < |registry| ==> ids[i] == registry[i].id
  {
    var ids := seq(|registry|, i requires 0 <= i < |registry| => registry[i].id);
    assert forall g :: g in ids ==> exists e :: e in registry && e.id == g by {
      forall g | g in ids
        ensures exists e :: e in registry && e.id == g
      {
        var i :| 0 <= i < |ids| && ids[i] == g;
        assert registry[i] in registry;
      }
    }
    assert forall e :: e in registry ==> e.id in ids by {
      forall e | e in registry
        ensures e.id in ids
      {
        var i :| 0 <= i < |registry| && registry[i] == e;
        assert ids[i] == e.id;
      }
    }
    ids
  }

  /** The submitted ids that are registry ids (strict, case-sensitive
      comparison), in submission order. */
  function FilterRegistered(submitted: seq<string>, ids: seq<string>): (saved: seq<string>)
    decreases |submitted|
  {
    if submitted == [] then []
    else
      var last := submitted[|submitted| - 1];
      FilterRegistered(submitted[..|submitted| - 1], ids) + (if last in ids then [last] else [])
  }

  /** Every saved id is a registry id, and every submitted registry id is
      saved as many times as it was submitted. */
  lemma {:induction false} FilterRegisteredCounts(submitted: seq<string>, ids: seq<string>, g: string)
    ensures multiset(FilterRegistered(submitted, ids))[g] == if g in ids then multiset(submitted)[g] else 0
    decreases |submitted|
  {
    if submitted != [] {
      var p := submitted[..|submitted| - 1];
      FilterRegisteredCounts(p, ids, g);
      assert submitted == p + [submitted[|submitted| - 1]];
    }
  }

  /** The filter keeps only registry ids. */
  lemma FilterRegisteredSound(submitted: seq<string>, ids: seq<string>)
    ensures forall g :: g in FilterRegistered(submitted, ids) ==> g in ids && g in submitted
  {
  }

  /** The filter works id by id, so it keeps submission order: filtering a
      concatenation is concatenating the filtered parts. */
  lemma {:induction false} FilterRegisteredAppend(a: seq<string>, b: seq<string>, ids: seq<string>)
    ensures FilterRegistered(a + b, ids) == FilterRegistered(a, ids) + FilterRegistered(b, ids)
    decreases |b|
  {
    if b == [] {
      assert a + b == a;
    } else {
      var q := b[..|b| - 1];
      FilterRegisteredAppend(a, q, ids);
      assert (a + b)[..|a + b| - 1] == a + q;
    }
  }

  /** Filtering an already filtered list changes nothing. */
  lemma {:induction false} FilterRegisteredIdempotent(submitted: seq<string>, ids: seq<string>)
    ensures FilterRegistered(FilterRegistered(submitted, ids), ids) == FilterRegistered(submitted, ids)
    decreases |submitted|
  {
    if submitted != [] {
      var p := submitted[..|submitted| - 1];
      var last := submitted[|submitted| - 1];
      FilterRegisteredIdempotent(p, ids);
      var kept := if last in ids then [last] else [];
      FilterRegisteredAppend(FilterRegistered(p, ids), kept, ids);
      if last in ids {
        assert FilterRegistered([last], ids) == FilterRegistered([], ids) + [last];
      }
    }
  }

  /** Nothing is saved exactly when no submitted id is in the registry. */
  lemma FilterRegisteredEmpty(submitted: seq<string>, ids: seq<string>)
    ensures FilterRegistered(submitted, ids) == [] <==> forall g :: g in submitted ==> g !in ids
  {
  }

  /** `get_groups`: the registry and the post's stored list. A missing or
      zero `postId` is falsy in PHP and reads no row. */
  function GetGroups(registry: seq<GroupOption>, entries: map<int, seq<string>>, postId: Option<int>): (reply: GroupsReply)
    ensures reply.groupOptions == registry
    ensures postId.None? || postId.value == 0 ==> reply.selectedGroupIds.None?
    ensures postId.Some? && postId.value != 0 ==> reply.selectedGroupIds == Lookup(entries, postId.value)
  {
    if postId.None? || postId.value == 0 then GroupsReply(registry, None)
    else GroupsReply(registry, Lookup(entries, postId.value))
  }

  /** `update_groups`: `postIdParam` and `selectedParam` are the request's
      `post_id` and `selected_groups` (defaults 0 and an empty list). */
  method UpdateGroups(store: MetaTable, registry: seq<GroupOption>, postIdParam: Option<int>,
                      selectedParam: Option<seq<string>>)
    requires store.key == ViewerGroupsKey
    modifies store
    ensures var postId := if postIdParam.Some? then postIdParam.value else 0;
      var submitted := if selectedParam.Some? then selectedParam.value else [];
      store.entries == DeleteOrUpdate(old(store.entries), postId, FilterRegistered(submitted, RegistryIds(registry)))
  {
    var postId := if postIdParam.Some? then postIdParam.value else 0;
    var submitted := if selectedParam.Some? then selectedParam.value else [];
    var defaultGroupIds := RegistryIds(registry);
    var saveGroups: seq<string> := [];
    for i := 0 to |submitted|
      invariant saveGroups == FilterRegistered(submitted[..i], defaultGroupIds)
    {
      assert submitted[..i + 1][..i] == submitted[..i];
      if submitted[i] in defaultGroupIds {
        saveGroups := saveGroups + [submitted[i]];
      }
    }
    assert submitted[..|submitted|] == submitted;
    if saveGroups == [] {
      store.Delete(postId);
    } else {
      store.Update(postId, saveGroups);
    }
  }

  /** Saving a submission whose ids are all unknown deletes the post's row,
      like saving nothing; other posts' rows stay as they were. */
  lemma AllUnknownDeletes(entries: map<int, seq<string>>, postId: int, submitted: seq<string>, ids: seq<string>)
    requires forall g :: g in submitted ==> g !in ids
    ensures postId !in DeleteOrUpdate(entries, postId, FilterRegistered(submitted, ids))
    ensures DeleteOrUpdate(entries, postId, FilterRegistered(submitted, ids)) == DeleteOrUpdate(entries, postId, [])
  {
  }

  /** Saving the same submission twice leaves the store as saving it once,
      and so does saving again what was stored. */
  lemma SaveIdempotent(entries: map<int, seq<string>>, postId: int, submitted: seq<string>, ids: seq<string>)
    ensures var saved := FilterRegistered(submitted, ids);
      var once := DeleteOrUpdate(entries, postId, saved);
      && DeleteOrUpdate(once, postId, saved) == once
      && DeleteOrUpdate(once, postId, FilterRegistered(saved, ids)) == once
  {
    FilterRegisteredIdempotent(submitted, ids);
  }

  /** After a save that keeps at least one id, reading the post back gives
      the registry and exactly the filtered submission. */
  lemma SaveThenGet(entries: map<int, seq<string>>, registry: seq<GroupOption>, postId: int, submitted: seq<string>)
    requires postId != 0
    requires FilterRegistered(submitted, RegistryIds(registry)) != []
    ensures var saved := FilterRegistered(submitted, RegistryIds(registry));
      GetGroups(registry, DeleteOrUpdate(entries, postId, saved), Some(postId)) == GroupsReply(registry, Some(saved))
  {
  }

  /** A submission of one registered and one unknown id stores only the
      registered one. */
  lemma UnknownIdDroppedScenario()
    ensures FilterRegistered(["site-member", "bogus-id"], RegistryIds([GroupOption("site-member", "Site members")])) == ["site-member"]
  {
    var ids := RegistryIds([GroupOption("site-member", "Site members")]);
    assert ids == ["site-member"];
    assert ["site-member", "bogus-id"][..1] == ["site-member"];
    assert ["site-member"][..0] == [];
  }
}
