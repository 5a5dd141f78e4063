/** The host's post-metadata store, for one metadata key. The plugin keeps
    group lists under several keys (`_content_visibility_groups`,
    `_content_visibility_viewer_groups`, `_ad_editor_groups`); each key is
    one table. */
module PostMeta {
  import opened Wrappers

  /** The key the read decision and the AJAX handlers use. */
  const GroupsKey := "_content_visibility_groups"

  /** The key the REST endpoints use. */
  const ViewerGroupsKey := "_content_visibility_viewer_groups"

  /** `get_post_meta( $post_id, $key, true )`: the stored list, or None when
      the post has no row under this key (PHP then returns ''). */
  function Lookup(entries: map<int, seq<string>>, postId: int): (r: Option<seq<string>>)
    ensures r.Some? <==> postId in entries
    ensures r.Some? ==> r.value == entries[postId]
  {
    if postId in entries then Some(entries[postId]) else None
  }

  /** A read after `update_post_meta` sees the new list for that post and
      the old rows everywhere else. */
  lemma LookupAfterUpdate(entries: map<int, seq<string>>, postId: int, groups: seq<string>, other: int)
    ensures Lookup(entries[postId := groups], other) == if other == postId then Some(groups) else Lookup(entries, other)
  {
  }

  /** A read after `delete_post_meta` finds no row for that post and the
      old rows everywhere else. */
  lemma LookupAfterDelete(entries: map<int, seq<string>>, postId: int, other: int)
    ensures Lookup(entries - {postId}, other) == if other == postId then None else Lookup(entries, other)
  {
  }

  /** PHP's `empty()` on what `get_post_meta` returned: no row, or an empty list. */
  predicate IsEmptyMeta(stored: Option<seq<string>>)
  {
    stored.None? || stored.value == []
  }

  /** The store after "delete the row if the list is empty, otherwise
      overwrite it": the last step of a registry-validated save. */
  function DeleteOrUpdate(entries: map<int, seq<string>>, postId: int, groups: seq<string>): (r: map<int, seq<string>>)
    ensures groups == [] ==> postId !in r
    ensures groups != [] ==> postId in r && r[postId] == groups
    ensures forall p :: p != postId ==> Lookup(r, p) == Lookup(entries, p)
  {
    if groups == [] then entries - {postId} else entries[postId := groups]
  }

  /** One metadata key's rows, updated in place by `update_post_meta` and
      `delete_post_meta`. */
  class MetaTable {
    const key: string
    var entries: map<int, seq<string>>

    constructor (key: string, entries: map<int, seq<string>>)
      ensures this.key == key && this.entries == entries
    {
      this.key := key;
      this.entries := entries;
    }

    /** `update_post_meta( $post_id, $key, $groups )`: creates or replaces the row. */
    method Update(postId: int, groups: seq<string>)
      modifies this
      ensures entries == old(entries)[postId := groups]
    {
      entries := entries[postId := groups];
    }

    /** `delete_post_meta( $post_id, $key )`: removes the row if there is one. */
    method Delete(postId: int)
      modifies this
      ensures entries == old(entries) - {postId}
    {
      entries := entries - {postId};
    }
  }
}
