/** How the REST save and the read decision meet in the host's metadata:
    the save writes `_content_visibility_viewer_groups`, the decision reads
    `_content_visibility_groups`. The functions here compose the two over
    the metadata of every key, once as the source is written and once with
    the decision reading the key the save writes. */
module SiteVisibility {
  import opened Wrappers
  import opened PostMeta
  import opened CapsRewrite
  import opened ReadDecision
  import opened Api

  /** The post metadata of all keys: key, then post id, then stored list. */
  type AllMeta = map<string, map<int, seq<string>>>

  /** The rows stored under one key. */
  function Rows(meta: AllMeta, key: string): (rows: map<int, seq<string>>)
    ensures key !in meta ==> rows == map[]
    ensures key in meta ==> rows == meta[key]
  {
    if key in meta then meta[key] else map[]
  }

  /** The metadata after `Api::update_groups` for `postId` with `submitted`
      (the state `UpdateGroups` leaves in the table of its key). */
  function RestSave(meta: AllMeta, registry: seq<GroupOption>, postId: int, submitted: seq<string>): (after: AllMeta)
    ensures Rows(after, ViewerGroupsKey) == DeleteOrUpdate(Rows(meta, ViewerGroupsKey), postId, FilterRegistered(submitted, RegistryIds(registry)))
    ensures forall key :: key != ViewerGroupsKey ==> Rows(after, key) == Rows(meta, key)
  {
    meta[ViewerGroupsKey := DeleteOrUpdate(Rows(meta, ViewerGroupsKey), postId, FilterRegistered(submitted, RegistryIds(registry)))]
  }

  /** The read decision as the source wires it: from the rows of
      `_content_visibility_groups`. */
  function ReadAsWritten(caps: seq<string>, cap: string, userId: int, post: Option<Post>, meta: AllMeta,
                         userInGroups: (bool, int, seq<string>) -> bool, typeCaps: PostTypeCaps): (r: seq<string>)
  {
    AllowReadPrivatePosts(caps, cap, userId, post, Rows(meta, GroupsKey), userInGroups, typeCaps)
  }

  /** The read decision reading the key that the REST save and the tests
      write, `_content_visibility_viewer_groups`. */
  function ReadCorrected(caps: seq<string>, cap: string, userId: int, post: Option<Post>, meta: AllMeta,
                         userInGroups: (bool, int, seq<string>) -> bool, typeCaps: PostTypeCaps): (r: seq<string>)
  {
    AllowReadPrivatePosts(caps, cap, userId, post, Rows(meta, ViewerGroupsKey), userInGroups, typeCaps)
  }

  /** As written, groups saved through the REST endpoint never reach the
      decision: unless something else wrote the other key for the post, the
      capabilities come back unchanged whatever the membership filter says. */
  lemma RestSavedGroupsIgnoredAsWritten(caps: seq<string>, cap: string, userId: int, post: Post, meta: AllMeta,
                                        registry: seq<GroupOption>, submitted: seq<string>,
                                        userInGroups: (bool, int, seq<string>) -> bool, typeCaps: PostTypeCaps)
    requires post.id !in Rows(meta, GroupsKey)
    ensures ReadAsWritten(caps, cap, userId, Some(post), RestSave(meta, registry, post.id, submitted), userInGroups, typeCaps) == caps
  {
  }

  /** Corrected, a save that keeps at least one registry id admits every
      non-author viewer the membership filter accepts for that list: they
      are given the plain read capability and lose the private one. */
  lemma RestSavedGroupsAdmitCorrected(caps: seq<string>, cap: string, userId: int, post: Post, meta: AllMeta,
                                      registry: seq<GroupOption>, submitted: seq<string>,
                                      userInGroups: (bool, int, seq<string>) -> bool, typeCaps: PostTypeCaps)
    requires IsReadCheck(cap) && post.status == "private" && post.author != userId
    requires typeCaps.read != typeCaps.readPrivatePosts
    requires FilterRegistered(submitted, RegistryIds(registry)) != []
    requires userInGroups(false, userId, FilterRegistered(submitted, RegistryIds(registry)))
    ensures var r := ReadCorrected(caps, cap, userId, Some(post), RestSave(meta, registry, post.id, submitted), userInGroups, typeCaps);
      typeCaps.read in r && typeCaps.readPrivatePosts !in r
  {
    var after := RestSave(meta, registry, post.id, submitted);
    assert Admitted(cap, userId, Some(post), Rows(after, ViewerGroupsKey), userInGroups);
    AdmittedViewerCanRead(caps, cap, userId, Some(post), Rows(after, ViewerGroupsKey), userInGroups, typeCaps);
  }

  /** The metadata of the contributor scenario: `["group1"]` stored for post
      1 under `_content_visibility_viewer_groups`, nothing else. */
  function ScenarioMeta(): (meta: AllMeta)
  {
    map[ViewerGroupsKey := map[1 := ["group1"]]]
  }

  /** As written, the contributor scenario keeps `["read_private_posts"]`,
      where the expected answer is `["read"]`. */
  lemma ContributorScenarioAsWritten()
    ensures ReadAsWritten(["read_private_posts"], "read_post", 7, Some(Post(1, "private", 42)), ScenarioMeta(),
                          (seed: bool, user: int, groups: seq<string>) => true,
                          PostTypeCaps("read", "read_private_posts")) == ["read_private_posts"]
  {
  }

  /** Corrected, the contributor scenario gives `["read"]`. */
  lemma ContributorScenarioCorrected()
    ensures ReadCorrected(["read_private_posts"], "read_post", 7, Some(Post(1, "private", 42)), ScenarioMeta(),
                          (seed: bool, user: int, groups: seq<string>) => true,
                          PostTypeCaps("read", "read_private_posts")) == ["read"]
  {
  }
}
