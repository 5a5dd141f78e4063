/** The `map_meta_cap` filter that lets members of a private post's viewer
    groups read it (`allow_read_private_posts`). The host's lookups are
    parameters: the post `get_post` returned, the rows of the group-list
    metadata key, the `user_in_content_visibility_groups` filter, and the
    capability names of the post's type from `get_post_type_object`. */
module ReadDecision {
  import opened Wrappers
  import opened PostMeta
  import opened CapsRewrite

  /** The fields of a `WP_Post` the decision reads; `author` is
      `(int) $post->post_author`. */
  datatype Post = Post(id: int, status: string, author: int)

  /** `$post_type->cap->read` and `$post_type->cap->read_private_posts`. */
  datatype PostTypeCaps = PostTypeCaps(read: string, readPrivatePosts: string)

  /** The capabilities the filter acts on. PHP's `isset( $caps['read_post'] )`
      is false for a list-valued `$caps`, so only the name matters. */
  predicate IsReadCheck(cap: string)
  {
    cap == "read_post" || cap == "read_page"
  }

  /** Every gate of the filter is passed: a read check on a loaded private
      post by someone other than its author, with a non-empty group list,
      and the membership filter, seeded with `false`, answers yes. */
  predicate Admitted(cap: string, userId: int, post: Option<Post>, groupsMeta: map<int, seq<string>>,
                     userInGroups: (bool, int, seq<string>) -> bool)
  {
    && IsReadCheck(cap)
    && post.Some? && post.value.status == "private"
    && post.value.author != userId
    && !IsEmptyMeta(Lookup(groupsMeta, post.value.id))
    && userInGroups(false, userId, groupsMeta[post.value.id])
  }

  /** The capability list the filter returns. */
  function AllowReadPrivatePosts(caps: seq<string>, cap: string, userId: int, post: Option<Post>,
                                 groupsMeta: map<int, seq<string>>,
                                 userInGroups: (bool, int, seq<string>) -> bool,
                                 typeCaps: PostTypeCaps): (r: seq<string>)
    ensures !IsReadCheck(cap) ==> r == caps
    ensures post.None? ==> r == caps
    ensures post.Some? && post.value.status != "private" ==> r == caps
    ensures post.Some? && post.value.author == userId ==> r == caps
    ensures post.Some? && IsEmptyMeta(Lookup(groupsMeta, post.value.id)) ==> r == caps
    ensures post.Some? && post.value.id in groupsMeta && !userInGroups(false, userId, groupsMeta[post.value.id]) ==> r == caps
    ensures Admitted(cap, userId, post, groupsMeta, userInGroups) ==> r == RewrittenCaps(caps, typeCaps.readPrivatePosts, typeCaps.read)
  {
    if !IsReadCheck(cap) then caps
    else if post.None? || post.value.status != "private" then caps
    else if post.value.author == userId then caps
    else
      var groups := Lookup(groupsMeta, post.value.id);
      if IsEmptyMeta(groups) then caps
      else if !userInGroups(false, userId, groups.value) then caps
      else RewrittenCaps(caps, typeCaps.readPrivatePosts, typeCaps.read)
  }

  /** The filter changes the list exactly when every gate is passed (for a
      post type whose two read capabilities are distinct). */
  lemma ChangesIffAdmitted(caps: seq<string>, cap: string, userId: int, post: Option<Post>,
                           groupsMeta: map<int, seq<string>>,
                           userInGroups: (bool, int, seq<string>) -> bool, typeCaps: PostTypeCaps)
    requires typeCaps.read != typeCaps.readPrivatePosts
    ensures AllowReadPrivatePosts(caps, cap, userId, post, groupsMeta, userInGroups, typeCaps) != caps
            <==> Admitted(cap, userId, post, groupsMeta, userInGroups)
  {
    if Admitted(cap, userId, post, groupsMeta, userInGroups) {
      RewriteChangesCaps(caps, typeCaps.readPrivatePosts, typeCaps.read);
    }
  }

  /** An admitted viewer is given the plain read capability and loses the
      private one. */
  lemma AdmittedViewerCanRead(caps: seq<string>, cap: string, userId: int, post: Option<Post>,
                              groupsMeta: map<int, seq<string>>,
                              userInGroups: (bool, int, seq<string>) -> bool, typeCaps: PostTypeCaps)
    requires typeCaps.read != typeCaps.readPrivatePosts
    requires Admitted(cap, userId, post, groupsMeta, userInGroups)
    ensures var r := AllowReadPrivatePosts(caps, cap, userId, post, groupsMeta, userInGroups, typeCaps);
      typeCaps.read in r && typeCaps.readPrivatePosts !in r
  {
    RewriteGrantsRead(caps, typeCaps.readPrivatePosts, typeCaps.read);
  }

  /** With no callback on the membership filter it returns its seed `false`,
      so nobody but the host's own rules can read a private post: there is
      no built-in group. */
  lemma UnfilteredMembershipDenies(caps: seq<string>, cap: string, userId: int, post: Option<Post>,
                                   groupsMeta: map<int, seq<string>>, typeCaps: PostTypeCaps)
    ensures AllowReadPrivatePosts(caps, cap, userId, post, groupsMeta, (seed: bool, user: int, groups: seq<string>) => seed, typeCaps) == caps
  {
  }

  /** The contributor scenario: a private post of author 42 whose group list
      is `["group1"]`, read by user 7 whom the filter admits, with the
      caps `["read_private_posts"]`, yields `["read"]`. */
  lemma AdmittedContributorScenario()
    ensures AllowReadPrivatePosts(["read_private_posts"], "read_post", 7, Some(Post(1, "private", 42)),
                                  map[1 := ["group1"]], (seed: bool, user: int, groups: seq<string>) => true,
                                  PostTypeCaps("read", "read_private_posts")) == ["read"]
  {
  }
}
