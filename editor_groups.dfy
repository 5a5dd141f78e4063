/** The `user_has_cap` filter that gives members of a page's Active Directory
    editor groups the right to edit that page (`ad_groups_edit_page`). The
    host's lookups are parameters: the current post `get_post()` returned
    (its id), the rows of `_ad_editor_groups`, the user's
    `_wsuwp_sso_user_type` metadata and the user's AD groups. */
module EditorGroups {
  import opened Wrappers
  import opened PostMeta

  /** The fields of a `WP_User` the filter reads. */
  datatype User = User(id: int, roles: seq<string>)

  /** The capabilities checked individually for users who are not
      administrators or editors. */
  const PageChecks: seq<string> := ["edit_post", "edit_page", "publish_pages", "edit_others_pages"]

  /** The capabilities a page's editor group grants. */
  const PageEditCaps: seq<string> := ["edit_post", "edit_page", "publish_pages", "edit_others_pages", "edit_published_pages"]

  /** `array_intersect( array( 'administrator', 'editor' ), $user->roles )` is non-empty. */
  predicate CanCreatePages(roles: seq<string>)
  {
    "administrator" in roles || "editor" in roles
  }

  /** `array_intersect( $a, $b )` is non-empty. */
  predicate Intersects(a: seq<string>, b: seq<string>)
  {
    exists g :: g in a && g in b
  }

  /** All the conditions under which the five edit capabilities are granted. */
  predicate PageEditGranted(requested: string, user: User, currentPost: Option<int>,
                            adEditorGroups: map<int, seq<string>>, userType: string, userAdGroups: seq<string>)
  {
    && !CanCreatePages(user.roles)
    && requested in PageChecks
    && currentPost.Some?
    && !IsEmptyMeta(Lookup(adEditorGroups, currentPost.value))
    && userType == "nid"
    && Intersects(adEditorGroups[currentPost.value], userAdGroups)
  }

  /** The keys of `m` whose entry differs in `m'` or is missing from it. */
  function ChangedKeys(m: map<string, bool>, m': map<string, bool>): (changed: set<string>)
  {
    set k | k in m' && (k !in m || m[k] != m'[k])
  }

  /** The filter's answer: `requested` is `$args[0]`, `allcaps` the user's
      capabilities. */
  method AdGroupsEditPage(allcaps: map<string, bool>, requested: string, user: User, currentPost: Option<int>,
                          adEditorGroups: map<int, seq<string>>, userType: string, userAdGroups: seq<string>)
    returns (r: map<string, bool>)
    ensures requested == "create_pages" ==>
      r == if CanCreatePages(user.roles) then allcaps["create_pages" := true] else allcaps
    ensures requested == "edit_pages" ==> r == allcaps["edit_pages" := true]
    ensures requested != "create_pages" && requested != "edit_pages" ==>
      if PageEditGranted(requested, user, currentPost, adEditorGroups, userType, userAdGroups)
      then r.Keys == allcaps.Keys + (set k | k in PageEditCaps)
           && (forall k :: k in PageEditCaps ==> r[k])
           && (forall k :: k in allcaps && k !in PageEditCaps ==> r[k] == allcaps[k])
      else r == allcaps
    ensures allcaps.Keys <= r.Keys
    ensures forall k :: k in ChangedKeys(allcaps, r) ==> r[k]
    ensures "create_pages" in ChangedKeys(allcaps, r) ==> CanCreatePages(user.roles)
    ensures ChangedKeys(allcaps, r) <=
      if requested == "create_pages" then {"create_pages"}
      else if requested == "edit_pages" then {"edit_pages"}
      else set k | k in PageEditCaps
  {
    var userCanCreatePages := CanCreatePages(user.roles);
    r := allcaps;
    if requested == "create_pages" {
      if userCanCreatePages {
        r := r["create_pages" := true];
      }
      return;
    }
    if requested == "edit_pages" {
      r := r["edit_pages" := true];
      return;
    }
    if !userCanCreatePages && requested in PageChecks {
      if currentPost.None? {
        return;
      }
      var pageAdGroups := Lookup(adEditorGroups, currentPost.value);
      if IsEmptyMeta(pageAdGroups) {
        return;
      }
      if userType != "nid" {
        return;
      }
      if !Intersects(pageAdGroups.value, userAdGroups) {
        return;
      }
      r := r["edit_post" := true];
      r := r["edit_page" := true];
      r := r["publish_pages" := true];
      r := r["edit_others_pages" := true];
      r := r["edit_published_pages" := true];
      return;
    }
  }
}
