# WSUWP Content Visibility — a verified model of its access rules

WSUWP Content Visibility is a WordPress plugin. It lets viewer groups read a
private post, and it lets a page's Active Directory editor groups edit that
page. This project models the plugin's decision logic and its group
bookkeeping in Dafny and proves properties of the model:

- **Private-post read decision** (`allow_read_private_posts`, a `map_meta_cap`
  filter). Several gates return the capability list unchanged. Once every gate
  is passed, the post type's `read_private_posts` capability is replaced by its
  `read` capability (module `ReadDecision`). The list rewrite itself is a
  method that follows the source step by step: `array_keys`, then either a reset
  to `[read]` or `unset` of every key, an append and `array_values` (module
  `CapsRewrite`).
- **Editor-group grant** (`ad_groups_edit_page`, a `user_has_cap` filter). It
  updates the user's capability map (module `EditorGroups`).
- **Group picker requests**: the `ajax_get_groups`, `ajax_set_groups` and
  `ajax_search_groups` handlers (module `GroupRequests`), and the
  `clean_members` name splitter (module `MemberNames`).
- **REST endpoints** `Api::update_groups` and `Api::get_groups` (module `Api`).
  The save drops every id the group registry does not know. It then deletes the
  post's row or overwrites it.
- **The host's post metadata**, one table per metadata key: a class holding
  `map<int, seq<string>>` (module `PostMeta`). Module `SiteVisibility` joins the
  REST save and the read decision over the metadata of every key.

Host calls become parameters:
- `get_post` becomes an `Option<Post>`.
- `get_post_type_object` becomes the two capability names of the post's type.
- `get_post_meta` becomes the rows of a key.
- `get_user_meta` becomes the user's type string.
- `get_user_ad_groups` becomes a list.
- `sanitize_text_field`, the `user_in_content_visibility_groups` filter, the
  `content_visibility_group_details` filter and the
  `content_visibility_group_search` filter become function parameters.
- The `content_visibility_default_groups` registry becomes a list.

Where the design description and the code differ, the model follows the code:
- There is no built-in "site-member" group. The membership filter is seeded
  with `false`, so with no callback attached nobody is admitted
  (`ReadDecision.UnfilteredMembershipDenies`).
- When `read_private_posts` occurs exactly once, the code replaces the whole
  list with `[read]` and drops every other entry. Other counts keep the other
  entries (`CapsRewrite.RewriteSingleOccurrence`, `CapsRewrite.RewriteOtherCount`).
- When it occurs zero times, `read` is still appended.
- `isset( $caps['read_post'] )` is always false for a list of capabilities, so
  the filter acts on every `read_post` and `read_page` check.
- A post with no `_content_visibility_groups` row reads as `''`. The search
  handler casts this to `array( '' )`, so a search result whose id is the empty
  string is marked selected (`GroupRequests.CurrentGroups`).
- `ajax_set_groups` stores its filtered list even when the list is empty. It
  checks nothing against the registry. The REST save deletes an empty result.

## Model

| member | source | states |
|---|---|---|
| `PostMeta.LookupAfterUpdate` | includes/api.php:45 | a read after `update_post_meta` finds the new list for that post and every other post's row as before |
| `PostMeta.LookupAfterDelete` | includes/api.php:43 | a read after `delete_post_meta` finds no row for that post and every other post's row as before |
| `PostMeta.DeleteOrUpdate` | includes/api.php:42-46 | an empty list removes the post's row, a non-empty list becomes the row, and every other post reads as before |
| `PostMeta.MetaTable.Update` | includes/api.php:45 | `update_post_meta` replaces or creates the post's row and changes nothing else |
| `PostMeta.MetaTable.Delete` | includes/api.php:43 | `delete_post_meta` removes the post's row and changes nothing else |
| `PhpValues.Absint` | includes/class-wsuwp-content-visibility.php:299 | `absint` gives a non-negative number that is the input or its negation |
| `CapsRewrite.Masked` | includes/class-wsuwp-content-visibility.php:114-121 | after the unsets the holes are exactly at the positions `array_keys` returned, and every other slot keeps its value |
| `CapsRewrite.RewriteCaps` | includes/class-wsuwp-content-visibility.php:114-123 | collecting the keys, then resetting, or unsetting, appending and renumbering, yields exactly the rewritten list |
| `CapsRewrite.KeysOfMembers` | includes/class-wsuwp-content-visibility.php:114 | `array_keys( $caps, $x )` holds a position exactly when `$caps` has `x` there |
| `CapsRewrite.KeysOfCount` | includes/class-wsuwp-content-visibility.php:114-116 | the number of keys found is the number of occurrences of the capability |
| `CapsRewrite.CompactMasked` | includes/class-wsuwp-content-visibility.php:119-123 | renumbering the array after the unsets gives the list without the capability |
| `CapsRewrite.WithoutAppend` | includes/class-wsuwp-content-visibility.php:119-123 | removal distributes over concatenation, so the remaining entries keep their relative order |
| `CapsRewrite.WithoutCount` | includes/class-wsuwp-content-visibility.php:119-121 | removal drops every occurrence of the capability and keeps every other entry as often as it occurred |
| `CapsRewrite.WithoutLength` | includes/class-wsuwp-content-visibility.php:119-121 | removal shortens the list by exactly the number of occurrences of the capability |
| `CapsRewrite.RewriteSingleOccurrence` | includes/class-wsuwp-content-visibility.php:116-117 | a single occurrence of the private capability turns the whole list into exactly `[read]` |
| `CapsRewrite.RewriteOtherCount` | includes/class-wsuwp-content-visibility.php:118-124 | zero or several occurrences: the result ends with one appended `read`, and before it is the list without the private capability; read counts rise by one |
| `CapsRewrite.RewriteGrantsRead` | includes/class-wsuwp-content-visibility.php:114-124 | whatever the count, the rewritten list contains `read` and no private read capability |
| `CapsRewrite.RewriteChangesCaps` | includes/class-wsuwp-content-visibility.php:114-124 | with distinct capability names the rewrite never returns the list it was given |
| `ReadDecision.AllowReadPrivatePosts` | includes/class-wsuwp-content-visibility.php:79-128 | the list is returned unchanged for a non-read check, a missing or non-private post, the author, an empty group list, or a refusing filter; an admitted viewer gets the rewritten list |
| `ReadDecision.ChangesIffAdmitted` | includes/class-wsuwp-content-visibility.php:80-124 | the filter changes the list if and only if every gate is passed |
| `ReadDecision.AdmittedViewerCanRead` | includes/class-wsuwp-content-visibility.php:108-124 | an admitted viewer's list contains the type's read capability and not its private read capability |
| `ReadDecision.UnfilteredMembershipDenies` | includes/class-wsuwp-content-visibility.php:99-110 | with no membership callback the seed `false` stands and the list is always returned unchanged |
| `ReadDecision.AdmittedContributorScenario` | tests/test-wsuwp-content-visibility.php:55-77 | an admitted contributor with `["read_private_posts"]` on a private post with groups gets `["read"]` |
| `EditorGroups.AdGroupsEditPage` | includes/class-wsuwp-content-visibility.php:544-617 | `create_pages` is set only for administrators and editors; `edit_pages` is always set; the five edit capabilities are set only when every gate holds; nothing is revoked and no other key changes |
| `MemberNames.Explode` | includes/class-wsuwp-content-visibility.php:498-499 | `explode` gives at least one piece, no piece contains the delimiter, and every piece's characters come from the input |
| `MemberNames.ImplodeExplode` | includes/class-wsuwp-content-visibility.php:498-499 | joining the pieces with the delimiter gives back the input |
| `MemberNames.ExplodePrefix` | includes/class-wsuwp-content-visibility.php:498-499 | a delimiter-free prefix is joined onto the first piece of the rest |
| `MemberNames.ExplodeAtDelimiter` | includes/class-wsuwp-content-visibility.php:498-499 | a string starting with the delimiter splits into an empty piece followed by the pieces of the rest |
| `MemberNames.ExplodeImplode` | includes/class-wsuwp-content-visibility.php:498-499 | splitting a join of delimiter-free pieces gives back the pieces |
| `MemberNames.ExplodeNoDelimiter` | includes/class-wsuwp-content-visibility.php:498-499 | a string without the delimiter is one piece |
| `MemberNames.ImplodeAppend` | includes/class-wsuwp-content-visibility.php:498-499 | joining two concatenated piece lists puts one delimiter between the two joins |
| `MemberNames.ExplodeSplit` | includes/class-wsuwp-content-visibility.php:498-499 | splitting at one delimiter gives the pieces before it followed by the pieces after it |
| `MemberNames.CleanMembers` | includes/class-wsuwp-content-visibility.php:497-502 | the cleaned name contains neither `,` nor `=` |
| `MemberNames.CleanMembersFirstPart` | includes/class-wsuwp-content-visibility.php:498 | only the part before the first comma decides the result |
| `MemberNames.CleanMembersPlain` | includes/class-wsuwp-content-visibility.php:497-502 | an entry with neither `,` nor `=` is returned unchanged |
| `MemberNames.CleanMembersLastValue` | includes/class-wsuwp-content-visibility.php:499 | the text after the last `=` of the first part is returned, whatever `=` come before it |
| `MemberNames.CleanMembersOfFirstRdn` | includes/class-wsuwp-content-visibility.php:497-502 | for a first component `attr=value` without `,` or `=` in its parts, the value is returned whatever follows |
| `MemberNames.CommonNameScenario` | includes/class-wsuwp-content-visibility.php:490-502 | `CN=Jane Doe,OU=Staff` reduces to `Jane Doe` |
| `MemberNames.EscapedCommaIsSplit` | includes/class-wsuwp-content-visibility.php:497-502 | an escaped comma in the value ends it: `CN=Doe\, Jane,OU=Staff` gives `Doe\` |
| `GroupRequests.SearchTextError` | includes/class-wsuwp-content-visibility.php:372-378 | `""` and `"0"` get the empty-text error, any other one-character text the short-text error, and exactly the texts of two or more characters pass |
| `GroupRequests.CurrentGroups` | includes/class-wsuwp-content-visibility.php:380-408 | for post 0 no record is selected; for a post with a row a record is selected exactly when its id is in the row; for a post without a row exactly when its id is the empty string |
| `GroupRequests.AnnotateSearchResults` | includes/class-wsuwp-content-visibility.php:407-413 | every result keeps its count, order and other fields, and its `selected_class` is `visibility-group-selected` exactly when its id is a current group, else empty |
| `GroupRequests.AjaxSearchGroups` | includes/class-wsuwp-content-visibility.php:367-416 | an invalid search text gets its error before any lookup; otherwise the search callback's results come back annotated against the post's current groups |
| `GroupRequests.UnassignedSearchScenario` | tests/test-wsuwp-content-visibility-ajax.php:277-343 | for a post without groups both test results, the first with its member count and member list, keep every field and gain an empty `selected_class` |
| `GroupRequests.BasicDetails` | includes/class-wsuwp-content-visibility.php:314-319 | the unfiltered record of a group has exactly the four detail keys: the group as id and display name, and an empty member count and member list |
| `GroupRequests.AssignedDetails` | includes/class-wsuwp-content-visibility.php:320-332 | an assigned group's record is the filtered details with `selected_class` forced to `visibility-group-selected` |
| `GroupRequests.AjaxGetGroups` | includes/class-wsuwp-content-visibility.php:296-336 | post id 0 is an error; no groups gives an empty success; otherwise one record per stored group, in order |
| `GroupRequests.UnfilteredDetailsScenario` | tests/test-wsuwp-content-visibility-ajax.php:47-88 | with no details filter a saved group's record is the one the tests expect |
| `GroupRequests.KeepSanitized` | includes/class-wsuwp-content-visibility.php:355 | every kept value was submitted and has a truthy sanitized form |
| `GroupRequests.KeepSanitizedCounts` | includes/class-wsuwp-content-visibility.php:355 | each original value with a truthy sanitized form is kept as often as submitted; other values are dropped |
| `GroupRequests.KeepSanitizedAppend` | includes/class-wsuwp-content-visibility.php:355 | filtering a concatenation is concatenating the filtered parts, so kept values stay in submission order |
| `GroupRequests.AjaxSetGroups` | includes/class-wsuwp-content-visibility.php:343-360 | on the table of `_content_visibility_groups`: a missing or zero post id is an error and a missing or empty list means no change, both leaving the store alone; otherwise the filtered list replaces the post's row |
| `Api.RegistryIds` | includes/api.php:33 | a string is a plucked id exactly when some registry entry carries it, and the ids keep registry order |
| `Api.FilterRegisteredCounts` | includes/api.php:34-40 | a registry id is saved as often as it was submitted and any other id never |
| `Api.FilterRegisteredSound` | includes/api.php:36-40 | every saved id is a registry id that was submitted |
| `Api.FilterRegisteredAppend` | includes/api.php:36-40 | filtering works id by id, so submission order is kept |
| `Api.FilterRegisteredIdempotent` | includes/api.php:36-46 | filtering an already filtered list gives the same list |
| `Api.FilterRegisteredEmpty` | includes/api.php:36-43 | nothing is kept exactly when no submitted id is a registry id |
| `Api.GetGroups` | includes/api.php:5-22 | the reply carries the registry and the post's stored list, and no list when the post id is missing or zero |
| `Api.UpdateGroups` | includes/api.php:25-50 | on the table of `_content_visibility_viewer_groups`: the post's row is deleted when no submitted id is registered, otherwise replaced by the registered ids in submission order; no other row changes |
| `Api.AllUnknownDeletes` | includes/api.php:36-43 | a submission of unknown ids removes the row exactly as an empty submission does |
| `Api.SaveIdempotent` | includes/api.php:36-46 | saving the same submission twice, or re-saving the stored list, leaves the state of one save |
| `Api.SaveThenGet` | includes/api.php:13-46 | after a non-empty save, reading the post returns the registry and exactly the filtered submission |
| `Api.UnknownIdDroppedScenario` | includes/api.php:33-40 | `["site-member", "bogus-id"]` against a registry of `site-member` saves `["site-member"]` |
| `SiteVisibility.RestSave` | includes/api.php:42-46 | a REST save changes only the viewer-groups rows, as update-or-delete of the filtered submission |
| `SiteVisibility.RestSavedGroupsIgnoredAsWritten` | includes/class-wsuwp-content-visibility.php:92 | as written, groups saved through the REST endpoint leave the decision's answer unchanged whatever the membership filter says |
| `SiteVisibility.RestSavedGroupsAdmitCorrected` | includes/class-wsuwp-content-visibility.php:92-124 | with the decision reading the saved key, a non-empty save admits every non-author the filter accepts: read granted, private read removed |
| `SiteVisibility.ContributorScenarioAsWritten` | tests/test-wsuwp-content-visibility.php:55-77 | as written, the contributor test's setup returns `["read_private_posts"]` unchanged |
| `SiteVisibility.ContributorScenarioCorrected` | tests/test-wsuwp-content-visibility.php:55-77 | with the decision reading the saved key, the same setup returns `["read"]` |

## Findings

| source | as written | input that shows it | evidently intended | confidence | as-written member | corrected member |
|---|---|---|---|---|---|---|
| includes/class-wsuwp-content-visibility.php:92 | the read decision takes its group list from `_content_visibility_groups`, but `Api::update_groups` (includes/api.php:43-45) and the tests (tests/test-wsuwp-content-visibility.php:40, 68) store groups under `_content_visibility_viewer_groups` | a private post by author 42 with `["group1"]` stored under `_content_visibility_viewer_groups`; user 7, whom the filter admits; caps `["read_private_posts"]`: the answer stays `["read_private_posts"]` where the test expects `["read"]` | the decision reads the key that the REST save and the tests write | medium; not executed | `SiteVisibility.ContributorScenarioAsWritten` | `SiteVisibility.RestSavedGroupsAdmitCorrected` |

## Left out

- Meta-box HTML, script and style enqueueing, and the path getters of `Plugin::get`: these are output and host URL and path calls with no decision logic.
- The Backbone, jQuery and React front ends (`js/`, `gutenberg/`): these are UI event handlers that mirror client state.
- The older UI-only plugin file `wsuwp-content-visibility.php` and the build configuration: neither contains logic of the modelled core.
- Hook wiring and REST route registration (includes/class-wsuwp-content-visibility.php:35-51, includes/api.php:53-80): this is host plumbing. The AJAX actions are registered under method names the class does not define. One example is `ajax_get_viewer_groups` for `ajax_get_groups`. The model treats each handler as reachable.
- Nonce checks, `wp_send_json_*` and `die()`: transport. Each handler returns the reply it would send.
- The search result cache (`wp_cache_get` and `wp_cache_add` with their lifetimes): host cache behaviour. The search callback's answer is an input.
- `ajax_get_ad_groups`, `ajax_ad_group_check` and `ajax_ad_group_save`: the Active Directory counterparts of the viewer-group handlers, over `_ad_editor_groups`, are outside the modelled core. `ajax_ad_group_check` calls `search_groups`, which the class does not define, and both it and `ajax_get_ad_groups` read the AD object cache; `ajax_ad_group_save` has the shape of `ajax_set_groups`. `clean_members`, which `ajax_ad_group_check` maps over member lists, is modelled.
- `GroupRequests.KeepSanitized`: the kept values are stored renumbered from 0. `array_filter` keeps the original keys, so the stored PHP array may have gaps (`['a', ' ', 'c']` is stored as `[0 => 'a', 2 => 'c']`), and that gapped array is what the membership filter later receives. The model keeps the values and their order, not the keys.
- The group registry (`default_groups` is not declared on the class), `get_user_ad_groups`, `sanitize_text_field`, `apply_filters` and `get_post_type_object`: these are undefined or host collaborators and become parameters.
- The host's metadata API normalises post ids with `absint` and ignores id 0 on writes. That is host code and is not modelled. The store is keyed by the id as passed.
- `ReadDecision.AllowReadPrivatePosts`: `array_keys` compares loosely in PHP. The model compares capability names as strings. The two differ only when both names are numeric strings.
- `ReadDecision.AllowReadPrivatePosts`: a membership filter that returns a non-boolean is not modelled. The source admits any answer that is not exactly `false`. The filter here answers a boolean.
- `ReadDecision.AllowReadPrivatePosts`: an unregistered post type, for which `get_post_type_object` gives null, is not modelled. The type's two capability names are an input.
- `EditorGroups.AdGroupsEditPage`: the `$user &&` test is always true for the `WP_User` object the host passes, so the user is always present. `$args[0]` is the `requested` parameter.
- `GroupRequests.AjaxSetGroups`, `GroupRequests.AjaxSearchGroups` and `Api.UpdateGroups`: request fields are typed as the handlers expect: integer ids, lists of strings. A JSON number among submitted group ids, or a scalar where a list is expected, is not modelled.
- `GroupRequests.AssignedDetails`: PHP arrays keep key order. The records here are maps, so the order of a record's keys in the JSON output is not modelled.
- `Api.GetGroups`: PHP sends `''` or `false` for a post without a row. Both are `None` here.
- `Api.UpdateGroups`: the constant `200` response is not modelled.
