# li3_access `Permissions`, modelled in Dafny

This project models the path-based permission engine of li3_access: the class
`Permissions` in `extensions/adapter/security/access/Permissions.php`.

Every principal is a user (`TYPE_USER`) or a group (`TYPE_GROUP`). A principal is
keyed by its identifier and its type, and owns a permission tree. A tree is a
nested PHP array:
- under `route`, a controller key maps to a list of actions;
- under `custom`, dotted custom routes are stored the same way;
- `groups` lists the groups of a user;
- `users` is a group's roster of user identifiers.

The model has these parts:

- **PHP values** (`php.dfy`, module `Php`). Ordered arrays are sequences of `(Key, Val)` entries. A string key that spells a canonical integer becomes an integer key. The file also defines truthiness, the loose comparisons `in_array` and `array_search` use, assignment, `$a[] =`, the `(array)` and `(string)` casts, `array_filter`, and key chains, which are where a PHP reference into a nested array points.
- **The matcher `_processPath`** (`matcher.dfy`). The method walks a reference down the tree. It is proved equal to the recursive `Walk`, which also gives back the tree as the matcher leaves it. When a list member matches, the matcher overwrites that level.
- **`unique`** (`dedup.dfy`). The method is proved equal to `Deduplicated`.
- **`_cleanPaths`** (`prune.dfy`). The method is proved equal to `Pruned`.
- **Library routines the class calls** (`library.dfy`): `array_merge_recursive`, array union `+=`, `Set::flatten`, and `Set::expand` of one dotted key.
- **`add` merging** (`merge.dfy`): facts about `unique(array_merge_recursive(stored, paths))`.
- **The removal walk of `remove`** (`removal.dfy`), proved equal to `RemoveEach`/`Removed`.
- **The class** (`permissions.dfy`, module `Access`). The store is a `map` field of class `Permissions`. `check` is a recursive method, proved equal to the function `Decide`. Every write is proved equal to an `...Effect` function of the old store.
- **Properties of `check`** (`check_facts.dfy`).
- **Properties of the writes, and end-to-end scenarios** (`store_facts.dfy`).

`check` returns PHP `false` or an array. Both `false` and `array()` grant; the caller's `$options` deny, unless `$options` is empty. `Granted` is this falsiness.

## Model

| member | source | states |
|---|---|---|
| `Matcher.ProcessPath` | extensions/adapter/security/access/Permissions.php:451-466 | the reference walk returns `Walk`'s verdict and leaves the tree as `Walk` describes (the matched level overwritten with `array()`, then the reference step's null entry) |
| `Matcher.WalkCompose` | extensions/adapter/security/access/Permissions.php:452-464 | after a prefix consumed through keys only, the verdict is that of the rest of the path from the level reached, and only that level is rewritten |
| `Matcher.WildcardGrants` | extensions/adapter/security/access/Permissions.php:455-456 | a `*` among the values of the level reached grants every continuation of the path |
| `Matcher.UnknownSegmentDenies` | extensions/adapter/security/access/Permissions.php:460-461 | a segment that is neither a value nor a set key of the level reached denies, whatever follows |
| `Matcher.ListMemberEndsPath` | extensions/adapter/security/access/Permissions.php:457-463 | a list-member match grants exactly when it is the last segment (the cursor becomes null); either way the level is replaced by a single null entry under that segment |
| `Matcher.KeyChainGrants` | extensions/adapter/security/access/Permissions.php:453-465 | a path that descends through keys all the way (any prefix of a stored chain) is granted and leaves the tree unchanged |
| `Matcher.PostsEditGranted` | extensions/adapter/security/access/Permissions.php:451-466 | `{route: {Posts: [view, edit]}}` grants `[route, Posts, edit]` |
| `Matcher.PostsDeleteDenied` | extensions/adapter/security/access/Permissions.php:451-466 | the same tree denies `[route, Posts, delete]` |
| `Dedup.Unique` | extensions/adapter/security/access/Permissions.php:468-480 | the loop building `$output` computes `Deduplicated` |
| `Dedup.UniqueElement` | extensions/adapter/security/access/Permissions.php:470-477 | one loop step: a nested array is uniqued under its key, a scalar is kept only if not already among the values kept |
| `Dedup.UniqueThins` | extensions/adapter/security/access/Permissions.php:468-480 | the result is the input thinned: every nested array kept (uniqued) under its key, each scalar kept as is or dropped, original keys and order kept |
| `Dedup.UniqueKeepsFirst` | extensions/adapter/security/access/Permissions.php:475-477 | a scalar entry of the input is in the result exactly when no loosely equal value is among the result of the entries before it: of equal scalars, under any keys, the first is kept |
| `Dedup.UniqueAddsNoScalar` | extensions/adapter/security/access/Permissions.php:468-480 | every string among the top-level values of the result was among those of the input |
| `Dedup.UniqueNoRepeats` | extensions/adapter/security/access/Permissions.php:475-477 | no scalar appears twice among the values of the result |
| `Dedup.UniqueCovers` | extensions/adapter/security/access/Permissions.php:475-477 | every scalar of the input is still among the values of the result (only repeats are dropped) |
| `Dedup.UniqueFixpoint` | extensions/adapter/security/access/Permissions.php:468-480 | a tree with no repeated scalar on any level is returned unchanged |
| `Dedup.UniqueIsUniqueDeep` | extensions/adapter/security/access/Permissions.php:468-480 | on a tree with distinct keys, no level of the result holds a repeated scalar |
| `Dedup.UniqueIdempotent` | extensions/adapter/security/access/Permissions.php:468-480 | `unique(unique(t)) == unique(t)` |
| `Prune.CleanPaths` | extensions/adapter/security/access/Permissions.php:442-449 | the by-reference loop followed by `array_filter` computes `Pruned` |
| `Prune.CleanEntry` | extensions/adapter/security/access/Permissions.php:443-447 | one loop step: a nested array is replaced by its cleaned copy, a scalar is left alone |
| `Prune.PrunedIsTidy` | extensions/adapter/security/access/Permissions.php:442-449 | no falsy entry (null, "", "0", empty array) survives at any level, so no emptied branch is left |
| `Prune.TidyFixpoint` | extensions/adapter/security/access/Permissions.php:442-449 | a tree with no falsy entry anywhere is returned unchanged |
| `Prune.CleanPathsIdempotent` | extensions/adapter/security/access/Permissions.php:442-449 | `_cleanPaths` is idempotent |
| `Prune.PrunedPrunes` | extensions/adapter/security/access/Permissions.php:442-449 | at every level, each truthy scalar stays under its key and in its place, each falsy one goes, and each nested array is replaced by its cleaned copy, kept exactly when that is not empty (`Prunes`) |
| `Prune.PrunedLookup` | extensions/adapter/security/access/Permissions.php:442-449 | with distinct keys, a key keeps its entry through `_cleanPaths`, pruned, unless it is falsy or prunes to an empty array: branches a removal did not empty stay |
| `Prune.PrunedScalars` | extensions/adapter/security/access/Permissions.php:448 | the top-level scalars of the result are exactly the truthy top-level scalars of the input, with their keys, in order |
| `Library.FlattenExpand` | extensions/adapter/security/access/Permissions.php:252 | `Set::flatten` undoes `Set::expand` of one dotted key with a scalar value |
| `Library.ExpandFlatten` | extensions/adapter/security/access/Permissions.php:397 | `Set::expand` undoes `Set::flatten` of a key chain none of whose keys holds a dot |
| `MergeFacts.OldEntriesFirst` | extensions/adapter/security/access/Permissions.php:320 | `array_merge_recursive(stored, paths)` starts with the stored top-level keys, string keys kept in order, integer keys renumbered (what stays under them is `AddFacts.AddKeepsOld`) |
| `MergeFacts.MergeWellFormed` | extensions/adapter/security/access/Permissions.php:320 | merging keeps keys distinct at every level |
| `MergeFacts.AddLeavesNoRepeats` | extensions/adapter/security/access/Permissions.php:320-321 | after `add` merges into a record, no level holds a repeated scalar |
| `MergeFacts.ReaddChangesOnlyNumbering` | extensions/adapter/security/access/Permissions.php:318-323 | re-adding list-leaf paths a duplicate-free tree already holds gives the tree back with only its top-level integer keys renumbered |
| `MergeFacts.ReaddIsNoOp` | extensions/adapter/security/access/Permissions.php:318-323 | with string keys at the top, re-adding such paths leaves the tree unchanged |
| `Removal.Locate` | extensions/adapter/security/access/Permissions.php:399-407 | the walk reaches the slot the whole dotted key names exactly when every segment is set on the way (`Located`), and then the reference is that key chain; otherwise the reference is dropped |
| `Removal.RemoveFlat` | extensions/adapter/security/access/Permissions.php:399-419 | the `(array)` cast and the `switch` after `Locate` compute `RemoveValue`: a missing segment is a no-op; otherwise the slot is cast to an array and written back, then nulled for `*` or stripped of its first equal entry |
| `Removal.RemovePaths` | extensions/adapter/security/access/Permissions.php:397-421 | flattening, one walk per flattened entry, then `_cleanPaths`, computes `Removed` |
| `Removal.RemovedIsTidy` | extensions/adapter/security/access/Permissions.php:421 | the tree `remove` saves has no falsy entry at any level |
| `Removal.RemoveNested` | extensions/adapter/security/access/Permissions.php:397-400 | a single nested path is flattened to one dotted key, and the walk follows exactly the keys it was built from |
| `Removal.MissingSegmentIsNoOp` | extensions/adapter/security/access/Permissions.php:401-406 | an entry whose path is missing anywhere leaves the tree unchanged |
| `Removal.RemoveFromList` | extensions/adapter/security/access/Permissions.php:409-419 | a scalar whose path ends on a list unsets that list's first equal entry; `*` nulls the list; a value not in the list changes nothing |
| `Removal.RemoveAtFirstIndex` | extensions/adapter/security/access/Permissions.php:398-419 | when the walk ends on index 0 of a list (as it does for the wrappers), the value is removed only if it is that entry; `*` nulls that entry; any other value turns it into a one-element list |
| `Access.Permissions.constructor` | extensions/adapter/security/access/Permissions.php:21-37 | the configuration given, completed by empty default trees and the identifier `id` |
| `Access.Permissions.Check` | extensions/adapter/security/access/Permissions.php:47-129 | the recursive method (its group loop in `CheckGroups`) returns `Decide` on the resolved path: the `defaultNoUser` tree for a caller not logged in, `defaultUser`, then the principal's own record and groups |
| `Access.Permissions.CheckGroups` | extensions/adapter/security/access/Permissions.php:118-126 | the `foreach` over the user's groups checks each as a group with `forUser` set, stops at the first grant and returns it, else the last group's reply (`false` when the list is empty), as `GroupLoop` says |
| `Access.Permissions.Add` | extensions/adapter/security/access/Permissions.php:282-325 | outcome and new store are `AddEffect` of the old store (throw without identifier, create with paths as given, else merge then `unique`) |
| `Access.Permissions.Remove` | extensions/adapter/security/access/Permissions.php:362-424 | outcome and new store are `RemoveEffect` of the old store (throw without identifier, no record is a successful no-op, else walk, prune and save) |
| `Access.Permissions.AddAction` | extensions/adapter/security/access/Permissions.php:259-268 | `add` of `{route: {controller: [action]}}` |
| `Access.Permissions.RemoveAction` | extensions/adapter/security/access/Permissions.php:341-350 | `remove` of `{route: {controller: [action]}}` |
| `Access.Permissions.AddCustomPath` | extensions/adapter/security/access/Permissions.php:245-253 | false for a non-string route, else `add` of the expanded `custom.<parts>.0 => <last part>` |
| `Access.Permissions.RemoveCustomPath` | extensions/adapter/security/access/Permissions.php:327-335 | false for a non-string route, else `remove` of the same expansion |
| `Access.Permissions.AddUserToGroup` | extensions/adapter/security/access/Permissions.php:131-136 | the group added under the user's `groups`, then the user's identifier under the group's `users`; an exception propagates; results ANDed |
| `Access.Permissions.RemoveUserFromGroup` | extensions/adapter/security/access/Permissions.php:138-143 | the same two writes as removals |
| `Access.Permissions.CreateGroup` | extensions/adapter/security/access/Permissions.php:150-159 | a group record with an empty tree is saved |
| `Access.Permissions.RemoveRow` | extensions/adapter/security/access/Permissions.php:170-190 | false for a null type or a missing record; otherwise the record is deleted and true returned |
| `Access.Permissions.RemoveGroup` | extensions/adapter/security/access/Permissions.php:161-163 | `removeRow` with the group type |
| `Access.Permissions.RemoveUser` | extensions/adapter/security/access/Permissions.php:165-168 | false and nothing deleted without the identifier, else `removeRow` of the identifier with the user type |
| `Access.Permissions.ListPerms` | extensions/adapter/security/access/Permissions.php:426-440 | the stored tree, or an empty tree when there is no record |
| `Access.Permissions.GroupAddAction` | extensions/adapter/security/access/Permissions.php:195-197 | `addAction` with the group type |
| `Access.Permissions.GroupAddCustomPath` | extensions/adapter/security/access/Permissions.php:202-204 | `addCustomPath` with the group type |
| `Access.Permissions.GroupAdd` | extensions/adapter/security/access/Permissions.php:209-211 | `add` with the group type |
| `Access.Permissions.GroupRemoveAction` | extensions/adapter/security/access/Permissions.php:216-218 | `removeAction` with the group type |
| `Access.Permissions.GroupRemoveCustomPath` | extensions/adapter/security/access/Permissions.php:223-225 | `removeCustomPath` with the group type |
| `Access.Permissions.GroupRemove` | extensions/adapter/security/access/Permissions.php:230-232 | `remove` with the group type |
| `CheckFacts.AnonymousUsesDefaultNoUser` | extensions/adapter/security/access/Permissions.php:83-85 | a falsy caller, or an array without the identifier, gets the same reply whatever is stored; it is granted iff `defaultNoUser` matches (or `$options` is empty) |
| `CheckFacts.DefaultUserGrants` | extensions/adapter/security/access/Permissions.php:86-87 | an identified caller whose path `defaultUser` matches gets `false` whatever is stored |
| `CheckFacts.MissingRecordDenies` | extensions/adapter/security/access/Permissions.php:92-100 | past the defaults, a principal without a record gets `$options` |
| `CheckFacts.UnrecognisedRequestGranted` | extensions/adapter/security/access/Permissions.php:59-80 | a request of no recognised shape leaves the path empty and is granted (`false`) for every caller and every store |
| `CheckFacts.CustomRequestPath` | extensions/adapter/security/access/Permissions.php:73-76 | a dotted request resolves to `custom` followed by dot-free parts that join back to the request |
| `CheckFacts.OwnMatchGrantsUser` | extensions/adapter/security/access/Permissions.php:106-111 | a user whose own tree matches is granted |
| `CheckFacts.NoGroupsDenies` | extensions/adapter/security/access/Permissions.php:106-111 | a user whose own tree does not match and has no `groups` gets `$options` |
| `CheckFacts.GroupGrantsOnlyRoster` | extensions/adapter/security/access/Permissions.php:108-116 | a group grants iff its tree matches and `options.forUser[id]` is on its `users` roster (or `$options` is empty); its reply is `array()` or `$options`, never `false` |
| `CheckFacts.GroupCheckReadsOwnRecord` | extensions/adapter/security/access/Permissions.php:108-117 | a group check depends on no record but the group's own: groups are resolved to depth one |
| `CheckFacts.GroupLoopStops` | extensions/adapter/security/access/Permissions.php:119-126 | the loop grants iff some group grants, returns the first granting group's reply, else the last group's reply, and with no group the initial `false` |
| `CheckFacts.UnmatchedUserAsksGroups` | extensions/adapter/security/access/Permissions.php:118-126 | an unmatched user with `groups` is granted iff the list is empty or some group, asked with `forUser` set to the user, grants |
| `CheckFacts.MemberInheritsGroupGrant` | extensions/adapter/security/access/Permissions.php:113-126 | a user whose group matches the path and lists the user's identifier in `users` is granted |
| `CheckFacts.ListMemberHidesGroups` | extensions/adapter/security/access/Permissions.php:106-108 | `groups` is read from the tree the matcher rewrote: a top-level list member `route` hides the user's groups, and a route request is denied |
| `StoreFacts.WritesNeedIdentifier` | extensions/adapter/security/access/Permissions.php:301-303 | `add` and `remove` for a principal without the identifier throw `The user identifier '<id>' is not available.` and write nothing |
| `StoreFacts.AddWritesOneRecord` | extensions/adapter/security/access/Permissions.php:304-323 | `add` writes only the principal's record: new records hold the paths unchanged, merged records have no repeated scalar and hold both the stored paths and the added paths of the merged shape (`Absorbs`), and `listPerms` returns the record |
| `AddFacts.AddKeepsOld` | extensions/adapter/security/access/Permissions.php:318-321 | on an existing record, every stored path of the merged shape is still in `unique(array_merge_recursive(stored, paths))`, list members up to loose comparison |
| `StoreFacts.AddActionCanRevoke` | extensions/adapter/security/access/Permissions.php:455-461 | the stored paths survive `add` but not always their grants: on `{route: {Posts: {edit: [x]}}}`, `addAction('Posts', 'edit')` keeps `edit => [x]`, yet `[route, Posts, edit, x]` goes from granted to denied, because a list member is matched before a key |
| `AddFacts.AddKeepsPaths` | extensions/adapter/security/access/Permissions.php:318-321 | on an existing record, every path of the merged shape (string keys leading to arrays, list members as leaves) is in `unique(array_merge_recursive(stored, paths))`, list members up to loose comparison |
| `AddFacts.MergeIntoKeepsAll` | extensions/adapter/security/access/Permissions.php:320 | every path of the merged shape merged in by `array_merge_recursive` is found in its result, list members as identical values |
| `AddFacts.DedupLookupArr` | extensions/adapter/security/access/Permissions.php:470-473 | `unique` keeps every nested array under its own key, uniqued |
| `AddFacts.AddKeepsStringKeys` | extensions/adapter/security/access/Permissions.php:318-321 | merging paths keyed by strings at the top into a record keyed so keeps the saved record keyed by strings at the top |
| `StoreFacts.AddTwiceIsAddOnce` | extensions/adapter/security/access/Permissions.php:304-323 | on an existing record keyed by strings at the top, adding the same paths a second time leaves the outcome and every record as the first add left them |
| `StoreFacts.ReaddLeavesStore` | extensions/adapter/security/access/Permissions.php:318-323 | re-adding paths a duplicate-free record already holds leaves every record unchanged |
| `StoreFacts.NestGrants` | extensions/adapter/security/access/Permissions.php:453-465 | a key chain ending in a one-element list grants the chain followed by the list's value |
| `StoreFacts.IndexSegmentGrants` | extensions/adapter/security/access/Permissions.php:460-463 | the list index is a key the matcher descends through: the chain followed by `0` is granted as well |
| `StoreFacts.ActionPathsNest` | extensions/adapter/security/access/Permissions.php:260-266 | `addAction` builds the chain `route`, controller, index 0 holding the action |
| `StoreFacts.CustomPathsNest` | extensions/adapter/security/access/Permissions.php:249-252 | `addCustomPath` builds the chain `custom`, all parts but the last, index 0 holding the last part |
| `StoreFacts.CustomRequestSegments` | extensions/adapter/security/access/Permissions.php:73-76 | a custom request is `custom`, all parts but the last, then the last part |
| `StoreFacts.AddedTreeGrants` | extensions/adapter/security/access/Permissions.php:304-323 | `check` after `add` answers by the saved tree, created or merged: a user is granted every path that tree matches |
| `StoreFacts.AddedActionGranted` | extensions/adapter/security/access/Permissions.php:259-268 | after `addAction` creates a user's record, `check` of that route is granted |
| `StoreFacts.AddedActionGrantedOnRecord` | extensions/adapter/security/access/Permissions.php:259-268 | on an existing record that already reaches the controller's list through keys, `addAction` makes `check` of that route granted (a controller that is not an integer string) |
| `StoreFacts.AddedCustomPathGranted` | extensions/adapter/security/access/Permissions.php:245-253 | after `addCustomPath` creates a user's record, `check` of that dotted route is granted |
| `StoreFacts.DefaultNoUserWildcard` | extensions/adapter/security/access/Permissions.php:83-85 | with `defaultNoUser` `{route: {Home: ['*']}}`, a caller who is not logged in is granted every action of `Home` |
| `StoreFacts.RemoveWritesOneRecord` | extensions/adapter/security/access/Permissions.php:383-422 | `remove` writes only the principal's record and leaves it with no falsy entry; with no record it writes nothing |
| `StoreFacts.RemoveFromPosts` | extensions/adapter/security/access/Permissions.php:341-349 | `removeAction('Posts', a)` touches only index 0 of the `Posts` list: nulled for `*`, emptied when it equals `a`, else nested as `[held]` |
| `StoreFacts.RemoveSecondActionNests` | extensions/adapter/security/access/Permissions.php:341-349 | `removeAction('Posts', 'edit')` on `{route: {Posts: [view, edit]}}` stores `{route: {Posts: [[view], edit]}}` |
| `StoreFacts.RemoveFirstOrWildcard` | extensions/adapter/security/access/Permissions.php:337-349 | `removeAction('Posts', 'view')` and `removeAction('Posts', '*')` on that tree both store `{route: {Posts: [1 => edit]}}` |
| `StoreFacts.WildcardRemovesSoleAction` | extensions/adapter/security/access/Permissions.php:337-349 | with the single action `[view]`, `removeAction('Posts', '*')` leaves an empty tree |
| `StoreFacts.AddUserToGroupWrites` | extensions/adapter/security/access/Permissions.php:131-136 | `addUserToGroup` returns true and writes only the two records; a new record holds exactly the one-element list, an existing one keeps the added member (the group, or the user's identifier) after the merge |
| `StoreFacts.RemoveOnlyMember` | extensions/adapter/security/access/Permissions.php:138-143 | removing the one member of `{groups: [g]}` or `{users: [uid]}` leaves an empty tree |
| `StoreFacts.MembershipRoundTrip` | extensions/adapter/security/access/Permissions.php:131-143 | for a user and a group without records, `removeUserFromGroup` after `addUserToGroup` returns true and leaves both records present and empty, every other record as it was |
| `StoreFacts.GroupActionReachesMember` | extensions/adapter/security/access/Permissions.php:131-136 | after `addAction` on a new group and `addUserToGroup` of a user without a record, `check` of that route for the user is granted through the group |

Behaviour of the code that a reader may not expect, which the model keeps:

- **Removing an action.** The doc comment of `removeAction` (Permissions.php:338-339) says that `*` removes every action of the controller, and so the controller. The walk in `remove` also follows the index `0` that `array($action)` carries, so it lands on the first entry of the stored list:
  - `*` nulls that entry only (`StoreFacts.RemoveFirstOrWildcard`), and the comment holds only for a list with a single action (`StoreFacts.WildcardRemovesSoleAction`);
  - removing any action but the first turns the first into a nested list: `{route: {Posts: [view, edit]}}` becomes `{route: {Posts: [[view], edit]}}` (`StoreFacts.RemoveSecondActionNests`).
- **Ways a request is granted without a matching grant.** `check` refuses by returning `$options` (Permissions.php:83-126) and grants by returning `false` or `array()`, and the caller reads any falsy reply as a grant. So:
  - with empty `$options`, every refusal is a grant;
  - a request that is neither an object, a string nor an array leaves the path empty, which every tree matches (`CheckFacts.UnrecognisedRequestGranted`);
  - the trailing index `0` of a stored chain is a key the matcher descends through, so it is granted too (`StoreFacts.IndexSegmentGrants`);
  - a user whose `groups` is an empty list, and whose own tree does not match, gets the loop's initial `false` (`CheckFacts.GroupLoopStops`, `CheckFacts.UnmatchedUserAsksGroups`).
- **Failures that return `false`.** `addCustomPath` and `removeCustomPath` return `false` for a non-string route and write nothing (Permissions.php:246-248, 328-330). `removeRow` returns `false` for a null type (Permissions.php:176-178). A missing identifier in `add` or `remove` throws instead.
- **`unique` compares values, not keys.** A scalar is dropped when a loosely equal value is already kept on its level, under any key (`Dedup.UniqueKeepsFirst`). So `{custom: {a: yes, b: yes}}` loses `b` at the next `add` to that record.
- **Adding twice.** A new record stores `$paths` without `unique` (`StoreFacts.AddWritesOneRecord`), so a repeat inside `$paths` survives the first add and goes at the second. Top-level integer keys are renumbered by `array_merge_recursive` (`MergeFacts.ReaddChangesOnlyNumbering`). For a record and paths keyed by strings at the top, adding twice is adding once (`StoreFacts.AddTwiceIsAddOnce`).
- **An `add` can take a grant away.** `add` keeps every stored path (`AddFacts.AddKeepsOld`), but the matcher tests a level's values before its keys (Permissions.php:457-461). A list member added beside a key of the same name therefore ends the walk there. On `{route: {Posts: {edit: [x]}}}`, `addAction('Posts', 'edit')` denies `[route, Posts, edit, x]` from then on (`StoreFacts.AddActionCanRevoke`). In the same way, `addCustomPath('Posts.edit.x')` followed by `addCustomPath('Posts.edit')` takes away `Posts.edit.x`.
- **Integer-string controllers.** `addAction` with a controller such as `'7'` on a record that already has a `7` list: `array_merge_recursive` appends the new list under the next free integer key rather than merging it, so `check` of that route still looks only in the old list. `StoreFacts.AddedActionGrantedOnRecord` covers controllers that are not integer strings.

## Left out

- The `_filter` interception chain and lithium's `Object` configuration plumbing are left out. The model calls the inner closures directly.
- Persistence is abstracted to the `store` map:
  - every `save` succeeds and `delete` returns true;
  - `find` by an array-valued identifier (an `IN` query) finds nothing;
  - `createGroup` over an existing group overwrites it, where the database's uniqueness rules would decide.
- The `serialize`/`unserialize` handlers are the identity.
- Concurrency is left out, including the two non-atomic writes of `addUserToGroup`/`removeUserFromGroup`. They are modelled as two sequential writes whose results are ANDed.
- Loose comparison is simplified:
  - strings compare as strings, so a numeric string is not read as a number;
  - null equals null, `""` and `array()`;
  - arrays compare only as identical.
  
  PHP 8's `TypeError` for `in_array` on a non-array is modelled as the PHP 7 warning result, false.
- Integer, float and boolean values inside trees are left out. Tree leaves are strings or null.
- Reading a string with an offset (`$user['id']` on a string in `listPerms` and `addUserToGroup`) yields null here; PHP returns the first character with a warning.
- `Removal.Locate`: `isset` on a string with an integer-string segment inside its length is true in PHP, and the reference `&$pointer[$item]` that follows throws an `Error`. The model treats every offset into a string as unset, so the entry is skipped. For example, `removeAction('Posts', 'x')` on `{route: {Posts: 'view'}}` returns true and changes nothing here, where PHP throws.
- `Matcher.ProcessPath`: likewise, a path that continues past a string leaf with such a segment is denied here, where PHP throws the same `Error`.
- `Php.KeyOf`: a decimal string beyond PHP's integer range (above 9223372036854775807, or below -9223372036854775808) stays a string key in PHP. The model makes every canonical decimal string an integer key, so such a key also moves `NextIndex`. Integers are unbounded, so `$a[] =` never fails at the largest integer key.
- An array request is taken to be a list of strings. Other values in it are left out.
- `Set::expand` is modelled for one dotted key, as the class uses it. Its escaping and its numeric first-segment handling are left out.
- Removal by `unset` does not lower PHP's next free index. The model never appends to a tree after a removal, so nothing depends on this.
- `Access.Permissions.Check` reads `options.forUser[id]` through PHP's rvalue rules: a missing key is null. PHP's "undefined index" notice is not modelled.
