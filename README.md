# xdd-api service core in Dafny

This project models the service layer of the xdd-api NestJS back end and proves properties about it:

- **Materialized-path tree.** A tree node stores its own id, its `level` and its `path`, the ids from the root down joined by `.` (for example `1.4.9`). `BaseTreeService` answers queries over such a table: find, children, descendants, siblings, node path, ancestor test, and assembly into a nested tree. `DemoTreeService` creates, moves, renames and deletes nodes. A move rewrites the paths of the whole subtree.
- **Generic CRUD.** `BaseService` provides list, paginate, detail and remove.
- **Users and authentication.**
  - `UserService` covers create, update, password change and role assignment. Usernames, emails and phone numbers must be unique.
  - `AuthService` covers login with lockout after five failed attempts, registration, and the refresh-token gate.
- **Permissions.** `RBACService.checkPermissions` decides whether a user holds every required permission code.
- **Error handling and logging.**
  - `AppFilter` turns any thrown error into a JSON error response. HTTP errors keep their status. Other errors go through an ordered table of ORM exception classes, and anything else becomes a 500.
  - The request logger masks sensitive body fields and headers, and picks the log level from the status code.

The database is a value that the operations read and return. For the tree it is a `seq<TreeNode>` in store order, and for users a `seq<User>`. Services whose methods change the stored rows are classes:

- `DemoTree.DemoTreeService` has fields `rows` and `nextId`.
- `Users.UserStore` has fields `users`, `nextId` and `roleTable`.
- `Auth.AuthService` works through a `UserStore`.

Every such method is proved equal to a pure specification function (`Created`, `Updated`, `CreateUser`, `UpdateUser`, `LoggedIn`, …). The lemmas are stated about those functions.

**Choices where the code is unusual or its intent is not obvious.** Except for the update cascade, the model follows the code. For the cascade it models both the code and the intended behaviour (see "## Findings").

- **Depth limit.** `MAX_DEPTH` is 10 (base-tree.service.ts:12), and the error message reads "the tree's depth cannot exceed 10 levels" (base-tree.service.ts:148). `checkDepth` counts path segments, not levels: it fails only when a path has more than 10 segments (base-tree.service.ts:145-150). The deepest level is therefore 9.
- **Failed tree create.** `create` writes a placeholder row (empty path, level 0) and flushes it before generating the path (demo-tree.service.ts:27-28). If path generation or the depth check then fails, that row stays in the table. `TreeEdits.FailedCreateLeavesInconsistentTable` shows that the table is then no longer well formed.
- **Missing tree node.** `findOne` on the tree fails with a bad-request error (400), not not-found (base-tree.service.ts:81-87).
- **Update cascade.** After a move, `update` rewrites each descendant's path as the new node path followed by the old descendant path from the NEW path's length on (demo-tree.service.ts:77-81). `DemoTree.Updated`, `DemoTree.DemoTreeService.Stage` and `DemoTree.DemoTreeService.Update` model that as written. When the node's path changes length, this misplaces the descendants (`TreeEdits.PromoteAsWrittenBreaksTable`). `DemoTree.UpdatedIntended` cuts at the OLD path's length, and `TreeEdits.UpdatePreservesWellFormed` is proved about it. The two agree whenever the node's path keeps its length (`DemoTree.UpdatedAgreesOnEqualLength`).
- **Update is all or nothing.** `update` checks everything before its single flush (demo-tree.service.ts:85-86). An error therefore leaves the table unchanged.
- **Matching on any of several fields.** A lookup that matches any of several fields (`findOne` with an array of conditions) returns the first matching row in store order.
- **Login attempts reset.** The reset of `loginAttempts` on a successful `validateUser` (auth.service.ts:57) is committed by the flush in `login` (auth.service.ts:69-70). It is modelled as committed.
- **Repeated role ids.** `assignRoles` compares the number of roles found with the number of ids asked for (user.service.ts:150). A request that repeats an existing role id is therefore refused (`Users.AssignRolesRefusesRepeatedId`).
- **Fields missing from the DTO.** `UserService.create`/`update` read `nickname`, `avatar`, `phoneNumber` and `status` from their DTOs, which do not all declare them. For `update` they are optional inputs (`UserChanges`). For `create`, `avatar` and `phoneNumber` are optional inputs and `nickname` is a required input (`Users.CreateUser`, `Users.UserStore.Create`).

## Model

| member | source | states |
|---|---|---|
| BaseService.Paginate | src/modules/database/base/base.service.ts:39-64 | defaults page 1 and limit 10; the items are exactly the selected rows from offset (page-1)*limit, at most `limit` of them; totalItems counts every selected row; totalPages is the ceiling of totalItems/limit |
| BaseService.PageWithinCount | src/modules/database/base/base.service.ts:46-53 | a page is non-empty if and only if its number is at most totalPages |
| BaseService.PaginateExamples | src/modules/database/base/base.service.ts:39-64 | two rows with page 1 and limit 10 give meta (2, 2, 10, 1, 1); an empty table gives totalPages 0 |
| BaseService.CeilDiv | src/modules/database/base/base.service.ts:53 | the least q with q*limit >= totalItems (Math.ceil) |
| BaseService.List | src/modules/database/base/base.service.ts:31-33 | a row is listed if and only if it is stored and matches the condition |
| BaseService.Detail | src/modules/database/base/base.service.ts:71-80 | returns a stored row with the id; fails with NotFound exactly when no row has it |
| BaseService.Without | src/modules/database/base/base.service.ts:99-105 | removal keeps exactly the rows with other ids, shrinks the table only when the id was present, and keeps ids distinct |
| BaseTreeService.Find | src/modules/database/base/base-tree.service.ts:81-87 | finds a stored row with the id, or none exactly when no row has it |
| BaseTreeService.FindRow | src/modules/database/base/base-tree.service.ts:81-87 | with unique ids, finding a row's id returns that row |
| BaseTreeService.FindOne | src/modules/database/base/base-tree.service.ts:81-87 | a missing node is a BadRequest(NodeMissing) error, otherwise the stored row |
| BaseTreeService.FindChildren | src/modules/database/base/base-tree.service.ts:71-75 | fails exactly when the parent is missing; otherwise returns exactly the rows whose parent is that id |
| BaseTreeService.GetAllDescendants | src/modules/database/base/base-tree.service.ts:92-98 | fails exactly when the node is missing; otherwise returns exactly the rows whose path starts with the node's path plus `.` (never the node itself) |
| BaseTreeService.GetSiblings | src/modules/database/base/base-tree.service.ts:114-121 | exactly the other rows with the same parent |
| BaseTreeService.PathIds | src/modules/database/base/base-tree.service.ts:105 | the ids are exactly the numeric segments of the path |
| BaseTreeService.SortByLevel | src/modules/database/base/base-tree.service.ts:59-65 | the result is ordered by level and is a permutation of the input |
| BaseTreeService.InsertByLevel | src/modules/database/base/base-tree.service.ts:59-65 | inserting into a level-ordered list keeps it ordered and adds exactly the one row |
| BaseTreeService.FindAll | src/modules/database/base/base-tree.service.ts:59-65 | every row, ordered by level |
| BaseTreeService.GetNodePath | src/modules/database/base/base-tree.service.ts:103-109 | fails exactly when the node is missing; otherwise returns the rows whose ids appear in the node's path, ordered by level |
| BaseTreeService.IsAncestor | src/modules/database/base/base-tree.service.ts:126-129 | as written: true if and only if `<ancestorId>.` occurs anywhere in the descendant's path; a missing descendant fails |
| BaseTreeService.GeneratePath | src/modules/database/base/base-tree.service.ts:134-140 | a falsy parent id gives the id alone; otherwise the parent's path plus `.` plus the id, one segment deeper; a missing parent fails |
| BaseTreeService.CheckDepth | src/modules/database/base/base-tree.service.ts:145-150 | fails with DepthExceeded if and only if the path has more than 10 segments, that is 10 or more separators |
| TreeAssembly.IndexOf | src/modules/database/base/base-tree.service.ts:28-31 | the position the node map gives for an id holds a row with that id |
| TreeAssembly.IndexOfLast | src/modules/database/base/base-tree.service.ts:28-31 | the node map keeps the last row with each id (later rows overwrite earlier ones) and misses exactly the ids no row has |
| TreeAssembly.IndexOfRow | src/modules/database/base/base-tree.service.ts:28-31 | with unique ids, a row's id maps to its own position |
| TreeAssembly.ParentPos | src/modules/database/base/base-tree.service.ts:45-47 | a non-root row's parent is found in the node map at another position |
| TreeAssembly.RootPositions | src/modules/database/base/base-tree.service.ts:34-42 | the roots collected from the first k rows are positions among those rows |
| TreeAssembly.RootPositionsMembers | src/modules/database/base/base-tree.service.ts:34-42 | the roots are exactly the rows whose parent id is absent or 0, is their own id, or is not in the map, each once, in store order |
| TreeAssembly.ChildPositions | src/modules/database/base/base-tree.service.ts:44-51 | the children collected from the first k rows are positions among those rows |
| TreeAssembly.ChildPositionsMembers | src/modules/database/base/base-tree.service.ts:44-51 | a node's children are exactly the non-root rows whose parent is at that node, each once, in store order |
| TreeAssembly.ChainExtends | src/modules/database/base/base-tree.service.ts:155-168 | walking from an orphan along child links never revisits a node, so the conversion to plain objects terminates |
| TreeAssembly.ConvertToPlain | src/modules/database/base/base-tree.service.ts:155-168 | each plain node carries its row's id, name, description, assembled level and parent id, and, in order, the conversion of each hung child, recursively down the whole subtree |
| TreeAssembly.AssembledLinks | src/modules/database/base/base-tree.service.ts:25-51 | the links the assembly builds are consistent with the table |
| TreeAssembly.RootsAreOrphans | src/modules/database/base/base-tree.service.ts:34-42 | the roots have no parent in the assembled links |
| TreeAssembly.Forest | src/modules/database/base/base-tree.service.ts:25-54 | one plain tree per root, in store order, each at level 0 without a parent id and each the full conversion of its root's subtree |
| TreeAssembly.IndexRows | src/modules/database/base/base-tree.service.ts:28-31 | the first loop builds the node map with no children yet |
| TreeAssembly.DetachRoots | src/modules/database/base/base-tree.service.ts:34-42 | the second loop picks out exactly the roots, sets their level to 0 and keeps the other rows' parent ids and levels |
| TreeAssembly.DetachLoop | src/modules/database/base/base-tree.service.ts:34-42 | the loop itself, over a node map whose test agrees with the root condition: the same outcome as `DetachRoots` |
| TreeAssembly.HangChildren | src/modules/database/base/base-tree.service.ts:44-51 | after the loop, every node's children and level are the ones the assembly defines |
| TreeAssembly.HangLoop | src/modules/database/base/base-tree.service.ts:44-51 | the loop itself, over a node map that finds each non-root's parent: the same outcome as `HangChildren` |
| TreeAssembly.FindTree | src/modules/database/base/base-tree.service.ts:25-54 | the loops return exactly `Forest(rows)` |
| TreeTheory.ParentRow | src/modules/database/base/base-tree.entity.ts:33-62 | in a well-formed table, a child's parent row exists and its path and level are one step shorter |
| TreeTheory.LastSegmentIsId | src/modules/database/base/base-tree.service.ts:134-140 | the last segment of every stored path is the node's own id |
| TreeTheory.LevelMatchesSegments | src/modules/database/base/base-tree.entity.ts:33-41 | a node's level is its segment count minus one, and below the depth limit |
| TreeTheory.AncestorPathIsPrefix | src/modules/database/base/base-tree.service.ts:92-98 | an ancestor's path plus `.` is a prefix of every descendant's path |
| TreeTheory.SegmentPrefixIsAncestor | src/modules/database/base/base-tree.service.ts:92-98 | a node whose segments are a proper prefix of another's is its ancestor |
| TreeTheory.PrefixIsAncestor | src/modules/database/base/base-tree.service.ts:92-98 | a path prefix (with the separator) means ancestry |
| TreeTheory.GetAllDescendantsExact | src/modules/database/base/base-tree.service.ts:92-98 | in a well-formed table, the descendants query returns exactly the nodes that have this node among their ancestors |
| TreeTheory.IsAncestorComplete | src/modules/database/base/base-tree.service.ts:126-129 | every real ancestor is reported as one |
| TreeTheory.PathIdsOfId | src/modules/database/base/base-tree.service.ts:137 | a root path names only the node |
| TreeTheory.PathIdsAppend | src/modules/database/base/base-tree.service.ts:139 | appending a segment adds exactly that id |
| TreeTheory.PathIdsAreAncestors | src/modules/database/base/base-tree.service.ts:103-109 | the ids in a node's path are exactly its ancestors and itself |
| TreeTheory.GetNodePathExact | src/modules/database/base/base-tree.service.ts:103-109 | the node path is exactly the node and its ancestors, root first |
| TreeTheory.RootIffParentless | src/modules/database/base/base-tree.service.ts:35-51 | in a well-formed table, assembly treats a row as a root if and only if it has no parent id |
| TreeTheory.AssembledLevelIsStored | src/modules/database/base/base-tree.service.ts:44-51 | in a well-formed table, the levels computed by assembly equal the stored levels |
| TreeTheory.AssembledLevelIsDepth | src/modules/database/base/base-tree.service.ts:44-51 | when parents precede children, the computed level is the depth |
| TreeTheory.LaterParentUsesStoredLevel | src/modules/database/base/base-tree.service.ts:44-51 | a parent stored after its child gives the child the parent's stored level plus one, not the recomputed one |
| TreeTheory.CycleIsDropped | src/modules/database/base/base-tree.service.ts:34-53 | rows forming a parent cycle produce no tree at all |
| TreeTheory.IsAncestorFalsePositive | src/modules/database/base/base-tree.service.ts:126-129 | in a well-formed table with nodes 12 and 12.5, node 2 is reported as an ancestor of 5 although no node 2 exists |
| TreeTheory.IsAncestorBySegment | src/modules/database/base/base-tree.service.ts:126-129 | true if and only if the ancestor id is one of the descendant's proper path segments |
| TreeTheory.IsAncestorBySegmentExact | src/modules/database/base/base-tree.service.ts:126-129 | the segment test answers exactly the ancestor relation |
| TreeTheory.SegmentsAreAncestors | src/modules/database/base/base-tree.service.ts:126-129 | the proper segments of a path are exactly the node's ancestor ids |
| DemoTree.ReplaceRow | src/modules/demo/services/demo-tree.service.ts:85-86 | the flush writes the changed row in place and keeps every other row |
| DemoTree.Created | src/modules/demo/services/demo-tree.service.ts:19-41 | a falsy parent gives a root with path = id and level 0; otherwise the parent must exist and differ from the node, and the node gets level parent+1 and path parent.path + "." + id within the depth limit; a missing parent fails |
| DemoTree.Rebase | src/modules/demo/services/demo-tree.service.ts:77-82 | intended rewrite: replaces the old node path prefix by the new one, so a descendant stays under the moved node |
| DemoTree.RebaseAgreesOnEqualLength | src/modules/demo/services/demo-tree.service.ts:78-79 | the rewrite as written equals the intended one whenever old and new node paths have the same length |
| DemoTree.RebaseAsWrittenMisplacesDescendant | src/modules/demo/services/demo-tree.service.ts:78-80 | as written, moving `1.2` to the root turns descendant `1.2.3` into `2.2.3` at level 2, where the intended rewrite gives `2.3` at level 1 |
| DemoTree.RebaseRow | src/modules/demo/services/demo-tree.service.ts:78-80 | as written: a rewritten descendant keeps its id, name and parent, gets the new node path followed by its old path from the new path's length on, and level = segments - 1 |
| DemoTree.RebaseRowIntended | src/modules/demo/services/demo-tree.service.ts:78-80 | intended: as `RebaseRow`, with the old node path prefix replaced by the new one |
| DemoTree.Moved | src/modules/demo/services/demo-tree.service.ts:61-74 | no parent makes a root; a missing parent fails; a parent among the node's descendants fails with UnderOwnDescendant; under a stored non-descendant parent the move succeeds if and only if the generated path is within the depth limit, and otherwise fails with DepthExceeded; a success takes level and path from the parent |
| DemoTree.Cascade | src/modules/demo/services/demo-tree.service.ts:77-82 | as written: fails with DepthExceeded exactly when some descendant's rewritten path exceeds the depth limit; otherwise returns the rewritten table |
| DemoTree.CascadeRows | src/modules/demo/services/demo-tree.service.ts:77-82 | as written: the cascade keeps every row's id and position |
| DemoTree.CascadeIntended | src/modules/demo/services/demo-tree.service.ts:77-82 | intended: fails with DepthExceeded exactly when some descendant's intended path exceeds the depth limit; otherwise returns the intended table |
| DemoTree.CascadeRowsIntended | src/modules/demo/services/demo-tree.service.ts:77-82 | intended: the cascade keeps every row's id and position |
| DemoTree.CascadesAgree | src/modules/demo/services/demo-tree.service.ts:77-82 | the cascade as written and the intended one give the same outcome when the node's path keeps its length |
| DemoTree.Rewritten | src/modules/demo/services/demo-tree.service.ts:77-80 | as written: exactly the descendants are rewritten; every other row is unchanged |
| DemoTree.RewriteDescendants | src/modules/demo/services/demo-tree.service.ts:77-82 | the loop as written fails exactly when some rewritten descendant would be too deep, and otherwise yields `Rewritten` |
| DemoTree.CascadeIsRewriteThenPlace | src/modules/demo/services/demo-tree.service.ts:77-86 | the cascade is the descendant rewrite followed by writing the moved node |
| DemoTree.Renamed | src/modules/demo/services/demo-tree.service.ts:52-53 | only the supplied name and description change |
| DemoTree.Updated | src/modules/demo/services/demo-tree.service.ts:49-87 | as written: a missing node fails; the node as its own parent fails with SelfParent; without a parent change only name and description change; a success keeps every id in place |
| DemoTree.UpdatedIntended | src/modules/demo/services/demo-tree.service.ts:49-87 | intended: the same error cases and rename-only result as `Updated`, with the intended cascade |
| DemoTree.UpdatedAgreesOnEqualLength | src/modules/demo/services/demo-tree.service.ts:72-82 | `update` as written and the intended update give the same result whenever the node's path keeps its length (every rename, every refused move, every move to an equally long path) |
| DemoTree.Removed | src/modules/database/base/base.service.ts:99-105 | fails with NotFound exactly when the id is absent; otherwise removes exactly that row |
| DemoTree.BatchRemoved | src/modules/demo/services/demo-tree.service.ts:93-97 | removes in request order and never grows the table |
| DemoTree.BatchRemovedAll | src/modules/demo/services/demo-tree.service.ts:93-97 | a successful batch leaves exactly the rows whose id was not listed |
| DemoTree.BatchRemovedStops | src/modules/demo/services/demo-tree.service.ts:93-97 | a failing batch stops at the first absent id, after removing the ids before it |
| DemoTree.DemoTreeService.constructor | src/modules/demo/services/demo-tree.service.ts:13-17 | an empty table with the counter at 1 |
| DemoTree.DemoTreeService.Complete | src/modules/demo/services/demo-tree.service.ts:27-37 | path generation, the depth check, the self-parent check and the parent lookup compute `Created` |
| DemoTree.DemoTreeService.Create | src/modules/demo/services/demo-tree.service.ts:19-41 | consumes one id; the result is `Created` over the table with the placeholder; the stored row is the created node, or the placeholder when creation failed |
| DemoTree.DemoTreeService.Update | src/modules/demo/services/demo-tree.service.ts:49-87 | an error leaves the table unchanged; a success stores exactly `Updated` (the cascade as written) and returns the stored node |
| DemoTree.DemoTreeService.Stage | src/modules/demo/services/demo-tree.service.ts:50-82 | the checks and the cascade as written, before the flush, compute `Updated` |
| DemoTree.DemoTreeService.Place | src/modules/demo/services/demo-tree.service.ts:61-74 | the parent handling computes `Moved` |
| DemoTree.DemoTreeService.Remove | src/modules/database/base/base.service.ts:99-105 | stores `Removed` on success and nothing on failure |
| DemoTree.DemoTreeService.BatchRemove | src/modules/demo/services/demo-tree.service.ts:93-97 | the table and result are exactly `BatchRemoved` |
| TreeEdits.CreatePreservesWellFormed | src/modules/demo/services/demo-tree.service.ts:19-41 | a successful create keeps the table well formed |
| TreeEdits.PlaceholderIsInconsistent | src/modules/demo/services/demo-tree.service.ts:22-28 | the placeholder row (empty path) is never well formed |
| TreeEdits.FailedCreateLeavesInconsistentTable | src/modules/demo/services/demo-tree.service.ts:27-38 | a failed create leaves a table that is not well formed |
| TreeEdits.CreateUnderItselfIsRefused | src/modules/demo/services/demo-tree.service.ts:30-31 | creating a node under its own fresh id fails with SelfParent, because that id is already stored as the placeholder |
| TreeEdits.CreateDepthLimit | src/modules/demo/services/demo-tree.service.ts:30-38 | a child of a stored node is created if and only if the parent's level + 1 is below 10 |
| TreeEdits.CascadeRowWellFormed | src/modules/demo/services/demo-tree.service.ts:77-82 | after a move with the intended cascade, each row is consistent with its parent |
| TreeEdits.CascadeWellFormed | src/modules/demo/services/demo-tree.service.ts:77-82 | after a move with the intended cascade, the whole table is well formed |
| TreeEdits.RenamePreservesWellFormed | src/modules/demo/services/demo-tree.service.ts:52-53 | renaming keeps the table well formed |
| TreeEdits.UpdatePreservesWellFormed | src/modules/demo/services/demo-tree.service.ts:49-87 | every successful intended update keeps the table well formed |
| TreeEdits.UpdateKeepsWellFormedOnEqualLength | src/modules/demo/services/demo-tree.service.ts:49-87 | `update` as written keeps the table well formed whenever the node's path keeps its length |
| TreeEdits.PromoteAsWrittenBreaksTable | src/modules/demo/services/demo-tree.service.ts:61-82 | on the consistent table `1`, `1.2`, `1.2.3`, promoting node 2 to a root succeeds as written and leaves a table that is not well formed |
| TreeEdits.PromoteIsCascade | src/modules/demo/services/demo-tree.service.ts:55-82 | promoting a stored node to a root is the cascade below the root path made of its id alone |
| TreeEdits.UpdateRefusesDescendantParent | src/modules/demo/services/demo-tree.service.ts:60-69 | moving a node under one of its descendants always fails with UnderOwnDescendant |
| TreeEdits.MoveUnderDescendantRefused | src/modules/demo/services/demo-tree.service.ts:66-69 | naming a stored descendant as the new parent fails with UnderOwnDescendant |
| TreeEdits.RemovePreservesWellFormedIffLeaf | src/modules/database/base/base.service.ts:99-105 | removing a node keeps the table well formed if and only if the node has no children |
| Users.FirstUser | src/modules/user/services/user.service.ts:31-35 | the first stored user matching the query, or none exactly when nobody matches |
| Users.FirstUserAgrees | src/modules/auth/services/auth.service.ts:88-91 | two queries that agree on every row find the same user |
| Users.ReplaceUser | src/modules/user/services/user.service.ts:98 | the flush writes the changed user in place and keeps everyone else |
| Users.CreateConflict | src/modules/user/services/user.service.ts:31-47 | no conflict if and only if nobody shares the username, email or supplied phone; each conflict names a field that really clashes |
| Users.CreateUser | src/modules/user/services/user.service.ts:29-61 | succeeds if and only if nothing clashes; the new user has the given fields, the hash, status PendingVerification, an unverified email, 0 attempts and no roles, with avatar and phone only when truthy |
| Users.CreateKeepsKeysUnique | src/modules/user/services/user.service.ts:29-61 | creating keeps usernames, emails and phones unique |
| Users.ChangeUsername | src/modules/user/services/user.service.ts:67-73 | a new truthy username that someone holds fails with UsernameTaken; otherwise it is set |
| Users.ChangeEmail | src/modules/user/services/user.service.ts:76-83 | a changed email that someone holds fails with EmailTaken; a changed email resets verification |
| Users.ChangePhone | src/modules/user/services/user.service.ts:86-92 | a changed phone that someone holds fails with PhoneTaken; otherwise it is set |
| Users.ChangeProfile | src/modules/user/services/user.service.ts:94-96 | only the truthy nickname and avatar and a supplied status change |
| Users.UpdateUser | src/modules/user/services/user.service.ts:63-100 | a missing user is NotFound; every other failure is one of the three conflicts |
| Users.UpdateTouchesOnlySupplied | src/modules/user/services/user.service.ts:63-100 | a successful update changes exactly the supplied fields, keeps password, attempts and roles, and clears email verification only when the email changed |
| Users.ReplaceKeepsKeysUnique | src/modules/user/services/user.service.ts:98 | writing back a user whose keys nobody else holds keeps keys unique |
| Users.UpdateKeepsKeysUnique | src/modules/user/services/user.service.ts:63-100 | a successful update keeps usernames, emails and phones unique |
| Users.PasswordChanged | src/modules/user/services/user.service.ts:125-141 | missing user is NotFound; a wrong old password is WrongOldPassword; an unchanged password is SamePassword; a stored user whose old password verifies and differs from the new one always succeeds; success stores the new hash and changes nothing else |
| Users.RolesAssigned | src/modules/user/services/user.service.ts:146-157 | missing user is NotFound; on success the user's roles are exactly the requested roles of the table, one per requested id, and nothing else changes |
| Users.Requested | src/modules/user/services/user.service.ts:148 | exactly the table's roles whose id was asked for |
| Users.RolesAssignedIffAllExist | src/modules/user/services/user.service.ts:148-152 | with distinct ids, assignment succeeds if and only if every requested role exists |
| Users.AssignRolesRefusesRepeatedId | src/modules/user/services/user.service.ts:150-151 | repeating an existing role id is refused with SomeRolesMissing |
| Users.RolesCleared | src/modules/user/services/user.service.ts:173-177 | fails exactly for a missing user; otherwise the roles become empty and nothing else changes |
| Users.FirstRole | src/modules/user/services/user.service.ts:188 | the first held role with the id, or none exactly when none is held |
| Users.RoleRemoved | src/modules/user/services/user.service.ts:182-195 | missing user is NotFound; a role not held is RoleNotHeld; removing a held role from a stored user always succeeds; success removes exactly the held role |
| Users.UserStore.constructor | src/modules/user/services/user.service.ts:25-27 | no users, counter at 1, the given role table |
| Users.UserStore.Save | src/modules/user/services/user.service.ts:98 | writes one user back and keeps keys unique |
| Users.UserStore.Create | src/modules/user/services/user.service.ts:29-61 | returns `CreateUser`; on success appends it and consumes one id, otherwise changes nothing |
| Users.UserStore.Update | src/modules/user/services/user.service.ts:63-100 | returns `UpdateUser`; stores it on success, otherwise changes nothing |
| Users.UserStore.Change | src/modules/user/services/user.service.ts:67-96 | the three key checks in turn, then the profile fields, each failing check ending the update |
| Users.UserStore.CheckUsername | src/modules/user/services/user.service.ts:67-73 | the username step computes `ChangeUsername` |
| Users.UserStore.CheckEmail | src/modules/user/services/user.service.ts:76-83 | the email step computes `ChangeEmail` |
| Users.UserStore.CheckPhone | src/modules/user/services/user.service.ts:86-92 | the phone step computes `ChangePhone` |
| Users.UserStore.ChangePassword | src/modules/user/services/user.service.ts:125-141 | stores `PasswordChanged` on success and nothing on failure |
| Users.UserStore.AssignRoles | src/modules/user/services/user.service.ts:146-157 | returns `RolesAssigned` and stores it on success |
| Users.UserStore.RemoveUserRoles | src/modules/user/services/user.service.ts:173-177 | stores `RolesCleared` on success and nothing on failure |
| Users.UserStore.RemoveUserRole | src/modules/user/services/user.service.ts:182-195 | stores `RoleRemoved` on success and nothing on failure |
| Auth.Validated | src/modules/auth/services/auth.service.ts:29-58 | a non-active account fails unchanged; a wrong password adds one attempt and locks at 5 with TooManyAttempts (BadCredentials before); success if and only if active with the right password, resetting attempts to 0 |
| Auth.Credited | src/modules/auth/services/auth.service.ts:22-26 | the first user whose username or email is the credential, or none exactly when nobody matches |
| Auth.LoggedIn | src/modules/auth/services/auth.service.ts:21-59 | an unknown credential is BadCredentials and changes nothing; otherwise the attempt's user is written back and its result returned |
| Auth.LockedIsAbsorbing | src/modules/auth/services/auth.service.ts:30-31 | a locked account stays locked and unchanged whatever the password |
| Auth.ActiveBelowLimitIsKept | src/modules/auth/services/auth.service.ts:43-50 | an active account below the limit is either still active below the limit, or locked with exactly 5 attempts |
| Auth.LoginKeepsLockoutConsistent | src/modules/auth/services/auth.service.ts:21-59 | logins keep every active account below 5 attempts |
| Auth.AfterFailures | src/modules/auth/services/auth.service.ts:43-53 | repeated failures never change id, username, email or password |
| Auth.FailuresCount | src/modules/auth/services/auth.service.ts:43-53 | each failure below the limit adds exactly one attempt; the failure that reaches 5 reports TooManyAttempts |
| Auth.FailuresLock | src/modules/auth/services/auth.service.ts:46-49 | an active account is locked exactly by the failure that brings it to 5 attempts, and not before |
| Auth.AfterFailuresStep | src/modules/auth/services/auth.service.ts:43-53 | n+1 failures are one failed attempt after n failures |
| Auth.FreshAccountLocksAtFifthFailure | src/modules/auth/services/auth.service.ts:46-49 | a fresh active account survives four failures and is locked by the fifth |
| Auth.Registered | src/modules/auth/services/auth.service.ts:86-109 | succeeds if and only if nobody holds the username or email; the conflict names the clashing field; the new user has nickname = username, status PendingVerification, 0 attempts, no roles |
| Auth.RegisterIsCreate | src/modules/auth/services/auth.service.ts:86-109 | registering is creating with nickname = username and no avatar or phone |
| Auth.Refreshed | src/modules/auth/services/auth.service.ts:129-161 | every failure is Unauthorized(TokenInvalid); success if and only if the token names an existing active user |
| Auth.AuthService.constructor | src/modules/auth/services/auth.service.ts:15-19 | works on the given store |
| Auth.AuthService.ValidateUser | src/modules/auth/services/auth.service.ts:21-59 | the new users and the result are exactly `LoggedIn` |
| Auth.AuthService.Register | src/modules/auth/services/auth.service.ts:86-109 | returns `Registered`; on success appends the user and consumes one id, otherwise changes nothing |
| Rbac.Codes | src/modules/rbac/services/rbac.service.ts:23-26 | exactly the permission codes of any of the roles |
| Rbac.CheckPermissions | src/modules/rbac/services/rbac.service.ts:10-29 | false for an unknown user; otherwise true if and only if every required code is granted by one of the user's roles |
| Rbac.UnknownUserHasNoPermission | src/modules/rbac/services/rbac.service.ts:19-21 | an unknown user is refused even when nothing is required |
| Rbac.NothingRequired | src/modules/rbac/services/rbac.service.ts:28 | an empty requirement is met exactly by existing users |
| Rbac.OnlyTheRequiredSetMatters | src/modules/rbac/services/rbac.service.ts:28 | order and repetition of the required codes do not matter |
| Rbac.Monotone | src/modules/rbac/services/rbac.service.ts:23-28 | roles that grant at least the same codes (more roles, a role that gains a code, any order of roles or permissions) and fewer required codes never turn a yes into a no |
| Rbac.MoreRolesKeepPermissions | src/modules/rbac/services/rbac.service.ts:23-28 | a user given more roles keeps every permission it had |
| Rbac.CheckIsAllowed | src/modules/rbac/services/rbac.service.ts:10-29 | for a stored user, the check is whether their roles grant every required code |
| Sanitize.MaskFields | src/modules/logger/middlewares/logger.middleware.ts:88-100 | keeps every key; listed keys hold the mask, others keep their value |
| Sanitize.Masked | src/modules/core/providers/app.filter.ts:99-111 | a falsy record passes through; otherwise no key is added or dropped, listed keys hold the mask, others keep their value |
| Sanitize.MaskOneMore | src/modules/logger/middlewares/logger.middleware.ts:94-98 | masking one more field overwrites it when present and changes nothing else |
| Sanitize.Mask | src/modules/logger/middlewares/logger.middleware.ts:88-100 | the copy-then-overwrite loop computes `Masked` |
| Sanitize.MaskedIdempotent | src/modules/core/providers/app.filter.ts:99-111 | sanitizing twice equals sanitizing once |
| Sanitize.MaskedHidesExactlyListed | src/modules/core/providers/app.filter.ts:99-111 | only listed fields change, and every present listed field is hidden |
| Sanitize.MaskedMonotone | src/modules/logger/middlewares/logger.middleware.ts:88-117 | masking with more field names masks at least as much |
| Sanitize.SanitizeBody | src/modules/logger/middlewares/logger.middleware.ts:88-100 | exactly the present password, token, secret and authorization fields are masked |
| Sanitize.SanitizeHeaders | src/modules/logger/middlewares/logger.middleware.ts:105-117 | exactly the present authorization, cookie and x-auth-token headers are masked |
| AppFilter.FormatMessage | src/modules/core/providers/app.filter.ts:142-149 | a string response is kept; a message array is joined with ", " (length = parts + separators, every part occurs); a single message is kept; an object without a message prints as "[object Object]" |
| AppFilter.JoinHoldsEveryPart | src/modules/core/providers/app.filter.ts:146 | every message part occurs in the joined text |
| AppFilter.ErrorText | src/modules/core/providers/app.filter.ts:132 | a status with a message gets that message; an unknown status gets "Unknown Error"; never empty |
| AppFilter.FailureStatusHasText | src/modules/core/constants.ts:26-84 | every error status the services raise has its own message |
| AppFilter.InstanceOf | src/modules/core/constants.ts:87-123 | an exception is an instance of its own class |
| AppFilter.FirstMatch | src/modules/core/providers/app.filter.ts:54-56 | the first table entry whose class the exception is an instance of, or none exactly when no entry matches |
| AppFilter.CreateErrorResponse | src/modules/core/providers/app.filter.ts:116-137 | the response carries the status, message, path, method and timestamp, and the status's error text |
| AppFilter.Catch | src/modules/core/providers/app.filter.ts:26-72 | HTTP errors keep their status and formatted message; otherwise the first matching mapping gives status and message (the exception's own message when the mapping's is empty); otherwise 500 with the exception's message |
| AppFilter.MappedStatusesHaveText | src/modules/core/constants.ts:87-123 | every mapped status and 500 have their own error text |
| AppFilter.FailureResponse | src/modules/core/providers/app.filter.ts:38-51 | a service failure is answered with its status and that status's message |
| AppFilter.TableNotFoundIsShadowed | src/modules/core/constants.ts:103-117 | as written, a missing table is caught by the earlier database-object entry, and the table-not-found entry is never chosen |
| AppFilter.EveryOrderedMappingIsReachable | src/modules/core/constants.ts:87-123 | corrected: with subclasses before superclasses, the table holds the same entries and each entry is the first match for its own class |
| RequestLogger.LogLevel | src/modules/logger/middlewares/logger.middleware.ts:40-46 | error if and only if status >= 500, warn if and only if 400 <= status < 500, info otherwise |
| RequestLogger.LevelMonotone | src/modules/logger/middlewares/logger.middleware.ts:40-46 | a higher status never gets a lower level |
| RequestLogger.FailuresAreWarnings | src/modules/logger/middlewares/logger.middleware.ts:42-43 | every error the services raise is logged as a warning |
| Errors.StatusOf | src/modules/core/providers/app.filter.ts:40 | every error the services raise has a 4xx status: the status `getStatus()` reports for the exception classes of @nestjs/common that the services throw (BadRequest 400, Unauthorized 401, NotFound 404, Conflict 409); those classes are not part of this model |
| Text.DecimalRoundTrip | src/modules/database/base/base-tree.service.ts:105 | parsing the decimal text of an id gives the id back |
| Text.Includes | src/modules/database/base/base-tree.service.ts:128 | the substring test is true if and only if the text occurs somewhere |
| Text.JoinLength | src/modules/core/providers/app.filter.ts:146 | a joined text's length is the parts' total plus the separators |

## Left out

- Database access, the ORM unit of work and its `flush` timing are modelled as reading and writing a value. Only the commit points the code makes are kept: create's first flush, and update's single flush.
- `LIKE` matching in `findByQuery` is left out. Its filtering is the generic `List`/`Paginate` over a predicate.
- Password hashing and verification (argon2) are parameters: `hashed` is the hash, and `verify` is the check.
- Token signing and verification (JWT) are left out. `Auth.Refreshed` takes the verified subject, or `None` for a token that fails verification.
- Token generation, `lastLoginAt`, `lastPasswordChange` and timestamps are left out because they come from the clock and the signer. The timestamp is a parameter of the error response.
- Logging output (winston) is left out. Only the choice of level and the masking are modelled.
- The `path` column's 255-character limit is not modelled, and neither are database-level constraints (unique indexes, the foreign key's delete rule) beyond what the services check themselves.
- `Number()` on a segment that is not a run of digits (NaN) is not modelled: such a segment names no id.
- Ordering ties in `findAll` (rows of equal level) are not fixed. Only ordering by level and permutation are stated.
- The exception class hierarchy of the ORM library is encoded in `AppFilter.InstanceOf` from the library's declarations; the library itself is not part of this model. `Error.message` is a field of the thrown value.
- Request bodies and headers are maps from field names to printed values. JavaScript's `isObject` on arrays and nested objects is not modelled; only top-level fields are masked, as in the code.
- Concurrency between requests is not modelled. Neither are controllers, guards, DTO validation pipes, or `getUserRoles`, which is a plain read.
- BaseService.Paginate: requires page >= 1 and limit >= 1, which the DTO validation guarantees; other values are not modelled.
- AppFilter.ErrorText: states the table's message only for statuses whose message is non-empty (all of them are).
- DemoTree.BatchRemoved: its own contract states only the size bound; what it removes is stated by `BatchRemovedAll` and `BatchRemovedStops`.
- DemoTree.Updated: the table is not shown to stay well formed in general, because as written it does not (`TreeEdits.PromoteAsWrittenBreaksTable`). Well-formedness is proved for `UpdatedIntended`, and for `Updated` when the node's path keeps its length.
- Users.CreateUser: a create request without a nickname is not modelled. The create DTO (user.dto.ts:20-51) does not declare `nickname`, so such a request would write `undefined` into the non-null `nickname` column; the model takes the nickname as a required input.
- Users.CreateConflict: the username, email and phone lookups compare strings exactly. The MySQL collation of the columns, which may compare case-insensitively and ignore trailing spaces, is left out.
- Auth.Registered: the username and email lookups compare strings exactly; collation is left out, as for `CreateConflict`.
- Auth.Credited: the credential lookup compares strings exactly; collation is left out, as for `CreateConflict`.
- Users.UpdateUser: its own contract states only the error cases; the result of a success is stated by `UpdateTouchesOnlySupplied`.

## Findings

| source | as written | input that shows it | evidently intended | confidence | as-written member | corrected member |
|---|---|---|---|---|---|---|
| src/modules/demo/services/demo-tree.service.ts:78 | each descendant keeps `descendant.path.substring(node.path.length)` after the new prefix, and `node.path` is already the NEW path | move node `1.2` (child `1.2.3`) to the root: new path `2`, child becomes `2.2.3` | cut the OLD path: the child becomes `2.3`, still under the moved node | high, not executed | TreeEdits.PromoteAsWrittenBreaksTable, DemoTree.RebaseAsWrittenMisplacesDescendant | DemoTree.UpdatedIntended, TreeEdits.UpdatePreservesWellFormed |
| src/modules/database/base/base-tree.service.ts:128 | `path.includes(ancestorId + '.')` tests for a substring | nodes `12` and `12.5`: `isAncestor(2, 5)` is true because `2.` occurs in `12.5` | compare whole path segments | high, not executed | TreeTheory.IsAncestorFalsePositive | TreeTheory.IsAncestorBySegmentExact |
| src/modules/core/constants.ts:103-117 | the database-object-not-found entry comes before the table-not-found entry, and `find` takes the first `instanceof` match | a thrown table-not-found exception (a subclass of database-object-not-found) gets "请求的数据不存在，请刷新后重试" | the table-not-found entry's message "系统配置异常，请联系管理员" | medium, not executed | AppFilter.TableNotFoundIsShadowed | AppFilter.EveryOrderedMappingIsReachable |
