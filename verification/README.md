# A verified model of the Fabric CA registry

The project models the server side of Hyperledger Fabric CA: the registry of identities, affiliations and
certificates, the rules by which a registrar delegates authority, the affiliation trees and listings the server
answers with, and three small stateful services (nonces, revocation handles, derived keys). `dafny verify
dfyconfig.toml` checks everything.

Each operation that changes state is an imperative method over the modelled tables, objects or arrays, and its
contract ties the new state to a specification; the theorems are about those specifications. What the specifications
of the requests mean is proved once more without them, row by row and field by field, in `Requirements.dfy`.

| file | what it models |
|---|---|
| `Strings.dfy`, `Paths.dfy` | the parts of Go's `strings` the code relies on; dotted names, parents, subtrees, prefix substitution |
| `Attributes.dfy` | attribute lists, the map they are read through, `getNewAttributes` |
| `Tables.dfy`, `Accessor.dfy` | the three tables; the removal and rename transactions, all-or-nothing |
| `Delegation.dfy` | attribute, type and affiliation checks; authority along chains of registrations |
| `Enrollment.dfy` | the enrollment limit, sequentially and under any interleaving |
| `Handlers.dfy`, `Runs.dfy`, `Loader.dfy` | the request handlers, invariants of every serialized run, the configuration loader |
| `Requirements.dfy` | what each request needs and leaves behind, said of rows and request fields alone |
| `RevocationList.dfy` | from the revocations of a run to the revocation lists of its states |
| `AffiliationTree.dfy`, `AffiliationOrder.dfy` | the recursive response builder on a shared slice, and in which order of the list it names everything once |
| `AffiliationResponse.dfy` | the responses to removing, renaming and reading an affiliation |
| `Trie.dfy` | the mutable trie behind the list of all affiliations |
| `JsonStreamer.dfy`, `JsonSearch.dfy` | the client's token walk; which callbacks are owed and when it fails, said of values |
| `Listing.dfy` | the server's piecewise listing, and server and client together |
| `Serials.dfy`, `CertQueries.dfy` | serial numbers, certificate queries with placeholders, the revocation list |
| `Nonces.dfy`, `RevocationHandles.dfy`, `KeyTree.dfy` | the small services |

Where the code does not do what one would expect, the code is followed, an input is given, and the exact condition is
proved:

- The recursive response builder deletes from a slice whose array its callers share. On every listing of a subtree, in
  any order, it ends and names exactly the listed affiliations, each under its parent (`AffiliationOrder.ExactlyListed`),
  but each only once if and only if the order meets `OnceOrder` (`AffiliationOrder.OnceExactly`): follow the first child
  that has children down to the first node whose children have none; when the last child of that node is taken, the list
  must end in it or in the root. A list that ends in the root, as removal arranges it, does
  (`AffiliationOrder.RootLastInOrder`); rows in order of insertion need not (`AffiliationOrder.RootFirstListsTwice`).
- The response to a removal or a rename is built after the transaction has been committed, and is an error if a row of
  the subtree has no parent among the rows. An allowed removal is always carried out, and answered exactly if every row
  below the name has its parent in the table; the same holds of a rename and its new subtree
  (`AffiliationResponse.SubtreeAnswered`, `AffiliationResponse.RenamedClosed`). `AffiliationResponse.RemovedWithError`
  empties a table and is answered with an error.
- A rename stops where the target of a row is taken when its turn comes. On a parent-closed table that cannot happen; in
  general it depends on the order of the rows (`Accessors.Accessor.RenameRows`). The original then panics inside the
  transaction, which is neither committed nor rolled back: the tables keep their rows, but the connection stays in use.
- Rename never looks at the new parent. The table stays parent-closed exactly when the new name is top-level or its
  parent stays in the table (`Tables.RenameParentClosed`), and prekeys stay right exactly when the parent is the same
  (`Tables.RenamePrekeys`); `Accessors.RenameLosesParent` does neither. Renaming back restores the table exactly when
  the parent of the old name does not mention the new name (`Tables.RenameBackAffs`,
  `Accessors.RenameBackSpoilsPrekey`).
- Rename accepts the empty name. Renaming back then takes users with the root affiliation along: the affiliation columns
  are restored exactly when the name in between is not empty or no user has the root affiliation
  (`Accessors.Accessor.RenameThereAndBack`, `Accessors.RenameBackTakesRootUsers`).
- A change to an attribute that is listed twice is lost (`Attributes.PutShadowed`, `Attributes.ShadowedChange`); on
  names listed at most once `getNewAttributes` is the map update (`Attributes.PutView`).
- The streamer takes an empty key for the end of its object. On the tokens of any value it succeeds and consumes them
  all if and only if the value has no empty key where it looks, no object at a searched path and no failing callback is
  owed (`JsonStreamer.JsonStream.StreamWhole`, `JsonStreamer.EmptyKeyEndsObject`).
- `parseInput` trims zeros before it removes colons, so a colon-separated serial finds its record exactly when no zero
  follows the colons behind its leading zeros (`Serials.ParseInputExact`, `Serials.ColonKeepsZero`).
- Revocation by name runs two statements outside any transaction. If the second fails the identity is disabled, and
  locked out exactly if it had no certificate in good standing; otherwise it can reenroll as before
  (`Runs.HalfRevoked`). If only the revocation list fails that was asked for, the answer is an error although all is
  done.
- A listing that fails between two rows, or whose chunk size is zero, has sent the status of success and leaves its
  array open: the body is well-formed exactly if the handler finishes or fails before it writes anything
  (`Listing.WellFormedExactly`, `Listing.BrokenListing`).
- The check of delegate roles against roles reads the first entry of a name, the identity the last. What the identity
  reads is covered if neither is requested twice (`Delegation.DelegatesWithinRoles`); of two requested lists only the
  first is checked (`Delegation.SecondUnchecked`, `Delegation.SecondDelegateUnchecked`).
- The rollover of the handle pool updates no row: handles are distinct exactly while the first pool lasts, and then
  the last one repeats (`RevocationHandles.RevocationAuthority.HandOut`).
- A nonce sweep that deletes can be observed exactly when a value is drawn again while its expired row is still stored
  (`Nonces.SweepsUnobservable`, `Nonces.ReuseObservesSweep`). The statement as written (lib/server/idemix/nonce.go:174-176)
  passes a positional placeholder to a call that binds named ones, so no argument is bound and a driver may refuse it;
  a sweep that fails is modelled too and can never be observed.
- A check whose DELETE fails still accepts, and the value is accepted again (`Nonces.AcceptedAgain`); only an acceptance
  that removed the value is the last (`Nonces.AcceptedAtMostOnce`).
- The key cache is addressed by joined paths. For every path with a slash in a component another path has the same
  spelling, and after it has been looked up the first gets its key (`KeyTrees.SlashMisleads`, `KeyTrees.SlashCollides`).
- A configured affiliation name with a dot is inserted without its parent, and with the wrong prekey. A completed load
  leaves a parent-closed table exactly if the old names and the names asked for are closed (`Loader.LoadedClosed`,
  `Loader.DottedNameLosesParent`), and right prekeys exactly if every insert that adds a row names the right parent
  (`Loader.LoadedPrekeys`, `Loader.DottedNameBesideParent`).

## Model

| member | source | states |
|---|---|---|
| `Strings.JoinSplit` | lib/util.go:147-149 | splitting a path and joining it again gives the path back, with separator-free components |
| `Strings.SplitJoin` | lib/dbaccessor.go:1061-1064 | joining separator-free components and splitting again gives the components back |
| `Strings.ReplaceChanges` | lib/dbaccessor.go:741-742 | replacing an occurrence by a different string always changes the string |
| `Paths.ChildIsParent` | lib/serveraffiliations.go:498-508 | the prefix and component-count test holds exactly when the parent of the second name is the first |
| `Paths.RebaseInSubtree` | lib/dbaccessor.go:741-741 | prefix substitution maps a subtree into the new subtree, is undone by the reverse substitution, and hits the new root only from the old one |
| `Paths.RebaseParent` | lib/dbaccessor.go:741-742 | below the root, substitution commutes with taking the parent |
| `Paths.BelowParent` | lib/serveraffiliations.go:498-508 | what is below a name is its children and what is below them |
| `Attributes.NewAttributeMap` | lib/dbaccessor.go:906-931 | the map built entry by entry is the last-entry-wins reading of the list |
| `Attributes.ListAttributes` | lib/dbaccessor.go:1077-1094 | listing an attribute map gives a duplicate-free list that reads back as that map |
| `Attributes.GetNewAttributes` | lib/serveridentities.go:510-539 | the nested scan that edits, deletes and appends computes the fold of single changes |
| `Attributes.PutOne` | lib/serveridentities.go:514-536 | the inner loop edits or deletes the first entry of the name, or appends |
| `Attributes.PutView` | lib/serveridentities.go:510-539 | on a name listed at most once, a change of the list is the change of the map, empty meaning delete |
| `Attributes.PutShadowed` | lib/serveridentities.go:510-539 | on a name listed more than once, a change alters nothing that is read |
| `Attributes.ShadowedChange` | lib/serveridentities.go:510-539 | an input: a name registered twice still reads its second value after a change |
| `Attributes.PutAllView` | lib/serveridentities.go:510-539 | on distinct names a run of changes is the last-writer-wins map update and names stay distinct |
| `Attributes.PutAllOneName` | lib/serveridentities.go:510-539 | for one name listed at most once, the last request for it decides and all others leave it alone |
| `Tables.AbsentAbove` | lib/dbaccessor.go:680-707 | in a parent-closed table every ancestor of a listed name is listed |
| `Tables.RemovalNeeds` | lib/dbaccessor.go:353-465 | a removal is not refused if and only if the affiliation is listed, force is given when there are rows below or users in the subtree, and with such users the caller is a registrar and identity removal is enabled |
| `Tables.RemovalIsExact` | lib/dbaccessor.go:353-465 | row by row: exactly the subtree and its users go, exactly their unrevoked certificates become revoked, for reason 3 at the time of the request with owner and expiry kept, every other row is untouched |
| `Tables.RenameNeeds` | lib/dbaccessor.go:709-821 | a rename is not refused if and only if the old name is listed, the new one is not, and with a user of a listed affiliation in the subtree the caller is a registrar and forces it |
| `Tables.FreshTargets` | lib/dbaccessor.go:680-707 | on a parent-closed table an absent new name means that no target name of the subtree is taken |
| `Tables.UsersFollow` | lib/dbaccessor.go:745-812 | when user affiliations are listed, exactly the users of the subtree move, to the rebased affiliation |
| `Tables.RenameKeepsUsersListed` | lib/dbaccessor.go:709-858 | a rename keeps every user affiliation listed |
| `Tables.RenamePrekeys` | lib/dbaccessor.go:741-742 | after a rename every prekey equals the parent if and only if old and new name have the same parent |
| `Tables.ReplacedPrekey` | lib/dbaccessor.go:741-742 | for a row of the subtree, substitution in the prekey gives the parent of the substituted name |
| `Tables.RenameParentClosed` | lib/dbaccessor.go:709-858 | a rename keeps the table parent-closed if and only if the new name is top-level or its parent stays in the table |
| `Tables.SameParentRename` | lib/dbaccessor.go:709-858 | a rename under the same parent keeps the table parent-closed |
| `Tables.WayBackIsFree` | lib/dbaccessor.go:709-858 | after a rename the way back meets no taken name and every moved row comes from an old one |
| `Tables.RenameBackAffs` | lib/dbaccessor.go:709-858 | there and back restores every row except possibly the root's prekey, and that one exactly when its text does not contain the intermediate name |
| `Tables.PrekeyThereAndBack` | lib/dbaccessor.go:741-742 | two substitutions restore the prekey of every moved row but the root's |
| `Tables.RenameBackUsers` | lib/dbaccessor.go:709-858 | there and back restores a user's affiliation column if and only if the name in between is not empty or the user does not have the root affiliation |
| `Accessors.Accessor.InsertAffiliation` | lib/dbaccessor.go:300-331 | inserting a listed name succeeds and changes nothing; otherwise one row is added or the call fails |
| `Accessors.Accessor.RevokeCertificatesOf` | lib/certdbaccessor.go:250-273 | exactly the unrevoked certificates of the given identities become revoked, with that reason and time and with owner and expiry kept; revoked ones keep reason and time |
| `Accessors.Accessor.DeleteUser` | lib/dbaccessor.go:183-222 | the user row goes and its certificates are revoked, or nothing changes |
| `Accessors.Accessor.SelectAffected` | lib/dbaccessor.go:353-395 | the two selects together list exactly the users in the subtree, each once |
| `Accessors.Accessor.RemoveRows` | lib/dbaccessor.go:395-465 | the delete and revoke statements add up to the removal of the subtree |
| `Accessors.Accessor.RemoveUsers` | lib/dbaccessor.go:419-444 | exactly the users of the subtree go and exactly their unrevoked certificates become revoked |
| `Accessors.Accessor.RemoveAffiliations` | lib/dbaccessor.go:446-461 | exactly the rows of the subtree go |
| `Accessors.Accessor.DeleteAffiliationTx` | lib/dbaccessor.go:353-465 | either a refusal with its exact reason, or the removal, reporting exactly the removed users and affiliations, root last |
| `Accessors.Accessor.DeleteAffiliation` | lib/dbaccessor.go:335-351 | the same with all three tables unchanged on refusal |
| `Accessors.MovedAttributes` | lib/dbaccessor.go:774-786 | the rebuilt list has distinct names and reads as before except for the new affiliation attribute |
| `Accessors.Accessor.MoveUsers` | lib/dbaccessor.go:764-812 | every listed user gets the new affiliation in column and attribute, all else and all others stay |
| `Accessors.Accessor.MoveHolders` | lib/dbaccessor.go:745-821 | the users of one affiliation are moved exactly if the caller is a registrar and forces it, and are reported |
| `Accessors.Accessor.RenameRow` | lib/dbaccessor.go:736-833 | one iteration moves one row and its users and keeps the half-done state consistent, or stops with the exact reason |
| `Accessors.NoneTaken` | lib/dbaccessor.go:822-832 | where no target name is taken the order of the rows does not matter |
| `Accessors.Accessor.RenameNext` | lib/dbaccessor.go:736-833 | one iteration in terms of the row order: it goes on exactly if the target is absent from the start or the name of a row moved before |
| `Accessors.Accessor.RenameRows` | lib/dbaccessor.go:734-833 | the loop moves exactly the given rows and their users, each user once; it collides exactly if, in the order given, some target is taken when its turn comes |
| `Accessors.Accessor.ModifyAffiliationTx` | lib/dbaccessor.go:709-858 | a successful transaction is the exact prefix substitution on the subtree, with the moved users and the new subtree reported; a refusal gives its exact reason |
| `Accessors.Accessor.ModifyAffiliation` | lib/dbaccessor.go:680-707 | success means that any user of a listed affiliation in the subtree came with force and a registrar; on a parent-closed table with the old name listed and the new one not it succeeds if and only if that holds; the tables are unchanged on every refusal and on a collision |
| `Accessors.Accessor.RenameThereAndBack` | lib/dbaccessor.go:680-858 | a forced rename by a registrar and the rename back both succeed; the resulting table is given outright and equals the first exactly under the stated condition, and so are the users' affiliation columns |
| `Accessors.RenameLosesParent` | lib/dbaccessor.go:741-742 | an input after which a parent is missing and a prekey is wrong |
| `Accessors.RenameBackSpoilsPrekey` | lib/dbaccessor.go:741-742 | an input whose prekey is not restored by renaming back |
| `Accessors.RenameBackTakesRootUsers` | lib/dbaccessor.go:680-858 | an input at which a user with the root affiliation ends up with another |
| `Delegation.SubsetTransitive` | util/util.go:398-407 | the case-insensitive comma-list inclusion is transitive |
| `Delegation.WildcardInSuperset` | util/util.go:838-847 | a list with the wildcard is included only in lists with the wildcard |
| `Delegation.CoversCompose` | lib/attr/attribute.go:288-304 | what a delegated wildcard pattern covers, the pattern that covered it covers |
| `Delegation.CanRegisterAttrComposes` | lib/attr/attribute.go:288-304 | the same for lists of patterns |
| `Delegation.ReadAttributesWereChecked` | lib/attr/attribute.go:54-103 | every attribute a new identity reads, the fixed ones apart, passed the registrar's checks |
| `Delegation.RolesShrink` | lib/attr/attribute.go:210-243 | the role lists of a new identity are covered by its registrar's |
| `Delegation.PatternsShrink` | lib/attr/attribute.go:260-286 | what the new identity's attribute patterns cover, its registrar's cover |
| `Delegation.TypesShrink` | lib/serverrequestcontext.go:534-569 | a type the new identity may act on, its registrar may act on |
| `Delegation.AffiliationsShrink` | lib/serverrequestcontext.go:460-485 | an affiliation the new identity contains, its registrar contains |
| `Delegation.ListsShrink` | lib/attr/attribute.go:210-243 | a role list the new identity may grant, its registrar may grant |
| `Delegation.AttributeShrinks` | lib/attr/attribute.go:73-103 | an attribute of any kind the new identity may grant, its registrar may grant |
| `Delegation.AuthorityShrinks` | lib/serverregister.go:183-202 | a request that passes for the new identity passes for its registrar |
| `Delegation.AuthorityNeverGrows` | lib/serverregister.go:183-202 | along a chain of registrations of any length, the head could have made every one of them |
| `Delegation.ParseBoolValues` | lib/attr/attribute.go:188-207 | which spellings are true, which false, which neither |
| `Delegation.BooleansHeld` | lib/attr/attribute.go:188-207 | a boolean attribute the new identity reads as true, its registrar reads as true |
| `Delegation.RolesHeld` | lib/attr/attribute.go:210-243 | a role list the new identity reads is within its registrar's, and its affiliation lies in its registrar's subtree |
| `Delegation.HeadHoldsBooleans` | lib/serverregister.go:183-202 | along a chain of registrations of any length a boolean power at the end is held at the head |
| `Delegation.HeadHoldsRoles` | lib/serverregister.go:183-202 | and role lists and the affiliation at the end are within those of the head |
| `Delegation.FixedNeverRequested` | lib/attr/attribute.go:158-186 | an approved request names none of the fixed attributes |
| `Delegation.FirstIsLast` | lib/attr/attribute.go:358-365 | the first and the last entry of a name are the same if there is at most one |
| `Delegation.DelegatesWithinRoles` | lib/attr/attribute.go:307-326 | the delegate roles a new identity reads are within the roles it reads if neither is requested twice |
| `Delegation.SecondUnchecked` | lib/attr/attribute.go:307-326 | of two requested lists of delegate roles the first is checked and any second one is read |
| `Delegation.SecondDelegateUnchecked` | lib/attr/attribute.go:307-326 | an input at which the delegate roles read are not within the roles |
| `Enrollment.GetMaxEnrollments` | lib/util.go:110-144 | a limit is accepted exactly if it is at least -1, the CA enrolls at all, and it is within the CA's limit; 0 stands for the CA's own; the stored limit is unlimited only if the CA is |
| `Enrollment.EffectiveMaxIsMinimum` | lib/dbaccessor.go:1001-1006 | with -1 read as infinity the effective limit is the smaller of the two |
| `Enrollment.DBUser.Login` | lib/dbaccessor.go:985-1019 | login succeeds exactly with the right password, a state other than -1, limits other than 0 and the state below each limit that is not -1; it stores the effective limit |
| `Enrollment.LoginMeans` | lib/dbaccessor.go:985-1019 | the same of the specification: the state may reach each limit but not pass it |
| `Enrollment.DBUser.LoginComplete` | lib/dbaccessor.go:1022-1058 | the counter of the current row goes up by one exactly when it is below the limit computed at login |
| `ConcurrentEnrollment.Requests.StartLogin` | lib/dbaccessor.go:985-1019 | a login on its own snapshot object takes the model's login step |
| `ConcurrentEnrollment.Requests.Finish` | lib/dbaccessor.go:1022-1058 | a completion on the current row takes the model's completion step |
| `ConcurrentEnrollment.Interleave` | lib/serverenroll.go:68-82 | login and completion calls of any number of request objects in any order on one table are a run of the model |
| `ConcurrentEnrollment.StepKeepsInv` | lib/dbaccessor.go:985-1058 | every step of any request keeps: counter equals start plus successes, bounded by the limit |
| `ConcurrentEnrollment.RunKeepsInv` | lib/serverenroll.go:68-82 | so does every interleaving |
| `ConcurrentEnrollment.LimitHolds` | lib/serverenroll.go:68-82 | in every interleaving successes equal the increase of the counter, from 0 they never exceed the effective limit, and a completion is refused only when the limit is used up |
| `ConcurrentEnrollment.LetIn` | lib/dbaccessor.go:1011-1014 | an idle request with the right password is logged in by its login event exactly while the state is below each limit that is not -1 |
| `ConcurrentEnrollment.OnePair` | lib/serverenroll.go:68-82 | a login and its completion succeed exactly while there is room, and then add one to the counter |
| `ConcurrentEnrollment.SerialExact` | lib/serverenroll.go:68-82 | of n serialized pairs from state 0 exactly the smaller of n and the limit succeed, and all n without a limit |
| `Handlers.TokenAuthentication` | lib/serverrequestcontext.go:152-200 | a token passes exactly with a valid signature, a recorded unrevoked certificate and a current user |
| `Handlers.HandleRegister` | lib/serverregister.go:74-202 | success exactly when allowed; then exactly one user row with the three fixed attributes is added, otherwise nothing changes |
| `Handlers.GetModifyReq` | lib/serveridentities.go:448-486 | field by field assignment computes the modified row, fixed attributes following type and affiliation |
| `Handlers.HandleModify` | lib/serveridentities.go:373-444 | success exactly when allowed; then exactly that row changes, its state kept |
| `Handlers.HandleRemove` | lib/serveridentities.go:272-322 | success exactly when allowed; then the row goes and its certificates are revoked |
| `Handlers.ParentOfSplit` | lib/serveraffiliations.go:320-330 | joining all but the last component is the parent of a dotted name |
| `Handlers.AddWithParents` | lib/serveraffiliations.go:302-318 | a forced add inserts the prefixes in order and stops only at a failing insert, leaving the earlier ones |
| `Handlers.HandleAddAffiliation` | lib/serveraffiliations.go:272-347 | an allowed add inserts the name under its listed parent, or with force the missing prefixes; a refused one changes nothing |
| `Handlers.CommitRename` | lib/serveraffiliations.go:349-395 | a rename needs the manager attribute and both names inside the caller's affiliation; an allowed one is committed exactly unless, in the order of the rows, a target name is taken |
| `Handlers.CommitRemoval` | lib/serveraffiliations.go:222-260 | a removal is committed exactly if enabled, by a manager, inside but not of the caller's own affiliation, and not refused; it reports exactly what it removed, root last |
| `Handlers.HandleSign` | lib/serverenroll.go:95-213 | a certificate is recorded exactly when both names in the request are the enrollment ID and the CA flag is permitted, and always under that ID |
| `Handlers.HandleEnroll` | lib/serverenroll.go:68-82 | a serialized enroll that logs in and signs always completes, with the counter up by one |
| `Handlers.HandleReenroll` | lib/serverenroll.go:85-92 | a reenroll needs an accepted token and leaves the counter alone |
| `Handlers.RevokeOne` | lib/serverrevoke.go:106-111 | exactly one certificate becomes revoked, with that reason and time, and is reported, or the statement fails and nothing changes |
| `Handlers.RevokeAll` | lib/serverrevoke.go:131-145 | two statements: the identity is disabled, then its unrevoked certificates are revoked and reported; a failure of the second leaves the first |
| `Handlers.RevokeCertificate` | lib/serverrevoke.go:74-111 | revocation by serial succeeds exactly for an unrevoked certificate of the named owner that the caller manages or presents |
| `Handlers.RevokeIdentity` | lib/serverrevoke.go:112-153 | revocation by name completes exactly for a current identity that is or is managed by the caller when no statement fails; what a failure leaves is stated |
| `Handlers.RevokeParsed` | lib/serverrevoke.go:43-169 | exactly an allowed revocation changes the tables, as far as its statements succeed; it is answered with the certificates newly revoked unless a statement or the revocation list asked for fails |
| `Handlers.HandleRevoke` | lib/serverrevoke.go:43-173 | the same from the spelled serial and key identifier |
| `Runs.Serve` | lib/serverregister.go:43-72 | each handler takes exactly its step of the registry's transition relation |
| `Runs.ServeAll` | lib/dbaccessor.go:860-882 | serving any list of requests is a run of that relation |
| `Runs.StepKeepsUsersListed` | lib/serverregister.go:117-136 | every request keeps every user affiliation listed |
| `Runs.RunKeepsUsersListed` | lib/serveridentities.go:403-412 | so does every run |
| `Runs.AddPrefixesClosed` | lib/serveraffiliations.go:302-318 | a forced add keeps the table parent-closed and prekeys right wherever it stops |
| `Runs.StepKeepsParentClosed` | lib/serveraffiliations.go:302-341 | a request keeps every affiliation's parent listed if and only if it is not a rename under a parent that is missing or moves away |
| `Runs.RunKeepsParentClosed` | lib/dbaccessor.go:353-858 | along every run all tables are parent-closed if and only if no such rename takes place |
| `Runs.SameParentKeepsParents` | lib/dbaccessor.go:709-858 | a rename under the same parent is not one |
| `Runs.StepKeepsRevoked` | lib/certdbaccessor.go:250-273 | no request changes a revoked certificate row or the owner of any certificate |
| `Runs.RevokedStaysRevoked` | lib/certdbaccessor.go:250-273 | in every run a revoked certificate keeps its row for ever |
| `Runs.RevokeLocksOut` | lib/serverrevoke.go:112-153 | a revocation by name whose statements succeed leaves the identity disabled and without a good certificate, whatever the answer |
| `Runs.HalfRevoked` | lib/serverrevoke.go:131-145 | after a revocation by name that failed halfway the identity is disabled, locked out if and only if it had no good certificate, and can reenroll exactly as before |
| `Runs.StepKeepsLockedOut` | lib/serverrequestcontext.go:152-200 | a locked-out identity cannot enroll or reenroll, and every request keeps it locked out while it exists |
| `Runs.StaysLockedOut` | lib/dbaccessor.go:985-1019 | so does every run until the identity is removed |
| `Runs.RevokedIdentityStaysOut` | lib/serverrevoke.go:112-153 | after a revocation by name, until removal, no enroll or reenroll succeeds and all its certificates stay revoked |
| `Runs.StepKeepsGoodCertsOwned` | lib/dbaccessor.go:197-222 | every request keeps: a certificate in good standing belongs to a current identity |
| `Runs.RunKeepsGoodCertsOwned` | lib/dbaccessor.go:197-222 | so does every run |
| `Runs.RegisteredSynced` | lib/serverregister.go:139-181 | a registered identity's three fixed attributes equal its id, type and affiliation columns |
| `Runs.ModifiedSynced` | lib/serveridentities.go:448-486 | modification keeps them equal |
| `Runs.MovedSynced` | lib/dbaccessor.go:774-812 | an affiliation rename keeps them equal |
| `Runs.StepKeepsSynced` | lib/serveridentities.go:448-539 | so does every request |
| `Runs.RunKeepsSynced` | lib/serveridentities.go:448-539 | every identity registered through the API has them equal in every later state |
| `Requirements.ReadIsView` | lib/dbaccessor.go:906-931 | the map an identity is read through holds the value of the last entry of each name |
| `Requirements.YesIsTrue` | lib/serverrequestcontext.go:584-610 | a role attribute counts exactly if its last value is a spelling of true |
| `Requirements.RoleIsType` | lib/serverrequestcontext.go:534-569 | a caller may act on a type exactly if its roles list the wildcard or the type up to letter case, the empty type being client |
| `Requirements.ReachIsContained` | lib/serverrequestcontext.go:460-485 | a caller contains exactly its own subtree, and everything from the root affiliation |
| `Requirements.MastersManages` | lib/serverrequestcontext.go:376-390 | managing a user needs exactly authority over its type and its affiliation |
| `Requirements.PatternedIsCovered` | lib/attr/attribute.go:288-304 | a pattern list covers exactly the names it lists and those that begin with an entry ending in a star |
| `Requirements.WithinMeans` | util/util.go:398-407 | a role list is within another exactly if that has the wildcard or if, both in lower case, its nonempty items are items of the other |
| `Requirements.BooleanGrant` | lib/attr/attribute.go:73-207 | a boolean attribute is granted exactly by a caller who has it as true and whose patterns cover it, with a boolean value or none |
| `Requirements.RoleGrant` | lib/attr/attribute.go:210-243 | a role list is granted exactly by a caller who has one it is within and whose patterns cover the name; delegate roles must pass the check against the roles |
| `Requirements.PatternGrant` | lib/attr/attribute.go:260-286 | a pattern list is granted exactly by a caller who may name the list and each of its entries; an entry with the reserved prefix must be requested or owned |
| `Requirements.OtherGrant` | lib/attr/attribute.go:158-186 | of all other names exactly those without the reserved prefix that the patterns cover are granted, whatever the value |
| `Requirements.RegisterNeeds` | lib/serverregister.go:74-202 | a registration is allowed exactly for a known caller with the role and the affiliation, a listed affiliation, granted attributes, an admissible limit and a new name |
| `Requirements.RegisteredRow` | lib/serverregister.go:139-181 | it adds one row, stated column by column with its attributes as requested, and touches no other |
| `Requirements.ModifyNeeds` | lib/serveridentities.go:373-444 | a modification is allowed exactly for a known caller with authority over the old type and affiliation and over any new ones, to a listed affiliation, with granted attributes |
| `Requirements.ModifiedRow` | lib/serveridentities.go:448-486 | column by column: what is left empty stays, -2 gives the limit 0, a dot the root affiliation, and the state stays |
| `Requirements.ModifiedAttribute` | lib/serveridentities.go:448-539 | an attribute listed at most once reads as the last request for it says, or as before |
| `Requirements.RemoveNeeds` | lib/serveridentities.go:272-322 | a removal is allowed exactly if enabled, for a known caller with authority over the type and affiliation, with force for the caller itself |
| `Requirements.RemovedRows` | lib/dbaccessor.go:197-222 | the row goes, its unrevoked certificates are revoked for reason 5 at that time with owner and expiry kept, every other row stays |
| `Requirements.AddNeeds` | lib/serveraffiliations.go:272-300 | adding an affiliation is allowed exactly for a known manager who contains the new name |
| `Requirements.AddedPrefixes` | lib/serveraffiliations.go:302-318 | exactly the given prefixes are new, at the configured level, and old rows stay |
| `Requirements.ManageNeeds` | lib/serveraffiliations.go:49-76 | a manager of affiliations is exactly a known caller with the attribute and a role list, even an empty one |
| `Requirements.RenameRequires` | lib/dbaccessor.go:709-821 | a rename is allowed exactly for a manager who contains both names, with the old one listed and the new one not, and with users to move only with force and for a registrar |
| `Requirements.RemovalRequires` | lib/dbaccessor.go:353-417 | a removal of an affiliation is allowed exactly if enabled, for a manager strictly above a listed name, with force when there is more than that row, and with users only for a registrar and identity removal enabled |
| `Requirements.EnrollNeeds` | lib/serverenroll.go:68-213 | an enrollment is allowed exactly with the password of a live identity below both limits and a request in its name, for a CA only with the attribute |
| `Requirements.ReenrollNeeds` | lib/serverenroll.go:85-213 | a reenrollment exactly for a known caller with such a request |
| `Requirements.SignedRows` | lib/serverenroll.go:95-165 | one certificate in good standing is recorded for the identity with the expiry of the request, an enrollment adds one to the state, nothing else changes |
| `Requirements.RevokeNeeds` | lib/serverrevoke.go:43-153 | a revocation is allowed exactly for a known revoker, of an unrevoked certificate of a current user who is the one named if any, or of a current user by name, with authority over that user or on itself |
| `Requirements.RevokedRows` | lib/certdbaccessor.go:50-53 | exactly the unrevoked certificates it names become revoked, with the reason of the request and its time, owner and expiry kept; by name the state becomes -1; nothing else changes |
| `RevocationList.StepRevokes` | lib/certdbaccessor.go:50-53 | any request of any kind revokes exactly the certificates its operation is for, with its own reason and time; every other certificate in good standing keeps its row |
| `RevocationList.RevokedByOne` | lib/certdbaccessor.go:50-53 | in every run a revoked certificate goes back to one request that revoked it, whose reason and time its row has |
| `RevocationList.ListsWhatWasRevoked` | lib/servergencrl.go:94-152 | at every point of every run a certificate is on the revocation list with the time t if and only if a request so far revoked it at t, by whichever operation, and the windows contain t and its expiry |
| `Loader.PathParent` | lib/ca.go:1277-1282 | the path built for a dot-free name has the given parent |
| `Loader.LoadAffiliations` | lib/ca.go:773-813 | the table and the answer are those of the configured inserts in order, up to the first that fails |
| `Loader.LoadItems` | lib/ca.go:783-796 | the same for a configured list |
| `Loader.LoadEntries` | lib/ca.go:797-810 | the same for a configured map, in whatever order it is walked |
| `Loader.InsertsMentioned` | lib/ca.go:773-813 | exactly the ways down through the configured maps are inserted, each under the path of the way to its last name |
| `Loader.LoadedKeys` | lib/ca.go:773-813 | loading succeeds exactly if every failing name asked for is listed already, and then adds exactly the names asked for; rows are never changed |
| `Loader.LoadedClosed` | lib/ca.go:773-813 | a completed load leaves a parent-closed table if and only if the old names and the names asked for are closed |
| `Loader.LoadedPrekeys` | lib/ca.go:773-813 | and right prekeys if and only if they were right and every insert that adds a row names the right parent |
| `Loader.DotFreeLoads` | lib/ca.go:773-813 | dot-free names keep the table parent-closed with right prekeys even when the loading stops early |
| `Loader.DottedNameLosesParent` | lib/ca.go:1277-1282 | an input: a dotted name leaves a table without its parent |
| `Loader.DottedNameBesideParent` | lib/ca.go:1277-1282 | an input: a dotted name beside its parent leaves a parent-closed table with a wrong prekey |
| `AffiliationTree.IdentityCount` | lib/serveraffiliations.go:447-495 | in a tree whose nodes hold the identities of their own name, an identity occurs as often as its affiliation times its multiplicity |
| `AffiliationTree.DeleteAt` | lib/serveraffiliations.go:475-475 | deletion shifts the tail inside the shared array and leaves the last name in the slot the header gives up |
| `AffiliationTree.TakeChild` | lib/serveraffiliations.go:470-479 | the first child in the header is found and taken out, the others stay in order, slots beyond the header are untouched |
| `AffiliationTree.SelectIdentities` | lib/serveraffiliations.go:450-463 | the identities of one affiliation, in order |
| `AffiliationTree.PlaceChild` | lib/serveraffiliations.go:468-491 | one round takes out the first child and builds its subtree from the shortened header |
| `AffiliationTree.PlaceChildren` | lib/serveraffiliations.go:468-491 | the loop, on any list, ends and computes the function of what its header showed |
| `AffiliationTree.FillAffiliationInfo` | lib/serveraffiliations.go:447-495 | on any list in any order the recursive filler ends, and its result and what the shared array shows afterwards are functions of what its header showed |
| `AffiliationOrder.Kept` | lib/serveraffiliations.go:475-475 | a call leaves every name that is not below its node visible to its callers, at least as often |
| `AffiliationOrder.OnlyListed` | lib/serveraffiliations.go:447-495 | a call shows no new name, and places only names that hang on its node by listed parents |
| `AffiliationOrder.NothingLost` | lib/serveraffiliations.go:447-495 | in any order every name that hangs on the node is placed at least as often as it is listed |
| `AffiliationOrder.DeadEnd` | lib/serveraffiliations.go:475-475 | if the last name cannot be reached, what is placed and what is left add up to what was listed, copies of that name apart |
| `AffiliationOrder.BranchOnce` | lib/serveraffiliations.go:468-491 | a branch that ends well places each name once and leaves behind nothing its callers can reach again |
| `AffiliationOrder.BranchTwice` | lib/serveraffiliations.go:468-491 | a branch that does not end well doubles a name |
| `AffiliationOrder.FilledFaithful` | lib/serveraffiliations.go:447-495 | every node lies under the node of its parent and holds exactly its own identities |
| `AffiliationOrder.ExactlyListed` | lib/serveraffiliations.go:447-495 | on every subtree listing in any order exactly the listed names occur |
| `AffiliationOrder.OnceExactly` | lib/serveraffiliations.go:447-495 | each name occurs once if and only if the list is in order |
| `AffiliationOrder.RootLastInOrder` | lib/dbaccessor.go:415-415 | a list that ends in its root is in order |
| `AffiliationOrder.RootFirstListsTwice` | lib/serveraffiliations.go:475-475 | an input: rows in order of insertion of which one is listed twice |
| `AffiliationResponse.GetRootAffiliationNames` | lib/serveraffiliations.go:427-442 | the names without a parent in the list, in order |
| `AffiliationResponse.RootsOfRows` | lib/serveraffiliations.go:427-442 | of any rows in any order there is no root if there are none, one if they all hang on it, and several otherwise |
| `AffiliationResponse.GetResponse` | lib/serveraffiliations.go:407-424 | on any list: nothing without a root, an error with several, otherwise the tree of the one root |
| `AffiliationResponse.ListingAnswered` | lib/serveraffiliations.go:407-495 | the response to a subtree listing names exactly the listed affiliations under their parents with their identities, each once if and only if the list is in order |
| `AffiliationResponse.RowsAnswered` | lib/serveraffiliations.go:407-424 | any rows in any order are answered if and only if they have a single root, and then from that root |
| `AffiliationResponse.SubtreeRoot` | lib/dbaccessor.go:509-535 | the rows of a subtree have a single root if and only if every row below has its parent in the table |
| `AffiliationResponse.SubtreeAnswered` | lib/serveraffiliations.go:407-424 | so the rows of a subtree are answered if and only if every row below has its parent in the table |
| `AffiliationResponse.RenamedClosed` | lib/dbaccessor.go:835-858 | whether the new subtree after a rename is closed, in terms of the table before |
| `AffiliationResponse.RenamedRows` | lib/dbaccessor.go:835-858 | from a parent-closed table it always is, whether or not the new parent exists |
| `AffiliationResponse.HandleRemoveAffiliation` | lib/serveraffiliations.go:222-270 | removal end to end on any table: carried out exactly if allowed, answered exactly if moreover every removed row has its parent, and then with exactly the removed affiliations and exactly the removed identities of listed affiliations, each once |
| `AffiliationResponse.HandleRenameAffiliation` | lib/serveraffiliations.go:349-405 | rename end to end on any table: carried out exactly if allowed and no target is taken, answered exactly if moreover every row below the new name has its parent, and then with exactly the new subtree and the moved users, each name once if and only if the rows came in order |
| `AffiliationResponse.HandleGetAffiliation` | lib/serveraffiliations.go:200-220 | reading an affiliation, or with the empty name all of them, is answered exactly for a manager who contains it on rows with a single root, and names exactly those rows, each once if and only if they came in order |
| `AffiliationResponse.RemovedWithError` | lib/serveraffiliations.go:257-267 | an input: after a rename to a name without parent, a removal empties the table and is answered with an error |
| `Trie.AddChild` | lib/serveraffiliations.go:532-545 | a missing child is a new node and the trie stays well formed |
| `Trie.InsertByPath` | lib/serveraffiliations.go:532-545 | exactly the prefixes of the path are added, existing nodes keep their identity |
| `Trie.Append` | lib/serveraffiliations.go:560-570 | appending to a slice keeps the prefix, whether it writes in place or reallocates |
| `Trie.Fill` | lib/serveraffiliations.go:560-570 | despite the slot siblings share, the filled tree mirrors the stored paths |
| `Trie.FilledCount` | lib/serveraffiliations.go:560-570 | the tree filled at a node lists each stored path at or below it once and nothing else |
| `Trie.FilledUnderParents` | lib/serveraffiliations.go:560-570 | every node of a filled tree lies under the node of its parent |
| `Trie.PrefixIsAncestor` | lib/serveraffiliations.go:528-530 | a component prefix is an ancestor in the dotted order, and conversely |
| `Trie.InsertAll` | lib/serveraffiliations.go:167-198 | after inserting rows in any order exactly their path prefixes are stored |
| `Trie.GetAffiliations` | lib/serveraffiliations.go:167-198 | the tree lists exactly the rows and their ancestors, each once under its own parent; a single top-level tree is answered by itself, and without rows there is no answer |
| `JsonStreamer.JsonStream.SkipToDelim` | lib/streamer/jsonstreamer.go:134-165 | on a balanced body exactly the body and its closing delimiter are consumed |
| `JsonStreamer.JsonStream.GetNextName` | lib/streamer/jsonstreamer.go:167-184 | the next key, or the empty name at the end of the object |
| `JsonStreamer.JsonStream.Decode` | lib/util.go:158-166 | decoding one element returns the value its tokens spell and consumes exactly those |
| `JsonStreamer.MadeIsVisits` | lib/streamer/jsonstreamer.go:67-121 | a walk that does not fail makes every callback owed, in document order |
| `JsonStreamer.Balanced` | lib/streamer/jsonstreamer.go:134-165 | the tokens of a value close what they open |
| `JsonStreamer.JsonStream.StreamElements` | lib/streamer/jsonstreamer.go:79-87 | one callback per element in order, stopping before the closing delimiter or at the first failure |
| `JsonStreamer.JsonStream.StreamItems` | lib/streamer/jsonstreamer.go:79-92 | an array is consumed whole, with callbacks exactly if its path is searched |
| `JsonStreamer.JsonStream.StreamField` | lib/streamer/jsonstreamer.go:98-115 | one field is walked under its name and the path stack is restored; an empty key ends the object; a value with an empty key inside leaves the walk too deep |
| `JsonStreamer.JsonStream.StreamNext` | lib/streamer/jsonstreamer.go:98-115 | each round keeps the walk in step with the fields, or too deep for good |
| `JsonStreamer.JsonStream.StreamFields` | lib/streamer/jsonstreamer.go:95-116 | an object without empty keys is consumed whole with its fields' callbacks in document order up to the first failure; one with an empty key never closes what it opened |
| `JsonStreamer.JsonStream.Stream` | lib/streamer/jsonstreamer.go:67-121 | on any value: without empty keys success exactly when no object sits at a searched path and no failing callback is owed, then the tokens are consumed and the stack restored, and always exactly the callbacks before the first failure are made; with an empty key success means ending too deep |
| `JsonStreamer.JsonStream.StreamWhole` | lib/streamer/jsonstreamer.go:67-121 | a value's tokens are all consumed with success if and only if it has no empty key and the walk does not fail, and then the callbacks are exactly those owed |
| `JsonStreamer.EmptyKeyEndsObject` | lib/streamer/jsonstreamer.go:98-106 | an input with an empty key: success after two of four tokens |
| `JsonSearch.FoundFirst` | lib/streamer/jsonstreamer.go:123-132 | the first search element with the path is found, or there is none |
| `JsonSearch.VisitsOwed` | lib/streamer/jsonstreamer.go:67-121 | a callback is owed exactly for an element of an array met, through objects only, at a searched path |
| `JsonSearch.StreamsUntroubled` | lib/streamer/jsonstreamer.go:67-121 | the walk fails exactly if it meets an object at a searched path or an element for a failing callback |
| `Listing.StripPrint` | lib/serverendpoint.go:129-135 | the tokens read from a printed value are the tokens of that value |
| `Listing.ResponseWriter.WriteHeader` | lib/serverendpoint.go:155-172 | the status is sent on the first call only, 200 replaced by the endpoint's success code |
| `Listing.ResponseWriter.Write` | lib/serverendpoint.go:175-193 | the envelope prefix precedes the first piece only; HEAD requests write nothing |
| `Listing.PrintAllSnoc` | lib/servercertificates.go:146-178 | printing one more row adds a comma unless it is the first, and the row |
| `Listing.PrintEnvelope` | lib/serverendpoint.go:41-87 | the pieces written around a result add up to one well-formed object |
| `Listing.WriteRow` | lib/servercertificates.go:148-167 | a row is appended with its separator, unless reading it fails before the separator or encoding it after |
| `Listing.WriteLoop` | lib/servercertificates.go:147-173 | the loop ends at the first row in trouble, or with a panic after the first row if the chunk size is zero, or after all rows |
| `Listing.WriteRows` | lib/servercertificates.go:122-181 | rows written one by one are the text of the result up to where the handler ends, success status sent once |
| `Listing.FinishResponse` | lib/serverendpoint.go:64-87 | errors, messages and verdict complete the body, and change no status |
| `Listing.ServeHTTP` | lib/serverendpoint.go:41-87 | the whole body and the statuses for every way the handler can end, on any request |
| `Listing.WellFormedExactly` | lib/servercertificates.go:146-178 | the body is the text of a value if and only if the handler finishes or fails before it writes anything |
| `Listing.BrokenListing` | lib/servercertificates.go:150-155 | an input: an error at the second row, a success status and a body that is no value |
| `Listing.ListingWalk` | lib/streamer/jsonstreamer.go:44-50 | the client owes one callback per row of the listing |
| `Listing.EnvelopeWalk` | lib/streamer/jsonstreamer.go:44-50 | the walk of the envelope succeeds exactly when there is no error, and makes the callbacks of the result and no other |
| `Listing.ListAndStream` | lib/streamer/jsonstreamer.go:44-121 | server and client together: a finished listing arrives row by row in order for any chunk size, results are reported exactly when there is a row, an error response is an error and delivers nothing |
| `Serials.ParseFormat` | lib/certdbaccessor.go:109-120 | a formatted number parses back to itself and has no leading zero |
| `Serials.CanonicalIsUnique` | util/util.go:610-613 | a lower-case hexadecimal numeral without leading zeros is the stored form of its number |
| `Serials.NormalizedIsStored` | lib/serverrequestcontext.go:152-200 | any zero-padded or re-cased spelling of a positive serial normalises to the stored key |
| `Serials.SerialRoundTrip` | lib/certdbaccessor.go:109-120 | decimal to stored hexadecimal to integer is the identity on positive serials, and the stored form is normal |
| `Serials.ParseInputValue` | lib/serverrevoke.go:171-173 | the parsed spelling denotes the same number |
| `Serials.ParseInputExact` | lib/serverrevoke.go:171-173 | a spelling with colons gives the stored key if and only if no zero follows the colons behind its leading zeros |
| `Serials.ColonKeepsZero` | lib/serverrevoke.go:171-173 | an input: 0:0a spells ten and is looked up as 0a, while ten is stored as a |
| `Serials.ParseInputAgrees` | lib/serverrevoke.go:171-173 | every colon-free spelling gives the stored key |
| `CertQueries.ClauseMeans` | lib/certdbaccessor.go:399-411 | conditions and arguments appended in step line up one to one and mean the conjunction of the pieces |
| `CertQueries.BuildQuery` | lib/certdbaccessor.go:310-411 | the branches append the pieces of the request in order |
| `CertQueries.AppendExpiry` | lib/certdbaccessor.go:349-373 | the expiry filters, each with its argument |
| `CertQueries.AppendRevocation` | lib/certdbaccessor.go:375-397 | the revocation filters, each with its argument |
| `CertQueries.QueryIsExact` | lib/certdbaccessor.go:310-411 | an accepted query binds every placeholder and selects exactly the certificates that match the request and that the caller may see |
| `CertQueries.WantedMeans` | lib/certdbaccessor.go:310-411 | a row is wanted exactly if it passes each filter and the caller has no affiliation or its owner is a current user in the subtree of the caller's |
| `CertQueries.SelectedInOrder` | lib/certdbaccessor.go:310-411 | the selection is the rows at an ascending list of positions, exactly those of wanted rows |
| `CertQueries.RunQuery` | lib/certdbaccessor.go:310-411 | the rows returned are exactly the wanted ones, in order |
| `CertQueries.GetCertificates` | lib/server/certificaterequest.go:237-247 | conflicting filters are refused, otherwise exactly the rows wanted for the normalised serial and key identifier are returned, in the order and as often as they are in the table |
| `CertQueries.WindowsMean` | lib/certdbaccessor.go:202-229 | the built clause selects exactly the revoked records inside the open windows |
| `CertQueries.BuildWindows` | lib/certdbaccessor.go:202-229 | the clause and its arguments, an upper end only if given |
| `CertQueries.GenCRL` | lib/servergencrl.go:94-152 | inverted windows are refused, otherwise one entry per selected record, in order |
| `CertQueries.InWindowsMeans` | lib/certdbaccessor.go:202-229 | a revoked record is in the windows exactly if revocation time and expiry lie strictly inside, 0 leaving an upper end open |
| `CertQueries.ListedExactly` | lib/servergencrl.go:135-143 | an entry is on the list exactly when a record in the windows has its serial number and its revocation time |
| `CertQueries.StoredSerialListed` | lib/servergencrl.go:135-143 | a certificate issued with a positive serial is listed under that very number |
| `Nonces.NonceManager.GetNonce` | lib/server/idemix/nonce.go:92-106 | a new value is stored with its expiry, a stored one is refused |
| `Nonces.NonceManager.CheckNonce` | lib/server/idemix/nonce.go:110-172 | the value is accepted only if stored and not expired, and removed whatever the answer unless the DELETE fails |
| `Nonces.NonceManager.SweepExpired` | lib/server/idemix/nonce.go:142-149 | exactly the expired values go, or the statement fails and nothing does |
| `Nonces.StoredSinceIssue` | lib/server/idemix/nonce.go:152-172 | a stored value comes from an issue since which no check removed it |
| `Nonces.AcceptedOnceInTime` | lib/server/idemix/nonce.go:110-124 | every acceptance belongs to an earlier issue, not later than its expiry, with no check that removed the value in between |
| `Nonces.AcceptedExactly` | lib/server/idemix/nonce.go:110-172 | of values that do not repeat a check accepts exactly those issued before, within the lifetime, with no check that removed the value in between, whatever was swept |
| `Nonces.AcceptedAtMostOnce` | lib/server/idemix/nonce.go:110-124 | with fresh values no acceptance follows one that removed the value |
| `Nonces.AcceptedAgain` | lib/server/idemix/nonce.go:163-167 | after an acceptance whose DELETE failed the value is accepted again |
| `Nonces.SweptSimulates` | lib/server/idemix/nonce.go:142-149 | the swept store lacks only expired values |
| `Nonces.SweepsUnobservable` | lib/server/idemix/nonce.go:127-149 | if no value is drawn while its expired row is stored, sweeps anywhere never change a later answer |
| `Nonces.ReuseObservesSweep` | lib/server/idemix/nonce.go:92-106 | if one is, a sweep just before decides whether the value is accepted |
| `Nonces.FreshNeverReused` | lib/server/idemix/nonce.go:92-106 | fresh values meet that condition |
| `RevocationHandles.RevocationAuthority.GetNextHandle` | lib/server/idemix/revocationauthority.go:277-313 | the next handle is returned; at the end of the pool no row is updated |
| `RevocationHandles.RevocationAuthority.HandOut` | lib/server/idemix/revocationauthority.go:277-313 | the n-th handle is n while the first pool lasts, and handles are distinct exactly that long |
| `RevocationHandles.RevokedIsMembership` | lib/server/idemix/revocationauthority.go:205-232 | when every record decodes the scan for a revoked handle is membership |
| `RevocationHandles.UndecodableHides` | lib/server/idemix/revocationauthority.go:205-232 | a record that does not decode hides all records after it |
| `RevocationHandles.UnrevokedIsExact` | lib/server/idemix/revocationauthority.go:205-232 | the list is strictly ascending and holds exactly the numbers of the pool that are not revoked |
| `RevocationHandles.GetUnRevokedHandles` | lib/server/idemix/revocationauthority.go:205-232 | back-to-front deletion in place leaves exactly that list |
| `RevocationHandles.GoodHandlesListed` | lib/server/idemix/revocationauthority.go:205-232 | while the first pool lasts a handed-out handle is listed exactly when no revoked credential has it |
| `KeyTrees.KeyTree.GetKey` | lib/tcert/keytree.go:61-81 | on any path the answer is the uncached fold of derivations along some path of the same spelling; on slash-free paths after slash-free paths, along that very path; entries are only added and never wrong, also after a failure |
| `KeyTrees.KeyTree.Lookups` | lib/tcert/keytree.go:61-81 | so is every answer in any sequence of lookups; if all are slash-free, each is the uncached key of its own path |
| `KeyTrees.SlashMisleads` | lib/tcert/keytree.go:61-81 | for every path with a slash in a component a lookup of another path makes its answer wrong on some tree |
| `KeyTrees.SlashCollides` | lib/tcert/keytree.go:61-81 | an input: after a, b the path a/b gets the key of a, b |

## Left out

- HTTP transport, TLS, command line, configuration files, logging, LDAP, schema creation and upgrade.
- Cryptography, certificate parsing and signing: a signature check is a flag of the token, key derivation a deterministic function that may fail, passwords are compared as values and not as hashes.
- SQL dialects: tables are maps by primary key, a transaction saves and restores them, `LIKE 'x.%'` is "starts with `x.`" (case-sensitive, no `%` or `_` in names); MySQL, whose affiliation names are not unique and whose insert errors are swallowed, is not modelled.
- Letter case is ASCII only.
- Database errors are modelled only where a partial effect could remain outside a transaction: a forced add, the configuration loader, signing, revocation, and the deletes of nonces.
- Idemix tokens and the Idemix enroll path; revocation or modification between the login and the completion of one enroll.
- A rename resets the ECert flag of `hf.Affiliation`; no property of that flag is stated.
- `GetFilteredUsers`, identity and affiliation levels, the caching of credential revocation information.
- RevocationList.ListsWhatWasRevoked: for a certificate whose serial number no other record has; records with the same number and different key identifiers share their entries.
- Runs.RevokedIdentityStaysOut: assumes that a token with a valid signature presents a certificate in the name of the owner of its record, which the code never compares; a token without one may claim anything.
- Runs.StepKeepsLockedOut: the same assumption on its one request.
- Runs.StaysLockedOut: the same assumption on every request of the run.
- Runs.Serve: the revoke request enters after its serial and key identifier are parsed; `Handlers.HandleRevoke` covers the parsing.
- Accessors.Accessor.ModifyAffiliation: that after a collision the transaction stays open, and what this does to later requests, is not modelled.
- Listing.ListAndStream: what the client makes of a body that is broken off inside the rows is not stated, since tokens carry no punctuation.
- Listing.WriteRows: `caname` is a string token; the original prints a query parameter there without escaping it.
