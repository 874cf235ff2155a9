# Knowledge base: document and account controllers in Dafny

This project models the server side of a small collaborative knowledge base.
Users register, reset forgotten passwords with one-hour tokens, and write
documents. They share documents with each other by email, either read-only
(`view`) or read-write (`edit`). Every save that changes a document's content
archives the old content as a numbered version. Mentioning `@someone@example.com`
in a document shares it with that user for reading.

The store is five MySQL tables, modelled as one value `Schema.Tables`:

- `users` and `documents` are sequences, and a row's id is its position plus one.
  Both are AUTO_INCREMENT tables and nothing is ever deleted from them.
- `document_versions` is an append-only sequence.
- `document_shares` is a map keyed by (document, user). The upserts show this key is unique.
- `password_reset_tokens` is a sequence of rows.

`Store.Database` is a class holding these five tables as fields.

Each handler that writes is written twice:

- A method over the `Database` runs the handler's statements in their order:
  - the `SELECT` checks;
  - the version `INSERT` before the `UPDATE`;
  - the `updateFields` object filled field by field;
  - the `exec` loop that fills the mention set;
  - the `for` loop of share upserts.
- A specification function on `Tables` gives the status code and the new tables.

Each method is proved equal to its function. The contracts of the functions,
and the lemmas beside them, state what the handlers promise.

The read-only handlers are functions on `Tables`.

Some inputs are parameters rather than part of the model:

- the authenticated user id from the JWT middleware;
- the bcrypt hash (a function `hash`);
- the clock (`now`, in milliseconds);
- the random reset token;
- which mention queries fail (a set `faults`).

Modules and files:

- `Schema` (`schema.dfy`): the rows and tables, the status codes, the lookups, and the store invariant `Valid`.
  - `Valid` requires unique emails.
  - It requires every document's versions to be numbered 1..n.
  - It requires that no share row names the document's owner.
  - It requires that every version belongs to an existing document.
- `Access` (`access.dfy`): the read filter and the write gate the controller writes inline in SQL.
- `Mentions` (`mentions.dfy`): the mention expression as a scanner over `seq<char>`.
  - A ghost predicate `MatchesAt` describes the regular language.
  - The scanner is proved to pick the leftmost, longest match.
- `Store` (`store.dfy`): the `Database` class.
- `DocumentController` (`documents.dfy`): the document handlers.
- `DocumentProperties` (`document_props.dfy`): properties of the save pipeline and the read handlers, stated over one save and over runs of saves.
- `AuthController` (`auth.dfy`): `register`, `forgotPassword` and `resetPassword`, with their properties.

## Model

| member | source | states |
|---|---|---|
| Schema.FindUserByEmail | server/controllers/document.controller.js:257-262 | `SELECT id FROM users WHERE email=?`: `None` exactly when no account has the email; otherwise an account with that email, the first one |
| Schema.DocById | server/controllers/document.controller.js:90-100 | `WHERE d.id = ?`: a row exactly when the id is in the table, and then that document |
| Schema.Truthy | server/controllers/document.controller.js:44-49 | JavaScript truthiness of a body field: present and not the empty string, as tested by `!title`, `content || ''`, `visibility || 'private'`, `if (content)` (:139) and `!email || !password` (auth.controller.js:23) |
| Schema.UserById | server/controllers/document.controller.js:209-211 | the join on `users.id`: a row exactly when the account exists, and then that account |
| Schema.History | server/controllers/document.controller.js:209-212 | `WHERE document_id = ?`: exactly the rows of that document, each a row of the table |
| Schema.HistoryCountsRows | server/controllers/document.controller.js:209-212 | the query returns each row of the document as often as the table holds it, and no row of another document |
| Schema.MaxVersion | server/controllers/document.controller.js:112 | `COALESCE(MAX(version_number), 0)`: no version of the document is numbered above it, and it is 0 or the number of one of them |
| Schema.MaxVersionIsHistoryLength | server/controllers/document.controller.js:111-113 | when histories are numbered 1..n, `COALESCE(MAX(version_number), 0)` equals the length of the document's history |
| Schema.AppendNextVersion | server/controllers/document.controller.js:111-118 | appending version max+1 of a document keeps every history numbered 1..n; it extends that document's history by the new row and leaves every other document's history unchanged |
| Schema.HistoryOfUnused | server/controllers/document.controller.js:41-55 | a document that no version row names has an empty history, as for a freshly inserted document |
| Access.CanWrite | server/controllers/document.controller.js:103-106 | the edit gate (owner, or an `edit` share) implies the read filter |
| Access.CanRead | server/controllers/document.controller.js:68 | the read filter: the document exists and the caller owns it, it is `public`, or the caller holds a share row for it |
| Access.IsOwner | server/controllers/document.controller.js:228-229 | the owner-only gate of `getSharedUsers` (also :251-252 and :289-290): the document exists and its `user_id` is the caller; a missing document fails it |
| Access.ShareOf | server/controllers/document.controller.js:90-96 | the `LEFT JOIN document_shares` permission is present exactly when a share row exists, and then equals that row |
| Access.ResolveRole | server/controllers/document.controller.js:62-68 | the one effective role (owner, edit share, view share, public, denied) is not Denied exactly when the read filter of lines 62-68 admits the user; it is Owner or EditShare exactly when the edit gate of lines 103-106 admits the user |
| Mentions.MatchesAtIsMarkerAndEmail | server/controllers/document.controller.js:141 | a match of the expression is exactly an `@` marker followed by an address `local@domain.tld`: non-empty local part and domain from their character classes, a top-level domain of two or more letters |
| Mentions.RunEndStops | server/controllers/document.controller.js:141 | a greedy character-class run takes every character of its class and stops at the end of the content or at the first character outside the class |
| Mentions.LastTldDotIsLast | server/controllers/document.controller.js:141 | backtracking the greedy domain part settles on a dot followed by two or more letters, and no later dot in the domain run qualifies |
| Mentions.MatchEnd | server/controllers/document.controller.js:141 | where the backtracking matcher's attempt at a position ends: after the position and inside the content (what it returns is characterised by `MatchEndSound` and `MatchEndComplete`) |
| Mentions.MatchEndSound | server/controllers/document.controller.js:141 | whatever the matcher returns at a position is a match of the expression starting there |
| Mentions.MatchEndComplete | server/controllers/document.controller.js:141 | the matcher succeeds at a position whenever some match starts there, and no match starting there is longer than the one it returns |
| Mentions.ScanCapturesEmails | server/controllers/document.controller.js:145-146 | every capture of the `exec` loop is an address |
| Mentions.ScanEmptyIffNoMatch | server/controllers/document.controller.js:145-147 | the `exec` loop captures nothing exactly when no match starts at or after `lastIndex` |
| Mentions.ScanTakesLeftmostLongest | server/controllers/document.controller.js:145-146 | each `exec` captures the leftmost match after `lastIndex`, extended as far as the expression allows |
| Mentions.ScanFirst | server/controllers/document.controller.js:145 | `exec` passes over every position where no match starts |
| Mentions.Scan | server/controllers/document.controller.js:145-147 | the `exec` loop from `lastIndex`: at most one capture per remaining position, since every `exec` that matches moves `lastIndex` forward |
| Mentions.Dedup | server/controllers/document.controller.js:143-146 | adding to an insertion-ordered `Set` keeps the earlier elements in order, adds exactly the new ones and never duplicates |
| Mentions.MentionedEmails | server/controllers/document.controller.js:143-147 | the mention set is duplicate-free and holds exactly the captured addresses |
| Mentions.MentionedEmailsAreMatches | server/controllers/document.controller.js:141-147 | every mentioned email is an address, and there are none exactly when the content holds no match |
| Mentions.ExtractMentionedEmails | server/controllers/document.controller.js:141-147 | the `while (exec)` loop filling a `Set` computes exactly `MentionedEmails`, with no duplicates and only addresses |
| DocumentController.CreateDocumentSpec | server/controllers/document.controller.js:41-55 | a missing or empty title gives 400 and no change; otherwise one document row is appended with the caller as owner, content defaulting to empty and visibility to `private`, 201 carries the new id, and no other table changes |
| DocumentController.CreateDocument | server/controllers/document.controller.js:41-55 | the handler's statements produce exactly the tables and status of `CreateDocumentSpec` |
| DocumentController.FieldsToUpdate | server/controllers/document.controller.js:121-126 | `updateFields` holds content and title when present, and visibility only when present and the caller owns the document |
| DocumentController.ContentChanges | server/controllers/document.controller.js:110 | the archive condition: content is present (`!== undefined`, so an empty string counts) and differs from the stored content |
| DocumentController.NothingToUpdate | server/controllers/document.controller.js:123-129 | the 400 of `updateDocument`: no content, no title, and no visibility the caller may set (absent, or sent by a non-owner) |
| DocumentController.ApplyFields | server/controllers/document.controller.js:132-135 | the `UPDATE` sets exactly the listed columns, keeps the others and never changes the owner |
| DocumentController.AutoShareAll | server/controllers/document.controller.js:149-180 | the mention loop never changes or deletes an existing share row; it adds only `view` rows of this document for grantees (an account reached by a non-failing mention, neither owner nor editor); every grantee ends with a row |
| DocumentController.AutoShareOne | server/controllers/document.controller.js:150-179 | one mentioned address: an existing share keeps its permission (an `edit` share is never lowered); a new share is a `view` share of this document for the address's account, only when its queries did not fail and the account is neither the owner nor the caller; such an account always ends up holding a share |
| DocumentController.Grantee | server/controllers/document.controller.js:151-171 | who the mention loop shares with: an account found by a mentioned address whose queries did not fail, neither the owner nor the caller |
| DocumentController.AutoShareMentions | server/controllers/document.controller.js:149-180 | the `for` loop of lookups and upserts computes exactly `AutoShareAll`, touching only `document_shares` |
| DocumentController.UpdateDocumentSpec | server/controllers/document.controller.js:90-130 | missing document gives 404, and a caller who is neither owner nor `edit` holder gives 403, both with no change; 400 exactly when the caller passes the gate with nothing to write; any non-200 leaves the tables as they were (a 400 carries no content, so nothing was archived) |
| DocumentController.UpdateDocument | server/controllers/document.controller.js:83-189 | gate, version insert, field update and mention loop in source order produce exactly the tables and status of `UpdateDocumentSpec` |
| DocumentController.UpdateSharingSpec | server/controllers/document.controller.js:244-281 | a non-owner, including for a missing document, gets 403, an unknown email 404 and sharing with oneself 400, all with no change; otherwise 200 and the row for (document, user) is set to the given permission (overwriting, possibly downgrading), one key added at most, other rows and tables unchanged |
| DocumentController.UpdateSharing | server/controllers/document.controller.js:244-281 | the handler's statements produce exactly the tables and status of `UpdateSharingSpec` |
| DocumentController.RemoveSharingSpec | server/controllers/document.controller.js:282-305 | a non-owner gets 403 and an unknown email 404, with no change; otherwise 200 and exactly the row for (document, user) is gone, with success even when there was no row; other rows and tables unchanged |
| DocumentController.RemoveSharing | server/controllers/document.controller.js:282-305 | the handler's statements produce exactly the tables and status of `RemoveSharingSpec` |
| DocumentController.GetDocumentById | server/controllers/document.controller.js:58-80 | success exactly when the caller is owner, the document is public or any share row exists for the caller (and the owner's account exists for the `JOIN`); the body is that document with its owner's email; otherwise 404 |
| DocumentController.ViewOf | server/controllers/document.controller.js:209-211 | a history row keeps the version's number and content, and its `modified_by_email` is the editor's email when the account exists and null otherwise (the `LEFT JOIN users`) |
| DocumentController.ViewsOf | server/controllers/document.controller.js:209-212 | the rows of the history, one per version, in order |
| DocumentController.InsertNewestFirst | server/controllers/document.controller.js:212 | inserting into a newest-first list keeps it newest first and adds exactly the one row |
| DocumentController.SortNewestFirst | server/controllers/document.controller.js:212 | `ORDER BY version_number DESC` yields a newest-first permutation of the rows |
| DocumentController.GetVersionHistory | server/controllers/document.controller.js:192-220 | success exactly when the read filter admits the caller, else 403; on success the body is a newest-first permutation of the document's versions |
| DocumentController.GetSharedUsers | server/controllers/document.controller.js:222-242 | only the owner succeeds (403 otherwise, also for a missing document); the body holds exactly the (id, email, permission) of each share row of the document whose user exists |
| DocumentController.Contains | server/controllers/document.controller.js:18-24 | `LIKE '%term%'` read as substring search: true exactly when the term occurs at some position |
| DocumentController.MatchesSearch | server/controllers/document.controller.js:18-24 | the `if (searchTerm)` filter: every document passes when the term is missing or empty, otherwise the term must occur in the title or the content |
| DocumentController.OwnedListing | server/controllers/document.controller.js:8 | the owned listing among the first n documents has at most n rows |
| DocumentController.OwnedListingRows | server/controllers/document.controller.js:8-24 | every owned row is a document the caller owns that matches the search, with its id, title, visibility and no permission |
| DocumentController.OwnedListingComplete | server/controllers/document.controller.js:8-24 | every document the caller owns that matches the search is listed |
| DocumentController.OwnedListingIncreasing | server/controllers/document.controller.js:8 | no document is listed twice among the owned rows (ids strictly increase) |
| DocumentController.SharedListing | server/controllers/document.controller.js:9-14 | the shared listing among the first n documents has at most n rows |
| DocumentController.SharedListingRows | server/controllers/document.controller.js:9-24 | every shared row is a document the caller holds a share row for, matching the search, carrying that row's permission |
| DocumentController.SharedListingComplete | server/controllers/document.controller.js:9-24 | every document the caller holds a share row for that matches the search is listed |
| DocumentController.SharedListingIncreasing | server/controllers/document.controller.js:9-14 | no document is listed twice among the shared rows (ids strictly increase) |
| DocumentController.GetDocuments | server/controllers/document.controller.js:3-39 | the owned half lists exactly the caller's documents matching the search, the shared half exactly the matching documents the caller holds a share row for, with that row's permission; each half without repeats |
| DocumentController.AppendKeepsIdsIncreasing | server/controllers/document.controller.js:8-14 | appending at most one row of a larger id keeps a listing free of repeated ids |
| DocumentProperties.UpdateArchivesIffContentChanges | server/controllers/document.controller.js:108-119 | a version row is appended if and only if the caller passes the gate and sends content different from the stored content; the row is numbered max+1 and holds the old content and the caller; title-only, visibility-only and same-content saves append nothing |
| DocumentProperties.UpdateWritesPresentFieldsOnly | server/controllers/document.controller.js:121-135 | no other document changes; on 200 the owner is kept, content and title take the sent values or stay, and visibility changes only when sent by the owner (silently dropped otherwise) |
| DocumentProperties.UpdateAutoShares | server/controllers/document.controller.js:139-180 | existing share rows are never changed or deleted; shares change only after a 200 with non-empty content; new rows are `view` rows of this document for grantees, and every grantee gets one even if other mentions fail |
| DocumentProperties.UpdateKeepsAccounts | server/controllers/document.controller.js:83-189 | a save changes neither `users` nor `password_reset_tokens` |
| DocumentProperties.UpdateKeepsNumbering | server/controllers/document.controller.js:111-118 | a save keeps every history numbered 1..n and every version attached to an existing document |
| DocumentProperties.ArchiveKeepsNumbering | server/controllers/document.controller.js:111-118 | appending version max+1 of an existing document, or nothing, keeps histories numbered and attached |
| DocumentProperties.UpdateKeepsOwnerUnshared | server/controllers/document.controller.js:155-158 | since auto-share skips the owner, no share row ever names a document's owner after a save |
| DocumentProperties.SharesKeepOwnersOut | server/controllers/document.controller.js:155-158 | a store that keeps owners and adds only share rows for non-owners of the edited document keeps owners unshared |
| DocumentProperties.CreatePreservesValid | server/controllers/document.controller.js:41-55 | creating a document keeps the store invariant; the new document has no versions and no share rows |
| DocumentProperties.UpdatePreservesValid | server/controllers/document.controller.js:83-189 | a save keeps the store invariant |
| DocumentProperties.UpdateSharingPreservesValid | server/controllers/document.controller.js:264-273 | `updateSharing` keeps the store invariant, since sharing with oneself (the owner) is refused |
| DocumentProperties.RemoveSharingPreservesValid | server/controllers/document.controller.js:299 | `removeSharing` keeps the store invariant |
| DocumentProperties.UpdateKeepsWriters | server/controllers/document.controller.js:149-180 | a save never takes write access away from anyone on any document |
| DocumentProperties.ExpectedVersions | server/controllers/document.controller.js:111-118 | the expected archive of a run of saves has one row per save |
| DocumentProperties.ExpectedVersionsCons | server/controllers/document.controller.js:111-118 | the expected archive of a run is its first row followed by the expected archive of the rest |
| DocumentProperties.ContentBeforeTail | server/controllers/document.controller.js:117 | the content before save k of a run is the content before save k-1 of the run after its first save |
| DocumentProperties.SaveArchivesAndWrites | server/controllers/document.controller.js:108-135 | a permitted save whose body sends changed content, with or without a title and a visibility, appends the old content to the document's history as the next version by the caller, writes the new content, keeps the versions numbered, and leaves everyone who could write to the document able to write |
| DocumentProperties.RunAppendsVersions | server/controllers/document.controller.js:111-118 | a run of permitted content-changing saves appends to the document's history exactly one row per save: numbered consecutively after the existing maximum, each holding the content from before its save and its editor |
| DocumentProperties.SavesArchiveAndWrite | server/controllers/document.controller.js:108-135 | every permitted `updateDocument` save whose body sends changed content (title and visibility optional) archives and writes as above |
| DocumentProperties.SavesAppendVersions | server/controllers/document.controller.js:111-118 | a run of N permitted `updateDocument` saves, each sending changed content and optionally a title and a visibility, extends the document's history by exactly the expected N rows |
| DocumentProperties.FreshDocumentSavesNumberOneToN | server/controllers/document.controller.js:111-118 | N content-changing `updateDocument` saves (bodies of content, title and visibility, as the editor sends them) on a document without versions yield versions 1..N with no gaps; version k holds the content from before save k and names its editor |
| DocumentProperties.RowsFromOne | server/controllers/document.controller.js:111-118 | a history that went from empty to the expected archive has one row per save, row k numbered k+1, holding the content from before save k and naming its editor |
| DocumentProperties.SortReversesAscending | server/controllers/document.controller.js:212 | sorting newest first a list of strictly increasing numbers reverses it |
| DocumentProperties.Reversed | server/controllers/document.controller.js:212 | the reverse has the same length and row i is row n-1-i |
| DocumentProperties.InsertOldest | server/controllers/document.controller.js:212 | inserting a row older than all others puts it last |
| DocumentProperties.VersionHistoryStrictlyDescending | server/controllers/document.controller.js:207-215 | when histories are numbered, a reader's version history is the numbers n, n-1, ..., 1: strictly descending and complete |
| DocumentProperties.OwnedAndSharedDisjoint | server/controllers/document.controller.js:8-14 | under the store invariant no document appears both in the owned and in the shared listing |
| DocumentProperties.OwnedNeverShared | server/controllers/document.controller.js:8-14 | under the store invariant the caller holds no share row for any owned document listed |
| DocumentProperties.OwnerHoldsNoShareRow | server/controllers/document.controller.js:8-14 | under the store invariant the owner of a document holds no share row for it |
| AuthController.RegisterSpec | server/controllers/auth.controller.js:20-41 | 400 exactly when email or password is missing or empty or the email already has an account, with no change; otherwise 201 with the next id and exactly one user appended with that email and `hash(password)`, not the plaintext; nothing else changes |
| AuthController.Register | server/controllers/auth.controller.js:20-41 | the handler's statements produce exactly the tables and status of `RegisterSpec` |
| AuthController.RegisterKeepsEmailsUnique | server/controllers/auth.controller.js:27-31 | registration keeps emails unique across `users` |
| AuthController.RegisteredEmailFindsNewAccount | server/controllers/auth.controller.js:33-36 | after a successful registration the email looks up the new account, whose id is the one returned |
| AuthController.ForgotPasswordSpec | server/controllers/auth.controller.js:75-129 | a missing email gives 400 and no change; otherwise always 200; an unknown email changes nothing; a known one appends exactly one token row for that user expiring at now + 3600000 ms, and nothing else changes |
| AuthController.ForgotPassword | server/controllers/auth.controller.js:75-129 | the handler's statements produce exactly the tables and status of `ForgotPasswordSpec` |
| AuthController.ForgotPasswordHidesAccounts | server/controllers/auth.controller.js:82-86 | the status for an unknown email equals that for a known one, and the unknown email leaves the tables unchanged |
| AuthController.ForgotPasswordKeepsTokensDistinct | server/controllers/auth.controller.js:89-97 | issuing a fresh token keeps the stored tokens pairwise distinct |
| AuthController.FindLiveToken | server/controllers/auth.controller.js:141-149 | `WHERE token = ? AND expires_at > NOW()`, first row: `None` exactly when no row has the token and an expiry after now; otherwise the first such row |
| AuthController.Live | server/controllers/auth.controller.js:142 | a row answers `WHERE token = ? AND expires_at > NOW()`: the same token and an expiry strictly after now |
| AuthController.SetPassword | server/controllers/auth.controller.js:155 | `UPDATE users SET password` changes only the row of that id, to the new digest, keeping its email |
| AuthController.RemoveAt | server/controllers/auth.controller.js:156 | `DELETE ... WHERE id = ?` removes exactly that row and keeps the others in order |
| AuthController.ResetPasswordSpec | server/controllers/auth.controller.js:131-164 | 200 exactly when the new password has at least 6 characters and a live row holds the token, else 400 with no change; on 200 only the token owner's password becomes `hash(newPassword)` and that token row is deleted |
| AuthController.TooShort | server/controllers/auth.controller.js:136 | the first guard of `resetPassword`: the password is missing, empty or shorter than six characters |
| AuthController.ResetPassword | server/controllers/auth.controller.js:131-164 | the handler's statements produce exactly the tables and status of `ResetPasswordSpec` |
| AuthController.ResetConsumesToken | server/controllers/auth.controller.js:155-156 | with distinct tokens, after a successful reset no row holds the token any more |
| AuthController.RemoveAtDropsToken | server/controllers/auth.controller.js:156 | deleting the redeemed row from distinct tokens leaves distinct tokens, none of them the redeemed one |
| AuthController.ResetTokenIsSingleUse | server/controllers/auth.controller.js:141-158 | with distinct tokens, a second redemption of the same token, at any time and with any password, gives 400 and changes nothing |
| AuthController.IssuedTokenRedeemableForOneHour | server/controllers/auth.controller.js:89-158 | a token issued at time T to a known email redeems a valid password at any now < T + 3600000, setting that user's password and consuming the token (the token table returns to what it was before the issue); at or after T + 3600000 it gives 400 and no change |
| AuthController.AccountHandlersPreserveValid | server/controllers/auth.controller.js:20-164 | `register`, `forgotPassword` and `resetPassword` each keep the store invariant |
| Store.Database.Snapshot | knowledge-base/server/server.js:21-29 | the tables behind the connection pool, one field per table |
| Store.Database.constructor | knowledge-base/server/server.js:21-29 | a fresh database: every table empty, which satisfies the store invariant |

## Left out

- `login` (the bcrypt compare and `jwt.sign`) and the JWT middleware: the authenticated user id is a parameter of every handler.
- Mail sending in `forgotPassword` (auth.controller.js:116-121) changes no table and is not modelled. The model takes the mail step to succeed, or to be skipped when no mail credentials are configured.
- AuthController.ForgotPasswordHidesAccounts: holds only on that path. A `sendMail` that fails lands in the `catch` and answers 500 after the token row was inserted, while an unknown email always gets 200, so with mail configured a mail failure reveals that the account exists.
- bcrypt: the hash is a function parameter. Salting is not modelled, and digests are never compared.
- `crypto.randomBytes`: the token is a parameter. That it differs from every stored token is a precondition of the lemmas that need it (`ForgotPasswordKeepsTokensDistinct`, `IssuedTokenRedeemableForOneHour`).
- AuthController.ResetConsumesToken: stated under `TokensDistinct`, the assumption that random tokens never collide. With a collision the source deletes only the first live row.
- Two clocks are read as one `now`:
  - `Date.now()` in the Node process at `forgotPassword`;
  - MySQL's `NOW()` at `resetPassword`.
  - Their skew and time-zone handling are not modelled.
- Concurrency and partial failure:
  - Each handler is one sequential step.
  - The read-max-then-insert race on version numbers is not modelled.
  - The missing transaction between the version insert and the `UPDATE` is not modelled.
- Database errors and the 500 responses are not modelled, with one exception. A failing auto-share query for a mentioned address is the `faults` parameter: that address is skipped and the loop goes on, as the source's inner `try`/`catch` does.
- Permission is an enum of `view` and `edit`. `updateSharing` stores whatever string it receives without validation, so other strings are not modelled.
- Request fields are optional strings. JSON numbers, booleans and `null` in the body, and JavaScript's loose truthiness on them, are not modelled.
- Password length is counted in characters of `seq<char>`, where JavaScript counts UTF-16 code units.
- String equality in SQL is read as exact equality of character sequences: `WHERE email = ?` (auth.controller.js:28 and :82, document.controller.js:151, :257 and :294), `WHERE token = ?` (auth.controller.js:142) and `d.visibility = 'public'` (document.controller.js:68 and :199). Under MySQL's default case-insensitive collations `Alice@x.io` and `alice@x.io` would be the same email, and an upper-case spelling of a hex reset token would redeem it. The table schema, and with it the collation, is not part of this model.
- AuthController.IssuedTokenRedeemableForOneHour: time is compared in milliseconds. The source stores `new Date(Date.now() + 3600000)` in `expires_at` and compares it with `NOW()`, which has second precision, and a `DATETIME` column rounds the stored time. So the boundary can move by up to about a second either way: a token whose expiry rounds up stays live a little past T + 3600000, and one whose expiry rounds down is refused up to half a second before it. The column type is not part of this model.
- `LIKE` matching in the `getDocuments` search:
  - It is read as case-sensitive substring search.
  - The collation and the `%`/`_` wildcards inside the term are not modelled.
- `getDocuments` orders its listings by `ORDER BY updated_at DESC`. The model has no timestamps and lists in id order, so the listing lemmas state membership and absence of repeats, not this order.
- `updated_at`/`modified_at` timestamps and the `modified_at` column of the version history are not modelled.
- The row order of `getSharedUsers`, which has no `ORDER BY`, is not modelled: the body is modelled as a set.
- `resetPassword` redeems the first matching row. Without `ORDER BY` this order is unspecified; the model takes the first in insertion order.
- The client pages, the Express routes and server wiring, and the configuration files are not part of this model.
