# Access guard of gitreports.com

This project models the access-gating helper of the gitreports.com Rails
application: the module `AuthenticationsHelper`, which controllers use as
request guards. The helper decides, for each request, whether someone is
signed in and who. It then lets the request proceed, redirects it (to login,
to the site root, or to the user's profile), or renders a not-found page
(`404` or `repositories/404`).

The model replaces the framework's side effects with values:

- `Records`: the session, the request parameters and a read-only `Directory`.
  The directory holds users by id and by username, organizations by name,
  repositories by id, each holder's repositories by name, and the
  repository ownership test `check_owner` as an uninterpreted function field.
- `Verdicts`: the three outcomes `Proceed`, `Redirect(path)` and
  `Render(template)`. It also holds `FirstFiring`, the first-match rule of an
  `if … elsif …` chain of guard branches, and its composition lemma.
- `AuthenticationsHelper`: `signed_in?`, `current_user`,
  `current_access_token`, `ensure_signed_in!`, `ensure_own_repository!`,
  `ensure_repository_active!` and `logout!`, as pure functions. Each guard
  takes the session, the directory and the parameters and returns a
  `Verdict`. `logout!` returns the new session. The lemmas state the branch
  order, the outcome of each branch, and the effect of logging out.
- `RepositoryScenarios`: the fixture of the repository feature scenarios,
  as a concrete directory, with the verdicts those visits expect.

`current_access_token` is nil when signed out and otherwise the signed-in
user's stored token, which may itself be nil. So it is nil exactly when
signed out only if every user holds a token (`AccessTokenAbsentIffSignedOut`).

## Model

| member | source | states |
|---|---|---|
| AuthenticationsHelper.SignedIn | app/helpers/authentications_helper.rb:2-8 | signed in exactly when the session holds a user id (a present id is truthy in Ruby) |
| AuthenticationsHelper.CurrentUser | app/helpers/authentications_helper.rb:10-16 | there is a current user exactly when signed in, and it is the directory's user under the session's id |
| AuthenticationsHelper.CurrentAccessToken | app/helpers/authentications_helper.rb:18-24 | nil when signed out; when signed in, the stored token of the user the session names |
| AuthenticationsHelper.SignedOutIsAnonymous | app/helpers/authentications_helper.rb:2-24 | a session with no user id has no current user and no access token |
| AuthenticationsHelper.AccessTokenAbsentIffSignedOut | app/helpers/authentications_helper.rb:18-24 | if every user holds a token, the access token is nil exactly when signed out |
| AuthenticationsHelper.EnsureSignedIn | app/helpers/authentications_helper.rb:26-28 | redirect to login exactly when signed out, otherwise proceed; no other verdict |
| AuthenticationsHelper.EnsureSignedInFollowsBranches | app/helpers/authentications_helper.rb:26-28 | the guard is the first-match of its single branch |
| AuthenticationsHelper.EnsureOwnRepository | app/helpers/authentications_helper.rb:30-38 | redirect to root iff signed out; repositories/404 iff signed in and the id does not exist; redirect to profile iff signed in, the repository exists and the user fails check_owner; proceed iff the user passes check_owner |
| AuthenticationsHelper.EnsureOwnRepositoryFollowsBranches | app/helpers/authentications_helper.rb:31-37 | the guard equals the first-match of its three branches in source order, so one call yields at most one verdict |
| AuthenticationsHelper.SignedOutGoesToRootBeforeLookup | app/helpers/authentications_helper.rb:31-32 | signed out, the verdict is root for every directory, so no repository lookup can influence it |
| AuthenticationsHelper.MissingRepositoryIsNotFound | app/helpers/authentications_helper.rb:33-34 | signed in with an unknown repository id gives repositories/404 and never a redirect, even when the session id names no user, since no user is looked up before line 35 |
| AuthenticationsHelper.NonOwnerNeverProceeds | app/helpers/authentications_helper.rb:35-36 | a signed-in user who fails check_owner on an existing repository is sent to the profile, never on to the page |
| AuthenticationsHelper.OwnRepositoryVerdicts | app/helpers/authentications_helper.rb:30-38 | the guard never redirects to login and never passes `'404'` to render |
| AuthenticationsHelper.ResolveHolder | app/helpers/authentications_helper.rb:41 | a user with the username wins; only when there is none is an organization of that name taken; absent iff neither exists |
| AuthenticationsHelper.EnsureRepositoryActive | app/helpers/authentications_helper.rb:40-49 | only proceed or 404; proceed iff the matching user (or, failing any user, the matching organization) holds an active repository of that name |
| AuthenticationsHelper.EnsureRepositoryActiveFollowsBranches | app/helpers/authentications_helper.rb:43-47 | the guard equals the first-match of its two not-found branches |
| AuthenticationsHelper.UnknownHolderIsNotFound | app/helpers/authentications_helper.rb:41-44 | a name matching no user and no organization gives 404 |
| AuthenticationsHelper.InactiveRepositoryIsNotFound | app/helpers/authentications_helper.rb:46-47 | an inactive repository of the resolved holder always gives 404 |
| AuthenticationsHelper.UserHolderShadowsOrganizations | app/helpers/authentications_helper.rb:41 | once a user matches, replacing every organization and its repositories leaves the verdict unchanged |
| AuthenticationsHelper.UserWithoutRepositoryIsNotFound | app/helpers/authentications_helper.rb:41-47 | a matching user without the named repository gives 404 even if a same-named organization holds it |
| AuthenticationsHelper.RepositoryActiveIgnoresSession | app/helpers/authentications_helper.rb:40-49 | signed-in and signed-out visitors get the same verdict |
| AuthenticationsHelper.Logout | app/helpers/authentications_helper.rb:51-53 | after logout no one is signed in and every other session key is kept |
| AuthenticationsHelper.LogoutSignsOut | app/helpers/authentications_helper.rb:51-53 | after logout, for any prior session and directory, there is no current user, ensure_signed_in! redirects to login and ensure_own_repository! redirects to root |
| AuthenticationsHelper.LogoutIdempotent | app/helpers/authentications_helper.rb:51-53 | logging out twice equals logging out once |
| AuthenticationsHelper.LogoutOfSignedOutIsNoOp | app/helpers/authentications_helper.rb:51-53 | logging out a signed-out session changes nothing |
| Verdicts.FirstFiring | app/helpers/authentications_helper.rb:31-37 | an if/elsif chain proceeds iff no branch fires, and otherwise halts with the verdict of the first branch that fires |
| Verdicts.FirstFiringAppend | app/helpers/authentications_helper.rb:31-37 | branches after one that fires are never consulted; when no leading branch fires, the rest decide |
| RepositoryScenarios.UnknownHolderShowsNotFound | spec/features/repositories_feature_spec.rb:13-17 | a repository path under 'joe_schmoe' renders 404 |
| RepositoryScenarios.ActiveRepositoryIsShown | spec/features/repositories_feature_spec.rb:20-24 | greptest/CoolCode proceeds to the issue page |
| RepositoryScenarios.InactiveRepositoryShowsNotFound | spec/features/repositories_feature_spec.rb:27-31 | greptest/CoolInactive renders 404 |
| RepositoryScenarios.OwnersMayEdit | spec/features/repositories_feature_spec.rb:36-81 | the owner reaches CoolCode's edit page and the organization member reaches CoolOrg's |
| RepositoryScenarios.AnotherUserMayNotEdit | spec/features/repositories_feature_spec.rb:84-92 | another user is redirected to the profile from both edit pages |

## Left out

- Stale sessions: `current_user` looks the session's user up unguarded and raises when that user was deleted. The model does not invent a behaviour for this raise. `CurrentUser`, `CurrentAccessToken` and `NonOwnerNeverProceeds` require `Resolves`, that the session id names a user of the directory. `EnsureOwnRepository` requires it only on the path that reaches the ownership test (`ResolvesForRepository`); a signed-out visitor or an unknown repository id gets its verdict whatever the session id refers to.
- Missing request parameters: routes always supply `:id`, `:username` and `:repositoryname`, so `Params` holds plain values. Lookups by a nil parameter are not modelled.
- `check_owner`: the repository model that defines it is not part of this model, so it is an uninterpreted function field of `Directory`.
- Database lookups (`find`, `find_by_username`, `find_by_name`, `exists?`) are map lookups. Uniqueness of usernames and names is taken from the maps.
- Route paths and template rendering: `Path` names the route helpers, not their URLs. `Template.Name` is the argument passed to `render`; how Rails resolves it against the controller's view path is not modelled. Controllers, views and the `before_action` chain are not part of this model.
- spec/support/fake_github.rb: an HTTP test double for the GitHub API with fixture file reads. It has no logic to model.
- The feature scenarios beyond the guards (form filling, activation toggling, CAPTCHA override, issue submission): they exercise views and controllers, not the helper.
- OAuth token exchange, CAPTCHA checking and issue creation against GitHub are external services.
