/** The access guard: sign-in state derived from the session, and the three
    request guards that either let a request proceed or stop it with exactly
    one redirect or not-found render. Each guard is a pure function of the
    session, the directory and the request parameters. */
module AuthenticationsHelper {
  import opened Options
  import opened Records
  import opened Verdicts

  /** `signed_in?`: the session holds a user id. */
  predicate SignedIn(s: Session)
  {
    s.userId.Some?
  }

  /** A present session id still names a user of the directory. The
      application looks that user up without a guard, so a stale id is outside
      what the helper handles; the members that look the user up require this. */
  predicate Resolves(s: Session, d: Directory)
  {
    s.userId.Some? ==> s.userId.value in d.usersById
  }

  /** The ownership test of `ensure_own_repository!` can look the signed-in
      user up. Only that branch calls `current_user`: a signed-out visitor or an
      unknown repository id is answered before any user lookup, whatever the
      session id refers to. */
  predicate ResolvesForRepository(s: Session, d: Directory, id: RepoId)
  {
    SignedIn(s) && id in d.reposById ==> s.userId.value in d.usersById
  }

  /** Every user in the directory holds an access token. */
  predicate TokensIssued(d: Directory)
  {
    forall id :: id in d.usersById ==> d.usersById[id].accessToken.Some?
  }

  /** `current_user`: the user the session names, or nil when signed out. */
  function CurrentUser(s: Session, d: Directory): (u: Option<User>)
    requires Resolves(s, d)
    ensures u.Some? <==> SignedIn(s)
    ensures u.Some? ==> s.userId.value in d.usersById && u.value == d.usersById[s.userId.value]
  {
    if SignedIn(s) then Some(d.usersById[s.userId.value]) else None
  }

  /** `current_access_token`: nil when signed out, otherwise the stored token of
      the signed-in user (which the helper does not check and may itself be nil). */
  function CurrentAccessToken(s: Session, d: Directory): (t: Option<Token>)
    requires Resolves(s, d)
    ensures !SignedIn(s) ==> t.None?
    ensures SignedIn(s) ==> t == d.usersById[s.userId.value].accessToken
  {
    if SignedIn(s) then CurrentUser(s, d).value.accessToken else None
  }

  /** `ensure_signed_in!`: a signed-out visitor is sent to the login page. */
  function EnsureSignedIn(s: Session, d: Directory, p: Params): (v: Verdict)
    ensures v == Redirect(Login) <==> !SignedIn(s)
    ensures v == Proceed <==> SignedIn(s)
  {
    if SignedIn(s) then Proceed else Redirect(Login)
  }

  /** The signed-in user passes the repository's ownership test. */
  predicate OwnsRepository(s: Session, d: Directory, id: RepoId)
    requires ResolvesForRepository(s, d, id)
  {
    SignedIn(s) && id in d.reposById && d.checkOwner(d.reposById[id], CurrentUser(s, d).value)
  }

  /** `ensure_own_repository!`: signed out goes to root; a repository id that
      does not exist renders the repositories not-found page; a repository the
      signed-in user does not own sends them to their profile. */
  function EnsureOwnRepository(s: Session, d: Directory, p: Params): (v: Verdict)
    requires ResolvesForRepository(s, d, p.id)
    ensures v == Redirect(Root) <==> !SignedIn(s)
    ensures v == Render(RepositoryNotFound) <==> SignedIn(s) && p.id !in d.reposById
    ensures v == Redirect(Profile) <==> SignedIn(s) && p.id in d.reposById && !OwnsRepository(s, d, p.id)
    ensures v == Proceed <==> OwnsRepository(s, d, p.id)
  {
    if !SignedIn(s) then Redirect(Root)
    else if p.id !in d.reposById then Render(RepositoryNotFound)
    else if !d.checkOwner(d.reposById[p.id], CurrentUser(s, d).value) then Redirect(Profile)
    else Proceed
  }

  /** `User.find_by_username`, as a holder. */
  function FindUserHolder(d: Directory, username: string): Option<Holder>
  {
    if username in d.usersByUsername then Some(UserHolder(d.usersByUsername[username])) else None
  }

  /** `Organization.find_by_name`, as a holder. */
  function FindOrgHolder(d: Directory, name: string): Option<Holder>
  {
    if name in d.orgsByName then Some(OrgHolder(d.orgsByName[name])) else None
  }

  /** The holder named in a public repository path: a user with that username
      if there is one, and only otherwise an organization with that name. */
  function ResolveHolder(d: Directory, username: string): (h: Option<Holder>)
    ensures username in d.usersByUsername ==> h == Some(UserHolder(d.usersByUsername[username]))
    ensures username !in d.usersByUsername && username in d.orgsByName ==>
              h == Some(OrgHolder(d.orgsByName[username]))
    ensures h.None? <==> username !in d.usersByUsername && username !in d.orgsByName
  {
    FindUserHolder(d, username).OrElse(FindOrgHolder(d, username))
  }

  /** `holder.repositories.find_by_name`. */
  function FindRepository(d: Directory, h: Holder, name: string): Option<Repository>
  {
    var repos := d.ReposOf(h);
    if name in repos then Some(repos[name]) else None
  }

  /** `h` holds an active repository called `name`. */
  predicate HoldsActive(d: Directory, h: Holder, name: string)
  {
    name in d.ReposOf(h) && d.ReposOf(h)[name].isActive
  }

  /** `ensure_repository_active!`: the public page of a repository renders the
      plain not-found page unless its holder resolves and holds an active
      repository of that name. */
  function EnsureRepositoryActive(s: Session, d: Directory, p: Params): (v: Verdict)
    ensures v == Proceed || v == Render(NotFound)
    ensures v == Proceed <==>
      || (p.username in d.usersByUsername
          && HoldsActive(d, UserHolder(d.usersByUsername[p.username]), p.repositoryname))
      || (p.username !in d.usersByUsername && p.username in d.orgsByName
          && HoldsActive(d, OrgHolder(d.orgsByName[p.username]), p.repositoryname))
  {
    var holder := ResolveHolder(d, p.username);
    if holder.None? then Render(NotFound)
    else
      var repo := FindRepository(d, holder.value, p.repositoryname);
      if repo.None? || !repo.value.isActive then Render(NotFound) else Proceed
  }

  /** `logout!`: the user id is cleared; every other session key is kept. */
  function Logout(s: Session): (r: Session)
    ensures !SignedIn(r)
    ensures r.others == s.others
  {
    s.(userId := None)
  }

  // ---------------------------------------------------------------------------
  // Sign-in state

  /** Signed out, there is no current user and no access token. */
  lemma SignedOutIsAnonymous(s: Session, d: Directory)
    requires !SignedIn(s)
    ensures Resolves(s, d)
    ensures CurrentUser(s, d) == None && CurrentAccessToken(s, d) == None
  {
  }

  /** When every user holds a token, the access token is nil exactly when the
      visitor is signed out. */
  lemma AccessTokenAbsentIffSignedOut(s: Session, d: Directory)
    requires Resolves(s, d) && TokensIssued(d)
    ensures CurrentAccessToken(s, d).None? <==> !SignedIn(s)
  {
  }

  // ---------------------------------------------------------------------------
  // Branch order

  /** The branches of `ensure_signed_in!`. */
  function SignedInBranches(s: Session): seq<Branch>
  {
    [Branch(!SignedIn(s), Redirect(Login))]
  }

  /** The branches of `ensure_own_repository!`, in the order they are tested.
      The third repeats the failure of the first two only so that the current
      user it looks up is defined; first-match order already implies it. */
  function OwnRepositoryBranches(s: Session, d: Directory, p: Params): seq<Branch>
    requires ResolvesForRepository(s, d, p.id)
  {
    [ Branch(!SignedIn(s), Redirect(Root)),
      Branch(p.id !in d.reposById, Render(RepositoryNotFound)),
      Branch(SignedIn(s) && p.id in d.reposById
               && !d.checkOwner(d.reposById[p.id], CurrentUser(s, d).value),
             Redirect(Profile)) ]
  }

  /** The branches of `ensure_repository_active!`. */
  function RepositoryActiveBranches(d: Directory, p: Params): seq<Branch>
  {
    var holder := ResolveHolder(d, p.username);
    [ Branch(holder.None?, Render(NotFound)),
      Branch(holder.Some? && !HoldsActive(d, holder.value, p.repositoryname), Render(NotFound)) ]
  }

  lemma EnsureSignedInFollowsBranches(s: Session, d: Directory, p: Params)
    ensures EnsureSignedIn(s, d, p) == FirstFiring(SignedInBranches(s))
  {
  }

  /** `ensure_own_repository!` is the first-match of its three branches: at
      most one verdict per call, and no later branch can override an earlier one. */
  lemma EnsureOwnRepositoryFollowsBranches(s: Session, d: Directory, p: Params)
    requires ResolvesForRepository(s, d, p.id)
    ensures EnsureOwnRepository(s, d, p) == FirstFiring(OwnRepositoryBranches(s, d, p))
  {
    var bs := OwnRepositoryBranches(s, d, p);
    assert bs == bs[..1] + bs[1..];
    FirstFiringAppend(bs[..1], bs[1..]);
    assert bs[1..] == bs[1..2] + bs[2..];
    FirstFiringAppend(bs[1..2], bs[2..]);
  }

  lemma EnsureRepositoryActiveFollowsBranches(s: Session, d: Directory, p: Params)
    ensures EnsureRepositoryActive(s, d, p) == FirstFiring(RepositoryActiveBranches(d, p))
  {
  }

  /** A signed-out visitor is sent to root before any repository lookup: the
      directory, and so whether the repository exists, makes no difference. */
  lemma SignedOutGoesToRootBeforeLookup(s: Session, d1: Directory, d2: Directory, p: Params)
    requires !SignedIn(s)
    ensures ResolvesForRepository(s, d1, p.id) && ResolvesForRepository(s, d2, p.id)
    ensures EnsureOwnRepository(s, d1, p) == EnsureOwnRepository(s, d2, p) == Redirect(Root)
  {
  }

  // ---------------------------------------------------------------------------
  // Ownership

  /** A signed-in visitor asking for a repository id that does not exist sees
      the repositories not-found page and is never redirected. */
  lemma MissingRepositoryIsNotFound(s: Session, d: Directory, p: Params)
    requires SignedIn(s) && p.id !in d.reposById
    ensures ResolvesForRepository(s, d, p.id)
    ensures EnsureOwnRepository(s, d, p) == Render(RepositoryNotFound)
    ensures EnsureOwnRepository(s, d, p).template.Name() == "repositories/404"
    ensures !EnsureOwnRepository(s, d, p).Redirect?
  {
  }

  /** A signed-in user who fails the ownership test of an existing repository
      is sent to their profile: never to root, never a not-found page, and
      never on to the edit page. */
  lemma NonOwnerNeverProceeds(s: Session, d: Directory, p: Params)
    requires Resolves(s, d) && SignedIn(s) && p.id in d.reposById
    requires !d.checkOwner(d.reposById[p.id], d.usersById[s.userId.value])
    ensures EnsureOwnRepository(s, d, p) == Redirect(Profile)
  {
  }

  /** Whatever the directory, the ownership guard halts with one of its own
      three verdicts or lets an owner through; it never sends anyone to login
      and never renders the plain not-found page. */
  lemma OwnRepositoryVerdicts(s: Session, d: Directory, p: Params)
    requires ResolvesForRepository(s, d, p.id)
    ensures EnsureOwnRepository(s, d, p) in {Redirect(Root), Render(RepositoryNotFound), Redirect(Profile), Proceed}
  {
  }

  // ---------------------------------------------------------------------------
  // Public repository page

  /** An inactive repository of the resolved holder always renders not-found. */
  lemma InactiveRepositoryIsNotFound(s: Session, d: Directory, p: Params, h: Holder)
    requires ResolveHolder(d, p.username) == Some(h)
    requires p.repositoryname in d.ReposOf(h) && !d.ReposOf(h)[p.repositoryname].isActive
    ensures EnsureRepositoryActive(s, d, p) == Render(NotFound)
  {
  }

  /** A path naming neither a user nor an organization renders not-found. */
  lemma UnknownHolderIsNotFound(s: Session, d: Directory, p: Params)
    requires p.username !in d.usersByUsername && p.username !in d.orgsByName
    ensures EnsureRepositoryActive(s, d, p) == Render(NotFound)
  {
  }

  /** Once a user matches the name, organizations are never consulted: replacing
      every organization leaves the verdict unchanged. */
  lemma UserHolderShadowsOrganizations(s: Session, d: Directory, p: Params,
                                       orgs: map<string, Organization>,
                                       holderRepos: map<Holder, map<string, Repository>>)
    requires p.username in d.usersByUsername
    requires forall h :: h in holderRepos && h.UserHolder? <==> h in d.holderRepos && h.UserHolder?
    requires forall h :: h in holderRepos && h.UserHolder? ==> holderRepos[h] == d.holderRepos[h]
    ensures EnsureRepositoryActive(s, d, p)
            == EnsureRepositoryActive(s, d.(orgsByName := orgs, holderRepos := holderRepos), p)
  {
    var h := UserHolder(d.usersByUsername[p.username]);
    assert h in holderRepos <==> h in d.holderRepos;
  }

  /** A matching user without a repository of that name gives not-found, even
      when an organization of the same name holds an active one. */
  lemma UserWithoutRepositoryIsNotFound(s: Session, d: Directory, p: Params)
    requires p.username in d.usersByUsername
    requires p.repositoryname !in d.ReposOf(UserHolder(d.usersByUsername[p.username]))
    ensures EnsureRepositoryActive(s, d, p) == Render(NotFound)
  {
  }

  /** The public-page guard never reads the session: signed-in and signed-out
      visitors get the same verdict. */
  lemma RepositoryActiveIgnoresSession(s1: Session, s2: Session, d: Directory, p: Params)
    ensures EnsureRepositoryActive(s1, d, p) == EnsureRepositoryActive(s2, d, p)
  {
  }

  // ---------------------------------------------------------------------------
  // Logout

  /** After logout no one is signed in, whatever the session held, and the
      guards treat the visitor as signed out against any directory. */
  lemma LogoutSignsOut(s: Session, d: Directory, p: Params)
    ensures Resolves(Logout(s), d) && ResolvesForRepository(Logout(s), d, p.id)
    ensures CurrentUser(Logout(s), d) == None
    ensures EnsureSignedIn(Logout(s), d, p) == Redirect(Login)
    ensures EnsureOwnRepository(Logout(s), d, p) == Redirect(Root)
  {
  }

  /** Logging out twice is the same as logging out once. */
  lemma LogoutIdempotent(s: Session)
    ensures Logout(Logout(s)) == Logout(s)
  {
  }

  /** Logout keeps a signed-out session exactly as it was. */
  lemma LogoutOfSignedOutIsNoOp(s: Session)
    ensures !SignedIn(s) ==> Logout(s) == s
  {
  }
}
