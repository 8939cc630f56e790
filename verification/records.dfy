/** The entities the access guard reads: the visitor's session, the request
    parameters, and a read-only directory of users, organizations and
    repositories standing in for the application's database. */
module Records {
  import opened Options

  type UserId = nat
  type RepoId = nat
  type Token = string

  datatype User = User(id: UserId, username: string, accessToken: Option<Token>)

  datatype Organization = Organization(name: string)

  /** The polymorphic owner of a repository: exactly one of a User or an Organization. */
  datatype Holder = UserHolder(user: User) | OrgHolder(org: Organization)

  datatype Repository = Repository(id: RepoId, name: string, isActive: bool)

  /** The per-visitor session: the signed-in user's id (absent when signed out)
      and every other key the session happens to hold. */
  datatype Session = Session(userId: Option<UserId>, others: map<string, string>)

  /** The request parameters the guards consult: `:id` on the edit routes,
      `:username` and `:repositoryname` on the public repository route. */
  datatype Params = Params(id: RepoId, username: string, repositoryname: string)

  /** The lookups the guards perform, as maps:
      `User.find` (usersById), `User.find_by_username` (usersByUsername),
      `Organization.find_by_name` (orgsByName), `Repository.exists?` and
      `Repository.find` (reposById), `holder.repositories.find_by_name`
      (holderRepos), and the repository's ownership test `check_owner`, whose
      body is not part of this model and is therefore left uninterpreted. */
  datatype Directory = Directory(
    usersById: map<UserId, User>,
    usersByUsername: map<string, User>,
    orgsByName: map<string, Organization>,
    reposById: map<RepoId, Repository>,
    holderRepos: map<Holder, map<string, Repository>>,
    checkOwner: (Repository, User) -> bool)
  {
    /** The repositories held by `h`, keyed by name; none when `h` holds nothing. */
    function ReposOf(h: Holder): map<string, Repository>
    {
      if h in holderRepos then holderRepos[h] else map[]
    }
  }
}
