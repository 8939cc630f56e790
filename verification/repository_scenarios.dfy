/** The fixture of the repository feature scenarios, as a directory, and the
    verdicts the guards give on the visits those scenarios make. */
module RepositoryScenarios {
  import opened Options
  import opened Records
  import opened Verdicts
  import opened AuthenticationsHelper

  const Greptest := User(1, "greptest", Some("access"))
  const OrgUser := User(2, "orguser", Some("access"))
  const AnotherUser := User(3, "another", Some("access"))
  const Org := Organization("coolorg")

  const CoolCode := Repository(1, "CoolCode", true)
  const CoolOrg := Repository(2, "CoolOrg", true)
  const CoolInactive := Repository(3, "CoolInactive", false)

  /** Which user passes the ownership test of which repository: each
      repository's permitted users. */
  const Permitted: set<(RepoId, UserId)> := {(1, 1), (2, 2), (3, 1)}

  function Fixture(): Directory
  {
    Directory(
      map[1 := Greptest, 2 := OrgUser, 3 := AnotherUser],
      map["greptest" := Greptest, "orguser" := OrgUser, "another" := AnotherUser],
      map["coolorg" := Org],
      map[1 := CoolCode, 2 := CoolOrg, 3 := CoolInactive],
      map[UserHolder(Greptest) := map["CoolCode" := CoolCode, "CoolInactive" := CoolInactive],
          OrgHolder(Org) := map["CoolOrg" := CoolOrg]],
      (r: Repository, u: User) => (r.id, u.id) in Permitted)
  }

  function SignedInAs(u: User): Session
  {
    Session(Some(u.id), map[])
  }

  const Anonymous := Session(None, map[])

  /** Visiting a repository under a holder that does not exist shows not-found. */
  lemma UnknownHolderShowsNotFound()
    ensures EnsureRepositoryActive(Anonymous, Fixture(), Params(0, "joe_schmoe", "CoolInactive"))
            == Render(NotFound)
    ensures EnsureRepositoryActive(Anonymous, Fixture(), Params(0, "joe_schmoe", "CoolInactive"))
              .template.Name() == "404"
  {
  }

  /** An active repository's public page is shown. */
  lemma ActiveRepositoryIsShown()
    ensures EnsureRepositoryActive(Anonymous, Fixture(), Params(0, "greptest", "CoolCode")) == Proceed
  {
  }

  /** An inactive repository's public page shows not-found. */
  lemma InactiveRepositoryShowsNotFound()
    ensures EnsureRepositoryActive(Anonymous, Fixture(), Params(0, "greptest", "CoolInactive"))
            == Render(NotFound)
  {
  }

  /** The owner, and the organization member, reach the edit page. */
  lemma OwnersMayEdit()
    ensures ResolvesForRepository(SignedInAs(Greptest), Fixture(), 1)
            && ResolvesForRepository(SignedInAs(OrgUser), Fixture(), 2)
    ensures EnsureOwnRepository(SignedInAs(Greptest), Fixture(), Params(1, "", "")) == Proceed
    ensures EnsureOwnRepository(SignedInAs(OrgUser), Fixture(), Params(2, "", "")) == Proceed
  {
  }

  /** Another user is turned away from both edit pages. */
  lemma AnotherUserMayNotEdit()
    ensures ResolvesForRepository(SignedInAs(AnotherUser), Fixture(), 1)
            && ResolvesForRepository(SignedInAs(AnotherUser), Fixture(), 2)
    ensures EnsureOwnRepository(SignedInAs(AnotherUser), Fixture(), Params(1, "", "")) == Redirect(Profile)
    ensures EnsureOwnRepository(SignedInAs(AnotherUser), Fixture(), Params(2, "", "")) == Redirect(Profile)
  {
  }
}
