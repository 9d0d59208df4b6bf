/**
 * The canister's registry-facing entry points: initialisation, the committee guard,
 * the registry effects of accepted committee actions, and the user calls.
 */
module Backend {
  import opened Wrappers
  import opened Types
  import opened Errors
  import opened Identities

  /** The two thresholds of the configuration that initialisation checks, in basis points. */
  datatype Config = Config(committeeThreshold: nat, presidentialElectionsThreshold: nat)

  /** One hundred percent in basis points. */
  const MaxBasisPoints := 10000

  /** The caller principal; the anonymous principal is refused with the `AnonymousCaller` text. */
  function Caller(p: Principal): (r: Result<Principal>)
    ensures r.Ok? <==> p != Anonymous
    ensures r.Ok? ==> r.value == p
    ensures r.Err? ==> r.msg == Message(AnonymousCaller)
  {
    if p == Anonymous then Err(Message(AnonymousCaller)) else Ok(p)
  }

  /** The canister state: the configuration cell and the user registry. */
  class Canister {
    var config: Option<Config>
    const users: Users

    /** The canister object, the registry and the users the registry owns. */
    ghost function Repr(): set<object>
      reads this, users
    {
      {this} + users.Repr
    }

    ghost predicate Valid()
      reads this, users, users.Repr
    {
      users.Valid() && this !in users.Repr
    }

    /** The state before initialisation: no configuration and no users. */
    constructor ()
      ensures Valid() && config == None && users.View() == [] && fresh(Repr())
    {
      config := None;
      users := new Users.New();
    }

    /**
     * Stores the configuration and seeds one committee member per entry identity, in
     * order. Refused when users exist already or a threshold exceeds 100%; a refusal
     * writes nothing.
     */
    method Init(config: Config, entryIdentities: seq<Principal>) returns (r: Result<()>)
      requires Valid()
      modifies this, users
      ensures Valid() && fresh(Repr() - old(Repr()))
      ensures old(users.Len()) != 0 ==> r == Err(Message(AlreadyInitialized))
      ensures old(users.Len()) == 0 && config.committeeThreshold > MaxBasisPoints
              ==> r == Err(Message(ThresholdToLow))
      ensures old(users.Len()) == 0 && config.committeeThreshold <= MaxBasisPoints
              && config.presidentialElectionsThreshold > MaxBasisPoints
              ==> r == Err(Message(InvalidPercentage))
      ensures r.Ok? <==> old(users.Len()) == 0 && config.committeeThreshold <= MaxBasisPoints
                         && config.presidentialElectionsThreshold <= MaxBasisPoints
      ensures r.Err? ==> this.config == old(this.config) && users.View() == old(users.View())
      ensures r.Ok? ==> this.config == Some(config)
      ensures r.Ok? ==> users.View() == Registered(entryIdentities, Committee)
    {
      if users.Len() != 0 {
        return Err(Message(AlreadyInitialized));
      }
      if config.committeeThreshold > MaxBasisPoints {
        return Err(Message(ThresholdToLow));
      }
      if config.presidentialElectionsThreshold > MaxBasisPoints {
        return Err(Message(InvalidPercentage));
      }
      this.config := Some(config);
      var i := 0;
      while i < |entryIdentities|
        invariant i <= |entryIdentities|
        invariant Valid() && this.config == Some(config)
        invariant fresh(Repr() - old(Repr()))
        invariant users.View() == Registered(entryIdentities[..i], Committee)
      {
        var user := new User.NewWithRole(entryIdentities[i], Committee);
        users.Push(user);
        assert entryIdentities[..i + 1] == entryIdentities[..i] + [entryIdentities[i]];
        i := i + 1;
      }
      assert entryIdentities[..i] == entryIdentities;
      return Ok(());
    }

    /**
     * The authorisation gate of committee calls: passes exactly when the first user
     * activated as the caller holds the committee role.
     */
    method CommitteeGuard(caller: Principal) returns (r: Result<()>)
      ensures caller == Anonymous ==> r == Err(Message(AnonymousCaller))
      ensures caller != Anonymous ==>
                (r.Ok? <==> exists k: nat :: FirstIdentityAt(users.View(), caller, k)
                                          && users.View()[k].role == Committee)
      ensures caller != Anonymous && (forall j :: 0 <= j < |users.View()| ==> users.View()[j].identity != Some(caller))
              ==> r == Err(NotFoundText)
      ensures caller != Anonymous && (exists k: nat :: FirstIdentityAt(users.View(), caller, k)
                                                   && users.View()[k].role == Role.User)
              ==> r == Err(Message(NotInCommittee))
    {
      var who := Caller(caller);
      if who.Err? {
        return Err(who.msg);
      }
      var member := users.IsInCommittee(who.value);
      if member.Err? {
        return Err(member.msg);
      }
      if !member.value {
        return Err(Message(NotInCommittee));
      }
      return Ok(());
    }

    /** Whether the caller's activated identity belongs to the committee; unknown callers get the registry's error. */
    method UserBelongsToCommittee(caller: Principal) returns (r: Result<bool>)
      ensures caller == Anonymous ==> r == Err(Message(AnonymousCaller))
      ensures caller != Anonymous ==> r == CommitteeStatus(users.View(), caller)
    {
      var who := Caller(caller);
      if who.Err? {
        return Err(who.msg);
      }
      r := users.IsInCommittee(who.value);
    }

    /** The encrypted seed stored for the caller's entry identity. */
    method GetSalt(caller: Principal) returns (r: Result<string>)
      ensures caller == Anonymous ==> r == Err(Message(AnonymousCaller))
      ensures caller != Anonymous ==> r == SeedByEntryIdentity(users.View(), caller)
    {
      var who := Caller(caller);
      if who.Err? {
        return Err(who.msg);
      }
      r := users.GetSeedByEntryIdentity(who.value);
    }

    /** Activates the user whose entry identity is the caller with `identity` and `identitySeed`. */
    method ActivateUser(caller: Principal, identity: Principal, identitySeed: string) returns (r: Result<()>)
      requires Valid()
      modifies users.entries
      ensures Valid()
      ensures caller == Anonymous ==> r == Err(Message(AnonymousCaller)) && users.View() == old(users.View())
      ensures caller != Anonymous ==>
                match FirstByEntryIdentity(old(users.View()), caller)
                case None => r == Err(NotFoundText) && users.View() == old(users.View())
                case Some(k) => r == Ok(()) && users.View() == ActivateAt(old(users.View()), k, identity, identitySeed)
      ensures r.Ok? ==> SeedByEntryIdentity(users.View(), caller) == Ok(identitySeed)
    {
      var who := Caller(caller);
      if who.Err? {
        return Err(who.msg);
      }
      r := users.ActivateUser(who.value, identity, identitySeed);
    }

    /** Effect of an accepted registration: one ordinary, unactivated user per entry identity, appended in order. */
    method RegisterNewEntryIdentities(entryIdentities: seq<Principal>)
      requires Valid()
      modifies users
      ensures Valid() && fresh(Repr() - old(Repr()))
      ensures users.View() == old(users.View()) + Registered(entryIdentities, Role.User)
    {
      var i := 0;
      while i < |entryIdentities|
        invariant i <= |entryIdentities|
        invariant Valid() && fresh(Repr() - old(Repr()))
        invariant users.View() == old(users.View()) + Registered(entryIdentities[..i], Role.User)
      {
        var user := new User.New(entryIdentities[i]);
        users.Push(user);
        assert entryIdentities[..i + 1] == entryIdentities[..i] + [entryIdentities[i]];
        i := i + 1;
      }
      assert entryIdentities[..i] == entryIdentities;
    }

    /** Effect of an accepted promotion: the first user activated as `identity` joins the committee. */
    method PromoteUser(identity: Principal) returns (r: Result<()>)
      requires Valid()
      modifies users.entries
      ensures Valid()
      ensures match FirstByIdentity(old(users.View()), identity)
              case None => r == Err(Message(ProposeNotFound)) && users.View() == old(users.View())
              case Some(k) => r == Ok(()) && users.View() == SetRoleAt(old(users.View()), k, Committee)
      ensures r.Ok? ==> CommitteeStatus(users.View(), identity) == Ok(true)
    {
      var user := users.GetMutUserByIdentity(identity);
      match user
      case None =>
        return Err(Message(ProposeNotFound));
      case Some(u) =>
        ghost var before := users.View();
        ghost var k := FirstByIdentity(before, identity).value;
        u.Promote();
        forall j | 0 <= j < |users.entries|
          ensures users.View()[j] == SetRoleAt(before, k, Committee)[j]
        {
          if j != k {
            assert users.entries[j] != users.entries[k];
          }
        }
        SetRoleThenStatus(before, identity, Committee);
        return Ok(());
    }

    /** Effect of an accepted demotion: the first user activated as `identity` leaves the committee. */
    method DemoteUser(identity: Principal) returns (r: Result<()>)
      requires Valid()
      modifies users.entries
      ensures Valid()
      ensures match FirstByIdentity(old(users.View()), identity)
              case None => r == Err(Message(ProposeNotFound)) && users.View() == old(users.View())
              case Some(k) => r == Ok(()) && users.View() == SetRoleAt(old(users.View()), k, Role.User)
      ensures r.Ok? ==> CommitteeStatus(users.View(), identity) == Ok(false)
    {
      var user := users.GetMutUserByIdentity(identity);
      match user
      case None =>
        return Err(Message(ProposeNotFound));
      case Some(u) =>
        ghost var before := users.View();
        ghost var k := FirstByIdentity(before, identity).value;
        u.Demote();
        forall j | 0 <= j < |users.entries|
          ensures users.View()[j] == SetRoleAt(before, k, Role.User)[j]
        {
          if j != k {
            assert users.entries[j] != users.entries[k];
          }
        }
        SetRoleThenStatus(before, identity, Role.User);
        return Ok(());
    }
  }

  /** A seeded committee member who activates first with a fresh identity passes the membership check. */
  lemma SeededMemberActivates(ids: seq<Principal>, c: Principal, identity: Principal, seed: string)
    requires c in ids
    ensures var s := Registered(ids, Committee);
            && FirstByEntryIdentity(s, c).Some?
            && CommitteeStatus(ActivateAt(s, FirstByEntryIdentity(s, c).value, identity, seed), identity) == Ok(true)
  {
    var s := Registered(ids, Committee);
    var i :| 0 <= i < |ids| && ids[i] == c;
    assert s[i].entryIdentity == c;
    ActivatedRoleDecides(s, FirstByEntryIdentity(s, c).value, identity, seed);
  }

  /** A user activates and then asks for the salt: the answer is the seed just stored. */
  method ActivateThenGetSalt(canister: Canister, caller: Principal, identity: Principal, identitySeed: string)
    returns (activated: Result<()>, salt: Result<string>)
    requires canister.Valid()
    modifies canister.users.entries
    ensures activated.Ok? ==> salt == Ok(identitySeed)
    ensures caller != Anonymous && FirstByEntryIdentity(old(canister.users.View()), caller).Some? ==> activated.Ok?
  {
    activated := canister.ActivateUser(caller, identity, identitySeed);
    salt := canister.GetSalt(caller);
  }

  /** A promotion followed by the membership query of the promoted identity answers true. */
  method PromoteThenBelongs(canister: Canister, identity: Principal)
    returns (promoted: Result<()>, belongs: Result<bool>)
    requires canister.Valid()
    modifies canister.users.entries
    ensures identity != Anonymous && promoted.Ok? ==> belongs == Ok(true)
    ensures promoted.Err? <==> FirstByIdentity(old(canister.users.View()), identity).None?
  {
    promoted := canister.PromoteUser(identity);
    belongs := canister.UserBelongsToCommittee(identity);
  }

  /** A demotion followed by the membership query of the demoted identity answers false. */
  method DemoteThenBelongs(canister: Canister, identity: Principal)
    returns (demoted: Result<()>, belongs: Result<bool>)
    requires canister.Valid()
    modifies canister.users.entries
    ensures identity != Anonymous && demoted.Ok? ==> belongs == Ok(false)
    ensures demoted.Err? <==> FirstByIdentity(old(canister.users.View()), identity).None?
  {
    demoted := canister.DemoteUser(identity);
    belongs := canister.UserBelongsToCommittee(identity);
  }

  /**
   * A fresh canister initialised with one entry identity: once that member activates,
   * the committee guard lets the activated identity through.
   */
  method InitActivateGuard(config: Config, entryIdentity: Principal, identity: Principal, identitySeed: string)
    returns (initialised: Result<()>, activated: Result<()>, guard: Result<()>)
    requires config.committeeThreshold <= MaxBasisPoints && config.presidentialElectionsThreshold <= MaxBasisPoints
    requires entryIdentity != Anonymous && identity != Anonymous
    ensures initialised.Ok? && activated.Ok? && guard.Ok?
  {
    var canister := new Canister();
    assert canister.users.Len() == 0;
    initialised := canister.Init(config, [entryIdentity]);
    ghost var s := Registered([entryIdentity], Committee);
    assert canister.users.View() == s;
    SeededMemberActivates([entryIdentity], entryIdentity, identity, identitySeed);
    activated := canister.ActivateUser(entryIdentity, identity, identitySeed);
    assert CommitteeStatus(canister.users.View(), identity) == Ok(true);
    ghost var k: nat :| FirstIdentityAt(canister.users.View(), identity, k) && canister.users.View()[k].role == Committee;
    guard := canister.CommitteeGuard(identity);
    assert FirstIdentityAt(canister.users.View(), identity, k) && canister.users.View()[k].role == Committee;
  }

  /**
   * Registration followed by activation: a newly registered user who activates with an
   * identity nobody uses is told it does not belong to the committee.
   */
  method RegisterActivateBelongs(canister: Canister, entryIdentities: seq<Principal>, entryIdentity: Principal,
                                 identity: Principal, identitySeed: string)
    returns (activated: Result<()>, belongs: Result<bool>)
    requires canister.Valid()
    requires entryIdentity in entryIdentities && entryIdentity != Anonymous && identity != Anonymous
    requires FirstByEntryIdentity(canister.users.View(), entryIdentity).None?
    requires FirstByIdentity(canister.users.View(), identity).None?
    modifies canister.Repr()
    ensures activated == Ok(()) && belongs == Ok(false)
  {
    ghost var before := canister.users.View();
    canister.RegisterNewEntryIdentities(entryIdentities);
    ghost var registered := canister.users.View();
    assert FirstByIdentity(registered, identity).None? by {
      forall j | 0 <= j < |registered|
        ensures registered[j].identity != Some(identity)
      {
        if j >= |before| {
          assert registered[j] == Registered(entryIdentities, Role.User)[j - |before|];
        }
      }
    }
    RegisteredNotCommittee(before, entryIdentities, entryIdentity, identity, identitySeed);
    activated := canister.ActivateUser(entryIdentity, identity, identitySeed);
    belongs := canister.UserBelongsToCommittee(identity);
  }
}
