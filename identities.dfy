/**
 * The user registry the canister keeps: a vector of users searched first-match,
 * by activated identity or by entry identity.
 */
module Identities {
  import opened Wrappers
  import opened Types
  import Errors

  /** The literal the registry returns when no activated user or no entry matches. */
  const NotFoundText := "User not found"
  /** The literal the seed lookup returns when there is no entry or no seed. */
  const NotExistText := "User do not exist"

  // ---------------------------------------------------------------------------
  // First-match searches over the registry's contents

  /** `k` is the first position whose activated identity is `id`. */
  ghost predicate FirstIdentityAt(s: seq<UserState>, id: Principal, k: nat)
  {
    k < |s| && s[k].identity == Some(id) && forall j :: 0 <= j < k ==> s[j].identity != Some(id)
  }

  /** `k` is the first position whose entry identity is `id`. */
  ghost predicate FirstEntryAt(s: seq<UserState>, id: Principal, k: nat)
  {
    k < |s| && s[k].entryIdentity == id && forall j :: 0 <= j < k ==> s[j].entryIdentity != id
  }

  /** Position of the first user activated as `id`; users never activated never match. */
  function FirstByIdentity(s: seq<UserState>, id: Principal): (r: Option<nat>)
    ensures r.Some? ==> FirstIdentityAt(s, id, r.value)
    ensures r.None? <==> forall j :: 0 <= j < |s| ==> s[j].identity != Some(id)
  {
    if s == [] then None
    else if s[0].identity == Some(id) then Some(0)
    else
      match FirstByIdentity(s[1..], id)
      case None => None
      case Some(k) => Some(k + 1)
  }

  /** Position of the first user registered with entry identity `id`. */
  function FirstByEntryIdentity(s: seq<UserState>, id: Principal): (r: Option<nat>)
    ensures r.Some? ==> FirstEntryAt(s, id, r.value)
    ensures r.None? <==> forall j :: 0 <= j < |s| ==> s[j].entryIdentity != id
  {
    if s == [] then None
    else if s[0].entryIdentity == id then Some(0)
    else
      match FirstByEntryIdentity(s[1..], id)
      case None => None
      case Some(k) => Some(k + 1)
  }

  /**
   * Committee membership of the identity `id`: an error when no user is activated
   * as `id`, otherwise whether the first such user has the committee role.
   */
  function CommitteeStatus(s: seq<UserState>, id: Principal): (r: Result<bool>)
    ensures r.Err? <==> forall j :: 0 <= j < |s| ==> s[j].identity != Some(id)
    ensures r.Err? ==> r.msg == NotFoundText
    ensures r == Ok(true) <==> exists k: nat :: FirstIdentityAt(s, id, k) && s[k].role == Committee
    ensures r == Ok(false) <==> exists k: nat :: FirstIdentityAt(s, id, k) && s[k].role == Role.User
  {
    match FirstByIdentity(s, id)
    case None => Err(NotFoundText)
    case Some(k) =>
      FirstUnique(s, id, k);
      Ok(s[k].role == Committee)
  }

  /**
   * The stored seed of the first user registered with entry identity `id`; the same
   * error whether that user is missing or has not activated yet.
   */
  function SeedByEntryIdentity(s: seq<UserState>, id: Principal): (r: Result<string>)
    ensures r.Err? ==> r.msg == NotExistText
    ensures r.Err? <==> forall k: nat :: FirstEntryAt(s, id, k) ==> s[k].identitySeed.None?
    ensures r.Ok? ==> exists k: nat :: FirstEntryAt(s, id, k) && s[k].identitySeed == Some(r.value)
  {
    match FirstByEntryIdentity(s, id)
    case None => Err(NotExistText)
    case Some(k) =>
      FirstEntryUnique(s, id, k);
      match s[k].identitySeed
      case None => Err(NotExistText)
      case Some(seed) => Ok(seed)
  }

  /** The registry after activating the user at `k`. */
  function ActivateAt(s: seq<UserState>, k: nat, identity: Principal, seed: string): (t: seq<UserState>)
    requires k < |s|
  {
    s[k := Activated(s[k], identity, seed)]
  }

  /** The registry after giving the user at `k` the role `role`. */
  function SetRoleAt(s: seq<UserState>, k: nat, role: Role): (t: seq<UserState>)
    requires k < |s|
  {
    s[k := s[k].(role := role)]
  }

  /** Fresh users, one per entry identity, in order. */
  function Registered(ids: seq<Principal>, role: Role): (s: seq<UserState>)
  {
    seq(|ids|, k requires 0 <= k < |ids| => Unactivated(ids[k], role))
  }

  // ---------------------------------------------------------------------------
  // Facts about the searches

  lemma FirstUnique(s: seq<UserState>, id: Principal, k: nat)
    requires FirstIdentityAt(s, id, k)
    ensures forall k': nat :: FirstIdentityAt(s, id, k') ==> k' == k
  {
  }

  lemma FirstEntryUnique(s: seq<UserState>, id: Principal, k: nat)
    requires FirstEntryAt(s, id, k)
    ensures forall k': nat :: FirstEntryAt(s, id, k') ==> k' == k
  {
  }

  /** Round trip: once the user with entry identity `c` activated with `seed`, the seed lookup for `c` yields `seed`. */
  lemma ActivateThenSeed(s: seq<UserState>, c: Principal, identity: Principal, seed: string)
    requires FirstByEntryIdentity(s, c).Some?
    ensures SeedByEntryIdentity(ActivateAt(s, FirstByEntryIdentity(s, c).value, identity, seed), c) == Ok(seed)
  {
    var k := FirstByEntryIdentity(s, c).value;
    var t := ActivateAt(s, k, identity, seed);
    assert FirstEntryAt(t, c, k);
    FirstEntryUnique(t, c, k);
  }

  /** After an activation as `identity`, the membership check for `identity` no longer fails. */
  lemma ActivateThenKnown(s: seq<UserState>, k: nat, identity: Principal, seed: string)
    requires k < |s|
    ensures CommitteeStatus(ActivateAt(s, k, identity, seed), identity).Ok?
  {
    assert ActivateAt(s, k, identity, seed)[k].identity == Some(identity);
  }

  /** After the first user activated as `id` is given role `role`, the membership check for `id` reports exactly that role. */
  lemma SetRoleThenStatus(s: seq<UserState>, id: Principal, role: Role)
    requires FirstByIdentity(s, id).Some?
    ensures CommitteeStatus(SetRoleAt(s, FirstByIdentity(s, id).value, role), id) == Ok(role == Committee)
  {
    var k := FirstByIdentity(s, id).value;
    var t := SetRoleAt(s, k, role);
    assert FirstIdentityAt(t, id, k);
    FirstUnique(t, id, k);
  }

  /**
   * When nobody answered to `identity` before, activating the user at `k` as `identity`
   * makes the membership check for `identity` report that user's role.
   */
  lemma ActivatedRoleDecides(t: seq<UserState>, k: nat, identity: Principal, seed: string)
    requires k < |t| && FirstByIdentity(t, identity).None?
    ensures CommitteeStatus(ActivateAt(t, k, identity, seed), identity) == Ok(t[k].role == Committee)
  {
    var u := ActivateAt(t, k, identity, seed);
    assert FirstIdentityAt(u, identity, k);
    FirstUnique(u, identity, k);
  }

  /**
   * Users appended by registration hold the ordinary role and stay out of the committee
   * when activated, provided no user already answers to the activated identity.
   */
  lemma RegisteredNotCommittee(s: seq<UserState>, ids: seq<Principal>, c: Principal, identity: Principal, seed: string)
    requires FirstByEntryIdentity(s, c).None? && c in ids
    requires FirstByIdentity(s + Registered(ids, Role.User), identity).None?
    ensures var t := s + Registered(ids, Role.User);
            && FirstByEntryIdentity(t, c).Some?
            && var k := FirstByEntryIdentity(t, c).value;
            && |s| <= k
            && CommitteeStatus(ActivateAt(t, k, identity, seed), identity) == Ok(false)
  {
    var t := s + Registered(ids, Role.User);
    var i :| 0 <= i < |ids| && ids[i] == c;
    assert t[|s| + i].entryIdentity == c;
    var k := FirstByEntryIdentity(t, c).value;
    assert k >= |s|;
    ActivatedRoleDecides(t, k, identity, seed);
  }

  /** The registry's error text is not the text of the `UserNotFound` error variant: it lacks the final period. */
  lemma NotFoundTextDiffers()
    ensures Errors.Message(Errors.UserNotFound) == NotFoundText + "."
    ensures Errors.Message(Errors.UserNotFound) != NotFoundText
  {
  }

  // ---------------------------------------------------------------------------
  // The registry object

  /** The canister's users, in registration order. */
  class Users {
    var entries: seq<User>
    /** The registry object and the users it owns. */
    ghost var Repr: set<object>

    /** The vector owns its users: each is in the footprint and none is held twice. */
    ghost predicate Valid()
      reads this, Repr
    {
      && this in Repr
      && (forall k :: 0 <= k < |entries| ==> entries[k] in Repr)
      && Distinct(entries)
    }

    /** The users' fields, position by position. */
    ghost function View(): (v: seq<UserState>)
      reads this, entries
    {
      StatesOf(entries)
    }

    constructor New()
      ensures Valid() && View() == [] && fresh(Repr)
    {
      entries := [];
      Repr := {this};
    }

    function Len(): (n: nat)
      reads this, entries
      ensures n == |View()|
    {
      |entries|
    }

    /** Appends one user at the end; the users already present are untouched. */
    method Push(user: User)
      requires Valid() && user !in Repr
      modifies this
      ensures Valid() && Repr == old(Repr) + {user}
      ensures entries == old(entries) + [user]
      ensures View() == old(View()) + [user.State()]
      ensures Len() == old(Len()) + 1
    {
      entries := entries + [user];
      Repr := Repr + {user};
    }

    /** Whether the first user activated as `identity` belongs to the committee. */
    method IsInCommittee(identity: Principal) returns (r: Result<bool>)
      ensures r == CommitteeStatus(View(), identity)
    {
      var user := GetUserByIdentity(identity);
      match user
      case None =>
        r := Err(NotFoundText);
      case Some(u) =>
        r := Ok(u.IsInCommittee());
    }

    /** The first user activated as `caller`, as a reference the caller may update. */
    method GetMutUserByIdentity(caller: Principal) returns (r: Option<User>)
      ensures r == Pick(entries, FirstByIdentity(View(), caller))
    {
      // The shared and the mutable search look for the same element.
      r := GetUserByIdentity(caller);
    }

    /** The first user activated as `identity`. */
    method GetUserByIdentity(identity: Principal) returns (r: Option<User>)
      ensures r == Pick(entries, FirstByIdentity(View(), identity))
    {
      var i := 0;
      while i < |entries|
        invariant i <= |entries|
        invariant forall j :: 0 <= j < i ==> View()[j].identity != Some(identity)
      {
        if entries[i].identity == Some(identity) {
          assert FirstIdentityAt(View(), identity, i);
          FirstUnique(View(), identity, i);
          return Some(entries[i]);
        }
        i := i + 1;
      }
      return None;
    }

    /**
     * Activates the first user registered with entry identity `caller`; fails, changing
     * nothing, when there is none.
     */
    method ActivateUser(caller: Principal, identity: Principal, identitySeed: string) returns (r: Result<()>)
      requires Valid()
      modifies entries
      ensures Valid() && entries == old(entries)
      ensures match FirstByEntryIdentity(old(View()), caller)
              case None => r == Err(NotFoundText) && View() == old(View())
              case Some(k) => r == Ok(()) && View() == ActivateAt(old(View()), k, identity, identitySeed)
      ensures r.Ok? ==> SeedByEntryIdentity(View(), caller) == Ok(identitySeed)
      ensures r.Ok? ==> CommitteeStatus(View(), identity).Ok?
    {
      var i := 0;
      while i < |entries|
        invariant i <= |entries|
        invariant forall j :: 0 <= j < i ==> View()[j].entryIdentity != caller
      {
        if entries[i].entryIdentity == caller {
          ghost var before := View();
          assert FirstEntryAt(before, caller, i);
          FirstEntryUnique(before, caller, i);
          entries[i].Activate(identity, identitySeed);
          forall j | 0 <= j < |entries|
            ensures View()[j] == ActivateAt(before, i, identity, identitySeed)[j]
          {
            if j != i {
              assert entries[j] != entries[i];
            }
          }
          ActivateThenSeed(before, caller, identity, identitySeed);
          ActivateThenKnown(before, i, identity, identitySeed);
          return Ok(());
        }
        i := i + 1;
      }
      return Err(NotFoundText);
    }

    /** The seed stored for the first user registered with entry identity `identity`. */
    method GetSeedByEntryIdentity(identity: Principal) returns (r: Result<string>)
      ensures r == SeedByEntryIdentity(View(), identity)
    {
      var i := 0;
      while i < |entries|
        invariant i <= |entries|
        invariant forall j :: 0 <= j < i ==> View()[j].entryIdentity != identity
      {
        if entries[i].entryIdentity == identity {
          assert FirstEntryAt(View(), identity, i);
          FirstEntryUnique(View(), identity, i);
          match entries[i].identitySeed
          case None =>
            return Err(NotExistText);
          case Some(seed) =>
            return Ok(seed);
        }
        i := i + 1;
      }
      return Err(NotExistText);
    }
  }
}
