/** Principals, roles and the registry's user record. */
module Types {
  import opened Wrappers

  /** A principal is the byte blob that names an Internet Computer identity; only equality is used. */
  type Principal = seq<bv8>

  /** The anonymous principal is the one-byte blob 0x04. */
  const Anonymous: Principal := [4]

  datatype Role = Committee | User

  /** The fields of one user at one moment, as a value. */
  datatype UserState = UserState(
    entryIdentity: Principal,       // entry data the committee registered the user with
    identity: Option<Principal>,    // the identity the user activated, if any
    identitySeed: Option<string>,   // the encrypted seed the identity was generated from
    role: Role)

  /** A freshly registered user: nothing activated yet. */
  function Unactivated(entryIdentity: Principal, role: Role): (u: UserState)
  {
    UserState(entryIdentity, None, None, role)
  }

  /** The effect of activation on a user's fields. */
  function Activated(u: UserState, identity: Principal, identitySeed: string): (r: UserState)
  {
    u.(identity := Some(identity), identitySeed := Some(identitySeed))
  }

  /** A user, held by reference in the registry and updated in place. */
  class User {
    var entryIdentity: Principal
    var identity: Option<Principal>
    var identitySeed: Option<string>
    var role: Role

    function State(): (u: UserState)
      reads this
    {
      UserState(entryIdentity, identity, identitySeed, role)
    }

    constructor New(entryIdentity: Principal)
      ensures State() == Unactivated(entryIdentity, Role.User)
    {
      this.entryIdentity := entryIdentity;
      identity := None;
      identitySeed := None;
      role := Role.User;
    }

    constructor NewWithRole(entryIdentity: Principal, role: Role)
      ensures State() == Unactivated(entryIdentity, role)
    {
      this.entryIdentity := entryIdentity;
      identity := None;
      identitySeed := None;
      this.role := role;
    }

    /** Records the activated identity and its seed; the entry identity and the role stay. */
    method Activate(identity: Principal, identitySeed: string)
      modifies this
      ensures State() == Activated(old(State()), identity, identitySeed)
      ensures entryIdentity == old(entryIdentity) && role == old(role)
      ensures IsInCommittee() == old(IsInCommittee())
    {
      this.identity := Some(identity);
      this.identitySeed := Some(identitySeed);
    }

    /** Membership is the role alone: every user who is not an ordinary user is a committee member. */
    predicate IsInCommittee()
      reads this
      ensures IsInCommittee() <==> role != Role.User
    {
      role == Committee
    }

    /** Makes the user a committee member; nothing else changes. */
    method Promote()
      modifies this
      ensures State() == old(State()).(role := Committee)
      ensures IsInCommittee()
    {
      role := Committee;
    }

    /** Makes the user an ordinary user; nothing else changes. */
    method Demote()
      modifies this
      ensures State() == old(State()).(role := Role.User)
      ensures !IsInCommittee()
    {
      role := Role.User;
    }
  }

  /** The states of a sequence of users, index by index. */
  ghost function StatesOf(us: seq<User>): (states: seq<UserState>)
    reads us
  {
    seq(|us|, k requires 0 <= k < |us| reads us => us[k].State())
  }

  /** No user object appears twice: a vector owns each of its elements. */
  ghost predicate Distinct(us: seq<User>)
  {
    forall i, j :: 0 <= i < j < |us| ==> us[i] != us[j]
  }

  /** The element a search found, if any. */
  function Pick(us: seq<User>, k: Option<nat>): (r: Option<User>)
  {
    if k.Some? && k.value < |us| then Some(us[k.value]) else None
  }

  /** Activating twice with the same arguments is the same as activating once. */
  lemma ActivateIdempotent(u: UserState, identity: Principal, identitySeed: string)
    ensures Activated(Activated(u, identity, identitySeed), identity, identitySeed)
         == Activated(u, identity, identitySeed)
  {
  }

  /** A later activation overwrites an earlier one. */
  lemma ActivateOverwrites(u: UserState, i1: Principal, s1: string, i2: Principal, s2: string)
    ensures Activated(Activated(u, i1, s1), i2, s2) == Activated(u, i2, s2)
  {
  }
}
