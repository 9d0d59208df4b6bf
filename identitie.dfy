/**
 * The older registry variant, kept beside the live one but not declared as a module
 * of the canister: membership is an any-match that never fails, and activating an
 * unknown entry identity aborts the call.
 */
module Identitie {
  import opened Wrappers
  import opened Types
  import Identities

  /** The text the aborted activation carries. */
  const PanicText := "User not found"

  /** Some user activated as `id` has the committee role. */
  ghost predicate AnyCommittee(s: seq<UserState>, id: Principal)
  {
    exists k :: 0 <= k < |s| && s[k].identity == Some(id) && s[k].role == Committee
  }

  class Users {
    var entries: seq<User>

    ghost predicate Valid()
      reads this
    {
      Distinct(entries)
    }

    ghost function View(): (v: seq<UserState>)
      reads this, entries
    {
      StatesOf(entries)
    }

    constructor New()
      ensures Valid() && View() == []
    {
      entries := [];
    }

    /** Whether any user activated as `caller` is a committee member; never an error. */
    method IsInCommittee(caller: Principal) returns (b: bool)
      ensures b == AnyCommittee(View(), caller)
    {
      var i := 0;
      while i < |entries|
        invariant i <= |entries|
        invariant forall j :: 0 <= j < i ==> !(View()[j].identity == Some(caller) && View()[j].role == Committee)
      {
        if entries[i].identity == Some(caller) && entries[i].IsInCommittee() {
          assert View()[i].identity == Some(caller) && View()[i].role == Committee;
          return true;
        }
        i := i + 1;
      }
      return false;
    }

    /** The first user registered with entry identity `caller`, if any. */
    method GetUserByEntryIdentity(caller: Principal) returns (r: Option<User>)
      ensures r == Pick(entries, Identities.FirstByEntryIdentity(View(), caller))
    {
      var i := 0;
      while i < |entries|
        invariant i <= |entries|
        invariant forall j :: 0 <= j < i ==> View()[j].entryIdentity != caller
      {
        if entries[i].entryIdentity == caller {
          assert Identities.FirstEntryAt(View(), caller, i);
          Identities.FirstEntryUnique(View(), caller, i);
          return Some(entries[i]);
        }
        i := i + 1;
      }
      return None;
    }

    /** The first user activated as `caller`, if any. */
    method GetUserByIdentity(caller: Principal) returns (r: Option<User>)
      ensures r == Pick(entries, Identities.FirstByIdentity(View(), caller))
    {
      var i := 0;
      while i < |entries|
        invariant i <= |entries|
        invariant forall j :: 0 <= j < i ==> View()[j].identity != Some(caller)
      {
        if entries[i].identity == Some(caller) {
          assert Identities.FirstIdentityAt(View(), caller, i);
          Identities.FirstUnique(View(), caller, i);
          return Some(entries[i]);
        }
        i := i + 1;
      }
      return None;
    }

    /**
     * Activates the first user registered with entry identity `caller`; with no such
     * user the call aborts (an error result here) and nothing changes.
     */
    method ActivateUser(caller: Principal, identity: Principal, identitySeed: string) returns (r: Result<()>)
      requires Valid()
      modifies entries
      ensures Valid() && entries == old(entries)
      ensures match Identities.FirstByEntryIdentity(old(View()), caller)
              case None => r == Err(PanicText) && View() == old(View())
              case Some(k) => r == Ok(()) && View() == Identities.ActivateAt(old(View()), k, identity, identitySeed)
    {
      var user := GetUserByEntryIdentity(caller);
      match user
      case None =>
        return Err(PanicText);
      case Some(u) =>
        ghost var before := View();
        ghost var k := Identities.FirstByEntryIdentity(before, caller).value;
        u.Activate(identity, identitySeed);
        forall j | 0 <= j < |entries|
          ensures View()[j] == Identities.ActivateAt(before, k, identity, identitySeed)[j]
        {
          if j != k {
            assert entries[j] != entries[k];
          }
        }
        return Ok(());
    }
  }

  // ---------------------------------------------------------------------------
  // The any-match check against the live first-match check

  /**
   * Unactivated users never count as committee members: whatever role the unactivated
   * user at position `k` holds, the any-match check gives the same answer.
   */
  lemma UnactivatedNeverCounts(s: seq<UserState>, k: nat, r: Role, id: Principal)
    requires k < |s| && s[k].identity.None?
    ensures AnyCommittee(s[k := s[k].(role := r)], id) <==> AnyCommittee(s, id)
  {
    var t := s[k := s[k].(role := r)];
    if AnyCommittee(t, id) {
      var j :| 0 <= j < |t| && t[j].identity == Some(id) && t[j].role == Committee;
      assert s[j] == t[j];
    }
    if AnyCommittee(s, id) {
      var j :| 0 <= j < |s| && s[j].identity == Some(id) && s[j].role == Committee;
      assert j != k;
      assert t[j] == s[j];
    }
  }

  /** Where the first-match check admits `id`, the any-match check admits it too. */
  lemma FirstMatchImpliesAny(s: seq<UserState>, id: Principal)
    ensures Identities.CommitteeStatus(s, id) == Ok(true) ==> AnyCommittee(s, id)
  {
  }

  /** Where the first-match check fails for an unknown identity, the any-match check answers false. */
  lemma UnknownIsNotMember(s: seq<UserState>, id: Principal)
    ensures Identities.CommitteeStatus(s, id).Err? ==> !AnyCommittee(s, id)
  {
  }

  /** When at most one user is activated as `id`, the two checks agree. */
  lemma AgreeOnUniqueIdentity(s: seq<UserState>, id: Principal)
    requires forall i, j :: 0 <= i < j < |s| && s[i].identity == Some(id) ==> s[j].identity != Some(id)
    ensures AnyCommittee(s, id) <==> Identities.CommitteeStatus(s, id) == Ok(true)
  {
    if AnyCommittee(s, id) {
      var k :| 0 <= k < |s| && s[k].identity == Some(id) && s[k].role == Committee;
      assert Identities.FirstIdentityAt(s, id, k);
    }
  }

  /**
   * The checks part ways when two users share an activated identity: an ordinary user
   * first and a committee member second.
   */
  lemma ShadowedMember(a: Principal, b: Principal, id: Principal)
    ensures var s := [UserState(a, Some(id), None, Role.User), UserState(b, Some(id), None, Committee)];
            AnyCommittee(s, id) && Identities.CommitteeStatus(s, id) == Ok(false)
  {
    var s := [UserState(a, Some(id), None, Role.User), UserState(b, Some(id), None, Committee)];
    assert s[1].identity == Some(id) && s[1].role == Committee;
    assert Identities.FirstIdentityAt(s, id, 0);
  }
}
