# vote_me user registry — a Dafny model

This project models the user and committee registry of the `vote_me` Internet
Computer backend, and the canister entry points that seed, guard and change it.

The registry is a vector of users. Each user has:

- an entry identity, registered by the committee;
- an optional activated identity and an optional encrypted seed, both set when the user activates;
- a role, `Committee` or `User`.

Every search in the registry is first-match. The membership check fails when no
user is activated as the caller. The seed lookup fails both for an unknown entry
identity and for a user who has not activated. The canister seeds its first
committee members at initialisation. A committee guard gates committee calls.
Accepted committee actions append new users and promote or demote existing ones.
Users activate themselves and read back their seed.

Files and modules:

- `wrappers.dfy` (`Wrappers`): `Option`, and `Result` whose error is the text the caller sees.
- `errors.dfy` (`Errors`): the `ContractError` enumeration and its display texts.
- `types.dfy` (`Types`): principals, roles, the `UserState` value and the `User` class.
  `User` objects are updated in place, as the Rust `&mut User` borrows are.
- `identities.dfy` (`Identities`): the live registry. Its first-match searches are
  functions over `seq<UserState>`, with lemmas about them. The `Users` class holds a
  `seq<User>`; its methods are proved against those functions.
- `identitie.dfy` (`Identitie`): the older registry variant. The canister does not
  declare it as a module. Its membership check is an any-match; lemmas compare it
  with the live first-match check.
- `backend.dfy` (`Backend`): the canister state (`Canister`: configuration cell plus
  registry) and its registry-touching entry points.

Modelling choices:

- A principal is its byte blob (`seq<bv8>`). Only equality is used. The anonymous principal is the blob `0x04`.
- The caller is a parameter. Rejecting the anonymous caller is modelled as an error result carrying the `AnonymousCaller` text. It is not a precondition.
- `caller()` (src/vote_me_backend/src/helpers.rs:3-11) returns a bare `Principal` and panics on the anonymous principal. lib.rs nevertheless writes `caller().unwrap()` (lines 108, 117, 144 and 184 among the modelled entry points), which does not type-check as written. The model reads `caller()` as returning a result whose error is the anonymous-caller refusal. Either reading rejects the anonymous caller and changes nothing.
- A panic or an `unwrap` of an error traps the call, and the whole call is rolled back. Such calls return `Err(text)` and leave the state unchanged. This covers the `assert!`s of `init`, the panic of the legacy `activate_user`, and the `unwrap`s in `activate_user`, `get_salt` and `user_belongs_to_committee`.
- The iterator searches (`iter().find`, `iter_mut().find`, `iter().any`) are written as `while` loops. Each loop is proved against the search function it implements.
- The registry's own error texts are string literals without a final period: "User not found" and "User do not exist". The text of the `UserNotFound` variant ends in a period. The model keeps the two apart, and `Identities.NotFoundTextDiffers` records the difference.
- Membership is a vector searched first-match, with no size cap. Activation looks up the registered entry identity.
- `init` reports a committee threshold above 10000 with the `ThresholdToLow` text. That text speaks of a lower bound. The model keeps the variant the code uses.

## Model

| member | source | states |
|---|---|---|
| `Errors.Message` | src/vote_me_backend/src/errors.rs:3-43 | every variant displays as a fixed, non-empty sentence ending in a period |
| `Errors.MessageInjective` | src/vote_me_backend/src/errors.rs:3-43 | the thirteen display texts are pairwise distinct |
| `Identities.NotFoundTextDiffers` | src/vote_me_backend/src/errors.rs:8-9 | `UserNotFound` displays as "User not found." which is the registry's literal plus a period, so the two differ |
| `Types.User.New` | src/vote_me_backend/src/types.rs:20-27 | a new user keeps the entry identity, has no identity and no seed, and has role `User` |
| `Types.User.NewWithRole` | src/vote_me_backend/src/types.rs:29-36 | the same as `New`, except that the role is the argument |
| `Types.User.Activate` | src/vote_me_backend/src/types.rs:38-41 | identity and seed become the arguments; entry identity, role and committee membership are unchanged |
| `Types.ActivateIdempotent` | src/vote_me_backend/src/types.rs:38-41 | Activating a user state twice with the same identity and seed gives the same state as activating it once. |
| `Types.ActivateOverwrites` | src/vote_me_backend/src/types.rs:38-41 | Activating a user state with one identity and seed and then with another gives the same state as activating it with the second pair only. |
| `Types.User.IsInCommittee` | src/vote_me_backend/src/types.rs:43-45 | true exactly when the user's role is not `User`, that is, when it is `Committee` |
| `Types.User.Promote` | src/vote_me_backend/src/lib.rs:240 | the role becomes `Committee` and nothing else changes (assumed behaviour) |
| `Types.User.Demote` | src/vote_me_backend/src/lib.rs:251 | the role becomes `User` and nothing else changes (assumed behaviour) |
| `Identities.FirstByIdentity` | src/vote_me_backend/src/identities.rs:33-38 | the result is the first position activated as the identity; `None` exactly when no user is activated as it; unactivated users never match |
| `Identities.FirstByEntryIdentity` | src/vote_me_backend/src/identities.rs:46-50 | the result is the first position with that entry identity; `None` exactly when there is none |
| `Identities.CommitteeStatus` | src/vote_me_backend/src/identities.rs:20-25 | "User not found" exactly when no user is activated as the identity; otherwise `Ok(true)` iff the first such user has role `Committee`, and `Ok(false)` iff it has role `User` |
| `Identities.SeedByEntryIdentity` | src/vote_me_backend/src/identities.rs:58-69 | "User do not exist" both when no entry identity matches and when the first match has no seed; otherwise the seed of the first match |
| `Identities.ActivateThenSeed` | src/vote_me_backend/src/identities.rs:40-69 | round trip: after the first user with entry identity `c` activates with seed `s`, the seed lookup for `c` gives `s` |
| `Identities.ActivateThenKnown` | src/vote_me_backend/src/identities.rs:20-52 | after an activation as `i`, the membership check for `i` no longer fails |
| `Identities.ActivatedRoleDecides` | src/vote_me_backend/src/identities.rs:20-52 | if nobody answered to `i` before, then after activating a user as `i` the membership check for `i` reports that user's role |
| `Identities.SetRoleThenStatus` | src/vote_me_backend/src/lib.rs:234-254 | after the first user activated as `i` gets a role, the membership check for `i` reports exactly that role |
| `Identities.RegisteredNotCommittee` | src/vote_me_backend/src/lib.rs:226-232 | a newly registered user whose entry identity was unknown is matched among the appended users, and after activating with an unused identity is not a committee member |
| `Identities.Users.New` | src/vote_me_backend/src/identities.rs:8-10 | a new registry is empty |
| `Identities.Users.Len` | src/vote_me_backend/src/identities.rs:12-14 | the length is the number of users |
| `Identities.Users.Push` | src/vote_me_backend/src/identities.rs:16-18 | exactly one user is appended at the end; the length grows by one and earlier users are unchanged |
| `Identities.Users.IsInCommittee` | src/vote_me_backend/src/identities.rs:20-25 | the result is `CommitteeStatus` of the registry |
| `Identities.Users.GetMutUserByIdentity` | src/vote_me_backend/src/identities.rs:27-31 | the result is the first user activated as the caller, or `None` |
| `Identities.Users.GetUserByIdentity` | src/vote_me_backend/src/identities.rs:33-38 | the result is the first user activated as the identity, or `None` |
| `Identities.Users.ActivateUser` | src/vote_me_backend/src/identities.rs:40-56 | on a match, only the first user with that entry identity gets the identity and seed, and the length is unchanged; with no match, "User not found" and nothing changes; afterwards the seed lookup gives the seed |
| `Identities.Users.GetSeedByEntryIdentity` | src/vote_me_backend/src/identities.rs:58-69 | the result is `SeedByEntryIdentity` of the registry |
| `Identitie.Users.New` | src/vote_me_backend/src/identitie.rs:8-10 | a new legacy registry is empty |
| `Identitie.Users.IsInCommittee` | src/vote_me_backend/src/identitie.rs:12-16 | true iff some user is activated as the caller and has role `Committee`; never an error |
| `Identitie.Users.GetUserByEntryIdentity` | src/vote_me_backend/src/identitie.rs:18-20 | the first user with that entry identity, or `None` |
| `Identitie.Users.GetUserByIdentity` | src/vote_me_backend/src/identitie.rs:22-26 | the first user activated as the caller, or `None` |
| `Identitie.Users.ActivateUser` | src/vote_me_backend/src/identitie.rs:28-34 | on a match, only the first matching user is activated and the length is unchanged; with no match the call aborts with "User not found" and nothing changes |
| `Identitie.UnactivatedNeverCounts` | src/vote_me_backend/src/identitie.rs:14 | in any registry, changing the role of a user who has not activated leaves the any-match answer unchanged for every identity, so an unactivated committee-role user never counts |
| `Identitie.FirstMatchImpliesAny` | src/vote_me_backend/src/identitie.rs:12-16 | whoever the first-match check admits, the any-match check admits too |
| `Identitie.UnknownIsNotMember` | src/vote_me_backend/src/identitie.rs:12-16 | where the first-match check fails, the any-match check answers false |
| `Identitie.AgreeOnUniqueIdentity` | src/vote_me_backend/src/identitie.rs:12-16 | when at most one user is activated as the identity, the two checks agree in both directions |
| `Identitie.ShadowedMember` | src/vote_me_backend/src/identitie.rs:12-16 | two users sharing an identity, an ordinary user first and then a committee member: the any-match check admits the identity and the first-match check answers false |
| `Backend.Caller` | src/vote_me_backend/src/helpers.rs:3-11 | refuses exactly the anonymous principal, with the `AnonymousCaller` text; any other caller is returned unchanged |
| `Backend.Canister.constructor` | src/vote_me_backend/src/lib.rs:24-36 | before initialisation there is no configuration and no user; the canister, its registry and their footprint are newly allocated |
| `Backend.Canister.Init` | src/vote_me_backend/src/lib.rs:38-71 | fails with `AlreadyInitialized` when users exist; otherwise fails with `ThresholdToLow` or `InvalidPercentage` when a threshold exceeds 10000, writing nothing; on success stores the configuration and holds exactly one unactivated committee user per entry identity, in order; every object added to the footprint is newly allocated |
| `Backend.SeededMemberActivates` | src/vote_me_backend/src/lib.rs:56-62 | a seeded committee member who activates with an unused identity passes the membership check |
| `Backend.Canister.CommitteeGuard` | src/vote_me_backend/src/lib.rs:183-191 | passes exactly when the first user activated as the caller has role `Committee`; "User do not belongs to committee." when that user has role `User`; "User not found" when no user is activated as the caller; refuses the anonymous caller |
| `Backend.Canister.UserBelongsToCommittee` | src/vote_me_backend/src/lib.rs:106-113 | the answer is the registry's membership check for the caller |
| `Backend.Canister.GetSalt` | src/vote_me_backend/src/lib.rs:115-121 | the answer is the registry's seed lookup for the caller's entry identity |
| `Backend.Canister.ActivateUser` | src/vote_me_backend/src/lib.rs:142-153 | activates the first user whose entry identity is the caller, or fails with "User not found" and changes nothing; after success the caller's seed lookup gives the stored seed |
| `Backend.Canister.RegisterNewEntryIdentities` | src/vote_me_backend/src/lib.rs:226-232 | appends one unactivated user with role `User` per entry identity, in order; existing users are unchanged; every object added to the footprint is newly allocated |
| `Backend.Canister.PromoteUser` | src/vote_me_backend/src/lib.rs:234-243 | "Propose not found." and no change when nobody is activated as the identity; otherwise only the first match's role becomes `Committee`, the length is unchanged, and the membership check answers true |
| `Backend.Canister.DemoteUser` | src/vote_me_backend/src/lib.rs:245-254 | "Propose not found." and no change when nobody is activated as the identity; otherwise only the first match's role becomes `User`, the length is unchanged, and the membership check answers false |
| `Backend.ActivateThenGetSalt` | src/vote_me_backend/src/lib.rs:115-153 | activating and then calling `get_salt` as the same caller returns the seed just stored |
| `Backend.PromoteThenBelongs` | src/vote_me_backend/src/lib.rs:106-113 | a successful promotion makes `user_belongs_to_committee` answer true for the promoted identity |
| `Backend.DemoteThenBelongs` | src/vote_me_backend/src/lib.rs:106-113 | a successful demotion makes `user_belongs_to_committee` answer false for the demoted identity; the demotion fails exactly when nobody was activated as the identity |
| `Backend.InitActivateGuard` | src/vote_me_backend/src/lib.rs:38-71 | on a new canister with valid thresholds, `init` with one entry identity succeeds, that member's activation succeeds, and the committee guard then admits the activated identity |
| `Backend.RegisterActivateBelongs` | src/vote_me_backend/src/lib.rs:226-232 | after `register_new_entry_identities`, a new entry identity activating with an unused identity succeeds, and `user_belongs_to_committee` then answers false for it |

## Left out

- Committee proposals, presidential elections and their voting (`committee_create_propose`, `committee_vote_on_propose`, `committee_create_user_propose`, `vote_on_propose`, the getters, `close_committee_proposal`, `close_presidential_elections`, `create_user_propose`): the proposal ledgers, `CommitteeActions::validate` and `get_committee_size` are not part of this model; types.rs, which lib.rs imports them from, does not define them.
- `User::promote` and `User::demote` are called but not defined in the source. `Types.User.Promote` and `Types.User.Demote` assume that each sets the role and changes nothing else.
- `get_user_identity`, `get_user_entry_identity` and `get_user_seed` are called by identities.rs but not defined. They are modelled as plain reads of the `identity`, `entry_identity` and `identity_seed` fields.
- `Users::default()`, used for the initial registry, is not defined either. It is modelled as the empty registry, like `Users::new()`.
- `Config` is not part of this model beyond what `init` reads; types.rs does not define it. Only the two thresholds that `init` checks are modelled, as unbounded naturals. Their integer width is not modelled.
- The `thread_local!`/`RefCell` globals are fields of one `Canister` object. The `#[init]`, `#[update]` and `#[query]` attributes, `println!` and `export_candid!` are runtime plumbing and are left out.
- `Backend.Canister.Init`: `init` runs once, at installation. The model does not track installation; it states only what one call does.
- The unused `Vote`/`Votes` types, the client-side encryption and key derivation, deployment scripts and tests are outside the registry and are not modelled.
