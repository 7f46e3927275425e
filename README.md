# Clubs pallet — a Dafny model

The clubs pallet is a FRAME pallet of a Substrate runtime.  It is meant
to keep up to 32 clubs (the code as written lets a 33rd through; see
"## Findings") and a per-account membership mask.  Club number `n` is
identified by the `u32` value 2^n (`number_to_id`), and the same bit in
an account's 32-bit mask (`ClubsInfo`) records membership of that club.
Three dispatchable calls change the storage, and all three require the
root origin:

- `add_club(identifier)` registers the next club number (`TotalClubs`)
  under its identifier, storing the one-byte tag `identifier` in `Clubs`,
  and deposits `NewClub`;
- `assign_to_club(user, club_number)` sets the club's bit in `user`'s
  mask and deposits `UserAddedTo`;
- `remove_from_club(user, club_number)` clears it and deposits
  `UserRemovedFrom`.

A failing call returns an error and changes nothing.  The errors are:

- `BadOrigin` from the root check;
- `IndexOutOfBounds` for a club number past the ceiling;
- `InvalidClub` for an unregistered club;
- `ClubAlreadySet` when the membership bit is already in the requested
  state.

The project has five modules:

- `ClubIds` (`club_ids.dfy`) holds the machine integers.  `u8` and
  `u32` are bounded integer types.  `|`, `&` and `!` on `u32` are
  defined bit by bit (`BitOr`, `BitAnd`, `BitNot` over `HasBit`), and
  `number_to_id` is `NumberToId`.  The module also has the bit-level
  facts the pallet relies on: single-bit identifiers, the membership
  test, and granting and revoking a bit.
- `Clubs` (`clubs.dfy`) is the pallet as a state machine on values.
  `PalletState` is the three storage items plus the event log, and each
  call is a function from the state before the call to a `Step`: the
  result and the state after.  The module also proves the invariant
  `Valid`, the outcome of each call, and the properties that relate
  several calls.
- `ClubsPallet` (`pallet.dfy`) is the pallet as a mutable object.  It
  has one field per storage item plus the event log, and one method per
  call.  Each method writes storage in the source's order and is proved
  to produce exactly the result and the new state that the corresponding
  `Clubs` function gives.  Each method also keeps `Valid`.
- `BoundaryFinding` (`boundary_finding.dfy`) holds the ceiling check as
  the source writes it (`<= 32`) and what that does at club number 32.
  See "## Findings".
- `ClubsScenarios` (`scenarios.dfy`) holds the behaviours that the
  pallet's unit tests in `tests.rs` check.  Most are proved from the
  genesis state; `GrantTwoRevokeOne` holds in every valid state with at
  least four clubs and `UnrootedRejected` in every state.

The strict ceiling used by `Clubs` and `ClubsPallet` departs from the
code at lib.rs:93, 109 and 125.  It is the corrected half of a finding.
Everywhere else the model follows the code.  In particular,
`remove_from_club` reports "user is not a member" with `ClubAlreadySet`,
exactly as lib.rs:130 does, rather than with an error kind of its own.

## Model

| member | source | states |
|---|---|---|
| ClubIds.NumberToId | pallets/clubs/src/lib.rs:139-141 | `number_to_id`: 2^n for a club number below 32, where `2_u32.pow(n)` does not overflow; its bits are stated by `NumberToIdSingleBit` |
| ClubIds.BitOr | pallets/clubs/src/lib.rs:116 | the `u32` bitwise or, defined digit by digit; its bits are stated by `BitsOfBitOr` |
| ClubIds.BitAnd | pallets/clubs/src/lib.rs:114 | the `u32` bitwise and, used for the membership tests at lib.rs:114 and 130 and the revoke at lib.rs:132; its bits are stated by `BitsOfBitAnd` |
| ClubIds.BitNot | pallets/clubs/src/lib.rs:132 | the `u32` complement `!club_id`; its bits are stated by `BitsOfBitNot` |
| ClubIds.NumberToIdSingleBit | pallets/clubs/src/lib.rs:139-141 | the identifier of club `n` has bit `n` set and no other bit |
| ClubIds.NumberToIdInjective | pallets/clubs/src/lib.rs:139-141 | two club numbers below 32 have the same identifier exactly when they are equal |
| ClubIds.BitsOfBitOr | pallets/clubs/src/lib.rs:116 | a bit of the bitwise or of `a` and `b` is set exactly when it is set in `a` or in `b` |
| ClubIds.BitsOfBitAnd | pallets/clubs/src/lib.rs:114 | a bit of `a & b` is set exactly when it is set in both |
| ClubIds.BitsOfBitNot | pallets/clubs/src/lib.rs:132 | `!a` has exactly the bits below 32 that `a` lacks |
| ClubIds.MemberTest | pallets/clubs/src/lib.rs:114 | the test `user_info & club_id != 0` holds exactly when the mask records membership of the club |
| ClubIds.GrantBit | pallets/clubs/src/lib.rs:116 | the bitwise or of `user_info` and `club_id` adds membership of that club and keeps every other membership |
| ClubIds.RevokeBit | pallets/clubs/src/lib.rs:132 | `user_info & !club_id` drops membership of that club and keeps every other membership |
| ClubIds.ClearAfterSet | pallets/clubs/src/lib.rs:107-135 | on a mask without the club, setting its bit and then clearing it gives the mask back |
| ClubIds.SetAfterClear | pallets/clubs/src/lib.rs:107-135 | on a mask with the club, clearing its bit and then setting it gives the mask back |
| ClubIds.GrantsCommute | pallets/clubs/src/lib.rs:116 | setting two club bits gives the same mask in either order |
| ClubIds.IdWithin | pallets/clubs/src/lib.rs:139-141 | club `n`'s identifier has its bit among the first `t` clubs exactly when `n < t` |
| Clubs.MaskOf | pallets/clubs/src/lib.rs:50 | `Users::get` (lib.rs:113, 129): the stored mask, or 0 for an account without one, as a `ValueQuery` reads |
| Clubs.Genesis | pallets/clubs/src/lib.rs:40-56 | the default storage (no clubs, empty masks) satisfies the pallet invariant |
| Clubs.AddClub | pallets/clubs/src/lib.rs:90-103 | a failing `add_club` leaves storage and events unchanged |
| Clubs.AssignToClub | pallets/clubs/src/lib.rs:107-119 | a failing `assign_to_club` leaves storage and events unchanged |
| Clubs.RemoveFromClub | pallets/clubs/src/lib.rs:123-135 | a failing `remove_from_club` leaves storage and events unchanged |
| Clubs.AssignToClubOutcome | pallets/clubs/src/lib.rs:108-114 | each error is reported exactly when its check fails, in the source's order: origin, ceiling, registered club, existing membership |
| Clubs.AssignToClubEffect | pallets/clubs/src/lib.rs:116-117 | on success, the user was not yet a member; its mask gains the club's bit, clubs are untouched, and `UserAddedTo` is appended |
| Clubs.RemoveFromClubOutcome | pallets/clubs/src/lib.rs:124-130 | each error is reported exactly when its check fails; `ClubAlreadySet` means the user is not a member |
| Clubs.RemoveFromClubEffect | pallets/clubs/src/lib.rs:132-133 | on success, the user was a member; its mask loses the club's bit, clubs are untouched, and `UserRemovedFrom` is appended |
| Clubs.AddClubCreatesOneRecord | pallets/clubs/src/lib.rs:90-101 | in a valid state, `add_club` succeeds exactly for root with fewer than 32 clubs; a success adds one club record, under an identifier that was free, holding the given tag; no existing club record is changed or removed |
| Clubs.AddClubNeverInvalidClub | pallets/clubs/src/lib.rs:96 | in a valid state the `InvalidClub` check of `add_club` never fires, and root succeeds below the ceiling |
| Clubs.AddClubPreservesValid | pallets/clubs/src/lib.rs:90-103 | `add_club` keeps the invariant: at most 32 clubs, registered identifiers exactly 2^k for k below the counter, every mask bit a registered club |
| Clubs.AssignToClubPreservesValid | pallets/clubs/src/lib.rs:107-119 | `assign_to_club` keeps the invariant |
| Clubs.RemoveFromClubPreservesValid | pallets/clubs/src/lib.rs:123-135 | `remove_from_club` keeps the invariant |
| Clubs.RegisteredIdsArePowers | pallets/clubs/src/lib.rs:95-99 | in a valid state every registered identifier is 2^k for some club number k below the counter |
| Clubs.MembershipImpliesRegistered | pallets/clubs/src/lib.rs:112-116 | in a valid state every bit of every mask belongs to a registered club |
| Clubs.AssignToClubSetsOneBit | pallets/clubs/src/lib.rs:116 | after a successful grant, the user's mask has the club plus exactly its former memberships |
| Clubs.AssignToClubKeepsOthers | pallets/clubs/src/lib.rs:116 | a grant leaves every other account's mask unchanged |
| Clubs.RemoveFromClubClearsOneBit | pallets/clubs/src/lib.rs:132 | after a successful revoke, the user's mask has its former memberships minus the club |
| Clubs.RemoveFromClubKeepsOthers | pallets/clubs/src/lib.rs:132 | a revoke leaves every other account's mask unchanged |
| Clubs.AssignThenRemoveRestores | pallets/clubs/src/lib.rs:107-135 | a successful grant followed by the matching revoke succeeds and restores the user's mask, leaving two events |
| Clubs.RemoveThenAssignRestores | pallets/clubs/src/lib.rs:107-135 | a successful revoke followed by the matching grant succeeds and restores the mask map exactly |
| Clubs.AssignTwiceRejected | pallets/clubs/src/lib.rs:114 | a second identical grant fails with `ClubAlreadySet` and changes nothing |
| Clubs.RemoveTwiceRejected | pallets/clubs/src/lib.rs:130 | a second identical revoke fails with `ClubAlreadySet` and changes nothing |
| Clubs.AssignsCommute | pallets/clubs/src/lib.rs:116 | two grants of different clubs to one user give the same masks in either order |
| Clubs.UnregisteredClubRejected | pallets/clubs/src/lib.rs:112 | in a valid state, a club number at or past the counter but below 32 is rejected with `InvalidClub` by both membership calls, with no change |
| Clubs.AssignToRegisteredSucceeds | pallets/clubs/src/lib.rs:107-119 | in a valid state, root can grant any registered club the user lacks; the result keeps the invariant |
| Clubs.RemoveHeldSucceeds | pallets/clubs/src/lib.rs:123-135 | in a valid state, root can revoke any club the user holds; the result keeps the invariant |
| Clubs.AddClubAtCeiling | pallets/clubs/src/lib.rs:93 | in any state with at least 32 clubs, root's `add_club` fails with `IndexOutOfBounds` and changes nothing |
| Clubs.AddClubsInOrder | pallets/clubs/src/lib.rs:90-103 | repeated root `add_club` calls from a valid state with room all succeed, registering consecutive club numbers with one `NewClub` each, touching no mask and keeping the invariant |
| ClubsPallet.Pallet.constructor | pallets/clubs/src/lib.rs:40-56 | a fresh pallet holds the default storage, which is valid |
| ClubsPallet.Pallet.AddClub | pallets/clubs/src/lib.rs:90-103 | the method's result and new fields are those of `Clubs.AddClub`; on error nothing changes; the invariant is kept |
| ClubsPallet.Pallet.AssignToClub | pallets/clubs/src/lib.rs:107-119 | the method's result and new fields are those of `Clubs.AssignToClub`; on error nothing changes; the invariant is kept |
| ClubsPallet.Pallet.RemoveFromClub | pallets/clubs/src/lib.rs:123-135 | the method's result and new fields are those of `Clubs.RemoveFromClub`; on error nothing changes; the invariant is kept |
| BoundaryFinding.WrappingPow2 | pallets/clubs/src/lib.rs:140 | `2_u32.pow(n)` as a release build computes it, each doubling wrapping modulo 2^32; its values are stated by `WrappingPow2Value` |
| BoundaryFinding.WrappingPow2Value | pallets/clubs/src/lib.rs:140 | `2_u32.pow(n)` with wrapping multiplication equals the club identifier 2^n below 32, and 0 from 32 on |
| BoundaryFinding.AddClubAsWritten | pallets/clubs/src/lib.rs:90-103 | with the `<= 32` guard and wrapping power, a failing call still changes nothing |
| BoundaryFinding.AssignToClubAsWritten | pallets/clubs/src/lib.rs:107-119 | with the `<= 32` guard and wrapping power, a failing call still changes nothing |
| BoundaryFinding.RemoveFromClubAsWritten | pallets/clubs/src/lib.rs:123-135 | with the `<= 32` guard and wrapping power, a failing call still changes nothing |
| BoundaryFinding.AsWrittenAgreesAwayFrom32 | pallets/clubs/src/lib.rs:93-140 | except at counter or club number 32, the calls as written and the corrected calls agree exactly |
| BoundaryFinding.AddClubAsWrittenAtCeiling | pallets/clubs/src/lib.rs:93 | with 32 clubs, `add_club` as written succeeds, stores identifier 0, moves the counter to 33 and breaks the invariant; the corrected call fails with `IndexOutOfBounds` |
| BoundaryFinding.AssignAsWrittenAt32 | pallets/clubs/src/lib.rs:109 | once identifier 0 is stored, `assign_to_club` as written with club 32 succeeds without granting anything, and succeeds again when repeated; the corrected call fails with `IndexOutOfBounds` |
| BoundaryFinding.RemoveAsWrittenAt32 | pallets/clubs/src/lib.rs:125 | `remove_from_club` as written with club 32 fails with `ClubAlreadySet` or `InvalidClub` instead of `IndexOutOfBounds` |
| ClubsScenarios.SetsClubs | pallets/clubs/src/tests.rs:6-13 | three root `add_club` calls from genesis succeed |
| ClubsScenarios.AssignsAndRemoves | pallets/clubs/src/tests.rs:32-50 | after one club, granting club 0 makes the mask `number_to_id(0)` = 1, and revoking it makes the mask 0 |
| ClubsScenarios.GrantTwoRevokeOne | pallets/clubs/src/tests.rs:68-78 | in any valid state with at least four clubs, granting clubs 0 and 3 to a user without memberships gives 0b1001, and revoking 3 gives 1 |
| ClubsScenarios.MultipleClubs | pallets/clubs/src/tests.rs:53-80 | after clubs tagged 1 to 4, granting 0 and 3 gives 0b1001, and revoking 3 gives 1 |
| ClubsScenarios.MultipleClubsOnPallet | pallets/clubs/src/tests.rs:53-80 | the same run on a fresh `Pallet` object, with the clubs created in a loop, ends with the masks 0b1001 and then 1 |
| ClubsScenarios.UnrootedRejected | pallets/clubs/src/tests.rs:83-98 | a signed (non-root) origin gets `BadOrigin` from all three calls, with no change |
| ClubsScenarios.AssignTwice | pallets/clubs/src/tests.rs:101-112 | granting club 0 twice: the first grant succeeds, the second fails with `ClubAlreadySet` and changes nothing |
| ClubsScenarios.AssignNonexistentClub | pallets/clubs/src/tests.rs:115-124 | club 10 at genesis gives `InvalidClub` and changes nothing |
| ClubsScenarios.AssignOverflowedClub | pallets/clubs/src/tests.rs:127-137 | club 40 gives `IndexOutOfBounds` and changes nothing |

## Left out

- The FRAME machinery is not modelled: the pallet macros, `Config`, the
  weights, the storage hashers, the getters and the runtime `Event`
  conversion.  None of it affects what a call computes.
- The origin is a boolean `isRoot`.  `ensure_root` itself is not part of
  this model.
- Storage is modelled as plain maps and a counter.  `deposit_event` is
  modelled as appending to an event sequence; how events are delivered is
  not modelled.
- Transactional storage is not modelled.  Every error in the source is
  raised before the first write, so "a failure changes nothing" holds
  call by call.
- The error variants `NoneValue`, `StorageOverflow` and `InvalidOrigin`
  are declared at lib.rs:73-82, but no call returns them, so they have no
  counterpart.
- The debug-build panic of `2_u32.pow(32)` is not modelled as a panic.
  `NumberToId` demands `n < 32` instead, and `BoundaryFinding` models the
  release build's wrap-around to 0.
- The `u8` overflow of `clubs_total + 1` (lib.rs:100) is not modelled.  It
  cannot happen: under the corrected ceiling the counter stops at 32, and
  under the source's guard at 33.
- The `Clubs` storage item is kept even though lib.rs:52 and lib.rs:98
  call it unnecessary.  Its tags are stored and never read.
- An account whose last membership is revoked keeps an explicit entry of
  0, as `Users::insert` writes one.  An absent key and a 0 entry read the
  same through `MaskOf`.
- Clubs.AddClubsInOrder: states that the tags go in one per club, in
  order, only through the `NewClub` events and the counter.  It does not
  state which tag is stored under which identifier.
- The mock runtime, benchmarking and test scaffolding are not modelled.
  The tests' assertions are restated in `ClubsScenarios`.

## Findings

| source | as written | input that shows it | evidently intended | confidence | as-written member | corrected member |
|---|---|---|---|---|---|---|
| pallets/clubs/src/lib.rs:93 | `ensure!(clubs_total <= 32, ...)` lets a 33rd `add_club` through to `number_to_id(32)`, whose `2_u32.pow(32)` panics in a debug build and wraps to 0 in a release build | 32 clubs created, then `add_club(root, t)`: release registers identifier 0 and sets `TotalClubs` to 33 | `clubs_total < 32`: the 33rd call fails with `IndexOutOfBounds` | not executed | BoundaryFinding.AddClubAsWrittenAtCeiling | Clubs.AddClubAtCeiling |
| pallets/clubs/src/lib.rs:109 | `ensure!(club_number <= 32, ...)` admits club 32, whose identifier is 0 in a release build | identifier 0 registered (see above), then `assign_to_club(root, u, 32)` twice: both succeed and grant nothing | `club_number < 32`: `IndexOutOfBounds` | not executed | BoundaryFinding.AssignAsWrittenAt32 | Clubs.AssignToClubOutcome |
| pallets/clubs/src/lib.rs:125 | `ensure!(club_number <= 32, ...)` admits club 32, which reaches the membership check with identifier 0 in a release build | `remove_from_club(root, u, 32)` in any state: `ClubAlreadySet` or `InvalidClub` | `club_number < 32`: `IndexOutOfBounds` | not executed | BoundaryFinding.RemoveAsWrittenAt32 | Clubs.RemoveFromClubOutcome |
