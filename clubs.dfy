/** The clubs pallet as a state machine over values.

    The pallet's storage is a counter of the clubs created so far
    (`TotalClubs`), a map from club identifier to an opaque one-byte tag
    (`Clubs`) and a map from account to membership mask (`Users`, which
    reads as 0 for an account without an entry).  The three calls
    `add_club`, `assign_to_club` and `remove_from_club` are functions from
    the state before the call to a `Step`: the call's result and the state
    after it, events included.  The class in module `ClubsPallet` is proved
    against these functions. */
module Clubs {
  import opened ClubIds

  /** The pallet's events. */
  datatype Event<A> =
    | UserAddedTo(who: A, club: ClubId)
    | UserRemovedFrom(who: A, club: ClubId)
    | NewClub(club: ClubId)

  /** Why a call fails: `BadOrigin` comes from the root check, the other
      three from the pallet's own `Error` enum. */
  datatype DispatchError = BadOrigin | IndexOutOfBounds | InvalidClub | ClubAlreadySet

  datatype DispatchResult = Ok | Err(error: DispatchError)

  /** The three storage items and the events deposited so far. */
  datatype PalletState<A(==)> = PalletState(
    totalClubs: U8,
    clubs: map<ClubId, U8>,
    users: map<A, Mask>,
    events: seq<Event<A>>)

  /** The outcome of one call. */
  datatype Step<A(==)> = Step(result: DispatchResult, post: PalletState<A>)

  /** `Users::get`: the stored mask, or the default 0 of a `ValueQuery`. */
  function MaskOf<A(==)>(users: map<A, Mask>, a: A): Mask {
    if a in users then users[a] else 0
  }

  /** The identifiers of clubs `0 .. n - 1`. */
  function ClubIdsBelow(n: U8): set<ClubId>
    requires n <= 32
    decreases n
  {
    if n == 0 then {} else ClubIdsBelow(n - 1) + {NumberToId(n - 1)}
  }

  /** The identifier of club `k` is among those of clubs `0 .. n - 1`
      exactly when `k < n`. */
  lemma {:induction false} ClubIdsBelowMembers(n: U8, k: U8)
    requires n <= 32 && k < 32
    ensures NumberToId(k) in ClubIdsBelow(n) <==> k < n
    decreases n
  {
    if n > 0 {
      ClubIdsBelowMembers(n - 1, k);
      NumberToIdInjective(k, n - 1);
    }
  }

  /** Every identifier among those of clubs `0 .. n - 1` is the
      identifier 2^k of some club number `k < n`. */
  lemma {:induction false} ClubIdsBelowArePowers(n: U8, id: ClubId)
    requires n <= 32 && id in ClubIdsBelow(n)
    ensures exists k: U8 :: k < n && id == NumberToId(k)
    decreases n
  {
    if id != NumberToId(n - 1) {
      ClubIdsBelowArePowers(n - 1, id);
    }
  }

  /** Every mask stored in `users` holds only bits of clubs `0 .. t - 1`. */
  ghost predicate MasksWithin<A>(users: map<A, Mask>, t: U8) {
    forall a :: a in users ==> Within(users[a], t)
  }

  /** The mask read for any account, stored or default, lies within the
      first `t` clubs. */
  lemma MaskOfWithin<A>(users: map<A, Mask>, a: A, t: U8)
    requires MasksWithin(users, t)
    ensures Within(MaskOf(users, a), t)
  {
    Pow2Positive(t);
  }

  /** Storing a mask within the first `t` clubs keeps every stored mask
      within them. */
  lemma MasksWithinUpdate<A>(users: map<A, Mask>, user: A, v: Mask, t: U8)
    requires MasksWithin(users, t) && Within(v, t)
    ensures MasksWithin(users[user := v], t)
  {
  }

  /** Masks within the first `t` clubs are within the first `t + 1`. */
  lemma MasksWithinGrow<A>(users: map<A, Mask>, t: U8)
    requires MasksWithin(users, t) && t < 32
    ensures MasksWithin(users, t + 1)
  {
    forall a | a in users
      ensures Within(users[a], t + 1)
    {
      WithinGrows(users[a], t);
    }
  }

  /** A second store under the same key overwrites the first. */
  lemma UpdateTwice<K, V>(m: map<K, V>, k: K, v1: V, v2: V)
    ensures m[k := v1][k := v2] == m[k := v2]
  {
  }

  /** Storing back the value already stored changes nothing. */
  lemma UpdateSame<K, V>(m: map<K, V>, k: K)
    requires k in m
    ensures m[k := m[k]] == m
  {
  }

  /** The pallet's invariant:
      - at most 32 clubs have been created;
      - the registered identifiers are exactly 2^k for `k < TotalClubs`;
      - every mask holds only bits of registered clubs. */
  ghost predicate Valid<A>(s: PalletState<A>) {
    && s.totalClubs <= 32
    && s.clubs.Keys == ClubIdsBelow(s.totalClubs)
    && MasksWithin(s.users, s.totalClubs)
  }

  /** The state of a fresh chain: no clubs, no memberships, no events. */
  function Genesis<A(==)>(): (g: PalletState<A>)
    ensures Valid(g)
  {
    PalletState(0, map[], map[], [])
  }

  /** `add_club(origin, identifier)`: root registers the next club number,
      `TotalClubs`, under identifier 2^TotalClubs with the given tag.  The
      source's guard `clubs_total <= 32` admits 32, for which
      `number_to_id` overflows; the ceiling here is strict and 32 gives
      `IndexOutOfBounds`. */
  function AddClub<A(==)>(s: PalletState<A>, isRoot: bool, identifier: U8): (r: Step<A>)
    ensures r.result.Err? ==> r.post == s
  {
    if !isRoot then Step(Err(BadOrigin), s)
    else if s.totalClubs >= 32 then Step(Err(IndexOutOfBounds), s)
    else if NumberToId(s.totalClubs) in s.clubs then Step(Err(InvalidClub), s)
    else Step(Ok, PalletState(s.totalClubs + 1,
                              s.clubs[NumberToId(s.totalClubs) := identifier],
                              s.users,
                              s.events + [NewClub(NumberToId(s.totalClubs))]))
  }

  /** `assign_to_club(origin, user, club_number)`: root adds `user` to a
      registered club it is not yet a member of.  The source's guard
      `club_number <= 32` admits 32; the ceiling here is strict. */
  function AssignToClub<A(==)>(s: PalletState<A>, isRoot: bool, user: A, clubNumber: U8): (r: Step<A>)
    ensures r.result.Err? ==> r.post == s
  {
    if !isRoot then Step(Err(BadOrigin), s)
    else if clubNumber >= 32 then Step(Err(IndexOutOfBounds), s)
    else if NumberToId(clubNumber) !in s.clubs then Step(Err(InvalidClub), s)
    else if BitAnd(MaskOf(s.users, user), NumberToId(clubNumber)) != 0 then Step(Err(ClubAlreadySet), s)
    else Step(Ok, PalletState(s.totalClubs, s.clubs,
                              s.users[user := BitOr(MaskOf(s.users, user), NumberToId(clubNumber))],
                              s.events + [UserAddedTo(user, NumberToId(clubNumber))]))
  }

  /** `remove_from_club(origin, user, club_number)`: root takes `user` out
      of a registered club it is a member of.  As in the source, "not a
      member" is reported as `ClubAlreadySet`; the ceiling on `club_number`
      is strict as in `AssignToClub`. */
  function RemoveFromClub<A(==)>(s: PalletState<A>, isRoot: bool, user: A, clubNumber: U8): (r: Step<A>)
    ensures r.result.Err? ==> r.post == s
  {
    if !isRoot then Step(Err(BadOrigin), s)
    else if clubNumber >= 32 then Step(Err(IndexOutOfBounds), s)
    else if NumberToId(clubNumber) !in s.clubs then Step(Err(InvalidClub), s)
    else if BitAnd(MaskOf(s.users, user), NumberToId(clubNumber)) == 0 then Step(Err(ClubAlreadySet), s)
    else Step(Ok, PalletState(s.totalClubs, s.clubs,
                              s.users[user := BitAnd(MaskOf(s.users, user), BitNot(NumberToId(clubNumber)))],
                              s.events + [UserRemovedFrom(user, NumberToId(clubNumber))]))
  }

  // ---------------------------------------------------------------------
  // Outcomes of each call

  /** Which result `add_club` gives: `BadOrigin` for a non-root origin,
      `IndexOutOfBounds` once 32 clubs exist, success exactly when the next
      identifier is still free. */
  lemma AddClubOutcome<A>(s: PalletState<A>, isRoot: bool, identifier: U8)
    ensures !isRoot ==> AddClub(s, isRoot, identifier).result == Err(BadOrigin)
    ensures isRoot ==> (AddClub(s, isRoot, identifier).result == Err(IndexOutOfBounds) <==> s.totalClubs >= 32)
    ensures AddClub(s, isRoot, identifier).result == Ok
            <==> isRoot && s.totalClubs < 32 && NumberToId(s.totalClubs) !in s.clubs
  {
  }

  /** A successful `add_club` bumps the counter, stores the tag under the
      new identifier, leaves every mask alone and deposits `NewClub`. */
  lemma AddClubEffect<A>(s: PalletState<A>, isRoot: bool, identifier: U8)
    requires AddClub(s, isRoot, identifier).result == Ok
    ensures s.totalClubs < 32
    ensures AddClub(s, isRoot, identifier).post
            == PalletState(s.totalClubs + 1,
                           s.clubs[NumberToId(s.totalClubs) := identifier],
                           s.users,
                           s.events + [NewClub(NumberToId(s.totalClubs))])
  {
  }

  /** Which result `assign_to_club` gives, check by check in the source's
      order; the last check is whether `user` is already a member. */
  lemma AssignToClubOutcome<A>(s: PalletState<A>, isRoot: bool, user: A, clubNumber: U8)
    ensures !isRoot ==> AssignToClub(s, isRoot, user, clubNumber).result == Err(BadOrigin)
    ensures isRoot ==> (AssignToClub(s, isRoot, user, clubNumber).result == Err(IndexOutOfBounds)
                        <==> clubNumber >= 32)
    ensures isRoot && clubNumber < 32 ==>
      (AssignToClub(s, isRoot, user, clubNumber).result == Err(InvalidClub)
       <==> NumberToId(clubNumber) !in s.clubs)
    ensures isRoot && clubNumber < 32 && NumberToId(clubNumber) in s.clubs ==>
      (AssignToClub(s, isRoot, user, clubNumber).result == Err(ClubAlreadySet)
       <==> HasBit(MaskOf(s.users, user), clubNumber))
  {
    if clubNumber < 32 {
      MemberTest(MaskOf(s.users, user), clubNumber);
    }
  }

  /** A successful `assign_to_club` sets the club's bit in the user's mask,
      changes no club and deposits `UserAddedTo`. */
  lemma AssignToClubEffect<A>(s: PalletState<A>, isRoot: bool, user: A, clubNumber: U8)
    requires AssignToClub(s, isRoot, user, clubNumber).result == Ok
    ensures isRoot && clubNumber < 32 && NumberToId(clubNumber) in s.clubs
    ensures !HasBit(MaskOf(s.users, user), clubNumber)
    ensures AssignToClub(s, isRoot, user, clubNumber).post
            == PalletState(s.totalClubs, s.clubs,
                           s.users[user := BitOr(MaskOf(s.users, user), NumberToId(clubNumber))],
                           s.events + [UserAddedTo(user, NumberToId(clubNumber))])
  {
    MemberTest(MaskOf(s.users, user), clubNumber);
  }

  /** Which result `remove_from_club` gives, check by check in the source's
      order; the last check is whether `user` is a member at all. */
  lemma RemoveFromClubOutcome<A>(s: PalletState<A>, isRoot: bool, user: A, clubNumber: U8)
    ensures !isRoot ==> RemoveFromClub(s, isRoot, user, clubNumber).result == Err(BadOrigin)
    ensures isRoot ==> (RemoveFromClub(s, isRoot, user, clubNumber).result == Err(IndexOutOfBounds)
                        <==> clubNumber >= 32)
    ensures isRoot && clubNumber < 32 ==>
      (RemoveFromClub(s, isRoot, user, clubNumber).result == Err(InvalidClub)
       <==> NumberToId(clubNumber) !in s.clubs)
    ensures isRoot && clubNumber < 32 && NumberToId(clubNumber) in s.clubs ==>
      (RemoveFromClub(s, isRoot, user, clubNumber).result == Err(ClubAlreadySet)
       <==> !HasBit(MaskOf(s.users, user), clubNumber))
  {
    if clubNumber < 32 {
      MemberTest(MaskOf(s.users, user), clubNumber);
    }
  }

  /** A successful `remove_from_club` clears the club's bit in the user's
      mask, changes no club and deposits `UserRemovedFrom`. */
  lemma RemoveFromClubEffect<A>(s: PalletState<A>, isRoot: bool, user: A, clubNumber: U8)
    requires RemoveFromClub(s, isRoot, user, clubNumber).result == Ok
    ensures isRoot && clubNumber < 32 && NumberToId(clubNumber) in s.clubs
    ensures HasBit(MaskOf(s.users, user), clubNumber)
    ensures RemoveFromClub(s, isRoot, user, clubNumber).post
            == PalletState(s.totalClubs, s.clubs,
                           s.users[user := BitAnd(MaskOf(s.users, user), BitNot(NumberToId(clubNumber)))],
                           s.events + [UserRemovedFrom(user, NumberToId(clubNumber))])
  {
    MemberTest(MaskOf(s.users, user), clubNumber);
  }

  // ---------------------------------------------------------------------
  // The invariant

  /** The identifier `add_club` is about to allocate is never registered
      yet, so its `InvalidClub` check cannot fire. */
  lemma AddClubNeverInvalidClub<A>(s: PalletState<A>, isRoot: bool, identifier: U8)
    requires Valid(s)
    ensures AddClub(s, isRoot, identifier).result != Err(InvalidClub)
    ensures isRoot && s.totalClubs < 32 ==> AddClub(s, isRoot, identifier).result == Ok
  {
    if s.totalClubs < 32 {
      ClubIdsBelowMembers(s.totalClubs, s.totalClubs);
    }
  }

  /** In a valid state, `add_club` succeeds exactly for root below the
      ceiling.  It then creates one club record, under an identifier that
      was free, holding the given tag.  No call to `add_club` changes an
      existing club record. */
  lemma AddClubCreatesOneRecord<A>(s: PalletState<A>, isRoot: bool, identifier: U8)
    requires Valid(s)
    ensures AddClub(s, isRoot, identifier).result == Ok <==> isRoot && s.totalClubs < 32
    ensures AddClub(s, isRoot, identifier).result == Ok ==>
              && NumberToId(s.totalClubs) !in s.clubs
              && AddClub(s, isRoot, identifier).post.clubs.Keys == s.clubs.Keys + {NumberToId(s.totalClubs)}
              && AddClub(s, isRoot, identifier).post.clubs[NumberToId(s.totalClubs)] == identifier
    ensures forall id :: id in s.clubs ==>
              id in AddClub(s, isRoot, identifier).post.clubs
              && AddClub(s, isRoot, identifier).post.clubs[id] == s.clubs[id]
  {
    AddClubNeverInvalidClub(s, isRoot, identifier);
    AddClubOutcome(s, isRoot, identifier);
    if AddClub(s, isRoot, identifier).result == Ok {
      AddClubEffect(s, isRoot, identifier);
    }
  }

  lemma AddClubPreservesValid<A>(s: PalletState<A>, isRoot: bool, identifier: U8)
    requires Valid(s)
    ensures Valid(AddClub(s, isRoot, identifier).post)
  {
    if AddClub(s, isRoot, identifier).result == Ok {
      AddClubEffect(s, isRoot, identifier);
      MasksWithinGrow(s.users, s.totalClubs);
    }
  }

  lemma AssignToClubPreservesValid<A>(s: PalletState<A>, isRoot: bool, user: A, clubNumber: U8)
    requires Valid(s)
    ensures Valid(AssignToClub(s, isRoot, user, clubNumber).post)
  {
    if AssignToClub(s, isRoot, user, clubNumber).result == Ok {
      AssignToClubEffect(s, isRoot, user, clubNumber);
      var m := MaskOf(s.users, user);
      ClubIdsBelowMembers(s.totalClubs, clubNumber);
      MaskOfWithin(s.users, user, s.totalClubs);
      GrantWithin(m, clubNumber, s.totalClubs);
      MasksWithinUpdate(s.users, user, BitOr(m, NumberToId(clubNumber)), s.totalClubs);
    }
  }

  lemma RemoveFromClubPreservesValid<A>(s: PalletState<A>, isRoot: bool, user: A, clubNumber: U8)
    requires Valid(s)
    ensures Valid(RemoveFromClub(s, isRoot, user, clubNumber).post)
  {
    if RemoveFromClub(s, isRoot, user, clubNumber).result == Ok {
      RemoveFromClubEffect(s, isRoot, user, clubNumber);
      var m := MaskOf(s.users, user);
      var x := BitNot(NumberToId(clubNumber));
      MaskOfWithin(s.users, user, s.totalClubs);
      RevokeWithin(m, NumberToId(clubNumber), s.totalClubs);
      MasksWithinUpdate(s.users, user, BitAnd(m, x), s.totalClubs);
    }
  }

  /** Every identifier registered in a valid state is 2^k for a club
      number `k` below the counter, so it has exactly one bit set. */
  lemma RegisteredIdsArePowers<A>(s: PalletState<A>, id: ClubId)
    requires Valid(s) && id in s.clubs
    ensures exists k: U8 :: k < s.totalClubs && id == NumberToId(k)
  {
    ClubIdsBelowArePowers(s.totalClubs, id);
  }

  /** A bit set in any account's mask belongs to a registered club. */
  lemma MembershipImpliesRegistered<A>(s: PalletState<A>, a: A, k: U8)
    requires Valid(s) && HasBit(MaskOf(s.users, a), k)
    ensures k < s.totalClubs && NumberToId(k) in s.clubs
  {
    MaskOfWithin(s.users, a, s.totalClubs);
    WithinHasNoHigherBit(MaskOf(s.users, a), s.totalClubs, k);
    ClubIdsBelowMembers(s.totalClubs, k);
  }

  // ---------------------------------------------------------------------
  // Bit transitions

  /** A successful grant adds exactly the membership of `clubNumber` to
      `user`'s mask. */
  lemma AssignToClubSetsOneBit<A>(s: PalletState<A>, user: A, clubNumber: U8, k: nat)
    requires AssignToClub(s, true, user, clubNumber).result == Ok
    ensures HasBit(MaskOf(AssignToClub(s, true, user, clubNumber).post.users, user), k)
            <==> k == clubNumber || HasBit(MaskOf(s.users, user), k)
  {
    AssignToClubEffect(s, true, user, clubNumber);
    GrantBit(MaskOf(s.users, user), clubNumber, k);
  }

  /** A successful grant leaves every other account's mask alone. */
  lemma AssignToClubKeepsOthers<A>(s: PalletState<A>, user: A, clubNumber: U8, other: A)
    requires AssignToClub(s, true, user, clubNumber).result == Ok && other != user
    ensures MaskOf(AssignToClub(s, true, user, clubNumber).post.users, other) == MaskOf(s.users, other)
  {
    AssignToClubEffect(s, true, user, clubNumber);
  }

  /** A successful revoke drops exactly the membership of `clubNumber`
      from `user`'s mask. */
  lemma RemoveFromClubClearsOneBit<A>(s: PalletState<A>, user: A, clubNumber: U8, k: nat)
    requires RemoveFromClub(s, true, user, clubNumber).result == Ok
    ensures HasBit(MaskOf(RemoveFromClub(s, true, user, clubNumber).post.users, user), k)
            <==> k != clubNumber && HasBit(MaskOf(s.users, user), k)
  {
    RemoveFromClubEffect(s, true, user, clubNumber);
    RevokeBit(MaskOf(s.users, user), clubNumber, k);
  }

  /** A successful revoke leaves every other account's mask alone. */
  lemma RemoveFromClubKeepsOthers<A>(s: PalletState<A>, user: A, clubNumber: U8, other: A)
    requires RemoveFromClub(s, true, user, clubNumber).result == Ok && other != user
    ensures MaskOf(RemoveFromClub(s, true, user, clubNumber).post.users, other) == MaskOf(s.users, other)
  {
    RemoveFromClubEffect(s, true, user, clubNumber);
  }

  /** Granting and then revoking the same club succeeds and restores every
      mask; the only trace left in `Users` is an explicit entry for `user`
      holding the mask it read as before. */
  lemma AssignThenRemoveRestores<A>(s: PalletState<A>, user: A, clubNumber: U8)
    requires AssignToClub(s, true, user, clubNumber).result == Ok
    ensures var s1 := AssignToClub(s, true, user, clubNumber).post;
            var r2 := RemoveFromClub(s1, true, user, clubNumber);
            && r2.result == Ok
            && r2.post.totalClubs == s.totalClubs
            && r2.post.clubs == s.clubs
            && r2.post.users == s.users[user := MaskOf(s.users, user)]
            && r2.post.events == s.events + [UserAddedTo(user, NumberToId(clubNumber)),
                                             UserRemovedFrom(user, NumberToId(clubNumber))]
  {
    AssignToClubEffect(s, true, user, clubNumber);
    var s1 := AssignToClub(s, true, user, clubNumber).post;
    var m := MaskOf(s.users, user);
    var x := NumberToId(clubNumber);
    GrantBit(m, clubNumber, clubNumber);
    RemoveFromClubOutcome(s1, true, user, clubNumber);
    RemoveFromClubEffect(s1, true, user, clubNumber);
    ClearAfterSet(m, clubNumber);
    UpdateTwice(s.users, user, BitOr(m, x), BitAnd(BitOr(m, x), BitNot(x)));
  }

  /** Revoking and then granting the same club succeeds and restores every
      mask exactly. */
  lemma RemoveThenAssignRestores<A>(s: PalletState<A>, user: A, clubNumber: U8)
    requires RemoveFromClub(s, true, user, clubNumber).result == Ok
    ensures var s1 := RemoveFromClub(s, true, user, clubNumber).post;
            var r2 := AssignToClub(s1, true, user, clubNumber);
            && r2.result == Ok
            && r2.post.totalClubs == s.totalClubs
            && r2.post.clubs == s.clubs
            && r2.post.users == s.users
            && r2.post.events == s.events + [UserRemovedFrom(user, NumberToId(clubNumber)),
                                             UserAddedTo(user, NumberToId(clubNumber))]
  {
    RemoveFromClubEffect(s, true, user, clubNumber);
    var s1 := RemoveFromClub(s, true, user, clubNumber).post;
    var m := MaskOf(s.users, user);
    var x := NumberToId(clubNumber);
    NoBitOfZero(clubNumber);
    assert user in s.users;
    RevokeBit(m, clubNumber, clubNumber);
    AssignToClubOutcome(s1, true, user, clubNumber);
    AssignToClubEffect(s1, true, user, clubNumber);
    SetAfterClear(m, clubNumber);
    UpdateTwice(s.users, user, BitAnd(m, BitNot(x)), BitOr(BitAnd(m, BitNot(x)), x));
    UpdateSame(s.users, user);
  }

  /** A second grant of the same club is rejected and changes nothing. */
  lemma AssignTwiceRejected<A>(s: PalletState<A>, user: A, clubNumber: U8)
    requires AssignToClub(s, true, user, clubNumber).result == Ok
    ensures var s1 := AssignToClub(s, true, user, clubNumber).post;
            AssignToClub(s1, true, user, clubNumber) == Step(Err(ClubAlreadySet), s1)
  {
    AssignToClubEffect(s, true, user, clubNumber);
    AssignToClubSetsOneBit(s, user, clubNumber, clubNumber);
    AssignToClubOutcome(AssignToClub(s, true, user, clubNumber).post, true, user, clubNumber);
  }

  /** A second revoke of the same club is rejected and changes nothing. */
  lemma RemoveTwiceRejected<A>(s: PalletState<A>, user: A, clubNumber: U8)
    requires RemoveFromClub(s, true, user, clubNumber).result == Ok
    ensures var s1 := RemoveFromClub(s, true, user, clubNumber).post;
            RemoveFromClub(s1, true, user, clubNumber) == Step(Err(ClubAlreadySet), s1)
  {
    RemoveFromClubEffect(s, true, user, clubNumber);
    RemoveFromClubClearsOneBit(s, user, clubNumber, clubNumber);
    RemoveFromClubOutcome(RemoveFromClub(s, true, user, clubNumber).post, true, user, clubNumber);
  }

  /** Grants of two different clubs to one account succeed in either order
      and leave the same memberships. */
  lemma AssignsCommute<A>(s: PalletState<A>, user: A, m: U8, n: U8)
    requires m != n
    requires AssignToClub(s, true, user, m).result == Ok
    requires AssignToClub(s, true, user, n).result == Ok
    ensures var mn := AssignToClub(AssignToClub(s, true, user, m).post, true, user, n);
            var nm := AssignToClub(AssignToClub(s, true, user, n).post, true, user, m);
            && mn.result == Ok && nm.result == Ok
            && mn.post.users == nm.post.users
  {
    var sm := AssignToClub(s, true, user, m).post;
    var sn := AssignToClub(s, true, user, n).post;
    var mask := MaskOf(s.users, user);
    AssignToClubEffect(s, true, user, m);
    AssignToClubEffect(s, true, user, n);
    AssignToClubSetsOneBit(s, user, m, n);
    AssignToClubSetsOneBit(s, user, n, m);
    AssignToClubOutcome(sm, true, user, n);
    AssignToClubOutcome(sn, true, user, m);
    AssignToClubEffect(sm, true, user, n);
    AssignToClubEffect(sn, true, user, m);
    GrantsCommute(mask, m, n);
    UpdateTwice(s.users, user, BitOr(mask, NumberToId(m)), BitOr(BitOr(mask, NumberToId(m)), NumberToId(n)));
    UpdateTwice(s.users, user, BitOr(mask, NumberToId(n)), BitOr(BitOr(mask, NumberToId(n)), NumberToId(m)));
  }

  // ---------------------------------------------------------------------
  // Club numbers that cannot be used

  /** A club number with no registered club is rejected by both membership
      calls, in every valid state. */
  lemma UnregisteredClubRejected<A>(s: PalletState<A>, user: A, clubNumber: U8)
    requires Valid(s) && s.totalClubs <= clubNumber < 32
    ensures AssignToClub(s, true, user, clubNumber) == Step(Err(InvalidClub), s)
    ensures RemoveFromClub(s, true, user, clubNumber) == Step(Err(InvalidClub), s)
  {
    ClubIdsBelowMembers(s.totalClubs, clubNumber);
  }

  /** In a valid state, root can grant any registered club the user does
      not hold yet: the call succeeds, sets that bit and keeps the
      invariant. */
  lemma AssignToRegisteredSucceeds<A>(s: PalletState<A>, user: A, clubNumber: U8)
    requires Valid(s) && clubNumber < s.totalClubs
    requires !HasBit(MaskOf(s.users, user), clubNumber)
    ensures var r := AssignToClub(s, true, user, clubNumber);
            && r.result == Ok
            && Valid(r.post)
            && r.post.totalClubs == s.totalClubs
            && MaskOf(r.post.users, user) == BitOr(MaskOf(s.users, user), NumberToId(clubNumber))
  {
    ClubIdsBelowMembers(s.totalClubs, clubNumber);
    AssignToClubOutcome(s, true, user, clubNumber);
    AssignToClubEffect(s, true, user, clubNumber);
    AssignToClubPreservesValid(s, true, user, clubNumber);
  }

  /** In a valid state, root can revoke any club the user holds: the call
      succeeds, clears that bit and keeps the invariant. */
  lemma RemoveHeldSucceeds<A>(s: PalletState<A>, user: A, clubNumber: U8)
    requires Valid(s) && clubNumber < 32
    requires HasBit(MaskOf(s.users, user), clubNumber)
    ensures var r := RemoveFromClub(s, true, user, clubNumber);
            && r.result == Ok
            && Valid(r.post)
            && r.post.totalClubs == s.totalClubs
            && MaskOf(r.post.users, user) == BitAnd(MaskOf(s.users, user), BitNot(NumberToId(clubNumber)))
  {
    MembershipImpliesRegistered(s, user, clubNumber);
    RemoveFromClubOutcome(s, true, user, clubNumber);
    RemoveFromClubEffect(s, true, user, clubNumber);
    RemoveFromClubPreservesValid(s, true, user, clubNumber);
  }

  /** Once 32 clubs exist, every further `add_club` is rejected with
      `IndexOutOfBounds` and changes nothing. */
  lemma AddClubAtCeiling<A>(s: PalletState<A>, isRoot: bool, identifier: U8)
    requires s.totalClubs >= 32
    ensures isRoot ==> AddClub(s, isRoot, identifier) == Step(Err(IndexOutOfBounds), s)
  {
  }

  // ---------------------------------------------------------------------
  // Registering clubs one after another

  /** `add_club` called as root once per tag, stopping at the first
      failure. */
  function AddClubs<A(==)>(s: PalletState<A>, tags: seq<U8>): Step<A>
    decreases |tags|
  {
    if tags == [] then Step(Ok, s)
    else if AddClub(s, true, tags[0]).result.Err? then AddClub(s, true, tags[0])
    else AddClubs(AddClub(s, true, tags[0]).post, tags[1..])
  }

  /** The events `NewClub(2^t)`, ..., `NewClub(2^(t + n - 1))`. */
  function NewClubEvents<A>(t: U8, n: nat): seq<Event<A>>
    requires t + n <= 32
    decreases n
  {
    if n == 0 then [] else [NewClub(NumberToId(t))] + NewClubEvents(t + 1, n - 1)
  }

  /** From a valid state with room for one club per tag, root registers
      them all: clubs `t .. t + |tags| - 1` in that order, one `NewClub`
      each, no mask changed, and the invariant kept. */
  lemma {:induction false} AddClubsInOrder<A>(s: PalletState<A>, tags: seq<U8>)
    requires Valid(s) && s.totalClubs + |tags| <= 32
    ensures var r := AddClubs(s, tags);
            && r.result == Ok
            && Valid(r.post)
            && r.post.totalClubs == s.totalClubs + |tags|
            && r.post.users == s.users
            && r.post.events == s.events + NewClubEvents(s.totalClubs, |tags|)
    decreases |tags|
  {
    if tags != [] {
      AddClubNeverInvalidClub(s, true, tags[0]);
      AddClubPreservesValid(s, true, tags[0]);
      AddClubEffect(s, true, tags[0]);
      var s1 := AddClub(s, true, tags[0]).post;
      assert AddClubs(s, tags) == AddClubs(s1, tags[1..]);
      AddClubsInOrder(s1, tags[1..]);
      assert NewClubEvents<A>(s.totalClubs, |tags|)
          == [NewClub(NumberToId(s.totalClubs))] + NewClubEvents(s1.totalClubs, |tags[1..]|);
      assert s.events + NewClubEvents(s.totalClubs, |tags|)
          == s1.events + NewClubEvents(s1.totalClubs, |tags[1..]|);
    }
  }
}
