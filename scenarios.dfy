/** The behaviours the pallet's unit tests check (tests.rs), stated about
    the value-level calls from the genesis state, plus the same
    multiple-clubs run through the `Pallet` object. */
module ClubsScenarios {
  import opened ClubIds
  import opened Clubs
  import opened ClubsPallet

  /** Three clubs can be created from genesis. */
  lemma SetsClubs<A>()
    ensures var r := AddClubs(Genesis<A>(), [1, 1, 1]);
            r.result == Ok && r.post.totalClubs == 3
  {
    AddClubsInOrder(Genesis<A>(), [1, 1, 1]);
  }

  /** After one club is created, granting club 0 leaves the user's mask
      equal to the club's identifier 1; revoking it leaves the mask 0. */
  lemma AssignsAndRemoves<A>(user: A)
    ensures var s1 := AddClub(Genesis<A>(), true, 1).post;
            var r2 := AssignToClub(s1, true, user, 0);
            var r3 := RemoveFromClub(r2.post, true, user, 0);
            && r2.result == Ok
            && MaskOf(r2.post.users, user) == NumberToId(0) == 1
            && r3.result == Ok
            && MaskOf(r3.post.users, user) == 0
  {
    var s1 := AddClub(Genesis<A>(), true, 1).post;
    AddClubNeverInvalidClub(Genesis<A>(), true, 1);
    AddClubEffect(Genesis<A>(), true, 1);
    AssignToClubOutcome(s1, true, user, 0);
    NoBitOfZero(0);
    AssignToClubEffect(s1, true, user, 0);
    var s2 := AssignToClub(s1, true, user, 0).post;
    assert MaskOf(s2.users, user) == 1;
    RemoveFromClubOutcome(s2, true, user, 0);
    RemoveFromClubEffect(s2, true, user, 0);
    assert BitAnd(1, BitNot(1)) == 0;
  }

  /** From any valid state with at least four clubs, granting clubs 0 and
      3 to a user with no membership gives the mask 0b1001, and revoking
      club 3 then leaves 1. */
  lemma GrantTwoRevokeOne<A>(s: PalletState<A>, user: A)
    requires Valid(s) && 4 <= s.totalClubs && MaskOf(s.users, user) == 0
    ensures var r1 := AssignToClub(s, true, user, 0);
            var r2 := AssignToClub(r1.post, true, user, 3);
            var r3 := RemoveFromClub(r2.post, true, user, 3);
            && r1.result == Ok && r2.result == Ok && r3.result == Ok
            && MaskOf(r2.post.users, user) == 9
            && MaskOf(r3.post.users, user) == 1
  {
    NoBitOfZero(0);
    AssignToRegisteredSucceeds(s, user, 0);
    var s1 := AssignToClub(s, true, user, 0).post;
    assert MaskOf(s1.users, user) == 1;
    assert !HasBit(1, 3);
    AssignToRegisteredSucceeds(s1, user, 3);
    var s2 := AssignToClub(s1, true, user, 3).post;
    assert NumberToId(3) == 8;
    assert BitOr(1, 8) == 9;
    assert HasBit(9, 3);
    RemoveHeldSucceeds(s2, user, 3);
    assert BitAnd(9, BitNot(8)) == 1;
  }

  /** The multiple-clubs test: clubs tagged 1 to 4 from genesis, then the
      grants and the revoke above. */
  lemma MultipleClubs<A>(user: A)
    ensures var s := AddClubs(Genesis<A>(), [1, 2, 3, 4]).post;
            var r1 := AssignToClub(s, true, user, 0);
            var r2 := AssignToClub(r1.post, true, user, 3);
            var r3 := RemoveFromClub(r2.post, true, user, 3);
            && r1.result == Ok && r2.result == Ok && r3.result == Ok
            && MaskOf(r2.post.users, user) == 9
            && MaskOf(r3.post.users, user) == 1
  {
    AddClubsInOrder(Genesis<A>(), [1, 2, 3, 4]);
    GrantTwoRevokeOne(AddClubs(Genesis<A>(), [1, 2, 3, 4]).post, user);
  }

  /** A non-root origin gets `BadOrigin` from every call, and nothing
      changes. */
  lemma UnrootedRejected<A>(s: PalletState<A>, user: A)
    ensures AddClub(s, false, 1) == Step(Err(BadOrigin), s)
    ensures AssignToClub(s, false, user, 1) == Step(Err(BadOrigin), s)
    ensures RemoveFromClub(s, false, user, 1) == Step(Err(BadOrigin), s)
  {
  }

  /** Granting club 0 twice: the second grant fails with `ClubAlreadySet`
      and changes nothing. */
  lemma AssignTwice<A>(user: A)
    ensures var s1 := AddClub(Genesis<A>(), true, 1).post;
            var r2 := AssignToClub(s1, true, user, 0);
            && r2.result == Ok
            && AssignToClub(r2.post, true, user, 0) == Step(Err(ClubAlreadySet), r2.post)
  {
    var s1 := AddClub(Genesis<A>(), true, 1).post;
    AddClubNeverInvalidClub(Genesis<A>(), true, 1);
    AddClubEffect(Genesis<A>(), true, 1);
    NoBitOfZero(0);
    AssignToClubOutcome(s1, true, user, 0);
    AssignTwiceRejected(s1, user, 0);
  }

  /** Club 10 does not exist at genesis. */
  lemma AssignNonexistentClub<A>(user: A)
    ensures AssignToClub(Genesis<A>(), true, user, 10) == Step(Err(InvalidClub), Genesis<A>())
  {
    UnregisteredClubRejected(Genesis<A>(), user, 10);
  }

  /** Club number 40 is past the ceiling. */
  lemma AssignOverflowedClub<A>(user: A)
    ensures AssignToClub(Genesis<A>(), true, user, 40) == Step(Err(IndexOutOfBounds), Genesis<A>())
  {
  }

  /** The multiple-clubs test on a fresh `Pallet` object: four clubs
      created in a loop, grants of clubs 0 and 3, then a revoke of club 3. */
  method MultipleClubsOnPallet<A(==)>(user: A) returns (afterGrants: Mask, afterRevoke: Mask)
    ensures afterGrants == 9 && afterRevoke == 1
  {
    var p := new Pallet<A>();
    var tag: U8 := 1;
    while tag < 5
      invariant 1 <= tag <= 5
      invariant p.Valid() && p.totalClubs == tag - 1 && p.users == map[]
    {
      AddClubNeverInvalidClub(p.State(), true, tag);
      AddClubEffect(p.State(), true, tag);
      var r := p.AddClub(true, tag);
      tag := tag + 1;
    }
    GrantTwoRevokeOne(p.State(), user);
    var r1 := p.AssignToClub(true, user, 0);
    var r2 := p.AssignToClub(true, user, 3);
    afterGrants := MaskOf(p.users, user);
    var r3 := p.RemoveFromClub(true, user, 3);
    afterRevoke := MaskOf(p.users, user);
  }
}
