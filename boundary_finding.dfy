/** The club-number ceiling as the source writes it.

    All three calls guard with `<= 32` (lib.rs:93, 109, 125), which lets
    club number 32 through to `number_to_id`, where `2_u32.pow(32)`
    overflows (lib.rs:140).  A debug build panics there.  A release build
    wraps the power to 0, and 0 then acts as a club identifier that has no
    bit: it can be registered once, granted any number of times without
    changing a mask, and never revoked.  The members below model that
    release behaviour and set it against the strict ceiling that module
    `Clubs` uses. */
module BoundaryFinding {
  import opened ClubIds
  import opened Clubs

  /** `2_u32.pow(n)` with wrapping `u32` multiplication, as a release
      build computes it. */
  function WrappingPow2(n: U8): U32
    decreases n
  {
    if n == 0 then 1 else (2 * WrappingPow2(n - 1)) % 0x1_0000_0000
  }

  /** Below 32 the wrapping power is the club identifier; from 32 on it is
      0. */
  lemma {:induction false} WrappingPow2Value(n: U8)
    ensures n < 32 ==> WrappingPow2(n) == NumberToId(n)
    ensures n >= 32 ==> WrappingPow2(n) == 0
    decreases n
  {
    if n == 0 {
    } else if n < 32 {
      WrappingPow2Value(n - 1);
      Pow2Of32();
      Pow2Monotone(n, 32);
      assert 2 * WrappingPow2(n - 1) == Pow2(n) < 0x1_0000_0000;
    } else if n == 32 {
      WrappingPow2Value(31);
      Pow2Of32();
      assert 2 * WrappingPow2(31) == 0x1_0000_0000;
    } else {
      WrappingPow2Value(n - 1);
      assert 2 * WrappingPow2(n - 1) == 0;
    }
  }

  /** `add_club` with the source's `<= 32` guard and a release build's
      `number_to_id`. */
  function AddClubAsWritten<A(==)>(s: PalletState<A>, isRoot: bool, identifier: U8): (r: Step<A>)
    ensures r.result.Err? ==> r.post == s
  {
    if !isRoot then Step(Err(BadOrigin), s)
    else if s.totalClubs > 32 then Step(Err(IndexOutOfBounds), s)
    else if WrappingPow2(s.totalClubs) in s.clubs then Step(Err(InvalidClub), s)
    else Step(Ok, PalletState(s.totalClubs + 1,
                              s.clubs[WrappingPow2(s.totalClubs) := identifier],
                              s.users,
                              s.events + [NewClub(WrappingPow2(s.totalClubs))]))
  }

  /** `assign_to_club` with the source's `<= 32` guard and a release
      build's `number_to_id`. */
  function AssignToClubAsWritten<A(==)>(s: PalletState<A>, isRoot: bool, user: A, clubNumber: U8): (r: Step<A>)
    ensures r.result.Err? ==> r.post == s
  {
    if !isRoot then Step(Err(BadOrigin), s)
    else if clubNumber > 32 then Step(Err(IndexOutOfBounds), s)
    else if WrappingPow2(clubNumber) !in s.clubs then Step(Err(InvalidClub), s)
    else if BitAnd(MaskOf(s.users, user), WrappingPow2(clubNumber)) != 0 then Step(Err(ClubAlreadySet), s)
    else Step(Ok, PalletState(s.totalClubs, s.clubs,
                              s.users[user := BitOr(MaskOf(s.users, user), WrappingPow2(clubNumber))],
                              s.events + [UserAddedTo(user, WrappingPow2(clubNumber))]))
  }

  /** `remove_from_club` with the source's `<= 32` guard and a release
      build's `number_to_id`. */
  function RemoveFromClubAsWritten<A(==)>(s: PalletState<A>, isRoot: bool, user: A, clubNumber: U8): (r: Step<A>)
    ensures r.result.Err? ==> r.post == s
  {
    if !isRoot then Step(Err(BadOrigin), s)
    else if clubNumber > 32 then Step(Err(IndexOutOfBounds), s)
    else if WrappingPow2(clubNumber) !in s.clubs then Step(Err(InvalidClub), s)
    else if BitAnd(MaskOf(s.users, user), WrappingPow2(clubNumber)) == 0 then Step(Err(ClubAlreadySet), s)
    else Step(Ok, PalletState(s.totalClubs, s.clubs,
                              s.users[user := BitAnd(MaskOf(s.users, user), BitNot(WrappingPow2(clubNumber)))],
                              s.events + [UserRemovedFrom(user, WrappingPow2(clubNumber))]))
  }

  /** Away from 32 the source's calls and the corrected ones agree
      exactly. */
  lemma AsWrittenAgreesAwayFrom32<A>(s: PalletState<A>, isRoot: bool, user: A, n: U8)
    ensures s.totalClubs != 32 ==> AddClubAsWritten(s, isRoot, n) == AddClub(s, isRoot, n)
    ensures n != 32 ==> AssignToClubAsWritten(s, isRoot, user, n) == AssignToClub(s, isRoot, user, n)
    ensures n != 32 ==> RemoveFromClubAsWritten(s, isRoot, user, n) == RemoveFromClub(s, isRoot, user, n)
  {
    WrappingPow2Value(s.totalClubs);
    WrappingPow2Value(n);
  }

  /** With all 32 clubs created, the source's `add_club` (release build)
      succeeds once more: it registers the identifier 0, which is no
      club's bit, moves the counter to 33 and breaks the invariant.  The
      corrected call refuses with `IndexOutOfBounds`. */
  lemma AddClubAsWrittenAtCeiling<A>(s: PalletState<A>, identifier: U8)
    requires Valid(s) && s.totalClubs == 32
    ensures var r := AddClubAsWritten(s, true, identifier);
            && r.result == Ok
            && r.post.totalClubs == 33
            && 0 in r.post.clubs
            && !Valid(r.post)
    ensures AddClub(s, true, identifier) == Step(Err(IndexOutOfBounds), s)
  {
    WrappingPow2Value(32);
    if 0 in s.clubs {
      ClubIdsBelowArePowers(32, 0);
      var k: U8 :| k < 32 && 0 == NumberToId(k);
      Pow2Positive(k);
    }
  }

  /** Once the identifier 0 is registered, the source's `assign_to_club`
      with club number 32 succeeds without giving `user` any membership,
      and a second identical call succeeds again instead of reporting
      `ClubAlreadySet`.  The corrected call refuses with
      `IndexOutOfBounds`. */
  lemma AssignAsWrittenAt32<A>(s: PalletState<A>, user: A)
    requires 0 in s.clubs
    ensures var r1 := AssignToClubAsWritten(s, true, user, 32);
            var r2 := AssignToClubAsWritten(r1.post, true, user, 32);
            && r1.result == Ok
            && MaskOf(r1.post.users, user) == MaskOf(s.users, user)
            && r2.result == Ok
    ensures AssignToClub(s, true, user, 32) == Step(Err(IndexOutOfBounds), s)
  {
    WrappingPow2Value(32);
    var m := MaskOf(s.users, user);
    assert BitAnd(m, 0) == 0;
    assert BitOr(m, 0) == m;
  }

  /** The source's `remove_from_club` with club number 32 never succeeds:
      the call refuses with `ClubAlreadySet` or `InvalidClub`, not with
      `IndexOutOfBounds` like the corrected call. */
  lemma RemoveAsWrittenAt32<A>(s: PalletState<A>, user: A)
    ensures RemoveFromClubAsWritten(s, true, user, 32).result
            == (if 0 in s.clubs then Err(ClubAlreadySet) else Err(InvalidClub))
    ensures RemoveFromClub(s, true, user, 32) == Step(Err(IndexOutOfBounds), s)
  {
    WrappingPow2Value(32);
    assert BitAnd(MaskOf(s.users, user), 0) == 0;
  }
}
