/** The clubs pallet as a mutable object: one field per storage item and
    the event log, and one method per dispatchable call.  Each method
    updates the fields in the order the source writes storage and is
    proved to end in the state, and with the result, that the value-level
    function of the same name in module `Clubs` gives. */
module ClubsPallet {
  import opened ClubIds
  import opened Clubs

  class Pallet<A(==)> {
    /** `TotalClubs`: how many clubs have been created. */
    var totalClubs: U8
    /** `Clubs`: identifier to tag, for every created club. */
    var clubs: map<ClubId, U8>
    /** `Users`: account to membership mask; a missing entry reads as 0. */
    var users: map<A, Mask>
    /** The events deposited so far, oldest first. */
    var events: seq<Event<A>>

    /** The storage as a value. */
    function State(): PalletState<A>
      reads this
    {
      PalletState(totalClubs, clubs, users, events)
    }

    ghost predicate Valid()
      reads this
    {
      Clubs.Valid(State())
    }

    /** Genesis: every storage item at its default. */
    constructor ()
      ensures State() == Genesis()
      ensures Valid()
    {
      totalClubs := 0;
      clubs := map[];
      users := map[];
      events := [];
    }

    /** `add_club` (lib.rs:90-103).  The ceiling check is strict where the
        source writes `<= 32`; see `BoundaryFinding`. */
    method AddClub(isRoot: bool, identifier: U8) returns (r: DispatchResult)
      modifies this
      ensures Step(r, State()) == Clubs.AddClub(old(State()), isRoot, identifier)
      ensures r.Err? ==> unchanged(this)
      ensures old(Valid()) ==> Valid()
    {
      if Valid() {
        AddClubPreservesValid(State(), isRoot, identifier);
      }
      if !isRoot {
        return Err(BadOrigin);
      }
      var clubsTotal := totalClubs;
      if clubsTotal >= 32 {
        return Err(IndexOutOfBounds);
      }
      var clubId := NumberToId(clubsTotal);
      if clubId in clubs {
        return Err(InvalidClub);
      }
      clubs := clubs[clubId := identifier];
      totalClubs := clubsTotal + 1;
      events := events + [NewClub(clubId)];
      return Ok;
    }

    /** `assign_to_club` (lib.rs:107-119).  The ceiling check is strict
        where the source writes `<= 32`; see `BoundaryFinding`. */
    method AssignToClub(isRoot: bool, user: A, clubNumber: U8) returns (r: DispatchResult)
      modifies this
      ensures Step(r, State()) == Clubs.AssignToClub(old(State()), isRoot, user, clubNumber)
      ensures r.Err? ==> unchanged(this)
      ensures old(Valid()) ==> Valid()
    {
      if Valid() {
        AssignToClubPreservesValid(State(), isRoot, user, clubNumber);
      }
      if !isRoot {
        return Err(BadOrigin);
      }
      if clubNumber >= 32 {
        return Err(IndexOutOfBounds);
      }
      var clubId := NumberToId(clubNumber);
      if clubId !in clubs {
        return Err(InvalidClub);
      }
      var userInfo := MaskOf(users, user);
      if BitAnd(userInfo, clubId) != 0 {
        return Err(ClubAlreadySet);
      }
      users := users[user := BitOr(userInfo, clubId)];
      events := events + [UserAddedTo(user, clubId)];
      return Ok;
    }

    /** `remove_from_club` (lib.rs:123-135).  The ceiling check is strict
        where the source writes `<= 32`; see `BoundaryFinding`. */
    method RemoveFromClub(isRoot: bool, user: A, clubNumber: U8) returns (r: DispatchResult)
      modifies this
      ensures Step(r, State()) == Clubs.RemoveFromClub(old(State()), isRoot, user, clubNumber)
      ensures r.Err? ==> unchanged(this)
      ensures old(Valid()) ==> Valid()
    {
      if Valid() {
        RemoveFromClubPreservesValid(State(), isRoot, user, clubNumber);
      }
      if !isRoot {
        return Err(BadOrigin);
      }
      if clubNumber >= 32 {
        return Err(IndexOutOfBounds);
      }
      var clubId := NumberToId(clubNumber);
      if clubId !in clubs {
        return Err(InvalidClub);
      }
      var userInfo := MaskOf(users, user);
      if BitAnd(userInfo, clubId) == 0 {
        return Err(ClubAlreadySet);
      }
      users := users[user := BitAnd(userInfo, BitNot(clubId))];
      events := events + [UserRemovedFrom(user, clubId)];
      return Ok;
    }
  }
}
