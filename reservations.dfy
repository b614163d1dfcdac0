/** The reservation handlers: list, check-in (allocate the first free
    space) and check-out (release it), with the HH:MM:SS time stamp. The
    wall clock is not modelled: the hours, minutes and seconds are inputs. */
module Reservations {
  import opened Db
  import Spaces

  // ---------------------------------------------------------------------
  // Time stamps: `addZero` and the string `getCurrentTime` builds.

  /** The character of a decimal digit. */
  function DigitChar(d: nat): char
    requires d < 10
  {
    (48 + d) as char
  }

  predicate IsDigit(c: char)
  {
    '0' <= c <= '9'
  }

  predicate AllDigits(s: string)
  {
    forall i :: 0 <= i < |s| ==> IsDigit(s[i])
  }

  /** The decimal text JavaScript gives a clock reading. */
  function Decimal(n: nat): (r: string)
    ensures |r| >= 1 && AllDigits(r)
    ensures n < 10 <==> |r| == 1
  {
    if n < 10 then [DigitChar(n)] else Decimal(n / 10) + [DigitChar(n % 10)]
  }

  /** The number a string of decimal digits denotes (leading zeros allowed). */
  function DecimalValue(s: string): nat
    requires AllDigits(s)
  {
    if s == [] then 0
    else DecimalValue(s[..|s| - 1]) * 10 + ((s[|s| - 1] as int) - 48)
  }

  /** `addZero`: a value below 10 gets a "0" in front; any other value is
      left as it is and turned into its decimal text by the concatenation. */
  function AddZero(i: nat): string
  {
    if i < 10 then "0" + Decimal(i) else Decimal(i)
  }

  /** `getCurrentTime` with the clock's readings passed in. */
  function FormatTime(hours: nat, minutes: nat, seconds: nat): string
  {
    AddZero(hours) + ":" + AddZero(minutes) + ":" + AddZero(seconds)
  }

  /** Reading the decimal text back gives the number. */
  lemma {:induction false} DecimalRoundTrip(n: nat)
    ensures DecimalValue(Decimal(n)) == n
  {
    if n >= 10 {
      var s := Decimal(n);
      assert s[..|s| - 1] == Decimal(n / 10);
      DecimalRoundTrip(n / 10);
    }
  }

  /** The decimal text of a number of two digits or more does not start with "0". */
  lemma {:induction false} DecimalNoLeadingZero(n: nat)
    requires n >= 10
    ensures Decimal(n)[0] != '0'
  {
    if n >= 100 {
      DecimalNoLeadingZero(n / 10);
    }
  }

  /** `addZero` puts a "0" in front exactly when the value is below 10;
      below 100 its text is always two digits; and it denotes the value. */
  lemma AddZeroPads(i: nat)
    ensures AllDigits(AddZero(i))
    ensures AddZero(i)[0] == '0' <==> i < 10
    ensures i < 100 ==> |AddZero(i)| == 2
    ensures DecimalValue(AddZero(i)) == i
  {
    DecimalRoundTrip(i);
    if i >= 10 {
      DecimalNoLeadingZero(i);
    }
    if i >= 10 && i < 100 {
      assert Decimal(i / 10) == [DigitChar(i / 10)];
    }
  }

  /** For a clock reading (h < 24, m < 60, s < 60) the time stamp is the
      8 characters HH:MM:SS, and each field reads back as its value. */
  lemma FormatTimeShape(hours: nat, minutes: nat, seconds: nat)
    requires hours < 24 && minutes < 60 && seconds < 60
    ensures var t := FormatTime(hours, minutes, seconds);
      |t| == 8 && t[2] == ':' && t[5] == ':'
      && AllDigits(t[0..2]) && AllDigits(t[3..5]) && AllDigits(t[6..8])
      && DecimalValue(t[0..2]) == hours
      && DecimalValue(t[3..5]) == minutes
      && DecimalValue(t[6..8]) == seconds
  {
    AddZeroPads(hours);
    AddZeroPads(minutes);
    AddZeroPads(seconds);
    var t := FormatTime(hours, minutes, seconds);
    assert t[0..2] == AddZero(hours);
    assert t[3..5] == AddZero(minutes);
    assert t[6..8] == AddZero(seconds);
  }

  // ---------------------------------------------------------------------
  // Handlers.

  /** A license is present and at least 6 long, in UTF-16 code units. */
  predicate ValidLicense(license: Option<string>)
  {
    license.Some? && Utf16Length(license.value) >= 6
  }

  /** GET /: every active reservation, in insertion order. */
  method List(db: AppDb) returns (r: seq<Reservation>)
    ensures r == db.reservations
  {
    r := db.reservations;
  }

  /** POST /: validate the license, then scan the spaces in list order;
      the first "free" one is set to "in-use" and a reservation for it is
      appended. The scan keeps the chosen space's id in `freespace`, with 0
      meaning "none", so a free space whose id is 0 would be taken without a
      reservation being made. The new id is the stored counter + 1; the
      counter is never advanced. */
  method CheckIn(db: AppDb, license: Option<string>, hours: nat, minutes: nat, seconds: nat)
    returns (r: Outcome<Reservation>)
    modifies db`spaces, db`reservations
    ensures !ValidLicense(license) ==>
              r == ValidationError && db.spaces == old(db.spaces) && db.reservations == old(db.reservations)
    ensures ValidLicense(license) ==> match FirstFree(old(db.spaces))
      case None =>
        r == NoSpace && db.spaces == old(db.spaces) && db.reservations == old(db.reservations)
      case Some(f) =>
        db.spaces == SetState(old(db.spaces), f, StateInUse)
        && if old(db.spaces)[f].id != 0 then
             r == Ok(Reservation(db.reservationsLength + 1, license.value,
                                 FormatTime(hours, minutes, seconds), old(db.spaces)[f].id))
             && db.reservations == old(db.reservations) + [r.value]
           else
             r == NoSpace && db.reservations == old(db.reservations)
    ensures ValidLicense(license) && old(PositiveSpaceIds(db.spaces)) ==>
              (r.NoSpace? <==> old(CountFree(db.spaces)) == 0)
    ensures r.Ok? ==> CountFree(db.spaces) == old(CountFree(db.spaces)) - 1
    ensures old(DistinctSpaceIds(db.spaces)) ==> DistinctSpaceIds(db.spaces)
    ensures old(DistinctSpaceIds(db.spaces)) && old(Consistent(db.spaces, db.reservations)) ==>
              Consistent(db.spaces, db.reservations)
  {
    if !ValidLicense(license) {
      return ValidationError;
    }
    var currentTime := FormatTime(hours, minutes, seconds);
    var reservationId := db.reservationsLength + 1;
    ghost var first := FirstFree(db.spaces);
    var freespace := 0;
    var flag := false;
    var i := 0;
    while i < |db.spaces|
      invariant 0 <= i <= |db.spaces| == |old(db.spaces)|
      invariant flag == (first.Some? && first.value < i)
      invariant db.spaces == if flag then SetState(old(db.spaces), first.value, StateInUse) else old(db.spaces)
      invariant freespace == if flag then old(db.spaces)[first.value].id else 0
      invariant db.reservations == old(db.reservations)
    {
      if db.spaces[i].state == StateFree && !flag {
        freespace := db.spaces[i].id;
        db.spaces := db.spaces[i := db.spaces[i].(state := StateInUse)];
        flag := true;
      }
      i := i + 1;
    }
    if freespace != 0 {
      var reservation := Reservation(reservationId, license.value, currentTime, freespace);
      db.reservations := db.reservations + [reservation];
      r := Ok(reservation);
    } else {
      r := NoSpace;
    }
    FirstFreeIffCountFree(old(db.spaces));
    if first.Some? {
      CountFreeAfterSetState(old(db.spaces), first.value, StateInUse);
      SetStateKeepsIds(old(db.spaces), first.value, StateInUse);
      if old(ReservationsHoldInUseSpaces(db.spaces, db.reservations)) {
        MarkInUseKeepsHeld(old(db.spaces), old(db.reservations), first.value);
      }
      if old(DistinctSpaceIds(db.spaces)) && old(Consistent(db.spaces, db.reservations)) && r.Ok? {
        CheckInKeepsConsistent(old(db.spaces), old(db.reservations), r.value);
      }
    }
  }

  /** DELETE /:id: remove the first reservation with that id and set the
      first space with its spaceId back to "free". An unknown reservation,
      or one whose space is gone, is NotFound and changes nothing. */
  method CheckOut(db: AppDb, id: int) returns (r: Outcome<Reservation>)
    modifies db`spaces, db`reservations
    ensures match ReservationIndex(old(db.reservations), id)
      case None =>
        r == NotFound && db.spaces == old(db.spaces) && db.reservations == old(db.reservations)
      case Some(k) =>
        match SpaceIndex(old(db.spaces), old(db.reservations)[k].spaceId)
        case None =>
          r == NotFound && db.spaces == old(db.spaces) && db.reservations == old(db.reservations)
        case Some(j) =>
          r == Ok(old(db.reservations)[k])
          && db.reservations == RemoveAt(old(db.reservations), k)
          && db.spaces == SetState(old(db.spaces), j, StateFree)
    ensures old(DistinctSpaceIds(db.spaces)) ==> DistinctSpaceIds(db.spaces)
    ensures old(Consistent(db.spaces, db.reservations)) ==> Consistent(db.spaces, db.reservations)
  {
    var found := ReservationIndex(db.reservations, id);
    if found.None? {
      return NotFound;
    }
    var k := found.value;
    var reservation := db.reservations[k];
    var space := SpaceIndex(db.spaces, reservation.spaceId);
    if space.None? {
      return NotFound;
    }
    var j := space.value;
    db.reservations := db.reservations[..k] + db.reservations[k + 1..];
    db.spaces := db.spaces[j := db.spaces[j].(state := StateFree)];
    r := Ok(reservation);
    SetStateKeepsIds(old(db.spaces), j, StateFree);
    if old(Consistent(db.spaces, db.reservations)) {
      CheckOutKeepsConsistent(old(db.spaces), old(db.reservations), k);
    }
  }

  /** The check-out handler as written: the reservation is spliced out
      before its space is looked at, so when the space is gone the
      `space.state` assignment throws with the reservation already removed. */
  function CheckOutAsWritten(spaces: seq<Space>, rs: seq<Reservation>, id: int): Handled<Reservation>
  {
    match ReservationIndex(rs, id)
    case None => Returned(NotFound, spaces, rs)
    case Some(k) =>
      match SpaceIndex(spaces, rs[k].spaceId)
      case None => TypeError(spaces, RemoveAt(rs, k))
      case Some(j) => Returned(Ok(rs[k]), SetState(spaces, j, StateFree), RemoveAt(rs, k))
  }

  /** As written, checking out a reservation whose space has been deleted
      loses the reservation and then throws. */
  lemma CheckOutAsWrittenLosesReservation(spaces: seq<Space>, rs: seq<Reservation>, k: nat)
    requires k < |rs| && forall j :: 0 <= j < k ==> rs[j].id != rs[k].id
    requires forall j :: 0 <= j < |spaces| ==> spaces[j].id != rs[k].spaceId
    ensures CheckOutAsWritten(spaces, rs, rs[k].id) == TypeError(spaces, RemoveAt(rs, k))
    ensures |RemoveAt(rs, k)| == |rs| - 1
  {
  }

  // ---------------------------------------------------------------------
  // Consistency: every reservation on an "in-use" space, no space shared.

  lemma SetStateKeepsIds(spaces: seq<Space>, k: nat, state: string)
    requires k < |spaces|
    ensures DistinctSpaceIds(spaces) ==> DistinctSpaceIds(SetState(spaces, k, state))
    ensures forall id :: SpaceIndex(SetState(spaces, k, state), id) == SpaceIndex(spaces, id)
  {
    forall id | true
      ensures SpaceIndex(SetState(spaces, k, state), id) == SpaceIndex(spaces, id)
    {
      SpaceIndexSameIds(SetState(spaces, k, state), spaces, id);
    }
  }

  /** Setting a space to "in-use" never takes a space away from a reservation. */
  lemma MarkInUseKeepsHeld(spaces: seq<Space>, rs: seq<Reservation>, f: nat)
    requires f < |spaces|
    requires ReservationsHoldInUseSpaces(spaces, rs)
    ensures ReservationsHoldInUseSpaces(SetState(spaces, f, StateInUse), rs)
  {
    var s := SetState(spaces, f, StateInUse);
    forall i | 0 <= i < |rs|
      ensures NamesInUseSpace(s, rs[i].spaceId)
    {
      SpaceIndexSameIds(s, spaces, rs[i].spaceId);
    }
  }

  /** Check-in keeps the store consistent when space ids are distinct: the
      space it takes was "free", so no reservation held it before, and it
      is "in-use" afterwards. */
  lemma CheckInKeepsConsistent(spaces: seq<Space>, rs: seq<Reservation>, res: Reservation)
    requires DistinctSpaceIds(spaces) && Consistent(spaces, rs)
    requires FirstFree(spaces).Some? && res.spaceId == spaces[FirstFree(spaces).value].id
    ensures Consistent(SetState(spaces, FirstFree(spaces).value, StateInUse), rs + [res])
  {
    var f := FirstFree(spaces).value;
    var s := SetState(spaces, f, StateInUse);
    var rs' := rs + [res];
    MarkInUseKeepsHeld(spaces, rs, f);
    SpaceIndexOfDistinct(spaces, f);
    SpaceIndexSameIds(s, spaces, res.spaceId);
    forall i | 0 <= i < |rs'|
      ensures NamesInUseSpace(s, rs'[i].spaceId)
    {
      if i < |rs| {
        assert rs'[i] == rs[i];
      }
    }
    forall i, j | 0 <= i < j < |rs'|
      ensures rs'[i].spaceId != rs'[j].spaceId
    {
      if j == |rs| {
        assert NamesInUseSpace(spaces, rs[i].spaceId);
      }
    }
  }

  /** Check-out keeps the store consistent: the released space was held by
      the removed reservation only, so every other reservation's space
      stays "in-use". */
  lemma CheckOutKeepsConsistent(spaces: seq<Space>, rs: seq<Reservation>, k: nat)
    requires Consistent(spaces, rs) && k < |rs|
    ensures SpaceIndex(spaces, rs[k].spaceId).Some?
    ensures Consistent(SetState(spaces, SpaceIndex(spaces, rs[k].spaceId).value, StateFree), RemoveAt(rs, k))
  {
    assert NamesInUseSpace(spaces, rs[k].spaceId);
    var j := SpaceIndex(spaces, rs[k].spaceId).value;
    var s := SetState(spaces, j, StateFree);
    var rs' := RemoveAt(rs, k);
    assert forall i :: 0 <= i < |rs'| ==> rs'[i] == rs[if i < k then i else i + 1];
    forall i | 0 <= i < |rs'|
      ensures NamesInUseSpace(s, rs'[i].spaceId)
    {
      var i0 := if i < k then i else i + 1;
      assert NamesInUseSpace(spaces, rs[i0].spaceId);
      assert rs[i0].spaceId != rs[k].spaceId;
      SpaceIndexSameIds(s, spaces, rs[i0].spaceId);
    }
  }

  /** Check-in followed by check-out of the new reservation restores both
      lists, when the new reservation id was not in use and space ids are
      distinct. */
  lemma CheckInThenCheckOut(spaces: seq<Space>, rs: seq<Reservation>, res: Reservation)
    requires DistinctSpaceIds(spaces) && FirstFree(spaces).Some?
    requires res.spaceId == spaces[FirstFree(spaces).value].id
    requires forall i :: 0 <= i < |rs| ==> rs[i].id != res.id
    ensures var f := FirstFree(spaces).value;
      var s := SetState(spaces, f, StateInUse);
      var rs' := rs + [res];
      ReservationIndex(rs', res.id) == Some(|rs|)
      && SpaceIndex(s, res.spaceId) == Some(f)
      && RemoveAt(rs', |rs|) == rs
      && SetState(s, f, StateFree) == spaces
  {
    var f := FirstFree(spaces).value;
    var s := SetState(spaces, f, StateInUse);
    var rs' := rs + [res];
    assert forall i :: 0 <= i < |rs| ==> rs'[i] == rs[i];
    assert rs'[|rs|] == res;
    SpaceIndexOfDistinct(spaces, f);
    SpaceIndexSameIds(s, spaces, res.spaceId);
    assert RemoveAt(rs', |rs|) == rs;
  }

  // ---------------------------------------------------------------------
  // Runs from the seed data.

  /** From the seed: two check-ins take spaces 1 and 2 in list order and
      both get reservation id 4, because the counter is never advanced. */
  method SeedTwoCheckIns() returns (db: AppDb, first: Outcome<Reservation>, second: Outcome<Reservation>)
    ensures fresh(db)
    ensures first.Ok? && first.value.spaceId == 1 && first.value.id == 4
    ensures second.Ok? && second.value.spaceId == 2 && second.value.id == 4
    ensures db.reservations == SeedReservations + [first.value, second.value]
    ensures db.spaces == SetState(SetState(SeedSpaces, 0, StateInUse), 1, StateInUse)
  {
    db := new AppDb();
    assert FirstFree(db.spaces) == Some(0);
    first := CheckIn(db, Some("ABCDEF"), 8, 5, 0);
    ghost var afterFirst := db.spaces;
    assert afterFirst[0].state == StateInUse && afterFirst[1] == SeedSpaces[1];
    assert FirstFree(afterFirst) == Some(1);
    second := CheckIn(db, Some("GHIJKL"), 8, 6, 0);
  }

  /** From the seed: after those two check-ins, checking out id 4 releases
      space 1 and removes the first of the two reservations with that id. */
  method SeedCheckInScenario() returns (first: Outcome<Reservation>, second: Outcome<Reservation>,
                                        out: Outcome<Reservation>, left: seq<Reservation>)
    ensures first.Ok? && first.value.spaceId == 1 && first.value.id == 4
    ensures second.Ok? && second.value.spaceId == 2 && second.value.id == 4
    ensures out == first
    ensures left == SeedReservations + [second.value]
  {
    var db;
    db, first, second := SeedTwoCheckIns();
    ghost var both := db.reservations;
    assert both[0].id == 1 && both[1].id == 2 && both[2].id == 3 && both[3].id == 4;
    forall j | 0 <= j < 3
      ensures both[j].id != 4
    {
      assert j == 0 || j == 1 || j == 2;
    }
    ReservationIndexAt(both, 3);
    assert SpaceIndex(db.spaces, 1) == Some(0);
    out := CheckOut(db, 4);
    left := db.reservations;
    assert left == RemoveAt(both, 3);
  }

  /** From the seed: set space 3 to "free" through the update handler,
      delete it, then check out reservation 1, which still points at space 3.
      As written the handler throws having already dropped reservation 1;
      the corrected handler answers NotFound and keeps it. */
  method SeedCheckOutDeletedSpace() returns (asWritten: Handled<Reservation>, corrected: Outcome<Reservation>,
                                            kept: seq<Reservation>)
    ensures asWritten.TypeError? && asWritten.reservations == SeedReservations[1..]
    ensures corrected == NotFound && kept == SeedReservations
  {
    var db := new AppDb();
    SeedSpaceIds();
    var updated := Spaces.Update(db, 3, Some("space3"), Some(StateFree));
    SpaceIndexOfDistinct(SeedSpaces, 2);
    assert db.spaces == SetState(SeedSpaces, 2, StateFree);
    SetStateKeepsIds(SeedSpaces, 2, StateFree);
    var deleted := Spaces.DeleteSpace(db, 3);
    assert forall j :: 0 <= j < |db.spaces| ==> db.spaces[j].id != 3;
    asWritten := CheckOutAsWritten(db.spaces, db.reservations, 1);
    assert ReservationIndex(db.reservations, 1) == Some(0);
    corrected := CheckOut(db, 1);
    kept := db.reservations;
  }
  /** Taking the scan's choice f makes the next free position p of the
      list the scan started from (if there is one) the next choice, while
      every position from p on still holds what that list held. */
  lemma TakeFirstFree(x: seq<Space>, start: seq<Space>, f: nat, p: nat)
    requires |x| == |start| && f < p <= |x|
    requires FirstFree(x) == Some(f)
    requires forall j :: f < j < |x| ==> x[j] == start[j]
    requires p < |x| ==> start[p].state == StateFree
    requires forall j :: f < j < p ==> start[j].state != StateFree
    ensures p < |x| ==> FirstFree(SetState(x, f, StateInUse)) == Some(p)
    ensures forall j :: p <= j < |x| ==> SetState(x, f, StateInUse)[j] == start[j]
  {
    if p < |x| {
      FirstFreeAt(SetState(x, f, StateInUse), p);
    }
  }

  /** One check-in in a run from a known list `start`: the scan takes
      position f, the next free position of `start` is p (or there is none
      when p is the length), and from p on the list still holds what
      `start` held. */
  method CheckInNext(db: AppDb, license: string, ghost start: seq<Space>, f: nat, p: nat)
    returns (r: Outcome<Reservation>)
    requires Utf16Length(license) >= 6
    requires |db.spaces| == |start| && f < p <= |start| && start[f].id != 0
    requires FirstFree(db.spaces) == Some(f)
    requires forall j :: f <= j < |start| ==> db.spaces[j] == start[j]
    requires p < |start| ==> start[p].state == StateFree
    requires forall j :: f < j < p ==> start[j].state != StateFree
    modifies db`spaces, db`reservations
    ensures r.Ok? && r.value.spaceId == start[f].id && r.value.id == db.reservationsLength + 1
    ensures |db.reservations| == |old(db.reservations)| + 1 && db.reservations[|old(db.reservations)|] == r.value
    ensures forall i :: 0 <= i < |old(db.reservations)| ==> db.reservations[i] == old(db.reservations)[i]
    ensures |db.spaces| == |start| && (p < |start| ==> FirstFree(db.spaces) == Some(p))
    ensures forall j :: p <= j < |start| ==> db.spaces[j] == start[j]
  {
    ghost var x := db.spaces;
    r := CheckIn(db, Some(license), 9, 0, 0);
    TakeFirstFree(x, start, f, p);
  }

  /** The seeded spaces with one registered space appended: it gets id 6,
      which the seeded space6 at position 5 already has. Free positions are
      0, 1, 5, 6, 10, 11 and the appended 15. */
  predicate IsRegisteredSeed(spaces: seq<Space>)
  {
    |spaces| == 16
    && (forall j :: 0 <= j < 16 ==> spaces[j].id == if j < 15 then j + 1 else 6)
    && (forall j :: 0 <= j < 16 ==>
          (spaces[j].state == StateFree <==> j == 0 || j == 1 || j == 5 || j == 6 || j == 10 || j == 11 || j == 15))
  }

  /** Where the scan goes in that list: the seven free positions in order,
      with the non-free stretches between them. */
  lemma RegisteredSeedScan(spaces: seq<Space>)
    requires IsRegisteredSeed(spaces)
    ensures |spaces| == 16 && spaces[5].id == 6 && spaces[15].id == 6
    ensures forall j :: j in {0, 1, 5, 6, 10, 11, 15} ==> spaces[j].state == StateFree && spaces[j].id != 0
    ensures forall j :: 1 < j < 5 ==> spaces[j].state != StateFree
    ensures forall j :: 6 < j < 10 ==> spaces[j].state != StateFree
    ensures forall j :: 11 < j < 15 ==> spaces[j].state != StateFree
  {
  }

  /** From the seed, one registration: the store is still consistent, but
      two spaces now have id 6. */
  method SeedRegister() returns (db: AppDb)
    ensures fresh(db) && db.reservations == SeedReservations && db.reservationsLength == SeedReservationsLength
    ensures IsRegisteredSeed(db.spaces) && !DistinctSpaceIds(db.spaces)
    ensures Consistent(db.spaces, db.reservations)
  {
    SeedReservationsConsistent();
    Spaces.RegisterKeepsConsistent(SeedSpaces, SeedReservations, SeedSpacesLength, "xyz");
    db := new AppDb();
    var registered := Spaces.Register(db, Some("xyz"));
    assert db.spaces == SeedSpaces + [Space(6, "xyz", StateFree)];
    assert db.spaces[5].id == db.spaces[15].id;
  }

  /** The first three check-ins after that registration take positions
      0, 1 and 5; the third holds the seeded space6. */
  method SeedRegisterThenThreeCheckIns() returns (db: AppDb, registered: seq<Space>, third: Outcome<Reservation>)
    ensures fresh(db) && IsRegisteredSeed(registered) && !DistinctSpaceIds(registered)
    ensures Consistent(registered, SeedReservations)
    ensures third.Ok? && third.value.spaceId == 6
    ensures |db.reservations| == 6 && db.reservations[5] == third.value
    ensures |db.spaces| == 16 && FirstFree(db.spaces) == Some(6)
    ensures forall j :: 6 <= j < 16 ==> db.spaces[j] == registered[j]
  {
    db := SeedRegister();
    registered := db.spaces;
    RegisteredSeedScan(registered);
    FirstFreeAt(registered, 0);
    var r1 := CheckInNext(db, "CAR001", registered, 0, 1);
    var r2 := CheckInNext(db, "CAR002", registered, 1, 5);
    third := CheckInNext(db, "CAR003", registered, 5, 6);
  }

  /** From the seed: one registration (which gets id 6, like the seeded
      space6) and then seven check-ins. The scan takes the six free seeded
      spaces in list order and then the registered one, so the third and
      the seventh reservation both hold a space with id 6: the store was
      consistent, and the register and check-in handlers alone leave two
      reservations on one space id. */
  method SeedRegisterThenCheckIns() returns (registered: seq<Space>, third: Outcome<Reservation>,
                                             seventh: Outcome<Reservation>, spaces: seq<Space>,
                                             rs: seq<Reservation>)
    ensures IsRegisteredSeed(registered) && !DistinctSpaceIds(registered)
    ensures Consistent(registered, SeedReservations)
    ensures third.Ok? && seventh.Ok? && third.value.spaceId == seventh.value.spaceId == 6
    ensures |rs| == 10 && rs[5] == third.value && rs[9] == seventh.value
    ensures !Consistent(spaces, rs)
  {
    var db;
    db, registered, third := SeedRegisterThenThreeCheckIns();
    RegisteredSeedScan(registered);
    var r4 := CheckInNext(db, "CAR004", registered, 6, 10);
    var r5 := CheckInNext(db, "CAR005", registered, 10, 11);
    var r6 := CheckInNext(db, "CAR006", registered, 11, 15);
    ghost var q := db.reservations;
    assert |q| == 9 && q[5] == third.value;
    seventh := CheckInNext(db, "CAR007", registered, 15, 16);
    spaces := db.spaces;
    rs := db.reservations;
    assert rs[5] == q[5];
    assert !NoSharedSpace(rs) by {
      assert rs[5].spaceId == rs[9].spaceId;
    }
  }
}
