/** The in-memory store shared by both routers: the `spaces` and
    `reservations` lists, their seed contents and the two id counters.
    Also the lookups (`find`) and the consistency predicates that the
    handlers in Spaces and Reservations are proved against. */
module Db {

  datatype Option<T> = None | Some(value: T)

  /** What a handler answers; the HTTP status mapping is left to the router. */
  datatype Outcome<T> = Ok(value: T) | ValidationError | NotFound | InUse | NoSpace

  /** What a handler does when it is run exactly as written, including the
      TypeError it throws part-way, with the store as the exception leaves it. */
  datatype Handled<T> =
    | Returned(result: Outcome<T>, spaces: seq<Space>, reservations: seq<Reservation>)
    | TypeError(spaces: seq<Space>, reservations: seq<Reservation>)

  /** A parking space. Its state is whatever string was stored: the
      handlers only ever compare it with "free". */
  datatype Space = Space(id: int, name: string, state: string)

  /** An active reservation; `checkIn` is the HH:MM:SS string taken at check-in. */
  datatype Reservation = Reservation(id: int, license: string, checkIn: string, spaceId: int)

  const StateFree: string := "free"
  const StateInUse: string := "in-use"

  const SeedSpaces: seq<Space> := [
    Space(1, "space1", StateFree), Space(2, "space2", StateFree), Space(3, "space3", StateInUse),
    Space(4, "space4", StateInUse), Space(5, "space5", StateInUse), Space(6, "space6", StateFree),
    Space(7, "space7", StateFree), Space(8, "space8", StateInUse), Space(9, "space9", StateInUse),
    Space(10, "space10", StateInUse), Space(11, "space11", StateFree), Space(12, "space12", StateFree),
    Space(13, "space13", StateInUse), Space(14, "space14", StateInUse), Space(15, "space15", StateInUse)
  ]

  const SeedReservations: seq<Reservation> := [
    Reservation(1, "BJT001", "08:30:00", 3),
    Reservation(2, "ASD004", "09:30:10", 4),
    Reservation(3, "RTY005", "10:30:20", 5)
  ]

  const SeedReservationsLength: int := 3
  const SeedSpacesLength: int := 5

  /** The exported `appDb` object. The counters are read by the routers
      and never written back. */
  class AppDb {
    var spaces: seq<Space>
    var reservations: seq<Reservation>
    var spacesLength: int
    var reservationsLength: int

    constructor ()
      ensures spaces == SeedSpaces && reservations == SeedReservations
      ensures spacesLength == SeedSpacesLength && reservationsLength == SeedReservationsLength
    {
      spaces := SeedSpaces;
      reservations := SeedReservations;
      spacesLength := SeedSpacesLength;
      reservationsLength := SeedReservationsLength;
    }
  }

  // ---------------------------------------------------------------------
  // Lookups: `Array.prototype.find` returns the first element that matches.

  /** `find` on a key: the index of the first element whose key is `id`. */
  function FindIndex<T>(s: seq<T>, key: T -> int, id: int): (r: Option<nat>)
    ensures r.Some? ==> r.value < |s| && key(s[r.value]) == id
    ensures r.Some? ==> forall j :: 0 <= j < r.value ==> key(s[j]) != id
    ensures r.None? ==> forall j :: 0 <= j < |s| ==> key(s[j]) != id
  {
    if s == [] then None
    else if key(s[0]) == id then Some(0)
    else match FindIndex(s[1..], key, id)
      case None => None
      case Some(k) => Some(k + 1)
  }

  /** Index of the first space with the given id. */
  function SpaceIndex(spaces: seq<Space>, id: int): (r: Option<nat>)
    ensures r.Some? ==> r.value < |spaces| && spaces[r.value].id == id
    ensures r.Some? ==> forall j :: 0 <= j < r.value ==> spaces[j].id != id
    ensures r.None? ==> forall j :: 0 <= j < |spaces| ==> spaces[j].id != id
  {
    FindIndex(spaces, (sp: Space) => sp.id, id)
  }

  /** Index of the first reservation with the given id. */
  function ReservationIndex(rs: seq<Reservation>, id: int): (r: Option<nat>)
    ensures r.Some? ==> r.value < |rs| && rs[r.value].id == id
    ensures r.Some? ==> forall j :: 0 <= j < r.value ==> rs[j].id != id
    ensures r.None? ==> forall j :: 0 <= j < |rs| ==> rs[j].id != id
  {
    FindIndex(rs, (res: Reservation) => res.id, id)
  }

  /** Index of the first space, in list order, whose state is "free". */
  function FirstFree(spaces: seq<Space>): (r: Option<nat>)
    ensures r.Some? ==> r.value < |spaces| && spaces[r.value].state == StateFree
    ensures r.Some? ==> forall j :: 0 <= j < r.value ==> spaces[j].state != StateFree
    ensures r.None? ==> forall j :: 0 <= j < |spaces| ==> spaces[j].state != StateFree
  {
    if spaces == [] then None
    else if spaces[0].state == StateFree then Some(0)
    else match FirstFree(spaces[1..])
      case None => None
      case Some(k) => Some(k + 1)
  }

  /** A free space with no free space before it is the one the scan finds. */
  lemma FirstFreeAt(spaces: seq<Space>, k: nat)
    requires k < |spaces| && spaces[k].state == StateFree
    requires forall j :: 0 <= j < k ==> spaces[j].state != StateFree
    ensures FirstFree(spaces) == Some(k)
  {
  }

  /** Number of spaces whose state is "free". */
  function CountFree(spaces: seq<Space>): nat
  {
    if spaces == [] then 0
    else (if spaces[0].state == StateFree then 1 else 0) + CountFree(spaces[1..])
  }

  /** The list with the state of the space at `k` overwritten, as the
      handlers do with `space.state = ...`. */
  function SetState(spaces: seq<Space>, k: nat, state: string): seq<Space>
    requires k < |spaces|
  {
    spaces[k := spaces[k].(state := state)]
  }

  /** `splice(k, 1)` */
  function RemoveAt<T>(s: seq<T>, k: nat): seq<T>
    requires k < |s|
  {
    s[..k] + s[k + 1..]
  }

  /** JavaScript's `length` of a string: a character outside the Basic
      Multilingual Plane takes two UTF-16 code units, any other one. */
  function Utf16Length(s: string): (n: nat)
    ensures |s| <= n <= 2 * |s|
    ensures n == |s| <==> forall i :: 0 <= i < |s| ==> (s[i] as int) < 0x10000
  {
    if s == [] then 0
    else (if (s[0] as int) < 0x10000 then 1 else 2) + Utf16Length(s[1..])
  }

  // ---------------------------------------------------------------------
  // Consistency of the store.

  predicate DistinctSpaceIds(spaces: seq<Space>)
  {
    forall i, j :: 0 <= i < j < |spaces| ==> spaces[i].id != spaces[j].id
  }

  predicate PositiveSpaceIds(spaces: seq<Space>)
  {
    forall i :: 0 <= i < |spaces| ==> spaces[i].id > 0
  }

  /** The space that `find` returns for `sid` exists and is "in-use". */
  predicate NamesInUseSpace(spaces: seq<Space>, sid: int)
  {
    match SpaceIndex(spaces, sid)
    case None => false
    case Some(k) => spaces[k].state == StateInUse
  }

  /** Every reservation's spaceId names an "in-use" space. */
  predicate ReservationsHoldInUseSpaces(spaces: seq<Space>, rs: seq<Reservation>)
  {
    forall i :: 0 <= i < |rs| ==> NamesInUseSpace(spaces, rs[i].spaceId)
  }

  /** No two reservations share a space. */
  predicate NoSharedSpace(rs: seq<Reservation>)
  {
    forall i, j :: 0 <= i < j < |rs| ==> rs[i].spaceId != rs[j].spaceId
  }

  /** The invariant that check-in and check-out keep. */
  predicate Consistent(spaces: seq<Space>, rs: seq<Reservation>)
  {
    ReservationsHoldInUseSpaces(spaces, rs) && NoSharedSpace(rs)
  }

  // ---------------------------------------------------------------------
  // Facts about lookups and updates.

  /** `find` by id only looks at ids: a list with the same ids, position
      by position, gives the same answer. */
  lemma SpaceIndexSameIds(a: seq<Space>, b: seq<Space>, id: int)
    requires |a| == |b|
    requires forall j :: 0 <= j < |a| ==> a[j].id == b[j].id
    ensures SpaceIndex(a, id) == SpaceIndex(b, id)
  {
  }

  /** The first position holding an id is the one `find` returns. */
  lemma SpaceIndexAt(spaces: seq<Space>, k: nat)
    requires k < |spaces| && forall j :: 0 <= j < k ==> spaces[j].id != spaces[k].id
    ensures SpaceIndex(spaces, spaces[k].id) == Some(k)
  {
  }

  /** The first position holding a reservation id is the one `find` returns. */
  lemma ReservationIndexAt(rs: seq<Reservation>, k: nat)
    requires k < |rs| && forall j :: 0 <= j < k ==> rs[j].id != rs[k].id
    ensures ReservationIndex(rs, rs[k].id) == Some(k)
  {
  }

  /** With distinct ids, the space at position k is the one `find` returns for its id. */
  lemma SpaceIndexOfDistinct(spaces: seq<Space>, k: nat)
    requires DistinctSpaceIds(spaces) && k < |spaces|
    ensures SpaceIndex(spaces, spaces[k].id) == Some(k)
  {
  }

  /** Overwriting one space's state changes the free count by exactly one
      when it turns a "free" space into a non-free one. */
  lemma {:induction false} CountFreeAfterSetState(spaces: seq<Space>, k: nat, state: string)
    requires k < |spaces| && spaces[k].state == StateFree && state != StateFree
    ensures CountFree(SetState(spaces, k, state)) == CountFree(spaces) - 1
  {
    if k > 0 {
      CountFreeAfterSetState(spaces[1..], k - 1, state);
      assert SetState(spaces, k, state)[1..] == SetState(spaces[1..], k - 1, state);
    } else {
      assert SetState(spaces, k, state)[1..] == spaces[1..];
    }
  }

  /** There is a free space exactly when the free count is positive. */
  lemma {:induction false} FirstFreeIffCountFree(spaces: seq<Space>)
    ensures FirstFree(spaces).Some? <==> CountFree(spaces) > 0
  {
    if spaces != [] {
      FirstFreeIffCountFree(spaces[1..]);
    }
  }

  /** When the list is in ascending id order (as the seed is), the first
      free space in list order is the free space with the lowest id. */
  lemma FirstFreeIsLowestId(spaces: seq<Space>)
    requires forall i, j :: 0 <= i < j < |spaces| ==> spaces[i].id < spaces[j].id
    requires FirstFree(spaces).Some?
    ensures forall j :: 0 <= j < |spaces| && spaces[j].state == StateFree
              ==> spaces[FirstFree(spaces).value].id <= spaces[j].id
  {
  }

  // ---------------------------------------------------------------------
  // Facts about the seed data.

  /** The seeded spaces have ids 1 to 15 in list order: distinct, positive, ascending. */
  lemma SeedSpaceIds()
    ensures |SeedSpaces| == 15
    ensures forall k :: 0 <= k < |SeedSpaces| ==> SeedSpaces[k].id == k + 1
    ensures DistinctSpaceIds(SeedSpaces) && PositiveSpaceIds(SeedSpaces)
  {
  }

  /** The seeded reservations have ids 1 to 3, the counter equals the
      largest of them, and each holds a distinct "in-use" space (3, 4, 5). */
  lemma SeedReservationsConsistent()
    ensures |SeedReservations| == 3
    ensures forall k :: 0 <= k < |SeedReservations| ==> SeedReservations[k].id == k + 1
    ensures SeedReservationsLength == SeedReservations[2].id
    ensures forall k :: 0 <= k < |SeedReservations| ==> SeedReservations[k].spaceId == k + 3
    ensures Consistent(SeedSpaces, SeedReservations)
  {
    SeedSpaceIds();
    SpaceIndexOfDistinct(SeedSpaces, 2);
    SpaceIndexOfDistinct(SeedSpaces, 3);
    SpaceIndexOfDistinct(SeedSpaces, 4);
  }

  /** The first id a registration hands out, spacesLength + 1 = 6, is
      already the id of the seeded space6, so the ids stop being distinct. */
  lemma SeedCounterCollides()
    ensures SpaceIndex(SeedSpaces, SeedSpacesLength + 1) == Some(5)
    ensures SeedSpaces[5].name == "space6"
  {
    SpaceIndexOfDistinct(SeedSpaces, 5);
  }

  /** Spaces 8, 9, 10, 13, 14 and 15 are seeded "in-use" with no reservation
      holding them: "in-use implies reserved" does not hold from the start. */
  lemma SeedInUseWithoutReservation()
    ensures forall k :: k in {7, 8, 9, 12, 13, 14} ==> SeedSpaces[k].state == StateInUse
    ensures forall k, i :: k in {7, 8, 9, 12, 13, 14} && 0 <= i < |SeedReservations|
              ==> SeedReservations[i].spaceId != SeedSpaces[k].id
  {
  }
}
