/** The space handlers: list, get, register, update and delete-if-free.
    Request bodies arrive as optional fields; path ids arrive as integers. */
module Spaces {
  import opened Db

  /** A space name is present and at least 3 long, where the length is
      JavaScript's, in UTF-16 code units. */
  predicate ValidSpaceName(name: Option<string>)
  {
    name.Some? && Utf16Length(name.value) >= 3
  }

  /** An update body has a valid name and a state that is a non-empty string
      (any string at all: nothing restricts it to "free" or "in-use"). */
  predicate ValidSpaceInfo(name: Option<string>, state: Option<string>)
  {
    ValidSpaceName(name) && state.Some? && |state.value| > 0
  }

  /** Names are measured as JavaScript measures them: a letter followed by
      an emoji is two characters but three UTF-16 code units, so it passes. */
  lemma NameLengthIsUtf16()
    ensures |"a\U{1F600}"| == 2 && ValidSpaceName(Some("a\U{1F600}"))
    ensures !ValidSpaceName(Some("ab"))
  {
  }

  /** The space a successful registration appends: its id comes from the
      stored counter, which is read but never advanced. */
  function NewSpace(spacesLength: int, name: string): Space
  {
    Space(spacesLength + 1, name, StateFree)
  }

  /** GET /: the whole list, in insertion order. */
  method List(db: AppDb) returns (r: seq<Space>)
    ensures r == db.spaces
  {
    r := db.spaces;
  }

  /** GET /:id: the first space with that id, or NotFound. */
  method Get(db: AppDb, id: int) returns (r: Outcome<Space>)
    ensures r.Ok? || r.NotFound?
    ensures r.NotFound? <==> forall k :: 0 <= k < |db.spaces| ==> db.spaces[k].id != id
    ensures r.Ok? ==> exists k :: 0 <= k < |db.spaces| && db.spaces[k] == r.value
                        && r.value.id == id && forall j :: 0 <= j < k ==> db.spaces[j].id != id
  {
    match SpaceIndex(db.spaces, id)
    case None =>
      r := NotFound;
    case Some(k) =>
      r := Ok(db.spaces[k]);
  }

  /** POST /: validate the name, then append a free space. The frame
      leaves `db.spacesLength` untouched: the counter is never advanced. */
  method Register(db: AppDb, name: Option<string>) returns (r: Outcome<Space>)
    modifies db`spaces
    ensures !ValidSpaceName(name) ==> r == ValidationError && db.spaces == old(db.spaces)
    ensures ValidSpaceName(name) ==>
              r == Ok(NewSpace(db.spacesLength, name.value))
              && db.spaces == old(db.spaces) + [r.value]
  {
    if !ValidSpaceName(name) {
      return ValidationError;
    }
    var space := NewSpace(db.spacesLength, name.value);
    db.spaces := db.spaces + [space];
    r := Ok(space);
  }

  /** PUT /:id: look the space up first, then validate the body, then
      overwrite its name and state. */
  method Update(db: AppDb, id: int, name: Option<string>, state: Option<string>)
    returns (r: Outcome<Space>)
    modifies db`spaces
    ensures match SpaceIndex(old(db.spaces), id)
      case None => r == NotFound && db.spaces == old(db.spaces)
      case Some(k) =>
        if !ValidSpaceInfo(name, state) then
          r == ValidationError && db.spaces == old(db.spaces)
        else
          db.spaces == old(db.spaces)[k := old(db.spaces)[k].(name := name.value, state := state.value)]
          && r == Ok(db.spaces[k])
  {
    var found := SpaceIndex(db.spaces, id);
    if found.None? {
      return NotFound;
    }
    if !ValidSpaceInfo(name, state) {
      return ValidationError;
    }
    var k := found.value;
    var space := db.spaces[k].(name := name.value, state := state.value);
    db.spaces := db.spaces[k := space];
    r := Ok(space);
  }

  /** DELETE /:id: remove the space, only when its state is "free". An
      unknown id is NotFound, checked before the state. */
  method DeleteSpace(db: AppDb, id: int) returns (r: Outcome<Space>)
    modifies db`spaces
    ensures match SpaceIndex(old(db.spaces), id)
      case None => r == NotFound && db.spaces == old(db.spaces)
      case Some(k) =>
        if old(db.spaces)[k].state == StateFree then
          r == Ok(old(db.spaces)[k]) && db.spaces == RemoveAt(old(db.spaces), k)
        else
          r == InUse && db.spaces == old(db.spaces)
  {
    var found := SpaceIndex(db.spaces, id);
    if found.None? {
      return NotFound;
    }
    var k := found.value;
    var space := db.spaces[k];
    if space.state == StateFree {
      db.spaces := db.spaces[..k] + db.spaces[k + 1..];
      r := Ok(space);
    } else {
      r := InUse;
    }
  }

  /** The delete handler as written: the state of the looked-up space is
      read before the check that it exists, so an unknown id throws. */
  function DeleteAsWritten(spaces: seq<Space>, rs: seq<Reservation>, id: int): Handled<Space>
  {
    match SpaceIndex(spaces, id)
    case None => TypeError(spaces, rs)
    case Some(k) =>
      if spaces[k].state == StateFree then Returned(Ok(spaces[k]), RemoveAt(spaces, k), rs)
      else Returned(InUse, spaces, rs)
  }

  /** As written, deleting an id that no space has throws a TypeError
      instead of answering NotFound; on the seed data, id 99 does. */
  lemma DeleteAsWrittenThrowsOnUnknownId(spaces: seq<Space>, rs: seq<Reservation>, id: int)
    requires forall k :: 0 <= k < |spaces| ==> spaces[k].id != id
    ensures DeleteAsWritten(spaces, rs, id).TypeError?
    ensures DeleteAsWritten(SeedSpaces, SeedReservations, 99).TypeError?
  {
  }

  // ---------------------------------------------------------------------
  // What the handlers do to the store's consistency.

  /** Registration keeps the ids distinct exactly when the counter's next
      id is not taken yet. */
  lemma RegisterDistinctIff(spaces: seq<Space>, spacesLength: int, name: string)
    ensures DistinctSpaceIds(spaces + [NewSpace(spacesLength, name)])
            <==> DistinctSpaceIds(spaces) && SpaceIndex(spaces, spacesLength + 1).None?
  {
    var s := spaces + [NewSpace(spacesLength, name)];
    if DistinctSpaceIds(s) {
      assert forall i, j :: 0 <= i < j < |spaces| ==> spaces[i] == s[i] && spaces[j] == s[j];
      assert forall i :: 0 <= i < |spaces| ==> s[i].id != s[|spaces|].id;
    }
  }

  /** Registering twice from the seed hands out id 6 both times, and 6 is
      the seeded space6's id: after one registration the ids are no longer
      distinct, and the id lookup still finds the seeded space6. */
  lemma SeedRegisterCollides(name1: string, name2: string)
    ensures NewSpace(SeedSpacesLength, name1).id == NewSpace(SeedSpacesLength, name2).id == 6
    ensures !DistinctSpaceIds(SeedSpaces + [NewSpace(SeedSpacesLength, name1)])
    ensures SpaceIndex(SeedSpaces + [NewSpace(SeedSpacesLength, name1)], 6) == Some(5)
  {
    SeedCounterCollides();
    RegisterDistinctIff(SeedSpaces, SeedSpacesLength, name1);
    SpaceIndexPrefix(SeedSpaces, [NewSpace(SeedSpacesLength, name1)], 6);
  }

  /** Register then get: when the new id is fresh, the id lookup finds the
      appended space, with the given name and state "free". */
  lemma RegisterThenGet(spaces: seq<Space>, spacesLength: int, name: string)
    requires forall k :: 0 <= k < |spaces| ==> spaces[k].id != spacesLength + 1
    ensures var s := spaces + [NewSpace(spacesLength, name)];
      SpaceIndex(s, spacesLength + 1) == Some(|spaces|)
      && s[|spaces|].name == name && s[|spaces|].state == StateFree
  {
  }

  /** Appending never changes what the id lookup finds for an id already present. */
  lemma {:induction false} SpaceIndexPrefix(spaces: seq<Space>, more: seq<Space>, id: int)
    requires SpaceIndex(spaces, id).Some?
    ensures SpaceIndex(spaces + more, id) == SpaceIndex(spaces, id)
  {
    if spaces[0].id != id {
      assert (spaces + more)[1..] == spaces[1..] + more;
      SpaceIndexPrefix(spaces[1..], more, id);
    }
  }

  /** Registration keeps every reservation on an "in-use" space and keeps
      reservations unshared: the appended space is found only after every
      earlier one. */
  lemma RegisterKeepsConsistent(spaces: seq<Space>, rs: seq<Reservation>, spacesLength: int, name: string)
    requires Consistent(spaces, rs)
    ensures Consistent(spaces + [NewSpace(spacesLength, name)], rs)
  {
    var s := spaces + [NewSpace(spacesLength, name)];
    forall i | 0 <= i < |rs|
      ensures NamesInUseSpace(s, rs[i].spaceId)
    {
      assert NamesInUseSpace(spaces, rs[i].spaceId);
      SpaceIndexPrefix(spaces, [NewSpace(spacesLength, name)], rs[i].spaceId);
    }
  }

  /** Deleting a free space keeps the store consistent when space ids are
      distinct: no reservation held the deleted space, and every other
      space keeps its state. */
  lemma DeleteKeepsConsistent(spaces: seq<Space>, rs: seq<Reservation>, k: nat)
    requires DistinctSpaceIds(spaces) && Consistent(spaces, rs)
    requires k < |spaces| && spaces[k].state == StateFree
    ensures DistinctSpaceIds(RemoveAt(spaces, k))
    ensures Consistent(RemoveAt(spaces, k), rs)
  {
    var s := RemoveAt(spaces, k);
    assert forall j :: 0 <= j < |s| ==> s[j] == spaces[if j < k then j else j + 1];
    forall i | 0 <= i < |rs|
      ensures NamesInUseSpace(s, rs[i].spaceId)
    {
      var sid := rs[i].spaceId;
      assert NamesInUseSpace(spaces, sid);
      var m := SpaceIndex(spaces, sid).value;
      assert m != k;
      var m' := if m < k then m else m - 1;
      assert s[m'] == spaces[m];
      assert DistinctSpaceIds(s);
      SpaceIndexOfDistinct(s, m');
    }
  }

  /** Deleting a free space, when ids are distinct, leaves no space with
      that id behind. */
  lemma DeleteThenGet(spaces: seq<Space>, k: nat)
    requires DistinctSpaceIds(spaces) && k < |spaces|
    ensures SpaceIndex(RemoveAt(spaces, k), spaces[k].id).None?
  {
  }

  /** Update bypasses the reservation invariant: on the seed data, setting
      space 3 to "free" leaves reservation 1 on a space that is not "in-use". */
  lemma UpdateCanBreakConsistency()
    ensures !Consistent(SetState(SeedSpaces, 2, StateFree), SeedReservations)
  {
    var s := SetState(SeedSpaces, 2, StateFree);
    SeedSpaceIds();
    SpaceIndexOfDistinct(SeedSpaces, 2);
    SpaceIndexSameIds(SeedSpaces, s, 3);
    assert SpaceIndex(s, 3) == Some(2);
    assert !NamesInUseSpace(s, SeedReservations[0].spaceId);
  }
}
