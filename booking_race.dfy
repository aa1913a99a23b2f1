/** Two guests book the same room for the same nights. Each searches while
    the room is still free and picks it; then both commit. Since the commit
    inserts its restriction without asking again whether the room is free,
    the restrictions table ends up holding two overlapping stays of one
    room. The requests run one after another; no concurrency is needed. */
module BookingRace {
  import opened Common
  import opened Text
  import opened Forms
  import opened Restrictions
  import Rooms
  import Reservations
  import opened Handlers

  /** One search for nights [start, end) while `roomId` is free for them:
      the session then holds a reservation for exactly those nights. */
  method SearchWhileFree(h: Handlers, session: Session, search: Form, parse: string -> Option<Date>, roomId: int)
    requires parse(Get(search, "start")).Some? && parse(Get(search, "end")).Some?
    requires exists room :: room in h.rooms.rows && room.id == roomId
    requires Rooms.IsAvailable(h.restrictions.rows, roomId,
                               parse(Get(search, "start")).value, parse(Get(search, "end")).value, false).value
    modifies session
    ensures session.Held() == Some(Search(parse(Get(search, "start")).value, parse(Get(search, "end")).value))
  {
    var start := parse(Get(search, "start")).value;
    var end := parse(Get(search, "end")).value;
    var room :| room in h.rooms.rows && room.id == roomId;
    Rooms.GetAnyAvailableMatchesIsAvailable(h.rooms.rows, h.restrictions.rows, start, end);
    assert room in Rooms.GetAnyAvailable(h.rooms.rows, h.restrictions.rows, start, end, false).value;
    var _ := h.PostAvailability(session, search, parse, false);
  }

  /** Choosing an existing room keeps the nights and sets the room. */
  method ChooseExisting(h: Handlers, session: Session, roomText: string)
    requires Atoi(roomText).err.None? && session.Held().Some?
    requires exists room :: room in h.rooms.rows && room.id == Atoi(roomText).value
    modifies session
    ensures session.Held().Some? && session.Held().value.roomId == Atoi(roomText).value
    ensures session.Held().value.startDate == old(session.Held()).value.startDate
    ensures session.Held().value.endDate == old(session.Held()).value.endDate
  {
    var _ := h.ChooseRoom(session, roomText, false);
  }

  /** Committing a valid form stores one restriction with the session's
      room and nights. */
  method CommitValid(h: Handlers, session: Session, form: Form, isEmail: string -> bool)
    requires h.Valid() && session.Held().Some? && Reservations.Validate(form, isEmail) == []
    modifies h, session, h.reservations, h.restrictions
    ensures h.Valid()
    ensures |h.restrictions.rows| == |old(h.restrictions.rows)| + 1
    ensures h.restrictions.rows[..|old(h.restrictions.rows)|] == old(h.restrictions.rows)
    ensures var x := h.restrictions.rows[|old(h.restrictions.rows)|];
            var res := old(session.Held()).value;
            x.roomId == res.roomId && x.startDate == res.startDate && x.endDate == res.endDate
  {
    var _ := h.PostReservation(session, Some(form), isEmail, false, false, None);
  }

  /** Two rows that block the same room for the same non-empty nights are a
      double booking. */
  lemma SameNightsTwiceDoubleBooks(rs: seq<Restriction>, n: nat)
    requires n + 1 < |rs| && rs[n].roomId == rs[n + 1].roomId
    requires rs[n].startDate == rs[n + 1].startDate && rs[n].endDate == rs[n + 1].endDate
    requires rs[n].startDate < rs[n].endDate
    ensures !Rooms.NoDoubleBooking(rs)
  {
    assert Rooms.Overlaps(rs[n + 1], rs[n].startDate, rs[n].endDate);
  }

  /** Both visitors search the same free nights and choose the same room:
      both sessions then hold that room for those nights. */
  method BothChooseTheSameNights(h: Handlers, first: Session, second: Session,
                                 search: Form, parse: string -> Option<Date>, roomText: string)
    requires first != second
    requires parse(Get(search, "start")).Some? && parse(Get(search, "end")).Some?
    requires Atoi(roomText).err.None?
    requires exists room :: room in h.rooms.rows && room.id == Atoi(roomText).value
    requires Rooms.IsAvailable(h.restrictions.rows, Atoi(roomText).value,
                               parse(Get(search, "start")).value, parse(Get(search, "end")).value, false).value
    modifies first, second
    ensures first.Held().Some? && second.Held().Some?
    ensures first.Held().value.roomId == second.Held().value.roomId == Atoi(roomText).value
    ensures first.Held().value.startDate == second.Held().value.startDate == parse(Get(search, "start")).value
    ensures first.Held().value.endDate == second.Held().value.endDate == parse(Get(search, "end")).value
  {
    var roomId := Atoi(roomText).value;
    SearchWhileFree(h, first, search, parse, roomId);
    SearchWhileFree(h, second, search, parse, roomId);
    ChooseExisting(h, first, roomText);
    ChooseExisting(h, second, roomText);
  }

  /** Both visitors then commit a valid form: each commit appends one
      restriction for its session's room and nights. */
  method BothCommit(h: Handlers, first: Session, second: Session, formA: Form, formB: Form, isEmail: string -> bool)
    requires h.Valid() && first != second
    requires first.Held().Some? && second.Held().Some?
    requires first.Held().value.roomId == second.Held().value.roomId
    requires first.Held().value.startDate == second.Held().value.startDate < first.Held().value.endDate
    requires first.Held().value.endDate == second.Held().value.endDate
    requires Reservations.Validate(formA, isEmail) == [] && Reservations.Validate(formB, isEmail) == []
    modifies h, first, second, h.reservations, h.restrictions
    ensures |h.restrictions.rows| == |old(h.restrictions.rows)| + 2
    ensures !Rooms.NoDoubleBooking(h.restrictions.rows)
  {
    var n := |h.restrictions.rows|;
    CommitValid(h, first, formA, isEmail);
    var mid := h.restrictions.rows;
    CommitValid(h, second, formB, isEmail);
    var rs := h.restrictions.rows;
    assert rs[..n + 1] == mid;
    assert rs[n] == mid[n];
    SameNightsTwiceDoubleBooks(rs, n);
  }

  /** Runs, for two visitors' sessions and in this order: both searches,
      both room choices, both commits, with every store call succeeding.
      The room is free for the searched nights at the start, no room is
      double-booked yet, and both guest forms are valid. Both commits go
      through, and the table then holds two restrictions of that room over
      the same nights. */
  method TwoGuestsBookTheSameNights(h: Handlers, first: Session, second: Session,
                                    search: Form, parse: string -> Option<Date>, roomText: string,
                                    formA: Form, formB: Form, isEmail: string -> bool)
    requires h.Valid() && first != second
    requires Rooms.NoDoubleBooking(h.restrictions.rows)
    requires parse(Get(search, "start")).Some? && parse(Get(search, "end")).Some?
    requires parse(Get(search, "start")).value < parse(Get(search, "end")).value
    requires Atoi(roomText).err.None?
    requires exists room :: room in h.rooms.rows && room.id == Atoi(roomText).value
    requires Rooms.IsAvailable(h.restrictions.rows, Atoi(roomText).value,
                               parse(Get(search, "start")).value, parse(Get(search, "end")).value, false).value
    requires Reservations.Validate(formA, isEmail) == [] && Reservations.Validate(formB, isEmail) == []
    modifies h, first, second, h.reservations, h.restrictions
    ensures |h.restrictions.rows| == |old(h.restrictions.rows)| + 2
    ensures !Rooms.NoDoubleBooking(h.restrictions.rows)
  {
    BothChooseTheSameNights(h, first, second, search, parse, roomText);
    BothCommit(h, first, second, formA, formB, isEmail);
  }
}
