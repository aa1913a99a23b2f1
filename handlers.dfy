/** The booking workflow (handlers/booking.go, handlers/rooms.go) as state
    transitions over a visitor's session and the tables. A visitor searches
    dates (PostAvailability), picks a room (ChooseRoom or BookRoom), sees the
    form (ReservationPage), commits it (PostReservation) and reads the summary
    (ReservationSummary). The commit inserts a reservation and then its
    restriction with no transaction and no second look at availability.
    What is rendered, and the HTTP status of a page, are reduced to the
    `Response` a handler produces. */
module Handlers {
  import opened Common
  import opened Text
  import opened Forms
  import opened Restrictions
  import Rooms
  import Reservations

  type Reservation = Reservations.Reservation

  /** What the session stores under a key: a reservation being built, or a
      flash message. */
  datatype SessionValue = Held(reservation: Reservation) | Note(text: string)

  /** One visitor's session: values by key. */
  class Session {
    var values: map<string, SessionValue>

    constructor ()
      ensures values == map[]
    {
      values := map[];
    }

    /** `Session.Get(ctx, "reservation").(data.Reservation)`: present only
        when the key holds a reservation. */
    function Held(): (r: Option<Reservation>)
      reads this
      ensures r.Some? <==> "reservation" in values && values["reservation"].Held?
      ensures r.Some? ==> values["reservation"] == SessionValue.Held(r.value)
    {
      if "reservation" in values && values["reservation"].Held? then Some(values["reservation"].reservation) else None
    }
  }

  /** What a handler answers with. */
  datatype Response =
    | Status(code: int)         // h.ErrorStatus
    | Redirect(location: string)
    | Page(template: string)    // a rendered template
    | Json(body: JsonResponse)
    | Empty                     // the handler returned without writing

  /** The body of the availability JSON answer. */
  datatype JsonResponse = JsonResponse(ok: bool, message: string, startDate: string, endDate: string, roomId: string)

  /** A line written to the error log. */
  datatype LogEntry =
    | NoReservationInSession
    | FormUnparsable
    | RoomLookupFailed(err: DbError)
    | InsertFailed(err: DbError)
    | MailFailed(reason: string)

  /** A confirmation mail handed to the mailer. */
  datatype MailMessage = MailMessage(
    from: string,
    to: string,
    subject: string,
    template: string,
    name: string,
    startDate: Date,
    endDate: Date,
    roomName: string)

  /** The confirmation mail for a committed reservation: from the site's
      address to the guest, naming the guest, the nights and the room. */
  function Confirmation(res: Reservation): (m: MailMessage)
    ensures m.from == "breadandbreakfast@booking.com" && m.to == res.email
    ensures m.name == res.firstName + " " + res.lastName
    ensures m.startDate == res.startDate && m.endDate == res.endDate && m.roomName == res.room.name
  {
    MailMessage("breadandbreakfast@booking.com", res.email, "Reservation Confirmation", "mail",
                res.firstName + " " + res.lastName, res.startDate, res.endDate, res.room.name)
  }

  /** The reservation a search starts: only its dates are set. */
  function Search(start: Date, end: Date): Reservation {
    Reservations.ZeroReservation.(startDate := start, endDate := end)
  }

  /** The session reservation with the guest fields read from the form, as
      entered. */
  function Filled(res: Reservation, form: Form): Reservation {
    res.(firstName := Get(form, "first_name"), lastName := Get(form, "last_name"),
         email := Get(form, "email"), phone := Get(form, "phone"))
  }

  /** The restriction a commit stores for reservation `id`. */
  function Blocking(res: Reservation, id: int): Restriction {
    Restriction(0, res.startDate, res.endDate, res.roomId, Some(id))
  }

  /** The nights the confirmation announces are the nights the commit's
      restriction blocks. */
  lemma ConfirmationAnnouncesTheBlockedNights(res: Reservation, id: int)
    ensures Confirmation(res).startDate == Blocking(res, id).startDate
    ensures Confirmation(res).endDate == Blocking(res, id).endDate
  {
  }

  // ----- AvailabilityJSON -----

  /** The JSON answer to an availability check for one room. `form` is None
      when the body cannot be parsed. Unparsable dates are read as the zero
      date and an unparsable room id as what Atoi returns; the answer echoes
      the raw date strings and the decimal form of the room id used. */
  function AvailabilityJSON(restrictions: seq<Restriction>, form: Option<Form>, parse: string -> Option<Date>, fault: bool)
    : (r: JsonResponse)
    ensures form.None? ==> r == JsonResponse(false, "Internal server error", "", "", "")
    ensures form.Some? && fault ==> r == JsonResponse(false, "Error querying database", "", "", "")
    ensures form.Some? && !fault ==>
              && r.message == ""
              && r.startDate == Get(form.value, "start") && r.endDate == Get(form.value, "end")
              && r.roomId == Itoa(Atoi(Get(form.value, "room_id")).value)
              && (r.ok <==> forall x :: x in restrictions && x.roomId == Atoi(Get(form.value, "room_id")).value ==>
                    !Rooms.Overlaps(x, parse(Get(form.value, "start")).GetOr(ZeroTime), parse(Get(form.value, "end")).GetOr(ZeroTime)))
  {
    match form
    case None => JsonResponse(false, "Internal server error", "", "", "")
    case Some(f) =>
      var sd := Get(f, "start");
      var ed := Get(f, "end");
      var startDate := parse(sd).GetOr(ZeroTime);
      var endDate := parse(ed).GetOr(ZeroTime);
      var roomId := Atoi(Get(f, "room_id")).value;
      var available := Rooms.IsAvailable(restrictions, roomId, startDate, endDate, fault);
      if available.err.Some? then JsonResponse(false, "Error querying database", "", "", "")
      else JsonResponse(available.value, "", sd, ed, Itoa(roomId))
  }

  /** The room id in the answer reads back, through Atoi, as the id that was
      checked; an unparsable room id is reported as "0". */
  lemma AvailabilityJSONRoomIdReadsBack(restrictions: seq<Restriction>, form: Form, parse: string -> Option<Date>)
    ensures Atoi(AvailabilityJSON(restrictions, Some(form), parse, false).roomId) ==
              Parsed(Atoi(Get(form, "room_id")).value, None)
    ensures Atoi(Get(form, "room_id")).err == Some(ErrSyntax) ==>
              AvailabilityJSON(restrictions, Some(form), parse, false).roomId == "0"
  {
    AtoiItoa(Atoi(Get(form, "room_id")).value);
  }

  /** The JSON answer agrees with the store's IsAvailable on the same
      inputs: a stay that starts on the day another ends is reported ok. */
  lemma AvailabilityJSONAgreesWithIsAvailable(restrictions: seq<Restriction>, form: Form, parse: string -> Option<Date>)
    ensures AvailabilityJSON(restrictions, Some(form), parse, false).ok ==
              Rooms.IsAvailable(restrictions, Atoi(Get(form, "room_id")).value,
                                parse(Get(form, "start")).GetOr(ZeroTime), parse(Get(form, "end")).GetOr(ZeroTime), false).value
  {
  }

  // ----- the handlers -----

  class Handlers {
    const rooms: Rooms.RoomTable
    const restrictions: RestrictionTable
    const reservations: Reservations.ReservationTable
    var errorLog: seq<LogEntry>
    var outbox: seq<MailMessage>

    ghost predicate Valid()
      reads this, rooms, restrictions, reservations
    {
      rooms.Valid() && restrictions.Valid() && reservations.Valid()
    }

    constructor (rooms: Rooms.RoomTable, restrictions: RestrictionTable, reservations: Reservations.ReservationTable)
      ensures this.rooms == rooms && this.restrictions == restrictions && this.reservations == reservations
      ensures errorLog == [] && outbox == []
    {
      this.rooms := rooms;
      this.restrictions := restrictions;
      this.reservations := reservations;
      errorLog := [];
      outbox := [];
    }

    /** The search form: both dates must parse, and when some room is free
        for them the session starts a reservation holding exactly those
        dates; when none is, the session gets the message "No rooms
        available". A date that does not parse, or a failed query, answers
        500 and leaves the session alone. Nothing is written to a table. */
    method PostAvailability(session: Session, form: Form, parse: string -> Option<Date>, fault: bool)
      returns (resp: Response)
      modifies session
      ensures parse(Get(form, "start")).None? || parse(Get(form, "end")).None? || fault ==>
                resp == Status(500) && session.values == old(session.values)
      ensures parse(Get(form, "start")).Some? && parse(Get(form, "end")).Some? && !fault ==>
                var start := parse(Get(form, "start")).value;
                var end := parse(Get(form, "end")).value;
                if Rooms.GetAnyAvailable(rooms.rows, restrictions.rows, start, end, false).value == [] then
                  resp == Redirect("/check/rooms") && session.values == old(session.values)["error" := Note("No rooms available")]
                else
                  resp == Page("available-rooms.page.tmpl")
                  && session.values == old(session.values)["reservation" := SessionValue.Held(Search(start, end))]
    {
      var startDate := parse(Get(form, "start"));
      if startDate.None? {
        return Status(500);
      }
      var endDate := parse(Get(form, "end"));
      if endDate.None? {
        return Status(500);
      }
      var found := Rooms.GetAnyAvailable(rooms.rows, restrictions.rows, startDate.value, endDate.value, fault);
      if found.err.Some? {
        return Status(500);
      }
      if |found.value| == 0 {
        session.values := session.values["error" := Note("No rooms available")];
        return Redirect("/check/rooms");
      }
      session.values := session.values["reservation" := SessionValue.Held(Search(startDate.value, endDate.value))];
      resp := Page("available-rooms.page.tmpl");
    }

    /** Picking a room from the list: the id in the path must parse, the
        session must hold a reservation and the room must exist; then the
        session reservation takes the room's id and name and keeps its
        dates. Any failure answers 500 and leaves the session alone. The
        room is not checked against the dates. */
    method ChooseRoom(session: Session, id: string, fault: bool) returns (resp: Response)
      modifies session
      ensures Atoi(id).err.Some? || old(session.Held()).None? ||
              Rooms.GetById(rooms.rows, Atoi(id).value, fault).err.Some? ==>
                resp == Status(500) && session.values == old(session.values)
      ensures Atoi(id).err.None? && old(session.Held()).Some? &&
              Rooms.GetById(rooms.rows, Atoi(id).value, fault).err.None? ==>
                var res := old(session.Held()).value;
                var room := Rooms.GetById(rooms.rows, Atoi(id).value, fault).value;
                && resp == Redirect("/bookings/reservation")
                && session.values == old(session.values)["reservation" :=
                     SessionValue.Held(res.(room := res.room.(name := room.name), roomId := Atoi(id).value))]
                && room in rooms.rows && room.id == Atoi(id).value
    {
      var roomID := Atoi(id);
      if roomID.err.Some? {
        return Status(500);
      }
      var held := session.Held();
      if held.None? {
        return Status(500);
      }
      var room := Rooms.GetById(rooms.rows, roomID.value, fault);
      if room.err.Some? {
        return Status(500);
      }
      var res := held.value;
      res := res.(room := res.room.(name := room.value.name));
      res := res.(roomId := roomID.value);
      session.values := session.values["reservation" := SessionValue.Held(res)];
      resp := Redirect("/bookings/reservation");
    }

    /** The `Reservation` handler, which shows the guest form: it refreshes
        the room name of the session reservation from the rooms table. With
        no reservation in the session it leaves the message "can't get
        reservation from session" and redirects home; a failed room lookup
        is only logged. */
    method ReservationPage(session: Session, fault: bool) returns (resp: Response)
      modifies this, session
      ensures outbox == old(outbox)
      ensures old(session.Held()).None? ==>
                && resp == Redirect("/")
                && session.values == old(session.values)["error" := Note("can't get reservation from session")]
                && errorLog == old(errorLog)
      ensures old(session.Held()).Some? ==>
                var res := old(session.Held()).value;
                var room := Rooms.GetById(rooms.rows, res.roomId, fault);
                if room.err.Some? then
                  resp == Empty && session.values == old(session.values)
                  && errorLog == old(errorLog) + [RoomLookupFailed(room.err.value)]
                else
                  resp == Page("make-reservation.page.tmpl") && errorLog == old(errorLog)
                  && session.values == old(session.values)["reservation" :=
                       SessionValue.Held(res.(room := res.room.(name := room.value.name)))]
    {
      var held := session.Held();
      if held.None? {
        session.values := session.values["error" := Note("can't get reservation from session")];
        return Redirect("/");
      }
      var res := held.value;
      var room := Rooms.GetById(rooms.rows, res.roomId, fault);
      if room.err.Some? {
        errorLog := errorLog + [RoomLookupFailed(room.err.value)];
        return Empty;
      }
      res := res.(room := res.room.(name := room.value.name));
      session.values := session.values["reservation" := SessionValue.Held(res)];
      resp := Page("make-reservation.page.tmpl");
    }

    /** The commit. The guest fields are read from the form (None: the body
        cannot be parsed) into the session reservation and validated; an
        invalid form re-renders the page and writes nothing. Otherwise the
        reservation is inserted and, when that succeeds under id N, one
        restriction over the same nights and room, tied to N, is inserted
        after it; availability is not looked at again. The confirmation
        mail is handed over; a mail failure (`mailErr`) is only logged; the
        session keeps the reservation, with its new id and the guest fields
        as entered, for the summary. A failed reservation insert is logged
        and nothing else happens; a failed restriction insert is not noticed
        at all (`restrictFault`). */
    method PostReservation(session: Session, form: Option<Form>, isEmail: string -> bool,
                           reserveFault: bool, restrictFault: bool, mailErr: Option<string>)
      returns (resp: Response)
      requires Valid()
      modifies this, session, reservations, restrictions
      ensures Valid()
      ensures old(session.Held()).None? || form.None? ==>
                && resp == Empty && session.values == old(session.values)
                && reservations.rows == old(reservations.rows) && restrictions.rows == old(restrictions.rows)
                && outbox == old(outbox)
                && errorLog == old(errorLog) + [if old(session.Held()).None? then NoReservationInSession else FormUnparsable]
      ensures old(session.Held()).Some? && form.Some? && Reservations.Validate(form.value, isEmail) != [] ==>
                && resp == Page("make-reservation.page.tmpl") && session.values == old(session.values)
                && reservations.rows == old(reservations.rows) && restrictions.rows == old(restrictions.rows)
                && outbox == old(outbox) && errorLog == old(errorLog)
      ensures old(session.Held()).Some? && form.Some? && Reservations.Validate(form.value, isEmail) == [] && reserveFault ==>
                && resp == Empty && session.values == old(session.values)
                && reservations.rows == old(reservations.rows) && restrictions.rows == old(restrictions.rows)
                && outbox == old(outbox) && errorLog == old(errorLog) + [InsertFailed(QueryFailed)]
      ensures old(session.Held()).Some? && form.Some? && Reservations.Validate(form.value, isEmail) == [] && !reserveFault ==>
                var res := Filled(old(session.Held()).value, form.value);
                var id := old(reservations.nextId);
                && reservations.rows == old(reservations.rows) + [Reservations.Stored(res, id)]
                && (restrictFault ==> restrictions.rows == old(restrictions.rows))
                && (!restrictFault ==>
                      restrictions.rows == old(restrictions.rows) + [Blocking(res, id).(id := old(restrictions.nextId))])
                && outbox == old(outbox) + [Confirmation(res.(id := id))]
                && errorLog == old(errorLog) + (if mailErr.Some? then [MailFailed(mailErr.value)] else [])
                && session.values == old(session.values)["reservation" := SessionValue.Held(res.(id := id))]
                && resp == Redirect("/booking/reservation-summary")
    {
      var held := session.Held();
      if held.None? {
        errorLog := errorLog + [NoReservationInSession];
        return Empty;
      }
      if form.None? {
        errorLog := errorLog + [FormUnparsable];
        return Empty;
      }
      var res := Filled(held.value, form.value);
      if Reservations.Validate(form.value, isEmail) != [] {
        return Page("make-reservation.page.tmpl");
      }
      var newResId, err := reservations.Create(res, reserveFault);
      if err.Some? {
        errorLog := errorLog + [InsertFailed(err.value)];
        return Empty;
      }
      res := res.(id := newResId);
      // Restrictions.Create reports success whatever happens, so the
      // handler's error branch after it is never taken.
      var _ := restrictions.Create(Blocking(res, newResId), restrictFault);
      outbox := outbox + [Confirmation(res)];
      if mailErr.Some? {
        errorLog := errorLog + [MailFailed(mailErr.value)];
      }
      session.values := session.values["reservation" := SessionValue.Held(res)];
      resp := Redirect("/booking/reservation-summary");
    }

    /** The summary takes the reservation out of the session. With none
        there it leaves the message "can't get reservation from session" and
        redirects home. */
    method ReservationSummary(session: Session) returns (resp: Response)
      modifies session
      ensures old(session.Held()).None? ==>
                resp == Redirect("/")
                && session.values == old(session.values)["error" := Note("can't get reservation from session")]
      ensures old(session.Held()).Some? ==>
                resp == Page("reservation-summary.page.tmpl") && session.values == old(session.values) - {"reservation"}
    {
      var held := session.Held();
      if held.None? {
        session.values := session.values["error" := Note("can't get reservation from session")];
        return Redirect("/");
      }
      session.values := session.values - {"reservation"};
      resp := Page("reservation-summary.page.tmpl");
    }

    /** "Book now" on a room page: the query string's room id (read with
        Atoi, errors ignored), start `s` and end `e` (unparsable dates read
        as the zero date) become a fresh session reservation carrying the
        room's name. A failed room lookup answers 500 and leaves the session
        alone. */
    method BookRoom(session: Session, query: Form, parse: string -> Option<Date>, fault: bool) returns (resp: Response)
      modifies session
      ensures Rooms.GetById(rooms.rows, Atoi(Get(query, "id")).value, fault).err.Some? ==>
                resp == Status(500) && session.values == old(session.values)
      ensures Rooms.GetById(rooms.rows, Atoi(Get(query, "id")).value, fault).err.None? ==>
                var roomId := Atoi(Get(query, "id")).value;
                && resp == Redirect("/bookings/reservation")
                && session.values == old(session.values)["reservation" := SessionValue.Held(
                     Search(parse(Get(query, "s")).GetOr(ZeroTime), parse(Get(query, "e")).GetOr(ZeroTime)).(
                       room := Rooms.Room(0, Rooms.GetById(rooms.rows, roomId, fault).value.name), roomId := roomId))]
    {
      var roomID := Atoi(Get(query, "id")).value;
      var startDate := parse(Get(query, "s")).GetOr(ZeroTime);
      var endDate := parse(Get(query, "e")).GetOr(ZeroTime);
      var room := Rooms.GetById(rooms.rows, roomID, fault);
      if room.err.Some? {
        return Status(500);
      }
      var res := Reservations.ZeroReservation;
      res := res.(room := res.room.(name := room.value.name));
      res := res.(roomId := roomID);
      res := res.(startDate := startDate);
      res := res.(endDate := endDate);
      session.values := session.values["reservation" := SessionValue.Held(res)];
      resp := Redirect("/bookings/reservation");
    }
  }
}
