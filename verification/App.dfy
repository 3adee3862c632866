/**
  The check-in and check-out pages of the web front end: what each does with a
  captured face and the operator's input, split into a pure decision and the
  write it leads to.

  `check_existing_guest` and `update_guest` are not part of this model: the
  first one's answer is an input (`existing`), and a confirmed re-check-in is
  returned as a request carrying the arguments `update_guest` would receive.
 */
module App {
  import opened Schema
  import opened GuestCheckIn
  import opened GuestCheckOut
  import opened Stats

  /** The tuple (id, name, phone, status) that `check_existing_guest` reports for a known face. */
  datatype MatchedGuest = MatchedGuest(guestId: int, name: string, phone: string, status: Status)

  /** The returning guest's widgets: optional new name and phone, and the confirm button. */
  datatype ProfileEdit = ProfileEdit(newName: Option<string>, newPhone: Option<string>, confirmed: bool)

  /** The new guest's form: name and phone fields, and the submit button. */
  datatype EnrolForm = EnrolForm(name: string, phone: string, submitted: bool)

  datatype CheckInResult =
    | CheckInNoFace
    | AlreadyCheckedIn(guestId: int, name: string)
    | AwaitingConfirmation(guestId: int, name: string)
    | ResumeRequested(guestId: int, name: string, phone: string, encoding: Encoding)
    | AwaitingForm
    | Enrolled(name: string, phone: string, encoding: Encoding)

  /**
    The check-in page: no face, nothing; a known face that is checked in is
    refused; a known face that is not checked in asks for confirmation and then
    goes to `update_guest`; an unknown face goes to enrolment once the form is
    submitted.
   */
  function CheckInDecision(probe: Option<Encoding>, existing: Option<MatchedGuest>,
                           edit: ProfileEdit, form: EnrolForm): (r: CheckInResult)
    ensures r.CheckInNoFace? <==> probe.None?
    ensures r.AlreadyCheckedIn? <==> probe.Some? && existing.Some? && existing.value.status == CheckedIn
    ensures r.ResumeRequested? <==>
      probe.Some? && existing.Some? && existing.value.status != CheckedIn && edit.confirmed
    ensures r.Enrolled? <==> probe.Some? && existing.None? && form.submitted
    ensures r.AwaitingConfirmation? <==>
      probe.Some? && existing.Some? && existing.value.status != CheckedIn && !edit.confirmed
    ensures r.AwaitingForm? <==> probe.Some? && existing.None? && !form.submitted
    ensures (r.AlreadyCheckedIn? || r.AwaitingConfirmation?) ==>
      r.guestId == existing.value.guestId && r.name == existing.value.name
    ensures r.ResumeRequested? ==>
      && r.guestId == existing.value.guestId
      && r.name == (if edit.newName.Some? then edit.newName.value else existing.value.name)
      && r.phone == (if edit.newPhone.Some? then edit.newPhone.value else existing.value.phone)
      && r.encoding == probe.value
    ensures r.Enrolled? ==> r.name == form.name && r.phone == form.phone && r.encoding == probe.value
  {
    match probe
    case None => CheckInNoFace
    case Some(encoding) =>
      match existing
      case Some(MatchedGuest(guestId, name, phone, status)) =>
        if status == CheckedIn then AlreadyCheckedIn(guestId, name)
        else
          var name' := match edit.newName { case Some(n) => n case None => name };
          var phone' := match edit.newPhone { case Some(p) => p case None => phone };
          if edit.confirmed then ResumeRequested(guestId, name', phone', encoding)
          else AwaitingConfirmation(guestId, name)
      case None =>
        if form.submitted then Enrolled(form.name, form.phone, encoding) else AwaitingForm
  }

  /**
    The check-in page's write: an enrolment goes through save_guest. A
    confirmed re-check-in is returned as `ResumeRequested` and not applied
    (`update_guest` is not part of this model). Every other outcome, including
    a refused guest who is already checked in, writes nothing.
   */
  method DispatchCheckIn(db: Database, probe: Option<Encoding>, existing: Option<MatchedGuest>,
                         edit: ProfileEdit, form: EnrolForm, now: Timestamp) returns (r: CheckInResult)
    requires db.Valid()
    modifies db
    ensures db.Valid()
    ensures r == CheckInDecision(probe, existing, edit, form)
    ensures r.Enrolled? ==>
      && db.guests == old(db.guests) + [NewGuest(old(db.nextGuestId), form.name, form.phone, probe.value, now)]
      && db.stats == old(db.stats) + [CheckInEvent(now)]
    ensures !r.Enrolled? ==> db.guests == old(db.guests) && db.stats == old(db.stats)
    ensures db.nextGuestId == old(db.nextGuestId) + (if r.Enrolled? then 1 else 0)
  {
    r := CheckInDecision(probe, existing, edit, form);
    if r.Enrolled? {
      SaveGuest(db, r.name, r.phone, r.encoding, now);
    }
  }

  datatype CheckOutResult =
    | CheckOutNoFace
    | NoGuestsCheckedIn
    | GuestNotFound
    | CheckedOutGuest(guestId: int, name: string)

  /**
    The check-out page: with a face and a non-empty checked-in list, the probe
    is compared with every listed encoding and the first matching entry is the
    guest to check out. Stated against the table itself: that guest is the
    first checked-in row, in table order, whose encoding matches.
   */
  function CheckOutDecision(guests: seq<Guest>, probe: Option<Encoding>, same: (Encoding, Encoding) -> bool)
    : (r: CheckOutResult)
    ensures r.CheckOutNoFace? <==> probe.None?
    ensures r.NoGuestsCheckedIn? <==>
      probe.Some? && forall i :: 0 <= i < |guests| ==> guests[i].status != CheckedIn
    ensures r.GuestNotFound? <==>
      && probe.Some?
      && (exists i :: 0 <= i < |guests| && guests[i].status == CheckedIn)
      && FirstPresentMatch(guests, probe.value, same).None?
    ensures r.CheckedOutGuest? <==> probe.Some? && FirstPresentMatch(guests, probe.value, same).Some?
    ensures r.CheckedOutGuest? ==>
      && r.guestId == guests[FirstPresentMatch(guests, probe.value, same).value].id
      && r.name == guests[FirstPresentMatch(guests, probe.value, same).value].name
  {
    match probe
    case None => CheckOutNoFace
    case Some(encoding) =>
      var checkedIn := CheckedInGuests(guests);
      CheckedInGuestsEmpty(guests);
      FilteredMatchAgrees(guests, encoding, same);
      if checkedIn == [] then
        NoGuestsCheckedIn
      else
        var matches := CompareFaces(checkedIn, encoding, same);
        if true in matches then
          var firstMatchIndex := FirstTrue(matches).value;
          CheckedOutGuest(checkedIn[firstMatchIndex].id, checkedIn[firstMatchIndex].name)
        else
          GuestNotFound
  }

  /**
    The check-out page's write: only a match checks a guest out, through
    update_checkout; no face, an empty list or no matching entry leaves both
    tables as they were.
   */
  method DispatchCheckOut(db: Database, probe: Option<Encoding>, same: (Encoding, Encoding) -> bool, now: Timestamp)
    returns (r: CheckOutResult)
    requires db.Valid()
    modifies db
    ensures db.Valid()
    ensures r == CheckOutDecision(old(db.guests), probe, same)
    ensures r.CheckedOutGuest? ==>
      && db.guests == CheckoutRows(old(db.guests), r.guestId, now)
      && db.stats == old(db.stats) + [CheckoutEvent(r.guestId, now)]
    ensures !r.CheckedOutGuest? ==> db.guests == old(db.guests) && db.stats == old(db.stats)
    ensures db.nextGuestId == old(db.nextGuestId)
    ensures r.CheckedOutGuest? ==>
      && Reported(GetStats(db.stats), CheckOut) == Reported(GetStats(old(db.stats)), CheckOut) + 1
      && Reported(GetStats(db.stats), CheckIn) == Reported(GetStats(old(db.stats)), CheckIn)
  {
    r := CheckOutDecision(db.guests, probe, same);
    if r.CheckedOutGuest? {
      CheckOutEventTotals(db.stats, r.guestId, now);
      UpdateCheckout(db, r.guestId, now);
    }
  }

  /** A check-out event raises the check-out total by one and leaves the check-in total alone. */
  lemma CheckOutEventTotals(log: seq<StatEvent>, guestId: int, now: Timestamp)
    ensures Reported(GetStats(log + [CheckoutEvent(guestId, now)]), CheckOut) == Reported(GetStats(log), CheckOut) + 1
    ensures Reported(GetStats(log + [CheckoutEvent(guestId, now)]), CheckIn) == Reported(GetStats(log), CheckIn)
  {
    ReportedAfterAppend(log, CheckoutEvent(guestId, now), CheckOut);
    ReportedAfterAppend(log, CheckoutEvent(guestId, now), CheckIn);
  }

  /** An enrolment raises the check-in total by one and leaves the check-out total alone. */
  lemma CheckInEventTotals(log: seq<StatEvent>, now: Timestamp)
    ensures Reported(GetStats(log + [CheckInEvent(now)]), CheckIn) == Reported(GetStats(log), CheckIn) + 1
    ensures Reported(GetStats(log + [CheckInEvent(now)]), CheckOut) == Reported(GetStats(log), CheckOut)
  {
    ReportedAfterAppend(log, CheckInEvent(now), CheckIn);
    ReportedAfterAppend(log, CheckInEvent(now), CheckOut);
  }

  /**
    The guest the check-out page picks was checked in; once checked out, no
    probe can pick that guest again until some other write checks them back in.
   */
  lemma NoSecondCheckOut(guests: seq<Guest>, probe: Option<Encoding>, probe': Option<Encoding>,
                         same: (Encoding, Encoding) -> bool, now: Timestamp)
    requires probe.Some? && FirstPresentMatch(guests, probe.value, same).Some?
    ensures CheckOutDecision(guests, probe, same).CheckedOutGuest?
    ensures exists i :: 0 <= i < |guests| && guests[i].id == CheckOutDecision(guests, probe, same).guestId
                        && guests[i].status == CheckedIn
    ensures var g := CheckOutDecision(guests, probe, same).guestId;
            var r' := CheckOutDecision(CheckoutRows(guests, g, now), probe', same);
            r'.CheckedOutGuest? ==> r'.guestId != g
  {
  }

  /**
    A guest enrolled with encoding `e` is found at once by a check-out probe
    `e` (given a comparator that matches an encoding with itself), and it is
    that guest who is picked exactly when no earlier checked-in guest matches `e`.
   */
  lemma EnrolThenCheckOut(guests: seq<Guest>, nextId: int, name: string, phone: string,
                          encoding: Encoding, now: Timestamp, same: (Encoding, Encoding) -> bool)
    requires WellFormed(guests, nextId)
    requires same(encoding, encoding)
    ensures var r := CheckOutDecision(guests + [NewGuest(nextId, name, phone, encoding, now)], Some(encoding), same);
      && r.CheckedOutGuest?
      && (r.guestId == nextId <==> FirstPresentMatch(guests, encoding, same).None?)
  {
    var g := NewGuest(nextId, name, phone, encoding, now);
    var after := guests + [g];
    assert PresentMatch(after[|guests|], encoding, same);
    var m := FirstPresentMatch(guests, encoding, same);
    var m' := FirstPresentMatch(after, encoding, same);
    if m.Some? {
      var j := m.value;
      assert after[j] == guests[j];
      if m'.value < j {
        assert false;
      } else if m'.value > j {
        assert false;
      }
      assert guests[j].id < nextId;
    } else {
      if m'.value < |guests| {
        assert false;
      }
    }
  }
}
