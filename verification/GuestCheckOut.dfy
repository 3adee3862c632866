/**
  Check-out: the list of guests currently checked in, the face comparison
  against that list, the choice of the first matching entry, the update that
  marks a guest as checked out, and the console loop that ties them together.

  The face comparator is a parameter `same(known, probe)`: one yes/no per
  stored encoding, as the external face-recognition library answers it.
 */
module GuestCheckOut {
  import opened Schema

  /** One entry of the checked-in list: the columns (id, name, face_encoding). */
  datatype PresentGuest = PresentGuest(id: int, name: string, encoding: Encoding)

  function Present(g: Guest): PresentGuest
  {
    PresentGuest(g.id, g.name, g.encoding)
  }

  /** get_checked_in_guests: the rows whose status is "checked_in", in table order. */
  function CheckedInGuests(rows: seq<Guest>): (r: seq<PresentGuest>)
    ensures |r| <= |rows|
  {
    if rows == [] then []
    else (if rows[0].status == CheckedIn then [Present(rows[0])] else []) + CheckedInGuests(rows[1..])
  }

  /** The checked-in list holds exactly the (id, name, encoding) of the checked-in rows. */
  lemma {:induction false} CheckedInGuestsExact(rows: seq<Guest>)
    ensures forall c :: c in CheckedInGuests(rows) <==>
      exists i :: 0 <= i < |rows| && rows[i].status == CheckedIn && c == Present(rows[i])
  {
    if rows != [] {
      var rest := rows[1..];
      CheckedInGuestsExact(rest);
      forall c | c in CheckedInGuests(rows)
        ensures exists i :: 0 <= i < |rows| && rows[i].status == CheckedIn && c == Present(rows[i])
      {
        if !(rows[0].status == CheckedIn && c == Present(rows[0])) {
          assert c in CheckedInGuests(rest);
          var i :| 0 <= i < |rest| && rest[i].status == CheckedIn && c == Present(rest[i]);
          assert rows[i + 1] == rest[i];
        }
      }
      forall c, i | 0 <= i < |rows| && rows[i].status == CheckedIn && c == Present(rows[i])
        ensures c in CheckedInGuests(rows)
      {
        if i > 0 {
          assert rest[i - 1] == rows[i];
        }
      }
    }
  }

  /** The checked-in list is empty exactly when no row is checked in. */
  lemma CheckedInGuestsEmpty(rows: seq<Guest>)
    ensures CheckedInGuests(rows) == [] <==> forall i :: 0 <= i < |rows| ==> rows[i].status != CheckedIn
  {
    CheckedInGuestsExact(rows);
    if CheckedInGuests(rows) != [] {
      assert CheckedInGuests(rows)[0] in CheckedInGuests(rows);
    } else {
      forall i | 0 <= i < |rows| ensures rows[i].status != CheckedIn {
        assert Present(rows[i]) !in CheckedInGuests(rows);
      }
    }
  }

  /** A row appended to the table lands at the end of the checked-in list, if it is checked in. */
  lemma {:induction false} CheckedInGuestsAppend(rows: seq<Guest>, g: Guest)
    ensures CheckedInGuests(rows + [g]) ==
      CheckedInGuests(rows) + (if g.status == CheckedIn then [Present(g)] else [])
  {
    if rows == [] {
      assert rows + [g] == [g];
    } else {
      assert (rows + [g])[1..] == rows[1..] + [g];
      CheckedInGuestsAppend(rows[1..], g);
    }
  }

  /** compare_faces(known, probe): one flag per known encoding, in list order. */
  function CompareFaces(known: seq<PresentGuest>, probe: Encoding, same: (Encoding, Encoding) -> bool): seq<bool>
  {
    seq(|known|, i requires 0 <= i < |known| => same(known[i].encoding, probe))
  }

  /**
    `True in matches` and `matches.index(True)`: no index when no flag is set,
    otherwise the position of the first set flag.
   */
  function FirstTrue(flags: seq<bool>): (r: Option<nat>)
    ensures r.None? <==> true !in flags
    ensures r.Some? ==> r.value < |flags| && flags[r.value]
    ensures r.Some? ==> forall j :: 0 <= j < r.value ==> !flags[j]
  {
    if flags == [] then None
    else if flags[0] then Some(0)
    else match FirstTrue(flags[1..]) {
      case None => None
      case Some(i) => Some(i + 1)
    }
  }

  /** A row the check-out matcher can pick: checked in, and its encoding matches the probe. */
  predicate PresentMatch(g: Guest, probe: Encoding, same: (Encoding, Encoding) -> bool)
  {
    g.status == CheckedIn && same(g.encoding, probe)
  }

  /**
    Reference matcher over the whole table, with no intermediate list: the
    position of the first row, in table order, that is checked in and matches.
   */
  function FirstPresentMatch(rows: seq<Guest>, probe: Encoding, same: (Encoding, Encoding) -> bool): (r: Option<nat>)
    ensures r.None? <==> forall i :: 0 <= i < |rows| ==> !PresentMatch(rows[i], probe, same)
    ensures r.Some? ==> r.value < |rows| && PresentMatch(rows[r.value], probe, same)
    ensures r.Some? ==> forall j :: 0 <= j < r.value ==> !PresentMatch(rows[j], probe, same)
  {
    if rows == [] then None
    else if PresentMatch(rows[0], probe, same) then Some(0)
    else match FirstPresentMatch(rows[1..], probe, same) {
      case None => None
      case Some(i) => Some(i + 1)
    }
  }

  /**
    The source's route (filter the checked-in rows, compare the probe with each,
    take the first set flag) selects the same guest as the reference matcher.
   */
  lemma {:induction false} FilteredMatchAgrees(rows: seq<Guest>, probe: Encoding, same: (Encoding, Encoding) -> bool)
    ensures FirstTrue(CompareFaces(CheckedInGuests(rows), probe, same)).None? ==
            FirstPresentMatch(rows, probe, same).None?
    ensures FirstTrue(CompareFaces(CheckedInGuests(rows), probe, same)).Some? ==>
            FirstTrue(CompareFaces(CheckedInGuests(rows), probe, same)).value < |CheckedInGuests(rows)| &&
            CheckedInGuests(rows)[FirstTrue(CompareFaces(CheckedInGuests(rows), probe, same)).value] ==
            Present(rows[FirstPresentMatch(rows, probe, same).value])
  {
    if rows != [] {
      var rest := rows[1..];
      FilteredMatchAgrees(rest, probe, same);
      var known, known' := CheckedInGuests(rows), CheckedInGuests(rest);
      var flags, flags' := CompareFaces(known, probe, same), CompareFaces(known', probe, same);
      if rows[0].status == CheckedIn {
        assert known == [Present(rows[0])] + known';
        assert flags[0] == same(rows[0].encoding, probe);
        assert flags[1..] == flags';
      } else {
        assert known == known';
      }
    }
  }

  /** The row after `UPDATE guests SET status = "checked_out", checkout_time = now`. */
  function CheckedOutRow(g: Guest, now: Timestamp): Guest
  {
    g.(status := CheckedOut, checkoutTime := Some(now))
  }

  /** The table after that update `WHERE id = guestId`. */
  function CheckoutRows(rows: seq<Guest>, guestId: int, now: Timestamp): seq<Guest>
  {
    seq(|rows|, i requires 0 <= i < |rows| => if rows[i].id == guestId then CheckedOutRow(rows[i], now) else rows[i])
  }

  /** The event `update_checkout` appends: it names the guest. */
  function CheckoutEvent(guestId: int, now: Timestamp): StatEvent
  {
    StatEvent(Some(guestId), CheckOut, 1, now)
  }

  /** After checking out `guestId`, the checked-in list is the old one without that id. */
  lemma CheckedInAfterCheckout(rows: seq<Guest>, guestId: int, now: Timestamp)
    ensures forall c :: c in CheckedInGuests(CheckoutRows(rows, guestId, now)) <==>
      c in CheckedInGuests(rows) && c.id != guestId
  {
    var after := CheckoutRows(rows, guestId, now);
    CheckedInGuestsExact(rows);
    CheckedInGuestsExact(after);
    forall c | c in CheckedInGuests(rows) && c.id != guestId
      ensures c in CheckedInGuests(after)
    {
      var i :| 0 <= i < |rows| && rows[i].status == CheckedIn && c == Present(rows[i]);
      assert after[i] == rows[i];
    }
  }

  /**
    update_checkout: sets status and checkout time of the rows with that id and
    appends one `check_out` event naming the guest. It does not look at the
    current status: an unknown id leaves the table as it is and still logs the event.
   */
  method UpdateCheckout(db: Database, guestId: int, now: Timestamp)
    requires db.Valid()
    modifies db
    ensures db.Valid()
    ensures db.nextGuestId == old(db.nextGuestId)
    ensures db.guests == CheckoutRows(old(db.guests), guestId, now)
    ensures (forall i :: 0 <= i < |old(db.guests)| ==> old(db.guests)[i].id != guestId) ==> db.guests == old(db.guests)
    ensures db.stats == old(db.stats) + [CheckoutEvent(guestId, now)]
  {
    db.guests := CheckoutRows(db.guests, guestId, now);
    db.stats := db.stats + [CheckoutEvent(guestId, now)];
  }

  /** Where the console loop found its match: frame, face in that frame, index in the list. */
  datatype Hit = Hit(frame: nat, face: nat, index: nat)

  /** No face before position (frame, face), in capture order, matches anyone on the list. */
  predicate NoMatchBefore(known: seq<PresentGuest>, frames: seq<seq<Encoding>>,
                          same: (Encoding, Encoding) -> bool, frame: nat, face: nat)
    requires frame <= |frames|
    requires frame < |frames| ==> face <= |frames[frame]|
  {
    && (forall f, k :: 0 <= f < frame && 0 <= k < |frames[f]| ==> true !in CompareFaces(known, frames[f][k], same))
    && (frame < |frames| ==> forall k :: 0 <= k < face ==> true !in CompareFaces(known, frames[frame][k], same))
  }

  /** `h` is the first face, in capture order, that matches, and the list entry it picked. */
  predicate IsFirstHit(known: seq<PresentGuest>, frames: seq<seq<Encoding>>,
                       same: (Encoding, Encoding) -> bool, h: Hit)
  {
    && h.frame < |frames|
    && h.face < |frames[h.frame]|
    && FirstTrue(CompareFaces(known, frames[h.frame][h.face], same)) == Some(h.index)
    && NoMatchBefore(known, frames, same, h.frame, h.face)
  }

  /** There is at most one first hit: the loop's choice is deterministic. */
  lemma FirstHitUnique(known: seq<PresentGuest>, frames: seq<seq<Encoding>>,
                       same: (Encoding, Encoding) -> bool, h1: Hit, h2: Hit)
    requires IsFirstHit(known, frames, same, h1) && IsFirstHit(known, frames, same, h2)
    ensures h1 == h2
  {
  }

  /**
    The search of the console loop: frames in capture order, the faces found in
    each frame in order, and for each face the comparison against the whole
    list; it stops at the first face with a set flag. No hit means the loop ran
    out of frames (the operator quit) with no face matching anyone.
   */
  method FindMatchingFace(known: seq<PresentGuest>, frames: seq<seq<Encoding>>,
                          same: (Encoding, Encoding) -> bool) returns (hit: Option<Hit>)
    ensures hit.None? ==> NoMatchBefore(known, frames, same, |frames|, 0)
    ensures hit.Some? ==> IsFirstHit(known, frames, same, hit.value) && hit.value.index < |known|
  {
    var f := 0;
    while f < |frames|
      invariant f <= |frames|
      invariant NoMatchBefore(known, frames, same, f, 0)
    {
      var k := 0;
      while k < |frames[f]|
        invariant k <= |frames[f]|
        invariant NoMatchBefore(known, frames, same, f, k)
      {
        var matches := CompareFaces(known, frames[f][k], same);
        if true in matches {
          var firstMatchIndex := FirstTrue(matches).value;
          return Some(Hit(f, k, firstMatchIndex));
        }
        k := k + 1;
      }
      f := f + 1;
    }
    return None;
  }

  /** How the console check-out ends. */
  datatype CliOutcome = NoCheckedInGuests | Quit | GuestCheckedOut(guestId: int, name: string)

  /**
    The console check-out: the checked-in list is read once; with an empty list
    nothing happens; otherwise the first matching face checks out the list entry
    it picked, and running out of frames changes nothing.
   */
  method CheckOutCli(db: Database, frames: seq<seq<Encoding>>, same: (Encoding, Encoding) -> bool, now: Timestamp)
    returns (out: CliOutcome)
    requires db.Valid()
    modifies db
    ensures db.Valid()
    ensures out.NoCheckedInGuests? <==> CheckedInGuests(old(db.guests)) == []
    ensures out.GuestCheckedOut? ==>
      exists h :: IsFirstHit(CheckedInGuests(old(db.guests)), frames, same, h) &&
        h.index < |CheckedInGuests(old(db.guests))| &&
        CheckedInGuests(old(db.guests))[h.index].id == out.guestId &&
        CheckedInGuests(old(db.guests))[h.index].name == out.name
    ensures out.Quit? ==> NoMatchBefore(CheckedInGuests(old(db.guests)), frames, same, |frames|, 0)
    ensures out.GuestCheckedOut? ==>
      db.guests == CheckoutRows(old(db.guests), out.guestId, now) &&
      db.stats == old(db.stats) + [CheckoutEvent(out.guestId, now)]
    ensures !out.GuestCheckedOut? ==> db.guests == old(db.guests) && db.stats == old(db.stats)
    ensures db.nextGuestId == old(db.nextGuestId)
  {
    var guests := CheckedInGuests(db.guests);
    if guests == [] {
      return NoCheckedInGuests;
    }
    var hit := FindMatchingFace(guests, frames, same);
    match hit {
      case None =>
        out := Quit;
      case Some(h) =>
        var guestId, name := guests[h.index].id, guests[h.index].name;
        UpdateCheckout(db, guestId, now);
        out := GuestCheckedOut(guestId, name);
    }
  }
}
