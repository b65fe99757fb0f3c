/**
 Taking a test guest away from a cluster that resumes it, locks it and fails requests as it
 likes. Every step but the last look may fail without anyone noticing.
 */
module Destroy {
  import opened Wrappers

  datatype Guest = Gone | There(running: bool, locked: bool)

  /** What the cluster does on its own before answering a request. */
  datatype Drift = Still | Resumes | Halts | Locks | Unlocks

  /** How one request goes: what came first, whether it is obeyed, and whether the caller sees an error. */
  datatype Turn = Turn(drift: Drift, obeyed: bool, fails: bool)

  function Drifted(g: Guest, d: Drift): Guest {
    if g.Gone? then g
    else match d
      case Still => g
      case Resumes => g.(running := true)
      case Halts => g.(running := false)
      case Locks => g.(locked := true)
      case Unlocks => g.(locked := false)
  }

  function Halted(g: Guest, obeyed: bool): Guest {
    if g.There? && obeyed then g.(running := false) else g
  }

  /** A look that this turn answers finds the guest running. */
  predicate RunsWhenSeen(g: Guest, turn: Turn) {
    !turn.fails && g.There? && Drifted(g, turn.drift).running
  }

  datatype Look = Absent | Present(stopped: bool) | LookFails

  datatype End = Returned | StillThere(deleteFailed: bool) | Raised

  class Cluster {
    const turns: nat -> Turn
    var now: nat
    var guest: Guest
    var stops: nat      // requests to stop
    var deletes: nat    // requests to delete
    var obeyed: nat     // those of them that took the guest away

    constructor (turns: nat -> Turn, guest: Guest)
      ensures this.turns == turns && now == 0 && this.guest == guest && stops == deletes == obeyed == 0
    {
      this.turns, now, this.guest, stops, deletes, obeyed := turns, 0, guest, 0, 0, 0;
    }

    /** pve.get(.../status/current): PVEError when there is no such guest; other errors at any time. */
    method Status() returns (look: Look)
      modifies this`now, this`guest
      ensures now == old(now) + 1
      ensures guest == Drifted(old(guest), turns(old(now)).drift)
      ensures look == if turns(old(now)).fails then LookFails
                      else match guest case Gone => Absent case There(running, _) => Present(!running)
    {
      var turn := turns(now);
      guest := Drifted(guest, turn.drift);
      now := now + 1;
      look := if turn.fails then LookFails
              else match guest case Gone => Absent case There(running, _) => Present(!running);
    }

    method AskStop() returns (ok: bool)
      modifies this`now, this`guest, this`stops
      ensures now == old(now) + 1 && stops == old(stops) + 1
      ensures guest == Halted(Drifted(old(guest), turns(old(now)).drift), turns(old(now)).obeyed)
      ensures ok <==> !turns(old(now)).fails
    {
      var turn := turns(now);
      guest := Drifted(guest, turn.drift);
      if turn.obeyed && guest.There? {
        guest := guest.(running := false);
      }
      now, stops := now + 1, stops + 1;
      ok := !turn.fails;
    }

    /** A delete may work and still be reported as failed, or the other way round. */
    method AskDelete() returns (ok: bool)
      modifies this`now, this`guest, this`deletes, this`obeyed
      ensures now == old(now) + 1 && deletes == old(deletes) + 1
      ensures ok <==> !turns(old(now)).fails
      ensures guest == if turns(old(now)).obeyed then Gone else Drifted(old(guest), turns(old(now)).drift)
      ensures obeyed == old(obeyed) + if old(guest).There? && guest.Gone? then 1 else 0
    {
      var turn := turns(now);
      ok := !turn.fails;
      if turn.obeyed && guest.There? {
        guest, obeyed := Gone, obeyed + 1;
      } else {
        guest := Drifted(guest, turn.drift);
      }
      now, deletes := now + 1, deletes + 1;
    }

    /** The last request was a look, and it showed a guest that does not run. */
    ghost predicate JustSeenStopped()
      reads this
    {
      now > 0 && !turns(now - 1).fails && guest.There? && !guest.running
    }

    /** wait_for a state to show: at most `polls` looks fit in its time. */
    method WaitStopped(polls: nat) returns (seen: bool)
      modifies this`now, this`guest
      ensures old(now) <= now <= old(now) + polls
      ensures guest.Gone? <==> old(guest).Gone?
      ensures seen ==> now > old(now) && JustSeenStopped()
    {
      for i := 0 to polls
        invariant old(now) <= now <= old(now) + i
        invariant guest.Gone? <==> old(guest).Gone?
      {
        var look := Status();
        if look == Present(true) {
          return true;
        }
      }
      return false;
    }

    method WaitUnlocked(polls: nat)
      modifies this`now, this`guest
      ensures old(now) <= now <= old(now) + polls
      ensures guest.Gone? <==> old(guest).Gone?
    {
      for i := 0 to polls
        invariant old(now) <= now <= old(now) + i
        invariant guest.Gone? <==> old(guest).Gone?
      {
        var look := Status();
        if look.Present? && guest.There? && !guest.locked {
          return;
        }
      }
    }

    /** One round of confirming that the guest is stopped; false if anything in it raised. */
    method StopRound() returns (confirmed: bool)
      modifies this`now, this`guest, this`stops
      ensures old(now) <= now <= old(now) + 77
      // A guest seen running is asked to stop, once; one seen stopped is not asked.
      ensures stops == old(stops) + if RunsWhenSeen(old(guest), turns(old(now))) then 1 else 0
      ensures confirmed ==> JustSeenStopped()
      ensures guest.Gone? <==> old(guest).Gone?
    {
      var look := Status();
      if !look.Present? {
        return false;
      }
      if !look.stopped {
        var ok := AskStop();
        if !ok {
          return false;
        }
        var stopped := WaitStopped(45);
        if !stopped {
          return false;
        }
      }
      confirmed := WaitStopped(30);
    }

    /** Up to three rounds; only three that failed leave it unconfirmed. */
    method ConfirmStopped() returns (confirmed: bool, rounds: nat)
      modifies this`now, this`guest, this`stops
      ensures rounds <= 3 && (confirmed || rounds == 3)
      ensures confirmed ==> JustSeenStopped()
      ensures old(now) <= now <= old(now) + rounds * 77
      ensures old(stops) <= stops <= old(stops) + rounds
      ensures guest.Gone? <==> old(guest).Gone?
    {
      confirmed, rounds := false, 0;
      while rounds < 3 && !confirmed
        invariant rounds <= 3
        invariant confirmed ==> JustSeenStopped()
        invariant old(now) <= now <= old(now) + rounds * 77
        invariant old(stops) <= stops <= old(stops) + rounds
        invariant guest.Gone? <==> old(guest).Gone?
      {
        confirmed := StopRound();
        rounds := rounds + 1;
      }
    }

    method Destroy() returns (r: End)
      modifies this`now, this`guest, this`stops, this`deletes, this`obeyed
      // It ends, after a bounded number of requests.
      ensures now <= old(now) + 60 + 3 * 77 + 4 + 1
      ensures stops <= old(stops) + 3 && old(deletes) + 1 <= deletes <= old(deletes) + 4
      // It returns exactly when the last look found no guest.
      ensures now > old(now)
      ensures r.Returned? <==> guest.Gone? && !turns(now - 1).fails
      ensures r.StillThere? <==> guest.There? && !turns(now - 1).fails
      // Deleting is tried again only after a failure, and the last one is the one reported.
      ensures now >= 2 && (deletes < old(deletes) + 4 ==> !turns(now - 2).fails)
      ensures r.StillThere? ==> (r.deleteFailed <==> turns(now - 2).fails)
      // A guest that was there went because of a delete, reported as failed or not.
      ensures old(guest).There? ==> (guest.Gone? <==> obeyed == old(obeyed) + 1)
      ensures old(guest).Gone? ==> guest.Gone?
    {
      WaitUnlocked(60);
      var _, _ := ConfirmStopped();
      var error, attempt := false, 0;
      while attempt < 4
        invariant 0 <= attempt <= 4
        invariant old(now) <= now <= old(now) + 60 + 3 * 77 + attempt
        invariant deletes == old(deletes) + attempt && stops <= old(stops) + 3
        invariant old(guest).There? ==> obeyed == old(obeyed) + if guest.Gone? then 1 else 0
        invariant old(guest).Gone? ==> guest.Gone?
        invariant attempt > 0 ==> now >= 1 && error && turns(now - 1).fails
      {
        var ok := AskDelete();
        attempt := attempt + 1;
        error := !ok;
        if ok {
          break;
        }
      }
      var look := Status();
      match look
      case Absent => return Returned;
      case Present(_) => return StillThere(error);
      case LookFails => return Raised;
    }
  }
}
