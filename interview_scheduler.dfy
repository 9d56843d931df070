/** Interview slot scheduling: which time slots count as common to all
    interviewers (and the candidate's preferences), which of them is chosen,
    and the scheduler's in-memory list of interviews.

    Times are integers: minutes since a Monday 00:00, so that the weekday is
    (t / 1440) % 7 (0 = Monday) and the hour is (t % 1440) / 60. */
module InterviewScheduling {
  import opened Common

  const MinutesPerDay: int := 1440
  const MinutesPerHour: int := 60

  /** Status given to a freshly scheduled interview. */
  const Scheduled: string := "scheduled"
  /** Location of an offline interview. */
  const OfflineRoom: string := "会议室A"
  /** Default interview length: one hour. */
  const DefaultDuration: int := 60

  datatype Slot = Slot(start: int, end: int)

  datatype Interviewer = Interviewer(
    name: string,
    email: string,
    expertise: seq<string>,
    availableSlots: seq<Slot>)

  datatype Candidate = Candidate(
    name: string,
    email: string,
    phone: string,
    preferredSlots: Option<seq<Slot>>)

  function Weekday(t: int): int
  {
    (t / MinutesPerDay) % 7
  }

  function Hour(t: int): int
  {
    (t % MinutesPerDay) / MinutesPerHour
  }

  // ---------------------------------------------------------------------
  // Overlap

  /** The strict overlap test on two slots. */
  predicate Overlaps(a: Slot, b: Slot)
  {
    a.start < b.end && b.start < a.end
  }

  /** Instant `t` lies in the slot, read as [start, end). */
  predicate InSlot(t: int, s: Slot)
  {
    s.start <= t < s.end
  }

  /** Some instant lies in both slots. */
  ghost predicate ShareInstant(a: Slot, b: Slot)
  {
    exists t :: InSlot(t, a) && InSlot(t, b)
  }

  lemma OverlapsSymmetricStrict(a: Slot, b: Slot)
    ensures Overlaps(a, b) <==> Overlaps(b, a)
    ensures a.end == b.start ==> !Overlaps(a, b)
    ensures b.end == a.start ==> !Overlaps(a, b)
  {
  }

  /** For slots that are not empty, overlap means "the two half-open
      intervals have an instant in common"; slots that only touch at an
      endpoint share none. An empty or inverted slot (end <= start) holds no
      instant, yet can still pass the overlap test. */
  lemma OverlapsIffShareInstant(a: Slot, b: Slot)
    ensures ShareInstant(a, b) ==> Overlaps(a, b)
    ensures a.start < a.end && b.start < b.end && Overlaps(a, b) ==> ShareInstant(a, b)
    ensures Overlaps(Slot(0, 10), Slot(5, 3)) && !ShareInstant(Slot(0, 10), Slot(5, 3))
  {
    if a.start < a.end && b.start < b.end && Overlaps(a, b) {
      var t := if a.start < b.start then b.start else a.start;
      assert InSlot(t, a) && InSlot(t, b);
    }
    forall t
      ensures !InSlot(t, Slot(5, 3))
    {
    }
  }

  // ---------------------------------------------------------------------
  // Common slots

  /** Some slot of the list overlaps `slot`. */
  predicate OverlapsSome(slot: Slot, slots: seq<Slot>)
  {
    exists s :: s in slots && Overlaps(slot, s)
  }

  /** Each interviewer has at least one available slot overlapping `slot`. */
  predicate OverlapsEveryInterviewer(slot: Slot, interviewers: seq<Interviewer>)
  {
    forall iv :: iv in interviewers ==> OverlapsSome(slot, iv.availableSlots)
  }

  /** The candidate's preferred slots when there is a candidate and the list
      is present and non-empty (Python truthiness); otherwise none. */
  function Preferences(candidate: Option<Candidate>): seq<Slot>
  {
    if candidate.Some? && candidate.value.preferredSlots.Some? then
      candidate.value.preferredSlots.value
    else
      []
  }

  /** The qualifying test applied to every slot of the pool. */
  predicate IsCommon(slot: Slot, interviewers: seq<Interviewer>, candidate: Option<Candidate>)
  {
    && OverlapsEveryInterviewer(slot, interviewers)
    && (Preferences(candidate) == [] || OverlapsSome(slot, Preferences(candidate)))
  }

  /** All interviewers' slots, concatenated in interviewer order. */
  function AllAvailable(interviewers: seq<Interviewer>): seq<Slot>
  {
    if interviewers == [] then []
    else AllAvailable(interviewers[..|interviewers| - 1]) + interviewers[|interviewers| - 1].availableSlots
  }

  /** The slots examined: the interviewers' slots followed by the
      candidate's preferred slots. */
  function CandidatePool(interviewers: seq<Interviewer>, candidate: Option<Candidate>): seq<Slot>
  {
    AllAvailable(interviewers) + Preferences(candidate)
  }

  /** The slots of `pool` that are common, in pool order. */
  function KeepCommon(pool: seq<Slot>, interviewers: seq<Interviewer>, candidate: Option<Candidate>): seq<Slot>
  {
    if pool == [] then []
    else
      var last := pool[|pool| - 1];
      KeepCommon(pool[..|pool| - 1], interviewers, candidate)
        + (if IsCommon(last, interviewers, candidate) then [last] else [])
  }

  function CommonSlots(interviewers: seq<Interviewer>, candidate: Option<Candidate>): seq<Slot>
  {
    KeepCommon(CandidatePool(interviewers, candidate), interviewers, candidate)
  }

  /** The filter keeps exactly the common slots of the pool, in pool order,
      with every copy of each: a common slot listed twice comes back twice. */
  lemma {:induction false} KeepCommonSpec(pool: seq<Slot>, interviewers: seq<Interviewer>, candidate: Option<Candidate>)
    ensures forall s :: s in KeepCommon(pool, interviewers, candidate) <==> s in pool && IsCommon(s, interviewers, candidate)
    ensures IsSubsequence(KeepCommon(pool, interviewers, candidate), pool)
    ensures forall s ::
      multiset(KeepCommon(pool, interviewers, candidate))[s] == (if IsCommon(s, interviewers, candidate) then multiset(pool)[s] else 0)
  {
    if pool == [] {
      SubsequenceEmpty(pool);
    } else {
      var init, last := pool[..|pool| - 1], pool[|pool| - 1];
      assert pool == init + [last];
      KeepCommonSpec(init, interviewers, candidate);
      SubsequenceSnoc(KeepCommon(init, interviewers, candidate), init, last, IsCommon(last, interviewers, candidate));
    }
  }

  /** What the common slots are: exactly the pool slots that overlap some
      slot of every interviewer and, when the candidate has preferences, some
      preferred slot; they keep the pool's order and every copy of each. */
  lemma CommonSlotsSpec(interviewers: seq<Interviewer>, candidate: Option<Candidate>)
    ensures forall s :: s in CommonSlots(interviewers, candidate) <==>
      && s in AllAvailable(interviewers) + Preferences(candidate)
      && (forall iv :: iv in interviewers ==> exists t :: t in iv.availableSlots && Overlaps(s, t))
      && (Preferences(candidate) != [] ==> exists p :: p in Preferences(candidate) && Overlaps(s, p))
    ensures IsSubsequence(CommonSlots(interviewers, candidate), AllAvailable(interviewers) + Preferences(candidate))
    ensures forall s :: s in CommonSlots(interviewers, candidate) ==>
      multiset(CommonSlots(interviewers, candidate))[s] == multiset(AllAvailable(interviewers) + Preferences(candidate))[s]
  {
    KeepCommonSpec(CandidatePool(interviewers, candidate), interviewers, candidate);
  }

  lemma AllAvailablePair(a: Interviewer, b: Interviewer)
    ensures AllAvailable([a, b]) == a.availableSlots + b.availableSlots
  {
    assert [a, b][..1] == [a];
    assert [a][..0] == [];
    assert AllAvailable([a]) == [] + a.availableSlots == a.availableSlots;
  }

  /** With exactly two interviewers whose availabilities never overlap and no
      candidate preferences, no slot is common. */
  lemma DisjointInterviewersHaveNoCommonSlot(a: Interviewer, b: Interviewer)
    requires forall s, t :: s in a.availableSlots && t in b.availableSlots ==> !Overlaps(s, t)
    ensures CommonSlots([a, b], None) == []
  {
    var ivs := [a, b];
    AllAvailablePair(a, b);
    CommonSlotsSpec(ivs, None);
    assert a in ivs && b in ivs;
    forall s | s in CandidatePool(ivs, None)
      ensures !IsCommon(s, ivs, None)
    {
      if s in a.availableSlots {
        assert !OverlapsSome(s, b.availableSlots);
      } else {
        forall t | t in a.availableSlots
          ensures !Overlaps(s, t)
        {
          OverlapsSymmetricStrict(s, t);
        }
        assert !OverlapsSome(s, a.availableSlots);
      }
    }
    NothingCommonKeepsNothing(CandidatePool(ivs, None), ivs, None);
  }

  lemma {:induction false} NothingCommonKeepsNothing(pool: seq<Slot>, interviewers: seq<Interviewer>, candidate: Option<Candidate>)
    requires forall s :: s in pool ==> !IsCommon(s, interviewers, candidate)
    ensures KeepCommon(pool, interviewers, candidate) == []
  {
    if pool != [] {
      NothingCommonKeepsNothing(pool[..|pool| - 1], interviewers, candidate);
    }
  }

  lemma KeepCommonOfThree(x: Slot, y: Slot, z: Slot, interviewers: seq<Interviewer>, candidate: Option<Candidate>)
    ensures KeepCommon([x, y, z], interviewers, candidate)
         == (if IsCommon(x, interviewers, candidate) then [x] else [])
          + (if IsCommon(y, interviewers, candidate) then [y] else [])
          + (if IsCommon(z, interviewers, candidate) then [z] else [])
  {
    assert [x, y, z][..2] == [x, y];
    assert [x, y][..1] == [x];
    assert [x][..0] == [];
    assert KeepCommon([x], interviewers, candidate) == if IsCommon(x, interviewers, candidate) then [x] else [];
    assert KeepCommon([x, y], interviewers, candidate)
        == KeepCommon([x], interviewers, candidate) + (if IsCommon(y, interviewers, candidate) then [y] else []);
  }

  /** "Common" asks only for partial overlap, and preferred slots join the
      pool: two interviewers free 09:00-10:00 and 10:00-11:00 on Monday share
      no slot, yet a candidate preferring 08:20-11:40 makes that preferred
      slot common although neither interviewer is free for all of it. */
  lemma PreferredSlotCanBeCommon(a: Interviewer, b: Interviewer, c: Candidate)
    requires a.availableSlots == [Slot(540, 600)] && b.availableSlots == [Slot(600, 660)]
    requires c.preferredSlots == Some([Slot(500, 700)])
    ensures CommonSlots([a, b], None) == []
    ensures CommonSlots([a, b], Some(c)) == [Slot(500, 700)]
  {
    var x, y, z := Slot(540, 600), Slot(600, 660), Slot(500, 700);
    var ivs := [a, b];
    assert CommonSlots(ivs, None) == [] by {
      assert !Overlaps(x, y);
      DisjointInterviewersHaveNoCommonSlot(a, b);
    }
    assert CandidatePool(ivs, Some(c)) == [x, y, z] by {
      AllAvailablePair(a, b);
    }
    assert !IsCommon(x, ivs, Some(c)) by {
      assert b in ivs && !OverlapsSome(x, b.availableSlots);
    }
    assert !IsCommon(y, ivs, Some(c)) by {
      assert a in ivs && !OverlapsSome(y, a.availableSlots);
    }
    assert IsCommon(z, ivs, Some(c)) by {
      assert Overlaps(z, x) && Overlaps(z, y) && Overlaps(z, z);
      assert OverlapsSome(z, a.availableSlots) && OverlapsSome(z, b.availableSlots);
    }
    KeepCommonOfThree(x, y, z, ivs, Some(c));
  }

  // ---------------------------------------------------------------------
  // Best slot

  /** The slot is long enough for an interview of `duration` minutes that
      starts at its start. */
  predicate Fits(slot: Slot, duration: int)
  {
    slot.start + duration <= slot.end
  }

  /** Monday to Friday, with the hour in [9, 12). */
  predicate WeekdayMorning(t: int)
  {
    Weekday(t) < 5 && 9 <= Hour(t) < 12
  }

  /** The test of the first pass (morningOnly) or of the second pass. */
  predicate Acceptable(slot: Slot, duration: int, morningOnly: bool)
  {
    Fits(slot, duration) && (morningOnly ==> WeekdayMorning(slot.start))
  }

  /** `i` is the first index whose slot passes the test. */
  predicate IsFirstAcceptable(slots: seq<Slot>, duration: int, morningOnly: bool, i: int)
  {
    && 0 <= i < |slots|
    && Acceptable(slots[i], duration, morningOnly)
    && forall j :: 0 <= j < i ==> !Acceptable(slots[j], duration, morningOnly)
  }

  /** The index one pass of the search stops at, if any. */
  function FirstAcceptable(slots: seq<Slot>, duration: int, morningOnly: bool): (r: Option<nat>)
    ensures r.Some? ==> IsFirstAcceptable(slots, duration, morningOnly, r.value)
    ensures r.None? ==> forall j :: 0 <= j < |slots| ==> !Acceptable(slots[j], duration, morningOnly)
  {
    if slots == [] then None
    else if Acceptable(slots[0], duration, morningOnly) then Some(0)
    else match FirstAcceptable(slots[1..], duration, morningOnly)
      case None => None
      case Some(i) => Some(i + 1)
  }

  /** The interview window cut from the front of a slot. */
  function Window(slot: Slot, duration: int): Slot
  {
    Slot(slot.start, slot.start + duration)
  }

  /** The two-pass choice: the first fitting weekday-morning slot, else the
      first fitting slot, else nothing. */
  function BestSlot(slots: seq<Slot>, duration: int): Option<Slot>
  {
    if slots == [] then None
    else match FirstAcceptable(slots, duration, true)
      case Some(i) => Some(Window(slots[i], duration))
      case None =>
        match FirstAcceptable(slots, duration, false)
        case Some(i) => Some(Window(slots[i], duration))
        case None => None
  }

  /** What the chosen slot is: nothing exactly when no slot fits; otherwise a
      window of the requested length at the start of an input slot that it
      lies in, taken from the first fitting weekday-morning slot when there
      is one and from the first fitting slot when there is none. */
  lemma BestSlotChoice(slots: seq<Slot>, duration: int)
    ensures BestSlot(slots, duration).None? <==> forall j :: 0 <= j < |slots| ==> !Fits(slots[j], duration)
    ensures BestSlot(slots, duration).Some? ==>
      exists i :: 0 <= i < |slots| && Fits(slots[i], duration)
        && BestSlot(slots, duration).value == Slot(slots[i].start, slots[i].start + duration)
        && BestSlot(slots, duration).value.end <= slots[i].end
    ensures (exists j :: 0 <= j < |slots| && Fits(slots[j], duration) && WeekdayMorning(slots[j].start)) ==>
      exists i :: IsFirstAcceptable(slots, duration, true, i)
        && BestSlot(slots, duration) == Some(Slot(slots[i].start, slots[i].start + duration))
    ensures (forall j :: 0 <= j < |slots| && Fits(slots[j], duration) ==> !WeekdayMorning(slots[j].start)) ==>
      (BestSlot(slots, duration).None? ||
       exists i :: IsFirstAcceptable(slots, duration, false, i)
         && BestSlot(slots, duration) == Some(Slot(slots[i].start, slots[i].start + duration)))
  {
    var m := FirstAcceptable(slots, duration, true);
    var f := FirstAcceptable(slots, duration, false);
    if slots != [] && m.None? && f.Some? {
      assert IsFirstAcceptable(slots, duration, false, f.value);
    }
    if slots != [] && m.Some? {
      assert Acceptable(slots[m.value], duration, true);
    }
  }

  /** Monday 09:00-11:00 offered by every interviewer, with a later
      afternoon slot also on offer: a one-hour interview starts at Monday
      09:00. */
  lemma MondayMorningWins()
    ensures BestSlot([Slot(14 * 60, 17 * 60), Slot(9 * 60, 11 * 60)], DefaultDuration)
         == Some(Slot(9 * 60, 10 * 60))
  {
    var slots := [Slot(14 * 60, 17 * 60), Slot(9 * 60, 11 * 60)];
    assert !WeekdayMorning(slots[0].start);
    assert WeekdayMorning(slots[1].start);
    assert slots[1..] == [Slot(9 * 60, 11 * 60)];
  }

  // ---------------------------------------------------------------------
  // The scheduler's state

  /** An interview record; only its status and feedback change after it is
      created. */
  class Interview {
    const candidate: Candidate
    const interviewers: seq<Interviewer>
    const startTime: int
    const endTime: int
    const location: string
    var status: string
    var feedback: Option<string>

    constructor (candidate: Candidate, interviewers: seq<Interviewer>, startTime: int, endTime: int,
                 location: string, status: string)
      ensures this.candidate == candidate && this.interviewers == interviewers
      ensures this.startTime == startTime && this.endTime == endTime
      ensures this.location == location && this.status == status && this.feedback == None
    {
      this.candidate := candidate;
      this.interviewers := interviewers;
      this.startTime := startTime;
      this.endTime := endTime;
      this.location := location;
      this.status := status;
      this.feedback := None;
    }
  }

  /** `interviews[i]` is the first stored interview for `email`. */
  predicate IsFirstFor(interviews: seq<Interview>, email: string, i: int)
  {
    && 0 <= i < |interviews|
    && interviews[i].candidate.email == email
    && forall j :: 0 <= j < i ==> interviews[j].candidate.email != email
  }

  class InterviewScheduler {
    /** Every interview scheduled so far, in scheduling order. */
    var interviews: seq<Interview>

    constructor ()
      ensures interviews == []
    {
      interviews := [];
    }

    /** The pool loop and the filter loop of the common-slot search. */
    method FindCommonSlots(interviewers: seq<Interviewer>, candidate: Option<Candidate>)
      returns (common: seq<Slot>)
      ensures common == CommonSlots(interviewers, candidate)
    {
      var allSlots: seq<Slot> := [];
      var k := 0;
      while k < |interviewers|
        invariant 0 <= k <= |interviewers|
        invariant allSlots == AllAvailable(interviewers[..k])
      {
        assert interviewers[..k + 1][..k] == interviewers[..k];
        allSlots := allSlots + interviewers[k].availableSlots;
        k := k + 1;
      }
      assert interviewers[..k] == interviewers;
      if candidate.Some? && candidate.value.preferredSlots.Some? && candidate.value.preferredSlots.value != [] {
        allSlots := allSlots + candidate.value.preferredSlots.value;
      }
      assert allSlots == CandidatePool(interviewers, candidate);

      common := [];
      var i := 0;
      while i < |allSlots|
        invariant 0 <= i <= |allSlots|
        invariant common == KeepCommon(allSlots[..i], interviewers, candidate)
      {
        var slot := allSlots[i];
        var overlapping := OverlapsAllInterviewers(slot, interviewers);
        if overlapping {
          if candidate.None? || candidate.value.preferredSlots.None? || candidate.value.preferredSlots.value == []
             || OverlapsSome(slot, candidate.value.preferredSlots.value)
          {
            common := common + [slot];
          }
        }
        assert allSlots[..i + 1][..i] == allSlots[..i];
        assert KeepCommon(allSlots[..i + 1], interviewers, candidate)
            == KeepCommon(allSlots[..i], interviewers, candidate) + (if IsCommon(slot, interviewers, candidate) then [slot] else []);
        i := i + 1;
      }
      assert allSlots[..i] == allSlots;
    }

    /** The inner loop of the common-slot search: stops at the first
        interviewer with no overlapping slot. */
    method OverlapsAllInterviewers(slot: Slot, interviewers: seq<Interviewer>) returns (overlapping: bool)
      ensures overlapping <==> forall iv :: iv in interviewers ==> exists t :: t in iv.availableSlots && Overlaps(slot, t)
    {
      overlapping := true;
      var j := 0;
      while j < |interviewers|
        invariant 0 <= j <= |interviewers|
        invariant forall m :: 0 <= m < j ==> OverlapsSome(slot, interviewers[m].availableSlots)
      {
        if !OverlapsSome(slot, interviewers[j].availableSlots) {
          overlapping := false;
          return;
        }
        j := j + 1;
      }
    }

    /** The two scanning loops of the best-slot choice. */
    method SelectBestSlot(available: seq<Slot>, duration: int) returns (best: Option<Slot>)
      ensures best == BestSlot(available, duration)
    {
      if available == [] {
        return None;
      }
      var i := 0;
      while i < |available|
        invariant 0 <= i <= |available|
        invariant forall j :: 0 <= j < i ==> !Acceptable(available[j], duration, true)
      {
        var slot := available[i];
        var start := slot.start;
        var end := start + duration;
        if end <= slot.end && Weekday(start) < 5 && 9 <= Hour(start) < 12 {
          assert IsFirstAcceptable(available, duration, true, i);
          return Some(Slot(start, end));
        }
        i := i + 1;
      }
      i := 0;
      while i < |available|
        invariant 0 <= i <= |available|
        invariant forall j :: 0 <= j < i ==> !Acceptable(available[j], duration, false)
      {
        var slot := available[i];
        var start := slot.start;
        var end := start + duration;
        if end <= slot.end {
          assert IsFirstAcceptable(available, duration, false, i);
          return Some(Slot(start, end));
        }
        i := i + 1;
      }
      return None;
    }

    /** Schedules one interview: on success exactly one new record with
        status "scheduled" is appended; when no slot is selected the list is
        left as it was. `meetingLink` stands for the generated online
        meeting link. */
    method ScheduleInterview(candidate: Candidate, interviewers: seq<Interviewer>, duration: int,
                             isOnline: bool, meetingLink: string)
      returns (interview: Interview?)
      modifies this
      ensures BestSlot(CommonSlots(interviewers, Some(candidate)), duration).None? ==>
        interview == null && interviews == old(interviews)
      ensures BestSlot(CommonSlots(interviewers, Some(candidate)), duration).Some? ==>
        && interview != null && fresh(interview)
        && interviews == old(interviews) + [interview]
        && Some(Slot(interview.startTime, interview.endTime)) == BestSlot(CommonSlots(interviewers, Some(candidate)), duration)
        && interview.candidate == candidate && interview.interviewers == interviewers
        && interview.location == (if isOnline then meetingLink else OfflineRoom)
        && interview.status == Scheduled && interview.feedback == None
    {
      var available := FindCommonSlots(interviewers, Some(candidate));
      var best := SelectBestSlot(available, duration);
      if best.None? {
        return null;
      }
      var location := if isOnline then meetingLink else OfflineRoom;
      interview := new Interview(candidate, interviewers, best.value.start, best.value.end, location, Scheduled);
      interviews := interviews + [interview];
    }

    /** The first stored interview whose candidate has the given email. */
    method GetInterviewStatus(candidateEmail: string) returns (found: Interview?)
      ensures found == null <==> forall i :: 0 <= i < |interviews| ==> interviews[i].candidate.email != candidateEmail
      ensures found != null ==> exists i :: IsFirstFor(interviews, candidateEmail, i) && interviews[i] == found
    {
      var i := 0;
      while i < |interviews|
        invariant 0 <= i <= |interviews|
        invariant forall j :: 0 <= j < i ==> interviews[j].candidate.email != candidateEmail
      {
        if interviews[i].candidate.email == candidateEmail {
          assert IsFirstFor(interviews, candidateEmail, i);
          return interviews[i];
        }
        i := i + 1;
      }
      return null;
    }

    /** Sets any status string; replaces the feedback only when a non-empty
        one is given. */
    method UpdateInterviewStatus(interview: Interview, status: string, feedback: Option<string>)
      modifies interview
      ensures interview.status == status
      ensures interview.feedback == if feedback.Some? && feedback.value != "" then feedback else old(interview.feedback)
    {
      interview.status := status;
      if feedback.Some? && feedback.value != "" {
        interview.feedback := feedback;
      }
    }
  }
}
