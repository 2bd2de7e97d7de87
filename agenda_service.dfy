/** The scheduling and validation engine: registration and login, meeting
    creation with its ordered checks and busy-interval scan, the filter
    queries, and the deletions, all expressed as filters over the store.
    Every failure is reported by returning false. */
module Agenda {
  import opened Seqs
  import opened Dates
  import opened Users
  import opened Meetings
  import opened Store

  // -----------------------------------------------------------------------
  // The filters the service hands to the store

  /** A user with this name and password. */
  function Credentials(name: string, password: string): User -> bool
  {
    (u: User) => u.name == name && u.password == password
  }

  /** A user with this name. */
  function NamedUser(name: string): User -> bool
  {
    (u: User) => u.name == name
  }

  /** Every user. */
  function AnyUser(): User -> bool
  {
    (u: User) => true
  }

  /** The user sponsors the meeting or takes part in it. */
  predicate Involves(m: Meeting, name: string)
  {
    m.sponsor == name || m.IsParticipator(name)
  }

  function Attending(name: string): Meeting -> bool
  {
    (m: Meeting) => Involves(m, name)
  }

  function SponsoredBy(name: string): Meeting -> bool
  {
    (m: Meeting) => m.sponsor == name
  }

  function ParticipatedBy(name: string): Meeting -> bool
  {
    (m: Meeting) => m.IsParticipator(name)
  }

  function AttendingTitled(name: string, title: string): Meeting -> bool
  {
    (m: Meeting) => Involves(m, name) && m.title == title
  }

  function SponsoredTitled(name: string, title: string): Meeting -> bool
  {
    (m: Meeting) => m.sponsor == name && m.title == title
  }

  /** The closed-interval test of the time query. */
  function AttendingDuring(name: string, s: Date, e: Date): Meeting -> bool
  {
    (m: Meeting) => !(Lt(e, m.startDate) || Gt(s, m.endDate)) && Involves(m, name)
  }

  /** The busy test of createMeeting: an existing interval [ms, me] against
      the candidate [s, e], written as the three clauses of the source. */
  predicate ThreeClause(ms: Date, me: Date, s: Date, e: Date)
  {
    || (Le(ms, s) && Gt(me, s))
    || (Lt(ms, e) && Ge(me, e))
    || (Ge(ms, s) && Le(me, e))
  }

  /** The user is in m and m's interval conflicts with [s, e]. */
  predicate BusyIn(m: Meeting, name: string, s: Date, e: Date)
  {
    Involves(m, name) && ThreeClause(m.startDate, m.endDate, s, e)
  }

  /** An existing meeting blocks the new one: same title, or the sponsor or
      a participant is busy in it. */
  predicate Blocks(m: Meeting, sponsor: string, title: string, participants: seq<string>, s: Date, e: Date)
  {
    || m.title == title
    || BusyIn(m, sponsor, s, e)
    || exists p :: p in participants && BusyIn(m, p, s, e)
  }

  function OverlapAndBusy(sponsor: string, title: string, participants: seq<string>, s: Date, e: Date): Meeting -> bool
  {
    (m: Meeting) => Blocks(m, sponsor, title, participants, s, e)
  }

  // -----------------------------------------------------------------------
  // What the operations accept

  predicate Registered(users: seq<User>, name: string)
  {
    exists u :: u in users && u.name == name
  }

  /** The per-participant checks: not the sponsor, registered, not repeated. */
  predicate ParticipantsAcceptable(users: seq<User>, sponsor: string, participants: seq<string>)
  {
    forall i :: 0 <= i < |participants| ==>
      && participants[i] != sponsor
      && Registered(users, participants[i])
      && forall j :: 0 <= j < i ==> participants[j] != participants[i]
  }

  /** Every check of createMeeting passes. */
  predicate CanCreate(users: seq<User>, meetings: seq<Meeting>, sponsor: string, title: string,
                      startText: string, endText: string, participants: seq<string>)
  {
    var s := StringToDate(startText);
    var e := StringToDate(endText);
    && IsValid(s) && IsValid(e) && !Ge(s, e)
    && Registered(users, sponsor)
    && ParticipantsAcceptable(users, sponsor, participants)
    && forall m :: m in meetings ==> !Blocks(m, sponsor, title, participants, s, e)
  }

  /** The meeting createMeeting stores. */
  function NewMeeting(sponsor: string, title: string, startText: string, endText: string,
                      participants: seq<string>): Meeting
  {
    Meeting(sponsor, participants, StringToDate(startText), StringToDate(endText), title)
  }

  // -----------------------------------------------------------------------
  // The store invariant the engine maintains

  predicate DifferentNames(a: User, b: User)
  {
    a.name != b.name
  }

  /** A meeting the engine could have created. */
  predicate WellFormed(m: Meeting)
  {
    && IsValid(m.startDate) && IsValid(m.endDate) && Lt(m.startDate, m.endDate)
    && !m.IsParticipator(m.sponsor)
    && Distinct(m.participants)
  }

  /** The intervals [a.start, a.end) and [b.start, b.end) intersect. */
  predicate Overlap(a: Meeting, b: Meeting)
  {
    Lt(a.startDate, b.endDate) && Lt(b.startDate, a.endDate)
  }

  /** Someone attends both meetings. */
  predicate ShareAttendee(a: Meeting, b: Meeting)
  {
    Involves(b, a.sponsor) || exists p :: p in a.participants && Involves(b, p)
  }

  /** Two stored meetings have different titles and nobody is double-booked. */
  predicate Compatible(a: Meeting, b: Meeting)
  {
    a.title != b.title && (ShareAttendee(a, b) ==> !Overlap(a, b))
  }

  ghost predicate AttendeesRegistered(users: seq<User>, meetings: seq<Meeting>)
  {
    forall m :: m in meetings ==>
      Registered(users, m.sponsor) && forall p :: p in m.participants ==> Registered(users, p)
  }

  /** Names are unique, every meeting is well formed, titles are unique,
      nobody attends two overlapping meetings, every attendee is registered. */
  ghost predicate AgendaInvariant(users: seq<User>, meetings: seq<Meeting>)
  {
    && Pairwise(users, DifferentNames)
    && (forall m :: m in meetings ==> WellFormed(m))
    && Pairwise(meetings, Compatible)
    && AttendeesRegistered(users, meetings)
  }

  // -----------------------------------------------------------------------
  // The engine

  class AgendaService {
    const storage: Storage

    /** The service works on the one store it is given. */
    constructor (storage: Storage)
      ensures this.storage == storage
    {
      this.storage := storage;
    }

    /** AgendaService::userLogIn: some user has this name and password. */
    method UserLogIn(userName: string, password: string) returns (ok: bool)
      ensures ok <==> exists u :: u in storage.users && u.name == userName && u.password == password
    {
      var found := storage.QueryUser(Credentials(userName, password));
      ok := found != [];
      if ok {
        assert found[0] in found;
      }
    }

    /** AgendaService::userRegister: refuses a taken name, otherwise appends
        exactly one user with the given fields. */
    method UserRegister(userName: string, password: string, email: string, phone: string)
      returns (ok: bool)
      modifies storage
      ensures ok <==> !Registered(old(storage.users), userName)
      ensures ok ==> storage.users == old(storage.users) + [User(userName, password, email, phone)]
                     && storage.dirty
      ensures !ok ==> storage.users == old(storage.users) && storage.dirty == old(storage.dirty)
      ensures storage.meetings == old(storage.meetings)
      ensures old(AgendaInvariant(storage.users, storage.meetings)) ==>
              AgendaInvariant(storage.users, storage.meetings)
    {
      var found := storage.QueryUser(NamedUser(userName));
      if found != [] {
        assert found[0] in found;
        return false;
      }
      ghost var users := storage.users;
      storage.CreateUser(User(userName, password, email, phone));
      if AgendaInvariant(users, storage.meetings) {
        RegisterKeepsInvariant(users, storage.meetings, User(userName, password, email, phone));
      }
      ok := true;
    }

    /** AgendaService::deleteUser: needs a user with this name and password;
        removes every such user and then every meeting the name sponsors or
        takes part in. */
    method DeleteUser(userName: string, password: string) returns (ok: bool)
      modifies storage
      ensures ok <==> exists u :: u in old(storage.users) && u.name == userName && u.password == password
      ensures ok ==> && storage.users == Reject(old(storage.users), Credentials(userName, password))
                     && storage.meetings == Reject(old(storage.meetings), Attending(userName))
                     && storage.dirty
      ensures ok ==> && (forall u :: u in storage.users ==> !(u.name == userName && u.password == password))
                     && (forall m :: m in storage.meetings ==> m.sponsor != userName && userName !in m.participants)
      ensures !ok ==> && storage.users == old(storage.users) && storage.meetings == old(storage.meetings)
                      && storage.dirty == old(storage.dirty)
      ensures old(AgendaInvariant(storage.users, storage.meetings)) ==>
              AgendaInvariant(storage.users, storage.meetings)
    {
      ghost var users, meetings := storage.users, storage.meetings;
      var removed := storage.DeleteUser(Credentials(userName, password));
      SelectEmpty(users, Credentials(userName, password));
      if removed == 0 {
        RejectNone(users, Credentials(userName, password));
        return false;
      }
      var _ := storage.DeleteMeeting(Attending(userName));
      RejectMembers(users, Credentials(userName, password));
      RejectMembers(meetings, Attending(userName));
      if AgendaInvariant(users, meetings) {
        DeleteUserKeepsInvariant(users, meetings, userName, password);
      }
      ok := true;
    }

    /** AgendaService::listAllUsers: the whole user list. */
    method ListAllUsers() returns (result: seq<User>)
      ensures result == storage.users
    {
      result := storage.QueryUser(AnyUser());
      SelectAll(storage.users, AnyUser());
    }

    /** AgendaService::createMeeting: the ordered checks on the dates, the
        sponsor and each participant, then one scan of the meetings for a
        repeated title or a busy attendee; only when all pass is the meeting
        appended. */
    method CreateMeeting(userName: string, title: string, startDate: string, endDate: string,
                         participator: seq<string>) returns (ok: bool)
      modifies storage
      ensures ok <==> CanCreate(old(storage.users), old(storage.meetings), userName, title,
                                startDate, endDate, participator)
      ensures ok ==> && storage.meetings == old(storage.meetings)
                          + [NewMeeting(userName, title, startDate, endDate, participator)]
                     && storage.dirty
      ensures !ok ==> storage.meetings == old(storage.meetings) && storage.dirty == old(storage.dirty)
      ensures storage.users == old(storage.users)
      ensures old(AgendaInvariant(storage.users, storage.meetings)) ==>
              AgendaInvariant(storage.users, storage.meetings)
    {
      var sDate := StringToDate(startDate);
      var eDate := StringToDate(endDate);
      if !IsValid(sDate) || !IsValid(eDate) || Ge(sDate, eDate) {
        return false;
      }
      var sponsors := storage.QueryUser(NamedUser(userName));
      if sponsors == [] {
        return false;
      }
      assert sponsors[0] in sponsors;
      var acceptable := CheckParticipators(userName, participator);
      if !acceptable {
        return false;
      }
      var blocking := storage.QueryMeeting(OverlapAndBusy(userName, title, participator, sDate, eDate));
      if blocking != [] {
        assert blocking[0] in blocking;
        return false;
      }
      ghost var users, meetings := storage.users, storage.meetings;
      storage.CreateMeeting(Meeting(userName, participator, sDate, eDate, title));
      if AgendaInvariant(users, meetings) {
        CreateKeepsInvariant(users, meetings, userName, title, startDate, endDate, participator);
      }
      ok := true;
    }

    /** The participant loop of createMeeting: each participant in turn must
        not be the sponsor, must be registered and must not repeat an
        earlier one. */
    method CheckParticipators(userName: string, participator: seq<string>) returns (ok: bool)
      ensures ok <==> ParticipantsAcceptable(storage.users, userName, participator)
    {
      var i := 0;
      while i < |participator|
        invariant 0 <= i <= |participator|
        invariant ParticipantsAcceptable(storage.users, userName, participator[..i])
      {
        if userName == participator[i] {
          return false;
        }
        var found := storage.QueryUser(NamedUser(participator[i]));
        if found == [] {
          return false;
        }
        assert found[0] in found;
        var j := 0;
        while j < i
          invariant 0 <= j <= i
          invariant forall k :: 0 <= k < j ==> participator[k] != participator[i]
        {
          if participator[j] == participator[i] {
            return false;
          }
          j := j + 1;
        }
        i := i + 1;
      }
      assert participator[..|participator|] == participator;
      return true;
    }

    /** AgendaService::meetingQuery(userName, title). */
    method MeetingQueryByTitle(userName: string, title: string) returns (result: seq<Meeting>)
      ensures result == Select(storage.meetings, AttendingTitled(userName, title))
      ensures forall m :: m in result <==> m in storage.meetings && Involves(m, userName) && m.title == title
    {
      result := storage.QueryMeeting(AttendingTitled(userName, title));
    }

    /** AgendaService::meetingQuery(userName, startDate, endDate): empty for an
        invalid date or a reversed interval, otherwise the meetings of the
        user that touch the closed interval. */
    method MeetingQueryByInterval(userName: string, startDate: string, endDate: string)
      returns (result: seq<Meeting>)
      ensures var s, e := StringToDate(startDate), StringToDate(endDate);
        if !IsValid(s) || !IsValid(e) || Gt(s, e) then result == []
        else result == Select(storage.meetings, AttendingDuring(userName, s, e))
      ensures var s, e := StringToDate(startDate), StringToDate(endDate);
        IsValid(s) && IsValid(e) && !Gt(s, e) ==>
        forall m :: m in result <==>
          m in storage.meetings && Involves(m, userName) && Le(m.startDate, e) && Le(s, m.endDate)
    {
      var sDate := StringToDate(startDate);
      var eDate := StringToDate(endDate);
      if !IsValid(sDate) || !IsValid(eDate) || Gt(sDate, eDate) {
        return [];
      }
      result := storage.QueryMeeting(AttendingDuring(userName, sDate, eDate));
      forall m | m in storage.meetings
        ensures AttendingDuring(userName, sDate, eDate)(m) <==>
                Involves(m, userName) && Le(m.startDate, eDate) && Le(sDate, m.endDate)
      {
        ClosedInterval(m, userName, sDate, eDate);
      }
    }

    /** AgendaService::listAllMeetings: sponsored or taken part in. */
    method ListAllMeetings(userName: string) returns (result: seq<Meeting>)
      ensures result == Select(storage.meetings, Attending(userName))
      ensures forall m :: m in result <==>
        m in storage.meetings && (m.sponsor == userName || userName in m.participants)
    {
      result := storage.QueryMeeting(Attending(userName));
    }

    /** AgendaService::listAllSponsorMeetings. */
    method ListAllSponsorMeetings(userName: string) returns (result: seq<Meeting>)
      ensures result == Select(storage.meetings, SponsoredBy(userName))
      ensures forall m :: m in result <==> m in storage.meetings && m.sponsor == userName
    {
      result := storage.QueryMeeting(SponsoredBy(userName));
    }

    /** AgendaService::listAllParticipateMeetings. */
    method ListAllParticipateMeetings(userName: string) returns (result: seq<Meeting>)
      ensures result == Select(storage.meetings, ParticipatedBy(userName))
      ensures forall m :: m in result <==> m in storage.meetings && userName in m.participants
    {
      result := storage.QueryMeeting(ParticipatedBy(userName));
    }

    /** AgendaService::deleteMeeting: removes every meeting with this sponsor
        and title; true iff there was one. */
    method DeleteMeeting(userName: string, title: string) returns (ok: bool)
      modifies storage
      ensures ok <==> exists m :: m in old(storage.meetings) && m.sponsor == userName && m.title == title
      ensures storage.meetings == Reject(old(storage.meetings), SponsoredTitled(userName, title))
      ensures storage.users == old(storage.users)
      ensures storage.dirty == (old(storage.dirty) || ok)
      ensures old(AgendaInvariant(storage.users, storage.meetings)) ==>
              AgendaInvariant(storage.users, storage.meetings)
    {
      ghost var meetings := storage.meetings;
      var removed := storage.DeleteMeeting(SponsoredTitled(userName, title));
      SelectEmpty(meetings, SponsoredTitled(userName, title));
      if AgendaInvariant(storage.users, meetings) {
        DeleteMeetingsKeepInvariant(storage.users, meetings, SponsoredTitled(userName, title));
      }
      ok := removed != 0;
    }

    /** AgendaService::deleteAllMeetings: removes every meeting the user
        sponsors; true iff there was one. */
    method DeleteAllMeetings(userName: string) returns (ok: bool)
      modifies storage
      ensures ok <==> exists m :: m in old(storage.meetings) && m.sponsor == userName
      ensures storage.meetings == Reject(old(storage.meetings), SponsoredBy(userName))
      ensures storage.users == old(storage.users)
      ensures storage.dirty == (old(storage.dirty) || ok)
      ensures old(AgendaInvariant(storage.users, storage.meetings)) ==>
              AgendaInvariant(storage.users, storage.meetings)
    {
      ghost var meetings := storage.meetings;
      var removed := storage.DeleteMeeting(SponsoredBy(userName));
      SelectEmpty(meetings, SponsoredBy(userName));
      if AgendaInvariant(storage.users, meetings) {
        DeleteMeetingsKeepInvariant(storage.users, meetings, SponsoredBy(userName));
      }
      ok := removed != 0;
    }
  }

  // -----------------------------------------------------------------------
  // Properties of the busy test and of the time query

  /** For a stored interval with ms < me and a candidate with s < e, the
      three-clause test is exactly "the half-open intervals intersect". */
  lemma {:induction false} ThreeClauseIsOverlap(ms: Date, me: Date, s: Date, e: Date)
    requires Lt(ms, me) && Lt(s, e)
    ensures ThreeClause(ms, me, s, e) <==> Lt(ms, e) && Lt(s, me)
  {
    var A, B, S, E := DateToString(ms), DateToString(me), DateToString(s), DateToString(e);
    Trichotomy(ms, s); Trichotomy(s, ms);
    Trichotomy(me, s); Trichotomy(s, me);
    Trichotomy(ms, e); Trichotomy(e, ms);
    Trichotomy(me, e); Trichotomy(e, me);
    Trichotomy(ms, me); Trichotomy(s, e);
    StrLessTotal(A, S);
    StrLessTotal(B, E);
    if ThreeClause(ms, me, s, e) {
      if Le(ms, s) && Gt(me, s) {
        if StrLess(A, S) { StrLessTransitive(A, S, E); }
      } else if Lt(ms, e) && Ge(me, e) {
        if StrLess(E, B) { StrLessTransitive(S, E, B); }
      } else {
        if StrLess(B, E) { StrLessTransitive(A, B, E); }
        if StrLess(S, A) { StrLessTransitive(S, A, B); }
      }
    }
  }

  /** Back-to-back meetings do not conflict: a candidate that starts when the
      stored meeting ends, or ends when it starts, passes the busy test. */
  lemma BackToBackIsFree(ms: Date, me: Date, s: Date, e: Date)
    requires Lt(ms, me) && Lt(s, e)
    requires Eq(s, me) || Eq(e, ms)
    ensures !ThreeClause(ms, me, s, e)
  {
    ThreeClauseIsOverlap(ms, me, s, e);
    Trichotomy(s, me);
    Trichotomy(ms, e);
    Trichotomy(e, ms);
  }

  /** The time query's test is the closed-interval intersection
      ms <= e && s <= me; on valid dates it is chronological. */
  lemma ClosedInterval(m: Meeting, name: string, s: Date, e: Date)
    ensures AttendingDuring(name, s, e)(m) <==>
            Involves(m, name) && Le(m.startDate, e) && Le(s, m.endDate)
    ensures IsValid(s) && IsValid(e) && IsValid(m.startDate) && IsValid(m.endDate) ==>
            (AttendingDuring(name, s, e)(m) <==>
             Involves(m, name) && !Before(e, m.startDate) && !Before(m.endDate, s))
  {
    Trichotomy(e, m.startDate);
    Trichotomy(m.startDate, e);
    ComparisonIsChronological(e, m.startDate);
    ComparisonIsChronological(s, m.endDate);
  }

  /** A query for one instant finds a meeting of the user's that starts or
      ends at that instant. */
  lemma EndpointQueriesMatch(m: Meeting, name: string)
    requires WellFormed(m) && Involves(m, name)
    ensures AttendingDuring(name, m.startDate, m.startDate)(m)
    ensures AttendingDuring(name, m.endDate, m.endDate)(m)
  {
    ClosedInterval(m, name, m.startDate, m.startDate);
    ClosedInterval(m, name, m.endDate, m.endDate);
    Trichotomy(m.startDate, m.startDate);
    Trichotomy(m.endDate, m.endDate);
    Trichotomy(m.startDate, m.endDate);
  }

  /** A meeting cannot start and end at the same time, whatever else holds. */
  lemma EqualDatesRejected(users: seq<User>, meetings: seq<Meeting>, sponsor: string, title: string,
                           text: string, participants: seq<string>)
    ensures !CanCreate(users, meetings, sponsor, title, text, text, participants)
  {
  }

  // -----------------------------------------------------------------------
  // The invariant is kept by every operation that changes the store

  lemma {:induction false} RegisterKeepsInvariant(users: seq<User>, meetings: seq<Meeting>, user: User)
    requires AgendaInvariant(users, meetings)
    requires !Registered(users, user.name)
    ensures AgendaInvariant(users + [user], meetings)
  {
    PairwiseSnoc(users, user, DifferentNames);
    forall m, x | m in meetings && (x == m.sponsor || x in m.participants)
      ensures Registered(users + [user], x)
    {
      var u :| u in users && u.name == x;
      assert u in users + [user];
    }
  }

  lemma {:induction false} DeleteUserKeepsInvariant(users: seq<User>, meetings: seq<Meeting>,
                                                    name: string, password: string)
    requires AgendaInvariant(users, meetings)
    ensures AgendaInvariant(Reject(users, Credentials(name, password)), Reject(meetings, Attending(name)))
  {
    var users', meetings' := Reject(users, Credentials(name, password)), Reject(meetings, Attending(name));
    RejectKeepsPairwise(users, Credentials(name, password), DifferentNames);
    RejectKeepsPairwise(meetings, Attending(name), Compatible);
    RejectMembers(users, Credentials(name, password));
    RejectMembers(meetings, Attending(name));
    forall m, x | m in meetings' && (x == m.sponsor || x in m.participants)
      ensures Registered(users', x)
    {
      assert !Involves(m, name);
      var u :| u in users && u.name == x;
      assert u in users';
    }
  }

  lemma {:induction false} DeleteMeetingsKeepInvariant(users: seq<User>, meetings: seq<Meeting>,
                                                       filter: Meeting -> bool)
    requires AgendaInvariant(users, meetings)
    ensures AgendaInvariant(users, Reject(meetings, filter))
  {
    RejectKeepsPairwise(meetings, filter, Compatible);
    RejectMembers(meetings, filter);
  }

  /** A new meeting that no stored meeting blocks fits beside each of them. */
  lemma NewMeetingFits(m: Meeting, nm: Meeting)
    requires Lt(m.startDate, m.endDate) && Lt(nm.startDate, nm.endDate)
    requires !Blocks(m, nm.sponsor, nm.title, nm.participants, nm.startDate, nm.endDate)
    ensures Compatible(m, nm)
  {
    if ShareAttendee(m, nm) {
      var x: string;
      if Involves(nm, m.sponsor) {
        x := m.sponsor;
      } else {
        x :| x in m.participants && Involves(nm, x);
      }
      AttendeeNotBusy(m, nm, x);
      ThreeClauseIsOverlap(m.startDate, m.endDate, nm.startDate, nm.endDate);
    }
  }

  /** Everyone in a new meeting that m does not block is free during m. */
  lemma AttendeeNotBusy(m: Meeting, nm: Meeting, x: string)
    requires !Blocks(m, nm.sponsor, nm.title, nm.participants, nm.startDate, nm.endDate)
    requires Involves(nm, x)
    ensures !BusyIn(m, x, nm.startDate, nm.endDate)
  {
    if x != nm.sponsor {
      assert x in nm.participants;
    }
  }

  lemma {:induction false} CreateKeepsInvariant(users: seq<User>, meetings: seq<Meeting>, sponsor: string,
                                                title: string, startText: string, endText: string,
                                                participants: seq<string>)
    requires AgendaInvariant(users, meetings)
    requires CanCreate(users, meetings, sponsor, title, startText, endText, participants)
    ensures AgendaInvariant(users, meetings + [NewMeeting(sponsor, title, startText, endText, participants)])
  {
    var nm := NewMeeting(sponsor, title, startText, endText, participants);
    assert Distinct(participants) by {
      forall i, j | 0 <= i < j < |participants| ensures participants[i] != participants[j] {
        assert ParticipantsAcceptable(users, sponsor, participants);
      }
    }
    assert sponsor !in participants;
    assert WellFormed(nm);
    forall m | m in meetings ensures Compatible(m, nm) {
      assert !Blocks(m, sponsor, title, participants, nm.startDate, nm.endDate);
      NewMeetingFits(m, nm);
    }
    PairwiseSnoc(meetings, nm, Compatible);
  }
}
