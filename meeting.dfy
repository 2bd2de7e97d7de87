/** A meeting record: sponsor, ordered participant list, start and end date,
    title. Meetings are values in the source (copied into and out of the
    store), so each mutator is a member function returning the updated record. */
module Meetings {
  import opened Seqs
  import opened Dates

  datatype Meeting = Meeting(
    sponsor: string,
    participants: seq<string>,
    startDate: Date,
    endDate: Date,
    title: string)
  {
    /** Meeting::isParticipator: a linear search of the participant list. */
    predicate IsParticipator(user: string)
      ensures IsParticipator(user) <==> user in participants
    {
      FindAbsent(participants, user);
      Find(participants, user) != |participants|
    }

    /** Meeting::addParticipator: appends at the end, with no duplicate check. */
    function AddParticipator(user: string): (m: Meeting)
      ensures m.participants == participants + [user]
      ensures m.IsParticipator(user)
      ensures m.sponsor == sponsor && m.startDate == startDate && m.endDate == endDate && m.title == title
    {
      this.(participants := participants + [user])
    }

    /** Meeting::removeParticipator: erases the first occurrence of user, if any. */
    function RemoveParticipator(user: string): (m: Meeting)
      ensures user !in participants ==> m == this
      ensures user in participants ==> |m.participants| == |participants| - 1
      ensures multiset(m.participants) == multiset(participants) - multiset{user}
      ensures user in participants ==> FirstRemoved(participants, user, m.participants)
      ensures m.sponsor == sponsor && m.startDate == startDate && m.endDate == endDate && m.title == title
    {
      FindAbsent(participants, user);
      var i := Find(participants, user);
      if i == |participants| then this
      else
        assert participants == participants[..i] + [user] + participants[i + 1..];
        assert user !in participants[..i] by {
          forall k | 0 <= k < i ensures participants[..i][k] != user {
            assert participants[..i][k] == participants[k];
          }
        }
        var rest := participants[..i] + participants[i + 1..];
        assert RemovedAt(participants, user, i, rest);
        this.(participants := rest)
    }

    /** Meeting::setSponsor. */
    function SetSponsor(sponsor': string): (m: Meeting)
      ensures m.sponsor == sponsor'
      ensures m.participants == participants && m.startDate == startDate && m.endDate == endDate && m.title == title
    {
      this.(sponsor := sponsor')
    }

    /** Meeting::setParticipator: replaces the whole list. */
    function SetParticipator(participants': seq<string>): (m: Meeting)
      ensures m.participants == participants'
      ensures m.sponsor == sponsor && m.startDate == startDate && m.endDate == endDate && m.title == title
    {
      this.(participants := participants')
    }

    /** Meeting::setStartDate. */
    function SetStartDate(date: Date): (m: Meeting)
      ensures m.startDate == date
      ensures m.sponsor == sponsor && m.participants == participants && m.endDate == endDate && m.title == title
    {
      this.(startDate := date)
    }

    /** Meeting::setEndDate. */
    function SetEndDate(date: Date): (m: Meeting)
      ensures m.endDate == date
      ensures m.sponsor == sponsor && m.participants == participants && m.startDate == startDate && m.title == title
    {
      this.(endDate := date)
    }

    /** Meeting::setTitle. */
    function SetTitle(title': string): (m: Meeting)
      ensures m.title == title'
      ensures m.sponsor == sponsor && m.participants == participants && m.startDate == startDate && m.endDate == endDate
    {
      this.(title := title')
    }
  }

  /** With a name listed twice, removal erases the earlier copy and keeps the
      later one in its place after the others. */
  lemma RemoveFirstOfDuplicates(m: Meeting)
    requires m.participants == ["a", "b", "a"]
    ensures m.RemoveParticipator("a").participants == ["b", "a"]
    ensures m.RemoveParticipator("b").participants == ["a", "a"]
  {
    var ps := m.participants;
    assert Find(ps, "a") == 0;
    assert ps[1..] == ["b", "a"];
    assert ps[0] != "b" by { assert ps[0][0] != "b"[0]; }
    assert FindFrom(ps, "b", 0) == FindFrom(ps, "b", 1) == 1;
    assert ps[..1] + ps[2..] == ["a", "a"];
  }

  /** rest is ps with the occurrence of user at i erased, and there is none before i. */
  predicate RemovedAt(ps: seq<string>, user: string, i: int, rest: seq<string>)
  {
    0 <= i < |ps| && ps[i] == user && user !in ps[..i] && rest == ps[..i] + ps[i + 1..]
  }

  /** rest is ps with its first occurrence of user erased, the others in order. */
  ghost predicate FirstRemoved(ps: seq<string>, user: string, rest: seq<string>)
  {
    exists i :: RemovedAt(ps, user, i, rest)
  }

  /** The equality test std::find applies, as a filter. */
  function Is(user: string): string -> bool
  {
    (x: string) => x == user
  }

  /** On a duplicate-free list, removing u drops exactly u and keeps the other
      participants in their relative order; u is no longer a participant. */
  lemma {:induction false} RemoveFromDistinct(m: Meeting, user: string)
    requires Distinct(m.participants)
    ensures m.RemoveParticipator(user).participants == Reject(m.participants, Is(user))
    ensures !m.RemoveParticipator(user).IsParticipator(user)
    ensures Distinct(m.RemoveParticipator(user).participants)
  {
    var ps := m.participants;
    var r := m.RemoveParticipator(user);
    FindAbsent(ps, user);
    var i := Find(ps, user);
    if i == |ps| {
      assert r == m && user !in ps;
      RejectNone(ps, Is(user));
    } else {
      var front, back := ps[..i], ps[i + 1..];
      assert r.participants == front + back;
      assert user !in front by {
        forall k | 0 <= k < i ensures front[k] != user { assert front[k] == ps[k]; }
      }
      assert user !in back by {
        forall k | 0 <= k < |back| ensures back[k] != user { assert back[k] == ps[i + 1 + k]; }
      }
      assert user !in r.participants;
      assert ps == front + ([user] + back);
      RemoveAtIsReject(front, back, user);
      RemoveAtKeepsDistinct(ps, i);
    }
  }

  lemma RemoveAtIsReject(front: seq<string>, back: seq<string>, user: string)
    requires user !in front && user !in back
    ensures front + back == Reject(front + ([user] + back), Is(user))
  {
    calc {
      Reject(front + ([user] + back), Is(user));
      { RejectAppend(front, [user] + back, Is(user)); }
      Reject(front, Is(user)) + Reject([user] + back, Is(user));
      { RejectAppend([user], back, Is(user)); }
      Reject(front, Is(user)) + (Reject([user], Is(user)) + Reject(back, Is(user)));
      { RejectNone(front, Is(user)); RejectNone(back, Is(user)); RejectSelf(user); }
      front + ([] + back);
    }
  }

  lemma RejectSelf(user: string)
    ensures Reject([user], Is(user)) == []
  {
    assert [user][..0] == [];
  }

  lemma RemoveAtKeepsDistinct(ps: seq<string>, i: nat)
    requires Distinct(ps) && i < |ps|
    ensures Distinct(ps[..i] + ps[i + 1..])
  {
    var r := ps[..i] + ps[i + 1..];
    forall a, b | 0 <= a < b < |r| ensures r[a] != r[b] {
      var a', b' := if a < i then a else a + 1, if b < i then b else b + 1;
      assert r[a] == ps[a'] && r[b] == ps[b'];
    }
  }
}
