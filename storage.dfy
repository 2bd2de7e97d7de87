/** The in-memory store: the user list, the meeting list and the dirty flag,
    with filter-based query, update and delete, plus the '&' join and split
    used to write and read a meeting's participant list. */
module Store {
  import opened Seqs
  import opened Users
  import opened Meetings

  class Storage {
    var users: seq<User>
    var meetings: seq<Meeting>
    /** Set by every change, cleared only by a successful write to the files. */
    var dirty: bool

    /** The store as it stands after the files have been read. */
    constructor (loadedUsers: seq<User>, loadedMeetings: seq<Meeting>)
      ensures users == loadedUsers && meetings == loadedMeetings && !dirty
    {
      users := loadedUsers;
      meetings := loadedMeetings;
      dirty := false;
    }

    /** Storage::createUser: appends the user as the last item. */
    method CreateUser(user: User)
      modifies this
      ensures users == old(users) + [user]
      ensures meetings == old(meetings) && dirty
    {
      users := users + [user];
      dirty := true;
    }

    /** Storage::queryUser: the users passing filter, in list order. */
    method QueryUser(filter: User -> bool) returns (result: seq<User>)
      ensures result == Select(users, filter)
      ensures forall u :: u in result <==> u in users && filter(u)
    {
      result := [];
      var i := 0;
      while i < |users|
        invariant 0 <= i <= |users|
        invariant result == Select(users[..i], filter)
      {
        assert users[..i + 1][..i] == users[..i];
        if filter(users[i]) {
          result := result + [users[i]];
        }
        i := i + 1;
      }
      assert users[..|users|] == users;
      SelectMembers(users, filter);
    }

    /** Storage::updateUser: applies switcher to exactly the users passing
        filter and returns how many there were. */
    method UpdateUser(filter: User -> bool, switcher: User -> User) returns (count: int)
      modifies this
      ensures |users| == |old(users)|
      ensures forall i :: 0 <= i < |users| ==>
        users[i] == if filter(old(users)[i]) then switcher(old(users)[i]) else old(users)[i]
      ensures count == |Select(old(users), filter)|
      ensures meetings == old(meetings)
      ensures dirty == (old(dirty) || count != 0)
    {
      count := 0;
      var i := 0;
      while i < |users|
        invariant 0 <= i <= |users| == |old(users)|
        invariant forall k :: 0 <= k < i ==>
          users[k] == if filter(old(users)[k]) then switcher(old(users)[k]) else old(users)[k]
        invariant forall k :: i <= k < |users| ==> users[k] == old(users)[k]
        invariant count == |Select(old(users)[..i], filter)|
        invariant meetings == old(meetings) && dirty == old(dirty)
      {
        assert old(users)[..i + 1][..i] == old(users)[..i];
        if filter(users[i]) {
          users := users[i := switcher(users[i])];
          count := count + 1;
        }
        i := i + 1;
      }
      assert old(users)[..|old(users)|] == old(users);
      if count != 0 {
        dirty := true;
      }
    }

    /** Storage::deleteUser: list::remove_if, then the drop in size. */
    method DeleteUser(filter: User -> bool) returns (removed: int)
      modifies this
      ensures users == Reject(old(users), filter)
      ensures removed == |Select(old(users), filter)|
      ensures meetings == old(meetings)
      ensures dirty == (old(dirty) || removed != 0)
    {
      var size := |users|;
      users := Reject(users, filter);
      removed := size - |users|;
      SelectRejectSizes(old(users), filter);
      if removed != 0 {
        dirty := true;
      }
    }

    /** Storage::createMeeting: appends the meeting as the last item. */
    method CreateMeeting(meeting: Meeting)
      modifies this
      ensures meetings == old(meetings) + [meeting]
      ensures users == old(users) && dirty
    {
      meetings := meetings + [meeting];
      dirty := true;
    }

    /** Storage::queryMeeting: the meetings passing filter, in list order. */
    method QueryMeeting(filter: Meeting -> bool) returns (result: seq<Meeting>)
      ensures result == Select(meetings, filter)
      ensures forall m :: m in result <==> m in meetings && filter(m)
    {
      result := [];
      var i := 0;
      while i < |meetings|
        invariant 0 <= i <= |meetings|
        invariant result == Select(meetings[..i], filter)
      {
        assert meetings[..i + 1][..i] == meetings[..i];
        if filter(meetings[i]) {
          result := result + [meetings[i]];
        }
        i := i + 1;
      }
      assert meetings[..|meetings|] == meetings;
      SelectMembers(meetings, filter);
    }

    /** Storage::updateMeeting: applies switcher to exactly the meetings
        passing filter and returns how many there were. */
    method UpdateMeeting(filter: Meeting -> bool, switcher: Meeting -> Meeting) returns (count: int)
      modifies this
      ensures |meetings| == |old(meetings)|
      ensures forall i :: 0 <= i < |meetings| ==>
        meetings[i] == if filter(old(meetings)[i]) then switcher(old(meetings)[i]) else old(meetings)[i]
      ensures count == |Select(old(meetings), filter)|
      ensures users == old(users)
      ensures dirty == (old(dirty) || count != 0)
    {
      count := 0;
      var i := 0;
      while i < |meetings|
        invariant 0 <= i <= |meetings| == |old(meetings)|
        invariant forall k :: 0 <= k < i ==>
          meetings[k] == if filter(old(meetings)[k]) then switcher(old(meetings)[k]) else old(meetings)[k]
        invariant forall k :: i <= k < |meetings| ==> meetings[k] == old(meetings)[k]
        invariant count == |Select(old(meetings)[..i], filter)|
        invariant users == old(users) && dirty == old(dirty)
      {
        assert old(meetings)[..i + 1][..i] == old(meetings)[..i];
        if filter(meetings[i]) {
          meetings := meetings[i := switcher(meetings[i])];
          count := count + 1;
        }
        i := i + 1;
      }
      assert old(meetings)[..|old(meetings)|] == old(meetings);
      if count != 0 {
        dirty := true;
      }
    }

    /** Storage::deleteMeeting: list::remove_if, then the drop in size. */
    method DeleteMeeting(filter: Meeting -> bool) returns (removed: int)
      modifies this
      ensures meetings == Reject(old(meetings), filter)
      ensures removed == |Select(old(meetings), filter)|
      ensures users == old(users)
      ensures dirty == (old(dirty) || removed != 0)
    {
      var size := |meetings|;
      meetings := Reject(meetings, filter);
      removed := size - |meetings|;
      SelectRejectSizes(old(meetings), filter);
      if removed != 0 {
        dirty := true;
      }
    }

    /** Storage::writeToFile, with the file streams left out: whether both
        files could be opened is a parameter. Only a complete write clears
        the dirty flag; the lists are not changed. */
    method WriteToFile(filesOpened: bool) returns (ok: bool)
      modifies this
      ensures ok == filesOpened
      ensures users == old(users) && meetings == old(meetings)
      ensures dirty == (old(dirty) && !ok)
    {
      if !filesOpened {
        return false;
      }
      dirty := false;
      return true;
    }
  }

  // -----------------------------------------------------------------------
  // The participant list in the meetings file: items joined by '&'.

  /** The text of a participant list: the items with '&' between neighbours. */
  function Join(items: seq<string>): string
  {
    if items == [] then ""
    else if |items| == 1 then items[0]
    else items[0] + "&" + Join(items[1..])
  }

  /** The pieces the split loop produces: the text up to each '&', then the rest. */
  function Split(s: string): (parts: seq<string>)
    ensures |parts| >= 1
    decreases |s|
  {
    var pos := Find(s, '&');
    if pos == |s| then [s] else [s[..pos]] + Split(s[pos + 1..])
  }

  /** How many times c occurs in s. */
  function Occurrences(s: string, c: char): nat
  {
    multiset(s)[c]
  }

  /** Joining one more item adds one '&' and the item at the end. */
  lemma {:induction false} JoinSnoc(items: seq<string>, x: string)
    ensures Join(items + [x]) == if items == [] then x else Join(items) + "&" + x
    decreases |items|
  {
    if |items| == 1 {
      assert items + [x] == [items[0], x];
      assert [items[0], x][1..] == [x];
    } else if |items| > 1 {
      assert (items + [x])[1..] == items[1..] + [x];
      JoinSnoc(items[1..], x);
    }
  }

  /** vectorToString: builds the joined text item by item. */
  method VectorToString(items: seq<string>) returns (result: string)
    ensures result == Join(items)
  {
    result := "";
    var isFirstItem := true;
    var i := 0;
    while i < |items|
      invariant 0 <= i <= |items|
      invariant isFirstItem <==> i == 0
      invariant result == Join(items[..i])
    {
      if isFirstItem {
        isFirstItem := false;
      } else {
        result := result + "&";
      }
      result := result + items[i];
      assert items[..i + 1] == items[..i] + [items[i]];
      JoinSnoc(items[..i], items[i]);
      i := i + 1;
    }
    assert items[..|items|] == items;
  }

  /** The split loop of Storage::readFromFile: cuts off the text before each
      '&' until none is left, then keeps the remainder as the last piece. */
  method SplitParticipators(text: string) returns (parts: seq<string>)
    ensures parts == Split(text)
  {
    parts := [];
    var rest := text;
    var pos := Find(rest, '&');
    while pos != |rest|
      invariant pos == Find(rest, '&')
      invariant parts + Split(rest) == Split(text)
      decreases |rest|
    {
      SplitLoopStep(parts, rest, pos);
      parts := parts + [rest[..pos]];
      rest := rest[pos + 1..];
      pos := Find(rest, '&');
    }
    assert Split(rest) == [rest] by {
      SplitStep(rest);
    }
    parts := parts + [rest];
  }

  /** One step of the split: the piece before the first '&', then the split
      of what follows it. */
  lemma SplitStep(s: string)
    ensures Find(s, '&') == |s| ==> Split(s) == [s]
    ensures Find(s, '&') < |s| ==> Split(s) == [s[..Find(s, '&')]] + Split(s[Find(s, '&') + 1..])
  {
  }

  /** Moving the piece before the first '&' from the rest to the pieces
      found so far keeps the whole split. */
  lemma SplitLoopStep(parts: seq<string>, rest: string, pos: nat)
    requires pos == Find(rest, '&') && pos < |rest|
    ensures parts + Split(rest) == (parts + [rest[..pos]]) + Split(rest[pos + 1..])
  {
    var piece, tail := [rest[..pos]], Split(rest[pos + 1..]);
    assert Split(rest) == piece + tail by {
      SplitStep(rest);
    }
    assert parts + (piece + tail) == (parts + piece) + tail;
  }

  /** The split always yields one more piece than there are '&' characters. */
  lemma {:induction false} SplitCount(s: string)
    ensures |Split(s)| == Occurrences(s, '&') + 1
    decreases |s|
  {
    var pos := Find(s, '&');
    SplitStep(s);
    if pos == |s| {
      assert '&' !in multiset(s);
    } else {
      SplitCount(s[pos + 1..]);
      assert s == s[..pos] + [s[pos]] + s[pos + 1..];
      assert '&' !in multiset(s[..pos]);
    }
  }

  /** Joining the pieces of any text restores the text. */
  lemma {:induction false} JoinSplit(s: string)
    ensures Join(Split(s)) == s
    decreases |s|
  {
    var pos := Find(s, '&');
    SplitStep(s);
    if pos != |s| {
      var front, back := s[..pos], s[pos + 1..];
      assert Split(s) == [front] + Split(back);
      assert Join(Split(s)) == front + "&" + Join(Split(back)) by {
        JoinCons(front, Split(back));
      }
      JoinSplit(back);
      assert s == front + "&" + back by {
        assert s == s[..pos] + [s[pos]] + s[pos + 1..];
      }
    }
  }

  lemma JoinCons(x: string, rest: seq<string>)
    requires rest != []
    ensures Join([x] + rest) == x + "&" + Join(rest)
  {
    assert ([x] + rest)[1..] == rest;
  }

  /** Splitting the text of a non-empty list of '&'-free items gives the items back. */
  lemma {:induction false} SplitJoin(items: seq<string>)
    requires items != []
    requires forall i :: 0 <= i < |items| ==> '&' !in items[i]
    ensures Split(Join(items)) == items
    decreases |items|
  {
    var head := items[0];
    if |items| == 1 {
      SplitStep(head);
    } else {
      var tail := items[1..];
      assert Join(items) == head + "&" + Join(tail) by {
        assert items == [head] + tail;
        JoinCons(head, tail);
      }
      SplitAtFirst(head, Join(tail));
      SplitJoin(tail);
      assert items == [head] + tail;
    }
  }

  /** A text that starts with an '&'-free piece and an '&' splits into that
      piece followed by the split of the rest. */
  lemma SplitAtFirst(a: string, b: string)
    requires '&' !in a
    ensures Split(a + "&" + b) == [a] + Split(b)
  {
    var s := a + "&" + b;
    assert s[..|a|] == a && s[|a|] == '&';
    assert s[|a| + 1..] == b;
    FindAfterPrefix(a, s);
    SplitStep(s);
  }

  lemma FindAfterPrefix(head: string, s: string)
    requires '&' !in head
    requires |s| > |head| && s[..|head|] == head && s[|head|] == '&'
    ensures Find(s, '&') == |head|
  {
  }
}
