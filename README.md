# Agenda meeting scheduler — a Dafny model

Agenda is a console meeting scheduler. Users register with a name, password, email and phone. A logged-in user can sponsor meetings with a title, a start and end time written `yyyy-mm-dd/hh:mm`, and a list of participants. The user can then list, query and delete meetings. This project models the engine behind the console, and proves what the engine promises:

- **Dates** (`date.dfy`, module `Dates`). A date is five integers, checked by the Gregorian validity rules. It has a fixed text format with a parser and a formatter. The comparison operators compare the formatted texts.
  - The model proves that the parser and formatter are inverse in both directions.
  - It proves that text order is chronological order on valid dates.
  - It proves that the derived operators `<`, `>=` and `<=` behave as a trichotomy.
- **Meetings** (`meeting.dfy`, module `Meetings`). A meeting is a value holding a sponsor, a participant list, two dates and a title. The model covers membership, appending a participant, removing a participant's first occurrence, and the setters.
- **The store** (`storage.dfy`, module `Store`). The class `Storage` holds the user list, the meeting list and the dirty flag.
  - Filters and switchers are higher-order parameters. Query, append, update-with-count and delete-with-count are loops or list operations, each proved against the order-preserving `Select`/`Reject` of module `Seqs`.
  - Module `Store` also holds the `&` join and split of participant lists.
- **The engine** (`agenda_service.dfy`, module `Agenda`). The class `AgendaService` covers:
  - registration and login;
  - meeting creation, with its ordered checks and the three-clause busy test;
  - the filter queries, including the closed-interval time query;
  - the deleteUser cascade, and deletion by title or by sponsor.
  
  Every mutating operation provably keeps the store invariant `AgendaInvariant`: names are unique, stored meetings are well formed, titles are unique, nobody attends two overlapping meetings, and every attendee is registered.
- **Console helpers** (`agenda_ui.dfy`, module `Console`): the space tokenizer, the participant join and the login-state guard.

The engine has no preconditions. It reports every failure by returning `false`, so the model states each operation's effect for both outcomes.

Behaviour worth knowing, all modelled as the code does it:

- **deleteUser removes meetings.** It removes every meeting the user sponsors *or takes part in* (src/AgendaService.cpp:66-70). The test at gtest/src/AgendaServiceTest.cpp:516-526 instead expects a deleted participant to be dropped from the participant list while the meeting survives. `Agenda.AgendaService.DeleteUser` states what the code does.
- **Empty participant lists are accepted.** createMeeting accepts an empty participant list. Only the console's command handler refuses one. Such a meeting does not survive a save and reload. Its participant field is written as `Join([]) == ""`, and the meetings-file pattern needs a non-empty field (src/Storage.cpp:47-52), so the next load fails with `wrong_format`. Even without the pattern, `Split("")` is `[""]`, not `[]`; this is why `Store.SplitJoin` requires a non-empty list.
- **createMeeting stores parsed dates.** The stored meeting gets the dates parsed from the text arguments, through Date's string constructor, which is `stringToDate`.
- **Two invalid dates compare equal.** Both format as `0000-00-00/00:00`. So the comparisons are a total order on texts, not on field values.

## Model

| member | source | states |
|---|---|---|
| Dates.MonthLength | src/Date.cpp:10 | month lengths are 28 to 31, and 29 exactly for February of a leap year |
| Dates.IsLeap | src/Date.cpp:17-19 | defines the Gregorian leap-year rule |
| Dates.IsValid | src/Date.cpp:120-137 | defines isValid's checks in their source order, with the early accept of 29 February in a leap year |
| Dates.ValidIsInRange | src/Date.cpp:120-137 | the ordered checks of isValid, including the early accept of 29 February, amount to every field in range with the day within its month's length |
| Dates.LeapDay | src/Date.cpp:17-19 | 29 February is valid exactly in leap years; 1900 and 2100 are not leap, 2000 is |
| Dates.DigitChar | src/Date.cpp:26-32 | a digit value becomes a decimal digit character |
| Dates.DigitRoundTrip | src/Date.cpp:151-152 | a digit character's value and the character for a value are inverse |
| Dates.NatToString | src/Date.cpp:27 | defines to_string on a non-negative number: its decimal digits, no leading zero |
| Dates.IntToString | src/Date.cpp:171 | defines to_string on any integer, with a minus sign for a negative one |
| Dates.FormatString | src/Date.cpp:26-32 | defines formatString: to_string with a '0' in front of any number below ten |
| Dates.Number | src/Date.cpp:151-152 | defines stoi on a run of decimal digits |
| Dates.Matches | src/Date.cpp:145-149 | defines the pattern the parser matches: four digits, '-', two, '-', two, '/', two, ':', two |
| Dates.DateToString | src/Date.cpp:165-176 | an invalid date gives "0000-00-00/00:00"; a valid one gives text of the exact 4-2-2/2:2 digit shape |
| Dates.StringToDate | src/Date.cpp:144-159 | the result is a valid date or the zero date, and a valid result comes from text of the exact digit shape |
| Dates.ShortFieldsRejected | src/Date.cpp:145-149 | "2019-7-10/15:00" and "2019-07-11/19:0" parse to the zero date |
| Dates.FormatTwoDigits | src/Date.cpp:26-32 | formatString of 0..99 is exactly two zero-padded digits |
| Dates.FormatYear | src/Date.cpp:171 | to_string of a four-digit year is its two two-digit halves |
| Dates.TextLayout | src/Date.cpp:170-173 | the formatted text is the concatenation of the year, month, day and time pieces |
| Dates.LayoutMatches | src/Date.cpp:145 | the formatted text of a valid date matches the parser's pattern |
| Dates.NumberOfPair | src/Date.cpp:151-152 | stoi of two digits is their value, and zero-padding it gives the text back |
| Dates.NumberOfQuad | src/Date.cpp:151 | stoi of four digits is 100 times the first pair plus the second |
| Dates.NumberOfPad2 | src/Date.cpp:151-152 | stoi inverts two-digit zero-padding |
| Dates.LayoutSlices | src/Date.cpp:165-176 | every field of an in-range date sits zero-padded at its fixed position of the text |
| Dates.FormattedLayout | src/Date.cpp:165-176 | the formatted text of a valid date is its fixed-width layout, and every field is in range |
| Dates.LayoutNumbers | src/Date.cpp:151-152 | stoi of each fixed-position field of the layout gives back that field of the date |
| Dates.ParseFormatted | src/Date.cpp:144-176 | parsing the formatted text of a valid date gives the same date, field for field |
| Dates.ParsedFields | src/Date.cpp:144-159 | a text that parses to a valid date matches the pattern and holds each parsed field, zero-padded, at its position |
| Dates.FormatParsed | src/Date.cpp:144-176 | a text that parses to a valid date is reproduced exactly by formatting it |
| Dates.StrLess | src/Date.cpp:201-203 | defines std::string order: character by character, a proper prefix first |
| Dates.StrLessIrreflexive | src/Date.cpp:202 | no text is before itself in std::string order |
| Dates.StrLessTransitive | src/Date.cpp:202 | std::string order is transitive |
| Dates.StrLessTotal | src/Date.cpp:202 | any two different texts are ordered one way and not both |
| Dates.StrLessConcat | src/Date.cpp:202 | texts with equal-length prefixes compare by prefix first, then by the rest |
| Dates.Pad2Order | src/Date.cpp:26-32 | two-digit texts compare as their numbers |
| Dates.FieldOrder | src/Date.cpp:170-173 | a separator followed by two digits compares as the number |
| Dates.TimeTextOrder | src/Date.cpp:172-173 | the hh:mm piece orders by (hour, minute) |
| Dates.DayTextOrder | src/Date.cpp:171-173 | the day piece onward orders by (day, hour, minute) |
| Dates.MonthTextOrder | src/Date.cpp:171-173 | the month piece onward orders by (month, day, hour, minute) |
| Dates.YearTextOrder | src/Date.cpp:171 | the year piece orders by year |
| Dates.Eq | src/Date.cpp:194-196 | defines operator== as equality of the formatted texts |
| Dates.Gt | src/Date.cpp:201-203 | defines operator> as std::string order on the formatted texts |
| Dates.Lt | src/Date.cpp:208 | defines operator< as the negation of >= |
| Dates.Ge | src/Date.cpp:213-215 | defines operator>= as > or == |
| Dates.Le | src/Date.cpp:220 | defines operator<= as the negation of > |
| Dates.TextOrderIsChronological | src/Date.cpp:165-176 | on valid dates, text order is lexicographic order on (year, month, day, hour, minute) |
| Dates.Trichotomy | src/Date.cpp:194-220 | `<` is text order and the converse of `>`; `<=` is `<` or `==`; `>=` is the converse of `<=`; exactly one of `<`, `==`, `>` holds |
| Dates.ComparisonIsChronological | src/Date.cpp:194-203 | on valid dates `==` is field equality and `>`/`<` are chronological order; two invalid dates are equal and neither is before the other |
| Meetings.Meeting.IsParticipator | src/Meeting.cpp:120-123 | true exactly when the name occurs in the participant list |
| Meetings.Meeting.AddParticipator | src/Meeting.cpp:59-61 | the name is appended with no duplicate check; sponsor, dates and title are unchanged |
| Meetings.Meeting.RemoveParticipator | src/Meeting.cpp:67-75 | an absent name changes nothing; otherwise the first occurrence is erased and the other participants keep their order, so one copy goes and the length drops by one; the other fields are unchanged |
| Meetings.Meeting.SetSponsor | src/Meeting.cpp:35-37 | only the sponsor changes |
| Meetings.Meeting.SetParticipator | src/Meeting.cpp:51-53 | only the participant list changes |
| Meetings.Meeting.SetStartDate | src/Meeting.cpp:87-89 | only the start date changes |
| Meetings.Meeting.SetEndDate | src/Meeting.cpp:101 | only the end date changes |
| Meetings.Meeting.SetTitle | src/Meeting.cpp:113 | only the title changes |
| Meetings.RemoveFromDistinct | src/Meeting.cpp:67-75 | on a duplicate-free list, removal drops exactly that name, keeps the others in order, leaves the name no longer a participant, and keeps the list duplicate-free |
| Meetings.RemoveFirstOfDuplicates | src/Meeting.cpp:67-75 | on a list holding a name twice, removing it erases the earlier copy only |
| Seqs.Find | src/Meeting.cpp:121-122 | std::find gives the first index holding the value, or the length when it is absent |
| Seqs.FindFrom | src/AgendaUI.cpp:90 | find from a position: the first occurrence at or after it, or the end |
| Seqs.FindAbsent | src/Meeting.cpp:121-122 | the search reaches the end exactly when the value does not occur |
| Seqs.SelectMembers | src/Storage.cpp:175-183 | a query result holds exactly the elements that pass the filter |
| Seqs.RejectMembers | src/Storage.cpp:212-222 | the survivors of remove_if are exactly the elements that fail the filter |
| Seqs.SelectEmpty | src/AgendaService.cpp:263-269 | the selection is empty exactly when no element passes the filter |
| Seqs.RejectKeepsPairwise | src/Storage.cpp:212-222 | remove_if keeps the survivors in their relative order, so any property of every ordered pair survives |
| Seqs.SelectRejectSizes | src/Storage.cpp:212-222 | the matches and the survivors of a filter add up to the whole list |
| Store.Storage.constructor | src/Storage.cpp:16 | the store starts from the loaded lists and is clean |
| Store.Storage.CreateUser | src/Storage.cpp:165-168 | appends the user last and sets the dirty flag |
| Store.Storage.QueryUser | src/Storage.cpp:175-183 | exactly the users passing the filter, in list order; nothing changes |
| Store.Storage.UpdateUser | src/Storage.cpp:191-205 | the switcher is applied to exactly the matching users; length and others unchanged; returns the match count; dirty only if something matched |
| Store.Storage.DeleteUser | src/Storage.cpp:212-222 | keeps exactly the non-matching users in order; returns the number removed; dirty only if something was removed |
| Store.Storage.CreateMeeting | src/Storage.cpp:228-231 | appends the meeting last and sets the dirty flag |
| Store.Storage.QueryMeeting | src/Storage.cpp:238-247 | exactly the meetings passing the filter, in list order; nothing changes |
| Store.Storage.UpdateMeeting | src/Storage.cpp:255-269 | the switcher is applied to exactly the matching meetings; length and others unchanged; returns the match count; dirty only if something matched |
| Store.Storage.DeleteMeeting | src/Storage.cpp:276-286 | keeps exactly the non-matching meetings in order; returns the number removed; dirty only if something was removed |
| Store.Storage.WriteToFile | src/Storage.cpp:109-141 | the lists are unchanged; the dirty flag is cleared only by a write whose files opened |
| Store.Split | src/Storage.cpp:58-69 | the split always yields at least one piece |
| Store.Join | src/Storage.cpp:88-103 | defines the participant text: the items with one '&' between neighbours, "" for no items |
| Store.JoinSnoc | src/Storage.cpp:92-100 | one more item adds a single '&' and the item, with no '&' before the first item |
| Store.VectorToString | src/Storage.cpp:88-103 | the loop builds the '&'-join: '&' only between neighbours, "" for no items |
| Store.SplitParticipators | src/Storage.cpp:58-69 | the erase-and-find loop yields the pieces between '&'s, then the remainder |
| Store.SplitCount | src/Storage.cpp:58-69 | the number of pieces is the number of '&' plus one |
| Store.JoinSplit | src/Storage.cpp:58-69 | joining the pieces of any text gives the text back |
| Store.SplitJoin | src/Storage.cpp:88-103 | a non-empty list of items without '&' is recovered by splitting its join |
| Store.SplitAtFirst | src/Storage.cpp:58-69 | a piece without '&' followed by '&' splits off as the first piece |
| Agenda.AgendaService.constructor | src/AgendaService.cpp:287-289 | the service works on the store it is connected to |
| Agenda.ParticipantsAcceptable | src/AgendaService.cpp:112-128 | defines the per-participant checks: not the sponsor, registered, no earlier repeat |
| Agenda.ThreeClause | src/AgendaService.cpp:136-143 | defines the three busy clauses of createMeeting's filter, in source order |
| Agenda.Blocks | src/AgendaService.cpp:130-161 | defines createMeeting's filter: the same title, or the sponsor or some participant attends and is busy |
| Agenda.CanCreate | src/AgendaService.cpp:93-164 | defines what createMeeting accepts: both dates parse and are valid, start before end, registered sponsor, acceptable participants, no blocking meeting |
| Agenda.AgendaService.UserLogIn | src/AgendaService.cpp:25-31 | true exactly when some user has this name and password; nothing changes |
| Agenda.AgendaService.UserRegister | src/AgendaService.cpp:41-51 | false with the store unchanged when the name is taken; otherwise exactly one user with the given fields is appended; the invariant, including unique names, is kept |
| Agenda.AgendaService.DeleteUser | src/AgendaService.cpp:59-72 | false with the store unchanged unless some user has this name and password; on success no such user and no meeting involving the name remains, other users and meetings are kept in order, and the invariant is kept |
| Agenda.AgendaService.ListAllUsers | src/AgendaService.cpp:78-82 | the whole user list |
| Agenda.AgendaService.CreateMeeting | src/AgendaService.cpp:93-169 | true exactly when the dates parse and are valid, start is before end, the sponsor is registered, the participants are acceptable and no stored meeting has the title or a busy attendee; then exactly the new meeting is appended with the parsed dates; on false nothing changes; the invariant is kept |
| Agenda.AgendaService.CheckParticipators | src/AgendaService.cpp:112-128 | true exactly when no participant is the sponsor, all are registered and none repeats an earlier one |
| Agenda.AgendaService.MeetingQueryByTitle | src/AgendaService.cpp:177-186 | the user's meetings with this title, in store order |
| Agenda.AgendaService.MeetingQueryByInterval | src/AgendaService.cpp:195-214 | empty for an invalid date or a reversed interval; otherwise the user's meetings in store order with start <= e and s <= end |
| Agenda.AgendaService.ListAllMeetings | src/AgendaService.cpp:221-227 | the meetings the user sponsors or takes part in, in store order |
| Agenda.AgendaService.ListAllSponsorMeetings | src/AgendaService.cpp:234-241 | the meetings the user sponsors, in store order |
| Agenda.AgendaService.ListAllParticipateMeetings | src/AgendaService.cpp:248-255 | the meetings the user takes part in, in store order |
| Agenda.AgendaService.DeleteMeeting | src/AgendaService.cpp:263-269 | removes every meeting with this sponsor and title, keeps the rest in order, true exactly when one existed; the invariant is kept |
| Agenda.AgendaService.DeleteAllMeetings | src/AgendaService.cpp:276-282 | removes every meeting this user sponsors, keeps the rest in order, true exactly when one existed; the invariant is kept |
| Agenda.ThreeClauseIsOverlap | src/AgendaService.cpp:136-143 | for a stored interval with start before end and a candidate with start before end, the three-clause busy test holds exactly when the half-open intervals intersect |
| Agenda.BackToBackIsFree | src/AgendaService.cpp:136-143 | a candidate that starts when the stored meeting ends, or ends when it starts, is not busy |
| Agenda.ClosedInterval | src/AgendaService.cpp:207-211 | the time query's test is the closed-interval intersection, which on valid dates is chronological |
| Agenda.EndpointQueriesMatch | src/AgendaService.cpp:207-211 | a query for the single instant at which one of the user's meetings starts or ends finds that meeting |
| Agenda.EqualDatesRejected | src/AgendaService.cpp:101 | a meeting whose start equals its end is refused |
| Agenda.RegisterKeepsInvariant | src/AgendaService.cpp:47-50 | appending a user with a fresh name keeps the store invariant |
| Agenda.DeleteUserKeepsInvariant | src/AgendaService.cpp:59-72 | removing the user and every meeting involving the name keeps the store invariant, so no meeting is left with an unregistered attendee |
| Agenda.DeleteMeetingsKeepInvariant | src/AgendaService.cpp:263-282 | removing any meetings keeps the store invariant |
| Agenda.NewMeetingFits | src/AgendaService.cpp:130-161 | a new meeting that no stored meeting blocks has a different title from each stored meeting and overlaps none that shares an attendee |
| Agenda.CreateKeepsInvariant | src/AgendaService.cpp:93-169 | a meeting that passed every check keeps the store invariant once appended |
| Console.SkipSpaces | src/AgendaUI.cpp:99-100 | the run of spaces ends at the first non-space or the end of the line |
| Console.SkipSpaceRun | src/AgendaUI.cpp:99-100 | the inner loop stops exactly where the run of spaces ends |
| Console.TokensFrom | src/AgendaUI.cpp:89-103 | defines the tokens the loop appends from a position: the text up to the next space, then the tokens after the space run, stopping when the spaces reach the end |
| Console.Tokens | src/AgendaUI.cpp:83-106 | defines the tokens of a line, none for the empty line |
| Console.Tokenize | src/AgendaUI.cpp:83-106 | an empty line appends nothing and returns 0; otherwise the old contents stay as a prefix, the line's tokens are appended, and the count of appended tokens is returned |
| Console.TokensHaveNoSpace | src/AgendaUI.cpp:90-97 | no token contains a space |
| Console.SpacelessLineIsOneToken | src/AgendaUI.cpp:90-95 | a non-empty line without spaces is a single token equal to the line |
| Console.LaterTokensNonEmpty | src/AgendaUI.cpp:97-102 | tokens after the first are non-empty, and the first is empty exactly when the tokens start at a space |
| Console.TokenShapes | src/AgendaUI.cpp:89-103 | space runs and trailing spaces make no empty tokens; the first token is empty exactly when the line starts with a space |
| Console.ConcatTokensFrom | src/AgendaUI.cpp:89-103 | the tokens from a position, joined back together, are the rest of the line without its spaces |
| Console.SpacesRemoved | src/AgendaUI.cpp:89-103 | the tokens, joined back together, are the line with every space removed |
| Console.TurnVectorToString | src/AgendaUI.cpp:66-81 | gives the same '&'-join as the store's vectorToString |
| Console.CheckLoginState | src/AgendaUI.cpp:143-154 | a permission error exactly when the required and actual login states differ, with a message naming the action |

## Left out

- addMeetingParticipator, removeMeetingParticipator and quitMeeting are exercised by the tests but are not defined in src/AgendaService.cpp. They are not part of this model. Their building blocks are modelled: `Meeting.AddParticipator`, `Meeting.RemoveParticipator`, `Storage.UpdateMeeting` and `Storage.DeleteMeeting`.
- File persistence: the file streams, the quoted-CSV regular expressions of readFromFile and writeToFile, the getInstance singleton, the destructor's final write and sync. Whether the output files could be opened is a parameter of `WriteToFile`. The constructor receives the lists as read. Only the `&` join and split of participant lists is modelled.
- Console input and output: the manual, the prompts, getStrippedLine, getArguments, the operation loop and the per-command handlers. These read standard input and write standard output. getStrippedLine's trailing loop also moves its index the wrong way (src/AgendaUI.cpp:117), which leaves it without a meaningful result to state.
- The Logger, the signal handling and `main`, and the path constants: they do not affect the modelled behaviour.
- The User getters and setters, and Date's getters, setters and assignment operator: plain field access, which the datatypes' fields and updates give directly.
- Meeting is a value copied in and out of the store, so its mutators are modelled as functions returning the updated meeting. The datatype constructor stores each field as given. Aliasing does not arise.
- The error classes of include/Exception.hpp appear as a datatype. Only the permission error is produced, by `CheckLoginState`. Their `type()` strings and the console's catch-and-print are left out.
- Integer width: `int` fields and counts are unbounded. Nothing modelled depends on overflow, because the date fields that matter are validated into small ranges.
- Console.CheckLoginState: states that the message starts with the action in "Command (...)". It does not restate the two fixed message suffixes word for word.
