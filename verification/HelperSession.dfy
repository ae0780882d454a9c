/** The session entries of HelperRunner::run (legacy/gui/src/HelperRunner.cpp, 950-996):
    three known environment entries become helper options, and anything else refuses the
    run before a helper starts. */
module HelperSession {
  import opened Outcomes

  /** The names of the three entries. */
  datatype Names = Names(protocol: string, request: string, answer: string)

  function SessionNames(): Names {
    Names("BOOT_REPAIR_SESSION_PROTOCOL", "BOOT_REPAIR_SESSION_REQUEST", "BOOT_REPAIR_LEGACY_MENU_ANSWER_FILE")
  }

  datatype Session = Session(request: string, answer: string)

  datatype Refusal = Unsupported(name: string) | Malformed | Partial

  /** What the loop has seen: the first refusal, and which entries. */
  datatype State = State(protocol: bool, request: Option<string>, answer: Option<string>, refusal: Option<Refusal>)

  /** The first '=', or -1. */
  function FindEquals(entry: string, from: nat): int
    decreases |entry| - from
  {
    if from >= |entry| then -1 else if entry[from] == '=' then from else FindEquals(entry, from + 1)
  }

  /** The texts around the first '='; empty without one, or without a name. */
  function NameAndValue(entry: string): (string, string) {
    var eq := FindEquals(entry, 0);
    if 0 < eq < |entry| then (entry[..eq], entry[eq + 1..]) else ("", "")
  }

  function Taken(names: Names, state: State, name: string, value: string): State {
    if state.refusal.Some? then state
    else if name == names.protocol && value == "1" && !state.protocol then state.(protocol := true)
    else if name == names.request && state.request.None? then state.(request := Some(value))
    else if name == names.answer && state.answer.None? then state.(answer := Some(value))
    else if name != "" then state.(refusal := Some(Unsupported(name)))
    else state.(refusal := Some(Malformed))
  }

  function Seen(names: Names, state: State, entry: string): State {
    Taken(names, state, NameAndValue(entry).0, NameAndValue(entry).1)
  }

  function SeenAll(names: Names, entries: seq<string>): State {
    if entries == [] then State(false, None, None, None)
    else Seen(names, SeenAll(names, entries[..|entries| - 1]), entries[|entries| - 1])
  }

  /** No session, a whole session, or a refusal. */
  function Verdict(state: State): Result<Option<Session>, Refusal> {
    if state.refusal.Some? then Err(state.refusal.value)
    else if state.protocol && state.request.Some? && state.answer.Some? then
      Ok(Some(Session(state.request.value, state.answer.value)))
    else if state.protocol || state.request.Some? || state.answer.Some? then Err(Partial)
    else Ok(None)
  }

  lemma {:induction false} RefusalStays(names: Names, entries: seq<string>, i: nat)
    requires i <= |entries| && SeenAll(names, entries[..i]).refusal.Some?
    ensures SeenAll(names, entries) == SeenAll(names, entries[..i])
    decreases |entries|
  {
    if i < |entries| {
      var init := entries[..|entries| - 1];
      assert init[..i] == entries[..i];
      RefusalStays(names, init, i);
    } else {
      assert entries[..i] == entries;
    }
  }

  method ConvertEntries(names: Names, entries: seq<string>) returns (verdict: Result<Option<Session>, Refusal>)
    ensures verdict == Verdict(SeenAll(names, entries))
  {
    var state := State(false, None, None, None);
    var i := 0;
    while i < |entries| && state.refusal.None?
      invariant i <= |entries| && state == SeenAll(names, entries[..i])
    {
      assert entries[..i + 1][..i] == entries[..i];
      state := Seen(names, state, entries[i]);
      i := i + 1;
    }
    if state.refusal.Some? {
      RefusalStays(names, entries, i);
    } else {
      assert entries[..i] == entries;
    }
    return Verdict(state);
  }

  // ----- Exactly the three entries --------------------------------------------

  /** Different names that no '=' is part of. */
  ghost predicate Usable(names: Names) {
    && names.protocol != names.request && names.request != names.answer && names.answer != names.protocol
    && names.protocol != "" && names.request != "" && names.answer != ""
    && '=' !in names.protocol && '=' !in names.request && '=' !in names.answer
  }

  function Entry(name: string, value: string): string { name + "=" + value }

  lemma {:induction false} EqualsBehind(entry: string, from: nat, end: nat)
    requires from <= end < |entry| && entry[end] == '=' && forall i | from <= i < end :: entry[i] != '='
    ensures FindEquals(entry, from) == end
    decreases end - from
  {
    if from < end {
      EqualsBehind(entry, from + 1, end);
    }
  }

  lemma {:induction false} EqualsFound(entry: string, from: nat)
    requires FindEquals(entry, from) >= 0
    ensures from <= FindEquals(entry, from) < |entry| && entry[FindEquals(entry, from)] == '='
    decreases |entry| - from
  {
    if from < |entry| && entry[from] != '=' {
      EqualsFound(entry, from + 1);
    }
  }

  /** An entry has a name and a value exactly if it is the name, '=' and the value. */
  lemma EntryIff(entry: string, name: string, value: string)
    requires name != "" && '=' !in name
    ensures NameAndValue(entry) == (name, value) <==> entry == Entry(name, value)
  {
    var eq := FindEquals(entry, 0);
    if entry == Entry(name, value) {
      EqualsBehind(entry, 0, |name|);
      assert entry[..|name|] == name && entry[|name| + 1..] == value;
    }
    if NameAndValue(entry) == (name, value) {
      EqualsFound(entry, 0);
      assert entry == entry[..eq] + [entry[eq]] + entry[eq + 1..];
    }
  }

  ghost function Part(seen: bool, entry: string): multiset<string> {
    if seen then multiset{entry} else multiset{}
  }

  ghost function RequestPart(names: Names, request: Option<string>): multiset<string> {
    match request case Some(value) => multiset{Entry(names.request, value)} case None => multiset{}
  }

  ghost function AnswerPart(names: Names, answer: Option<string>): multiset<string> {
    match answer case Some(value) => multiset{Entry(names.answer, value)} case None => multiset{}
  }

  /** The entries a state without a refusal has seen. */
  ghost function Account(names: Names, state: State): multiset<string> {
    Part(state.protocol, Entry(names.protocol, "1")) + RequestPart(names, state.request)
    + AnswerPart(names, state.answer)
  }

  lemma OneMore(a: multiset<string>, b: multiset<string>, c: multiset<string>, e: multiset<string>)
    ensures (a + e) + b + c == (a + b + c) + e
    ensures a + (b + e) + c == (a + b + c) + e
    ensures a + b + (c + e) == (a + b + c) + e
  {
  }

  /** One entry that is taken is accounted for. */
  lemma SeenAccount(names: Names, state: State, entry: string)
    requires Usable(names) && Seen(names, state, entry).refusal.None?
    ensures Account(names, Seen(names, state, entry)) == Account(names, state) + multiset{entry}
  {
    var (name, value) := NameAndValue(entry);
    if name == names.protocol {
      EntryIff(entry, names.protocol, value);
    } else if name == names.request {
      EntryIff(entry, names.request, value);
    } else if name == names.answer {
      EntryIff(entry, names.answer, value);
    }
    TakenAccount(names, state, name, value);
  }

  lemma TakenAccount(names: Names, state: State, name: string, value: string)
    requires Usable(names) && Taken(names, state, name, value).refusal.None?
    ensures name == names.protocol || name == names.request || name == names.answer
    ensures Account(names, Taken(names, state, name, value)) == Account(names, state) + multiset{Entry(name, value)}
  {
    if name == names.protocol {
      ProtocolTaken(names, state, value);
    } else if name == names.request {
      RequestTaken(names, state, value);
    } else {
      AnswerTaken(names, state, value);
    }
  }

  lemma ProtocolTaken(names: Names, state: State, value: string)
    requires !state.protocol && value == "1"
    ensures Account(names, state.(protocol := true))
            == Account(names, state) + multiset{Entry(names.protocol, value)}
  {
    var e := multiset{Entry(names.protocol, value)};
    OneMore(multiset{}, RequestPart(names, state.request), AnswerPart(names, state.answer), e);
    NothingAnd(e);
  }

  lemma RequestTaken(names: Names, state: State, value: string)
    requires state.request.None?
    ensures Account(names, state.(request := Some(value)))
            == Account(names, state) + multiset{Entry(names.request, value)}
  {
    var e := multiset{Entry(names.request, value)};
    OneMore(Part(state.protocol, Entry(names.protocol, "1")), multiset{}, AnswerPart(names, state.answer), e);
    NothingAnd(e);
  }

  lemma AnswerTaken(names: Names, state: State, value: string)
    requires state.answer.None?
    ensures Account(names, state.(answer := Some(value)))
            == Account(names, state) + multiset{Entry(names.answer, value)}
  {
    var e := multiset{Entry(names.answer, value)};
    OneMore(Part(state.protocol, Entry(names.protocol, "1")), RequestPart(names, state.request), multiset{}, e);
    NothingAnd(e);
  }

  lemma NothingAnd(e: multiset<string>)
    ensures multiset{} + e == e
  {
  }

  lemma OneMoreEntry(entries: seq<string>, last: string)
    ensures multiset(entries + [last]) == multiset(entries) + multiset{last}
  {
  }

  lemma OneMoreAccounted(names: Names, entries: seq<string>, before: State, entry: string, after: State)
    requires Usable(names) && after == Seen(names, before, entry) && after.refusal.None?
    requires multiset(entries) == Account(names, before)
    ensures multiset(entries + [entry]) == Account(names, after)
  {
    SeenAccount(names, before, entry);
    OneMoreEntry(entries, entry);
  }

  lemma SeenAllMore(names: Names, entries: seq<string>, entry: string, before: State, after: State)
    requires before == SeenAll(names, entries) && after == SeenAll(names, entries + [entry])
    ensures after == Seen(names, before, entry) && (before.refusal.Some? ==> after.refusal.Some?)
  {
    assert (entries + [entry])[..|entries|] == entries;
  }

  lemma {:induction false} AllAccounted(names: Names, entries: seq<string>, state: State)
    requires Usable(names) && state == SeenAll(names, entries) && state.refusal.None?
    ensures multiset(entries) == Account(names, state)
    decreases |entries|
  {
    if entries != [] {
      var init, last := entries[..|entries| - 1], entries[|entries| - 1];
      var before := SeenAll(names, init);
      assert entries == init + [last];
      SeenAllMore(names, init, last, before, state);
      AllAccounted(names, init, before);
      OneMoreAccounted(names, init, before, last, state);
    }
  }

  /** One of the three entries that was not seen yet is taken. */
  lemma KnownTaken(names: Names, state: State, entry: string, session: Session)
    requires Usable(names) && state.refusal.None?
    requires || (entry == Entry(names.protocol, "1") && !state.protocol)
             || (entry == Entry(names.request, session.request) && state.request.None?)
             || (entry == Entry(names.answer, session.answer) && state.answer.None?)
    ensures Seen(names, state, entry).refusal.None?
  {
    EntryIff(entry, names.protocol, "1");
    EntryIff(entry, names.request, session.request);
    EntryIff(entry, names.answer, session.answer);
  }

  ghost function Whole(names: Names, session: Session): multiset<string> {
    multiset{Entry(names.protocol, "1"), Entry(names.request, session.request), Entry(names.answer, session.answer)}
  }

  lemma EntriesDiffer(names: Names, session: Session)
    requires Usable(names)
    ensures var p, r := Entry(names.protocol, "1"), Entry(names.request, session.request);
            var a := Entry(names.answer, session.answer);
            p != r && r != a && a != p
  {
    EntryIff(Entry(names.protocol, "1"), names.protocol, "1");
    EntryIff(Entry(names.request, session.request), names.request, session.request);
    EntryIff(Entry(names.answer, session.answer), names.answer, session.answer);
  }

  /** A part of the three entries is taken in any order. */
  lemma {:induction false} PartTaken(names: Names, entries: seq<string>, session: Session)
    requires Usable(names) && multiset(entries) <= Whole(names, session)
    ensures SeenAll(names, entries).refusal.None?
  {
    if entries != [] {
      var init, last := entries[..|entries| - 1], entries[|entries| - 1];
      assert entries == init + [last];
      OneMoreEntry(init, last);
      PartTaken(names, init, session);
      AllAccounted(names, init, SeenAll(names, init));
      EntriesDiffer(names, session);
      LastIsNew(names, SeenAll(names, init), last, session);
      KnownTaken(names, SeenAll(names, init), last, session);
    }
  }

  /** What is still missing of the three entries was not seen yet. */
  lemma LastIsNew(names: Names, state: State, last: string, session: Session)
    requires Usable(names) && Account(names, state) + multiset{last} <= Whole(names, session)
    ensures || (last == Entry(names.protocol, "1") && !state.protocol)
            || (last == Entry(names.request, session.request) && state.request.None?)
            || (last == Entry(names.answer, session.answer) && state.answer.None?)
  {
    EntriesDiffer(names, session);
    assert last in Account(names, state) + multiset{last};
    StateFits(names, state, session);
  }

  lemma StateFits(names: Names, state: State, session: Session)
    requires Usable(names) && Account(names, state) <= Whole(names, session)
    ensures state.request.Some? ==> state.request.value == session.request
    ensures state.answer.Some? ==> state.answer.value == session.answer
  {
    if state.request.Some? {
      var e := Entry(names.request, state.request.value);
      assert e in Account(names, state);
      EntryIs(names, names.request, state.request.value, session);
    }
    if state.answer.Some? {
      var e := Entry(names.answer, state.answer.value);
      assert e in Account(names, state);
      EntryIs(names, names.answer, state.answer.value, session);
    }
  }

  lemma EntryIs(names: Names, name: string, value: string, session: Session)
    requires Usable(names) && Entry(name, value) in Whole(names, session)
    requires name == names.request || name == names.answer
    ensures name == names.request ==> value == session.request
    ensures name == names.answer ==> value == session.answer
  {
    EntryIff(Entry(name, value), name, value);
    EntryIff(Entry(names.protocol, "1"), names.protocol, "1");
    EntryIff(Entry(names.request, session.request), names.request, session.request);
    EntryIff(Entry(names.answer, session.answer), names.answer, session.answer);
  }

  lemma WholeIff(names: Names, entries: seq<string>, state: State, session: Session)
    requires Usable(names) && state == SeenAll(names, entries)
    ensures Verdict(state) == Ok(Some(session)) <==> multiset(entries) == Whole(names, session)
  {
    if state.refusal.None? {
      AllAccounted(names, entries, state);
    }
    if multiset(entries) == Whole(names, session) {
      PartTaken(names, entries, session);
      StateFits(names, state, session);
      WholeSeen(names, state, session);
    } else if Verdict(state) == Ok(Some(session)) {
      WholeAccount(names, state, session);
    }
  }

  lemma WholeAccount(names: Names, state: State, session: Session)
    requires state.protocol && state.request == Some(session.request) && state.answer == Some(session.answer)
    ensures Account(names, state) == Whole(names, session)
  {
  }

  lemma NoneIff(names: Names, entries: seq<string>, state: State)
    requires Usable(names) && state == SeenAll(names, entries)
    ensures Verdict(state) == Ok(None) <==> entries == []
  {
    if state.refusal.None? {
      AllAccounted(names, entries, state);
      NoneSeen(names, state, entries);
    }
  }

  /** A session is taken over exactly if the entries are the three, once each, in any
      order; there is none exactly without entries; everything else refuses the run. */
  lemma SessionIff(names: Names, entries: seq<string>, session: Session)
    requires Usable(names)
    ensures Verdict(SeenAll(names, entries)) == Ok(Some(session)) <==> multiset(entries) == Whole(names, session)
    ensures Verdict(SeenAll(names, entries)) == Ok(None) <==> entries == []
  {
    WholeIff(names, entries, SeenAll(names, entries), session);
    NoneIff(names, entries, SeenAll(names, entries));
  }

  lemma NoneSeen(names: Names, state: State, entries: seq<string>)
    requires multiset(entries) == Account(names, state)
    ensures !state.protocol && state.request.None? && state.answer.None? <==> entries == []
  {
    if entries != [] {
      assert entries[0] in multiset(entries);
    } else {
      assert |Account(names, state)| == 0;
    }
  }

  lemma WholeSeen(names: Names, state: State, session: Session)
    requires Usable(names) && Account(names, state) == Whole(names, session)
    ensures state.protocol && state.request.Some? && state.answer.Some?
  {
    assert |Account(names, state)| == 3;
  }

  lemma ProtocolName()
    ensures '=' !in SessionNames().protocol && SessionNames().protocol[20] == 'P'
  {
  }

  lemma RequestName()
    ensures '=' !in SessionNames().request && SessionNames().request[20] == 'R'
  {
  }

  lemma AnswerName()
    ensures '=' !in SessionNames().answer && SessionNames().answer[20] == 'E'
  {
  }

  lemma SessionNamesUsable()
    ensures Usable(SessionNames())
  {
    ProtocolName();
    RequestName();
    AnswerName();
    var names := SessionNames();
    assert names.protocol[20] != names.request[20];
  }

  /** The three variables that the runner itself accepts. */
  lemma HelperSessionIff(entries: seq<string>, session: Session)
    ensures Verdict(SeenAll(SessionNames(), entries)) == Ok(Some(session))
            <==> multiset(entries) == Whole(SessionNames(), session)
    ensures Verdict(SeenAll(SessionNames(), entries)) == Ok(None) <==> entries == []
  {
    SessionNamesUsable();
    SessionIff(SessionNames(), entries, session);
  }
}
