/** The counters and the two passes of main (tools/translate_ts.py, 1096-1152). */
module TranslationCounts {
  import opened Outcomes
  import opened Lists
  import opened TranslationDriver
  import opened TranslationVerify
  import opened TranslationFill

  datatype Counts = Counts(translated: nat, left: nat, overrides: nat, terms: nat, machine: nat,
                           backends: map<string, nat>)

  // ----- Kinds of messages ----------------------------------------------------

  datatype Kind = Obsolete | Kept | Left | Got(origin: Origin)

  /** What the fill does with a message. */
  function KindWith(message: Message, accepted: Option<Candidate>): Kind {
    if IsVanished(message) then Obsolete
    else if !IsBlank(message.translation) then Kept
    else match accepted case Some(candidate) => Got(candidate.origin) case None => Left
  }

  function KindOf(setup: Setup, message: Message): Kind {
    KindWith(message, Accepted(setup, message.source))
  }

  /** The backend that is named for a message filled by machine. */
  function NameOf(setup: Setup, message: Message): string {
    SourceName(setup.terms, setup.backends, message.source)
  }

  function Count(setup: Setup, messages: seq<Message>, kind: Kind): nat {
    if messages == [] then 0
    else
      Count(setup, messages[..|messages| - 1], kind)
      + if KindOf(setup, messages[|messages| - 1]) == kind then 1 else 0
  }

  function CountName(setup: Setup, messages: seq<Message>, name: string): nat {
    if messages == [] then 0
    else
      var last := messages[|messages| - 1];
      CountName(setup, messages[..|messages| - 1], name)
      + if KindOf(setup, last) == Got(Machine) && NameOf(setup, last) == name then 1
        else 0
  }

  function CountSome(messages: seq<Message>): nat {
    if messages == [] then 0
    else CountSome(messages[..|messages| - 1]) + if IsVanished(messages[|messages| - 1]) then 0 else 1
  }

  /** The counters after the fill of some messages. */
  ghost predicate Counted(setup: Setup, messages: seq<Message>, counts: Counts) {
    KindsCounted(setup, messages, counts) && NamesCounted(setup, messages, counts.backends)
  }

  predicate KindsCounted(setup: Setup, messages: seq<Message>, counts: Counts) {
    && counts.left == Count(setup, messages, Left)
    && counts.overrides == Count(setup, messages, Got(Override))
    && counts.terms == Count(setup, messages, Got(TermOnly))
    && counts.machine == Count(setup, messages, Got(Machine))
    && counts.translated == Count(setup, messages, Kept) + counts.overrides + counts.terms + counts.machine
  }

  ghost predicate NamesCounted(setup: Setup, messages: seq<Message>, backends: map<string, nat>) {
    forall name :: NameCounted(setup, messages, backends, name)
  }

  ghost predicate NameCounted(setup: Setup, messages: seq<Message>, backends: map<string, nat>, name: string) {
    && (name in backends <==> CountName(setup, messages, name) > 0)
    && (name in backends ==> backends[name] == CountName(setup, messages, name))
  }

  function Raised(backends: map<string, nat>, name: string): map<string, nat> {
    backends[name := (if name in backends then backends[name] else 0) + 1]
  }

  /** The counters after one more message. */
  function CountedMore(counts: Counts, kind: Kind, name: string): Counts {
    match kind
    case Obsolete => counts
    case Kept => counts.(translated := counts.translated + 1)
    case Left => counts.(left := counts.left + 1)
    case Got(Override) => counts.(translated := counts.translated + 1, overrides := counts.overrides + 1)
    case Got(TermOnly) => counts.(translated := counts.translated + 1, terms := counts.terms + 1)
    case Got(Machine) =>
      counts.(translated := counts.translated + 1, machine := counts.machine + 1,
              backends := Raised(counts.backends, name))
  }

  lemma CountMore(setup: Setup, messages: seq<Message>, message: Message, kind: Kind)
    ensures Count(setup, messages + [message], kind)
            == Count(setup, messages, kind) + if KindOf(setup, message) == kind then 1 else 0
  {
    assert (messages + [message])[..|messages|] == messages;
  }

  lemma CountNameMore(setup: Setup, messages: seq<Message>, message: Message, name: string)
    ensures CountName(setup, messages + [message], name)
            == CountName(setup, messages, name)
               + if KindOf(setup, message) == Got(Machine) && NameOf(setup, message) == name then 1 else 0
  {
    assert (messages + [message])[..|messages|] == messages;
  }

  function One(b: bool): nat { if b then 1 else 0 }

  /** All counts after one more message of a kind. */
  lemma CountAllMore(setup: Setup, messages: seq<Message>, message: Message, kind: Kind)
    requires kind == KindOf(setup, message)
    ensures var more := messages + [message];
            && Count(setup, more, Left) == Count(setup, messages, Left) + One(kind == Left)
            && Count(setup, more, Kept) == Count(setup, messages, Kept) + One(kind == Kept)
            && Count(setup, more, Got(Override)) == Count(setup, messages, Got(Override)) + One(kind == Got(Override))
            && Count(setup, more, Got(TermOnly)) == Count(setup, messages, Got(TermOnly)) + One(kind == Got(TermOnly))
            && Count(setup, more, Got(Machine)) == Count(setup, messages, Got(Machine)) + One(kind == Got(Machine))
            && (kind == Obsolete <==> IsVanished(message))
  {
    CountMore(setup, messages, message, Left);
    CountMore(setup, messages, message, Kept);
    CountMore(setup, messages, message, Got(Override));
    CountMore(setup, messages, message, Got(TermOnly));
    CountMore(setup, messages, message, Got(Machine));
  }

  /** A tally of a backend after one more message. */
  lemma TallyMoved(counts: Counts, kind: Kind, mine: string, name: string, was: nat, now: nat)
    requires now == was + One(kind == Got(Machine) && mine == name)
    requires (name in counts.backends <==> was > 0) && (name in counts.backends ==> counts.backends[name] == was)
    ensures var backends := CountedMore(counts, kind, mine).backends;
            (name in backends <==> now > 0) && (name in backends ==> backends[name] == now)
  {
  }

  lemma NameStep(setup: Setup, messages: seq<Message>, message: Message, counts: Counts, kind: Kind, mine: string,
      name: string)
    requires kind == KindOf(setup, message) && mine == NameOf(setup, message)
    requires NameCounted(setup, messages, counts.backends, name)
    ensures NameCounted(setup, messages + [message], CountedMore(counts, kind, mine).backends, name)
  {
    CountNameMore(setup, messages, message, name);
    var was, now := CountName(setup, messages, name), CountName(setup, messages + [message], name);
    TallyMoved(counts, kind, mine, name, was, now);
  }

  lemma NamesStep(setup: Setup, messages: seq<Message>, message: Message, counts: Counts, kind: Kind, mine: string)
    requires kind == KindOf(setup, message) && mine == NameOf(setup, message)
    requires NamesCounted(setup, messages, counts.backends)
    ensures NamesCounted(setup, messages + [message], CountedMore(counts, kind, mine).backends)
  {
    var more, after := messages + [message], CountedMore(counts, kind, mine);
    forall name ensures NameCounted(setup, more, after.backends, name) {
      NameStep(setup, messages, message, counts, kind, mine, name);
    }
  }

  lemma KindsStep(setup: Setup, messages: seq<Message>, message: Message, counts: Counts, kind: Kind, mine: string)
    requires kind == KindOf(setup, message) && KindsCounted(setup, messages, counts)
    ensures KindsCounted(setup, messages + [message], CountedMore(counts, kind, mine))
  {
    CountAllMore(setup, messages, message, kind);
  }

  lemma CountedStep(setup: Setup, messages: seq<Message>, message: Message, counts: Counts, kind: Kind, mine: string)
    requires kind == KindOf(setup, message) && mine == NameOf(setup, message)
    requires Counted(setup, messages, counts)
    ensures Counted(setup, messages + [message], CountedMore(counts, kind, mine))
  {
    KindsStep(setup, messages, message, counts, kind, mine);
    NamesStep(setup, messages, message, counts, kind, mine);
  }

  lemma CountSomeMore(messages: seq<Message>, message: Message)
    ensures CountSome(messages + [message]) == CountSome(messages) + if IsVanished(message) then 0 else 1
  {
    assert (messages + [message])[..|messages|] == messages;
  }

  /** The open messages that come out with a text. */
  function CountFilled(setup: Setup, messages: seq<Message>): nat {
    if messages == [] then 0
    else CountFilled(setup, messages[..|messages| - 1]) + One(IsFilled(setup, messages[|messages| - 1]))
  }

  predicate IsFilled(setup: Setup, message: Message) {
    IsOpen(message) && !IsBlank(Filled(setup, message).translation)
  }

  lemma CountFilledMore(setup: Setup, messages: seq<Message>, message: Message)
    ensures CountFilled(setup, messages + [message]) == CountFilled(setup, messages) + One(IsFilled(setup, message))
  {
    assert (messages + [message])[..|messages|] == messages;
  }

  lemma FilledIffGot(setup: Setup, message: Message)
    ensures IsFilled(setup, message) <==> KindOf(setup, message).Got?
  {
    assert IsBlank("");
  }

  ghost predicate AddsUp(setup: Setup, messages: seq<Message>) {
    Sums(Count(setup, messages, Kept), Count(setup, messages, Left), Count(setup, messages, Got(Override)),
         Count(setup, messages, Got(TermOnly)), Count(setup, messages, Got(Machine)), CountSome(messages),
         CountFilled(setup, messages))
  }

  /** Every message is kept, left or filled from one of the three origins. */
  ghost predicate Sums(kept: nat, left: nat, override: nat, term: nat, machine: nat, all: nat, filled: nat) {
    && kept + left + (override + term + machine) == all
    && override + term + machine == filled
  }

  lemma SumsMore(kind: Kind, kept: nat, left: nat, override: nat, term: nat, machine: nat, all: nat, filled: nat)
    requires Sums(kept, left, override, term, machine, all, filled)
    ensures Sums(kept + One(kind == Kept), left + One(kind == Left), override + One(kind == Got(Override)),
                 term + One(kind == Got(TermOnly)), machine + One(kind == Got(Machine)),
                 all + One(kind != Obsolete), filled + One(kind.Got?))
  {
    match kind
    case Got(Override) =>
    case Got(TermOnly) =>
    case Got(Machine) =>
    case _ =>
  }

  lemma AddsUpMore(setup: Setup, messages: seq<Message>, message: Message, kind: Kind)
    requires AddsUp(setup, messages) && kind == KindOf(setup, message)
    ensures AddsUp(setup, messages + [message])
  {
    CountAllMore(setup, messages, message, kind);
    CountSomeMore(messages, message);
    CountFilledMore(setup, messages, message);
    FilledIffGot(setup, message);
    SumsMore(kind, Count(setup, messages, Kept), Count(setup, messages, Left), Count(setup, messages, Got(Override)),
             Count(setup, messages, Got(TermOnly)), Count(setup, messages, Got(Machine)), CountSome(messages),
             CountFilled(setup, messages));
  }

  /** Every message that is not vanished is counted once, and those that came out with a
      text exactly once by where it came from. */
  lemma {:induction false} CountsAddUp(setup: Setup, messages: seq<Message>)
    ensures AddsUp(setup, messages)
  {
    if messages != [] {
      var init, last := messages[..|messages| - 1], messages[|messages| - 1];
      CountsAddUp(setup, init);
      assert messages == init + [last];
      AddsUpMore(setup, init, last, KindOf(setup, last));
    }
  }

  // ----- The sum over the backends --------------------------------------------

  ghost function Sum(counts: map<string, nat>): nat
    decreases |counts|
  {
    if counts == map[] then 0
    else
      var name :| name in counts;
      counts[name] + Sum(counts - {name})
  }

  lemma {:induction false} SumWithout(counts: map<string, nat>, name: string)
    requires name in counts
    ensures Sum(counts) == counts[name] + Sum(counts - {name})
    decreases |counts|
  {
    var first :| first in counts && Sum(counts) == counts[first] + Sum(counts - {first});
    if first != name {
      SumWithout(counts - {first}, name);
      SumWithout(counts - {name}, first);
      assert counts - {first} - {name} == counts - {name} - {first};
    }
  }

  lemma SumRaised(counts: map<string, nat>, name: string)
    ensures Sum(Raised(counts, name)) == Sum(counts) + 1
  {
    var raised := Raised(counts, name);
    SumWithout(raised, name);
    if name in counts {
      SumWithout(counts, name);
      assert raised - {name} == counts - {name};
    } else {
      assert raised - {name} == counts;
    }
  }

  // ----- The two passes -------------------------------------------------------

  /** The origin that goes with the tables a source is in. */
  predicate OriginFits(setup: Setup, source: string, origin: Origin) {
    match origin
    case Override => source in setup.overrides
    case TermOnly => source !in setup.overrides && source in setup.terms
    case Machine => source !in setup.overrides && source !in setup.terms
  }

  /** The counters move by what happens to the message. */
  method CountMessage(setup: Setup, counts: Counts, message: Message, accepted: Option<Candidate>,
      producer: map<string, string>, ghost name: string) returns (more: Counts)
    requires ComesFrom(setup, message, accepted, producer, name)
    ensures more == CountedMore(counts, KindWith(message, accepted), name)
  {
    more := counts;
    if IsVanished(message) {
      return;
    }
    if !IsBlank(message.translation) {
      more := more.(translated := more.translated + 1);
    } else if accepted.Some? {
      more := more.(translated := more.translated + 1);
      if message.source in setup.overrides {
        more := more.(overrides := more.overrides + 1);
      } else if message.source in setup.terms {
        more := more.(terms := more.terms + 1);
      } else {
        more := more.(machine := more.machine + 1, backends := Raised(more.backends, producer[message.source]));
      }
    } else {
      more := more.(left := more.left + 1);
    }
  }

  lemma {:induction false} OpenIsCollected(messages: seq<Message>, i: nat)
    requires i < |messages| && IsOpen(messages[i])
    ensures messages[i].source in OpenSources(messages)
  {
    if i < |messages| - 1 {
      OpenIsCollected(messages[..|messages| - 1], i);
    }
  }

  function LookUp(final: map<string, Option<Candidate>>, source: string): Option<Candidate> {
    if source in final then final[source] else None
  }

  /** What goes with an open message comes from the tables, or from the named backend. */
  ghost predicate ComesFrom(setup: Setup, message: Message, accepted: Option<Candidate>, producer: map<string, string>,
      name: string) {
    IsOpen(message) && accepted.Some? ==>
      && OriginFits(setup, message.source, accepted.value.origin)
      && (accepted.value.origin.Machine? ==> message.source in producer && producer[message.source] == name)
  }

  /** What goes with an open message is what is accepted for its source. */
  ghost predicate Fits(setup: Setup, message: Message, accepted: Option<Candidate>) {
    IsOpen(message) ==> accepted == Accepted(setup, message.source)
  }

  lemma LookedUpSource(setup: Setup, sources: seq<string>, final: map<string, Option<Candidate>>,
      result: map<string, string>, producer: map<string, string>, message: Message)
    requires FinalDone(setup, sources, final, message.source)
    requires MachineDone(setup, sources, result, producer, message.source)
    requires message.source in sources
    ensures Fits(setup, message, LookUp(final, message.source))
    ensures ComesFrom(setup, message, LookUp(final, message.source), producer, NameOf(setup, message))
  {
  }

  /** What the pass looks up fits. */
  lemma LookedUp(setup: Setup, messages: seq<Message>, i: nat, sources: seq<string>,
      final: map<string, Option<Candidate>>, result: map<string, string>, producer: map<string, string>,
      message: Message)
    requires i < |messages| && sources == Distinct(OpenSources(messages)) && messages[i] == message
    requires FinalDone(setup, sources, final, message.source)
    requires MachineDone(setup, sources, result, producer, message.source)
    ensures Fits(setup, message, LookUp(final, message.source))
    ensures ComesFrom(setup, message, LookUp(final, message.source), producer, NameOf(setup, message))
  {
    if IsOpen(message) {
      AddedUniqueMeaning([], OpenSources(messages));
      OpenIsCollected(messages, i);
      LookedUpSource(setup, sources, final, result, producer, message);
    }
  }

  function FilledAll(setup: Setup, messages: seq<Message>): (filled: seq<Message>)
    ensures |filled| == |messages|
  {
    seq(|messages|, i requires 0 <= i < |messages| => Filled(setup, messages[i]))
  }

  function RewrittenAll(setup: Setup, messages: seq<Message>): (rewritten: seq<Message>)
    ensures |rewritten| == |messages|
  {
    seq(|messages|, i requires 0 <= i < |messages| => Rewritten(setup, messages[i]))
  }

  lemma FilledAt(setup: Setup, messages: seq<Message>, i: nat, message: Message, accepted: Option<Candidate>)
    requires i < |messages| && messages[i] == message
    requires IsOpen(message) ==> accepted == Accepted(setup, message.source)
    ensures FilledAll(setup, messages)[i] == FilledWith(message, accepted)
    ensures KindOf(setup, message) == KindWith(message, accepted)
  {
  }

  lemma OneMoreCounted(setup: Setup, messages: seq<Message>, message: Message, counts: Counts, kind: Kind, name: string)
    requires kind == KindOf(setup, message) && name == NameOf(setup, message)
    requires Counted(setup, messages, counts) && Sum(counts.backends) == counts.machine
    ensures var after := CountedMore(counts, kind, name);
            Counted(setup, messages + [message], after) && Sum(after.backends) == after.machine
  {
    CountedStep(setup, messages, message, counts, kind, name);
    SumRaised(counts.backends, name);
  }

  /** One message of the fill. */
  lemma FillStep(setup: Setup, messages: seq<Message>, i: nat, counts: Counts, accepted: Option<Candidate>)
    requires i < |messages| && Fits(setup, messages[i], accepted)
    requires Counted(setup, messages[..i], counts) && Sum(counts.backends) == counts.machine
    ensures FilledAll(setup, messages)[i] == FilledWith(messages[i], accepted)
    ensures var after := CountedMore(counts, KindWith(messages[i], accepted), NameOf(setup, messages[i]));
            Counted(setup, messages[..i + 1], after) && Sum(after.backends) == after.machine
  {
    var message := messages[i];
    FilledAt(setup, messages, i, message, accepted);
    OneMoreCounted(setup, messages[..i], message, counts, KindWith(message, accepted), NameOf(setup, message));
    assert messages[..i + 1] == messages[..i] + [message];
  }

  /** The message of the catalog that is open gets its text, or is left unfinished. */
  method FillMessage(catalog: array<Message>, i: nat, accepted: Option<Candidate>)
    requires i < catalog.Length
    modifies catalog
    ensures catalog[..] == old(catalog[..])[i := FilledWith(old(catalog[i]), accepted)]
  {
    var message := catalog[i];
    if IsOpen(message) {
      if accepted.Some? {
        catalog[i] := message.(translation := accepted.value.text, kind := None);
      } else {
        catalog[i] := message.(translation := "", kind := Some(UNFINISHED));
      }
    }
  }

  /** The pass has reached place i. */
  ghost predicate Reached(now: seq<Message>, was: seq<Message>, goal: seq<Message>, i: nat) {
    && |now| == |was| == |goal| && i <= |now|
    && (forall k | 0 <= k < i :: now[k] == goal[k])
    && (forall k | i <= k < |now| :: now[k] == was[k])
  }

  /** The fill: every open message gets what is accepted for its source. */
  method ApplyResults(setup: Setup, catalog: array<Message>, sources: seq<string>,
      final: map<string, Option<Candidate>>, ghost result: map<string, string>, producer: map<string, string>)
    returns (counts: Counts)
    requires sources == Distinct(OpenSources(catalog[..]))
    requires forall source :: MachineDone(setup, sources, result, producer, source)
    requires forall source :: FinalDone(setup, sources, final, source)
    modifies catalog
    ensures catalog[..] == FilledAll(setup, old(catalog[..]))
    ensures Counted(setup, old(catalog[..]), counts) && Sum(counts.backends) == counts.machine
  {
    ghost var was := catalog[..];
    ghost var goal := FilledAll(setup, was);
    counts := Counts(0, 0, 0, 0, 0, map[]);
    for i := 0 to catalog.Length
      invariant Reached(catalog[..], was, goal, i)
      invariant Counted(setup, was[..i], counts) && Sum(counts.backends) == counts.machine
    {
      var message := catalog[i];
      var accepted := LookUp(final, message.source);
      LookedUp(setup, was, i, sources, final, result, producer, message);
      FillStep(setup, was, i, counts, accepted);
      counts := CountMessage(setup, counts, message, accepted, producer, NameOf(setup, message));
      FillMessage(catalog, i, accepted);
    }
    assert was[..catalog.Length] == was;
  }

  /** The places at which two lists of messages differ. */
  function CountChanged(was: seq<Message>, now: seq<Message>): nat
    requires |was| == |now|
  {
    if was == [] then 0
    else
      var last := |was| - 1;
      CountChanged(was[..last], now[..last]) + One(was[last] != now[last])
  }

  lemma ChangedMore(was: seq<Message>, now: seq<Message>, i: nat)
    requires |was| == |now| && i < |was|
    ensures CountChanged(was[..i + 1], now[..i + 1])
            == CountChanged(was[..i], now[..i]) + One(was[i] != now[i])
  {
    assert was[..i + 1][..i] == was[..i] && now[..i + 1][..i] == now[..i];
  }

  /** One message of the second pass. */
  method RewriteMessage(setup: Setup, catalog: array<Message>, i: nat) returns (changed: bool)
    requires i < catalog.Length
    modifies catalog
    ensures catalog[..] == old(catalog[..])[i := Rewritten(setup, old(catalog[i]))]
    ensures changed <==> Rewritten(setup, old(catalog[i])) != old(catalog[i])
  {
    var message := catalog[i];
    changed := false;
    if !IsVanished(message) && !IsBlank(message.translation) && message.source in setup.overrides {
      var text := setup.overrides[message.source];
      if Verify(setup.terms, message.source, text, Override) && message.translation != text {
        catalog[i] := message.(translation := text, kind := None);
        changed := true;
      }
    }
  }

  /** The overrides win over translations that were already there. */
  method RewriteOverrides(setup: Setup, catalog: array<Message>) returns (rewrites: nat)
    modifies catalog
    ensures catalog[..] == RewrittenAll(setup, old(catalog[..]))
    ensures rewrites == CountChanged(old(catalog[..]), catalog[..])
  {
    ghost var was := catalog[..];
    ghost var goal := RewrittenAll(setup, was);
    rewrites := 0;
    for i := 0 to catalog.Length
      invariant Reached(catalog[..], was, goal, i)
      invariant rewrites == CountChanged(was[..i], goal[..i])
    {
      ChangedMore(was, goal, i);
      var changed := RewriteMessage(setup, catalog, i);
      if changed {
        rewrites := rewrites + 1;
      }
    }
    assert was[..catalog.Length] == was && goal[..catalog.Length] == goal;
  }

  /** The messages that had a translation and get another one. */
  function CountReplaced(setup: Setup, messages: seq<Message>): nat {
    if messages == [] then 0
    else
      var last := messages[|messages| - 1];
      CountReplaced(setup, messages[..|messages| - 1])
      + One(!IsVanished(last) && !IsOpen(last) && Overridden(setup, last))
  }

  lemma ChangedIsReplaced(setup: Setup, message: Message)
    ensures Rewritten(setup, Filled(setup, message)) != Filled(setup, message)
            <==> !IsVanished(message) && !IsOpen(message) && Overridden(setup, message)
  {
    if IsOpen(message) {
      RewriteKeepsFilled(setup, message);
    }
  }

  /** The second pass changes exactly the messages whose translations are replaced. */
  lemma {:induction false} ChangedAreReplaced(setup: Setup, messages: seq<Message>)
    ensures var filled := FilledAll(setup, messages);
            CountChanged(filled, RewrittenAll(setup, filled)) == CountReplaced(setup, messages)
  {
    if messages != [] {
      var last := |messages| - 1;
      var filled := FilledAll(setup, messages);
      ChangedAreReplaced(setup, messages[..last]);
      assert filled[..last] == FilledAll(setup, messages[..last]);
      assert RewrittenAll(setup, filled)[..last] == RewrittenAll(setup, filled[..last]);
      ChangedIsReplaced(setup, messages[last]);
    }
  }

  /** A whole run over a catalog. */
  method FillCatalog(setup: Setup, catalog: array<Message>) returns (counts: Counts, rewrites: nat)
    modifies catalog
    ensures catalog[..] == RewrittenAll(setup, FilledAll(setup, old(catalog[..])))
    ensures forall i | 0 <= i < catalog.Length :: Safe(setup, old(catalog[..])[i], catalog[..][i])
    ensures rewrites == CountReplaced(setup, old(catalog[..]))
    ensures Counted(setup, old(catalog[..]), counts)
    ensures counts.translated + counts.left == CountSome(old(catalog[..]))
    ensures counts.overrides + counts.terms + counts.machine == CountFilled(setup, old(catalog[..]))
    ensures Sum(counts.backends) == counts.machine
  {
    ghost var was := catalog[..];
    var sources := CollectSources(catalog);
    var result, producer := RunBackends(setup, sources);
    var final := Finalise(setup, sources, result, producer);
    counts := ApplyResults(setup, catalog, sources, final, result, producer);
    rewrites := RewriteOverrides(setup, catalog);
    ChangedAreReplaced(setup, was);
    CountsAddUp(setup, was);
    forall i | 0 <= i < catalog.Length ensures Safe(setup, was[i], catalog[..][i]) {
      RunOfCatalog(setup, was, i);
      RunIsSafe(setup, was[i]);
    }
  }

  /** A run treats every message by itself. */
  lemma RunOfCatalog(setup: Setup, messages: seq<Message>, i: nat)
    requires i < |messages|
    ensures RewrittenAll(setup, FilledAll(setup, messages))[i] == Run(setup, messages[i])
  {
  }
}
