/**
 Vote results of a shareholders' meeting: an update deletes the results that the payload does
 not name, changes those it names, and adds one for every entry without an id.
 */
module VoteResults {
  import opened TextEntries
  import opened Wrappers

  datatype Fields = Fields(agendaNumber: int, totalVote: int, yesVote: int, noVote: int, approvalRating: real,
      accepted: bool)

  datatype Vote = Vote(meeting: Id, fields: Fields, deleted: bool)

  datatype TextKey = TextKey(vote: Id, language: Id)

  datatype Text = Text(title: string, isSynced: bool)

  datatype Entry = Entry(id: Option<Id>, fields: Fields, texts: seq<TextEntry>)

  /**
   What the tables refer to: the meetings and the languages that have a row.  `korean` is the
   language whose text is preferred as base for the others.
   */
  datatype Context = Context(meetings: set<Id>, languages: map<Id, Language>, korean: Option<Id>)

  datatype VoteError = VoteNotFound | MeetingMissing | UniqueViolation | LanguageMissing | NoBaseText

  type Votes = map<Id, Vote>

  type Texts = map<TextKey, Text>

  datatype State = State(votes: Votes, texts: Texts)

  predicate Live(votes: Votes, id: Id) {
    id in votes && !votes[id].deleted
  }

  /** The foreign keys of both tables, which the database enforces. */
  predicate ForeignKeys(s: State, c: Context) {
    && (forall id :: id in s.votes ==> s.votes[id].meeting in c.meetings)
    && (forall k :: k in s.texts ==> k.vote in s.votes && k.language in c.languages)
  }

  function KeptIds(payload: seq<Entry>): set<Id> {
    set k | 0 <= k < |payload| && payload[k].id.Some? :: payload[k].id.value
  }

  /** The position of the first text in a language, or the length. */
  function FirstFor(es: seq<TextEntry>, language: Id, from: nat): (k: nat)
    requires from <= |es|
    ensures from <= k <= |es| && (k < |es| ==> es[k].language == language)
    ensures forall j :: from <= j < k ==> es[j].language != language
    decreases |es| - from
  {
    if from == |es| || es[from].language == language then from else FirstFor(es, language, from + 1)
  }

  /** The preferred title if it is given, otherwise the first. */
  function BaseTitle(es: seq<TextEntry>, korean: Option<Id>): string
    requires es != []
  {
    var k := if korean.Some? then FirstFor(es, korean.value, 0) else 0;
    if k < |es| then es[k].title else es[0].title
  }

  function KeysOf(vote: Id, languages: set<Id>): set<TextKey> {
    set l | l in languages :: TextKey(vote, l)
  }

  function Lookup<K, V>(m: map<K, V>, k: K): Option<V> {
    if k in m then Some(m[k]) else None
  }

  // ---- the steps of an update ----

  function DeleteOthers(votes: Votes, meeting: Id, keep: set<Id>): Votes {
    map id | id in votes ::
      if votes[id].meeting == meeting && !votes[id].deleted && id !in keep then votes[id].(deleted := true)
          else votes[id]
  }

  /** Updates the row of each language, or adds it. */
  function PutTexts(texts: Texts, vote: Id, es: seq<TextEntry>): Texts {
    if es == [] then texts
    else PutTexts(texts, vote, es[..|es| - 1])[TextKey(vote, es[|es| - 1].language) := Text(es[|es| - 1].title, false)]
  }

  function SyncedTexts(vote: Id, languages: set<Id>, title: string): Texts {
    map k | k in KeysOf(vote, languages) :: Text(title, true)
  }

  /** Saves the texts one by one; the first new row in an unknown language ends this. */
  function SaveEach(texts: Texts, languages: set<Id>, vote: Id, es: seq<TextEntry>): (Texts, Option<VoteError>) {
    if es == [] then (texts, None)
    else
      var (saved, error) := SaveEach(texts, languages, vote, es[..|es| - 1]);
      var k := TextKey(vote, es[|es| - 1].language);
      if error.Some? then (saved, error)
      else if k !in saved && k.language !in languages then (saved, Some(LanguageMissing))
      else (saved[k := Text(es[|es| - 1].title, false)], None)
  }

  /** An entry with an id changes that result, whichever meeting it belongs to. */
  function ChangeVote(s: State, id: Id, e: Entry, c: Context): (State, Option<VoteError>) {
    if !Live(s.votes, id) then (s, Some(VoteNotFound))
    else
      var (texts, error) := SaveEach(s.texts, c.languages.Keys, id, e.texts);
      (State(s.votes[id := s.votes[id].(fields := e.fields)], texts), error)
  }

  /** The texts of a new result are saved in one statement, which adds all of them or none. */
  function AddVote(s: State, meeting: Id, e: Entry, newId: Id, c: Context): (State, Option<VoteError>) {
    if meeting !in c.meetings then (s, Some(MeetingMissing))
    else
      var votes := s.votes[newId := Vote(meeting, e.fields, false)];
      if !NoRepeats(e.texts) then (State(votes, s.texts), Some(UniqueViolation))
      else if !(LanguagesOf(e.texts) <= c.languages.Keys) then (State(votes, s.texts), Some(LanguageMissing))
      else
        var texts := PutTexts(s.texts, newId, e.texts);
        var remaining := ActiveLanguages(c.languages) - LanguagesOf(e.texts);
        if remaining == {} then (State(votes, texts), None)
        else if e.texts == [] then (State(votes, texts), Some(NoBaseText))
        else (State(votes, texts + SyncedTexts(newId, remaining, BaseTitle(e.texts, c.korean))), None)
  }

  function ApplyEntry(s: State, meeting: Id, e: Entry, newId: Id, c: Context): (State, Option<VoteError>) {
    if e.id.Some? then ChangeVote(s, e.id.value, e, c) else AddVote(s, meeting, e, newId, c)
  }

  /** The first `n` entries; an error ends the update and keeps what was written before. */
  function ApplyEntries(s: State, meeting: Id, payload: seq<Entry>, newIds: seq<Id>, c: Context, n: nat): (State,
      Option<VoteError>)
    requires n <= |payload| == |newIds|
  {
    if n == 0 then (s, None)
    else
      var (s1, error) := ApplyEntries(s, meeting, payload, newIds, c, n - 1);
      if error.Some? then (s1, error) else ApplyEntry(s1, meeting, payload[n - 1], newIds[n - 1], c)
  }

  /** A whole update; without entries nothing is touched. */
  function Reconcile(s: State, meeting: Id, payload: seq<Entry>, newIds: seq<Id>, c: Context): (State,
      Option<VoteError>)
    requires |payload| == |newIds|
  {
    if payload == [] then (s, None)
    else
      ApplyEntries(s.(votes := DeleteOthers(s.votes, meeting, KeptIds(payload))), meeting, payload, newIds, c,
          |payload|)
  }

  /** Generated ids are distinct and not in use, neither in the tables nor in the payload. */
  ghost predicate Fresh(s: State, payload: seq<Entry>, newIds: seq<Id>) {
    && |newIds| == |payload|
    && NoDuplicates(newIds)
    && (forall k :: 0 <= k < |newIds| ==> newIds[k] !in s.votes && newIds[k] !in KeptIds(payload))
    && (forall k, t :: 0 <= k < |newIds| && t in s.texts ==> t.vote != newIds[k])
  }

  // ---- the foreign keys ----

  /** What a saved list of texts leaves: the texts before the first unknown language. */
  lemma {:induction false} SaveStops(texts: Texts, languages: set<Id>, vote: Id, es: seq<TextEntry>, n: nat)
    requires forall k :: k in texts ==> k.language in languages
    requires n <= |es| && LanguagesOf(es[..n]) <= languages
    requires n < |es| ==> es[n].language !in languages
    ensures SaveEach(texts, languages, vote, es) ==
            (PutTexts(texts, vote, es[..n]), if n == |es| then None else Some(LanguageMissing))
  {
    if es != [] {
      var m := |es| - 1;
      var front := es[..m];
      if n <= m {
        assert front[..n] == es[..n];
        SaveStops(texts, languages, vote, front, n);
        PutKeys(texts, vote, front);
        assert TextKey(vote, es[m].language) in KeysOf(vote, LanguagesOf(front)) ==>
            es[m].language in LanguagesOf(front);
      } else {
        assert front[..m] == front && es[..n] == es;
        LanguagesOfFront(es);
        SaveStops(texts, languages, vote, front, m);
      }
    }
  }

  lemma {:induction false} PutKeys(texts: Texts, vote: Id, es: seq<TextEntry>)
    ensures PutTexts(texts, vote, es).Keys == texts.Keys + KeysOf(vote, LanguagesOf(es))
  {
    if es != [] {
      PutKeys(texts, vote, es[..|es| - 1]);
      LanguagesOfFront(es);
      assert KeysOf(vote, LanguagesOf(es))
          == KeysOf(vote, LanguagesOf(es[..|es| - 1])) + {TextKey(vote, es[|es| - 1].language)};
    }
  }

  /** The texts before the first one in an unknown language. */
  function Savable(languages: set<Id>, es: seq<TextEntry>): (n: nat)
    ensures n <= |es| && LanguagesOf(es[..n]) <= languages
    ensures n < |es| ==> es[n].language !in languages
  {
    if es == [] then 0
    else
      var front := es[..|es| - 1];
      var n := Savable(languages, front);
      assert front[..n] == es[..n];
      LanguagesOfFront(es);
      assert es[..|es|] == es;
      if n == |front| && es[n].language in languages then |es| else n
  }

  lemma SaveSucceeds(texts: Texts, languages: set<Id>, vote: Id, es: seq<TextEntry>)
    requires forall k :: k in texts ==> k.language in languages
    ensures SaveEach(texts, languages, vote, es).1.None? <==> LanguagesOf(es) <= languages
    ensures LanguagesOf(es) <= languages ==> SaveEach(texts, languages, vote, es).0 == PutTexts(texts, vote, es)
  {
    var n := Savable(languages, es);
    SaveStops(texts, languages, vote, es, n);
    assert es[..|es|] == es;
    if n < |es| {
      assert es[n].language in LanguagesOf(es);
    }
  }

  /** Without an error the saved texts are those of the list, whatever was there. */
  lemma {:induction false} SavedTexts(texts: Texts, languages: set<Id>, vote: Id, es: seq<TextEntry>)
    requires SaveEach(texts, languages, vote, es).1.None?
    ensures SaveEach(texts, languages, vote, es).0 == PutTexts(texts, vote, es)
  {
    if es != [] {
      SavedTexts(texts, languages, vote, es[..|es| - 1]);
    }
  }

  lemma {:induction false} SaveKeepsLanguages(texts: Texts, languages: set<Id>, vote: Id, es: seq<TextEntry>)
    requires forall k :: k in texts ==> k.language in languages
    ensures var saved := SaveEach(texts, languages, vote, es).0;
            forall k :: k in saved ==> k.language in languages && (k.vote == vote || k in texts)
  {
    if es != [] {
      SaveKeepsLanguages(texts, languages, vote, es[..|es| - 1]);
    }
  }

  lemma ChangeKeepsForeignKeys(s: State, id: Id, e: Entry, c: Context)
    requires ForeignKeys(s, c)
    ensures ForeignKeys(ChangeVote(s, id, e, c).0, c)
  {
    SaveKeepsLanguages(s.texts, c.languages.Keys, id, e.texts);
  }

  lemma AddedTexts(s: State, meeting: Id, e: Entry, newId: Id, c: Context, k: TextKey)
    requires k in AddVote(s, meeting, e, newId, c).0.texts && k !in s.texts
    ensures meeting in c.meetings && k.vote == newId && k.language in c.languages
  {
    PutKeys(s.texts, newId, e.texts);
    var remaining := ActiveLanguages(c.languages) - LanguagesOf(e.texts);
    assert k in KeysOf(newId, LanguagesOf(e.texts)) || k in KeysOf(newId, remaining);
  }

  lemma AddKeepsForeignKeys(s: State, meeting: Id, e: Entry, newId: Id, c: Context)
    requires ForeignKeys(s, c)
    ensures ForeignKeys(AddVote(s, meeting, e, newId, c).0, c)
  {
    var s' := AddVote(s, meeting, e, newId, c).0;
    assert s'.votes == if meeting in c.meetings then s.votes[newId := Vote(meeting, e.fields, false)] else s.votes;
    forall k | k in s'.texts ensures k.vote in s'.votes && k.language in c.languages {
      if k !in s.texts {
        AddedTexts(s, meeting, e, newId, c, k);
      }
    }
  }

  /** Whatever happens, also after an error, every row refers to existing rows. */
  lemma {:induction false} EntriesKeepForeignKeys(s: State, meeting: Id, payload: seq<Entry>, newIds: seq<Id>,
                                                  c: Context, n: nat)
    requires ForeignKeys(s, c) && n <= |payload| == |newIds|
    ensures ForeignKeys(ApplyEntries(s, meeting, payload, newIds, c, n).0, c)
  {
    if n > 0 {
      EntriesKeepForeignKeys(s, meeting, payload, newIds, c, n - 1);
      var (s1, error) := ApplyEntries(s, meeting, payload, newIds, c, n - 1);
      if error.None? {
        var e := payload[n - 1];
        if e.id.Some? {
          ChangeKeepsForeignKeys(s1, e.id.value, e, c);
        } else {
          AddKeepsForeignKeys(s1, meeting, e, newIds[n - 1], c);
        }
      }
    }
  }

  // ---- what the steps leave under one key ----

  /** The last of the first `n` entries that names this result. */
  function NamedAt(payload: seq<Entry>, n: nat, id: Id): (r: Option<nat>)
    requires n <= |payload|
    ensures r.Some? ==> r.value < n && payload[r.value].id == Some(id)
    ensures r.Some? ==> forall j :: r.value < j < n ==> payload[j].id != Some(id)
    ensures r.None? ==> forall j :: 0 <= j < n ==> payload[j].id != Some(id)
  {
    if n == 0 then None else if payload[n - 1].id == Some(id) then Some(n - 1) else NamedAt(payload, n - 1, id)
  }

  /** The entry among the first `n` for which this result was added. */
  function AddedAt(payload: seq<Entry>, newIds: seq<Id>, n: nat, id: Id): (r: Option<nat>)
    requires n <= |payload| == |newIds|
    ensures r.Some? ==> r.value < n && payload[r.value].id.None? && newIds[r.value] == id
    ensures r.None? ==> forall j :: 0 <= j < n ==> payload[j].id.Some? || newIds[j] != id
  {
    if n == 0 then None
    else if payload[n - 1].id.None? && newIds[n - 1] == id then Some(n - 1)
    else AddedAt(payload, newIds, n - 1, id)
  }

  function ExpectedVote(votes: Votes, meeting: Id, payload: seq<Entry>, newIds: seq<Id>, n: nat, id: Id): Option<Vote>
    requires n <= |payload| == |newIds|
  {
    var added, named := AddedAt(payload, newIds, n, id), NamedAt(payload, n, id);
    if added.Some? then Some(Vote(meeting, payload[added.value].fields, false))
    else if id !in votes then None
    else if named.Some? then Some(votes[id].(fields := payload[named.value].fields))
    else Some(votes[id])
  }

  lemma {:induction false} VoteAfterEntries(s: State, meeting: Id, payload: seq<Entry>, newIds: seq<Id>,
                                            c: Context, n: nat, id: Id)
    requires Fresh(s, payload, newIds) && n <= |payload|
    requires ApplyEntries(s, meeting, payload, newIds, c, n).1.None?
    ensures Lookup(ApplyEntries(s, meeting, payload, newIds, c, n).0.votes, id)
            == ExpectedVote(s.votes, meeting, payload, newIds, n, id)
  {
    if n > 0 {
      VoteAfterEntries(s, meeting, payload, newIds, c, n - 1, id);
      var e := payload[n - 1];
      if e.id == Some(id) {
        assert id in KeptIds(payload);
      }
    }
  }

  /**
   What an entry needs: languages that exist, and a live result to change, or an existing
   meeting and texts from which a new one can be made.
   */
  predicate EntryWorks(votes: Votes, meeting: Id, e: Entry, c: Context) {
    && (forall i :: 0 <= i < |e.texts| ==> e.texts[i].language in c.languages)
    && match e.id
       case Some(id) => id in votes && !votes[id].deleted
       case None =>
         && meeting in c.meetings
         && (forall i, j :: 0 <= i < j < |e.texts| ==> e.texts[i].language != e.texts[j].language)
         && (e.texts == [] ==> forall l :: l in c.languages ==> !IsActive(c.languages, l))
  }

  lemma TextsInKnownLanguages(es: seq<TextEntry>, languages: map<Id, Language>)
    ensures LanguagesOf(es) <= languages.Keys <==> forall i :: 0 <= i < |es| ==> es[i].language in languages
    ensures ActiveLanguages(languages) == {} <==> forall l :: l in languages ==> !IsActive(languages, l)
  {
    assert forall i :: 0 <= i < |es| ==> es[i].language in LanguagesOf(es);
    assert forall l :: l in ActiveLanguages(languages) <==> IsActive(languages, l);
  }

  /** Which error an entry ends with. */
  ghost predicate FailsWith(error: VoteError, votes: Votes, meeting: Id, e: Entry, c: Context) {
    var repeats := exists i, j :: 0 <= i < j < |e.texts| && e.texts[i].language == e.texts[j].language;
    var unknown := exists i :: 0 <= i < |e.texts| && e.texts[i].language !in c.languages;
    match error
    case VoteNotFound => e.id.Some? && (e.id.value in votes ==> votes[e.id.value].deleted)
    case MeetingMissing => e.id.None? && meeting !in c.meetings
    case UniqueViolation => e.id.None? && meeting in c.meetings && repeats
    case LanguageMissing =>
      && unknown
      && if e.id.Some? then e.id.value in votes && !votes[e.id.value].deleted else meeting in c.meetings && !repeats
    case NoBaseText => e.id.None? && meeting in c.meetings && e.texts == [] && exists l :: IsActive(c.languages, l)
  }

  /** An entry ends with an error exactly if its condition holds. */
  lemma EntryFailsWith(s: State, meeting: Id, e: Entry, newId: Id, c: Context, error: VoteError)
    requires ForeignKeys(s, c)
    ensures ApplyEntry(s, meeting, e, newId, c).1 == Some(error) <==> FailsWith(error, s.votes, meeting, e, c)
  {
    NothingRemains(e.texts, ActiveLanguages(c.languages));
    TextsInKnownLanguages(e.texts, c.languages);
    assert (exists l :: IsActive(c.languages, l)) <==> exists l :: l in c.languages && IsActive(c.languages, l);
    if e.id.Some? {
      SaveSucceeds(s.texts, c.languages.Keys, e.id.value, e.texts);
      SaveFailsForLanguage(s.texts, c.languages.Keys, e.id.value, e.texts);
    }
  }

  lemma {:induction false} SaveFailsForLanguage(texts: Texts, languages: set<Id>, vote: Id, es: seq<TextEntry>)
    ensures SaveEach(texts, languages, vote, es).1 in {None, Some(LanguageMissing)}
  {
    if es != [] {
      SaveFailsForLanguage(texts, languages, vote, es[..|es| - 1]);
    }
  }

  lemma OneMoreSucceeds(s: State, meeting: Id, payload: seq<Entry>, newIds: seq<Id>, c: Context, n: nat)
    requires ForeignKeys(s, c) && Fresh(s, payload, newIds) && n < |payload|
    requires ApplyEntries(s, meeting, payload, newIds, c, n).1.None?
    ensures ApplyEntries(s, meeting, payload, newIds, c, n + 1).1.None? <==> EntryWorks(s.votes, meeting, payload[n], c)
  {
    var e := payload[n];
    var s1 := ApplyEntries(s, meeting, payload, newIds, c, n).0;
    EntriesKeepForeignKeys(s, meeting, payload, newIds, c, n);
    EntrySucceeds(s1, meeting, e, newIds[n], c);
    if e.id.Some? {
      assert e.id.value in KeptIds(payload);
      VoteAfterEntries(s, meeting, payload, newIds, c, n, e.id.value);
      StaysLive(s, s1.votes, meeting, payload, newIds, n, e.id.value);
    }
  }

  predicate AllWork(votes: Votes, meeting: Id, payload: seq<Entry>, c: Context, n: nat)
    requires n <= |payload|
  {
    n == 0 || (AllWork(votes, meeting, payload, c, n - 1) && EntryWorks(votes, meeting, payload[n - 1], c))
  }

  lemma {:induction false} AllWorkMeansEach(votes: Votes, meeting: Id, payload: seq<Entry>, c: Context, n: nat)
    requires n <= |payload|
    ensures AllWork(votes, meeting, payload, c, n) <==>
            forall k :: 0 <= k < n ==> EntryWorks(votes, meeting, payload[k], c)
  {
    if n > 0 {
      AllWorkMeansEach(votes, meeting, payload, c, n - 1);
    }
  }

  /** The entries are applied without an error exactly if each of them works on its own. */
  lemma {:induction false} EntriesSucceed(s: State, meeting: Id, payload: seq<Entry>, newIds: seq<Id>, c: Context,
      n: nat)
    requires ForeignKeys(s, c) && Fresh(s, payload, newIds) && n <= |payload|
    ensures ApplyEntries(s, meeting, payload, newIds, c, n).1.None? <==> AllWork(s.votes, meeting, payload, c, n)
  {
    if n > 0 {
      EntriesSucceed(s, meeting, payload, newIds, c, n - 1);
      if ApplyEntries(s, meeting, payload, newIds, c, n - 1).1.None? {
        OneMoreSucceeds(s, meeting, payload, newIds, c, n - 1);
      }
    }
  }

  lemma EntrySucceeds(s: State, meeting: Id, e: Entry, newId: Id, c: Context)
    requires ForeignKeys(s, c)
    ensures ApplyEntry(s, meeting, e, newId, c).1.None? <==> EntryWorks(s.votes, meeting, e, c)
  {
    NothingRemains(e.texts, ActiveLanguages(c.languages));
    TextsInKnownLanguages(e.texts, c.languages);
    if e.id.Some? {
      SaveSucceeds(s.texts, c.languages.Keys, e.id.value, e.texts);
    }
  }

  /** Earlier entries neither delete nor restore a result that the payload names. */
  lemma StaysLive(s: State, votes: Votes, meeting: Id, payload: seq<Entry>, newIds: seq<Id>, n: nat, id: Id)
    requires Fresh(s, payload, newIds) && n <= |payload| && id in KeptIds(payload)
    requires Lookup(votes, id) == ExpectedVote(s.votes, meeting, payload, newIds, n, id)
    ensures Live(votes, id) <==> Live(s.votes, id)
  {
    assert AddedAt(payload, newIds, n, id).None?;
  }

  lemma NothingRemains(es: seq<TextEntry>, active: set<Id>)
    ensures es == [] ==> active - LanguagesOf(es) == active
  {
  }

  // ---- the texts ----

  function LastTitle(es: seq<TextEntry>, language: Id): string
    requires language in LanguagesOf(es)
  {
    if es[|es| - 1].language == language then es[|es| - 1].title
    else
      assert forall i :: 0 <= i < |es| - 1 ==> es[..|es| - 1][i] == es[i];
      LastTitle(es[..|es| - 1], language)
  }

  lemma {:induction false} LastTitleIsLast(es: seq<TextEntry>, i: nat)
    requires IsLastFor(es, i)
    ensures es[i].language in LanguagesOf(es) && LastTitle(es, es[i].language) == es[i].title
  {
    if i < |es| - 1 {
      LastTitleIsLast(es[..|es| - 1], i);
    }
  }

  /** The text is the last one given for this language, not synchronised. */
  ghost predicate HoldsLast(text: Option<Text>, es: seq<TextEntry>, language: Id) {
    forall i: nat :: IsLastFor(es, i) && es[i].language == language ==> text == Some(Text(es[i].title, false))
  }

  /** Text `b` is the first in the preferred language, or the first one if none is. */
  predicate IsBaseText(es: seq<TextEntry>, korean: Option<Id>, b: nat) {
    && b < |es|
    && (forall i :: 0 <= i < b ==> korean != Some(es[i].language))
    && (korean == Some(es[b].language) || (b == 0 && forall i :: 0 <= i < |es| ==> korean != Some(es[i].language)))
  }

  /** The text is a synchronised copy of the base text. */
  ghost predicate HoldsBase(text: Option<Text>, es: seq<TextEntry>, korean: Option<Id>) {
    exists b: nat :: IsBaseText(es, korean, b) && text == Some(Text(es[b].title, true))
  }

  lemma BaseTitleIsBase(es: seq<TextEntry>, korean: Option<Id>)
    requires es != []
    ensures HoldsBase(Some(Text(BaseTitle(es, korean), true)), es, korean)
  {
    var k := if korean.Some? then FirstFor(es, korean.value, 0) else 0;
    assert IsBaseText(es, korean, if k < |es| then k else 0);
  }

  lemma LastTitleHolds(es: seq<TextEntry>, language: Id)
    requires language in LanguagesOf(es)
    ensures HoldsLast(Some(Text(LastTitle(es, language), false)), es, language)
  {
    forall i: nat | IsLastFor(es, i) && es[i].language == language ensures LastTitle(es, language) == es[i].title {
      LastTitleIsLast(es, i);
    }
  }

  lemma {:induction false} TextAfterPut(texts: Texts, vote: Id, es: seq<TextEntry>, k: TextKey)
    ensures Lookup(PutTexts(texts, vote, es), k) ==
            if k.vote == vote && k.language in LanguagesOf(es) then Some(Text(LastTitle(es, k.language), false))
            else Lookup(texts, k)
  {
    if es != [] {
      var front, e := es[..|es| - 1], es[|es| - 1];
      TextAfterPut(texts, vote, front, k);
      assert es == front + [e];
      assert forall i :: 0 <= i < |front| ==> front[i] == es[i];
      assert LanguagesOf(es) == LanguagesOf(front) + {e.language};
    }
  }

  function IdAt(payload: seq<Entry>, newIds: seq<Id>, k: nat): Id
    requires k < |payload| == |newIds|
  {
    if payload[k].id.Some? then payload[k].id.value else newIds[k]
  }

  /** The text that entry `e` leaves for its result in one language, given what was there. */
  function TextFrom(e: Entry, c: Context, language: Id, before: Option<Text>): Option<Text> {
    if language in LanguagesOf(e.texts) then Some(Text(LastTitle(e.texts, language), false))
    else if e.id.None? && language in ActiveLanguages(c.languages) && e.texts != [] then
      Some(Text(BaseTitle(e.texts, c.korean), true))
    else before
  }

  lemma TextAfterEntry(s: State, meeting: Id, e: Entry, newId: Id, c: Context, k: TextKey)
    requires ApplyEntry(s, meeting, e, newId, c).1.None?
    ensures Lookup(ApplyEntry(s, meeting, e, newId, c).0.texts, k) ==
            if k.vote == (if e.id.Some? then e.id.value else newId) then TextFrom(e, c, k.language, Lookup(s.texts, k))
            else Lookup(s.texts, k)
  {
    var vote := if e.id.Some? then e.id.value else newId;
    TextAfterPut(s.texts, vote, e.texts, k);
    if e.id.Some? {
      SavedTexts(s.texts, c.languages.Keys, vote, e.texts);
    } else {
      NothingRemains(e.texts, ActiveLanguages(c.languages));
      var remaining := ActiveLanguages(c.languages) - LanguagesOf(e.texts);
      assert k in KeysOf(newId, remaining) <==> k.vote == newId && k.language in remaining;
    }
  }

  /** No result is named by two entries. */
  predicate DistinctVotes(payload: seq<Entry>) {
    forall i, j :: 0 <= i < j < |payload| && payload[i].id.Some? ==> payload[i].id != payload[j].id
  }

  /** The text under a key after `n` entries: from the one entry for its result, or as before. */
  lemma {:induction false} TextAfterEntries(s: State, meeting: Id, payload: seq<Entry>, newIds: seq<Id>,
                                            c: Context, n: nat, k: TextKey, at: Option<nat>)
    requires Fresh(s, payload, newIds) && n <= |payload| && DistinctVotes(payload)
    requires ApplyEntries(s, meeting, payload, newIds, c, n).1.None?
    requires match at
             case Some(i) => i < |payload| && IdAt(payload, newIds, i) == k.vote
             case None => forall i :: 0 <= i < n ==> IdAt(payload, newIds, i) != k.vote
    ensures Lookup(ApplyEntries(s, meeting, payload, newIds, c, n).0.texts, k) ==
            if at.Some? && at.value < n then TextFrom(payload[at.value], c, k.language, Lookup(s.texts, k))
            else Lookup(s.texts, k)
  {
    if n > 0 {
      TextAfterEntries(s, meeting, payload, newIds, c, n - 1, k, at);
      var s1 := ApplyEntries(s, meeting, payload, newIds, c, n - 1).0;
      TextAfterEntry(s1, meeting, payload[n - 1], newIds[n - 1], c, k);
      var last := IdAt(payload, newIds, n - 1);
      if at.Some? && at.value != n - 1 {
        IdsAreDistinct(s, payload, newIds, at.value, n - 1);
      }
    }
  }

  lemma IdsAreDistinct(s: State, payload: seq<Entry>, newIds: seq<Id>, i: nat, j: nat)
    requires Fresh(s, payload, newIds) && DistinctVotes(payload) && i < |payload| && j < |payload| && i != j
    ensures IdAt(payload, newIds, i) != IdAt(payload, newIds, j)
  {
    assert payload[i].id.Some? ==> payload[i].id.value in KeptIds(payload);
    assert payload[j].id.Some? ==> payload[j].id.value in KeptIds(payload);
  }

  // ---- main results ----

  /** Deleting the results that are not named changes for no entry whether it works. */
  lemma DeletingChangesNoEntry(s: State, meeting: Id, payload: seq<Entry>, c: Context, k: nat)
    requires k < |payload|
    ensures EntryWorks(DeleteOthers(s.votes, meeting, KeptIds(payload)), meeting, payload[k], c) <==>
            EntryWorks(s.votes, meeting, payload[k], c)
  {
    assert payload[k].id.Some? ==> payload[k].id.value in KeptIds(payload);
  }

  /** An update succeeds exactly if every entry names a live result or brings usable texts. */
  lemma UpdateSucceeds(s: State, meeting: Id, payload: seq<Entry>, newIds: seq<Id>, c: Context)
    requires ForeignKeys(s, c) && Fresh(s, payload, newIds)
    ensures Reconcile(s, meeting, payload, newIds, c).1.None? <==>
            forall k :: 0 <= k < |payload| ==> EntryWorks(s.votes, meeting, payload[k], c)
  {
    var d := s.(votes := DeleteOthers(s.votes, meeting, KeptIds(payload)));
    EntriesSucceed(d, meeting, payload, newIds, c, |payload|);
    AllWorkMeansEach(d.votes, meeting, payload, c, |payload|);
    forall k | 0 <= k < |payload|
      ensures EntryWorks(d.votes, meeting, payload[k], c) <==> EntryWorks(s.votes, meeting, payload[k], c)
    {
      DeletingChangesNoEntry(s, meeting, payload, c, k);
    }
  }

  /** An update leaves every row referring to existing rows, also when it fails half-way. */
  lemma UpdateKeepsForeignKeys(s: State, meeting: Id, payload: seq<Entry>, newIds: seq<Id>, c: Context)
    requires ForeignKeys(s, c) && |payload| == |newIds|
    ensures ForeignKeys(Reconcile(s, meeting, payload, newIds, c).0, c)
  {
    var d := s.(votes := DeleteOthers(s.votes, meeting, KeptIds(payload)));
    EntriesKeepForeignKeys(d, meeting, payload, newIds, c, |payload|);
  }

  /** How many entries an update gets to: those that work, and the first that does not. */
  function Tried(votes: Votes, meeting: Id, payload: seq<Entry>, c: Context, n: nat): (m: nat)
    requires n <= |payload|
    ensures n <= m <= |payload|
    ensures forall k :: n <= k < m - 1 ==> EntryWorks(votes, meeting, payload[k], c)
    ensures n < m < |payload| ==> !EntryWorks(votes, meeting, payload[m - 1], c)
    ensures n < |payload| ==> n < m
    decreases |payload| - n
  {
    if n == |payload| then n
    else if EntryWorks(votes, meeting, payload[n], c) then Tried(votes, meeting, payload, c, n + 1)
    else n + 1
  }

  /**
   What an update leaves that fails: the entries before the first one that does not work are
   applied, that one gets as far as it can, and the later ones are not looked at.
   */
  lemma UpdateStops(s: State, meeting: Id, payload: seq<Entry>, newIds: seq<Id>, c: Context, n: nat)
    requires ForeignKeys(s, c) && Fresh(s, payload, newIds) && n < |payload|
    requires forall k :: 0 <= k < n ==> EntryWorks(s.votes, meeting, payload[k], c)
    requires !EntryWorks(s.votes, meeting, payload[n], c)
    ensures var d := s.(votes := DeleteOthers(s.votes, meeting, KeptIds(payload)));
            var (s1, error) := ApplyEntries(d, meeting, payload, newIds, c, n);
            && error.None?
            && Reconcile(s, meeting, payload, newIds, c) == ApplyEntry(s1, meeting, payload[n], newIds[n], c)
            && Reconcile(s, meeting, payload, newIds, c).1.Some?
  {
    var d := s.(votes := DeleteOthers(s.votes, meeting, KeptIds(payload)));
    forall k | 0 <= k <= n
      ensures EntryWorks(d.votes, meeting, payload[k], c) <==> EntryWorks(s.votes, meeting, payload[k], c)
    {
      DeletingChangesNoEntry(s, meeting, payload, c, k);
    }
    EntriesSucceed(d, meeting, payload, newIds, c, n);
    AllWorkMeansEach(d.votes, meeting, payload, c, n);
    OneMoreSucceeds(d, meeting, payload, newIds, c, n);
    ErrorEndsUpdate(d, meeting, payload, newIds, c, n + 1);
  }

  /**
   If the first entry that does not work is a new result with a text in an unknown language,
   that result is stored without any text and the update ends.
   */
  lemma UnknownLanguageLeavesBareVote(s: State, meeting: Id, payload: seq<Entry>, newIds: seq<Id>, c: Context, n: nat)
    requires ForeignKeys(s, c) && Fresh(s, payload, newIds) && n < |payload|
    requires forall k :: 0 <= k < n ==> EntryWorks(s.votes, meeting, payload[k], c)
    requires payload[n].id.None? && meeting in c.meetings
    requires forall i, j :: 0 <= i < j < |payload[n].texts| ==>
               payload[n].texts[i].language != payload[n].texts[j].language
    requires exists i :: 0 <= i < |payload[n].texts| && payload[n].texts[i].language !in c.languages
    ensures var (s', error) := Reconcile(s, meeting, payload, newIds, c);
            && error == Some(LanguageMissing)
            && Lookup(s'.votes, newIds[n]) == Some(Vote(meeting, payload[n].fields, false))
            && forall k :: k in s'.texts ==> k.vote != newIds[n]
  {
    UpdateStops(s, meeting, payload, newIds, c, n);
    TextsInKnownLanguages(payload[n].texts, c.languages);
    var d := s.(votes := DeleteOthers(s.votes, meeting, KeptIds(payload)));
    var s1 := ApplyEntries(d, meeting, payload, newIds, c, n).0;
    EntriesKeepForeignKeys(d, meeting, payload, newIds, c, n);
    VoteAfterEntries(d, meeting, payload, newIds, c, n, newIds[n]);
    assert newIds[n] !in s1.votes;
  }

  /** The condition under which an update concerns only its own meeting. */
  predicate NamesOwnVotes(votes: Votes, meeting: Id, payload: seq<Entry>) {
    forall k :: 0 <= k < |payload| && payload[k].id.Some? ==>
      Live(votes, payload[k].id.value) && votes[payload[k].id.value].meeting == meeting
  }

  /** The state of one vote after a successful update. */
  lemma VoteAfterUpdate(s: State, meeting: Id, payload: seq<Entry>, newIds: seq<Id>, c: Context, id: Id)
    requires Fresh(s, payload, newIds) && payload != []
    requires Reconcile(s, meeting, payload, newIds, c).1.None?
    ensures Lookup(Reconcile(s, meeting, payload, newIds, c).0.votes, id) ==
            ExpectedVote(DeleteOthers(s.votes, meeting, KeptIds(payload)), meeting, payload, newIds, |payload|, id)
  {
    var d := s.(votes := DeleteOthers(s.votes, meeting, KeptIds(payload)));
    VoteAfterEntries(d, meeting, payload, newIds, c, |payload|, id);
  }

  /**
   After a successful update the live results of the meeting are those of the entries, one
   each, with the fields of the entry; the other live results of the meeting are deleted with
   their fields kept; every other result is untouched.
   */
  lemma UpdateMatchesPayload(s: State, meeting: Id, payload: seq<Entry>, newIds: seq<Id>, c: Context)
    requires Fresh(s, payload, newIds) && payload != [] && DistinctVotes(payload)
    requires NamesOwnVotes(s.votes, meeting, payload)
    requires Reconcile(s, meeting, payload, newIds, c).1.None?
    ensures var votes := Reconcile(s, meeting, payload, newIds, c).0.votes;
            && (forall k :: 0 <= k < |payload| ==>
                  Lookup(votes, IdAt(payload, newIds, k)) == Some(Vote(meeting, payload[k].fields, false)))
            && (forall i, j :: 0 <= i < j < |payload| ==> IdAt(payload, newIds, i) != IdAt(payload, newIds, j))
            && (forall id :: (forall k :: 0 <= k < |payload| ==> IdAt(payload, newIds, k) != id) ==>
                  Lookup(votes, id) ==
                    if Live(s.votes, id) && s.votes[id].meeting == meeting then Some(s.votes[id].(deleted := true))
                    else Lookup(s.votes, id))
  {
    forall k | 0 <= k < |payload|
      ensures Lookup(Reconcile(s, meeting, payload, newIds, c).0.votes, IdAt(payload, newIds, k))
              == Some(Vote(meeting, payload[k].fields, false))
    {
      EntryVote(s, meeting, payload, newIds, c, k);
    }
    forall i, j | 0 <= i < j < |payload| ensures IdAt(payload, newIds, i) != IdAt(payload, newIds, j) {
      IdsAreDistinct(s, payload, newIds, i, j);
    }
    forall id | forall k :: 0 <= k < |payload| ==> IdAt(payload, newIds, k) != id
      ensures Lookup(Reconcile(s, meeting, payload, newIds, c).0.votes, id) ==
                if Live(s.votes, id) && s.votes[id].meeting == meeting then Some(s.votes[id].(deleted := true))
                else Lookup(s.votes, id)
    {
      OtherVote(s, meeting, payload, newIds, c, id);
    }
  }

  lemma EntryVote(s: State, meeting: Id, payload: seq<Entry>, newIds: seq<Id>, c: Context, k: nat)
    requires Fresh(s, payload, newIds) && k < |payload| && DistinctVotes(payload)
    requires NamesOwnVotes(s.votes, meeting, payload)
    requires Reconcile(s, meeting, payload, newIds, c).1.None?
    ensures Lookup(Reconcile(s, meeting, payload, newIds, c).0.votes, IdAt(payload, newIds, k))
            == Some(Vote(meeting, payload[k].fields, false))
  {
    var id := IdAt(payload, newIds, k);
    VoteAfterUpdate(s, meeting, payload, newIds, c, id);
    assert payload[k].id.Some? ==> id in KeptIds(payload);
  }

  lemma OtherVote(s: State, meeting: Id, payload: seq<Entry>, newIds: seq<Id>, c: Context, id: Id)
    requires Fresh(s, payload, newIds) && payload != []
    requires Reconcile(s, meeting, payload, newIds, c).1.None?
    requires forall k :: 0 <= k < |payload| ==> IdAt(payload, newIds, k) != id
    ensures Lookup(Reconcile(s, meeting, payload, newIds, c).0.votes, id) ==
            if Live(s.votes, id) && s.votes[id].meeting == meeting then Some(s.votes[id].(deleted := true))
            else Lookup(s.votes, id)
  {
    VoteAfterUpdate(s, meeting, payload, newIds, c, id);
    var named, added := NamedAt(payload, |payload|, id), AddedAt(payload, newIds, |payload|, id);
    assert forall k :: 0 <= k < |payload| && payload[k].id == Some(id) ==> IdAt(payload, newIds, k) == id;
    assert forall k :: 0 <= k < |payload| && payload[k].id.None? ==> IdAt(payload, newIds, k) == newIds[k];
    assert named.None? && added.None? && id !in KeptIds(payload);
  }

  /** What an entry that fails does to a live result that is there already. */
  lemma FailingEntryVote(s: State, meeting: Id, e: Entry, newId: Id, c: Context, id: Id)
    requires Live(s.votes, id) && id != newId
    ensures Lookup(ApplyEntry(s, meeting, e, newId, c).0.votes, id) ==
            if e.id == Some(id) then Some(s.votes[id].(fields := e.fields)) else Some(s.votes[id])
  {
  }

  /** A live result of another meeting after an update that succeeds or fails: the last entry tried decides. */
  lemma ForeignVoteAfter(s: State, meeting: Id, payload: seq<Entry>, newIds: seq<Id>, c: Context, id: Id)
    requires ForeignKeys(s, c) && Fresh(s, payload, newIds) && payload != []
    requires Live(s.votes, id) && s.votes[id].meeting != meeting
    ensures var named := NamedAt(payload, Tried(s.votes, meeting, payload, c, 0), id);
            Lookup(Reconcile(s, meeting, payload, newIds, c).0.votes, id) ==
            Some(if named.Some? then s.votes[id].(fields := payload[named.value].fields) else s.votes[id])
  {
    var d := s.(votes := DeleteOthers(s.votes, meeting, KeptIds(payload)));
    var m := Tried(s.votes, meeting, payload, c, 0);
    var n := m - 1;
    if EntryWorks(s.votes, meeting, payload[n], c) {
      UpdateSucceeds(s, meeting, payload, newIds, c);
      VoteAfterEntries(d, meeting, payload, newIds, c, m, id);
    } else {
      UpdateStops(s, meeting, payload, newIds, c, n);
      VoteAfterEntries(d, meeting, payload, newIds, c, n, id);
      FailingEntryVote(ApplyEntries(d, meeting, payload, newIds, c, n).0, meeting, payload[n], newIds[n], c, id);
    }
  }

  /**
   A live result of another meeting stays as it is exactly if no entry that is tried names it,
   or the last of them has the fields it had anyway; otherwise it is overwritten.
   */
  lemma ForeignVoteIsOverwritten(s: State, meeting: Id, payload: seq<Entry>, newIds: seq<Id>, c: Context, id: Id)
    requires ForeignKeys(s, c) && Fresh(s, payload, newIds)
    requires Live(s.votes, id) && s.votes[id].meeting != meeting
    ensures var named := NamedAt(payload, Tried(s.votes, meeting, payload, c, 0), id);
            var after := Lookup(Reconcile(s, meeting, payload, newIds, c).0.votes, id);
            && (named.Some? ==> after == Some(s.votes[id].(fields := payload[named.value].fields)))
            && (after == Some(s.votes[id]) <==> named.None? || payload[named.value].fields == s.votes[id].fields)
  {
    if payload != [] {
      ForeignVoteAfter(s, meeting, payload, newIds, c, id);
    }
  }

  /**
   The texts after a successful update: for an added result one row per provided or active
   language; for a changed result the provided rows replaced and the others as before; for
   any other result nothing changes.
   */
  lemma TextsAfterUpdate(s: State, meeting: Id, payload: seq<Entry>, newIds: seq<Id>, c: Context, key: TextKey)
    requires ForeignKeys(s, c) && Fresh(s, payload, newIds) && payload != [] && DistinctVotes(payload)
    requires Reconcile(s, meeting, payload, newIds, c).1.None?
    ensures var after := Lookup(Reconcile(s, meeting, payload, newIds, c).0.texts, key);
            && (forall k :: 0 <= k < |payload| && IdAt(payload, newIds, k) == key.vote ==>
                  TextOf(after, Lookup(s.texts, key), payload[k], c, key.language))
            && ((forall k :: 0 <= k < |payload| ==> IdAt(payload, newIds, k) != key.vote) ==>
                  after == Lookup(s.texts, key))
  {
    var d := s.(votes := DeleteOthers(s.votes, meeting, KeptIds(payload)));
    if k :| 0 <= k < |payload| && IdAt(payload, newIds, k) == key.vote {
      TextAfterEntries(d, meeting, payload, newIds, c, |payload|, key, Some(k));
      UpdateSucceeds(s, meeting, payload, newIds, c);
      assert EntryWorks(s.votes, meeting, payload[k], c);
      if payload[k].id.None? {
        NoTextBefore(s, payload, newIds, k, key);
      }
      TextFromMeans(payload[k], c, key.language, Lookup(s.texts, key));
      forall i | 0 <= i < |payload| && IdAt(payload, newIds, i) == key.vote ensures i == k {
        if i != k {
          IdsAreDistinct(s, payload, newIds, i, k);
        }
      }
    } else {
      TextAfterEntries(d, meeting, payload, newIds, c, |payload|, key, None);
    }
  }

  lemma NoTextBefore(s: State, payload: seq<Entry>, newIds: seq<Id>, k: nat, key: TextKey)
    requires Fresh(s, payload, newIds) && k < |payload| && key.vote == newIds[k]
    ensures Lookup(s.texts, key) == None
  {
  }

  /** What an entry that works leaves as the text of its result in one language, where `before` was. */
  ghost predicate TextOf(after: Option<Text>, before: Option<Text>, e: Entry, c: Context, language: Id) {
    if Names(e.texts, language) then HoldsLast(after, e.texts, language)
    else if e.id.Some? then after == before
    else if IsActive(c.languages, language) then HoldsBase(after, e.texts, c.korean)
    else after == None
  }

  lemma TextFromMeans(e: Entry, c: Context, language: Id, before: Option<Text>)
    requires e.id.None? && e.texts == [] ==> !IsActive(c.languages, language)
    requires e.id.None? ==> before == None
    ensures TextOf(TextFrom(e, c, language, before), before, e, c, language)
  {
    assert language in LanguagesOf(e.texts) <==> Names(e.texts, language);
    if language in LanguagesOf(e.texts) {
      LastTitleHolds(e.texts, language);
    } else if e.texts != [] {
      BaseTitleIsBase(e.texts, c.korean);
    }
  }

  /** Every entry has become a result of the meeting with its texts; nothing else has changed. */
  ghost predicate Created(s: State, s': State, meeting: Id, payload: seq<Entry>, newIds: seq<Id>, c: Context)
    requires |newIds| == |payload|
  {
    && (forall k :: 0 <= k < |payload| ==> Lookup(s'.votes, newIds[k]) == Some(Vote(meeting, payload[k].fields, false)))
    && (forall id :: id !in newIds ==> Lookup(s'.votes, id) == Lookup(s.votes, id))
    && (forall k, l :: 0 <= k < |payload| ==>
          TextOf(Lookup(s'.texts, TextKey(newIds[k], l)), None, payload[k], c, l))
    && (forall key: TextKey :: key.vote !in newIds ==> Lookup(s'.texts, key) == Lookup(s.texts, key))
  }

  lemma CreationAdds(s: State, meeting: Id, payload: seq<Entry>, newIds: seq<Id>, c: Context)
    requires ForeignKeys(s, c) && Fresh(s, payload, newIds)
    requires forall k :: 0 <= k < |payload| ==> payload[k].id.None?
    ensures var (s', error) := ApplyEntries(s, meeting, payload, newIds, c, |payload|);
            && (error.None? <==> forall k :: 0 <= k < |payload| ==> EntryWorks(map[], meeting, payload[k], c))
            && (error.None? ==> Created(s, s', meeting, payload, newIds, c))
  {
    EntriesSucceed(s, meeting, payload, newIds, c, |payload|);
    AllWorkMeansEach(s.votes, meeting, payload, c, |payload|);
    assert forall k :: 0 <= k < |payload| ==> (EntryWorks(map[], meeting, payload[k], c) <==>
        EntryWorks(s.votes, meeting, payload[k], c));
    if ApplyEntries(s, meeting, payload, newIds, c, |payload|).1.None? {
      CreatedVotes(s, meeting, payload, newIds, c);
      CreatedTexts(s, meeting, payload, newIds, c);
    }
  }

  lemma CreatedVotes(s: State, meeting: Id, payload: seq<Entry>, newIds: seq<Id>, c: Context)
    requires Fresh(s, payload, newIds)
    requires forall k :: 0 <= k < |payload| ==> payload[k].id.None?
    requires ApplyEntries(s, meeting, payload, newIds, c, |payload|).1.None?
    ensures var votes := ApplyEntries(s, meeting, payload, newIds, c, |payload|).0.votes;
            && (forall k :: 0 <= k < |payload| ==>
                  Lookup(votes, newIds[k]) == Some(Vote(meeting, payload[k].fields, false)))
            && (forall id :: id !in newIds ==> Lookup(votes, id) == Lookup(s.votes, id))
  {
    var n := |payload|;
    var votes := ApplyEntries(s, meeting, payload, newIds, c, n).0.votes;
    forall k | 0 <= k < n ensures Lookup(votes, newIds[k]) == Some(Vote(meeting, payload[k].fields, false)) {
      VoteAfterEntries(s, meeting, payload, newIds, c, n, newIds[k]);
    }
    forall id | id !in newIds ensures Lookup(votes, id) == Lookup(s.votes, id) {
      VoteAfterEntries(s, meeting, payload, newIds, c, n, id);
    }
  }

  lemma CreatedTexts(s: State, meeting: Id, payload: seq<Entry>, newIds: seq<Id>, c: Context)
    requires ForeignKeys(s, c) && Fresh(s, payload, newIds)
    requires forall k :: 0 <= k < |payload| ==> payload[k].id.None?
    requires ApplyEntries(s, meeting, payload, newIds, c, |payload|).1.None?
    ensures var texts := ApplyEntries(s, meeting, payload, newIds, c, |payload|).0.texts;
            && (forall k, l :: 0 <= k < |payload| ==>
                  TextOf(Lookup(texts, TextKey(newIds[k], l)), None, payload[k], c, l))
            && (forall key: TextKey :: key.vote !in newIds ==> Lookup(texts, key) == Lookup(s.texts, key))
  {
    var n := |payload|;
    var texts := ApplyEntries(s, meeting, payload, newIds, c, n).0.texts;
    EntriesSucceed(s, meeting, payload, newIds, c, n);
    AllWorkMeansEach(s.votes, meeting, payload, c, n);
    forall k, l | 0 <= k < n ensures TextOf(Lookup(texts, TextKey(newIds[k], l)), None, payload[k], c, l) {
      TextAfterEntries(s, meeting, payload, newIds, c, n, TextKey(newIds[k], l), Some(k));
      assert EntryWorks(s.votes, meeting, payload[k], c);
      NoTextBefore(s, payload, newIds, k, TextKey(newIds[k], l));
      TextFromMeans(payload[k], c, l, None);
    }
    forall key: TextKey | key.vote !in newIds ensures Lookup(texts, key) == Lookup(s.texts, key) {
      TextAfterEntries(s, meeting, payload, newIds, c, n, key, None);
    }
  }

  // ---- the service ----

  class VoteResultService {
    var votes: Votes
    var texts: Texts

    constructor (votes: Votes, texts: Texts)
      ensures this.votes == votes && this.texts == texts
    {
      this.votes, this.texts := votes, texts;
    }

    ghost function Contents(): State
      reads this
    {
      State(votes, texts)
    }

    /** Deletes, row by row, the live results of the meeting that are not to be kept. */
    method DeleteMissing(meeting: Id, keep: set<Id>)
      modifies this`votes
      ensures votes == DeleteOthers(old(votes), meeting, keep)
    {
      var existing := set id | id in votes && !votes[id].deleted && votes[id].meeting == meeting;
      var todo := existing;
      while todo != {}
        invariant todo <= existing && votes.Keys == old(votes).Keys
        invariant forall id :: id in votes ==>
                    votes[id] == if id in existing - todo && id !in keep then old(votes)[id].(deleted := true)
                        else old(votes)[id]
      {
        var id :| id in todo;
        if id !in keep {
          votes := votes[id := votes[id].(deleted := true)];
        }
        todo := todo - {id};
      }
    }

    /** Texts of an existing result: one statement each. */
    method SaveTexts(vote: Id, es: seq<TextEntry>, languages: set<Id>) returns (error: Option<VoteError>)
      modifies this`texts
      ensures (texts, error) == SaveEach(old(texts), languages, vote, es)
    {
      error := None;
      for i := 0 to |es|
        invariant error.None? && (texts, error) == SaveEach(old(texts), languages, vote, es[..i])
      {
        assert es[..i + 1][..i] == es[..i];
        var k := TextKey(vote, es[i].language);
        if k !in texts && es[i].language !in languages {
          error := Some(LanguageMissing);
          SaveEnds(old(texts), languages, vote, es, i + 1);
          return;
        }
        texts := texts[k := Text(es[i].title, false)];
      }
      assert es[..|es|] == es;
    }

    /** Texts of a new result: one statement for all of them. */
    method InsertTexts(vote: Id, es: seq<TextEntry>, languages: set<Id>) returns (error: Option<VoteError>)
      modifies this`texts
      ensures error == if !NoRepeats(es) then Some(UniqueViolation)
                       else if !(LanguagesOf(es) <= languages) then Some(LanguageMissing)
                       else None
      ensures texts == if error.None? then PutTexts(old(texts), vote, es) else old(texts)
    {
      if !NoRepeats(es) {
        return Some(UniqueViolation);
      }
      if exists i | 0 <= i < |es| :: es[i].language !in languages {
        return Some(LanguageMissing);
      }
      for i := 0 to |es|
        invariant texts == PutTexts(old(texts), vote, es[..i])
      {
        assert es[..i + 1][..i] == es[..i];
        texts := texts[TextKey(vote, es[i].language) := Text(es[i].title, false)];
      }
      assert es[..|es|] == es;
      error := None;
    }

    method ApplyOne(meeting: Id, e: Entry, newId: Id, c: Context) returns (error: Option<VoteError>)
      modifies this
      ensures (Contents(), error) == ApplyEntry(old(Contents()), meeting, e, newId, c)
      ensures old(ForeignKeys(Contents(), c)) && error.Some? ==> FailsWith(error.value, old(votes), meeting, e, c)
    {
      if ForeignKeys(Contents(), c) {
        forall x ensures ApplyEntry(Contents(), meeting, e, newId, c).1 == Some(x) <==>
                         FailsWith(x, votes, meeting, e, c)
        {
          EntryFailsWith(Contents(), meeting, e, newId, c, x);
        }
      }
      if e.id.Some? {
        var id := e.id.value;
        if !Live(votes, id) {
          return Some(VoteNotFound);
        }
        votes := votes[id := votes[id].(fields := e.fields)];
        error := SaveTexts(id, e.texts, c.languages.Keys);
        return;
      }
      if meeting !in c.meetings {
        return Some(MeetingMissing);
      }
      votes := votes[newId := Vote(meeting, e.fields, false)];
      error := InsertTexts(newId, e.texts, c.languages.Keys);
      if error.Some? {
        return;
      }
      var remaining := ActiveLanguages(c.languages) - LanguagesOf(e.texts);
      if remaining != {} {
        if |e.texts| == 0 {
          return Some(NoBaseText);
        }
        texts := texts + SyncedTexts(newId, remaining, BaseTitle(e.texts, c.korean));
      }
    }

    method ApplyAll(meeting: Id, payload: seq<Entry>, newIds: seq<Id>, c: Context) returns (error: Option<VoteError>)
      requires |newIds| == |payload|
      modifies this
      ensures (Contents(), error) == ApplyEntries(old(Contents()), meeting, payload, newIds, c, |payload|)
    {
      ghost var d := Contents();
      error := None;
      for n := 0 to |payload|
        invariant (Contents(), error) == ApplyEntries(d, meeting, payload, newIds, c, n)
        invariant error.None?
      {
        error := ApplyOne(meeting, payload[n], newIds[n], c);
        if error.Some? {
          ErrorEndsUpdate(d, meeting, payload, newIds, c, n + 1);
          return;
        }
      }
    }

    /** A whole update, entry by entry, without a transaction; the base text is the first. */
    method Update(meeting: Id, payload: seq<Entry>, newIds: seq<Id>, c: Context) returns (error: Option<VoteError>)
      requires Fresh(Contents(), payload, newIds) && ForeignKeys(Contents(), c)
      modifies this
      ensures (Contents(), error) == Reconcile(old(Contents()), meeting, payload, newIds, c.(korean := None))
      ensures error.None? <==> forall k :: 0 <= k < |payload| ==> EntryWorks(old(votes), meeting, payload[k], c)
      ensures ForeignKeys(Contents(), c)
    {
      ghost var s, first := Contents(), c.(korean := None);
      UpdateSucceeds(s, meeting, payload, newIds, first);
      UpdateKeepsForeignKeys(s, meeting, payload, newIds, first);
      assert forall k :: 0 <= k < |payload| ==>
          (EntryWorks(s.votes, meeting, payload[k], c) <==> EntryWorks(s.votes, meeting, payload[k], first));
      if |payload| == 0 {
        return None;
      }
      DeleteMissing(meeting, KeptIds(payload));
      error := ApplyAll(meeting, payload, newIds, c.(korean := None));
    }

    /** The results of a new meeting; the base text is the Korean one if it is given. */
    method Create(meeting: Id, payload: seq<Entry>, newIds: seq<Id>, c: Context) returns (error: Option<VoteError>)
      requires Fresh(Contents(), payload, newIds) && ForeignKeys(Contents(), c)
      requires forall k :: 0 <= k < |payload| ==> payload[k].id.None?
      modifies this
      ensures error.None? <==> forall k :: 0 <= k < |payload| ==> EntryWorks(map[], meeting, payload[k], c)
      ensures error.None? ==> Created(old(Contents()), Contents(), meeting, payload, newIds, c)
      ensures ForeignKeys(Contents(), c)
    {
      CreationAdds(Contents(), meeting, payload, newIds, c);
      EntriesKeepForeignKeys(Contents(), meeting, payload, newIds, c, |payload|);
      error := ApplyAll(meeting, payload, newIds, c);
    }
  }

  lemma {:induction false} SaveEnds(texts: Texts, languages: set<Id>, vote: Id, es: seq<TextEntry>, i: nat)
    requires i <= |es| && SaveEach(texts, languages, vote, es[..i]).1.Some?
    ensures SaveEach(texts, languages, vote, es) == SaveEach(texts, languages, vote, es[..i])
    decreases |es|
  {
    if i == |es| {
      assert es[..i] == es;
    } else {
      var front := es[..|es| - 1];
      assert front[..i] == es[..i];
      SaveEnds(texts, languages, vote, front, i);
    }
  }

  lemma ErrorEndsUpdate(s: State, meeting: Id, payload: seq<Entry>, newIds: seq<Id>, c: Context, n: nat)
    requires n <= |payload| == |newIds| && ApplyEntries(s, meeting, payload, newIds, c, n).1.Some?
    ensures ApplyEntries(s, meeting, payload, newIds, c, |payload|) == ApplyEntries(s, meeting, payload, newIds, c, n)
    decreases |payload| - n
  {
    if n < |payload| {
      ErrorEndsUpdate(s, meeting, payload, newIds, c, n + 1);
    }
  }
}
