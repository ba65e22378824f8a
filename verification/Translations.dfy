/**
 Translation rows of an entity, one per language: creation with automatic rows for the
 remaining active languages, and the two ways of updating them from a payload.
 */
module Translations {
  import opened TextEntries
  import opened Wrappers

  /** The unique index of the translation tables. */
  datatype Key = Key(owner: Id, language: Id)

  datatype Text = Text(title: string, description: Option<string>, isSynced: bool)

  type Table = map<Key, Text>

  datatype TextError = LanguageNotFound | DuplicateLanguage | NoBaseTranslation | UniqueViolation | ReferenceMissing

  /** The rows that the foreign keys of a translation can name, deleted ones included. */
  datatype References = References(owners: set<Id>, languages: set<Id>)

  predicate Refers(refs: References, k: Key) {
    k.owner in refs.owners && k.language in refs.languages
  }

  predicate ForeignKeys(t: Table, refs: References) {
    forall k :: k in t ==> Refers(refs, k)
  }

  predicate AllRefer(refs: References, owner: Id, es: seq<TextEntry>) {
    forall i :: 0 <= i < |es| ==> Refers(refs, Key(owner, es[i].language))
  }

  /** A new row stores an empty description as null, unless the service keeps it. */
  function Stored(description: Option<string>, keepsEmpty: bool): Option<string> {
    if description == Some("") && !keepsEmpty then None else description
  }

  function Inserted(e: TextEntry, isSynced: bool, keepsEmpty: bool): Text {
    Text(e.title, Stored(e.description, keepsEmpty), isSynced)
  }

  /** An update without description keeps the one that is there, and stops the synchronisation. */
  function Updated(current: Text, e: TextEntry): Text {
    Text(e.title, if e.description.Some? then e.description else current.description, false)
  }

  function KeysOf(owner: Id, languages: set<Id>): set<Key> {
    set l | l in languages :: Key(owner, l)
  }

  // ---- what an update is meant to leave ----

  function UpsertEntry(t: Table, owner: Id, e: TextEntry, keepsEmpty: bool): Table {
    var k := Key(owner, e.language);
    t[k := if k in t then Updated(t[k], e) else Inserted(e, false, keepsEmpty)]
  }

  function UpsertAll(t: Table, owner: Id, es: seq<TextEntry>, keepsEmpty: bool): Table {
    if es == [] then t else UpsertEntry(UpsertAll(t, owner, es[..|es| - 1], keepsEmpty), owner, es[|es| - 1],
        keepsEmpty)
  }

  lemma {:induction false} UpsertKeys(t: Table, owner: Id, es: seq<TextEntry>, keepsEmpty: bool)
    ensures UpsertAll(t, owner, es, keepsEmpty).Keys == t.Keys + KeysOf(owner, LanguagesOf(es))
    ensures forall k :: k in t && k !in KeysOf(owner, LanguagesOf(es)) ==>
        UpsertAll(t, owner, es, keepsEmpty)[k] == t[k]
  {
    if es != [] {
      var front, e := es[..|es| - 1], es[|es| - 1];
      UpsertKeys(t, owner, front, keepsEmpty);
      LanguagesOfFront(es);
      assert KeysOf(owner, LanguagesOf(es)) == KeysOf(owner, LanguagesOf(front)) + {Key(owner, e.language)};
    }
  }

  /** Which keys are there after some entries, seen from one language. */
  lemma KeyAfterUpsert(t: Table, owner: Id, es: seq<TextEntry>, keepsEmpty: bool, language: Id)
    ensures Key(owner, language) in UpsertAll(t, owner, es, keepsEmpty) <==>
            Key(owner, language) in t || language in LanguagesOf(es)
  {
    UpsertKeys(t, owner, es, keepsEmpty);
    assert Key(owner, language) in KeysOf(owner, LanguagesOf(es)) <==> language in LanguagesOf(es);
  }

  // ---- updating entry by entry ----

  /**
   Writes one entry, `known` being the keys the service has read.  The database refuses a second
   row under one key, and a new row whose owner or language does not exist.
   */
  function Save(t: Table, refs: References, known: set<Key>, owner: Id, e: TextEntry, keepsEmpty: bool): (Table,
      Option<TextError>)
  {
    var k := Key(owner, e.language);
    if k in known && k in t then (t[k := Updated(t[k], e)], None)
    else if k in t then (t, Some(UniqueViolation))
    else if !Refers(refs, k) then (t, Some(ReferenceMissing))
    else (t[k := Inserted(e, false, keepsEmpty)], None)
  }

  /** The rows are read again for each entry; an error ends the loop and keeps what was written. */
  function FreshAll(t: Table, refs: References, owner: Id, es: seq<TextEntry>, keepsEmpty: bool): (Table,
      Option<TextError>)
  {
    if es == [] then (t, None)
    else
      var (t1, error) := FreshAll(t, refs, owner, es[..|es| - 1], keepsEmpty);
      if error.Some? then (t1, error) else Save(t1, refs, t1.Keys, owner, es[|es| - 1], keepsEmpty)
  }

  /** The rows are read once, before the loop. */
  function StaleAll(t: Table, refs: References, known: set<Key>, owner: Id, es: seq<TextEntry>, keepsEmpty: bool): (
      Table, Option<TextError>)
  {
    if es == [] then (t, None)
    else
      var (t1, error) := StaleAll(t, refs, known, owner, es[..|es| - 1], keepsEmpty);
      if error.Some? then (t1, error) else Save(t1, refs, known, owner, es[|es| - 1], keepsEmpty)
  }

  /** No language that has no row yet is named twice. */
  predicate NewLanguagesNamedOnce(t: Table, owner: Id, es: seq<TextEntry>) {
    forall i, j :: 0 <= i < j < |es| && es[i].language == es[j].language ==> Key(owner, es[i].language) in t
  }

  /** The loop that reads again writes the entries before the first missing reference. */
  lemma {:induction false} FreshStops(t: Table, refs: References, owner: Id, es: seq<TextEntry>, keepsEmpty: bool,
                                      n: nat)
    requires ForeignKeys(t, refs) && n <= |es| && AllRefer(refs, owner, es[..n])
    requires n < |es| ==> !Refers(refs, Key(owner, es[n].language))
    ensures FreshAll(t, refs, owner, es, keepsEmpty) ==
            (UpsertAll(t, owner, es[..n], keepsEmpty), if n == |es| then None else Some(ReferenceMissing))
  {
    if es != [] {
      var m := |es| - 1;
      var front := es[..m];
      if n <= m {
        assert front[..n] == es[..n];
        FreshStops(t, refs, owner, front, keepsEmpty, n);
        KeyAfterUpsert(t, owner, front, keepsEmpty, es[m].language);
      } else {
        assert front[..m] == front && es[..n] == es;
        FreshStops(t, refs, owner, front, keepsEmpty, m);
      }
    }
  }

  /** The loop that reads once stops there too, and at the second insert for one language. */
  lemma {:induction false} StaleStops(t: Table, refs: References, owner: Id, es: seq<TextEntry>, keepsEmpty: bool,
                                      n: nat)
    requires ForeignKeys(t, refs) && n <= |es| && AllRefer(refs, owner, es[..n])
    requires NewLanguagesNamedOnce(t, owner, es[..n])
    requires n < |es| ==>
               !Refers(refs, Key(owner, es[n].language)) || !NewLanguagesNamedOnce(t, owner, es[..n + 1])
    ensures StaleAll(t, refs, t.Keys, owner, es, keepsEmpty) ==
            (UpsertAll(t, owner, es[..n], keepsEmpty),
             if n == |es| then None
             else if !Refers(refs, Key(owner, es[n].language)) then Some(ReferenceMissing)
             else Some(UniqueViolation))
  {
    if es != [] {
      var m := |es| - 1;
      var front := es[..m];
      KeyAfterUpsert(t, owner, front, keepsEmpty, es[m].language);
      NamedOnceUnfolds(t, owner, es);
      if n <= m {
        assert front[..n] == es[..n];
        assert n < m ==> front[..n + 1] == es[..n + 1];
        assert n == m ==> es[..n + 1] == es;
        StaleStops(t, refs, owner, front, keepsEmpty, n);
      } else {
        assert front[..m] == front && es[..n] == es;
        StaleStops(t, refs, owner, front, keepsEmpty, m);
      }
    }
  }

  /** The entries before the first one that cannot be written. */
  function WritableFresh(refs: References, owner: Id, es: seq<TextEntry>): (n: nat)
    ensures n <= |es| && AllRefer(refs, owner, es[..n])
    ensures n < |es| ==> !Refers(refs, Key(owner, es[n].language))
  {
    if es == [] then 0
    else
      var front := es[..|es| - 1];
      var n := WritableFresh(refs, owner, front);
      assert front[..n] == es[..n];
      if n == |front| && Refers(refs, Key(owner, es[n].language)) then |es| else n
  }

  function WritableStale(t: Table, refs: References, owner: Id, es: seq<TextEntry>): (n: nat)
    ensures n <= |es| && AllRefer(refs, owner, es[..n]) && NewLanguagesNamedOnce(t, owner, es[..n])
    ensures n < |es| ==>
              !Refers(refs, Key(owner, es[n].language)) || !NewLanguagesNamedOnce(t, owner, es[..n + 1])
  {
    if es == [] then 0
    else
      var front := es[..|es| - 1];
      var n := WritableStale(t, refs, owner, front);
      assert front[..n] == es[..n];
      assert n < |front| ==> front[..n + 1] == es[..n + 1];
      assert n == |front| ==> es[..n + 1] == es;
      if n == |front| && Refers(refs, Key(owner, es[n].language)) && NewLanguagesNamedOnce(t, owner, es) then |es|
      else n
  }

  /**
   Both updates need every named language and the owner to exist.  Reading once is then as good
   as reading each time exactly if no new language is named twice.
   */
  lemma StaleRefinesFresh(t: Table, refs: References, owner: Id, es: seq<TextEntry>, keepsEmpty: bool)
    requires ForeignKeys(t, refs)
    ensures var again, stale := FreshAll(t, refs, owner, es, keepsEmpty),
                                 StaleAll(t, refs, t.Keys, owner, es, keepsEmpty);
            && (again.1.None? <==> AllRefer(refs, owner, es))
            && (stale.1.None? <==> AllRefer(refs, owner, es) && NewLanguagesNamedOnce(t, owner, es))
            && (again.1.None? ==> again.0 == UpsertAll(t, owner, es, keepsEmpty))
            && (stale.1.None? ==> stale.0 == again.0)
  {
    assert es[..|es|] == es;
    FreshStops(t, refs, owner, es, keepsEmpty, WritableFresh(refs, owner, es));
    var n := WritableStale(t, refs, owner, es);
    StaleStops(t, refs, owner, es, keepsEmpty, n);
    if n < |es| && NewLanguagesNamedOnce(t, owner, es) {
      assert forall i :: 0 <= i <= n ==> es[..n + 1][i] == es[i];
    }
  }

  lemma NamedOnceUnfolds(t: Table, owner: Id, es: seq<TextEntry>)
    requires es != []
    ensures var n := |es| - 1;
            NewLanguagesNamedOnce(t, owner, es) <==>
            && NewLanguagesNamedOnce(t, owner, es[..n])
            && (Key(owner, es[n].language) in t || es[n].language !in LanguagesOf(es[..n]))
  {
    var n := |es| - 1;
    var front := es[..n];
    if NewLanguagesNamedOnce(t, owner, es) {
      forall i, j | 0 <= i < j < n && front[i].language == front[j].language
        ensures Key(owner, front[i].language) in t
      {
        assert es[i] == front[i] && es[j] == front[j];
      }
      if es[n].language in LanguagesOf(front) {
        var i :| 0 <= i < n && front[i].language == es[n].language;
        assert es[i] == front[i];
      }
    }
    if NewLanguagesNamedOnce(t, owner, front) && (Key(owner,
        es[n].language) in t || es[n].language !in LanguagesOf(front)) {
      forall i, j | 0 <= i < j < |es| && es[i].language == es[j].language
        ensures Key(owner, es[i].language) in t
      {
        assert es[i] == front[i];
        if j < n {
          assert es[j] == front[j];
        }
      }
    }
  }

  // ---- what the updated rows hold ----

  /** Entry `i` is the last of its language that supplies a description. */
  predicate IsLastDescription(es: seq<TextEntry>, i: nat) {
    && i < |es| && es[i].description.Some?
    && forall j :: i < j < |es| && es[j].language == es[i].language ==> es[j].description.None?
  }

  predicate SuppliesDescription(es: seq<TextEntry>, language: Id) {
    exists i | 0 <= i < |es| :: es[i].language == language && es[i].description.Some?
  }

  /** What a new row holds as description when `given` is the one of its entry. */
  predicate Keeps(stored: Option<string>, given: Option<string>, keepsEmpty: bool) {
    && (given.None? ==> stored.None?)
    && (given.Some? && given.value != "" ==> stored == given)
    && (given == Some("") ==> stored == if keepsEmpty then given else None)
  }

  /** The last title wins and the row is no longer synchronised. */
  lemma {:induction false} LastTitleWins(t: Table, owner: Id, es: seq<TextEntry>, keepsEmpty: bool, i: nat)
    requires IsLastFor(es, i)
    ensures var k := Key(owner, es[i].language);
            k in UpsertAll(t, owner, es, keepsEmpty) && UpsertAll(t, owner, es, keepsEmpty)[k].title == es[i].title
            && !UpsertAll(t, owner, es, keepsEmpty)[k].isSynced
  {
    if i < |es| - 1 {
      LastTitleWins(t, owner, es[..|es| - 1], keepsEmpty, i);
    }
  }

  /**
   The last description supplied wins.  Only the entry that creates the row turns an empty
   description into null.
   */
  lemma {:induction false} LastDescriptionWins(t: Table, owner: Id, es: seq<TextEntry>, keepsEmpty: bool, i: nat)
    requires IsLastDescription(es, i)
    ensures var k := Key(owner, es[i].language);
            && k in UpsertAll(t, owner, es, keepsEmpty)
            && var stored := UpsertAll(t, owner, es, keepsEmpty)[k].description;
               if k !in t && IsFirstFor(es, i) then Keeps(stored, es[i].description, keepsEmpty)
               else stored == es[i].description
  {
    var n := |es| - 1;
    var front := es[..n];
    var k := Key(owner, es[i].language);
    UpsertKeys(t, owner, front, keepsEmpty);
    if i < n {
      LastDescriptionWins(t, owner, front, keepsEmpty, i);
      assert IsFirstFor(front, i) <==> IsFirstFor(es, i);
    } else {
      assert k in KeysOf(owner, LanguagesOf(front)) <==> es[i].language in LanguagesOf(front);
      assert es[i].language in LanguagesOf(front) <==> !IsFirstFor(es, i);
    }
  }

  /** Without any description in the payload the old one stays; a new row gets none. */
  lemma {:induction false} DescriptionStays(t: Table, owner: Id, es: seq<TextEntry>, keepsEmpty: bool, language: Id)
    requires language in LanguagesOf(es) && !SuppliesDescription(es, language)
    ensures var k := Key(owner, language);
            k in UpsertAll(t, owner, es, keepsEmpty)
            && UpsertAll(t, owner, es, keepsEmpty)[k].description == if k in t then t[k].description else None
  {
    var n := |es| - 1;
    var front := es[..n];
    UpsertKeys(t, owner, es, keepsEmpty);
    UpsertKeys(t, owner, front, keepsEmpty);
    LanguagesOfFront(es);
    assert forall i :: 0 <= i < n ==> front[i] == es[i];
    if language in LanguagesOf(front) {
      DescriptionStays(t, owner, front, keepsEmpty, language);
    }
  }

  /** What an update leaves, row by row. */
  ghost predicate Upserted(before: Table, after: Table, owner: Id, es: seq<TextEntry>, keepsEmpty: bool) {
    && (forall k :: k in after <==> k in before || (k.owner == owner && Names(es, k.language)))
    && (forall k :: k in before && !(k.owner == owner && Names(es, k.language)) ==> after[k] == before[k])
    && (forall i: nat :: IsLastFor(es, i) ==> Titled(after, Key(owner, es[i].language), es[i].title))
    && (forall i: nat :: IsLastDescription(es, i) ==> Described(before, after, owner, es, keepsEmpty, i))
    && (forall l :: Names(es, l) && !SuppliesDescription(es, l) ==>
          var k := Key(owner, l);
          k in after && after[k].description == if k in before then before[k].description else None)
  }

  predicate Titled(t: Table, k: Key, title: string) {
    k in t && t[k].title == title && !t[k].isSynced
  }

  /** The row holds the description of entry `i`; only a new row may turn an empty one into null. */
  predicate Described(before: Table, after: Table, owner: Id, es: seq<TextEntry>, keepsEmpty: bool, i: nat)
    requires i < |es|
  {
    var k := Key(owner, es[i].language);
    && k in after
    && if k !in before && IsFirstFor(es, i) then Keeps(after[k].description, es[i].description, keepsEmpty)
       else after[k].description == es[i].description
  }

  lemma {:induction false} UpsertMeans(t: Table, owner: Id, es: seq<TextEntry>, keepsEmpty: bool)
    ensures Upserted(t, UpsertAll(t, owner, es, keepsEmpty), owner, es, keepsEmpty)
  {
    var after := UpsertAll(t, owner, es, keepsEmpty);
    UpsertKeys(t, owner, es, keepsEmpty);
    assert forall k: Key :: k in KeysOf(owner, LanguagesOf(es)) <==> k.owner == owner && Names(es, k.language);
    forall i: nat | IsLastFor(es, i) ensures Titled(after, Key(owner, es[i].language), es[i].title) {
      LastTitleWins(t, owner, es, keepsEmpty, i);
    }
    forall i: nat | IsLastDescription(es, i) ensures Described(t, after, owner, es, keepsEmpty, i) {
      LastDescriptionWins(t, owner, es, keepsEmpty, i);
    }
    forall l | Names(es, l) && !SuppliesDescription(es, l)
      ensures var k := Key(owner, l);
              k in after && after[k].description == if k in t then t[k].description else None
    {
      DescriptionStays(t, owner, es, keepsEmpty, l);
    }
  }

  /** The entries before `n` are written, and the owner or the language of entry `n` does not exist. */
  ghost predicate StoppedAt(before: Table, after: Table, refs: References, owner: Id, es: seq<TextEntry>,
                            keepsEmpty: bool, n: nat)
    requires n < |es|
  {
    && !(owner in refs.owners && es[n].language in refs.languages)
    && Upserted(before, after, owner, es[..n], keepsEmpty)
  }

  /** The entries before `n` are written, one of them as a new row in the language of entry `n`. */
  ghost predicate StoppedAgainAt(before: Table, after: Table, owner: Id, es: seq<TextEntry>, keepsEmpty: bool, n: nat)
    requires n < |es|
  {
    && Key(owner, es[n].language) !in before && Names(es[..n], es[n].language)
    && Upserted(before, after, owner, es[..n], keepsEmpty)
  }

  /** The owner and every named language have a row. */
  predicate AllExist(owner: Id, es: seq<TextEntry>, owners: set<Id>, languages: set<Id>) {
    forall i :: 0 <= i < |es| ==> owner in owners && es[i].language in languages
  }

  lemma FreshMeans(t: Table, refs: References, owner: Id, es: seq<TextEntry>, keepsEmpty: bool)
    requires ForeignKeys(t, refs)
    ensures var (after, error) := FreshAll(t, refs, owner, es, keepsEmpty);
            && (error.None? <==> AllExist(owner, es, refs.owners, refs.languages))
            && (error.None? ==> Upserted(t, after, owner, es, keepsEmpty))
            && (error.Some? ==>
                  && error == Some(ReferenceMissing)
                  && exists n: nat :: n < |es| && StoppedAt(t, after, refs, owner, es, keepsEmpty, n))
  {
    assert es[..|es|] == es;
    var n := WritableFresh(refs, owner, es);
    FreshStops(t, refs, owner, es, keepsEmpty, n);
    UpsertMeans(t, owner, es[..n], keepsEmpty);
    AllReferExist(refs, owner, es);
    assert forall i :: 0 <= i < n ==> es[..n][i] == es[i];
    assert n < |es| ==> StoppedAt(t, UpsertAll(t, owner, es[..n], keepsEmpty), refs, owner, es, keepsEmpty, n);
  }

  lemma StaleMeans(t: Table, refs: References, owner: Id, es: seq<TextEntry>, keepsEmpty: bool)
    requires ForeignKeys(t, refs)
    ensures var (after, error) := StaleAll(t, refs, t.Keys, owner, es, keepsEmpty);
            && (error.None? <==>
                 && AllExist(owner, es, refs.owners, refs.languages)
                 && NewLanguagesNamedOnce(t, owner, es))
            && (error.None? ==> Upserted(t, after, owner, es, keepsEmpty))
            && (error == Some(ReferenceMissing) ==>
                  exists n: nat :: n < |es| && StoppedAt(t, after, refs, owner, es, keepsEmpty, n))
            && (error.Some? && error != Some(ReferenceMissing) ==>
                  && error == Some(UniqueViolation)
                  && exists n: nat :: n < |es| && StoppedAgainAt(t, after, owner, es, keepsEmpty, n))
  {
    StaleRefinesFresh(t, refs, owner, es, keepsEmpty);
    UpsertMeans(t, owner, es, keepsEmpty);
    AllReferExist(refs, owner, es);
    if StaleAll(t, refs, t.Keys, owner, es, keepsEmpty).1.Some? {
      var n := StaleStopsSomewhere(t, refs, owner, es, keepsEmpty);
    }
  }

  lemma AllReferExist(refs: References, owner: Id, es: seq<TextEntry>)
    ensures AllRefer(refs, owner, es) <==> AllExist(owner, es, refs.owners, refs.languages)
  {
    if !AllExist(owner, es, refs.owners, refs.languages) {
      var i :| 0 <= i < |es| && !(owner in refs.owners && es[i].language in refs.languages);
      assert !Refers(refs, Key(owner, es[i].language));
    }
  }

  lemma StaleStopsSomewhere(t: Table, refs: References, owner: Id, es: seq<TextEntry>, keepsEmpty: bool)
    returns (n: nat)
    requires ForeignKeys(t, refs) && StaleAll(t, refs, t.Keys, owner, es, keepsEmpty).1.Some?
    ensures var (after, error) := StaleAll(t, refs, t.Keys, owner, es, keepsEmpty);
            && n < |es|
            && if error == Some(ReferenceMissing) then StoppedAt(t, after, refs, owner, es, keepsEmpty, n)
               else error == Some(UniqueViolation) && StoppedAgainAt(t, after, owner, es, keepsEmpty, n)
  {
    n := WritableStale(t, refs, owner, es);
    StaleStops(t, refs, owner, es, keepsEmpty, n);
    StaleStopMeans(t, refs, owner, es, keepsEmpty, n);
  }

  lemma StaleStopMeans(t: Table, refs: References, owner: Id, es: seq<TextEntry>, keepsEmpty: bool, n: nat)
    requires n < |es| && NewLanguagesNamedOnce(t, owner, es[..n])
    requires !Refers(refs, Key(owner, es[n].language)) || !NewLanguagesNamedOnce(t, owner, es[..n + 1])
    ensures var after := UpsertAll(t, owner, es[..n], keepsEmpty);
            if Refers(refs, Key(owner, es[n].language)) then StoppedAgainAt(t, after, owner, es, keepsEmpty, n)
            else StoppedAt(t, after, refs, owner, es, keepsEmpty, n)
  {
    UpsertMeans(t, owner, es[..n], keepsEmpty);
    NamedOnceUnfolds(t, owner, es[..n + 1]);
    assert es[..n + 1][..n] == es[..n];
    assert es[n].language in LanguagesOf(es[..n]) <==> Names(es[..n], es[n].language);
  }

  // ---- creating ----

  predicate AllKnown(es: seq<TextEntry>, languages: map<Id, Language>) {
    forall i :: 0 <= i < |es| ==> es[i].language in languages && !languages[es[i].language].deleted
  }

  /** The position of the Korean entry, or 0. */
  function BaseIndex(es: seq<TextEntry>, languages: map<Id, Language>, from: nat): (k: nat)
    requires from <= |es| && AllKnown(es, languages)
    ensures es != [] ==> k < |es|
    ensures (forall i :: from <= i < |es| ==> languages[es[i].language].code != "ko") ==> k == 0
    ensures (exists i :: from <= i < |es| && languages[es[i].language].code == "ko") ==>
              && from <= k < |es| && languages[es[k].language].code == "ko"
              && forall i :: from <= i < k ==> languages[es[i].language].code != "ko"
    decreases |es| - from
  {
    if from == |es| then 0
    else if languages[es[from].language].code == "ko" then from
    else BaseIndex(es, languages, from + 1)
  }

  function CreateRefusal(es: seq<TextEntry>, languages: map<Id, Language>): Option<TextError> {
    if !AllKnown(es, languages) then Some(LanguageNotFound)
    else if !NoRepeats(es) then Some(DuplicateLanguage)
    else if es == [] && ActiveLanguages(languages) != {} then Some(NoBaseTranslation)
    else None
  }

  /** Why a creation is refused: an unknown language, then a repeated one, then nothing to copy. */
  ghost predicate RefusedFor(refused: Option<TextError>, es: seq<TextEntry>, languages: map<Id, Language>) {
    var unknown := exists i :: 0 <= i < |es| && (es[i].language in languages ==> languages[es[i].language].deleted);
    var repeated := exists i, j :: 0 <= i < j < |es| && es[i].language == es[j].language;
    && (refused == Some(LanguageNotFound) <==> unknown)
    && (refused == Some(DuplicateLanguage) <==> !unknown && repeated)
    && (refused == Some(NoBaseTranslation) <==> es == [] && exists l :: IsActive(languages, l))
    && (refused.Some? ==> refused.value in {LanguageNotFound, DuplicateLanguage, NoBaseTranslation})
  }

  lemma RefusalMeans(es: seq<TextEntry>, languages: map<Id, Language>)
    ensures RefusedFor(CreateRefusal(es, languages), es, languages)
  {
    assert forall l :: l in ActiveLanguages(languages) <==> IsActive(languages, l);
    assert ActiveLanguages(languages) != {} ==> exists l :: l in ActiveLanguages(languages);
  }

  /** Entry `b` is the first Korean one, or the first one if none is Korean. */
  predicate IsBase(es: seq<TextEntry>, languages: map<Id, Language>, b: nat) {
    && b < |es|
    && (forall i :: 0 <= i < b ==> !IsKorean(es[i], languages))
    && (IsKorean(es[b], languages) || (b == 0 && forall i :: 0 <= i < |es| ==> !IsKorean(es[i], languages)))
  }

  predicate IsKorean(e: TextEntry, languages: map<Id, Language>) {
    e.language in languages && languages[e.language].code == "ko"
  }

  /** The row of this language holds the texts of entry `b`. */
  predicate Holds(rows: Table, k: Key, e: TextEntry, isSynced: bool, keepsEmpty: bool) {
    && k in rows && rows[k].title == e.title && rows[k].isSynced == isSynced
    && Keeps(rows[k].description, e.description, keepsEmpty)
  }

  /** `rows` are the rows of a new entity: each provided text unsynced, the base text everywhere else. */
  ghost predicate Covers(rows: Table, owner: Id, es: seq<TextEntry>, languages: map<Id, Language>, keepsEmpty: bool) {
    && (forall k :: k in rows <==> k.owner == owner && (Names(es, k.language) || IsActive(languages, k.language)))
    && (forall i :: 0 <= i < |es| ==> Holds(rows, Key(owner, es[i].language), es[i], false, keepsEmpty))
    && (forall l :: IsActive(languages, l) && !Names(es, l) ==>
          exists b: nat :: IsBase(es, languages, b) && Holds(rows, Key(owner, l), es[b], true, keepsEmpty))
  }

  lemma BaseIndexIsBase(es: seq<TextEntry>, languages: map<Id, Language>)
    requires es != [] && AllKnown(es, languages)
    ensures IsBase(es, languages, BaseIndex(es, languages, 0))
  {
    var b := BaseIndex(es, languages, 0);
    assert forall i :: 0 <= i < |es| ==> (IsKorean(es[i], languages) <==> languages[es[i].language].code == "ko");
    if exists i :: 0 <= i < |es| && languages[es[i].language].code == "ko" {
      assert languages[es[b].language].code == "ko";
    }
  }

  function ProvidedRows(owner: Id, es: seq<TextEntry>, keepsEmpty: bool): Table {
    if es == [] then map[]
    else ProvidedRows(owner, es[..|es| - 1], keepsEmpty)[Key(owner, es[|es| - 1].language) := Inserted(es[|es| - 1],
        false, keepsEmpty)]
  }

  function SameRows(owner: Id, languages: set<Id>, text: Text): Table {
    map k | k in KeysOf(owner, languages) :: text
  }

  lemma SameRowsNext(base: Table, owner: Id, done: set<Id>, l: Id, text: Text)
    requires l !in done && Key(owner, l) !in base
    ensures Key(owner, l) !in base + SameRows(owner, done, text)
    ensures (base + SameRows(owner, done, text))[Key(owner, l) := text]
            == base + SameRows(owner, done + {l}, text)
  {
    assert KeysOf(owner, done + {l}) == KeysOf(owner, done) + {Key(owner, l)};
    assert Key(owner, l) in KeysOf(owner, done) <==> l in done;
  }

  lemma {:induction false} ProvidedKeys(owner: Id, es: seq<TextEntry>, keepsEmpty: bool)
    ensures ProvidedRows(owner, es, keepsEmpty).Keys == KeysOf(owner, LanguagesOf(es))
  {
    if es != [] {
      var front, e := es[..|es| - 1], es[|es| - 1];
      ProvidedKeys(owner, front, keepsEmpty);
      LanguagesOfFront(es);
      assert KeysOf(owner, LanguagesOf(es)) == KeysOf(owner, LanguagesOf(front)) + {Key(owner, e.language)};
    }
  }

  lemma {:induction false} ProvidedRow(owner: Id, es: seq<TextEntry>, keepsEmpty: bool, i: nat)
    requires NoRepeats(es) && i < |es|
    ensures Key(owner, es[i].language) in ProvidedRows(owner, es, keepsEmpty)
    ensures ProvidedRows(owner, es, keepsEmpty)[Key(owner, es[i].language)] == Inserted(es[i], false, keepsEmpty)
  {
    if i < |es| - 1 {
      ProvidedRow(owner, es[..|es| - 1], keepsEmpty, i);
    }
  }

  lemma SumAssociative(a: Table, b: Table, c: Table)
    ensures (a + b) + c == a + (b + c)
  {
  }

  lemma ProvidedRowsNext(owner: Id, es: seq<TextEntry>, keepsEmpty: bool, i: nat)
    requires NoRepeats(es) && i < |es|
    ensures var k := Key(owner, es[i].language);
            && k !in ProvidedRows(owner, es[..i], keepsEmpty)
            && ProvidedRows(owner, es[..i + 1], keepsEmpty) == ProvidedRows(owner, es[..i],
                keepsEmpty)[k := Inserted(es[i], false, keepsEmpty)]
  {
    assert es[..i + 1][..i] == es[..i];
    ProvidedKeys(owner, es[..i], keepsEmpty);
    assert es[i].language !in LanguagesOf(es[..i]);
  }

  /** The provided rows, then the rows of the remaining active languages. */
  function CreatedRows(owner: Id, es: seq<TextEntry>, languages: map<Id, Language>, keepsEmpty: bool): Table
    requires CreateRefusal(es, languages).None?
  {
    var provided, remaining := ProvidedRows(owner, es, keepsEmpty), ActiveLanguages(languages) - LanguagesOf(es);
    if remaining == {} then provided
    else
      assert es == [] ==> remaining == ActiveLanguages(languages);
      provided + SameRows(owner, remaining, Inserted(es[BaseIndex(es, languages, 0)], true, keepsEmpty))
  }

  lemma CreatedKeys(owner: Id, es: seq<TextEntry>, languages: map<Id, Language>, keepsEmpty: bool, k: Key)
    requires CreateRefusal(es, languages).None?
    ensures k in CreatedRows(owner, es, languages, keepsEmpty) <==>
            k.owner == owner && (Names(es, k.language) || IsActive(languages, k.language))
  {
    ProvidedKeys(owner, es, keepsEmpty);
    assert k in KeysOf(owner, LanguagesOf(es)) <==> k.owner == owner && Names(es, k.language);
    var remaining := ActiveLanguages(languages) - LanguagesOf(es);
    assert k in KeysOf(owner, remaining) <==>
        k.owner == owner && IsActive(languages, k.language) && !Names(es, k.language);
  }

  lemma CreatedProvided(owner: Id, es: seq<TextEntry>, languages: map<Id, Language>, keepsEmpty: bool, i: nat)
    requires CreateRefusal(es, languages).None? && i < |es|
    ensures Holds(CreatedRows(owner, es, languages, keepsEmpty), Key(owner, es[i].language), es[i], false, keepsEmpty)
  {
    var k := Key(owner, es[i].language);
    ProvidedRow(owner, es, keepsEmpty, i);
    assert es[i].language in LanguagesOf(es);
    assert k !in KeysOf(owner, ActiveLanguages(languages) - LanguagesOf(es));
  }

  lemma CreatedSynced(owner: Id, es: seq<TextEntry>, languages: map<Id, Language>, keepsEmpty: bool, l: Id)
    requires CreateRefusal(es, languages).None? && IsActive(languages, l) && !Names(es, l)
    ensures exists b: nat :: IsBase(es, languages, b) &&
              Holds(CreatedRows(owner, es, languages, keepsEmpty), Key(owner, l), es[b], true, keepsEmpty)
  {
    var remaining := ActiveLanguages(languages) - LanguagesOf(es);
    assert l in remaining && Key(owner, l) in KeysOf(owner, remaining);
    assert es == [] ==> remaining == ActiveLanguages(languages);
    BaseIndexIsBase(es, languages);
    assert Holds(CreatedRows(owner, es, languages, keepsEmpty), Key(owner, l), es[BaseIndex(es, languages, 0)], true,
                 keepsEmpty);
  }

  lemma {:induction false} CreatedRowsCover(owner: Id, es: seq<TextEntry>, languages: map<Id, Language>,
                                            keepsEmpty: bool)
    requires CreateRefusal(es, languages).None?
    ensures Covers(CreatedRows(owner, es, languages, keepsEmpty), owner, es, languages, keepsEmpty)
  {
    var rows := CreatedRows(owner, es, languages, keepsEmpty);
    forall k ensures k in rows <==> k.owner == owner && (Names(es, k.language) || IsActive(languages, k.language)) {
      CreatedKeys(owner, es, languages, keepsEmpty, k);
    }
    forall i | 0 <= i < |es| ensures Holds(rows, Key(owner, es[i].language), es[i], false, keepsEmpty) {
      CreatedProvided(owner, es, languages, keepsEmpty, i);
    }
    forall l | IsActive(languages, l) && !Names(es, l)
      ensures exists b: nat :: IsBase(es, languages, b) && Holds(rows, Key(owner, l), es[b], true, keepsEmpty)
    {
      CreatedSynced(owner, es, languages, keepsEmpty, l);
    }
  }

  lemma CreatedRowsRefer(owner: Id, es: seq<TextEntry>, languages: map<Id, Language>, keepsEmpty: bool)
    requires CreateRefusal(es, languages).None?
    ensures ForeignKeys(CreatedRows(owner, es, languages, keepsEmpty), References({owner}, languages.Keys))
  {
    CreatedRowsCover(owner, es, languages, keepsEmpty);
  }

  lemma RemainingIsFree(t: Table, owner: Id, es: seq<TextEntry>, languages: map<Id, Language>, keepsEmpty: bool)
    requires CreateRefusal(es, languages).None? && ActiveLanguages(languages) - LanguagesOf(es) != {}
    requires forall k :: k in t ==> k.owner != owner
    ensures es != []
    ensures forall l :: l in ActiveLanguages(languages) - LanguagesOf(es) ==>
              l in languages && Key(owner, l) !in t + ProvidedRows(owner, es, keepsEmpty)
  {
    assert es == [] ==> ActiveLanguages(languages) - LanguagesOf(es) == ActiveLanguages(languages);
    ProvidedKeys(owner, es, keepsEmpty);
    assert forall l :: Key(owner, l) in KeysOf(owner, LanguagesOf(es)) <==> l in LanguagesOf(es);
  }

  class TranslationService {
    var rows: Table
    var languages: map<Id, Language>
    var owners: set<Id>       // every entity with a row, deleted ones included
    const keepsEmpty: bool    // shareholders' meetings store an empty description as it is

    constructor (languages: map<Id, Language>, owners: set<Id>, keepsEmpty: bool)
      ensures rows == map[] && this.languages == languages && this.owners == owners && this.keepsEmpty == keepsEmpty
    {
      this.rows, this.languages, this.owners, this.keepsEmpty := map[], languages, owners, keepsEmpty;
    }

    ghost function Refs(): References
      reads this`languages, this`owners
    {
      References(owners, languages.Keys)
    }

    method Insert(owner: Id, language: Id, text: Text) returns (error: Option<TextError>)
      modifies this`rows
      ensures error == if Key(owner, language) in old(rows) then Some(UniqueViolation)
                       else if !Refers(Refs(), Key(owner, language)) then Some(ReferenceMissing)
                       else None
      ensures rows == if error.None? then old(rows)[Key(owner, language) := text] else old(rows)
    {
      var k := Key(owner, language);
      if k in rows {
        return Some(UniqueViolation);
      }
      if owner !in owners || language !in languages {
        return Some(ReferenceMissing);
      }
      rows := rows[k := text];
      error := None;
    }

    method InsertProvided(owner: Id, es: seq<TextEntry>)
      requires NoRepeats(es) && AllRefer(Refs(), owner, es) && forall k :: k in rows ==> k.owner != owner
      modifies this`rows
      ensures rows == old(rows) + ProvidedRows(owner, es, keepsEmpty)
    {
      ghost var base := rows;
      for i := 0 to |es|
        invariant rows == base + ProvidedRows(owner, es[..i], keepsEmpty)
      {
        ProvidedRowsNext(owner, es, keepsEmpty, i);
        var error := Insert(owner, es[i].language, Inserted(es[i], false, keepsEmpty));
      }
      assert es[..|es|] == es;
    }

    method InsertRemaining(owner: Id, remaining: set<Id>, text: Text)
      requires forall l :: l in remaining ==> Key(owner, l) !in rows && Refers(Refs(), Key(owner, l))
      modifies this`rows
      ensures rows == old(rows) + SameRows(owner, remaining, text)
    {
      ghost var base, done := rows, {};
      var todo := remaining;
      assert base == base + SameRows(owner, done, text);
      while todo != {}
        invariant todo !! done && done + todo == remaining
        invariant rows == base + SameRows(owner, done, text)
      {
        var l :| l in todo;
        assert l in remaining && l !in done;
        SameRowsNext(base, owner, done, l, text);
        var error := Insert(owner, l, text);
        todo, done := todo - {l}, done + {l};
      }
      assert done == remaining;
    }

    /** The checks before anything is written, and the missing base text that stops the second part. */
    method Check(es: seq<TextEntry>) returns (refused: Option<TextError>)
      ensures refused == CreateRefusal(es, languages) && RefusedFor(refused, es, languages)
    {
      RefusalMeans(es, languages);
      if exists i | 0 <= i < |es| :: es[i].language !in languages || languages[es[i].language].deleted {
        return Some(LanguageNotFound);
      }
      var languageIds := LanguagesOf(es);
      LanguageCount(es);
      if |languageIds| != |es| {
        return Some(DuplicateLanguage);
      }
      var remaining := ActiveLanguages(languages) - languageIds;
      assert es == [] ==> remaining == ActiveLanguages(languages);
      refused := if remaining != {} && |es| == 0 then Some(NoBaseTranslation) else None;
    }

    /**
     Creates the rows of an entity that has just been stored.  On success there is exactly one row per provided or
     active language; other entities are untouched.
     */
    method Create(owner: Id, es: seq<TextEntry>) returns (refused: Option<TextError>, ghost own: Table)
      requires owner in owners && forall k :: k in rows ==> k.owner != owner
      modifies this`rows
      ensures RefusedFor(refused, es, languages)
      ensures rows == old(rows) + own
      ensures refused.Some? ==> own == map[]
      ensures refused.None? ==> Covers(own, owner, es, languages, keepsEmpty)
      ensures ForeignKeys(own, Refs())
    {
      refused := Check(es);
      if refused.Some? {
        own := map[];
        return;
      }
      ghost var t := rows;
      var remaining := ActiveLanguages(languages) - LanguagesOf(es);
      CreatedRowsCover(owner, es, languages, keepsEmpty);
      own := CreatedRows(owner, es, languages, keepsEmpty);
      CreatedRowsRefer(owner, es, languages, keepsEmpty);
      InsertProvided(owner, es);
      if remaining != {} {
        RemainingIsFree(t, owner, es, languages, keepsEmpty);
        var base := Inserted(es[BaseIndex(es, languages, 0)], true, keepsEmpty);
        InsertRemaining(owner, remaining, base);
        SumAssociative(t, ProvidedRows(owner, es, keepsEmpty), SameRows(owner, remaining, base));
      }
    }

    /** The loop of an update that reads the rows again for each entry. */
    method SaveReadingEach(owner: Id, es: seq<TextEntry>) returns (error: Option<TextError>)
      requires ForeignKeys(rows, Refs())
      modifies this`rows
      ensures (rows, error) == FreshAll(old(rows), Refs(), owner, es, keepsEmpty)
      ensures ForeignKeys(rows, Refs())
    {
      ghost var t, refs := rows, Refs();
      error := None;
      for i := 0 to |es|
        invariant error.None? && ForeignKeys(rows, refs)
        invariant (rows, error) == FreshAll(t, refs, owner, es[..i], keepsEmpty)
      {
        FreshNext(t, refs, owner, es, keepsEmpty, i);
        var k := Key(owner, es[i].language);
        if k in rows {
          rows := rows[k := Updated(rows[k], es[i])];
        } else {
          error := Insert(owner, es[i].language, Inserted(es[i], false, keepsEmpty));
          if error.Some? {
            FreshEnds(t, refs, owner, es, keepsEmpty, i + 1);
            return;
          }
        }
      }
      assert es[..|es|] == es;
    }

    /** The loop of an update that reads the rows once. */
    method SaveReadingOnce(owner: Id, es: seq<TextEntry>) returns (error: Option<TextError>)
      requires ForeignKeys(rows, Refs())
      modifies this`rows
      ensures (rows, error) == StaleAll(old(rows), Refs(), old(rows).Keys, owner, es, keepsEmpty)
      ensures ForeignKeys(rows, Refs())
    {
      ghost var t, refs := rows, Refs();
      var known := rows.Keys;
      error := None;
      for i := 0 to |es|
        invariant error.None? && ForeignKeys(rows, refs) && known <= rows.Keys
        invariant (rows, error) == StaleAll(t, refs, known, owner, es[..i], keepsEmpty)
      {
        StaleNext(t, refs, known, owner, es, keepsEmpty, i);
        var k := Key(owner, es[i].language);
        if k in known {
          rows := rows[k := Updated(rows[k], es[i])];
        } else {
          error := Insert(owner, es[i].language, Inserted(es[i], false, keepsEmpty));
          if error.Some? {
            StaleEnds(t, refs, known, owner, es, keepsEmpty, i + 1);
            return;
          }
        }
      }
      assert es[..|es|] == es;
    }

    /** Updates with the rows read again for each entry; without a transaction, a failure keeps what was written. */
    method UpdateFresh(owner: Id, es: seq<TextEntry>) returns (error: Option<TextError>)
      requires ForeignKeys(rows, Refs())
      modifies this`rows
      ensures (rows, error) == FreshAll(old(rows), Refs(), owner, es, keepsEmpty)
      ensures error.None? <==> AllExist(owner, es, owners, languages.Keys)
      ensures error.None? ==> Upserted(old(rows), rows, owner, es, keepsEmpty)
      ensures error.Some? ==>
                && error == Some(ReferenceMissing)
                && exists n: nat :: n < |es| && StoppedAt(old(rows), rows, Refs(), owner, es, keepsEmpty, n)
      ensures ForeignKeys(rows, Refs())
    {
      FreshMeans(rows, Refs(), owner, es, keepsEmpty);
      error := SaveReadingEach(owner, es);
    }

    /** Updates against the rows read once. */
    method UpdateStale(owner: Id, es: seq<TextEntry>) returns (error: Option<TextError>)
      requires ForeignKeys(rows, Refs())
      modifies this`rows
      ensures (rows, error) == StaleAll(old(rows), Refs(), old(rows).Keys, owner, es, keepsEmpty)
      ensures error.None? <==>
              && AllExist(owner, es, owners, languages.Keys)
              && NewLanguagesNamedOnce(old(rows), owner, es)
      ensures error.None? ==> Upserted(old(rows), rows, owner, es, keepsEmpty)
      ensures error == Some(ReferenceMissing) ==>
                exists n: nat :: n < |es| && StoppedAt(old(rows), rows, Refs(), owner, es, keepsEmpty, n)
      ensures error.Some? && error != Some(ReferenceMissing) ==>
                && error == Some(UniqueViolation)
                && exists n: nat :: n < |es| && StoppedAgainAt(old(rows), rows, owner, es, keepsEmpty, n)
      ensures ForeignKeys(rows, Refs())
    {
      StaleMeans(rows, Refs(), owner, es, keepsEmpty);
      error := SaveReadingOnce(owner, es);
    }
  }

  lemma FreshNext(t: Table, refs: References, owner: Id, es: seq<TextEntry>, keepsEmpty: bool, i: nat)
    requires i < |es| && FreshAll(t, refs, owner, es[..i], keepsEmpty).1.None?
    ensures var t1 := FreshAll(t, refs, owner, es[..i], keepsEmpty).0;
            FreshAll(t, refs, owner, es[..i + 1], keepsEmpty) == Save(t1, refs, t1.Keys, owner, es[i], keepsEmpty)
  {
    assert es[..i + 1][..i] == es[..i];
  }

  lemma StaleNext(t: Table, refs: References, known: set<Key>, owner: Id, es: seq<TextEntry>, keepsEmpty: bool, i: nat)
    requires i < |es| && StaleAll(t, refs, known, owner, es[..i], keepsEmpty).1.None?
    ensures StaleAll(t, refs, known, owner, es[..i + 1], keepsEmpty) ==
            Save(StaleAll(t, refs, known, owner, es[..i], keepsEmpty).0, refs, known, owner, es[i], keepsEmpty)
  {
    assert es[..i + 1][..i] == es[..i];
  }

  lemma {:induction false} FreshEnds(t: Table, refs: References, owner: Id, es: seq<TextEntry>, keepsEmpty: bool,
                                     i: nat)
    requires i <= |es| && FreshAll(t, refs, owner, es[..i], keepsEmpty).1.Some?
    ensures FreshAll(t, refs, owner, es, keepsEmpty) == FreshAll(t, refs, owner, es[..i], keepsEmpty)
    decreases |es|
  {
    if i == |es| {
      assert es[..i] == es;
    } else {
      var front := es[..|es| - 1];
      assert front[..i] == es[..i];
      FreshEnds(t, refs, owner, front, keepsEmpty, i);
    }
  }

  lemma {:induction false} StaleEnds(t: Table, refs: References, known: set<Key>, owner: Id, es: seq<TextEntry>,
                                     keepsEmpty: bool, i: nat)
    requires i <= |es| && StaleAll(t, refs, known, owner, es[..i], keepsEmpty).1.Some?
    ensures StaleAll(t, refs, known, owner, es, keepsEmpty) == StaleAll(t, refs, known, owner, es[..i], keepsEmpty)
    decreases |es|
  {
    if i == |es| {
      assert es[..i] == es;
    } else {
      var front := es[..|es| - 1];
      assert front[..i] == es[..i];
      StaleEnds(t, refs, known, owner, front, keepsEmpty, i);
    }
  }
}
