/**
 What translation payloads have in common: entries that name a language, and the table of
 languages they refer to.
 */
module TextEntries {
  import opened Wrappers

  type Id = nat

  /** A payload entry that names a language, not a row; vote texts come without a description. */
  datatype TextEntry = TextEntry(language: Id, title: string, description: Option<string>)

  /** Deleting a language only marks its row. */
  datatype Language = Language(code: string, isActive: bool, deleted: bool)

  function LanguagesOf(es: seq<TextEntry>): set<Id> {
    set i | 0 <= i < |es| :: es[i].language
  }

  predicate NoRepeats(es: seq<TextEntry>) {
    forall i, j :: 0 <= i < j < |es| ==> es[i].language != es[j].language
  }

  function ActiveLanguages(languages: map<Id, Language>): set<Id> {
    set l | l in languages && languages[l].isActive && !languages[l].deleted
  }

  // ---- for contracts ----

  predicate Names(es: seq<TextEntry>, language: Id) {
    exists i | 0 <= i < |es| :: es[i].language == language
  }

  /** Entry `i` is the last of its language. */
  predicate IsLastFor(es: seq<TextEntry>, i: nat) {
    i < |es| && forall j :: i < j < |es| ==> es[j].language != es[i].language
  }

  predicate IsFirstFor(es: seq<TextEntry>, i: nat) {
    i < |es| && forall j :: 0 <= j < i ==> es[j].language != es[i].language
  }

  /** The language gets a text of its own accord. */
  predicate IsActive(languages: map<Id, Language>, language: Id) {
    language in languages && languages[language].isActive && !languages[language].deleted
  }

  lemma LanguagesAppend(es: seq<TextEntry>, e: TextEntry)
    ensures LanguagesOf(es + [e]) == LanguagesOf(es) + {e.language}
  {
    assert forall i :: 0 <= i < |es| ==> (es + [e])[i] == es[i];
    assert (es + [e])[|es|] == e;
  }

  /** The same for a list that ends in its last entry. */
  lemma LanguagesOfFront(es: seq<TextEntry>)
    requires es != []
    ensures LanguagesOf(es) == LanguagesOf(es[..|es| - 1]) + {es[|es| - 1].language}
  {
    assert es == es[..|es| - 1] + [es[|es| - 1]];
    LanguagesAppend(es[..|es| - 1], es[|es| - 1]);
  }

  lemma NoRepeatsUnfolds(es: seq<TextEntry>)
    requires es != []
    ensures NoRepeats(es) <==>
            NoRepeats(es[..|es| - 1]) && es[|es| - 1].language !in LanguagesOf(es[..|es| - 1])
  {
    var n := |es| - 1;
    var front := es[..n];
    assert forall i :: 0 <= i < n ==> front[i] == es[i];
    if es[n].language in LanguagesOf(front) {
      var i :| 0 <= i < n && front[i].language == es[n].language;
      assert es[i].language == es[n].language;
    }
  }

  /** The duplicate test by set size. */
  lemma {:induction false} LanguageCount(es: seq<TextEntry>)
    ensures |LanguagesOf(es)| <= |es|
    ensures |LanguagesOf(es)| == |es| <==> NoRepeats(es)
  {
    if es != [] {
      var front, l := es[..|es| - 1], es[|es| - 1].language;
      LanguageCount(front);
      LanguagesOfFront(es);
      NoRepeatsUnfolds(es);
      if l in LanguagesOf(front) {
        assert LanguagesOf(front) + {l} == LanguagesOf(front);
      } else {
        assert |LanguagesOf(front) + {l}| == |LanguagesOf(front)| + 1;
      }
    }
  }
}
