/** The translation fan-out run on FAQ create and update
    (`getTranslations`). */
module Translations {
  import opened Wrappers
  import opened Http
  import opened FaqTypes

  /** One request sent to the translation provider. */
  datatype Call = Call(text: string, lang: string)

  /** The translation provider. Its arguments are the index of the call
      within one run (counted from 0), the text and the target language. It
      answers `Some(translation)` or `None` when the request throws. The
      index lets a provider fail on some calls only, as a test double that
      rejects its first call does. */
  type Provider = (nat, string, string) -> Option<string>

  /** The language every failed target falls back to. */
  const FallbackLanguage: string := "en"

  /** The error every provider failure becomes. */
  const TranslationFailed: ApiError := ApiError("Translation failed", 500)

  /** The state of one run: the map built so far, every provider call made,
      the target languages whose translation failed (the error log), and
      whether a fallback call threw, which ends the run. */
  datatype Run = Run(
    translations: TranslationMap,
    calls: seq<Call>,
    failed: seq<string>,
    aborted: bool)

  /** The provider never fails, and it translates `t` into `l` as `tr(t, l)`
      whatever the call index. */
  function Always(tr: (string, string) -> string): Provider
  {
    (k: nat, t: string, l: string) => Some(tr(t, l))
  }

  /** The last call of the run was an English fallback call that threw. */
  predicate ThrewLast(p: Provider, r: Run)
  {
    && |r.calls| > 0
    && var c := r.calls[|r.calls| - 1];
    && c.lang == FallbackLanguage
    && p(|r.calls| - 1, c.text, c.lang).None?
  }

  /** The catch branch for a failed target: re-translate both texts into
      English and overwrite the English entry. These calls are not guarded,
      so their failure aborts the run. */
  function Fallback(question: string, answer: string, p: Provider, s: Run): (r: Run)
    requires !s.aborted
    ensures r.failed == s.failed
    ensures s.translations.Keys <= r.translations.Keys
    ensures r.translations.Keys <= s.translations.Keys + {FallbackLanguage}
    ensures !r.aborted ==> FallbackLanguage in r.translations
    ensures forall lang :: lang in s.translations && lang != FallbackLanguage ==>
                             r.translations[lang] == s.translations[lang]
    ensures |s.calls| < |r.calls| <= |s.calls| + 2 && r.calls[..|s.calls|] == s.calls
    ensures forall i :: |s.calls| <= i < |r.calls| ==> r.calls[i].lang == FallbackLanguage
    ensures r.aborted ==> ThrewLast(p, r)
  {
    var k := |s.calls|;
    var q := p(k, question, FallbackLanguage);
    if q.None? then
      s.(calls := s.calls + [Call(question, FallbackLanguage)], aborted := true)
    else
      var a := p(k + 1, answer, FallbackLanguage);
      var calls := s.calls + [Call(question, FallbackLanguage), Call(answer, FallbackLanguage)];
      if a.None? then
        s.(calls := calls, aborted := true)
      else
        s.(calls := calls,
           translations := s.translations[FallbackLanguage := Translation(q.value, a.value)])
  }

  /** One iteration of the loop over the target languages. */
  function Step(question: string, answer: string, original: string, p: Provider,
                lang: string, s: Run): (r: Run)
    requires !s.aborted
    ensures lang == original ==> r == s
    ensures s.translations.Keys <= r.translations.Keys
    ensures |s.calls| <= |r.calls| && r.calls[..|s.calls|] == s.calls
    // the original language is never sent as a target
    ensures forall i :: |s.calls| <= i < |r.calls| ==>
              (r.calls[i].lang == lang && lang != original) ||
              (r.calls[i].lang == FallbackLanguage && r.failed != s.failed)
    // a translated target adds exactly its own entry
    ensures r.failed == s.failed ==>
              !r.aborted &&
              r.translations.Keys == s.translations.Keys + (if lang == original then {} else {lang}) &&
              forall l :: l in s.translations && l != lang ==> r.translations[l] == s.translations[l]
    // a failed target adds nothing of its own; only English may change
    ensures r.failed != s.failed ==>
              r.failed == s.failed + [lang] && lang != original &&
              r.translations.Keys <= s.translations.Keys + {FallbackLanguage} &&
              (!r.aborted ==> FallbackLanguage in r.translations) &&
              forall l :: l in s.translations && l != FallbackLanguage ==> r.translations[l] == s.translations[l]
    ensures r.aborted ==> r.failed != s.failed && ThrewLast(p, r)
  {
    if lang == original then s
    else
      var k := |s.calls|;
      var q := p(k, question, lang);
      if q.None? then
        Fallback(question, answer, p,
                 s.(calls := s.calls + [Call(question, lang)], failed := s.failed + [lang]))
      else
        var a := p(k + 1, answer, lang);
        var s1 := s.(calls := s.calls + [Call(question, lang), Call(answer, lang)]);
        if a.None? then
          Fallback(question, answer, p, s1.(failed := s1.failed + [lang]))
        else
          s1.(translations := s.translations[lang := Translation(q.value, a.value)])
  }

  /** The loop over the target languages, in order, until a fallback
      throws. A stopped run stays as it is; otherwise the trace, the error
      log and the set of keys only ever grow. */
  function Loop(question: string, answer: string, original: string, p: Provider,
                targets: seq<string>, s: Run): (r: Run)
    ensures s.aborted ==> r == s
    ensures s.translations.Keys <= r.translations.Keys
    ensures |s.calls| <= |r.calls| && r.calls[..|s.calls|] == s.calls
    ensures |s.failed| <= |r.failed| && r.failed[..|s.failed|] == s.failed
    decreases |targets|
  {
    if |targets| == 0 || s.aborted then s
    else
      var s' := Step(question, answer, original, p, targets[0], s);
      var r := Loop(question, answer, original, p, targets[1..], s');
      assert r.calls[..|s'.calls|][..|s.calls|] == r.calls[..|s.calls|];
      assert r.failed[..|s'.failed|][..|s.failed|] == r.failed[..|s.failed|];
      r
  }

  /** The run before the loop: the original text under the original
      language, no call made, nothing failed. */
  function Seed(question: string, answer: string, original: string): (r: Run)
    ensures r.translations.Keys == {original}
    ensures r.translations[original] == Translation(question, answer)
    ensures r.calls == [] && r.failed == [] && !r.aborted
  {
    Run(map[original := Translation(question, answer)], [], [], false)
  }

  /** The whole run of `getTranslations`, with its trace. The original
      language always has an entry, and a run only stops early after some
      target failed. */
  function Translate(question: string, answer: string, targets: seq<string>,
                     original: string, p: Provider): (r: Run)
    ensures original in r.translations
    ensures r.aborted ==> r.failed != []
  {
    var s := Seed(question, answer, original);
    LoopFailures(question, answer, original, p, targets, s);
    Loop(question, answer, original, p, targets, s)
  }

  /** `getTranslations`: the translations map, or the error a throwing
      fallback call raises. */
  function GetTranslations(question: string, answer: string, targets: seq<string>,
                           original: string, p: Provider): (r: Result<TranslationMap, ApiError>)
    ensures r.Failure? ==> r.error == TranslationFailed
    ensures r.Success? ==> original in r.value
  {
    var run := Translate(question, answer, targets, original, p);
    if run.aborted then Failure(TranslationFailed) else Success(run.translations)
  }

  // ---------------------------------------------------------------------
  // Facts about the loop, each by induction over the target list.

  /** Keys are only ever added, and only target languages or English. */
  lemma {:induction false} LoopKeysGrow(question: string, answer: string, original: string,
                                        p: Provider, targets: seq<string>, s: Run)
    ensures var r := Loop(question, answer, original, p, targets, s);
      && s.translations.Keys <= r.translations.Keys
      && r.translations.Keys <= s.translations.Keys + (set l | l in targets) + {FallbackLanguage}
    decreases |targets|
  {
    if |targets| == 0 || s.aborted {
    } else {
      var s' := Step(question, answer, original, p, targets[0], s);
      LoopKeysGrow(question, answer, original, p, targets[1..], s');
      assert targets == [targets[0]] + targets[1..];
    }
  }

  /** The error log only grows, and only with target languages other than
      the original; a run ends early only after a logged failure whose
      English fallback threw. */
  lemma {:induction false} LoopFailures(question: string, answer: string, original: string,
                                        p: Provider, targets: seq<string>, s: Run)
    ensures var r := Loop(question, answer, original, p, targets, s);
      && |s.failed| <= |r.failed| && r.failed[..|s.failed|] == s.failed
      && (forall i :: |s.failed| <= i < |r.failed| ==> r.failed[i] in targets && r.failed[i] != original)
      && (r.aborted && !s.aborted ==> r.failed != s.failed && ThrewLast(p, r))
    decreases |targets|
  {
    if |targets| == 0 || s.aborted {
    } else {
      var s' := Step(question, answer, original, p, targets[0], s);
      LoopFailures(question, answer, original, p, targets[1..], s');
      var r := Loop(question, answer, original, p, targets, s);
      assert r == Loop(question, answer, original, p, targets[1..], s');
      assert s'.failed[..|s.failed|] == s.failed;
      forall i | |s.failed| <= i < |r.failed|
        ensures r.failed[i] in targets && r.failed[i] != original
      {
        if i < |s'.failed| {
          assert r.failed[i] == s'.failed[i] == targets[0];
        } else {
          assert r.failed[i] in targets[1..];
        }
      }
    }
  }

  /** Every provider call targets a language of the list other than the
      original, or is an English fallback made after a logged failure. */
  lemma {:induction false} LoopCalls(question: string, answer: string, original: string,
                                     p: Provider, targets: seq<string>, s: Run)
    ensures var r := Loop(question, answer, original, p, targets, s);
      && |s.calls| <= |r.calls| && r.calls[..|s.calls|] == s.calls
      && forall i :: |s.calls| <= i < |r.calls| ==>
           (r.calls[i].lang in targets && r.calls[i].lang != original) ||
           (r.calls[i].lang == FallbackLanguage && r.failed != s.failed)
    decreases |targets|
  {
    if |targets| == 0 || s.aborted {
    } else {
      var s' := Step(question, answer, original, p, targets[0], s);
      LoopCalls(question, answer, original, p, targets[1..], s');
      LoopFailures(question, answer, original, p, targets[1..], s');
      var r := Loop(question, answer, original, p, targets, s);
      assert r == Loop(question, answer, original, p, targets[1..], s');
      assert r.calls[..|s'.calls|][..|s.calls|] == r.calls[..|s.calls|];
      if s'.failed != s.failed {
        assert r.failed[..|s.failed|] == s.failed;
        assert |s'.failed| > |s.failed|;
        assert r.failed != s.failed;
      }
      forall i | |s.calls| <= i < |r.calls|
        ensures (r.calls[i].lang in targets && r.calls[i].lang != original) ||
                (r.calls[i].lang == FallbackLanguage && r.failed != s.failed)
      {
        if i < |s'.calls| {
          assert r.calls[i] == s'.calls[i];
        } else if r.calls[i].lang == FallbackLanguage && r.failed != s'.failed {
          assert r.failed[..|s'.failed|] == s'.failed;
          assert r.failed[..|s'.failed|][..|s.failed|] == s.failed;
        } else {
          assert r.calls[i].lang in targets[1..];
        }
      }
    }
  }

  /** An entry that is neither a target nor English keeps its value; the
      original language keeps its value unless it is English and a target
      failed. */
  lemma {:induction false} LoopKeepsSeed(question: string, answer: string, original: string,
                                         p: Provider, targets: seq<string>, s: Run)
    requires original in s.translations
    ensures var r := Loop(question, answer, original, p, targets, s);
      && original in r.translations
      && (original != FallbackLanguage || r.failed == s.failed ==>
            r.translations[original] == s.translations[original])
    decreases |targets|
  {
    if |targets| == 0 || s.aborted {
    } else {
      var s' := Step(question, answer, original, p, targets[0], s);
      LoopKeepsSeed(question, answer, original, p, targets[1..], s');
      LoopFailures(question, answer, original, p, targets[1..], s');
      var r := Loop(question, answer, original, p, targets, s);
      assert r == Loop(question, answer, original, p, targets[1..], s');
      if s'.failed != s.failed {
        assert r.failed[..|s'.failed|] == s'.failed;
        assert |r.failed| > |s.failed|;
      }
    }
  }

  /** When no target failed, every target language has an entry and nothing
      else was added. */
  lemma {:induction false} LoopCoversTargets(question: string, answer: string, original: string,
                                             p: Provider, targets: seq<string>, s: Run)
    requires !s.aborted
    ensures var r := Loop(question, answer, original, p, targets, s);
      r.failed == s.failed ==>
        !r.aborted &&
        r.translations.Keys == s.translations.Keys + (set l | l in targets && l != original)
    decreases |targets|
  {
    if |targets| != 0 {
      var s' := Step(question, answer, original, p, targets[0], s);
      var r := Loop(question, answer, original, p, targets, s);
      assert r == Loop(question, answer, original, p, targets[1..], s');
      if r.failed == s.failed {
        assert r.failed[..|s'.failed|] == s'.failed;
        assert s'.failed == s.failed;
        LoopCoversTargets(question, answer, original, p, targets[1..], s');
        OtherLanguagesCons(targets, original);
      }
    }
  }

  /** The targets other than the original, split at the head of the list. */
  lemma OtherLanguagesCons(targets: seq<string>, original: string)
    requires |targets| > 0
    ensures (set l | l in targets && l != original)
         == (if targets[0] == original then {} else {targets[0]})
            + (set l | l in targets[1..] && l != original)
  {
  }

  /** Once a target has failed and the run went on, English has an entry. */
  lemma {:induction false} LoopFallbackPresent(question: string, answer: string, original: string,
                                               p: Provider, targets: seq<string>, s: Run)
    ensures var r := Loop(question, answer, original, p, targets, s);
      !r.aborted && (r.failed != s.failed || (!s.aborted && FallbackLanguage in s.translations)) ==>
        FallbackLanguage in r.translations
    decreases |targets|
  {
    if |targets| != 0 && !s.aborted {
      var s' := Step(question, answer, original, p, targets[0], s);
      LoopFallbackPresent(question, answer, original, p, targets[1..], s');
      LoopKeysGrow(question, answer, original, p, targets[1..], s');
      LoopFailures(question, answer, original, p, targets[1..], s');
      var r := Loop(question, answer, original, p, targets, s);
      assert r == Loop(question, answer, original, p, targets[1..], s');
      if s'.failed == s.failed && r.failed != s.failed {
        assert r.failed != s'.failed;
      }
    }
  }

  /** Running over `t1 + t2` is running over `t1`, then over `t2`. */
  lemma {:induction false} LoopAppend(question: string, answer: string, original: string,
                                      p: Provider, t1: seq<string>, t2: seq<string>, s: Run)
    ensures Loop(question, answer, original, p, t1 + t2, s)
         == Loop(question, answer, original, p, t2, Loop(question, answer, original, p, t1, s))
    decreases |t1|
  {
    if |t1| == 0 {
      assert t1 + t2 == t2;
    } else if s.aborted {
      assert Loop(question, answer, original, p, t1, s) == s;
      if |t2| > 0 {
        assert Loop(question, answer, original, p, t2, s) == s;
      }
    } else {
      var s' := Step(question, answer, original, p, t1[0], s);
      assert (t1 + t2)[0] == t1[0];
      assert (t1 + t2)[1..] == t1[1..] + t2;
      LoopAppend(question, answer, original, p, t1[1..], t2, s');
    }
  }

  /** With a provider that never fails, every target other than the original
      is translated with the provider's text, and other entries keep theirs. */
  lemma {:induction false} LoopAlways(question: string, answer: string, original: string,
                                      tr: (string, string) -> string, targets: seq<string>, s: Run)
    requires !s.aborted
    ensures var r := Loop(question, answer, original, Always(tr), targets, s);
      && !r.aborted && r.failed == s.failed
      && forall l :: l in r.translations ==>
           if l in targets && l != original
           then r.translations[l] == Translation(tr(question, l), tr(answer, l))
           else l in s.translations && r.translations[l] == s.translations[l]
    decreases |targets|
  {
    if |targets| != 0 {
      var p := Always(tr);
      var s' := Step(question, answer, original, p, targets[0], s);
      LoopAlways(question, answer, original, tr, targets[1..], s');
      var r := Loop(question, answer, original, p, targets, s);
      assert r == Loop(question, answer, original, p, targets[1..], s');
      forall l | l in r.translations
        ensures if l in targets && l != original
                then r.translations[l] == Translation(tr(question, l), tr(answer, l))
                else l in s.translations && r.translations[l] == s.translations[l]
      {
        if l !in targets[1..] || l == original {
          if l == targets[0] && l != original {
            assert l in targets;
          } else {
            assert l !in targets || l == original;
          }
        } else {
          assert l in targets;
        }
      }
    }
  }

  // ---------------------------------------------------------------------
  // Properties of a whole run.

  /** The original text is always present; it is kept verbatim unless the
      original language is English and some target failed, in which case an
      English fallback may have overwritten it. No key other than the
      original, a target or English ever appears. */
  lemma OriginalEntryKept(question: string, answer: string, targets: seq<string>,
                          original: string, p: Provider)
    ensures var r := Translate(question, answer, targets, original, p);
      && original in r.translations
      && (original != FallbackLanguage || r.failed == [] ==>
            r.translations[original] == Translation(question, answer))
      && r.translations.Keys <= {original, FallbackLanguage} + (set l | l in targets)
  {
    var s := Seed(question, answer, original);
    LoopKeepsSeed(question, answer, original, p, targets, s);
    LoopKeysGrow(question, answer, original, p, targets, s);
  }

  /** The provider is only asked for target languages other than the
      original, and for English after a target failed; so the original
      language is requested only when it is English and a target failed. */
  lemma OriginalNeverRequested(question: string, answer: string, targets: seq<string>,
                               original: string, p: Provider)
    ensures var r := Translate(question, answer, targets, original, p);
      && (forall i :: 0 <= i < |r.calls| ==>
            (r.calls[i].lang in targets && r.calls[i].lang != original) ||
            (r.calls[i].lang == FallbackLanguage && r.failed != []))
      && (forall i :: 0 <= i < |r.calls| && r.calls[i].lang == original ==>
            original == FallbackLanguage && r.failed != [])
  {
    LoopCalls(question, answer, original, p, targets, Seed(question, answer, original));
  }

  /** A run with no failed target has exactly the original and the targets
      as keys; a run where a target failed and that did not abort has an
      English entry; every failure logged is a target other than the
      original. */
  lemma CoverageOfRun(question: string, answer: string, targets: seq<string>,
                      original: string, p: Provider)
    ensures var r := Translate(question, answer, targets, original, p);
      && (r.failed == [] ==>
            !r.aborted && r.translations.Keys == {original} + (set l | l in targets))
      && (!r.aborted && r.failed != [] ==> FallbackLanguage in r.translations)
      && (forall i :: 0 <= i < |r.failed| ==> r.failed[i] in targets && r.failed[i] != original)
  {
    var s := Seed(question, answer, original);
    LoopCoversTargets(question, answer, original, p, targets, s);
    LoopFallbackPresent(question, answer, original, p, targets, s);
    LoopFailures(question, answer, original, p, targets, s);
  }

  /** `getTranslations` fails exactly when the run aborted, which happens
      only after a target failed and an English fallback call then threw. */
  lemma FallbackFailurePropagates(question: string, answer: string, targets: seq<string>,
                                  original: string, p: Provider)
    ensures var r := Translate(question, answer, targets, original, p);
      && (GetTranslations(question, answer, targets, original, p).Failure? <==> r.aborted)
      && (r.aborted ==> r.failed != [] && ThrewLast(p, r))
  {
    LoopFailures(question, answer, original, p, targets, Seed(question, answer, original));
  }

  /** With a provider that never fails, the map has exactly the original and
      the targets as keys, the original text under the original language,
      and the provider's translations under every other key. */
  lemma AlwaysTranslates(question: string, answer: string, targets: seq<string>,
                         original: string, tr: (string, string) -> string)
    ensures var r := GetTranslations(question, answer, targets, original, Always(tr));
      && r.Success?
      && r.value.Keys == {original} + (set l | l in targets)
      && r.value[original] == Translation(question, answer)
      && forall l :: l in r.value && l != original ==>
           r.value[l] == Translation(tr(question, l), tr(answer, l))
  {
    var s := Seed(question, answer, original);
    LoopAlways(question, answer, original, tr, targets, s);
    LoopCoversTargets(question, answer, original, Always(tr), targets, s);
  }

  /** What one iteration for a target other than the original does, in
      terms of the provider's answers at the next call indices. */
  lemma StepOutcome(question: string, answer: string, original: string, p: Provider,
                    lang: string, s: Run)
    requires !s.aborted && lang != original
    ensures var r := Step(question, answer, original, p, lang, s);
      var k := |s.calls|;
      var q := p(k, question, lang);
      var a := p(k + 1, answer, lang);
      && (q.Some? && a.Some? ==>
            r.failed == s.failed && !r.aborted &&
            r.translations == s.translations[lang := Translation(q.value, a.value)])
      && (q.None? || a.None? ==>
            var j := if q.None? then k + 1 else k + 2;
            var fq := p(j, question, FallbackLanguage);
            var fa := p(j + 1, answer, FallbackLanguage);
            && r.failed == s.failed + [lang]
            && (r.aborted <==> fq.None? || fa.None?)
            && (!r.aborted ==>
                  r.translations == s.translations[FallbackLanguage := Translation(fq.value, fa.value)]))
  {
  }

  /** What one more target at the end of the list does. Translated: it gets
      the provider's two answers and nothing else changes. Failed: its
      question translation, if any, is discarded; it is logged; and English
      is overwritten with the fallback, whatever an earlier target left
      there (last write wins), unless a fallback call throws, which aborts
      the run. */
  lemma LastTarget(question: string, answer: string, targets: seq<string>,
                   original: string, p: Provider, lang: string)
    requires lang != original
    requires !Translate(question, answer, targets, original, p).aborted
    ensures var r0 := Translate(question, answer, targets, original, p);
      var r := Translate(question, answer, targets + [lang], original, p);
      var k := |r0.calls|;
      var q := p(k, question, lang);
      var a := p(k + 1, answer, lang);
      && (q.Some? && a.Some? ==>
            r.failed == r0.failed && !r.aborted &&
            r.translations == r0.translations[lang := Translation(q.value, a.value)])
      && (q.None? || a.None? ==>
            var j := if q.None? then k + 1 else k + 2;
            var fq := p(j, question, FallbackLanguage);
            var fa := p(j + 1, answer, FallbackLanguage);
            && r.failed == r0.failed + [lang]
            && (r.aborted <==> fq.None? || fa.None?)
            && (!r.aborted ==>
                  r.translations == r0.translations[FallbackLanguage := Translation(fq.value, fa.value)]))
  {
    var r0 := Translate(question, answer, targets, original, p);
    TranslateSnoc(question, answer, targets, original, p, lang);
    StepOutcome(question, answer, original, p, lang, r0);
  }

  /** A run that has not stopped takes one more target as one more step. */
  lemma TranslateSnoc(question: string, answer: string, targets: seq<string>,
                      original: string, p: Provider, lang: string)
    requires !Translate(question, answer, targets, original, p).aborted
    ensures Translate(question, answer, targets + [lang], original, p)
         == Step(question, answer, original, p, lang, Translate(question, answer, targets, original, p))
  {
    var s := Seed(question, answer, original);
    var r0 := Translate(question, answer, targets, original, p);
    LoopAppend(question, answer, original, p, targets, [lang], s);
    var r1 := Step(question, answer, original, p, lang, r0);
    assert Loop(question, answer, original, p, [lang], r0)
        == Loop(question, answer, original, p, [], r1);
  }

  /** A provider that rejects only its first call, over targets
      ["en", "es", "fr"] from English: Spanish is lost, English holds the
      fallback, French is translated, and the run succeeds. */
  lemma FirstCallRejected(question: string, answer: string)
    ensures var p: Provider := (k: nat, t: string, l: string) =>
              if k == 0 then None else Some(l + t);
      var r := GetTranslations(question, answer, ["en", "es", "fr"], "en", p);
      && r.Success?
      && r.value == map["en" := Translation("en" + question, "en" + answer),
                        "fr" := Translation("fr" + question, "fr" + answer)]
  {
  }
}
