/**
 * Language selection of src/locales/index.js: the browser language reduced to
 * `es` or `en`, the initial locale, and the setter, getter and toggle that keep
 * the i18n locale, the stored preference and the document language in step.
 */
module Locales {
  import opened Common

  const Spanish: string := "es"
  const English: string := "en"

  /**
   * `tag.split('-')[0]`: the text before the first `-` (the primary language
   * subtag of a BCP 47 tag, section 2.1 of RFC 5646), or the whole tag when it
   * has no `-`. Nothing is validated and case is kept.
   */
  function PrimarySubtag(tag: string): (p: string)
    ensures p <= tag
    ensures '-' !in p
    ensures |p| == |tag| || tag[|p|] == '-'
  {
    if tag == [] || tag[0] == '-' then []
    else [tag[0]] + PrimarySubtag(tag[1..])
  }

  /** The three properties of `PrimarySubtag` determine it: any such prefix is it. */
  lemma PrimarySubtagUnique(tag: string, p: string)
    requires p <= tag && '-' !in p
    requires |p| == |tag| || tag[|p|] == '-'
    ensures p == PrimarySubtag(tag)
  {
  }

  /** `getBrowserLanguage(navigator.language)`. */
  function BrowserLanguage(navigatorLanguage: string): (r: string)
    ensures r == Spanish || r == English
  {
    var primary := PrimarySubtag(navigatorLanguage);
    if primary == Spanish || primary == English then primary else Spanish
  }

  /**
   * The browser language is English exactly when the tag is `en` or starts with
   * `en-` (case-sensitively); every other tag gives Spanish.
   */
  lemma BrowserLanguageEnglish(tag: string)
    ensures BrowserLanguage(tag) == English <==> tag == English || (|tag| > 2 && tag[..3] == "en-")
  {
    var p := PrimarySubtag(tag);
    if tag == English || (|tag| > 2 && tag[..3] == "en-") {
      PrimarySubtagUnique(tag, English);
    }
    if p == English {
      assert tag[..2] == p;
      if |tag| > 2 {
        assert tag[..3] == p + [tag[2]];
      }
    }
  }

  /** A tag whose primary subtag is neither `es` nor `en` (e.g. `EN-us`, `fr`, ``) gives Spanish. */
  lemma OtherLanguagesGiveSpanish(tag: string)
    requires PrimarySubtag(tag) != Spanish && PrimarySubtag(tag) != English
    ensures BrowserLanguage(tag) == Spanish
  {
  }

  /**
   * The initial locale: `localStorage.getItem('portfolio-language') ||
   * getBrowserLanguage()`. A stored non-empty string is used as it is, without
   * validation; a missing or empty one falls back to the browser language.
   */
  function InitialLocale(stored: Option<string>, navigatorLanguage: string): (r: string)
    ensures r != []
    ensures stored.Some? && stored.value != [] ==> r == stored.value
    ensures stored.None? || stored.value == [] ==> r == Spanish || r == English
  {
    if stored.Some? && stored.value != [] then stored.value else BrowserLanguage(navigatorLanguage)
  }

  /** The locale `toggleLanguage` switches to: English after Spanish, Spanish after anything else. */
  function Toggled(locale: string): (r: string)
    ensures r == Spanish || r == English
    ensures r == English <==> locale == Spanish
  {
    if locale == Spanish then English else Spanish
  }

  /** Toggling twice restores a locale that was `es` or `en`. */
  lemma ToggleTwiceRestores(locale: string)
    requires locale == Spanish || locale == English
    ensures Toggled(Toggled(locale)) == locale
  {
  }

  /** Toggling twice from any other locale (possible through an unvalidated stored value) ends on `en`. */
  lemma ToggleTwiceFromOther(locale: string)
    requires locale != Spanish && locale != English
    ensures Toggled(Toggled(locale)) == English && Toggled(Toggled(locale)) != locale
  {
  }

  /**
   * The language state the module keeps across the page: the i18n locale
   * (`i18n.global.locale.value`), the stored preference
   * (`localStorage['portfolio-language']`) and `document.documentElement.lang`.
   */
  class LanguageState {
    var locale: string
    var stored: Option<string>
    var documentLang: string

    /**
     * Module load: the locale is chosen from the stored preference and the
     * browser language; neither the storage nor the document is written.
     */
    constructor (stored: Option<string>, navigatorLanguage: string, documentLang: string)
      ensures locale == InitialLocale(stored, navigatorLanguage)
      ensures this.stored == stored && this.documentLang == documentLang
    {
      locale := InitialLocale(stored, navigatorLanguage);
      this.stored := stored;
      this.documentLang := documentLang;
    }

    /** `setLanguage(lang)`: all three agree on `lang`, whatever it is. */
    method SetLanguage(lang: string)
      modifies this
      ensures locale == lang && stored == Some(lang) && documentLang == lang
    {
      locale := lang;
      stored := Some(lang);
      documentLang := lang;
    }

    /** `getCurrentLanguage()`. */
    method GetCurrentLanguage() returns (r: string)
      ensures r == locale
    {
      r := locale;
    }

    /** `toggleLanguage()`: switch, persist and write to the document. */
    method ToggleLanguage()
      modifies this
      ensures locale == Toggled(old(locale))
      ensures locale == Spanish || locale == English
      ensures stored == Some(locale) && documentLang == locale
    {
      var newLang := if locale == Spanish then English else Spanish;
      SetLanguage(newLang);
    }
  }

  /** `getCurrentLanguage` returns what `setLanguage` last set. */
  method SetThenGet(state: LanguageState, lang: string) returns (r: string)
    modifies state
    ensures r == lang
  {
    state.SetLanguage(lang);
    r := state.GetCurrentLanguage();
  }

  /** Two toggles from `es` or `en` come back to the starting locale, stored and shown. */
  method ToggleTwice(state: LanguageState)
    requires state.locale == Spanish || state.locale == English
    modifies state
    ensures state.locale == old(state.locale)
    ensures state.stored == Some(state.locale) && state.documentLang == state.locale
  {
    state.ToggleLanguage();
    state.ToggleLanguage();
    ToggleTwiceRestores(old(state.locale));
  }
}
