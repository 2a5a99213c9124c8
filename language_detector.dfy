/**
 * UI language selection (src/utils/languageDetector.ts): a saved choice wins,
 * otherwise the browser's language list decides between English and Chinese;
 * a fresh decision is persisted under the key "language" and changes are
 * broadcast as `languageChange` events.
 */
module LanguageDetector {
  import opened Wrappers
  import opened Strings

  /** The two UI languages, `'en' | 'zh'`. */
  datatype Lang = En | Zh

  function Code(l: Lang): string {
    match l
    case En => "en"
    case Zh => "zh"
  }

  /** Storage key of the saved choice. */
  const LanguageKey: string := "language"

  /** Substrings that mark a browser language tag as Chinese. */
  const ChineseMarkers: seq<string> := ["zh", "chinese", "cn", "tw", "hk"]

  /** The test applied to one browser language: its lower-case form contains a marker. */
  predicate LooksChinese(tag: string) {
    var lower := ToLower(tag);
    Includes(lower, "zh") || Includes(lower, "chinese") || Includes(lower, "cn")
    || Includes(lower, "tw") || Includes(lower, "hk")
  }

  /** `browserLanguages.some(...)`: some listed language looks Chinese. */
  function HasChineseLang(tags: seq<string>): (b: bool)
    ensures b <==> exists i :: 0 <= i < |tags| && LooksChinese(tags[i])
  {
    if tags == [] then false
    else
      assert forall i :: 1 <= i < |tags| ==> tags[i] == tags[1..][i - 1];
      LooksChinese(tags[0]) || HasChineseLang(tags[1..])
  }

  /** A tag looks Chinese exactly when its lower-case form contains one of the markers. */
  lemma LooksChineseIff(tag: string)
    ensures LooksChinese(tag) <==> exists m :: m in ChineseMarkers && Includes(ToLower(tag), m)
  {
    var lower := ToLower(tag);
    assert forall m :: m in ChineseMarkers <==> m in {"zh", "chinese", "cn", "tw", "hk"};
    if LooksChinese(tag) {
      if Includes(lower, "zh") { assert "zh" in ChineseMarkers; }
      else if Includes(lower, "chinese") { assert "chinese" in ChineseMarkers; }
      else if Includes(lower, "cn") { assert "cn" in ChineseMarkers; }
      else if Includes(lower, "tw") { assert "tw" in ChineseMarkers; }
      else { assert "hk" in ChineseMarkers; }
    }
  }

  /** `navigator.languages || [navigator.language]` (an empty list is kept: it is truthy). */
  function BrowserLanguages(languages: Option<seq<string>>, language: string): seq<string> {
    languages.GetOr([language])
  }

  /** What `detectBrowserLanguage` returns and the value it writes under "language", if any. */
  datatype Detection = Detection(result: string, persisted: Option<string>)

  /**
   * `detectBrowserLanguage` as a function of its inputs: whether a window exists,
   * the saved value under "language" (None for `null`), and the browser languages.
   * A saved value is returned unchecked: the `as 'en' | 'zh'` cast is not a test.
   */
  function Detect(hasWindow: bool, saved: Option<string>, tags: seq<string>): (d: Detection)
    ensures !hasWindow ==> d == Detection("en", None)
    ensures hasWindow && saved.Some? && saved.value != "" ==> d == Detection(saved.value, None)
    ensures hasWindow && (saved.None? || saved.value == "") ==>
      d.persisted == Some(d.result) && (d.result == "en" || d.result == "zh")
  {
    if !hasWindow then Detection("en", None)
    else if saved.Some? && saved.value != "" then Detection(saved.value, None)
    else
      var detected := if HasChineseLang(tags) then Code(Zh) else Code(En);
      Detection(detected, Some(detected))
  }

  /** With nothing saved, the answer is "zh" exactly when some language contains a Chinese marker. */
  lemma DetectChineseIff(saved: Option<string>, tags: seq<string>)
    requires saved.None? || saved.value == ""
    ensures Detect(true, saved, tags).result == "zh" <==>
      exists i, m :: 0 <= i < |tags| && m in ChineseMarkers && Includes(ToLower(tags[i]), m)
  {
    if Detect(true, saved, tags).result == "zh" {
      var i :| 0 <= i < |tags| && LooksChinese(tags[i]);
      LooksChineseIff(tags[i]);
    } else {
      forall i, m | 0 <= i < |tags| && m in ChineseMarkers ensures !Includes(ToLower(tags[i]), m) {
        LooksChineseIff(tags[i]);
      }
    }
  }

  /** A saved value that is a valid code, or no saved value, keeps the result within `'en' | 'zh'`. */
  lemma DetectResultIsLanguage(hasWindow: bool, saved: Option<string>, tags: seq<string>)
    requires saved.None? || saved.value in {"", "en", "zh"}
    ensures Detect(hasWindow, saved, tags).result in {"en", "zh"}
  {
  }

  function Lookup(m: map<string, string>, key: string): Option<string> {
    if key in m then Some(m[key]) else None
  }

  /**
   * The browser as the detector sees it: whether `window` exists, the language
   * list, `localStorage`, the `languageChange` events dispatched so far, and the
   * `language` state of the `useLanguageDetection` hook.
   */
  class Browser {
    const hasWindow: bool
    const languages: seq<string>
    var storage: map<string, string>
    var events: seq<string>
    var language: string

    constructor (hasWindow: bool, navigatorLanguages: Option<seq<string>>, navigatorLanguage: string,
                 storage: map<string, string>)
      ensures this.hasWindow == hasWindow
      ensures languages == BrowserLanguages(navigatorLanguages, navigatorLanguage)
      ensures this.storage == storage && events == [] && language == "en"
    {
      this.hasWindow := hasWindow;
      languages := BrowserLanguages(navigatorLanguages, navigatorLanguage);
      this.storage := storage;
      events := [];
      language := "en";
    }

    /** `detectBrowserLanguage()`: returns the decision and persists a fresh one. */
    method DetectBrowserLanguage() returns (lang: string)
      modifies this`storage
      ensures var d := Detect(hasWindow, Lookup(old(storage), LanguageKey), languages);
        lang == d.result
        && storage == if d.persisted.Some? then old(storage)[LanguageKey := d.persisted.value] else old(storage)
    {
      var d := Detect(hasWindow, Lookup(storage, LanguageKey), languages);
      if d.persisted.Some? {
        storage := storage[LanguageKey := d.persisted.value];
      }
      lang := d.result;
    }

    /** `initializeLanguage()`: the same decision, broadcast when a window exists. */
    method InitializeLanguage() returns (lang: string)
      modifies this`storage, this`events
      ensures var d := Detect(hasWindow, Lookup(old(storage), LanguageKey), languages);
        lang == d.result
        && storage == (if d.persisted.Some? then old(storage)[LanguageKey := d.persisted.value] else old(storage))
        && events == old(events) + (if hasWindow then [lang] else [])
    {
      lang := DetectBrowserLanguage();
      if hasWindow {
        events := events + [lang];
      }
    }

    /** The mount effect of `useLanguageDetection`: adopt the detected language. */
    method Mount()
      modifies this`storage, this`language
      ensures var d := Detect(hasWindow, Lookup(old(storage), LanguageKey), languages);
        language == d.result
        && storage == if d.persisted.Some? then old(storage)[LanguageKey := d.persisted.value] else old(storage)
    {
      language := DetectBrowserLanguage();
    }

    /** `changeLanguage(newLanguage)`: set the state, persist it, broadcast it. */
    method ChangeLanguage(newLanguage: Lang)
      modifies this`language, this`storage, this`events
      ensures language == Code(newLanguage)
      ensures storage == old(storage)[LanguageKey := Code(newLanguage)]
      ensures events == old(events) + [Code(newLanguage)]
    {
      language := Code(newLanguage);
      storage := storage[LanguageKey := Code(newLanguage)];
      events := events + [Code(newLanguage)];
    }
  }
}
