/**
 * The language switcher and back button of the mobile layout
 * (src/components/layout/MobileLayout.tsx) and the translate button of the
 * home page (src/pages/Home.tsx). i18next's current language is
 * `resolvedLanguage`, which may be undefined (`None`).
 */
module Languages {
  import opened Wrappers
  import Flags
  import JsString

  /** A language the layout offers, with the country whose flag stands for it. */
  datatype Language = Language(code: string, countryCode: string)

  const LayoutLanguages: seq<Language> := [Language("en", "us"), Language("es", "es"), Language("id", "id")]

  predicate CodeIs(lang: Language, resolved: Option<string>)
  {
    resolved.Some? && lang.code == resolved.value
  }

  /** `languages.findIndex(lang => lang.code === resolved)`, searching from `from`. */
  function FindFrom(resolved: Option<string>, from: nat): (r: int)
    requires from <= |LayoutLanguages|
    ensures r == -1 || (from <= r < |LayoutLanguages| && CodeIs(LayoutLanguages[r], resolved))
    ensures r == -1 ==> forall k :: from <= k < |LayoutLanguages| ==> !CodeIs(LayoutLanguages[k], resolved)
    ensures r != -1 ==> forall k :: from <= k < r ==> !CodeIs(LayoutLanguages[k], resolved)
    decreases |LayoutLanguages| - from
  {
    if from == |LayoutLanguages| then -1
    else if CodeIs(LayoutLanguages[from], resolved) then from
    else FindFrom(resolved, from + 1)
  }

  function FindIndex(resolved: Option<string>): int
  {
    FindFrom(resolved, 0)
  }

  /** `currentLanguage`: the entry with the resolved code, else the English one. */
  function CurrentLanguage(resolved: Option<string>): (l: Language)
    ensures l in LayoutLanguages
    ensures (exists k :: 0 <= k < |LayoutLanguages| && CodeIs(LayoutLanguages[k], resolved)) ==> CodeIs(l, resolved)
    ensures (forall k :: 0 <= k < |LayoutLanguages| ==> !CodeIs(LayoutLanguages[k], resolved)) ==> l == LayoutLanguages[0]
  {
    var i := FindIndex(resolved);
    if i >= 0 then LayoutLanguages[i] else LayoutLanguages[0]
  }

  /** `(currentIndex + 1) % languages.length`; the left operand is never negative. */
  function LayoutNextIndex(resolved: Option<string>): (r: int)
    ensures 0 <= r < |LayoutLanguages|
  {
    (FindIndex(resolved) + 1) % |LayoutLanguages|
  }

  /** The code `handleLanguageChange` passes to `changeLanguage`; it is always defined. */
  function LayoutNextLanguage(resolved: Option<string>): string
  {
    LayoutLanguages[LayoutNextIndex(resolved)].code
  }

  /** The codes the home page cycles through. */
  const HomeLanguages: seq<string> := ["en", "es", "id"]

  /** `Array.prototype.indexOf` on a list of strings. */
  function IndexOfFrom(xs: seq<string>, x: string, from: nat): (r: int)
    requires from <= |xs|
    ensures r == -1 || (from <= r < |xs| && xs[r] == x)
    ensures r == -1 <==> forall k :: from <= k < |xs| ==> xs[k] != x
    ensures r != -1 ==> forall k :: from <= k < r ==> xs[k] != x
    decreases |xs| - from
  {
    if from == |xs| then -1
    else if xs[from] == x then from
    else IndexOfFrom(xs, x, from + 1)
  }

  /** `onTranslateButtonClick`: an undefined language counts as "en". */
  function HomeNextLanguage(resolved: Option<string>): (r: string)
    ensures r in HomeLanguages
  {
    var i := IndexOfFrom(HomeLanguages, resolved.GetOr("en"), 0);
    HomeLanguages[(i + 1) % |HomeLanguages|]
  }

  /** The layout's cycle: en, es, id and back to en; anything else goes to en. */
  lemma LayoutCycle(resolved: Option<string>)
    ensures resolved == Some("en") ==> LayoutNextLanguage(resolved) == "es"
    ensures resolved == Some("es") ==> LayoutNextLanguage(resolved) == "id"
    ensures resolved == Some("id") ==> LayoutNextLanguage(resolved) == "en"
    ensures resolved !in {Some("en"), Some("es"), Some("id")} ==> FindIndex(resolved) == -1 && LayoutNextLanguage(resolved) == "en"
  {
    if resolved !in {Some("en"), Some("es"), Some("id")} {
      assert forall k :: 0 <= k < |LayoutLanguages| ==> !CodeIs(LayoutLanguages[k], resolved);
    }
  }

  /** The home page's cycle, with undefined read as "en" and an unknown code going to "en". */
  lemma HomeCycle(resolved: Option<string>)
    ensures resolved == Some("en") || resolved == None ==> HomeNextLanguage(resolved) == "es"
    ensures resolved == Some("es") ==> HomeNextLanguage(resolved) == "id"
    ensures resolved == Some("id") ==> HomeNextLanguage(resolved) == "en"
    ensures resolved.Some? && resolved.value !in HomeLanguages ==> HomeNextLanguage(resolved) == "en"
  {
  }

  /** The two buttons pick the same next language exactly when the language is defined. */
  lemma {:induction false} HomeAgreesWithLayout(resolved: Option<string>)
    ensures HomeNextLanguage(resolved) == LayoutNextLanguage(resolved) <==> resolved.Some?
  {
    if resolved.Some? {
      var x := resolved.value;
      var i := IndexOfFrom(HomeLanguages, x, 0);
      var j := FindIndex(resolved);
      assert forall k :: 0 <= k < 3 ==> (HomeLanguages[k] == x <==> CodeIs(LayoutLanguages[k], resolved));
      if i == -1 {
        assert j == -1;
      } else {
        assert j == i;
      }
      assert forall k :: 0 <= k < 3 ==> HomeLanguages[k] == LayoutLanguages[k].code;
    } else {
      assert FindIndex(None) == -1;
    }
  }

  /** Three presses from a known language come back to it, on either button. */
  lemma ThreePressesReturn(code: string)
    requires code in HomeLanguages
    ensures HomeNextLanguage(Some(HomeNextLanguage(Some(HomeNextLanguage(Some(code)))))) == code
    ensures LayoutNextLanguage(Some(LayoutNextLanguage(Some(LayoutNextLanguage(Some(code)))))) == code
  {
    LayoutCycle(Some(code));
    LayoutCycle(Some(LayoutNextLanguage(Some(code))));
    LayoutCycle(Some(LayoutNextLanguage(Some(LayoutNextLanguage(Some(code))))));
  }

  // ---------------------------------------------------------------------------
  // Header
  // ---------------------------------------------------------------------------

  predicate IsHomePage(pathname: string)
  {
    pathname == "/"
  }

  /** The back button is rendered off the home page only. */
  function ShowBackButton(pathname: string): (r: bool)
    ensures r <==> pathname != "/"
  {
    !IsHomePage(pathname)
  }

  datatype Navigation = HistoryBack | NavigateTo(path: string)

  /** `handleBack`: go back when there is somewhere to go back to, else to the home page. */
  function BackAction(historyLength: nat): (n: Navigation)
    ensures n == HistoryBack <==> historyLength > 1
    ensures n != HistoryBack ==> n == NavigateTo("/")
  {
    if historyLength > 1 then HistoryBack else NavigateTo("/")
  }

  /** The flag on the language button: the current language's country as a 40-pixel PNG. */
  function CurrentFlagUrl(resolved: Option<string>): string
  {
    Flags.FlagUrl(CurrentLanguage(resolved).countryCode, Flags.Png, Flags.W40)
  }

  /** English shows the United States flag, also when the language is unknown. */
  lemma {:induction false} FlagForLanguage(resolved: Option<string>)
    ensures resolved == Some("es") ==> CurrentFlagUrl(resolved) == "https://flagcdn.com/w40/es.png"
    ensures resolved == Some("id") ==> CurrentFlagUrl(resolved) == "https://flagcdn.com/w40/id.png"
    ensures resolved !in {Some("es"), Some("id")} ==> CurrentFlagUrl(resolved) == "https://flagcdn.com/w40/us.png"
  {
    Flags.DocumentedExample();
    var c := CurrentLanguage(resolved).countryCode;
    assert c in {"us", "es", "id"};
    if resolved !in {Some("es"), Some("id")} {
      assert forall k :: 1 <= k < |LayoutLanguages| ==> !CodeIs(LayoutLanguages[k], resolved);
      assert c == "us";
    } else {
      assert c == resolved.value;
      assert JsString.ToLower(c) == c;
    }
  }
}
