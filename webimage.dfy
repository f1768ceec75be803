/**
 * The image component (src/components/ui/image.tsx): `convertToWebP`, which
 * rewrites an image URL towards a WebP variant, and the component's
 * `imageSrc`/`isLoading`/`hasError` state, which tries the fallback source
 * once before giving up.
 */
module WebImage {
  import opened Wrappers
  import opened JsString

  // ---------------------------------------------------------------------------
  // convertToWebP
  // ---------------------------------------------------------------------------

  /** The URL already asks for WebP: it contains ".webp", "format=webp" or "fm=webp". */
  predicate IsWebPMarked(url: string)
  {
    Contains(url, ".webp") || Contains(url, "format=webp") || Contains(url, "fm=webp")
  }

  /** At position `i` the URL has "random=" followed by at least one digit: a match of /random=(\d+)/. */
  predicate SeedAt(url: string, i: int)
  {
    OccursAt(url, "random=", i) && i + 7 < |url| && IsDigit(url[i + 7])
  }

  /** The leftmost match of /random=(\d+)/ at or after `i`. */
  function SeedSearch(url: string, i: nat): (r: Option<nat>)
    requires i <= |url|
    ensures r.Some? ==> i <= r.value && SeedAt(url, r.value) && forall j :: i <= j < r.value ==> !SeedAt(url, j)
    ensures r.None? ==> forall j :: i <= j ==> !SeedAt(url, j)
    decreases |url| - i
  {
    if i + 8 > |url| then None
    else if SeedAt(url, i) then Some(i)
    else SeedSearch(url, i + 1)
  }

  /**
   * The picsum seed: the digits matched by the first "random=" that is
   * followed by a digit (all of them, as `\d+` is greedy), or "1" when there
   * is no such match.
   */
  function PicsumSeed(url: string): (seed: string)
    ensures seed != "" && AllDigits(seed)
    ensures (forall i :: !SeedAt(url, i)) ==> seed == "1"
    ensures forall i :: SeedAt(url, i) && (forall j :: 0 <= j < i ==> !SeedAt(url, j)) ==>
      seed == LeadingDigits(url[i + 7..])
  {
    match SeedSearch(url, 0)
    case None => "1"
    case Some(i) =>
      assert url[i + 7..][0] == url[i + 7];
      LeadingDigits(url[i + 7..])
  }

  /** The length of a trailing ".jpg", ".jpeg", ".png" or ".gif" in any letter case, or 0 when there is none. */
  function ImageExtensionLength(url: string): (n: nat)
    ensures n == 0 || n == 4 || n == 5
    ensures n <= |url|
    ensures n == 4 ==> EndsWithIgnoreCase(url, ".jpg") || EndsWithIgnoreCase(url, ".png") || EndsWithIgnoreCase(url, ".gif")
    ensures n == 5 ==> EndsWithIgnoreCase(url, ".jpeg")
    ensures n == 0 ==> (!EndsWithIgnoreCase(url, ".jpg") && !EndsWithIgnoreCase(url, ".jpeg")
                        && !EndsWithIgnoreCase(url, ".png") && !EndsWithIgnoreCase(url, ".gif"))
  {
    if EndsWithIgnoreCase(url, ".jpg") then 4
    else if EndsWithIgnoreCase(url, ".jpeg") then 5
    else if EndsWithIgnoreCase(url, ".png") then 4
    else if EndsWithIgnoreCase(url, ".gif") then 4
    else 0
  }

  predicate IsPicsum(url: string)
  {
    Contains(url, "picsum.photos")
  }

  predicate IsUnsplash(url: string)
  {
    Contains(url, "unsplash.com") || Contains(url, "source.unsplash.com")
  }

  const PicsumReplacementPrefix: string := "https://source.unsplash.com/featured/800x600/?sig="

  /** `convertToWebP(url)`: the first rule that applies, in the source's order. */
  function ConvertToWebP(url: string): string
  {
    if IsWebPMarked(url) then url
    else if IsPicsum(url) then PicsumReplacementPrefix + PicsumSeed(url) + "&fm=webp"
    else if IsUnsplash(url) then url + (if Contains(url, "?") then "&" else "?") + "fm=webp"
    else if ImageExtensionLength(url) > 0 then url[..|url| - ImageExtensionLength(url)] + ".webp"
    else url
  }

  /** The second test of the Unsplash rule adds nothing: every "source.unsplash.com" URL contains "unsplash.com". */
  lemma UnsplashSecondTestRedundant(url: string)
    ensures IsUnsplash(url) <==> Contains(url, "unsplash.com")
  {
    if Contains(url, "source.unsplash.com") {
      var i := IndexOf(url, "source.unsplash.com");
      assert url[i + 7..i + 19] == url[i..i + 19][7..];
      ContainsAt(url, "unsplash.com", i + 7);
    }
  }

  /** A URL that ends with `t` contains it. */
  lemma AppendedIncluded(a: string, t: string)
    ensures Contains(a + t, t)
  {
    EndsWithAppended(a, t);
    ContainsSuffix(a + t, t);
  }

  /** The picsum rule's result asks for WebP. */
  lemma PicsumResultMarked(seed: string)
    ensures IsWebPMarked(PicsumReplacementPrefix + seed + "&fm=webp")
  {
    assert PicsumReplacementPrefix + seed + "&fm=webp" == (PicsumReplacementPrefix + seed + "&") + "fm=webp";
    AppendedIncluded(PicsumReplacementPrefix + seed + "&", "fm=webp");
  }

  /** The Unsplash rule's result asks for WebP. */
  lemma UnsplashResultMarked(url: string, sep: string)
    ensures IsWebPMarked(url + sep + "fm=webp")
  {
    AppendedIncluded(url + sep, "fm=webp");
  }

  /** The extension rule's result asks for WebP. */
  lemma ExtensionResultMarked(stem: string)
    ensures IsWebPMarked(stem + ".webp")
  {
    AppendedIncluded(stem, ".webp");
  }

  /** Every rewriting rule produces a URL that asks for WebP. */
  lemma ConvertToWebPMarks(url: string)
    ensures IsWebPMarked(ConvertToWebP(url)) || ConvertToWebP(url) == url
  {
    if IsWebPMarked(url) {
    } else if IsPicsum(url) {
      PicsumResultMarked(PicsumSeed(url));
    } else if IsUnsplash(url) {
      UnsplashResultMarked(url, if Contains(url, "?") then "&" else "?");
    } else if ImageExtensionLength(url) > 0 {
      ExtensionResultMarked(url[..|url| - ImageExtensionLength(url)]);
    }
  }

  /** Converting a converted URL changes nothing. */
  lemma ConvertToWebPIdempotent(url: string)
    ensures ConvertToWebP(ConvertToWebP(url)) == ConvertToWebP(url)
  {
    ConvertToWebPMarks(url);
  }

  /** A URL ending in ".JPEG" has that extension replaced, whatever its case. */
  lemma ExtensionExample(u: string)
    requires u == "a.JPEG"
    ensures ConvertToWebP(u) == "a.webp"
  {
    ExtensionExampleGuards(u);
    ExtensionRule(u);
    assert u[..|u| - 5] == "a";
  }

  /** Which rules apply to the extension example URL. */
  lemma ExtensionExampleGuards(u: string)
    requires u == "a.JPEG"
    ensures !IsWebPMarked(u) && !IsPicsum(u) && !IsUnsplash(u)
    ensures EndsWithIgnoreCase(u, ".jpeg")
  {
    NotContainsFirstPair(u, ".webp");
    NotContainsFirstChar(u, "fm=webp");
    NotContainsFirstChar(u, "format=webp");
    NotContainsFirstChar(u, "picsum.photos");
    NotContainsFirstChar(u, "unsplash.com");
    NotContainsFirstChar(u, "source.unsplash.com");
    assert u[|u| - 5..] == ".JPEG";
    assert ToLower(".JPEG") == ".jpeg";
  }

  predicate IsUnsplashExample(u: string)
  {
    u == "unsplash.com/p" || u == "unsplash.com/p?w=1"
  }

  lemma UnsplashExampleNotMarked(u: string)
    requires IsUnsplashExample(u)
    ensures !IsWebPMarked(u)
  {
    NotContainsFirstChar(u, "fm=webp");
    NotContainsFirstChar(u, "format=webp");
    NotContainsFirstPair(u, ".webp");
  }

  /** Which rules apply to the two Unsplash example URLs. */
  lemma UnsplashExampleGuards(u: string)
    requires IsUnsplashExample(u)
    ensures !IsWebPMarked(u) && !IsPicsum(u) && IsUnsplash(u)
    ensures Contains(u, "?") <==> u == "unsplash.com/p?w=1"
  {
    UnsplashExampleNotMarked(u);
    if u == "unsplash.com/p" {
      NotContainsFirstChar(u, "?");
    } else {
      ContainsAt(u, "?", 14);
    }
    ContainsAt(u, "unsplash.com", 0);
    NotContainsFirstPair(u, "picsum.photos");
  }

  /** The Unsplash rule, once the earlier rules do not apply. */
  lemma UnsplashRule(url: string)
    requires !IsWebPMarked(url) && !IsPicsum(url) && IsUnsplash(url)
    ensures Contains(url, "?") ==> ConvertToWebP(url) == url + "&fm=webp"
    ensures !Contains(url, "?") ==> ConvertToWebP(url) == url + "?fm=webp"
  {
  }

  /**
   * The picsum rule, once the URL is not already WebP: the replacement URL
   * carries the digits of the first "random=" match as the seed, or "1".
   */
  lemma PicsumRule(url: string)
    requires !IsWebPMarked(url) && IsPicsum(url)
    ensures (forall i :: !SeedAt(url, i)) ==> ConvertToWebP(url) == PicsumReplacementPrefix + "1" + "&fm=webp"
    ensures forall i :: SeedAt(url, i) && (forall j :: 0 <= j < i ==> !SeedAt(url, j)) ==>
      ConvertToWebP(url) == PicsumReplacementPrefix + LeadingDigits(url[i + 7..]) + "&fm=webp"
  {
  }

  /**
   * The extension rule, once the earlier rules do not apply: a trailing
   * ".jpeg" or ".jpg", ".png", ".gif" in any letter case becomes ".webp", and
   * any other URL is returned unchanged.
   */
  lemma ExtensionRule(url: string)
    requires !IsWebPMarked(url) && !IsPicsum(url) && !IsUnsplash(url)
    ensures EndsWithIgnoreCase(url, ".jpeg") ==> ConvertToWebP(url) == url[..|url| - 5] + ".webp"
    ensures (EndsWithIgnoreCase(url, ".jpg") || EndsWithIgnoreCase(url, ".png") || EndsWithIgnoreCase(url, ".gif")) ==>
      ConvertToWebP(url) == url[..|url| - 4] + ".webp"
    ensures (!EndsWithIgnoreCase(url, ".jpeg") && !EndsWithIgnoreCase(url, ".jpg")
             && !EndsWithIgnoreCase(url, ".png") && !EndsWithIgnoreCase(url, ".gif")) ==> ConvertToWebP(url) == url
  {
    if EndsWithIgnoreCase(url, ".jpeg") {
      JpegIsNotFourCharacterExtension(url);
    }
  }

  /** A URL ending in ".jpeg" in any case does not end in ".jpg", ".png" or ".gif" in any case. */
  lemma JpegIsNotFourCharacterExtension(url: string)
    requires EndsWithIgnoreCase(url, ".jpeg")
    ensures !EndsWithIgnoreCase(url, ".jpg") && !EndsWithIgnoreCase(url, ".png") && !EndsWithIgnoreCase(url, ".gif")
  {
    var n := |url|;
    assert ToLower(url[n - 5..])[1] == LowerChar(url[n - 4]) == 'j';
    assert ToLower(url[n - 4..])[0] == LowerChar(url[n - 4]);
  }

  /** An Unsplash URL gets "?fm=webp" without a query and "&fm=webp" after one. */
  lemma UnsplashExamples(u: string, v: string)
    requires u == "unsplash.com/p" && v == "unsplash.com/p?w=1"
    ensures ConvertToWebP(u) == "unsplash.com/p?fm=webp"
    ensures ConvertToWebP(v) == "unsplash.com/p?w=1&fm=webp"
  {
    UnsplashExampleGuards(u);
    UnsplashExampleGuards(v);
    UnsplashRule(u);
    UnsplashRule(v);
  }

  /** A URL in which no "r" occurs has no seed. */
  lemma NoSeedWithoutR(u: string)
    requires forall k :: 0 <= k < |u| ==> u[k] != 'r'
    ensures forall i :: !SeedAt(u, i)
  {
    NotContainsFirstChar(u, "random=");
  }

  predicate IsPicsumExample(u: string)
  {
    u == "picsum.photos/200" || u == "picsum.photos?random=42"
  }

  lemma PicsumExampleGuards(u: string)
    requires IsPicsumExample(u)
    ensures !IsWebPMarked(u) && IsPicsum(u)
  {
    NotContainsFirstChar(u, "fm=webp");
    NotContainsFirstChar(u, "format=webp");
    NotContainsFirstPair(u, ".webp");
    ContainsAt(u, "picsum.photos", 0);
  }

  /** The seed of a picsum URL: the digits after "random=", else "1". */
  lemma PicsumExamples(u: string, v: string)
    requires u == "picsum.photos/200" && v == "picsum.photos?random=42"
    ensures ConvertToWebP(u) == PicsumReplacementPrefix + "1" + "&fm=webp"
    ensures ConvertToWebP(v) == PicsumReplacementPrefix + "42" + "&fm=webp"
  {
    PicsumExampleGuards(u);
    PicsumExampleGuards(v);
    NoSeedWithoutR(u);
    var w := v[..14];
    NoSeedWithoutR(w);
    assert SeedAt(v, 14) by {
      assert v[14..21] == "random=";
    }
    forall j | 0 <= j < 14
      ensures !SeedAt(v, j)
    {
      assert v[j..j + 7][0] == v[j] == w[j];
    }
    assert v[21..] == "42";
    assert LeadingDigits("42") == "42" by {
      assert "42"[1..] == "2";
      assert "2"[1..] == "";
    }
  }

  /**
   * A URL is left as it is exactly when it already asks for WebP or no rule
   * applies to it (not picsum, not Unsplash, no image extension).
   */
  lemma ConvertToWebPUnchangedIff(url: string)
    ensures ConvertToWebP(url) == url <==>
      IsWebPMarked(url) || (!IsPicsum(url) && !IsUnsplash(url) && ImageExtensionLength(url) == 0)
  {
    if !IsWebPMarked(url) {
      if IsPicsum(url) {
        PicsumResultMarked(PicsumSeed(url));
      } else if IsUnsplash(url) {
        var sep := if Contains(url, "?") then "&" else "?";
        assert |url + sep + "fm=webp"| > |url|;
      } else if ImageExtensionLength(url) > 0 {
        ExtensionResultMarked(url[..|url| - ImageExtensionLength(url)]);
      }
    }
  }

  // ---------------------------------------------------------------------------
  // The component's state
  // ---------------------------------------------------------------------------

  /** The component's `imageSrc`, `isLoading` and `hasError`. */
  datatype ImageState = ImageState(imageSrc: string, isLoading: bool, hasError: bool)

  /** A fallback that JavaScript treats as present: defined and non-empty. */
  predicate HasFallback(fallback: Option<string>)
  {
    fallback.Some? && fallback.value != ""
  }

  /** The state on first render. */
  function InitialImage(src: string): ImageState
  {
    ImageState(ConvertToWebP(src), true, false)
  }

  /** `handleError`: switch to a fallback that is not already shown, otherwise give up. */
  function OnError(s: ImageState, fallback: Option<string>): ImageState
  {
    if HasFallback(fallback) && s.imageSrc != fallback.value then ImageState(fallback.value, s.isLoading, false)
    else ImageState(s.imageSrc, false, true)
  }

  /** `handleLoad`. */
  function OnLoad(s: ImageState): ImageState
  {
    s.(isLoading := false)
  }

  /** The "No image" placeholder replaces the image. */
  predicate ShowsPlaceholder(s: ImageState, fallback: Option<string>)
  {
    s.hasError && !HasFallback(fallback)
  }

  /** What the browser reports about the image element. */
  datatype ImageEvent = LoadFailed | Loaded

  function Replay(s: ImageState, fallback: Option<string>, events: seq<ImageEvent>): ImageState
  {
    if events == [] then s
    else
      var before := Replay(s, fallback, events[..|events| - 1]);
      match events[|events| - 1]
      case LoadFailed => OnError(before, fallback)
      case Loaded => OnLoad(before)
  }

  function FailureCount(events: seq<ImageEvent>): nat
  {
    if events == [] then 0
    else FailureCount(events[..|events| - 1]) + (if events[|events| - 1] == LoadFailed then 1 else 0)
  }

  /**
   * From the first render on, the source shown is the converted `src` or the
   * fallback; once an error is recorded the image has stopped loading and no
   * other source is left to try; after one failure the component has either
   * switched to the fallback or given up, and after two it has given up.
   */
  lemma {:induction false} ImageLifecycle(src: string, fallback: Option<string>, events: seq<ImageEvent>)
    ensures var s := Replay(InitialImage(src), fallback, events);
      && (s.imageSrc == ConvertToWebP(src) || (HasFallback(fallback) && s.imageSrc == fallback.value))
      && (s.hasError ==> !s.isLoading && (!HasFallback(fallback) || s.imageSrc == fallback.value))
      && (FailureCount(events) >= 1 ==> s.hasError || (HasFallback(fallback) && s.imageSrc == fallback.value))
      && (FailureCount(events) >= 2 ==> s.hasError)
      && (FailureCount(events) == 0 ==> !s.hasError)
  {
    if events != [] {
      ImageLifecycle(src, fallback, events[..|events| - 1]);
    }
  }

  /** Without a usable fallback the placeholder is shown exactly when some load has failed; with one, never. */
  lemma PlaceholderAfterFailure(src: string, fallback: Option<string>, events: seq<ImageEvent>)
    ensures ShowsPlaceholder(Replay(InitialImage(src), fallback, events), fallback) <==>
      !HasFallback(fallback) && FailureCount(events) >= 1
  {
    ImageLifecycle(src, fallback, events);
  }

  /** The component's state as a mutable object; the props are fixed at construction. */
  class Image {
    const src: string
    const fallback: Option<string>
    var imageSrc: string
    var isLoading: bool
    var hasError: bool

    function State(): ImageState
      reads this
    {
      ImageState(imageSrc, isLoading, hasError)
    }

    /** The first render: the converted source, loading, no error. */
    constructor (src: string, fallback: Option<string>)
      ensures this.src == src && this.fallback == fallback
      ensures State() == InitialImage(src)
    {
      this.src := src;
      this.fallback := fallback;
      imageSrc := ConvertToWebP(src);
      isLoading := true;
      hasError := false;
    }

    method HandleError()
      modifies this
      ensures State() == OnError(old(State()), fallback)
    {
      if fallback.Some? && fallback.value != "" && imageSrc != fallback.value {
        imageSrc := fallback.value;
        hasError := false;
      } else {
        hasError := true;
        isLoading := false;
      }
    }

    method HandleLoad()
      modifies this
      ensures State() == OnLoad(old(State()))
    {
      isLoading := false;
    }
  }
}
